# music-auto download orchestration, modelled in Dafny

This project models the background download machinery of *music-auto*, a
NetEase Cloud Music download service. Its centre is a task manager with
these parts:

- a registry of task records with five statuses (Pending, Running,
  Completed, Failed, Cancelled);
- a FIFO queue of pending entries;
- a pool of workers that start queued tasks and record how each execution
  ended;
- progress reporting that clamps percentages and auto-completes a Running
  task at 100%;
- cancellation that either signals the in-flight execution or takes the
  task out of the queue;
- two housekeeping sweeps.

Around it sit the other parts of the model:

- The three work functions the tasks run: download one song, a playlist,
  or an artist's songs. They poll their own task for cancellation, report
  per-song progress, truncate to a limit, and count every song as a
  success, failure or skip.
- The playlist and artist downloaders' batch loops and download database.
- The pure helpers of the HTTP service and of the NetEase client: id
  extraction, file-name sanitising, the artist match filter, response
  dictionaries, hot-playlist sorting and dedup, hex digests, the
  picture-id scrambler, track batching, the paging loops and the login
  cookie.

The model is purely functional:

- Every method of the task manager is a transition function on an
  immutable `Manager` value.
- `TaskSystem` makes every public method and every worker step an
  `Action`, and a run is any interleaving of enabled actions.
- The network, MD5/base64, the clock, the download database and the task
  manager's answers to "is my task cancelled?" are parameters: oracle
  functions or plain values.
- The work functions return their result together with a trace of
  `Event`s: progress reports and the start of each song's download.
  `Work.Replay` feeds the reports of a trace into the task manager. This
  is how the downloaders and the manager are composed.

Modules and files:

| module | file | source |
|---|---|---|
| `Common` | common.dfy | Python `str`/list operations used throughout |
| `Tasks` | tasks.dfy | task_manager.py |
| `TaskSystem` | task_system.dfy | task_manager.py, as a transition system |
| `Downloads` | songs.dfy | the shared song/result/batch vocabulary of playlist_downloader.py and artist_downloader.py |
| `PlaylistDownloader` | playlist.dfy | playlist_downloader.py |
| `ArtistDownloader` | artist.dfy | artist_downloader.py |
| `Work` | work.dfy | async_downloader.py |
| `ApiService` | api_service.dfy | main.py |
| `MusicApi` | music_api.dfy | music_api.py |

## How the task records behave

- `cancel_task` marks a record Cancelled and stamps its completion time,
  but leaves `error_message` as it was (task_manager.py:405-406). Only the
  worker's interrupt branch writes the cancellation message
  (task_manager.py:158-160). So a task cancelled while Pending carries no
  error message.
- `update_task_progress` leaves a finished record's progress alone
  (task_manager.py:350-357). The worker's normal-return and exception
  branches, however, overwrite the record without looking at its status
  (task_manager.py:137-175). So Cancelled can become Completed, and
  Completed (reached through a 100% report) can become Failed. This is
  the second finding below.
- Records do leave the registry: `cleanup_completed_tasks` deletes every
  record whose completion time is older than the given age
  (task_manager.py:456-470). It is modelled as `Tasks.CleanupCompleted`.

## Model

| member | source | states |
|---|---|---|
| Tasks.NewManager | task_manager.py:46-59 | A new manager has no records, an empty queue, no executions, no workers and no callback. |
| Tasks.Start | task_manager.py:76-87 | Starting a running pool is a no-op. Otherwise the pool is marked running and gains one worker per slot, and records, queue and executions are untouched. |
| Tasks.Stop | task_manager.py:89-102 | Stopping clears the running flag and the workers. Every in-flight execution is interrupted, and records and queue are untouched. |
| Tasks.SetProgressCallback | task_manager.py:334-336 | Installing or removing the callback changes only whether one is installed. |
| Tasks.CreateTask | task_manager.py:195-224 | `create_task` files exactly one new record under a fresh id. The record is Pending with progress 0, zero item counts, no times, no result or error, and the given metadata. Exactly one entry for it is appended at the queue tail, and no other record changes. The pool size, the worker limit, the callback flag, the running map and the notifications stay as they were. |
| Tasks.CreateTaskIssuesFreshId | task_manager.py:206-218 | The new id was not in use, the registry grows by exactly one, and every filed id stays below the counter. |
| Tasks.TaskParams | task_manager.py:249-253 | The call parameters are the metadata plus `task_id` set to the task's id. Every other key keeps its value. |
| Tasks.WorkerStart | task_manager.py:112-132 | The worker pops the queue head. A Cancelled record is skipped with nothing else changed. Otherwise the record becomes Running with its start time, and an uninterrupted handle carrying the metadata plus the id is registered. A vanished record is still executed. No other record changes, and the pool size, worker limit and callback flag stay as they were. |
| Tasks.Settle | task_manager.py:137-175 | The ending written into a record: a return gives Completed with progress 100 and the result; an interrupt gives Cancelled with the fixed message and progress kept; an exception gives Failed with its text and progress kept. The completion time is always set and the other fields are kept. |
| Tasks.WorkerFinish | task_manager.py:134-182 | The execution's id leaves the running map whatever happened. The record, if any, is overwritten with `Settle` regardless of its current status. An installed callback is notified once. Queue and other records are unchanged. |
| Tasks.WorkerFinishFixed | task_manager.py:137-149 | Corrected ending: `Settle` only applies to a record that is still Running. A finished record keeps its status, progress, times and error. A record completed early by a 100% report only gains the returned result. |
| Tasks.Clamp | task_manager.py:353 | `min(100, max(0, p))`: in range; `p` itself when in range; 0 below; 100 above. |
| Tasks.UpdateProgress | task_manager.py:338-382 | An unknown id changes nothing. An active record takes the clamped progress and both counts. A finished record is left exactly as it was. Status changes only Running → Completed, and only when `p >= 100`, which also stamps the completion time. An installed callback is notified once for an existing record, and nothing else changes. |
| Tasks.CancelTask | task_manager.py:384-413 | Returns true iff the record exists and is Pending or Running. It then becomes Cancelled with a completion time and its error message untouched, a running handle is interrupted, and a Pending id leaves the queue in FIFO order. Otherwise it returns false and changes nothing. |
| Tasks.Without | task_manager.py:415-451 | The queue without the entries for `id`: no entry for `id` is left, nothing new appears, and every other entry survives. |
| Tasks.WithoutAppend | task_manager.py:427-451 | Removal distributes over concatenation, so surviving entries keep their relative order. |
| Tasks.WithoutAbsent | task_manager.py:427-442 | A queue without entries for `id` comes back unchanged. |
| Tasks.RemoveFromQueue | task_manager.py:415-454 | The drain-and-refill procedure leaves exactly `Without(q, id)`. It reports a removal iff the queue held an entry for `id`. |
| Tasks.DrainQueue | task_manager.py:423-442 | The first loop collects exactly the entries not for `id`, in order, and notes whether one was dropped. |
| Tasks.Refill | task_manager.py:444-451 | The second loop puts the kept entries back unchanged and in order. |
| Tasks.DrainStep | task_manager.py:427-440 | One more drained entry is either kept at the end or dropped and noted. |
| Tasks.ClearCancelled | task_manager.py:278-321 | Exactly the Cancelled records are deleted and the others are kept as they were. The report has success true, before/after totals, `cleared_count` = before − after = the number of Cancelled records, and the cleared ids. |
| Tasks.CleanupCompleted | task_manager.py:456-470 | Exactly the records whose (truthy) completion time is more than `max_age` old are deleted, and the rest are kept unchanged. |
| TaskSystem.InvInit | task_manager.py:46-59 | A new manager satisfies the bookkeeping invariant. |
| TaskSystem.InvPreserved | task_manager.py:104-470 | Every enabled action of the manager as written keeps the invariant. Records are filed under their own issued ids with progress in 0..100. The queue holds each Pending task once and nothing else. A Pending task has not started or finished and has no execution. A Running task has one. |
| TaskSystem.InvPreservedFixed | task_manager.py:104-470 | The same invariant survives every action with the corrected worker ending. |
| TaskSystem.InvSubmit | task_manager.py:195-224 | `create_task` keeps the invariant. |
| TaskSystem.InvDequeue | task_manager.py:112-132 | Starting the queue head keeps the invariant. |
| TaskSystem.InvFinish | task_manager.py:134-182 | Recording any outcome keeps the invariant. |
| TaskSystem.InvFinishFixed | task_manager.py:137-149 | The corrected ending keeps the invariant. |
| TaskSystem.InvReport | task_manager.py:338-382 | A progress report keeps the invariant. |
| TaskSystem.InvCancel | task_manager.py:384-413 | A cancellation keeps the invariant. |
| TaskSystem.InvClear | task_manager.py:278-321 | Deleting the Cancelled records keeps the invariant. |
| TaskSystem.InvCleanup | task_manager.py:456-470 | Deleting expired records keeps the invariant. |
| TaskSystem.WithoutDistinct | task_manager.py:427-440 | Removing an id from a queue without duplicate ids leaves no duplicates. |
| TaskSystem.DequeueStartsPending | task_manager.py:116-125 | In a reachable manager the queue head is always Pending, so the Cancelled skip is never taken and the head becomes Running with an execution. This holds because enqueueing is one atomic step here (see Left out); in the source `_add_to_queue_sync` may put the entry later (task_manager.py:226-245), after a cancellation, and the worker then skips it (task_manager.py:119-122). |
| TaskSystem.CancelPendingIsDormant | task_manager.py:401-406 | Cancelling a Pending task succeeds and leaves it dormant: no execution, no queue entry, status Cancelled. |
| TaskSystem.DormantStable | task_manager.py:116-122 | Whatever action follows, a dormant task stays dormant, so a task cancelled while Pending is never started. |
| TaskSystem.CancelTwice | task_manager.py:393-394 | A second cancellation of the same task is refused and changes nothing. |
| TaskSystem.FinishedRecordOverwritten | task_manager.py:137-171 | As written, a Cancelled record whose execution returns ends Completed. A record completed by a 100% report whose execution then raises ends Failed. |
| TaskSystem.FixedKeepsFinishedRecord | task_manager.py:137-149 | With the corrected ending, the same two runs end Cancelled and Completed. |
| TaskSystem.FixedFinishedStays | task_manager.py:137-175 | With the corrected ending, every action leaves a finished record's status, start and completion times and progress as they were, for as long as the record exists. |
| Downloads.LyricText | playlist_downloader.py:330-337 | Lyrics are empty unless requested and delivered. Otherwise they are the lyric, the translation, or both with a two-character separator: lyric first, translation last. |
| Downloads.FetchedResult | playlist_downloader.py:326-368 | Success iff the file was delivered, carrying its path, size and lyrics. A reported failure or raised exception gives `failed` with its message, no path and size 0. The song's id, name, artists and album are always copied. |
| Downloads.SkippedResult | playlist_downloader.py:413-438 | A skip carries the database's path and size and no error. |
| Downloads.StoreResult | playlist_downloader.py:447-479 | A success is written as a `success` row with its path and size. A failure is written as a `failed` row with no file. Anything else leaves the database unchanged. |
| Downloads.CountsPartition | playlist_downloader.py:447-465 | Every result is counted under exactly one of the four statuses. |
| Downloads.Percent | playlist_downloader.py:402-404 | `(i / total) * 100` lies in 0..100, is 100 exactly at the last song, and is below 100 before it. |
| Downloads.DownloadSong | playlist_downloader.py:295-368 | The result is `cancelled` iff a task id was given and the task was Cancelled at the check, with no file and the cancellation message. Otherwise it is decided by the fetch, and it is never `skipped`. |
| Downloads.Step | playlist_downloader.py:398-479 | One iteration appends exactly one result and bumps the one counter matching it (a cancelled song bumps none). It keeps the database's keys. |
| Downloads.StepEvents | playlist_downloader.py:401-443 | An iteration skips its song iff the database has a `success` row for it in the target directory, adds at most that song's row, and appends the song's events: as written its report and then, unless skipped, its download; corrected, the download first. |
| Downloads.Run | playlist_downloader.py:389-479 | After k songs there are k results. The counters equal the numbers of successes, failures and skips. Every result belongs to its song, is `cancelled` only if the check saw the cancellation, is a success only if the file was delivered, and a success or failure is in the final database. |
| Downloads.TotalFileSize | playlist_downloader.py:497 | The summed size of the successes: 0 when there is none, and never negative when no size is. |
| Downloads.TotalFileSizeAppend | playlist_downloader.py:497 | The total over two result lists is the sum of their totals. |
| Downloads.TotalFileSizeSnoc | artist_downloader.py:473 | One more success adds its size to the total; any other result adds nothing. |
| Downloads.Reports | task_manager.py:338-364 | The progress reports a trace sends to the task manager, in order, and no more of them than events. |
| Downloads.ReportsAppend | task_manager.py:338-364 | The reports of two traces in turn are the reports of the first and then those of the second. |
| Downloads.SongTraceReports | playlist_downloader.py:402-404 | With a task id a song's events carry exactly its `(i/n)*100` report; without one they carry none. |
| Downloads.SongTraceFetches | playlist_downloader.py:443 | A song's events download that song iff it is not skipped, and no other song. |
| Downloads.SongTraceBelowFull | playlist_downloader.py:402-443 | A song's events report 100% only for the last song, and corrected that report comes after its download. |
| Downloads.SongTraceAsWritten | playlist_downloader.py:402-443 | As written, with a task id, a song's report comes before its download. |
| Downloads.TraceReports | playlist_downloader.py:398-404 | With a task id the reports of the first k songs are `(i/n)*100, i, n` for i = 1..k; without one there are none. |
| Downloads.TraceBelowFull | playlist_downloader.py:398-404 | Before the last song, no report has reached 100%. |
| Downloads.TraceFetchesBelow | playlist_downloader.py:398-443 | The first k songs' events download only those songs. |
| Downloads.TracePrefix | playlist_downloader.py:398-443 | The events of the first k songs depend only on their results. |
| Downloads.FixedTraceOrder | playlist_downloader.py:402-443 | Corrected, no download starts after a 100% report. |
| Downloads.AsWrittenTraceOrder | playlist_downloader.py:402-443 | As written, with a task id, a download starts after a 100% report iff the last song is downloaded, and that happens iff the last song is not skipped. |
| Downloads.RunStep | playlist_downloader.py:398-479 | Iteration k keeps the earlier results, skips iff the database has the song, extends the events by song k's, and adds at most that song's row. |
| Downloads.RunTrace | playlist_downloader.py:398-479 | The loop's events are each song's events in turn, downloaded unless skipped. |
| Downloads.RunReports | playlist_downloader.py:402-404 | With a task id the loop reports `(i/n)*100, i, n` for i = 1..k in order; without one it reports nothing. |
| Downloads.RunKeys | playlist_downloader.py:447-479 | The database gains rows only for songs the loop has handled. |
| Downloads.LastSongNotHere | playlist_downloader.py:412-413 | A last song new to the database and not earlier in the list still has no row when the loop reaches it. |
| Downloads.LastSongDownloaded | playlist_downloader.py:412-443 | Such a last song is downloaded. |
| Downloads.FixedRunOrder | playlist_downloader.py:402-443 | Corrected, the whole loop never starts a download after a 100% report. |
| Downloads.AsWrittenRunOrder | playlist_downloader.py:402-443 | As written, with a task id, the loop starts a download after a 100% report iff it downloads the last song. |
| PlaylistDownloader.DigitRun | playlist_downloader.py:235-236 | The greedy `\d+` group: a prefix of digits, followed by a non-digit or the end. |
| PlaylistDownloader.SearchFrom | playlist_downloader.py:240-243 | `re.search` finds the leftmost match position, or −1 when there is none. |
| PlaylistDownloader.RegexGroup | playlist_downloader.py:241-243 | `re.search(pre + r'(\d+)')`: absent iff the pattern matches nowhere; otherwise the group is the whole digit run after the leftmost match, for whichever position is that leftmost match. |
| PlaylistDownloader.FirstMatchUnique | playlist_downloader.py:241-243 | The leftmost match `re.search` reports is one position. |
| PlaylistDownloader.ExtractPlaylistId | playlist_downloader.py:224-247 | All-digit input is returned unchanged. Otherwise a `playlist?id=<digits>` match wins: the result is the digit run after the leftmost one. Only when that pattern matches nowhere does `playlist/<digits>` decide, again with the digits after its leftmost match. When neither matches, the input is returned. |
| PlaylistDownloader.ExtractFromQuery | playlist_downloader.py:234-243 | A link `<prefix>playlist?id=<digits><rest>` yields exactly its digits when the prefix holds no `?` and the rest does not start with a digit. |
| PlaylistDownloader.ExtractFromWebLink | playlist_downloader.py:234-243 | The service's own web link form yields its digits. |
| PlaylistDownloader.ExtractFromWebPath | playlist_downloader.py:234-243 | The path form `https://music.163.com/playlist/<digits>` yields exactly its digits: `playlist?id=` matches nowhere in it, so the second pattern decides. |
| PlaylistDownloader.ResolveName | playlist_downloader.py:174-188 | A name that is no link, or that gives no extractable id, is kept. |
| PlaylistDownloader.ReplaceIllegal | playlist_downloader.py:191-192 | Every character of `<>:"/\|?*` and every control character becomes `_`, the length is kept, and a legal name is unchanged. |
| PlaylistDownloader.TidyName | playlist_downloader.py:195-199 | The tidied name is nonempty, does not start with a dot, and is made of the input's characters or the default name's. |
| PlaylistDownloader.SanitizeFilename | playlist_downloader.py:171-205 | The directory name is 1 to 100 characters, holds no illegal or control character, and does not start with a dot. |
| PlaylistDownloader.SanitizeKeepsCleanName | playlist_downloader.py:191-205 | A name that is already legal, trimmed, at most 100 long and no link comes back unchanged. |
| PlaylistDownloader.SelectSongs | playlist_downloader.py:544-547 | The selection keeps exactly the playlist's songs whose id is selected. |
| PlaylistDownloader.SelectAppend | playlist_downloader.py:544-547 | Selection distributes over concatenation, so playlist order is kept. |
| PlaylistDownloader.DownloadPlaylistSongs | playlist_downloader.py:370-479 | An empty listing is exactly the error case, with its message. Otherwise there is one result per song, success + failed + skipped + cancelled = songs, and with a task id the reports are `(i/n)*100`, the last being 100% of n. As written, a download starts after the 100% report iff the last song is downloaded, which a last song new to the database always is; corrected, never. |
| PlaylistDownloader.BatchOrder | playlist_downloader.py:402-443 | The order facts of a whole loop: corrected, no download after 100%; as written with a task id, one iff the last song is downloaded. |
| PlaylistDownloader.DownloadSelectedSongs | playlist_downloader.py:524-571 | An empty listing and an empty selection give their two errors. Otherwise the loop runs once per selected song, every result belongs to a selected id, the four counts add up, and the reports run over the selection. As written, a download starts after the 100% report iff the last selected song is downloaded; corrected, never. |
| ArtistDownloader.SanitizeArtistName | artist_downloader.py:122-130 | The name is nonempty, free of `<>:"/\|?*`, has no space or dot at either end, and is made of the input's characters and `_`, or is `unknown_artist`. |
| ArtistDownloader.SanitizeArtistIdempotent | artist_downloader.py:122-130 | Sanitising twice is sanitising once. |
| ArtistDownloader.SanitizeKeepsCleanArtist | artist_downloader.py:122-130 | A nonempty name with no reserved character and no space or dot at either end is its own directory name. |
| ArtistDownloader.SanitizeArtistChoice | artist_downloader.py:126-130 | `unknown_artist` when every character is a space or a dot. Otherwise the result is a stretch of the name, with each reserved character written as `_`, and only spaces and dots lie outside that stretch. |
| ArtistDownloader.ModeOf | artist_downloader.py:240-261 | `all`, `partial` and `exact_multi` select their modes, and every other setting selects `exact_single`. |
| ArtistDownloader.ExactMultiWithinPartial | artist_downloader.py:245-257 | A song kept by `exact_multi` is kept by `partial`. |
| ArtistDownloader.ExactSingleWithinPartial | artist_downloader.py:245-265 | A song kept by `exact_single` is kept by `partial`. |
| ArtistDownloader.FilterPage | artist_downloader.py:234-271 | A page's song is kept iff the mode keeps its artists, and mode `all` keeps the whole page. |
| ArtistDownloader.FilterPageInOrder | artist_downloader.py:234-274 | The kept songs are a subsequence of the page, in page order. |
| ArtistDownloader.FilterAppend | artist_downloader.py:234-274 | Filtering distributes over concatenated pages. |
| ArtistDownloader.Collect | artist_downloader.py:223-281 | The request loop returns a subsequence of the listed songs, all kept by the mode. It gives up only if some request raised. |
| ArtistDownloader.SearchArtistSongs | artist_downloader.py:202-289 | The search returns kept songs in listing order, and nothing at all when a request raised. |
| ArtistDownloader.SearchConcatenatesPages | artist_downloader.py:223-281 | With full pages followed by a short one, the search returns the filter of all pages concatenated. |
| ArtistDownloader.DownloadSong | artist_downloader.py:291-366 | As written: with a task id and a Cancelled task the result is `failed` with the missing-`album` exception text, and it is never `cancelled` or `skipped`. Otherwise it equals the playlist downloader's result. |
| ArtistDownloader.CancelledSongComesBackFailed | artist_downloader.py:310-321 | A cancelled song comes back `failed` here, where the playlist downloader's `download_song` gives `cancelled`. |
| ArtistDownloader.DownloadArtistSongs | artist_downloader.py:368-456 | Nothing found is exactly the error case. Otherwise there is one result per found song in order, nothing is ever `cancelled`, no progress is reported, and success + failed + skipped = found. |
| Work.Replay | task_manager.py:348-364 | Replaying reports touches only the task's own record. A finished record is left exactly as it is. |
| Work.ReplayBelowFullKeepsRunning | task_manager.py:361-364 | Reports below 100% leave a Running task Running. |
| Work.FullReportCompletes | task_manager.py:361-394 | A 100% report reaching a Running task completes it, and a cancellation after it is refused. |
| Work.FetchesSeeRunningTask | task_manager.py:361-394 | If no download follows a 100% report, the task is still Running whenever a download starts, so a cancellation then is accepted. |
| Work.CloseWith | async_downloader.py:294-296 | The closing report is appended iff its guard saw no cancellation. |
| Work.SyncDownloadMusic | async_downloader.py:324-392 | Cancelled on entry means nothing happens. A raising download gives an error result with its text. Cancelled after the download means no report. Success iff the file was delivered, with its path and size. The only report is 100% of 1, sent iff its guard saw no cancellation. |
| Work.MusicTaskCompletesItself | async_downloader.py:367-369 | Left alone, a Running music task ends Completed through its own 100% report, whatever the download did. |
| Work.PlaylistBatch | async_downloader.py:127-133 | A non-empty selection runs the selected-songs loop, otherwise the whole playlist. Either way the reports are `(i/n)*100` and the counts add up. As written, a download follows the 100% report iff the last song is downloaded, as a new last song of the whole playlist always is; corrected, never. |
| Work.Closing | async_downloader.py:147-151 | The closing report is 100% with `success_count + skipped_count` of `total_songs`, and 0 of 0 for a failed batch. |
| Work.SyncDownloadPlaylist | async_downloader.py:66-168 | Cancelled on entry means nothing is done. A setup error gives the error result, with a report iff the error guard saw no cancellation. A cancellation seen after the batch returns it as a partial result with no closing report. Otherwise the batch's reports are followed by the closing report iff its guard saw no cancellation. A download follows a 100% report iff the run is as written, reached the batch, and the batch downloaded its last song. |
| Work.FullReportSticks | task_manager.py:350-364 | Once a Running task's trace has reported 100%, its record is Completed whatever follows. |
| Work.FetchAfterFullSeesCompleted | task_manager.py:361-394 | If a trace starts a download after a 100% report, some download starts when the task is already Completed and a cancellation is refused. |
| Work.PlaylistEarlyCompletion | playlist_downloader.py:402-443 | As written, an uncancelled playlist task whose last song is new to the database is already Completed when that song's download starts, so a cancellation then is refused. |
| Work.PlaylistFixedRunStaysCancellable | playlist_downloader.py:402-443 | Corrected, a Running playlist task is still Running whenever a download starts, so a cancellation then is accepted. |
| Work.PlaylistReportsBounded | async_downloader.py:136-163 | Every report of a playlist task is a percentage with at most `total` items processed, and the last is 100%. |
| Work.ApplyLimit | async_downloader.py:244-246 | A positive limit below the number found keeps exactly the first `limit` songs. Anything else keeps all of them. |
| Downloads.SongReport | async_downloader.py:269-270 | Song i of n reports `(i+1)/n*100` with i+1 processed, which reaches 100 only for the last song. |
| Work.Advance | async_downloader.py:273-289 | Appending a result keeps the counters in agreement with the results. |
| Work.ArtistLoop | async_downloader.py:256-289 | The loop either handles every song, or stops before song i, which only happens when the check before song i saw a cancellation. Each handled song leaves two events. |
| Work.ArtistLoopTallied | async_downloader.py:275-280 | success, failed and skipped (anything else) counters equal the counts in the results. |
| Work.ArtistLoopContents | async_downloader.py:256-289 | Every handled song passed its check, its result is its download, and its two events are in place. |
| Work.LoopEventAt | async_downloader.py:268-273 | Event j of the loop belongs to song j/2. |
| Work.StoppedLoopBelowFull | async_downloader.py:256-270 | A loop stopped by a cancellation never reported 100%. |
| Work.FixedLoopNoFetchAfterFull | async_downloader.py:268-273 | With the download before the report, no download starts after a 100% report. |
| Work.ArtistWork | async_downloader.py:171-321 | Cancelled on entry means nothing is done. A setup error reports 100% of 0 unless cancelled. Nothing found is an error. A cancellation before a song returns the results so far. A finished run returns the counters and, unless cancelled at the guard, the closing 100% report, and its counts add up to the songs. |
| Work.PartialResultsBeforeCancel | async_downloader.py:256-266 | The partial results of a run cancelled before song i are exactly the downloads of songs 0..i−1, and no download of song i or later started. |
| Work.DoneResults | async_downloader.py:256-305 | A finished run's results are the downloads of its songs, in order. |
| Work.AsWrittenTrace | async_downloader.py:268-273 | As written, a run has a download after a 100% report iff it finished. A song stopped by a cancellation comes back `failed`, never `cancelled`. |
| Work.FullLoopFetchesAfterFull | async_downloader.py:268-273 | A loop that ran to its end reported 100% before starting the last download. |
| Work.SyncDownloadArtist | async_downloader.py:171-321 | As written, a download follows a 100% report exactly in the runs that finish. In a finished run a song whose check saw the cancellation counts as failed, never `cancelled`. |
| Work.AsWrittenLastSongOrder | async_downloader.py:268-273 | In an uncancelled run every report before the last song's is below 100%, the last song's report is 100%, and its download follows. |
| Work.EarlyCompletion | async_downloader.py:268-273 | In an uncancelled artist run the Running task is already Completed when the last download starts, so a cancellation sent then is refused. |
| Work.CompletedOnFullReport | task_manager.py:361-364 | A trace whose first 100% report is its last event ends a Running task Completed and not cancellable. |
| Work.FixedTrace | async_downloader.py:268-273 | Corrected: no download follows a 100% report, and a song is `cancelled` iff its check saw the cancellation. |
| Work.SyncDownloadArtistFixed | async_downloader.py:171-321 | Corrected run: downloads always precede the 100% report, and cancelled songs are `cancelled`. |
| Work.FixedRunStaysCancellable | async_downloader.py:256-273 | With the correction, the task is Running whenever any download starts, so a cancellation then is accepted. |
| Work.MusicContentName | async_downloader.py:406-417 | The display name is `歌曲_<id>` without song information. Otherwise it is the song name followed by ` - `. |
| Work.PlaylistContentName | async_downloader.py:444-454 | The display name is `歌单: ` and the playlist's name (or `歌单_<id>` when it has none) for a found playlist, and `歌单_<id>` otherwise. |
| Work.SubmitMusic | async_downloader.py:395-425 | One Pending `music_download` task is created with exactly the id, quality and display name as metadata, and queued at the tail. |
| Work.SubmitPlaylist | async_downloader.py:428-465 | One Pending `playlist_download` task is created with exactly the id, quality, lyric flag, concurrency, selection and display name, and queued at the tail. |
| Work.SubmitArtist | async_downloader.py:468-497 | One Pending `artist_download` task is created with exactly the name, quality, limit, mode, lyric flag, concurrency and `艺术家: <name>`, and queued at the tail. |
| Work.SubmittedTaskStartsWithItsParams | task_manager.py:112-132 | A task submitted to an idle started manager is started next. It turns Running with its metadata untouched, and its execution gets the metadata plus its own id. |
| ApiService.Success | main.py:95-109 | Status, `success: true` and message are set, then `data` iff it is not None, then the extra fields, which win. The status code is returned too. |
| ApiService.Error | main.py:111-121 | Status, `success: false` and message are set, plus `error_code` iff it is a nonempty text. |
| ApiService.SuccessAndErrorDiffer | main.py:96-121 | A success and an error response are never the same dictionary unless extra fields overwrite `success`. |
| ApiService.ValidateRequestParams | main.py:234-239 | Returns nothing iff every value is truthy. Otherwise it returns a 400 error naming the first falsy parameter. |
| ApiService.ValidationNamesFirstEmpty | main.py:236-238 | The error names exactly the first falsy parameter. |
| ApiService.IdFromLink | main.py:193-199 | A `music.163.com` text with `id=` gives the text after the first `id=` up to the first `&`. Anything else is kept. |
| ApiService.ExtractMusicId | main.py:180-203 | The input is stripped. A non-short link goes through the link rule. Plain text is kept. A short link whose request failed is returned stripped. |
| ApiService.PlainIdUnchanged | main.py:184-199 | A numeric id comes back unchanged. |
| ApiService.ExtractFromSongLink | main.py:193-196 | `<prefix>id=<digits>` followed by nothing or `&…` yields exactly the digits. |
| ApiService.LinkCutAfterId | main.py:194-196 | After the first `id=`, the result is the longest `&`-free prefix. |
| ApiService.UnknownQualityName | main.py:232 | An unknown level is shown as `未知音质(<q>)`. |
| ApiService.QualityDisplayName | main.py:220-232 | The eight known levels get their table names, and anything else gets `未知音质(<q>)`. |
| ApiService.QualityDisplayNameInjective | main.py:222-232 | Different quality settings never share a display name. |
| ApiService.SortByPlays | main.py:1063-1064 | The sort is by descending play count and is a permutation of its input. |
| ApiService.SortIsStable | main.py:1064 | For every play count, its playlists keep their input order. |
| ApiService.InsertKeepsTies | main.py:1064 | An inserted playlist goes before its equals. |
| ApiService.DedupFrom | main.py:1073-1081 | The dedup loop keeps only input playlists with a truthy, unseen id, and no id twice. |
| ApiService.DedupCovers | main.py:1076-1080 | Every truthy unseen id appears in the output. |
| ApiService.DedupKeepsFirst | main.py:1076-1080 | The playlist kept for an id is its first occurrence. |
| ApiService.DedupSorted | main.py:1073-1081 | Dedup keeps a sorted list sorted. |
| ApiService.HotPlaylists | main.py:1063-1081 | The hot list comes out sorted by descending play count, with distinct truthy ids, drawn from the input. |
| ApiService.HotPlaylistsCoverIds | main.py:1073-1081 | Every truthy input id is represented. |
| ApiService.HotPlaylistKeepsFirstOfId | main.py:1063-1081 | For each id, the kept playlist is the first one in the stable sorted order. |
| ApiService.SafeArtistName | main.py:789-791 | The name is nonempty, free of `<>:"/\|?*`, has no space or dot at either end, and is made of the first artist's characters, or is `Unknown`. |
| ApiService.SafeArtistNameIdempotent | main.py:789-791 | A safe name used as the only artist comes back unchanged. |
| ApiService.SafeKeepsCleanArtist | main.py:789-791 | A first artist with no reserved character and no space or dot at either end names the directory unchanged, whatever artists follow. |
| ApiService.SafeArtistChoice | main.py:789-791 | `Unknown` when there is no artist, or when every character of the first artist is reserved, a space or a dot. Otherwise the result is a stretch of the first artist with its reserved characters removed, and only spaces and dots lie outside that stretch. |
| MusicApi.ByteHex | music_api.py:81 | A byte is written as two lower-case hex digits, high nibble first. |
| MusicApi.HexDigest | music_api.py:79-81 | The digest has two lower-case hex digits per byte. |
| MusicApi.HexDigestDecodes | music_api.py:79-81 | Decoding the digest gives the bytes back. |
| MusicApi.XorChar | music_api.py:527 | `chr(ord(c) ^ ord(m))` for an ASCII key changes only the low seven bits. |
| MusicApi.XorCharTwice | music_api.py:527 | XORing twice with the same key restores the character. |
| MusicApi.XorStage | music_api.py:523-529 | Length is kept, and character i is XORed with `magic[i % 18]`. |
| MusicApi.XorStageInvolution | music_api.py:523-529 | The XOR stage undoes itself. |
| MusicApi.UrlSafe | music_api.py:532 | `/` becomes `_` and `+` becomes `-`, and everything else is kept. |
| MusicApi.UrlSafeIdempotent | music_api.py:532 | Making text URL-safe twice is making it URL-safe once. |
| MusicApi.EncryptId | music_api.py:511-534 | The encrypted id has the digest's length and holds no `/` or `+`. |
| MusicApi.PicUrl | music_api.py:536-550 | The URL is empty iff there is no id. Otherwise it is the fixed host, the encrypted id and a `/`, followed by the file part. |
| MusicApi.PicUrlSegment | music_api.py:549-550 | The URL splits at `/` into five pieces, and the fourth is exactly the encrypted id. |
| MusicApi.PicUrlPieces | music_api.py:550 | The URL is its five pieces joined with `/`. |
| MusicApi.SplitJoin | music_api.py:550 | Slash-free pieces joined with `/` split back into the same pieces. |
| MusicApi.BatchesFrom | music_api.py:432-433 | Batches hold 1 to `size` ids, and all but the last are full. |
| MusicApi.TrackBatches | music_api.py:431-434 | Track ids are fetched in batches of at most 100, all full but the last. |
| MusicApi.BatchesCover | music_api.py:432-433 | The batches from `start` concatenate to the ids from `start`. |
| MusicApi.TrackBatchesConcat | music_api.py:431-434 | Every track id is fetched exactly once, in playlist order. |
| MusicApi.PageLoop | music_api.py:576-626 | The loop asks for at most `max_pages` pages and returns at most `limit` items. |
| MusicApi.PageLoopCollects | music_api.py:576-626 | The returned list is exactly the items of the pages asked for, in page order, or a prefix of them when a limit is set. |
| MusicApi.PersonalizedPlaylists | music_api.py:571-629 | The personalised listing asks for at most 2 pages and respects the limit. |
| MusicApi.HighQualityPlaylists | music_api.py:1122-1188 | The high-quality listing asks for at most 20 pages and respects the limit. |
| MusicApi.AddNew | music_api.py:1052-1070 | Only new ids are appended to what was collected, so ids stay distinct. |
| MusicApi.AddNewCovers | music_api.py:1052-1070 | Every playlist of the page ends up listed by id. |
| MusicApi.SearchPages | music_api.py:1020-1089 | One keyword's pages keep ids distinct. A return from the whole search respects the limit, and carrying on means staying below it. |
| MusicApi.SearchKeywordsFrom | music_api.py:1014-1093 | The keyword loop keeps ids distinct and respects the limit. |
| MusicApi.PlaylistsBySearch | music_api.py:997-1096 | `_get_playlists_by_search` returns distinct ids, at most `limit` of them. |
| MusicApi.CategoryPlaylists | music_api.py:707-743 | The result respects the limit. For a named category it is a prefix of that listing. For `全部` it is a prefix of search, discovery and hot lists in that order, and holds all search results when they fit. |
| MusicApi.CookieValue | music_api.py:1313 | The value is a prefix of the text after the first `MUSIC_U=`. It holds no `;` and no `MUSIC_U=`, and it stops at the end of the text, at a `;` or at the next `MUSIC_U=`. |
| MusicApi.CookieValueUnique | music_api.py:1313 | Those facts determine the value: any prefix of the text after the marker that meets them equals it. |
| MusicApi.ShorterStopsLonger | music_api.py:1313 | Of two prefixes free of `;` and `MUSIC_U=`, the shorter cannot end at the end of the text, at a `;` or at a `MUSIC_U=`. The marker does not overlap itself. |
| MusicApi.LastMusicU | music_api.py:1310-1313 | A value is found iff some cookie carries `MUSIC_U=`. It is the value of a cookie that carries it and is followed by no cookie that does, so the loop's last overwrite wins. |
| MusicApi.LastMusicUSnoc | music_api.py:1311-1313 | One more cookie replaces the value iff it carries `MUSIC_U=`, and otherwise leaves it alone. |
| MusicApi.LaterCarrierWins | music_api.py:1311-1313 | Cookies before a group that holds a carrier have no effect on the value. |
| MusicApi.ExtractMusicU | music_api.py:1306-1315 | Only code 803 fills `MUSIC_U`. With 803, the header is split at `, `; a value is present iff some piece carries `MUSIC_U=`, and it is the value of the last such piece. It holds no `;` and no `MUSIC_U=`. |
| MusicApi.MusicUFromCookie | music_api.py:1308-1313 | A single `MUSIC_U=<v>; …` cookie yields exactly `v`. |
| Common.PyTake | music_api.py:617-618 | `xs[:k]` is a prefix whose length follows Python's slicing for positive and negative `k`. |
| Common.Strip | artist_downloader.py:129 | `strip(chars)` returns the infix left when the set's characters are removed from both ends. |
| Common.StripRemovesOnly | artist_downloader.py:129 | `strip` removes only characters of the set: everything outside the kept infix is one of them. |
| Common.StripEmptyIff | artist_downloader.py:129-130 | `strip` leaves the empty string exactly when every character is in the set, which is when the `or` fallback fires. |
| Common.Split | artist_downloader.py:254 | `split(sep)` gives pieces without `sep` that join back to the text. |

## Left out

- Concurrency: the asyncio loop, the thread pool, the blocking queue and thread races between request threads and the loop. Each method is one atomic step. A run is any interleaving of steps, and an interrupt is a flag on the running handle.
- `_add_to_queue_sync`/`_add_to_queue_async`: their event-loop juggling is reduced to appending to the queue.
- `get_task`/`get_all_tasks`: these are plain lookups. The work functions' use of them is the cancellation oracle `Check -> bool`.
- `clear_cancelled_tasks`' exception branch: deleting from a map cannot fail in the model.
- Network I/O: every HTTP request, the 163cn.tv redirect (the `follow` oracle) and the playlist-name lookup (the `lookup` oracle) are parameters. So are the search and listing requests (`fetch`/`search` oracles) and the song download (`Fetch`). QR polling and sleeps are left out.
- The paging loops' `APIException` on a non-200 code: the listing fetchers are given as inputs and always answer.
- Crypto: MD5, base64, AES and `json.dumps` are not computed. `MusicApi.EncryptId` takes the MD5-then-base64 step as the parameter `md5Base64`.
- The download database (download_db.py) is a map from song id to its last row. SQLite, the file system, the JSON result files and directory creation are left out.
- Floating point: progress is an exact `real`, so `(i / n) * 100` has no rounding. Timings, success rates and file-size formatting are left out.
- Python's Unicode `lower()`, `strip()` and `isdigit()` are modelled on ASCII; other characters are kept as they are.
- The dictionary-shaped branch of hot-playlist post-processing (main.py:1065-1070) is not modelled; only the list branch is.
- The Flask routes, socket events, logging, the CLI in hot_playlist_fetcher.py, the Vue front end and test_async_download.py.
- The `playlist/(\d+)/` pattern of `_extract_playlist_id` adds nothing: it can only match where `playlist/(\d+)` already does.
- Work.MusicContentName: states only the song-name prefix and the ` - ` separator, not the `, `-joined artist names that follow.
- PlaylistDownloader.ResolveName: states only the cases where the name is kept, because the replacement name comes from the lookup oracle.
- ArtistDownloader.Collect: states that the result is a filtered subsequence of the pages; the exact stopping rule is stated only by `SearchConcatenatesPages`, for full pages followed by a short one.
- The search page size of the artist downloader is fixed at its default of 100; reading it from the service's configuration is left out.

## Findings

| source | as written | input that shows it | evidently intended | confidence | as-written member | corrected member |
|---|---|---|---|---|---|---|
| artist_downloader.py:315-321 | The `cancelled` result is built without the required `album` argument. The constructor raises, and the handler at lines 357-366 turns the song into `failed`. | Any song downloaded with a task id while the task is Cancelled. | A `cancelled` result, as the playlist downloader builds it at playlist_downloader.py:316-323. | high (not executed) | ArtistDownloader.DownloadSong, ArtistDownloader.CancelledSongComesBackFailed | Downloads.DownloadSong, Work.SyncDownloadArtistFixed |
| task_manager.py:137-149 | The normal-return branch writes Completed without checking the status (the check at line 142 follows the assignment, so it always holds). The exception branch likewise writes Failed. | Cancel a Running download whose execution has already returned: the record goes Cancelled → Completed. Or report 100% and then raise: Completed → Failed. | Outcomes are recorded only for a record that is still Running, so a finished status stays put. | medium (not executed) | Tasks.WorkerFinish, TaskSystem.FinishedRecordOverwritten | Tasks.WorkerFinishFixed, TaskSystem.FixedKeepsFinishedRecord |
| async_downloader.py:268-273 | The progress report for a song is sent before the song is downloaded. The last song's `(n/n)*100` report auto-completes the Running task (task_manager.py:361-364) while that song is still to be downloaded. From then on a cancellation is refused. | Any uncancelled artist run with at least one song. | Report after the download, so the task is Running whenever a download starts. | high (not executed) | Work.SyncDownloadArtist, Work.EarlyCompletion | Work.SyncDownloadArtistFixed, Work.FixedRunStaysCancellable |
| playlist_downloader.py:402-404 | The progress report for song i is sent before `download_song` at line 443. The last song's `(n/n)*100` report auto-completes the Running task (task_manager.py:361-364) while that song is still to be downloaded. `download_song` then runs on a Completed task: its own check at lines 311-314 looks only for Cancelled, and `cancel_task` refuses a Completed task (task_manager.py:393-394). | An uncancelled playlist task whose last song has no row in the download database. | Report after the download, so the task is Running whenever a download starts. | high (not executed) | Downloads.AsWrittenRunOrder, Work.PlaylistEarlyCompletion | Downloads.FixedRunOrder, Work.PlaylistFixedRunStaysCancellable |
