/**
 The background work functions of the downloader service
 (`sync_download_music`, `sync_download_playlist`, `sync_download_artist`)
 and the `submit_*` helpers that hand them to the task manager.

 A work function runs outside the task manager. It asks the manager at
 fixed places whether its own record is Cancelled (the answers are an
 oracle `Check -> bool`), reports progress, downloads, and always returns:
 every exception is caught and turned into an unsuccessful result. What the
 task manager sees of a run is its trace of events; `Replay` feeds the
 trace's reports through `update_task_progress`.
 */
module Work {
  import opened Common
  import opened Downloads
  import Tasks
  import PlaylistDownloader
  import ArtistDownloader

  /** The cancellation oracle of a run that nobody cancels. */
  predicate Never(c: Check) {
    false
  }

  // ---------------------------------------------------------------------------
  // Composition with the task manager

  /**
   The task manager after the reports of a trace have reached
   `update_task_progress` one after the other; starting a download is
   invisible to it.
   */
  function Replay(m: Tasks.Manager, id: Tasks.TaskId, events: seq<Event>, now: Tasks.Time): (r: Tasks.Manager)
    ensures r.tasks.Keys == m.tasks.Keys
    ensures forall k :: k in m.tasks && k != id ==> r.tasks[k] == m.tasks[k]
    ensures r.queue == m.queue && r.running == m.running && r.nextId == m.nextId
    ensures id in m.tasks && m.tasks[id].status.IsFinished() ==> r.tasks[id] == m.tasks[id]
    decreases |events|
  {
    if events == [] then m
    else
      var prev := Replay(m, id, events[..|events| - 1], now);
      match events[|events| - 1]
      case Fetching(_) => prev
      case Reported(p) => Tasks.UpdateProgress(prev, id, p.percent, p.processed, p.total, now)
  }

  /** Reports below 100% leave a Running record Running. */
  lemma {:induction false} ReplayBelowFullKeepsRunning(m: Tasks.Manager, id: Tasks.TaskId, events: seq<Event>, now: Tasks.Time)
    requires id in m.tasks && m.tasks[id].status == Tasks.Running
    requires BelowFull(events)
    ensures Replay(m, id, events, now).tasks[id].status == Tasks.Running
    decreases |events|
  {
    if events != [] {
      var init := events[..|events| - 1];
      assert forall j :: 0 <= j < |init| ==> init[j] == events[j];
      ReplayBelowFullKeepsRunning(m, id, init, now);
    }
  }

  /**
   A 100% report reaching a Running record completes it, and a cancellation
   arriving afterwards is refused.
   */
  lemma FullReportCompletes(m: Tasks.Manager, id: Tasks.TaskId, events: seq<Event>, now: Tasks.Time, later: Tasks.Time)
    requires id in m.tasks && events != []
    requires events[|events| - 1].Reported? && events[|events| - 1].progress.percent >= 100.0
    requires Replay(m, id, events[..|events| - 1], now).tasks[id].status == Tasks.Running
    ensures Replay(m, id, events, now).tasks[id].status == Tasks.Completed
    ensures !Tasks.CancelTask(Replay(m, id, events, now), id, later).1
  {
  }

  /**
   When no download follows a 100% report, the record of a task that was
   Running is still Running whenever a download starts, so a cancellation
   at that moment is accepted.
   */
  lemma FetchesSeeRunningTask(m: Tasks.Manager, id: Tasks.TaskId, events: seq<Event>, j: nat, now: Tasks.Time, later: Tasks.Time)
    requires id in m.tasks && m.tasks[id].status == Tasks.Running
    requires NoFetchAfterFull(events)
    requires j < |events| && events[j].Fetching?
    ensures Replay(m, id, events[..j], now).tasks[id].status == Tasks.Running
    ensures Tasks.CancelTask(Replay(m, id, events[..j], now), id, later).1
  {
    var before := events[..j];
    forall i | 0 <= i < |before| && before[i].Reported?
      ensures before[i].progress.percent < 100.0
    {
      assert before[i] == events[i];
    }
    ReplayBelowFullKeepsRunning(m, id, before, now);
  }

  // ---------------------------------------------------------------------------
  // One song: `sync_download_music`

  /** The result dictionary of `sync_download_music`. */
  datatype MusicOutcome =
    | MusicCancelled    // success False with the cancellation message
    | MusicDone(success: bool, filePath: Option<string>, fileSize: int, errorMessage: Option<string>)
    | MusicRaised(message: string)

  /** The report a music task sends at its end, one item of one. */
  const SingleDone: Progress := Progress(100.0, 1, 1)

  /** The closing report, sent only when the guard before it did not see the task Cancelled. */
  function CloseWith(events: seq<Event>, cancelledAtGuard: bool, last: Progress): (r: seq<Event>)
    ensures |r| == |events| + (if cancelledAtGuard then 0 else 1)
    ensures r[..|events|] == events
    ensures !cancelledAtGuard ==> r[|events|] == Reported(last)
  {
    if cancelledAtGuard then events else events + [Reported(last)]
  }

  /**
   `sync_download_music`: nothing is downloaded when the task is Cancelled on
   entry; a raising download becomes an unsuccessful result; a task
   Cancelled during the download reports nothing more; the only report is
   the closing 100%, sent when its guard sees no cancellation.
   */
  function SyncDownloadMusic(cancelled: Check -> bool, fetch: Fetch): (r: (MusicOutcome, seq<Event>))
    ensures cancelled(OnEntry) <==> r.1 == []
    ensures cancelled(OnEntry) ==> r.0 == MusicCancelled
    ensures !cancelled(OnEntry) ==> r.1[0] == Fetching(0) && |r.1| <= 2 && forall j :: 1 <= j < |r.1| ==> r.1[j] == Reported(SingleDone)
    ensures r.0 == MusicCancelled <==> cancelled(OnEntry) || (!fetch.FetchRaised? && cancelled(AfterDownload))
    ensures r.0.MusicRaised? <==> !cancelled(OnEntry) && fetch.FetchRaised?
    ensures r.0.MusicRaised? ==> r.0.message == fetch.message
    ensures r.0.MusicDone? ==> (r.0.success <==> fetch.Fetched?)
    ensures r.0.MusicDone? && r.0.success ==>
              r.0.filePath == Some(fetch.path) && r.0.fileSize == fetch.size && r.0.errorMessage.None?
    ensures r.0.MusicDone? && !r.0.success ==>
              r.0.filePath.None? && r.0.fileSize == 0 && r.0.errorMessage == Some(fetch.message)
    ensures |r.1| == 2 <==> (r.0.MusicDone? && !cancelled(FinalReport)) || (r.0.MusicRaised? && !cancelled(OnError))
  {
    if cancelled(OnEntry) then (MusicCancelled, [])
    else
      match fetch
      case FetchRaised(message) =>
        (MusicRaised(message), CloseWith([Fetching(0)], cancelled(OnError), SingleDone))
      case Fetched(path, size, _) =>
        if cancelled(AfterDownload) then (MusicCancelled, [Fetching(0)])
        else (MusicDone(true, Some(path), size, None), CloseWith([Fetching(0)], cancelled(FinalReport), SingleDone))
      case NotFetched(message) =>
        if cancelled(AfterDownload) then (MusicCancelled, [Fetching(0)])
        else (MusicDone(false, None, 0, Some(message)), CloseWith([Fetching(0)], cancelled(FinalReport), SingleDone))
  }

  /**
   Left alone, a music task that was Running ends Completed through its own
   100% report, whether the download succeeded, failed or raised.
   */
  lemma MusicTaskCompletesItself(m: Tasks.Manager, id: Tasks.TaskId, fetch: Fetch, now: Tasks.Time)
    requires id in m.tasks && m.tasks[id].status == Tasks.Running
    ensures var r := SyncDownloadMusic(Never, fetch);
            |r.1| == 2 && Replay(m, id, r.1, now).tasks[id].status == Tasks.Completed
  {
    var r := SyncDownloadMusic(Never, fetch);
    assert r.1[..1] == [Fetching(0)];
    ReplayBelowFullKeepsRunning(m, id, r.1[..1], now);
    FullReportCompletes(m, id, r.1, now, now);
  }

  // ---------------------------------------------------------------------------
  // A playlist: `sync_download_playlist`

  /** The result dictionary of `sync_download_playlist`. */
  datatype PlaylistOutcome =
    | PlaylistCancelled(partial: Option<BatchOutcome>)
    | PlaylistFinished(outcome: BatchOutcome)
    | PlaylistRaised(message: string)

  /** The whole playlist, or only the selected songs when a selection was given; `fixed` as in the batch loop. */
  function PlaylistBatch(playlistId: string, songs: seq<Song>, selected: seq<int>, db: Db, env: Env, fixed: bool): (r: BatchOutcome)
    ensures r.Done? ==> r.total > 0 && |r.batch.results| == r.total && ReportsUpTo(Reports(r.batch.events), r.total, r.total, true)
    ensures r.Done? ==> r.batch.succeeded + r.batch.failed + r.batch.skipped + Count(r.batch.results, Cancelled) == r.total
    ensures selected != [] && r.Done? ==> forall i :: 0 <= i < r.total ==> r.batch.results[i].songId in selected
    ensures selected == [] && r.Done? ==> r.total == |songs|
    ensures r.Done? && fixed ==> NoFetchAfterFull(r.batch.events)
    ensures r.Done? && !fixed ==> (!NoFetchAfterFull(r.batch.events) <==> LastFetched(r))
    ensures selected == [] && LastIsNew(songs, db) ==> LastFetched(r)
  {
    if selected != [] then PlaylistDownloader.DownloadSelectedSongs(playlistId, songs, selected, db, env, true, fixed)
    else PlaylistDownloader.DownloadPlaylistSongs(playlistId, songs, db, env, true, fixed)
  }

  /** The batch ran and started the download of its last song. */
  predicate LastFetched(o: BatchOutcome) {
    o.Done? && o.total > 0 && Fetching(o.total - 1) in o.batch.events
  }

  /** The trace the batch itself left. */
  function BatchEvents(o: BatchOutcome): seq<Event> {
    if o.Done? then o.batch.events else []
  }

  /**
   The closing report: 100% with `success_count + skipped_count` of
   `total_songs`, which a failed batch does not have, so both are 0.
   */
  function Closing(o: BatchOutcome): (p: Progress)
    ensures p.percent == 100.0
    ensures o.Unavailable? ==> p.processed == 0 && p.total == 0
    ensures o.Done? ==> p.total == o.total && p.processed == o.batch.succeeded + o.batch.skipped
  {
    if o.Done? then Progress(100.0, o.batch.succeeded + o.batch.skipped, o.total) else Progress(100.0, 0, 0)
  }

  /**
   `sync_download_playlist`, as written (`fixed` false) or with each song's
   report after its download: a task Cancelled on entry downloads nothing; a
   failing setup reports 100% of nothing unless Cancelled; otherwise the
   batch runs with the task id, a cancellation seen after it returns the
   batch as a partial result without a closing report, and the closing
   report follows only when its guard sees no cancellation. As written, a
   download starts after a 100% report exactly when the batch downloads its
   last song; corrected, never.
   */
  function SyncDownloadPlaylist(playlistId: string, songs: seq<Song>, selected: seq<int>, db: Db, env: Env,
                                setupError: Option<string>, fixed: bool)
    : (r: (PlaylistOutcome, seq<Event>))
    ensures env.cancelled(OnEntry) ==> r == (PlaylistCancelled(None), [])
    ensures !env.cancelled(OnEntry) && setupError.Some? ==>
              && r.0 == PlaylistRaised(setupError.value)
              && r.1 == CloseWith([], env.cancelled(OnError), Closing(Unavailable(setupError.value)))
    ensures !env.cancelled(OnEntry) && setupError.None? ==>
              var o := PlaylistBatch(playlistId, songs, selected, db, env, fixed);
              && |BatchEvents(o)| <= |r.1| && r.1[..|BatchEvents(o)|] == BatchEvents(o)
              && (env.cancelled(AfterLoop) ==> r.0 == PlaylistCancelled(Some(o)) && r.1 == BatchEvents(o))
              && (!env.cancelled(AfterLoop) ==> r.0 == PlaylistFinished(o))
              && (|r.1| > |BatchEvents(o)| <==> !env.cancelled(AfterLoop) && !env.cancelled(FinalReport))
              && (|r.1| > |BatchEvents(o)| ==> r.1[|r.1| - 1] == Reported(Closing(o)))
    ensures !NoFetchAfterFull(r.1) <==>
              && !fixed && !env.cancelled(OnEntry) && setupError.None?
              && LastFetched(PlaylistBatch(playlistId, songs, selected, db, env, fixed))
  {
    if env.cancelled(OnEntry) then (PlaylistCancelled(None), [])
    else if setupError.Some? then
      var closing := Closing(Unavailable(setupError.value));
      NoFetchAfterFullClosed([], env.cancelled(OnError), closing);
      (PlaylistRaised(setupError.value), CloseWith([], env.cancelled(OnError), closing))
    else
      var o := PlaylistBatch(playlistId, songs, selected, db, env, fixed);
      var atGuard := env.cancelled(AfterLoop) || env.cancelled(FinalReport);
      NoFetchAfterFullClosed(BatchEvents(o), atGuard, Closing(o));
      (if env.cancelled(AfterLoop) then PlaylistCancelled(Some(o)) else PlaylistFinished(o),
       CloseWith(BatchEvents(o), atGuard, Closing(o)))
  }

  /** The reports of a trace with its closing report are the trace's reports and then, unless a guard stopped it, the closing one. */
  lemma ReportsClosed(events: seq<Event>, cancelledAtGuard: bool, last: Progress)
    ensures Reports(CloseWith(events, cancelledAtGuard, last)) == Reports(events) + (if cancelledAtGuard then [] else [last])
  {
    if !cancelledAtGuard {
      ReportsAppend(events, [Reported(last)]);
      assert [Reported(last)][..0] == [];
    }
  }

  /** Every report is a percentage with between 0 and `total` items processed. */
  predicate Bounded(rs: seq<Progress>) {
    forall j :: 0 <= j < |rs| ==> 0.0 <= rs[j].percent <= 100.0 && 0 <= rs[j].processed <= rs[j].total
  }

  /**
   Every report of a playlist task is a percentage with at most `total`
   items processed, and the last one says 100%.
   */
  lemma PlaylistReportsBounded(playlistId: string, songs: seq<Song>, selected: seq<int>, db: Db, env: Env,
                               setupError: Option<string>, fixed: bool)
    ensures var rs := Reports(SyncDownloadPlaylist(playlistId, songs, selected, db, env, setupError, fixed).1);
            Bounded(rs) && (rs != [] ==> rs[|rs| - 1].percent == 100.0)
  {
    if !env.cancelled(OnEntry) && setupError.Some? {
      assert SyncDownloadPlaylist(playlistId, songs, selected, db, env, setupError, fixed).1
          == CloseWith([], env.cancelled(OnError), Closing(Unavailable(setupError.value)));
      ReportsClosed([], env.cancelled(OnError), Closing(Unavailable(setupError.value)));
    } else if !env.cancelled(OnEntry) {
      var o := PlaylistBatch(playlistId, songs, selected, db, env, fixed);
      var atGuard := env.cancelled(AfterLoop) || env.cancelled(FinalReport);
      assert SyncDownloadPlaylist(playlistId, songs, selected, db, env, setupError, fixed).1 == CloseWith(BatchEvents(o), atGuard, Closing(o));
      BatchReportsBounded(o);
      ClosedBounded(BatchEvents(o), atGuard, Closing(o));
    }
  }

  /** The batch's own reports are bounded, and a batch that ran ends on 100%. */
  lemma BatchReportsBounded(o: BatchOutcome)
    requires o.Done? ==> o.total > 0 && ReportsUpTo(Reports(o.batch.events), o.total, o.total, true)
    ensures Bounded(Reports(BatchEvents(o)))
    ensures Reports(BatchEvents(o)) != [] ==> o.Done? && Reports(BatchEvents(o))[o.total - 1].percent == 100.0
  {
    if !o.Done? {
      assert Reports(BatchEvents(o)) == [];
    }
  }

  /** Closing a trace of bounded reports with a bounded 100% report keeps them bounded and ends on 100%. */
  lemma ClosedBounded(events: seq<Event>, cancelledAtGuard: bool, last: Progress)
    requires Bounded(Reports(events)) && (Reports(events) != [] ==> Reports(events)[|Reports(events)| - 1].percent == 100.0)
    requires last.percent == 100.0 && 0 <= last.processed <= last.total
    ensures var rs := Reports(CloseWith(events, cancelledAtGuard, last));
            Bounded(rs) && (rs != [] ==> rs[|rs| - 1].percent == 100.0)
  {
    ReportsClosed(events, cancelledAtGuard, last);
    var tail := if cancelledAtGuard then [] else [last];
    BoundedAppend(Reports(events), tail);
    var rs := Reports(events) + tail;
    if tail != [] {
      assert rs[|rs| - 1] == last;
    } else {
      assert rs == Reports(events);
    }
  }

  /** Two lists of bounded reports make one. */
  lemma BoundedAppend(a: seq<Progress>, b: seq<Progress>)
    requires Bounded(a) && Bounded(b)
    ensures Bounded(a + b)
  {
    forall j | 0 <= j < |a + b|
      ensures 0.0 <= (a + b)[j].percent <= 100.0 && 0 <= (a + b)[j].processed <= (a + b)[j].total
    {
      if j < |a| {
        assert (a + b)[j] == a[j];
      } else {
        assert (a + b)[j] == b[j - |a|];
      }
    }
  }

  /** Once a Running task's trace has reported 100%, its record is Completed, whatever follows. */
  lemma {:induction false} FullReportSticks(m: Tasks.Manager, id: Tasks.TaskId, events: seq<Event>, j: nat, now: Tasks.Time)
    requires id in m.tasks && m.tasks[id].status == Tasks.Running
    requires j < |events| && events[j].Reported? && events[j].progress.percent >= 100.0
    ensures Replay(m, id, events, now).tasks[id].status == Tasks.Completed
    decreases |events|
  {
    var init := events[..|events| - 1];
    if j < |events| - 1 {
      assert init[j] == events[j];
      FullReportSticks(m, id, init, j, now);
    } else if !BelowFull(init) {
      var i :| 0 <= i < |init| && init[i].Reported? && init[i].progress.percent >= 100.0;
      FullReportSticks(m, id, init, i, now);
    } else {
      ReplayBelowFullKeepsRunning(m, id, init, now);
    }
  }

  /** Event `j` starts a download, and by then the task's record is Completed and a cancellation is refused. */
  predicate FetchSeesCompleted(m: Tasks.Manager, id: Tasks.TaskId, events: seq<Event>, j: int, now: Tasks.Time, later: Tasks.Time) {
    && id in m.tasks && 0 <= j < |events| && events[j].Fetching?
    && Replay(m, id, events[..j], now).tasks[id].status == Tasks.Completed
    && !Tasks.CancelTask(Replay(m, id, events[..j], now), id, later).1
  }

  /**
   When a trace starts a download after a 100% report, the record of a task
   that was Running is already Completed when that download starts, and a
   cancellation sent then is refused.
   */
  lemma FetchAfterFullSeesCompleted(m: Tasks.Manager, id: Tasks.TaskId, events: seq<Event>, now: Tasks.Time, later: Tasks.Time)
    requires id in m.tasks && m.tasks[id].status == Tasks.Running
    requires !NoFetchAfterFull(events)
    ensures exists j :: FetchSeesCompleted(m, id, events, j, now, later)
  {
    var i, j :| 0 <= i < j < |events| && events[i].Reported? && events[i].progress.percent >= 100.0 && events[j].Fetching?;
    assert events[..j][i] == events[i];
    FullReportSticks(m, id, events[..j], i, now);
    assert FetchSeesCompleted(m, id, events, j, now, later);
  }

  /**
   Early completion of a playlist task as written: when the playlist's last
   song is new to the database, its download starts after the 100% report,
   so the task is already Completed then and a cancellation sent at that
   moment is refused.
   */
  lemma PlaylistEarlyCompletion(m: Tasks.Manager, id: Tasks.TaskId, now: Tasks.Time, later: Tasks.Time,
                                playlistId: string, songs: seq<Song>, db: Db, env: Env)
    requires id in m.tasks && m.tasks[id].status == Tasks.Running
    requires !env.cancelled(OnEntry) && LastIsNew(songs, db)
    ensures var r := SyncDownloadPlaylist(playlistId, songs, [], db, env, None, false);
            exists j :: FetchSeesCompleted(m, id, r.1, j, now, later)
  {
    var r := SyncDownloadPlaylist(playlistId, songs, [], db, env, None, false);
    assert LastFetched(PlaylistBatch(playlistId, songs, [], db, env, false));
    FetchAfterFullSeesCompleted(m, id, r.1, now, later);
  }

  /**
   With each song's report after its download, whatever the cancellations
   and the selection, a playlist task that was Running is still Running
   whenever a download starts, so a cancellation sent then is accepted.
   */
  lemma PlaylistFixedRunStaysCancellable(m: Tasks.Manager, id: Tasks.TaskId, now: Tasks.Time, later: Tasks.Time,
                                         playlistId: string, songs: seq<Song>, selected: seq<int>, db: Db, env: Env,
                                         setupError: Option<string>, j: nat)
    requires id in m.tasks && m.tasks[id].status == Tasks.Running
    requires var r := SyncDownloadPlaylist(playlistId, songs, selected, db, env, setupError, true);
             j < |r.1| && r.1[j].Fetching?
    ensures var r := SyncDownloadPlaylist(playlistId, songs, selected, db, env, setupError, true);
            && Replay(m, id, r.1[..j], now).tasks[id].status == Tasks.Running
            && Tasks.CancelTask(Replay(m, id, r.1[..j], now), id, later).1
  {
    var r := SyncDownloadPlaylist(playlistId, songs, selected, db, env, setupError, true);
    FetchesSeeRunningTask(m, id, r.1, j, now, later);
  }

  // ---------------------------------------------------------------------------
  // An artist: `sync_download_artist`

  /** `songs[:limit]` when `limit` is a positive number smaller than the number of songs found. */
  function ApplyLimit(songs: seq<Song>, limit: Option<int>): (r: seq<Song>)
    ensures |r| <= |songs| && r == songs[..|r|]
    ensures limit.Some? && limit.value > 0 ==> |r| == if |songs| > limit.value then limit.value else |songs|
    ensures !(limit.Some? && limit.value > 0) ==> r == songs
    ensures songs != [] ==> r != []
  {
    if limit.Some? && limit.value > 0 && |songs| > limit.value then songs[..limit.value] else songs
  }

  /** The songs an artist task works through: the search result, truncated to the limit. */
  function ArtistSongs(name: string, pages: seq<ArtistDownloader.Page>, matchMode: string, limit: Option<int>): seq<Song> {
    ApplyLimit(ArtistDownloader.SearchArtistSongs(pages, ArtistDownloader.ModeOf(matchMode), name), limit)
  }

  /** The result dictionary of `sync_download_artist`. */
  datatype ArtistOutcome =
    | ArtistCancelled(partial: Option<seq<SongResult>>)
    | ArtistNotFound    // success False with '无法找到艺术家歌曲'
    | ArtistDone(total: nat, succeeded: nat, failed: nat, skipped: nat, results: seq<SongResult>)
    | ArtistRaised(message: string)

  /** The running totals of the artist loop, its trace so far, and whether it returned on a cancellation. */
  datatype Loop = Loop(results: seq<SongResult>, succeeded: nat, failed: nat, skipped: nat, events: seq<Event>, stopped: bool)

  /**
   The result the loop gets for song `i`: from the artist downloader as
   written (`fixed` false), or with its `cancelled` result built correctly.
   */
  function SongAt(songs: seq<Song>, i: nat, cancelled: Check -> bool, fetch: nat -> Fetch, includeLyric: bool, fixed: bool): SongResult
    requires i < |songs|
  {
    if fixed then Downloads.DownloadSong(songs[i], true, cancelled(InsideSong(i)), fetch(i), includeLyric)
    else ArtistDownloader.DownloadSong(songs[i], true, cancelled(InsideSong(i)), fetch(i), includeLyric)
  }

  /** The two events of song `i` of `n`: report, then download as written; download, then report when fixed. */
  function SongEvents(i: nat, n: nat, fixed: bool): (r: seq<Event>)
    requires i < n
  {
    if fixed then [Fetching(i), SongReport(i, n)] else [SongReport(i, n), Fetching(i)]
  }

  /** The counters agree with the results; a `cancelled` result (or anything else) counts as skipped. */
  predicate Tallied(l: Loop) {
    && l.succeeded == Count(l.results, Succeeded) && l.failed == Count(l.results, Failed)
    && l.skipped == Count(l.results, Skipped) + Count(l.results, Cancelled)
  }

  /** One more song handled: its result is appended and counted, its events appended. */
  function Advance(prev: Loop, x: SongResult, evs: seq<Event>): (l: Loop)
    ensures Tallied(prev) ==> Tallied(l)
  {
    CountSnoc(prev.results, x, Succeeded);
    CountSnoc(prev.results, x, Failed);
    CountSnoc(prev.results, x, Skipped);
    CountSnoc(prev.results, x, Cancelled);
    Loop(prev.results + [x],
         prev.succeeded + (if x.status == Succeeded then 1 else 0),
         prev.failed + (if x.status == Failed then 1 else 0),
         prev.skipped + (if x.status == Succeeded || x.status == Failed then 0 else 1),
         prev.events + evs,
         false)
  }

  /**
   The first `k` iterations of the loop of `sync_download_artist`: before
   song `i` a Cancelled task makes it return; otherwise song `i` is reported
   and downloaded with the task id, and counted as a success, a failure, or
   (anything else) a skip.
   */
  function ArtistLoop(songs: seq<Song>, k: nat, cancelled: Check -> bool, fetch: nat -> Fetch, includeLyric: bool, fixed: bool): (l: Loop)
    requires k <= |songs|
    ensures |l.results| <= k && |l.events| == 2 * |l.results|
    ensures l.stopped ==> |l.results| < k && cancelled(BeforeSong(|l.results|))
    ensures !l.stopped ==> |l.results| == k
    decreases k
  {
    if k == 0 then Loop([], 0, 0, 0, [], false)
    else
      var prev := ArtistLoop(songs, k - 1, cancelled, fetch, includeLyric, fixed);
      if prev.stopped then prev
      else if cancelled(BeforeSong(k - 1)) then prev.(stopped := true)
      else Advance(prev, SongAt(songs, k - 1, cancelled, fetch, includeLyric, fixed), SongEvents(k - 1, |songs|, fixed))
  }

  /** The loop's counters agree with its results. */
  lemma {:induction false} ArtistLoopTallied(songs: seq<Song>, k: nat, cancelled: Check -> bool, fetch: nat -> Fetch, includeLyric: bool, fixed: bool)
    requires k <= |songs|
    ensures Tallied(ArtistLoop(songs, k, cancelled, fetch, includeLyric, fixed))
    decreases k
  {
    if k == 0 {
      assert ArtistLoop(songs, k, cancelled, fetch, includeLyric, fixed) == Loop([], 0, 0, 0, [], false);
    } else {
      ArtistLoopTallied(songs, k - 1, cancelled, fetch, includeLyric, fixed);
      var prev := ArtistLoop(songs, k - 1, cancelled, fetch, includeLyric, fixed);
      var l := ArtistLoop(songs, k, cancelled, fetch, includeLyric, fixed);
      if prev.stopped || cancelled(BeforeSong(k - 1)) {
        assert l.results == prev.results && l.succeeded == prev.succeeded;
        assert l.failed == prev.failed && l.skipped == prev.skipped;
      } else {
        assert l == Advance(prev, SongAt(songs, k - 1, cancelled, fetch, includeLyric, fixed), SongEvents(k - 1, |songs|, fixed));
      }
    }
  }

  /**
   Song `i` got past the cancellation check before it; its result is its
   download, and events `2i` and `2i + 1` are its events.
   */
  predicate Logged(l: Loop, songs: seq<Song>, i: nat, cancelled: Check -> bool, fetch: nat -> Fetch, includeLyric: bool, fixed: bool)
    requires i < |l.results| && |l.events| == 2 * |l.results| && i < |songs|
  {
    && !cancelled(BeforeSong(i))
    && l.results[i] == SongAt(songs, i, cancelled, fetch, includeLyric, fixed)
    && l.events[2 * i] == SongEvents(i, |songs|, fixed)[0]
    && l.events[2 * i + 1] == SongEvents(i, |songs|, fixed)[1]
  }

  /** Every song the loop got to is logged. */
  predicate AllLogged(l: Loop, songs: seq<Song>, cancelled: Check -> bool, fetch: nat -> Fetch, includeLyric: bool, fixed: bool) {
    && |l.results| <= |songs| && |l.events| == 2 * |l.results|
    && forall i :: 0 <= i < |l.results| ==> Logged(l, songs, i, cancelled, fetch, includeLyric, fixed)
  }

  lemma {:induction false} ArtistLoopContents(songs: seq<Song>, k: nat, cancelled: Check -> bool, fetch: nat -> Fetch, includeLyric: bool, fixed: bool)
    requires k <= |songs|
    ensures AllLogged(ArtistLoop(songs, k, cancelled, fetch, includeLyric, fixed), songs, cancelled, fetch, includeLyric, fixed)
    decreases k
  {
    if k == 0 {
      assert ArtistLoop(songs, k, cancelled, fetch, includeLyric, fixed) == Loop([], 0, 0, 0, [], false);
    } else {
      ArtistLoopContents(songs, k - 1, cancelled, fetch, includeLyric, fixed);
      var prev := ArtistLoop(songs, k - 1, cancelled, fetch, includeLyric, fixed);
      var l := ArtistLoop(songs, k, cancelled, fetch, includeLyric, fixed);
      if prev.stopped || cancelled(BeforeSong(k - 1)) {
        assert l.results == prev.results && l.events == prev.events;
        AllLoggedKept(prev, l, songs, cancelled, fetch, includeLyric, fixed);
      } else {
        AdvanceLogged(prev, songs, k - 1, cancelled, fetch, includeLyric, fixed);
        assert l == Advance(prev, SongAt(songs, k - 1, cancelled, fetch, includeLyric, fixed), SongEvents(k - 1, |songs|, fixed));
      }
    }
  }

  /** Logging survives a step that keeps the loop's results and events. */
  lemma AllLoggedKept(prev: Loop, l: Loop, songs: seq<Song>, cancelled: Check -> bool, fetch: nat -> Fetch, includeLyric: bool, fixed: bool)
    requires l.results == prev.results && l.events == prev.events
    requires AllLogged(prev, songs, cancelled, fetch, includeLyric, fixed)
    ensures AllLogged(l, songs, cancelled, fetch, includeLyric, fixed)
  {
    forall i | 0 <= i < |l.results|
      ensures Logged(l, songs, i, cancelled, fetch, includeLyric, fixed)
    {
      assert Logged(prev, songs, i, cancelled, fetch, includeLyric, fixed);
    }
  }

  /** Song `i` downloaded after songs `0 .. i - 1` were logged leaves songs `0 .. i` logged. */
  lemma AdvanceLogged(prev: Loop, songs: seq<Song>, i: nat, cancelled: Check -> bool, fetch: nat -> Fetch, includeLyric: bool, fixed: bool)
    requires i < |songs| && |prev.results| == i && |prev.events| == 2 * i && !cancelled(BeforeSong(i))
    requires AllLogged(prev, songs, cancelled, fetch, includeLyric, fixed)
    ensures AllLogged(Advance(prev, SongAt(songs, i, cancelled, fetch, includeLyric, fixed), SongEvents(i, |songs|, fixed)),
                      songs, cancelled, fetch, includeLyric, fixed)
  {
    var x := SongAt(songs, i, cancelled, fetch, includeLyric, fixed);
    var evs := SongEvents(i, |songs|, fixed);
    var l := Advance(prev, x, evs);
    assert l.results == prev.results + [x] && l.events == prev.events + evs;
    forall j | 0 <= j < |l.results|
      ensures Logged(l, songs, j, cancelled, fetch, includeLyric, fixed)
    {
      if j < i {
        LoggedKept(prev, l, songs, j, cancelled, fetch, includeLyric, fixed);
      } else {
        assert l.results[j] == x;
        assert l.events[2 * j] == evs[0] && l.events[2 * j + 1] == evs[1];
      }
    }
  }

  /** A logged song stays logged when the loop's results and events only grow. */
  lemma LoggedKept(prev: Loop, l: Loop, songs: seq<Song>, i: nat, cancelled: Check -> bool, fetch: nat -> Fetch, includeLyric: bool, fixed: bool)
    requires i < |prev.results| <= |l.results| && i < |songs|
    requires |prev.events| == 2 * |prev.results| && |l.events| == 2 * |l.results|
    requires l.results[..|prev.results|] == prev.results && l.events[..|prev.events|] == prev.events
    requires Logged(prev, songs, i, cancelled, fetch, includeLyric, fixed)
    ensures Logged(l, songs, i, cancelled, fetch, includeLyric, fixed)
  {
    assert l.results[i] == prev.results[i];
    assert l.events[2 * i] == prev.events[2 * i];
    assert l.events[2 * i + 1] == prev.events[2 * i + 1];
  }

  /** Every event of the loop at position `j` belongs to song `j / 2`. */
  lemma LoopEventAt(songs: seq<Song>, k: nat, cancelled: Check -> bool, fetch: nat -> Fetch, includeLyric: bool, fixed: bool, j: nat)
    requires k <= |songs|
    requires j < |ArtistLoop(songs, k, cancelled, fetch, includeLyric, fixed).events|
    ensures var l := ArtistLoop(songs, k, cancelled, fetch, includeLyric, fixed);
            j / 2 < |l.results| && l.events[j] == SongEvents(j / 2, |songs|, fixed)[j % 2]
  {
    var l := ArtistLoop(songs, k, cancelled, fetch, includeLyric, fixed);
    ArtistLoopContents(songs, k, cancelled, fetch, includeLyric, fixed);
    var i := j / 2;
    assert j == 2 * i || j == 2 * i + 1;
    assert Logged(l, songs, i, cancelled, fetch, includeLyric, fixed);
  }

  /** A loop that stopped before the last song has reported nothing of 100%. */
  lemma StoppedLoopBelowFull(songs: seq<Song>, cancelled: Check -> bool, fetch: nat -> Fetch, includeLyric: bool, fixed: bool)
    ensures var l := ArtistLoop(songs, |songs|, cancelled, fetch, includeLyric, fixed);
            l.stopped ==> BelowFull(l.events)
  {
    var l := ArtistLoop(songs, |songs|, cancelled, fetch, includeLyric, fixed);
    forall j | 0 <= j < |l.events| && l.events[j].Reported?
      ensures l.stopped ==> l.events[j].progress.percent < 100.0
    {
      LoopEventAt(songs, |songs|, cancelled, fetch, includeLyric, fixed, j);
    }
  }

  /** With the download before the report, the loop never starts a download after a 100% report. */
  lemma FixedLoopNoFetchAfterFull(songs: seq<Song>, cancelled: Check -> bool, fetch: nat -> Fetch, includeLyric: bool)
    ensures NoFetchAfterFull(ArtistLoop(songs, |songs|, cancelled, fetch, includeLyric, true).events)
  {
    var l := ArtistLoop(songs, |songs|, cancelled, fetch, includeLyric, true);
    forall j | 0 <= j < |l.events| - 1 && l.events[j].Reported?
      ensures l.events[j].progress.percent < 100.0
    {
      LoopEventAt(songs, |songs|, cancelled, fetch, includeLyric, true, j);
      assert j % 2 == 1 && j / 2 < |songs| - 1;
    }
  }

  /**
   `sync_download_artist`, as written (`fixed` false) or corrected: a task
   Cancelled on entry does nothing; a failing setup reports 100% of nothing
   unless Cancelled; no song found is an error; otherwise the loop runs over
   the found songs truncated to the limit, a cancellation before a song
   returns the results so far, and a completed loop is followed by the
   closing report when its guard sees no cancellation.
   */
  function ArtistWork(name: string, pages: seq<ArtistDownloader.Page>, matchMode: string, limit: Option<int>,
                      cancelled: Check -> bool, fetch: nat -> Fetch, includeLyric: bool, setupError: Option<string>, fixed: bool)
    : (r: (ArtistOutcome, seq<Event>))
    ensures cancelled(OnEntry) ==> r == (ArtistCancelled(None), [])
    ensures !cancelled(OnEntry) && setupError.Some? ==>
              r.0 == ArtistRaised(setupError.value) && r.1 == CloseWith([], cancelled(OnError), Progress(100.0, 0, 0))
    ensures !cancelled(OnEntry) && setupError.None? && ArtistSongs(name, pages, matchMode, limit) == [] ==>
              r == (ArtistNotFound, [])
    ensures !cancelled(OnEntry) && setupError.None? && ArtistSongs(name, pages, matchMode, limit) != [] ==>
              var songs := ArtistSongs(name, pages, matchMode, limit);
              var l := ArtistLoop(songs, |songs|, cancelled, fetch, includeLyric, fixed);
              && (l.stopped ==> r == (ArtistCancelled(Some(l.results)), l.events))
              && (!l.stopped ==> r.0 == ArtistDone(|songs|, l.succeeded, l.failed, l.skipped, l.results))
              && (!l.stopped ==> r.1 == CloseWith(l.events, cancelled(FinalReport), Progress(100.0, |songs|, |songs|)))
    ensures r.0.ArtistDone? ==> r.0.total == |r.0.results| > 0 && r.0.succeeded + r.0.failed + r.0.skipped == r.0.total
  {
    if cancelled(OnEntry) then (ArtistCancelled(None), [])
    else if setupError.Some? then (ArtistRaised(setupError.value), CloseWith([], cancelled(OnError), Progress(100.0, 0, 0)))
    else
      var songs := ArtistSongs(name, pages, matchMode, limit);
      if songs == [] then (ArtistNotFound, [])
      else
        var l := ArtistLoop(songs, |songs|, cancelled, fetch, includeLyric, fixed);
        if l.stopped then (ArtistCancelled(Some(l.results)), l.events)
        else
          ArtistLoopTallied(songs, |songs|, cancelled, fetch, includeLyric, fixed);
          CountsPartition(l.results);
          (ArtistDone(|songs|, l.succeeded, l.failed, l.skipped, l.results),
           CloseWith(l.events, cancelled(FinalReport), Progress(100.0, |songs|, |songs|)))
  }

  /**
   A task Cancelled before song `i` returns as partial results exactly the
   results of songs `0..i-1`, each the download of its song, and never
   starts a download of song `i` or later.
   */
  lemma PartialResultsBeforeCancel(name: string, pages: seq<ArtistDownloader.Page>, matchMode: string, limit: Option<int>,
                                   cancelled: Check -> bool, fetch: nat -> Fetch, includeLyric: bool, setupError: Option<string>, fixed: bool)
    ensures var r := ArtistWork(name, pages, matchMode, limit, cancelled, fetch, includeLyric, setupError, fixed);
            var songs := ArtistSongs(name, pages, matchMode, limit);
            r.0.ArtistCancelled? && r.0.partial.Some? ==>
              var partial := r.0.partial.value;
              && |partial| < |songs|
              && cancelled(BeforeSong(|partial|))
              && (forall i :: 0 <= i < |partial| ==> !cancelled(BeforeSong(i)))
              && (forall i :: 0 <= i < |partial| ==> partial[i] == SongAt(songs, i, cancelled, fetch, includeLyric, fixed))
              && (forall j :: 0 <= j < |r.1| && r.1[j].Fetching? ==> r.1[j].index < |partial|)
  {
    var r := ArtistWork(name, pages, matchMode, limit, cancelled, fetch, includeLyric, setupError, fixed);
    var songs := ArtistSongs(name, pages, matchMode, limit);
    if r.0.ArtistCancelled? && r.0.partial.Some? {
      var l := ArtistLoop(songs, |songs|, cancelled, fetch, includeLyric, fixed);
      assert r == (ArtistCancelled(Some(l.results)), l.events);
      LoopPrefixFacts(songs, cancelled, fetch, includeLyric, fixed);
    }
  }

  /** Every song the loop got to passed its guard and has its result, and it started no download beyond them. */
  lemma LoopPrefixFacts(songs: seq<Song>, cancelled: Check -> bool, fetch: nat -> Fetch, includeLyric: bool, fixed: bool)
    ensures var l := ArtistLoop(songs, |songs|, cancelled, fetch, includeLyric, fixed);
            && (forall i :: 0 <= i < |l.results| ==> !cancelled(BeforeSong(i)))
            && (forall i :: 0 <= i < |l.results| ==> l.results[i] == SongAt(songs, i, cancelled, fetch, includeLyric, fixed))
            && (forall j :: 0 <= j < |l.events| && l.events[j].Fetching? ==> l.events[j].index < |l.results|)
  {
    var l := ArtistLoop(songs, |songs|, cancelled, fetch, includeLyric, fixed);
    ArtistLoopContents(songs, |songs|, cancelled, fetch, includeLyric, fixed);
    assert var p := ArtistLoop(songs, |songs|, cancelled, fetch, includeLyric, fixed);
           forall i :: 0 <= i < |p.results| ==> Logged(p, songs, i, cancelled, fetch, includeLyric, fixed);
    forall i | 0 <= i < |l.results|
      ensures !cancelled(BeforeSong(i)) && l.results[i] == SongAt(songs, i, cancelled, fetch, includeLyric, fixed)
    {
      assert Logged(l, songs, i, cancelled, fetch, includeLyric, fixed);
    }
    forall j | 0 <= j < |l.events| && l.events[j].Fetching?
      ensures l.events[j].index < |l.results|
    {
      LoopEventAt(songs, |songs|, cancelled, fetch, includeLyric, fixed, j);
    }
  }


  /** A finished run's results are the downloads of the songs, in order. */
  lemma DoneResults(name: string, pages: seq<ArtistDownloader.Page>, matchMode: string, limit: Option<int>,
                    cancelled: Check -> bool, fetch: nat -> Fetch, includeLyric: bool, setupError: Option<string>, fixed: bool)
    ensures var r := ArtistWork(name, pages, matchMode, limit, cancelled, fetch, includeLyric, setupError, fixed);
            var songs := ArtistSongs(name, pages, matchMode, limit);
            r.0.ArtistDone? ==>
              && |r.0.results| == |songs|
              && forall i :: 0 <= i < |r.0.results| ==> r.0.results[i] == SongAt(songs, i, cancelled, fetch, includeLyric, fixed)
  {
    var r := ArtistWork(name, pages, matchMode, limit, cancelled, fetch, includeLyric, setupError, fixed);
    var songs := ArtistSongs(name, pages, matchMode, limit);
    if r.0.ArtistDone? {
      var l := ArtistLoop(songs, |songs|, cancelled, fetch, includeLyric, fixed);
      assert r.0.results == l.results;
      ArtistLoopContents(songs, |songs|, cancelled, fetch, includeLyric, fixed);
      assert var p := ArtistLoop(songs, |songs|, cancelled, fetch, includeLyric, fixed);
             forall i :: 0 <= i < |p.results| ==> Logged(p, songs, i, cancelled, fetch, includeLyric, fixed);
      forall i | 0 <= i < |l.results|
        ensures l.results[i] == SongAt(songs, i, cancelled, fetch, includeLyric, fixed)
      {
        assert Logged(l, songs, i, cancelled, fetch, includeLyric, fixed);
      }
    }
  }

  /** The closing report neither adds nor removes a download after a 100% report. */
  lemma NoFetchAfterFullClosed(events: seq<Event>, cancelledAtGuard: bool, last: Progress)
    ensures NoFetchAfterFull(CloseWith(events, cancelledAtGuard, last)) <==> NoFetchAfterFull(events)
  {
    var r := CloseWith(events, cancelledAtGuard, last);
    forall j, j' | 0 <= j < j' < |events|
      ensures r[j] == events[j] && r[j'] == events[j']
    {
    }
    if NoFetchAfterFull(events) {
      forall j, j' | 0 <= j < j' < |r| && r[j].Reported? && r[j].progress.percent >= 100.0
        ensures !r[j'].Fetching?
      {
        if j' < |events| {
          assert r[j] == events[j] && r[j'] == events[j'];
        }
      }
    }
  }

  /** Reports below 100% throughout: nothing can follow a 100% report. */
  lemma BelowFullNoFetchAfterFull(events: seq<Event>)
    requires BelowFull(events)
    ensures NoFetchAfterFull(events)
  {
  }

  /**
   The trace of the artist work function as written breaks the order
   exactly when the run finishes: the 100% report on the last song comes
   before that song's download. A cancelled song is never `cancelled`.
   */
  lemma AsWrittenTrace(name: string, pages: seq<ArtistDownloader.Page>, matchMode: string, limit: Option<int>,
                       cancelled: Check -> bool, fetch: nat -> Fetch, includeLyric: bool, setupError: Option<string>)
    ensures var r := ArtistWork(name, pages, matchMode, limit, cancelled, fetch, includeLyric, setupError, false);
            && (r.0.ArtistDone? <==> !NoFetchAfterFull(r.1))
            && (r.0.ArtistDone? ==> forall i :: 0 <= i < |r.0.results| ==>
                  (cancelled(InsideSong(i)) ==> r.0.results[i].status == Failed) && r.0.results[i].status != Cancelled)
  {
    var songs := ArtistSongs(name, pages, matchMode, limit);
    if !cancelled(OnEntry) && setupError.None? && songs != [] {
      var l := ArtistLoop(songs, |songs|, cancelled, fetch, includeLyric, false);
      if l.stopped {
        StoppedLoopBelowFull(songs, cancelled, fetch, includeLyric, false);
        BelowFullNoFetchAfterFull(l.events);
      } else {
        FullLoopFetchesAfterFull(songs, cancelled, fetch, includeLyric, cancelled(FinalReport), Progress(100.0, |songs|, |songs|));
      }
    }
    DoneResults(name, pages, matchMode, limit, cancelled, fetch, includeLyric, setupError, false);
  }

  /** A loop as written that ran to its end reported 100% and then started the download of the last song. */
  lemma FullLoopFetchesAfterFull(songs: seq<Song>, cancelled: Check -> bool, fetch: nat -> Fetch, includeLyric: bool,
                                 cancelledAtGuard: bool, last: Progress)
    requires songs != [] && !ArtistLoop(songs, |songs|, cancelled, fetch, includeLyric, false).stopped
    ensures !NoFetchAfterFull(CloseWith(ArtistLoop(songs, |songs|, cancelled, fetch, includeLyric, false).events, cancelledAtGuard, last))
  {
    var l := ArtistLoop(songs, |songs|, cancelled, fetch, includeLyric, false);
    var n := |songs|;
    var e := CloseWith(l.events, cancelledAtGuard, last);
    LoopEventAt(songs, n, cancelled, fetch, includeLyric, false, 2 * n - 2);
    LoopEventAt(songs, n, cancelled, fetch, includeLyric, false, 2 * n - 1);
    assert e[2 * n - 2] == l.events[2 * n - 2] && e[2 * n - 1] == l.events[2 * n - 1];
    assert e[2 * n - 2].progress.percent >= 100.0;
  }


  /**
   `sync_download_artist` as written: a finished run always reports 100% on
   its last song before downloading it, and a song stopped by a
   cancellation comes back as a failure, never as `cancelled`.
   */
  function SyncDownloadArtist(name: string, pages: seq<ArtistDownloader.Page>, matchMode: string, limit: Option<int>,
                              cancelled: Check -> bool, fetch: nat -> Fetch, includeLyric: bool, setupError: Option<string>)
    : (r: (ArtistOutcome, seq<Event>))
    ensures r.0.ArtistDone? <==> !NoFetchAfterFull(r.1)
    ensures r.0.ArtistDone? ==> forall i :: 0 <= i < |r.0.results| ==>
              (cancelled(InsideSong(i)) ==> r.0.results[i].status == Failed) && r.0.results[i].status != Cancelled
  {
    AsWrittenTrace(name, pages, matchMode, limit, cancelled, fetch, includeLyric, setupError);
    ArtistWork(name, pages, matchMode, limit, cancelled, fetch, includeLyric, setupError, false)
  }

  /** The corrected trace keeps downloads before the 100% report, and a cancelled song is `cancelled`. */
  lemma FixedTrace(name: string, pages: seq<ArtistDownloader.Page>, matchMode: string, limit: Option<int>,
                   cancelled: Check -> bool, fetch: nat -> Fetch, includeLyric: bool, setupError: Option<string>)
    ensures var r := ArtistWork(name, pages, matchMode, limit, cancelled, fetch, includeLyric, setupError, true);
            && NoFetchAfterFull(r.1)
            && (r.0.ArtistDone? ==> forall i :: 0 <= i < |r.0.results| ==>
                  (r.0.results[i].status == Cancelled <==> cancelled(InsideSong(i))))
  {
    var r := ArtistWork(name, pages, matchMode, limit, cancelled, fetch, includeLyric, setupError, true);
    var songs := ArtistSongs(name, pages, matchMode, limit);
    if !cancelled(OnEntry) && setupError.None? && songs != [] {
      var l := ArtistLoop(songs, |songs|, cancelled, fetch, includeLyric, true);
      if l.stopped {
        StoppedLoopBelowFull(songs, cancelled, fetch, includeLyric, true);
        BelowFullNoFetchAfterFull(r.1);
      } else {
        FixedLoopNoFetchAfterFull(songs, cancelled, fetch, includeLyric);
        NoFetchAfterFullClosed(l.events, cancelled(FinalReport), Progress(100.0, |songs|, |songs|));
        DoneResults(name, pages, matchMode, limit, cancelled, fetch, includeLyric, setupError, true);
      }
    } else if !cancelled(OnEntry) && setupError.Some? {
      NoFetchAfterFullClosed([], cancelled(OnError), Progress(100.0, 0, 0));
    }
  }

  /**
   `sync_download_artist` corrected: the progress report of a song follows
   its download, so no download starts after a 100% report, and the
   `cancelled` result carries its album, so a song stopped by a
   cancellation is `cancelled` (and counted as skipped).
   */
  function SyncDownloadArtistFixed(name: string, pages: seq<ArtistDownloader.Page>, matchMode: string, limit: Option<int>,
                                   cancelled: Check -> bool, fetch: nat -> Fetch, includeLyric: bool, setupError: Option<string>)
    : (r: (ArtistOutcome, seq<Event>))
    ensures NoFetchAfterFull(r.1)
    ensures r.0.ArtistDone? ==> forall i :: 0 <= i < |r.0.results| ==>
              (r.0.results[i].status == Cancelled <==> cancelled(InsideSong(i)))
  {
    FixedTrace(name, pages, matchMode, limit, cancelled, fetch, includeLyric, setupError);
    ArtistWork(name, pages, matchMode, limit, cancelled, fetch, includeLyric, setupError, true)
  }

  /**
   The as-written loop over `n` songs that nobody cancels: every report
   before the last song's is below 100%, the last song's report is 100%, and
   the last song's download follows it.
   */
  lemma AsWrittenLastSongOrder(songs: seq<Song>, fetch: nat -> Fetch, includeLyric: bool)
    requires songs != []
    ensures var l := ArtistLoop(songs, |songs|, Never, fetch, includeLyric, false);
            var n := |songs|;
            && !l.stopped && |l.events| == 2 * n
            && (forall j :: 0 <= j < 2 * n - 2 && l.events[j].Reported? ==> l.events[j].progress.percent < 100.0)
            && l.events[2 * n - 2].Reported? && l.events[2 * n - 2].progress.percent >= 100.0
            && l.events[2 * n - 1] == Fetching(n - 1)
  {
    var l := ArtistLoop(songs, |songs|, Never, fetch, includeLyric, false);
    var n := |songs|;
    forall j | 0 <= j < 2 * n - 2 && l.events[j].Reported?
      ensures l.events[j].progress.percent < 100.0
    {
      LoopEventAt(songs, n, Never, fetch, includeLyric, false, j);
    }
    LoopEventAt(songs, n, Never, fetch, includeLyric, false, 2 * n - 2);
    LoopEventAt(songs, n, Never, fetch, includeLyric, false, 2 * n - 1);
  }

  /**
   Early completion: in an artist run nobody cancels, the task is already
   Completed when the download of its last song starts, and a cancellation
   sent at that moment is refused.
   */
  lemma EarlyCompletion(m: Tasks.Manager, id: Tasks.TaskId, now: Tasks.Time, later: Tasks.Time,
                        name: string, pages: seq<ArtistDownloader.Page>, matchMode: string, limit: Option<int>,
                        fetch: nat -> Fetch, includeLyric: bool)
    requires id in m.tasks && m.tasks[id].status == Tasks.Running
    requires ArtistSongs(name, pages, matchMode, limit) != []
    ensures var r := SyncDownloadArtist(name, pages, matchMode, limit, Never, fetch, includeLyric, None);
            var n := |ArtistSongs(name, pages, matchMode, limit)|;
            CompletedBeforeFetch(m, id, r.1, n, now, later)
  {
    UncancelledEvents(name, pages, matchMode, limit, fetch, includeLyric);
    EarlyCompletionOf(m, id, now, later, ArtistSongs(name, pages, matchMode, limit),
                      SyncDownloadArtist(name, pages, matchMode, limit, Never, fetch, includeLyric, None).1, fetch, includeLyric);
  }

  /** Early completion for any trace that starts with the whole trace of an uncancelled loop. */
  lemma EarlyCompletionOf(m: Tasks.Manager, id: Tasks.TaskId, now: Tasks.Time, later: Tasks.Time,
                          songs: seq<Song>, events: seq<Event>, fetch: nat -> Fetch, includeLyric: bool)
    requires id in m.tasks && m.tasks[id].status == Tasks.Running && songs != []
    requires var l := ArtistLoop(songs, |songs|, Never, fetch, includeLyric, false);
             |l.events| <= |events| && events[..|l.events|] == l.events
    ensures CompletedBeforeFetch(m, id, events, |songs|, now, later)
  {
    var l := ArtistLoop(songs, |songs|, Never, fetch, includeLyric, false);
    AsWrittenLastSongOrder(songs, fetch, includeLyric);
    CompletedBeforeLastFetch(m, id, now, later, l.events, events, |songs|);
  }

  /** The generic step of early completion: any trace that starts with such a loop trace. */
  lemma CompletedBeforeLastFetch(m: Tasks.Manager, id: Tasks.TaskId, now: Tasks.Time, later: Tasks.Time,
                                 l: seq<Event>, events: seq<Event>, n: nat)
    requires id in m.tasks && m.tasks[id].status == Tasks.Running
    requires n > 0 && |l| == 2 * n && |l| <= |events| && events[..|l|] == l
    requires forall j :: 0 <= j < 2 * n - 2 && l[j].Reported? ==> l[j].progress.percent < 100.0
    requires l[2 * n - 2].Reported? && l[2 * n - 2].progress.percent >= 100.0
    requires l[2 * n - 1] == Fetching(n - 1)
    ensures CompletedBeforeFetch(m, id, events, n, now, later)
  {
    TraceHead(l, events, n);
    CompletedOnFullReport(m, id, events[..2 * n - 1], now, later);
  }

  /** A trace that starts with a loop trace whose first 100% report comes just before its last fetch. */
  lemma TraceHead(l: seq<Event>, events: seq<Event>, n: nat)
    requires n > 0 && |l| == 2 * n && |l| <= |events| && events[..|l|] == l
    requires forall j :: 0 <= j < 2 * n - 2 && l[j].Reported? ==> l[j].progress.percent < 100.0
    requires l[2 * n - 2].Reported? && l[2 * n - 2].progress.percent >= 100.0
    requires l[2 * n - 1] == Fetching(n - 1)
    ensures events[2 * n - 1] == Fetching(n - 1)
    ensures var u := events[..2 * n - 1];
            && u != []
            && (forall j :: 0 <= j < |u| - 1 && u[j].Reported? ==> u[j].progress.percent < 100.0)
            && u[|u| - 1].Reported? && u[|u| - 1].progress.percent >= 100.0
  {
    assert events[2 * n - 1] == l[2 * n - 1];
    assert forall j :: 0 <= j < 2 * n - 1 ==> events[..2 * n - 1][j] == l[j];
  }

  /** A run nobody cancels begins with the whole trace of its loop. */
  lemma UncancelledEvents(name: string, pages: seq<ArtistDownloader.Page>, matchMode: string, limit: Option<int>,
                          fetch: nat -> Fetch, includeLyric: bool)
    requires ArtistSongs(name, pages, matchMode, limit) != []
    ensures var songs := ArtistSongs(name, pages, matchMode, limit);
            var l := ArtistLoop(songs, |songs|, Never, fetch, includeLyric, false);
            var events := SyncDownloadArtist(name, pages, matchMode, limit, Never, fetch, includeLyric, None).1;
            |l.events| <= |events| && events[..|l.events|] == l.events
  {
    var songs := ArtistSongs(name, pages, matchMode, limit);
    AsWrittenLastSongOrder(songs, fetch, includeLyric);
  }

  /**
   Event `2n - 1` of the trace starts the download of song `n - 1`, and when
   it starts the record is already Completed and a cancellation sent then is
   refused.
   */
  predicate CompletedBeforeFetch(m: Tasks.Manager, id: Tasks.TaskId, events: seq<Event>, n: nat, now: Tasks.Time, later: Tasks.Time) {
    && id in m.tasks && 0 < n && 2 * n <= |events| && events[2 * n - 1] == Fetching(n - 1)
    && Replay(m, id, events[..2 * n - 1], now).tasks[id].status == Tasks.Completed
    && !Tasks.CancelTask(Replay(m, id, events[..2 * n - 1], now), id, later).1
  }

  /** A Running task whose trace reaches its first 100% report on its last event ends it Completed. */
  lemma CompletedOnFullReport(m: Tasks.Manager, id: Tasks.TaskId, events: seq<Event>, now: Tasks.Time, later: Tasks.Time)
    requires id in m.tasks && m.tasks[id].status == Tasks.Running && events != []
    requires forall j :: 0 <= j < |events| - 1 && events[j].Reported? ==> events[j].progress.percent < 100.0
    requires events[|events| - 1].Reported? && events[|events| - 1].progress.percent >= 100.0
    ensures Replay(m, id, events, now).tasks[id].status == Tasks.Completed
    ensures !Tasks.CancelTask(Replay(m, id, events, now), id, later).1
  {
    var before := events[..|events| - 1];
    forall j | 0 <= j < |before| && before[j].Reported?
      ensures before[j].progress.percent < 100.0
    {
      assert before[j] == events[j];
    }
    ReplayBelowFullKeepsRunning(m, id, before, now);
    FullReportCompletes(m, id, events, now, later);
  }

  /**
   With the correction, whatever the cancellations, the task is still
   Running whenever a download starts, so a cancellation sent then is
   accepted.
   */
  lemma FixedRunStaysCancellable(m: Tasks.Manager, id: Tasks.TaskId, now: Tasks.Time, later: Tasks.Time,
                                 name: string, pages: seq<ArtistDownloader.Page>, matchMode: string, limit: Option<int>,
                                 cancelled: Check -> bool, fetch: nat -> Fetch, includeLyric: bool, setupError: Option<string>, j: nat)
    requires id in m.tasks && m.tasks[id].status == Tasks.Running
    requires var r := SyncDownloadArtistFixed(name, pages, matchMode, limit, cancelled, fetch, includeLyric, setupError);
             j < |r.1| && r.1[j].Fetching?
    ensures var r := SyncDownloadArtistFixed(name, pages, matchMode, limit, cancelled, fetch, includeLyric, setupError);
            && Replay(m, id, r.1[..j], now).tasks[id].status == Tasks.Running
            && Tasks.CancelTask(Replay(m, id, r.1[..j], now), id, later).1
  {
    var r := SyncDownloadArtistFixed(name, pages, matchMode, limit, cancelled, fetch, includeLyric, setupError);
    FetchesSeeRunningTask(m, id, r.1, j, now, later);
  }

  // ---------------------------------------------------------------------------
  // Submission: the `submit_*` functions name the task and hand its
  // parameters to `create_task` as metadata.

  /** What the song lookup of `submit_music_download_task` found; `None` when it found nothing or raised. */
  datatype SongInfo = SongInfo(name: Option<string>, artistNames: seq<string>)

  /** The task's display name: `"<name> - <artists>"`, or `歌曲_<id>` without song information. */
  function MusicContentName(musicId: string, info: Option<SongInfo>): (r: string)
    ensures info.None? ==> r == "歌曲_" + musicId
    ensures info.Some? ==> var n := info.value.name.GetOr("歌曲_" + musicId);
                           |n| + 3 <= |r| && r[..|n|] == n && r[|n|..|n| + 3] == " - "
  {
    match info
    case None => "歌曲_" + musicId
    case Some(i) => i.name.GetOr("歌曲_" + musicId) + " - " + Join(i.artistNames, ", ")
  }

  /** The task's display name: `歌单: <name>` from a found playlist, `歌单_<id>` otherwise. */
  function PlaylistContentName(playlistId: string, found: Option<Option<string>>): (r: string)
    ensures found.None? ==> r == "歌单_" + playlistId
    ensures found.Some? ==> |r| >= 4 && r[..4] == "歌单: " && r[4..] == found.value.GetOr("歌单_" + playlistId)
  {
    match found
    case None => "歌单_" + playlistId
    case Some(name) => "歌单: " + name.GetOr("歌单_" + playlistId)
  }

  const MusicIdKey: string := "music_id"
  const QualityKey: string := "quality"
  const ContentNameKey: string := "content_name"
  const PlaylistIdKey: string := "playlist_id"
  const IncludeLyricKey: string := "include_lyric"
  const MaxConcurrentKey: string := "max_concurrent"
  const SelectedSongsKey: string := "selected_songs"
  const ArtistNameKey: string := "artist_name"
  const LimitKey: string := "limit"
  const MatchModeKey: string := "match_mode"

  /** `submit_music_download_task`: one Pending `music_download` task with the id, quality and display name. */
  function SubmitMusic(m: Tasks.Manager, musicId: string, quality: string, info: Option<SongInfo>, now: Tasks.Time)
    : (r: (Tasks.Manager, Tasks.TaskId))
    ensures r.1 in r.0.tasks && r.0.tasks[r.1].kind == "music_download" && r.0.tasks[r.1].status == Tasks.Pending
    ensures var md := r.0.tasks[r.1].metadata;
            && md.Keys == {MusicIdKey, QualityKey, ContentNameKey}
            && md[MusicIdKey] == Tasks.Text(musicId) && md[QualityKey] == Tasks.Text(quality)
            && md[ContentNameKey] == Tasks.Text(MusicContentName(musicId, info))
    ensures r.0.queue == m.queue + [Tasks.Entry(r.1, Tasks.DownloadMusic, "music_download", r.0.tasks[r.1].metadata)]
  {
    var md := map[MusicIdKey := Tasks.Text(musicId), QualityKey := Tasks.Text(quality),
                  ContentNameKey := Tasks.Text(MusicContentName(musicId, info))];
    Tasks.CreateTask(m, "music_download", Tasks.DownloadMusic, md, now)
  }

  /**
   `submit_playlist_download_task`: one Pending `playlist_download` task
   with the id, quality, lyric flag, concurrency, selection (`Null` for
   none) and display name.
   */
  function SubmitPlaylist(m: Tasks.Manager, playlistId: string, quality: string, includeLyric: bool, maxConcurrent: int,
                          selected: Option<seq<int>>, found: Option<Option<string>>, now: Tasks.Time)
    : (r: (Tasks.Manager, Tasks.TaskId))
    ensures r.1 in r.0.tasks && r.0.tasks[r.1].kind == "playlist_download" && r.0.tasks[r.1].status == Tasks.Pending
    ensures var md := r.0.tasks[r.1].metadata;
            && md.Keys == {PlaylistIdKey, QualityKey, IncludeLyricKey, MaxConcurrentKey, SelectedSongsKey, ContentNameKey}
            && md[PlaylistIdKey] == Tasks.Text(playlistId) && md[QualityKey] == Tasks.Text(quality)
            && md[IncludeLyricKey] == Tasks.Flag(includeLyric) && md[MaxConcurrentKey] == Tasks.Num(maxConcurrent)
            && (selected.None? <==> md[SelectedSongsKey] == Tasks.Null)
            && (selected.Some? ==> md[SelectedSongsKey] == Tasks.Nums(selected.value))
            && md[ContentNameKey] == Tasks.Text(PlaylistContentName(playlistId, found))
    ensures r.0.queue == m.queue + [Tasks.Entry(r.1, Tasks.DownloadPlaylist, "playlist_download", r.0.tasks[r.1].metadata)]
  {
    var md := map[PlaylistIdKey := Tasks.Text(playlistId), QualityKey := Tasks.Text(quality),
                  IncludeLyricKey := Tasks.Flag(includeLyric), MaxConcurrentKey := Tasks.Num(maxConcurrent),
                  SelectedSongsKey := (if selected.Some? then Tasks.Nums(selected.value) else Tasks.Null),
                  ContentNameKey := Tasks.Text(PlaylistContentName(playlistId, found))];
    Tasks.CreateTask(m, "playlist_download", Tasks.DownloadPlaylist, md, now)
  }

  /**
   `submit_artist_download_task`: one Pending `artist_download` task with
   the name, quality, limit (`Null` for none), match mode, lyric flag,
   concurrency and the display name `艺术家: <name>`.
   */
  function SubmitArtist(m: Tasks.Manager, artistName: string, quality: string, limit: Option<int>, matchMode: string,
                        includeLyric: bool, maxConcurrent: int, now: Tasks.Time)
    : (r: (Tasks.Manager, Tasks.TaskId))
    ensures r.1 in r.0.tasks && r.0.tasks[r.1].kind == "artist_download" && r.0.tasks[r.1].status == Tasks.Pending
    ensures var md := r.0.tasks[r.1].metadata;
            && md.Keys == {ArtistNameKey, QualityKey, LimitKey, MatchModeKey, IncludeLyricKey, MaxConcurrentKey, ContentNameKey}
            && md[ArtistNameKey] == Tasks.Text(artistName) && md[QualityKey] == Tasks.Text(quality)
            && (limit.None? <==> md[LimitKey] == Tasks.Null)
            && (limit.Some? ==> md[LimitKey] == Tasks.Num(limit.value))
            && md[MatchModeKey] == Tasks.Text(matchMode)
            && md[IncludeLyricKey] == Tasks.Flag(includeLyric) && md[MaxConcurrentKey] == Tasks.Num(maxConcurrent)
            && md[ContentNameKey] == Tasks.Text("艺术家: " + artistName)
    ensures r.0.queue == m.queue + [Tasks.Entry(r.1, Tasks.DownloadArtist, "artist_download", r.0.tasks[r.1].metadata)]
  {
    var md := map[ArtistNameKey := Tasks.Text(artistName), QualityKey := Tasks.Text(quality),
                  LimitKey := (if limit.Some? then Tasks.Num(limit.value) else Tasks.Null),
                  MatchModeKey := Tasks.Text(matchMode), IncludeLyricKey := Tasks.Flag(includeLyric),
                  MaxConcurrentKey := Tasks.Num(maxConcurrent), ContentNameKey := Tasks.Text("艺术家: " + artistName)];
    Tasks.CreateTask(m, "artist_download", Tasks.DownloadArtist, md, now)
  }

  /**
   A task submitted to an idle, started manager is the next one a worker
   starts: its record turns Running with its metadata untouched, and the
   work function's handle gets that metadata plus the new task id.
   */
  lemma SubmittedTaskStartsWithItsParams(m: Tasks.Manager, kind: string, work: Tasks.WorkFn, metadata: Tasks.Metadata,
                                          now: Tasks.Time, later: Tasks.Time)
    requires m.isRunning && m.queue == [] && |m.running| < m.workers && Tasks.IdsIssued(m)
    ensures var c := Tasks.CreateTask(m, kind, work, metadata, now);
            var s := Tasks.WorkerStart(c.0, later);
            && c.1 in s.tasks && s.tasks[c.1].status == Tasks.Running && s.tasks[c.1].metadata == metadata
            && c.1 in s.running && s.running[c.1] == Tasks.Handle(work, Tasks.TaskParams(metadata, c.1), false)
            && s.running[c.1].params[Tasks.TaskIdKey] == Tasks.Num(c.1)
  {
    var c := Tasks.CreateTask(m, kind, work, metadata, now);
    assert c.0.queue[0] == Tasks.Entry(c.1, work, kind, metadata);
    assert !Tasks.ObservedCancelled(c.0, c.1);
  }
}
