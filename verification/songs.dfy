/**
 Vocabulary shared by the playlist and artist downloaders and by the
 background work functions: songs, per-song results, the download
 database, progress reports, and the oracles that stand in for the
 network and for the task manager's cancellation flag.
 */
module Downloads {
  import opened Common
  import Tasks

  /** A song as the playlist or search listing describes it. */
  datatype Song = Song(id: int, name: string, artists: string, album: string)

  datatype SongStatus = Succeeded | Failed | Skipped | Cancelled

  /** `SongDownloadResult`; an absent `file_path` is `None`. */
  datatype SongResult = SongResult(
    songId: int,
    name: string,
    artists: string,
    album: string,
    status: SongStatus,
    filePath: Option<string>,
    fileSize: int,
    errorMessage: string,
    lyric: string)

  /** Lyrics attached to a fetched song; Python's `None` and `""` are both the empty string here. */
  datatype MusicInfo = MusicInfo(lyric: string, tlyric: string)

  /**
   What `download_music_file` does for one song: deliver a file, report a
   failure, or raise.
   */
  datatype Fetch =
    | Fetched(path: string, size: int, info: Option<MusicInfo>)
    | NotFetched(message: string)
    | FetchRaised(message: string)

  /** One row of the download database; only `success` and `failed` rows are ever written. */
  datatype DbRecord = DbRecord(succeeded: bool, filePath: string, fileSize: int, quality: string)

  /** The download database, keyed by song id; `add_song` replaces any earlier row. */
  type Db = map<int, DbRecord>

  /** One `update_task_progress(task_id, percent, processed, total)` call. */
  datatype Progress = Progress(percent: real, processed: int, total: int)

  /**
   The places where a work function or a downloader asks the task manager
   whether its task has been cancelled. The answer each one gets is an
   oracle `Check -> bool`.
   */
  datatype Check =
    | OnEntry                 // first thing a work function does
    | BeforeSong(index: nat)  // top of the artist loop
    | InsideSong(index: nat)  // `download_song` with a task id
    | AfterDownload           // after the single download of a music task
    | AfterLoop               // after the batch of a playlist task
    | FinalReport             // guard of the closing 100% report
    | OnError                 // guard of the report in an exception handler

  /**
   The lyric text stored with a downloaded song: nothing unless lyrics were
   requested and delivered; otherwise the original lyric, the translation,
   or both separated by a blank line.
   */
  function LyricText(includeLyric: bool, info: Option<MusicInfo>): (r: string)
    ensures !includeLyric || info.None? ==> r == ""
    ensures includeLyric && info.Some? ==>
              && |r| == |info.value.lyric| + |info.value.tlyric|
                        + (if info.value.lyric != "" && info.value.tlyric != "" then 2 else 0)
              && info.value.lyric <= r
              && r[|r| - |info.value.tlyric|..] == info.value.tlyric
  {
    if !includeLyric || info.None? then ""
    else
      var l := info.value.lyric;
      var t := info.value.tlyric;
      if t != "" then (if l != "" then l + "\n\n" + t else t) else l
  }

  /**
   The part of `download_song` after the cancellation check: a delivered
   file makes a success carrying its path, size and lyrics; a reported
   failure or a raised exception makes a failure carrying the message.
   */
  function FetchedResult(song: Song, fetch: Fetch, includeLyric: bool): (r: SongResult)
    ensures r.songId == song.id && r.name == song.name && r.artists == song.artists && r.album == song.album
    ensures r.status == Succeeded <==> fetch.Fetched?
    ensures fetch.Fetched? ==>
              && r.filePath == Some(fetch.path) && r.fileSize == fetch.size
              && r.errorMessage == "" && r.lyric == LyricText(includeLyric, fetch.info)
    ensures !fetch.Fetched? ==>
              && r.status == Failed && r.errorMessage == fetch.message
              && r.filePath.None? && r.fileSize == 0 && r.lyric == ""
  {
    match fetch
    case Fetched(path, size, info) =>
      SongResult(song.id, song.name, song.artists, song.album, Succeeded, Some(path), size, "", LyricText(includeLyric, info))
    case NotFetched(msg) =>
      SongResult(song.id, song.name, song.artists, song.album, Failed, None, 0, msg, "")
    case FetchRaised(msg) =>
      SongResult(song.id, song.name, song.artists, song.album, Failed, None, 0, msg, "")
  }

  /** The result recorded for a song the database already holds. */
  function SkippedResult(song: Song, rec: DbRecord): (r: SongResult)
    ensures r.status == Skipped && r.songId == song.id && r.name == song.name && r.album == song.album
    ensures r.filePath == Some(rec.filePath) && r.fileSize == rec.fileSize && r.errorMessage == ""
  {
    SongResult(song.id, song.name, song.artists, song.album, Skipped, Some(rec.filePath), rec.fileSize, "", "")
  }

  /** The database after a downloaded song: successes and failures are recorded, anything else is not. */
  function StoreResult(db: Db, song: Song, res: SongResult, quality: string): (r: Db)
    ensures res.status == Succeeded ==> r == db[song.id := DbRecord(true, res.filePath.GetOr(""), res.fileSize, quality)]
    ensures res.status == Failed ==> r == db[song.id := DbRecord(false, "", 0, quality)]
    ensures res.status != Succeeded && res.status != Failed ==> r == db
    ensures r.Keys == db.Keys + (if res.status == Succeeded || res.status == Failed then {song.id} else {})
  {
    if res.status == Succeeded then db[song.id := DbRecord(true, res.filePath.GetOr(""), res.fileSize, quality)]
    else if res.status == Failed then db[song.id := DbRecord(false, "", 0, quality)]
    else db
  }

  /** How many results carry status `s`. */
  function Count(rs: seq<SongResult>, s: SongStatus): (n: nat)
    ensures n <= |rs|
  {
    if rs == [] then 0 else Count(rs[..|rs| - 1], s) + (if rs[|rs| - 1].status == s then 1 else 0)
  }

  lemma CountSnoc(rs: seq<SongResult>, r: SongResult, s: SongStatus)
    ensures Count(rs + [r], s) == Count(rs, s) + (if r.status == s then 1 else 0)
  {
    assert (rs + [r])[..|rs|] == rs;
  }

  /** Every result has exactly one of the four statuses. */
  lemma {:induction false} CountsPartition(rs: seq<SongResult>)
    ensures Count(rs, Succeeded) + Count(rs, Failed) + Count(rs, Skipped) + Count(rs, Cancelled) == |rs|
  {
    if rs != [] {
      CountsPartition(rs[..|rs| - 1]);
    }
  }

  /**
   `sum(r.file_size for r in results if r.status == 'success')`: only
   successes count, so a skipped song adds nothing even though its result
   carries the stored size.
   */
  function TotalFileSize(rs: seq<SongResult>): (total: int)
    ensures Count(rs, Succeeded) == 0 ==> total == 0
    ensures (forall i :: 0 <= i < |rs| ==> rs[i].fileSize >= 0) ==> total >= 0
    decreases |rs|
  {
    if rs == [] then 0
    else
      var init := rs[..|rs| - 1];
      assert forall i :: 0 <= i < |init| ==> init[i] == rs[i];
      TotalFileSize(init) + (if rs[|rs| - 1].status == Succeeded then rs[|rs| - 1].fileSize else 0)
  }

  /** The total of two runs of results is the sum of their totals. */
  lemma {:induction false} TotalFileSizeAppend(a: seq<SongResult>, b: seq<SongResult>)
    ensures TotalFileSize(a + b) == TotalFileSize(a) + TotalFileSize(b)
    decreases |b|
  {
    if b == [] {
      assert a + b == a;
    } else {
      var init := b[..|b| - 1];
      assert (a + b)[..|a + b| - 1] == a + init;
      assert (a + b)[|a + b| - 1] == b[|b| - 1];
      TotalFileSizeAppend(a, init);
    }
  }

  /** One result adds its size to the total when it is a success and nothing otherwise. */
  lemma TotalFileSizeSnoc(rs: seq<SongResult>, x: SongResult)
    ensures x.status == Succeeded ==> TotalFileSize(rs + [x]) == TotalFileSize(rs) + x.fileSize
    ensures x.status != Succeeded ==> TotalFileSize(rs + [x]) == TotalFileSize(rs)
  {
    assert (rs + [x])[..|rs|] == rs;
  }

  // ---------------------------------------------------------------------------
  // Traces

  /** A visible action of a download loop: a progress report, or the start of the download of the song at an index. */
  datatype Event = Reported(progress: Progress) | Fetching(index: nat)

  /** The progress reports of a trace, in order. */
  function Reports(events: seq<Event>): (r: seq<Progress>)
    ensures |r| <= |events|
    decreases |events|
  {
    if events == [] then []
    else Reports(events[..|events| - 1]) + (if events[|events| - 1].Reported? then [events[|events| - 1].progress] else [])
  }

  /** The reports of two traces one after the other are the reports of the first, then of the second. */
  lemma {:induction false} ReportsAppend(a: seq<Event>, b: seq<Event>)
    ensures Reports(a + b) == Reports(a) + Reports(b)
    decreases |b|
  {
    if b == [] {
      assert a + b == a;
    } else {
      var init := b[..|b| - 1];
      assert (a + b)[..|a + b| - 1] == a + init;
      assert (a + b)[|a + b| - 1] == b[|b| - 1];
      ReportsAppend(a, init);
    }
  }

  /** Every report of the trace is below 100%. */
  predicate BelowFull(events: seq<Event>) {
    forall j :: 0 <= j < |events| && events[j].Reported? ==> events[j].progress.percent < 100.0
  }

  /** The trace starts downloads only of songs before position `k`. */
  predicate FetchesBelow(events: seq<Event>, k: nat) {
    forall j :: 0 <= j < |events| && events[j].Fetching? ==> events[j].index < k
  }

  /** No download starts after a report of 100%. */
  predicate NoFetchAfterFull(events: seq<Event>) {
    forall j, j' :: 0 <= j < j' < |events| && events[j].Reported? && events[j].progress.percent >= 100.0 ==> !events[j'].Fetching?
  }

  /** Two traces below 100% one after the other stay below 100%. */
  lemma BelowFullAppend(a: seq<Event>, b: seq<Event>)
    requires BelowFull(a) && BelowFull(b)
    ensures BelowFull(a + b)
  {
    forall j | 0 <= j < |a + b| && (a + b)[j].Reported?
      ensures (a + b)[j].progress.percent < 100.0
    {
      if j < |a| {
        assert (a + b)[j] == a[j];
      } else {
        assert (a + b)[j] == b[j - |a|];
      }
    }
  }

  /** A trace below 100% followed by one more event cannot start a download after a 100% report. */
  lemma FullOnlyAtEnd(u: seq<Event>, x: Event)
    requires BelowFull(u)
    ensures NoFetchAfterFull(u + [x])
  {
  }

  /** The report for song `i` of `n`: `(i + 1) / n * 100` with `i + 1` items processed. */
  function SongReport(i: nat, n: nat): (e: Event)
    requires i < n
    ensures e.Reported? && e.progress.processed == i + 1 && e.progress.total == n
    ensures e.progress.percent >= 100.0 <==> i == n - 1
  {
    Reported(Progress(Percent(i + 1, n), i + 1, n))
  }

  /**
   The events of the song at 0-based position `k` of `n` in a batch loop:
   with a task id its report, and its download unless it is skipped. As
   written the report comes first; corrected (`fixed`), the download does.
   */
  function SongTrace(k: nat, n: nat, tracked: bool, downloads: bool, fixed: bool): seq<Event>
    requires k < n
  {
    var report := if tracked then [SongReport(k, n)] else [];
    var fetch := if downloads then [Fetching(k)] else [];
    if fixed then fetch + report else report + fetch
  }

  /** With a task id a song's events carry its report; without one they carry none. */
  lemma SongTraceReports(k: nat, n: nat, tracked: bool, downloads: bool, fixed: bool)
    requires k < n
    ensures Reports(SongTrace(k, n, tracked, downloads, fixed)) == if tracked then [SongReport(k, n).progress] else []
  {
    var report := if tracked then [SongReport(k, n)] else [];
    var fetch := if downloads then [Fetching(k)] else [];
    ReportsAppend(report, fetch);
    ReportsAppend(fetch, report);
    assert Reports(fetch) == [] by {
      if downloads {
        assert fetch[..0] == [];
      }
    }
    assert Reports(report) == if tracked then [SongReport(k, n).progress] else [] by {
      if tracked {
        assert report[..0] == [];
      }
    }
  }

  /** A song's events download that song exactly when it is not skipped, and no other. */
  lemma SongTraceFetches(k: nat, n: nat, tracked: bool, downloads: bool, fixed: bool)
    requires k < n
    ensures var r := SongTrace(k, n, tracked, downloads, fixed);
            FetchesBelow(r, k + 1) && (Fetching(k) in r <==> downloads)
  {
  }

  /**
   A song's events report 100% only for the last song, and corrected that
   report comes after its download.
   */
  lemma SongTraceBelowFull(k: nat, n: nat, tracked: bool, downloads: bool, fixed: bool)
    requires k < n
    ensures var r := SongTrace(k, n, tracked, downloads, fixed);
            && (k + 1 < n || !tracked ==> BelowFull(r))
            && (fixed && tracked ==> r[|r| - 1] == SongReport(k, n) && BelowFull(r[..|r| - 1]))
  {
    var report := if tracked then [SongReport(k, n)] else [];
    var fetch := if downloads then [Fetching(k)] else [];
    assert fixed && tracked ==> (fetch + report)[..|fetch + report| - 1] == fetch;
  }

  /** As written, with a task id, a song's report comes before its download. */
  lemma SongTraceAsWritten(k: nat, n: nat, downloads: bool)
    requires k < n
    ensures SongTrace(k, n, true, downloads, false) == if downloads then [SongReport(k, n), Fetching(k)] else [SongReport(k, n)]
  {
  }

  /**
   The bookkeeping of a batch loop: the results so far, the three counters
   the code keeps, the download database, and the trace of reports and
   downloads.
   */
  datatype Batch = Batch(results: seq<SongResult>, succeeded: nat, failed: nat, skipped: nat, db: Db, events: seq<Event>)

  /** What a batch download returns: an error, or the full loop over `total` songs. */
  datatype BatchOutcome = Unavailable(error: string) | Done(total: nat, batch: Batch)

  /** `(i / total) * 100` for the 1-based position `i`. */
  function Percent(i: int, total: int): (p: real)
    requires total > 0
    ensures 0 <= i <= total ==> 0.0 <= p <= 100.0
    ensures i == total ==> p == 100.0
    ensures 0 <= i < total ==> p < 100.0
  {
    (i as real / total as real) * 100.0
  }

  // ---------------------------------------------------------------------------
  // One song

  /**
   The playlist downloader's `download_song`: with a task id, a task already
   Cancelled stops the song before any network traffic with a `cancelled`
   result; otherwise the fetch decides the result.
   */
  function DownloadSong(song: Song, tracked: bool, cancelledNow: bool, fetch: Fetch, includeLyric: bool): (r: SongResult)
    ensures r.songId == song.id && r.name == song.name && r.artists == song.artists && r.album == song.album
    ensures r.status == Cancelled <==> tracked && cancelledNow
    ensures r.status == Cancelled ==> r.errorMessage == Tasks.CancelledMessage && r.filePath.None? && r.fileSize == 0
    ensures !(tracked && cancelledNow) ==> r == FetchedResult(song, fetch, includeLyric)
    ensures r.status != Skipped
  {
    if tracked && cancelledNow then
      SongResult(song.id, song.name, song.artists, song.album, Cancelled, None, 0, Tasks.CancelledMessage, "")
    else FetchedResult(song, fetch, includeLyric)
  }

  // ---------------------------------------------------------------------------
  // The batch loop

  /**
   What the loop learns from outside: the cancellation flag at each check,
   the fetch of the song at each position, whether a stored file counts as
   already downloaded (the playlist downloader asks whether it lies in the
   playlist's directory, the artist downloader accepts any path), and the
   configuration.
   */
  datatype Env = Env(
    cancelled: Check -> bool,
    fetch: nat -> Fetch,
    inTarget: string -> bool,
    includeLyric: bool,
    quality: string)

  /** The database holds a successful download of the song at an accepted path. */
  predicate AlreadyHere(db: Db, song: Song, inTarget: string -> bool) {
    song.id in db && db[song.id].succeeded && inTarget(db[song.id].filePath)
  }

  /**
   One iteration for the song at 0-based position `k`: report progress for
   position `k + 1` (with a task id), then skip a song already here or
   download it and record a success or failure in the database. As written
   the report precedes the download; `fixed` swaps the two.
   */
  function Step(b: Batch, songs: seq<Song>, k: nat, env: Env, tracked: bool, fixed: bool): (r: Batch)
    requires k < |songs|
    ensures |r.results| == |b.results| + 1 && r.results[..|b.results|] == b.results
    ensures var x := r.results[|b.results|];
            && r.succeeded == b.succeeded + (if x.status == Succeeded then 1 else 0)
            && r.failed == b.failed + (if x.status == Failed then 1 else 0)
            && r.skipped == b.skipped + (if x.status == Skipped then 1 else 0)
            && Explained(x, songs, k, env, tracked, r.db)
    ensures b.db.Keys <= r.db.Keys
  {
    var song := songs[k];
    var here := AlreadyHere(b.db, song, env.inTarget);
    var events := b.events + SongTrace(k, |songs|, tracked, !here, fixed);
    if here then
      b.(results := b.results + [SkippedResult(song, b.db[song.id])], skipped := b.skipped + 1, events := events)
    else
      var res := DownloadSong(song, tracked, env.cancelled(InsideSong(k)), env.fetch(k), env.includeLyric);
      Batch(b.results + [res],
            b.succeeded + (if res.status == Succeeded then 1 else 0),
            b.failed + (if res.status == Failed then 1 else 0),
            b.skipped,
            StoreResult(b.db, song, res, env.quality),
            events)
  }

  /**
   One iteration skips song `k` exactly when the database already has it,
   adds at most that song's row, and appends the song's events: its report
   (with a task id) and, unless skipped, its download, in the order `fixed`
   selects.
   */
  lemma StepEvents(b: Batch, songs: seq<Song>, k: nat, env: Env, tracked: bool, fixed: bool)
    requires k < |songs|
    ensures var r := Step(b, songs, k, env, tracked, fixed);
            && (r.results[|b.results|].status == Skipped <==> AlreadyHere(b.db, songs[k], env.inTarget))
            && r.db.Keys <= b.db.Keys + {songs[k].id}
            && r.events == b.events + SongTrace(k, |songs|, tracked, !AlreadyHere(b.db, songs[k], env.inTarget), fixed)
  {
  }

  /**
   The first `k` iterations of the loop in `download_playlist_songs`,
   `download_selected_songs` and `download_artist_songs`: one result per song, counters that agree with
   the results (a cancelled song is listed but counted nowhere), and with a
   task id the reports `(i / n) * 100` for `i = 1..k`.
   */
  function Run(songs: seq<Song>, k: nat, db: Db, env: Env, tracked: bool, fixed: bool): (b: Batch)
    requires k <= |songs|
    ensures |b.results| == k
    ensures b.succeeded == Count(b.results, Succeeded)
    ensures b.failed == Count(b.results, Failed)
    ensures b.skipped == Count(b.results, Skipped)
    ensures db.Keys <= b.db.Keys && AllExplained(b, songs, k, env, tracked)
    decreases k
  {
    if k == 0 then Batch([], 0, 0, 0, db, [])
    else
      var prev := Run(songs, k - 1, db, env, tracked, fixed);
      var b := Step(prev, songs, k - 1, env, tracked, fixed);
      CountersSnoc(prev, b);
      StepExplained(prev, songs, k - 1, env, tracked, fixed);
      b
  }

  /** Counting the new result keeps the three counters in step with the results. */
  lemma CountersSnoc(prev: Batch, b: Batch)
    requires prev.succeeded == Count(prev.results, Succeeded)
    requires prev.failed == Count(prev.results, Failed)
    requires prev.skipped == Count(prev.results, Skipped)
    requires |b.results| == |prev.results| + 1 && b.results[..|prev.results|] == prev.results
    requires var x := b.results[|prev.results|];
             && b.succeeded == prev.succeeded + (if x.status == Succeeded then 1 else 0)
             && b.failed == prev.failed + (if x.status == Failed then 1 else 0)
             && b.skipped == prev.skipped + (if x.status == Skipped then 1 else 0)
    ensures b.succeeded == Count(b.results, Succeeded)
    ensures b.failed == Count(b.results, Failed)
    ensures b.skipped == Count(b.results, Skipped)
  {
    var x := b.results[|prev.results|];
    assert b.results == prev.results + [x];
    CountSnoc(prev.results, x, Succeeded);
    CountSnoc(prev.results, x, Failed);
    CountSnoc(prev.results, x, Skipped);
  }

  /**
   The reports of the first `k` of `n` songs: with a task id,
   `(i / n) * 100` with `i` items processed for `i = 1..k`, in order; without
   one, none.
   */
  predicate ReportsUpTo(reports: seq<Progress>, k: nat, n: nat, tracked: bool) {
    if tracked then |reports| == k && forall i :: 0 <= i < k ==> n > 0 && reports[i] == Progress(Percent(i + 1, n), i + 1, n)
    else reports == []
  }

  /** Appending the report for position `k` extends the reports for positions `1..k-1`. */
  lemma ReportsSnoc(prev: seq<Progress>, reports: seq<Progress>, k: nat, n: nat, tracked: bool)
    requires 0 < k <= n && ReportsUpTo(prev, k - 1, n, tracked)
    requires reports == prev + if tracked then [Progress(Percent(k, n), k, n)] else []
    ensures ReportsUpTo(reports, k, n, tracked)
  {
    if tracked {
      forall i | 0 <= i < k
        ensures reports[i] == Progress(Percent(i + 1, n), i + 1, n)
      {
        if i < k - 1 {
          assert reports[i] == prev[i];
        }
      }
    }
  }

  /**
   The result at position `i` belongs to song `i`; it is Cancelled only when
   the check inside the song saw the cancellation, Succeeded only when the
   file was delivered, and a success or failure is in the final database.
   */
  predicate Explained(x: SongResult, songs: seq<Song>, i: nat, env: Env, tracked: bool, db: Db)
    requires i < |songs|
  {
    && x.songId == songs[i].id && x.name == songs[i].name
    && (x.status == Cancelled ==> tracked && env.cancelled(InsideSong(i)))
    && (x.status == Succeeded ==> env.fetch(i).Fetched?)
    && ((x.status == Succeeded || x.status == Failed) ==> songs[i].id in db)
  }

  /** The first `k` results of `b` are explained by their songs, the oracles and `b`'s database. */
  predicate AllExplained(b: Batch, songs: seq<Song>, k: nat, env: Env, tracked: bool) {
    && k <= |b.results| && k <= |songs|
    && forall i :: 0 <= i < k ==> Explained(b.results[i], songs, i, env, tracked, b.db)
  }

  /** One more iteration keeps every earlier result explained and explains the new one. */
  lemma StepExplained(prev: Batch, songs: seq<Song>, k: nat, env: Env, tracked: bool, fixed: bool)
    requires k < |songs| && |prev.results| == k
    requires AllExplained(prev, songs, k, env, tracked)
    ensures var b := Step(prev, songs, k, env, tracked, fixed);
            prev.db.Keys <= b.db.Keys && AllExplained(b, songs, k + 1, env, tracked)
  {
    var b := Step(prev, songs, k, env, tracked, fixed);
    forall i | 0 <= i < k
      ensures Explained(b.results[i], songs, i, env, tracked, b.db)
    {
      assert b.results[i] == prev.results[i];
      ExplainedGrows(prev.results[i], songs, i, env, tracked, prev.db, b.db);
    }
  }

  /** An explanation survives the database growing. */
  lemma ExplainedGrows(x: SongResult, songs: seq<Song>, i: nat, env: Env, tracked: bool, db: Db, db': Db)
    requires i < |songs| && db.Keys <= db'.Keys
    requires Explained(x, songs, i, env, tracked, db)
    ensures Explained(x, songs, i, env, tracked, db')
  {
  }

  // ---------------------------------------------------------------------------
  // The order of reports and downloads in a batch loop

  /**
   The trace of the first `k` of `n` songs: the events of each song in turn,
   each song downloaded unless its result is a skip.
   */
  function Trace(n: nat, k: nat, tracked: bool, fixed: bool, results: seq<SongResult>): (r: seq<Event>)
    requires k <= n && k <= |results|
    decreases k
  {
    if k == 0 then [] else Trace(n, k - 1, tracked, fixed, results) + SongTrace(k - 1, n, tracked, results[k - 1].status != Skipped, fixed)
  }

  /** The trace of the first `k` songs depends only on their results. */
  lemma {:induction false} TracePrefix(n: nat, k: nat, tracked: bool, fixed: bool, rs: seq<SongResult>, rs': seq<SongResult>)
    requires k <= n && k <= |rs| && k <= |rs'| && rs[..k] == rs'[..k]
    ensures Trace(n, k, tracked, fixed, rs) == Trace(n, k, tracked, fixed, rs')
    decreases k
  {
    if k > 0 {
      assert rs[k - 1] == rs[..k][k - 1] && rs'[k - 1] == rs'[..k][k - 1];
      assert rs[..k - 1] == rs[..k][..k - 1] && rs'[..k - 1] == rs'[..k][..k - 1];
      TracePrefix(n, k - 1, tracked, fixed, rs, rs');
    }
  }

  /** With a task id the reports of the first `k` songs are `(i / n) * 100` for `i = 1..k`; without one there are none. */
  lemma {:induction false} TraceReports(n: nat, k: nat, tracked: bool, fixed: bool, rs: seq<SongResult>)
    requires k <= n && k <= |rs|
    ensures ReportsUpTo(Reports(Trace(n, k, tracked, fixed, rs)), k, n, tracked)
    decreases k
  {
    if k > 0 {
      var p := Trace(n, k - 1, tracked, fixed, rs);
      var t := SongTrace(k - 1, n, tracked, rs[k - 1].status != Skipped, fixed);
      assert Trace(n, k, tracked, fixed, rs) == p + t;
      TraceReports(n, k - 1, tracked, fixed, rs);
      SongTraceReports(k - 1, n, tracked, rs[k - 1].status != Skipped, fixed);
      ReportsAppend(p, t);
      ReportsSnoc(Reports(p), Reports(p + t), k, n, tracked);
    }
  }

  /** A trace that has not reached the last song has reported nothing of 100%. */
  lemma {:induction false} TraceBelowFull(n: nat, k: nat, tracked: bool, fixed: bool, rs: seq<SongResult>)
    requires k < n && k <= |rs|
    ensures BelowFull(Trace(n, k, tracked, fixed, rs))
    decreases k
  {
    if k > 0 {
      TraceBelowFull(n, k - 1, tracked, fixed, rs);
      SongTraceBelowFull(k - 1, n, tracked, rs[k - 1].status != Skipped, fixed);
      BelowFullAppend(Trace(n, k - 1, tracked, fixed, rs), SongTrace(k - 1, n, tracked, rs[k - 1].status != Skipped, fixed));
    }
  }

  /** The trace of the first `k` songs downloads only those songs. */
  lemma {:induction false} TraceFetchesBelow(n: nat, k: nat, tracked: bool, fixed: bool, rs: seq<SongResult>)
    requires k <= n && k <= |rs|
    ensures FetchesBelow(Trace(n, k, tracked, fixed, rs), k)
    decreases k
  {
    if k > 0 {
      TraceFetchesBelow(n, k - 1, tracked, fixed, rs);
      SongTraceFetches(k - 1, n, tracked, rs[k - 1].status != Skipped, fixed);
      FetchesAppend(Trace(n, k - 1, tracked, fixed, rs), SongTrace(k - 1, n, tracked, rs[k - 1].status != Skipped, fixed), k);
    }
  }

  /** Two traces that download only songs before `k` make one that does too. */
  lemma FetchesAppend(p: seq<Event>, t: seq<Event>, k: nat)
    requires FetchesBelow(p, k) && FetchesBelow(t, k)
    ensures FetchesBelow(p + t, k)
  {
    forall j | 0 <= j < |p + t| && (p + t)[j].Fetching?
      ensures (p + t)[j].index < k
    {
      if j < |p| {
        assert (p + t)[j] == p[j];
      } else {
        assert (p + t)[j] == t[j - |p|];
      }
    }
  }

  /** A trace below 100% followed by the corrected events of the last song keeps every download before the 100% report. */
  lemma FixedTail(p: seq<Event>, k: nat, n: nat, tracked: bool, downloads: bool)
    requires k < n && BelowFull(p)
    ensures NoFetchAfterFull(p + SongTrace(k, n, tracked, downloads, true))
  {
    var t := SongTrace(k, n, tracked, downloads, true);
    SongTraceBelowFull(k, n, tracked, downloads, true);
    if tracked {
      BelowFullAppend(p, t[..|t| - 1]);
      assert p + t == (p + t[..|t| - 1]) + [t[|t| - 1]];
      FullOnlyAtEnd(p + t[..|t| - 1], t[|t| - 1]);
    } else {
      BelowFullAppend(p, t);
    }
  }

  /**
   A trace below 100% that downloaded only songs before `n - 1`, followed by
   the as-written events of the last song, starts a download after its 100%
   report exactly when it downloads the last song.
   */
  lemma AsWrittenTail(p: seq<Event>, n: nat, downloads: bool)
    requires 0 < n && BelowFull(p) && FetchesBelow(p, n - 1)
    ensures var e := p + SongTrace(n - 1, n, true, downloads, false);
            !NoFetchAfterFull(e) <==> Fetching(n - 1) in e
  {
    var t := SongTrace(n - 1, n, true, downloads, false);
    SongTraceAsWritten(n - 1, n, downloads);
    var e := p + t;
    if downloads {
      assert t == [SongReport(n - 1, n), Fetching(n - 1)];
      assert e[|p|] == SongReport(n - 1, n) && e[|p| + 1] == Fetching(n - 1);
    } else {
      assert t == [SongReport(n - 1, n)];
      FullOnlyAtEnd(p, SongReport(n - 1, n));
      assert Fetching(n - 1) !in p;
    }
  }

  /** Corrected, a whole trace never starts a download after a 100% report. */
  lemma FixedTraceOrder(n: nat, tracked: bool, rs: seq<SongResult>)
    requires n <= |rs|
    ensures NoFetchAfterFull(Trace(n, n, tracked, true, rs))
  {
    if n > 0 {
      TraceBelowFull(n, n - 1, tracked, true, rs);
      FixedTail(Trace(n, n - 1, tracked, true, rs), n - 1, n, tracked, rs[n - 1].status != Skipped);
    }
  }

  /**
   As written, with a task id, a whole trace starts a download after a 100%
   report exactly when it downloads the last song, which happens exactly
   when the last song is not skipped.
   */
  lemma AsWrittenTraceOrder(n: nat, rs: seq<SongResult>)
    requires 0 < n <= |rs|
    ensures var e := Trace(n, n, true, false, rs);
            && (!NoFetchAfterFull(e) <==> Fetching(n - 1) in e)
            && (Fetching(n - 1) in e <==> rs[n - 1].status != Skipped)
  {
    var p := Trace(n, n - 1, true, false, rs);
    TraceBelowFull(n, n - 1, true, false, rs);
    TraceFetchesBelow(n, n - 1, true, false, rs);
    AsWrittenTail(p, n, rs[n - 1].status != Skipped);
    var t := SongTrace(n - 1, n, true, rs[n - 1].status != Skipped, false);
    SongTraceFetches(n - 1, n, true, rs[n - 1].status != Skipped, false);
    if rs[n - 1].status != Skipped {
      FetchKept(p, t, Fetching(n - 1));
    } else {
      assert Fetching(n - 1) !in p;
    }
  }

  /** A last song that is not skipped is downloaded, whatever the order. */
  lemma LastNotSkippedFetched(n: nat, tracked: bool, fixed: bool, rs: seq<SongResult>)
    requires 0 < n <= |rs| && rs[n - 1].status != Skipped
    ensures Fetching(n - 1) in Trace(n, n, tracked, fixed, rs)
  {
    SongTraceFetches(n - 1, n, tracked, true, fixed);
    FetchKept(Trace(n, n - 1, tracked, fixed, rs), SongTrace(n - 1, n, tracked, true, fixed), Fetching(n - 1));
  }

  /** An event of the second trace is an event of the two together. */
  lemma FetchKept(p: seq<Event>, t: seq<Event>, x: Event)
    requires x in t
    ensures x in p + t
  {
    var w :| 0 <= w < |t| && t[w] == x;
    assert (p + t)[|p| + w] == x;
  }

  /**
   Iteration `k` extends the trace of the first `k - 1` iterations by the
   events of song `k - 1`, downloaded unless skipped, and adds at most that
   song's row to the database.
   */
  lemma RunStep(songs: seq<Song>, k: nat, db: Db, env: Env, tracked: bool, fixed: bool)
    requires 0 < k <= |songs|
    ensures var prev := Run(songs, k - 1, db, env, tracked, fixed);
            var b := Run(songs, k, db, env, tracked, fixed);
            && b.results[..k - 1] == prev.results
            && (b.results[k - 1].status == Skipped <==> AlreadyHere(prev.db, songs[k - 1], env.inTarget))
            && b.events == prev.events + SongTrace(k - 1, |songs|, tracked, b.results[k - 1].status != Skipped, fixed)
            && b.db.Keys <= prev.db.Keys + {songs[k - 1].id}
  {
    var prev := Run(songs, k - 1, db, env, tracked, fixed);
    assert Run(songs, k, db, env, tracked, fixed) == Step(prev, songs, k - 1, env, tracked, fixed);
    StepEvents(prev, songs, k - 1, env, tracked, fixed);
  }

  /** The loop's trace is the trace of its results: each song's events in turn, downloaded unless skipped. */
  lemma {:induction false} RunTrace(songs: seq<Song>, k: nat, db: Db, env: Env, tracked: bool, fixed: bool)
    requires k <= |songs|
    ensures var b := Run(songs, k, db, env, tracked, fixed);
            b.events == Trace(|songs|, k, tracked, fixed, b.results)
    decreases k
  {
    if k > 0 {
      RunTrace(songs, k - 1, db, env, tracked, fixed);
      RunStep(songs, k, db, env, tracked, fixed);
      var prev := Run(songs, k - 1, db, env, tracked, fixed);
      var b := Run(songs, k, db, env, tracked, fixed);
      TracePrefix(|songs|, k - 1, tracked, fixed, prev.results, b.results);
    }
  }

  /**
   With a task id the first `k` iterations of the loop report `(i / n) * 100`
   for `i = 1..k`, in order; without one they report nothing.
   */
  lemma RunReports(songs: seq<Song>, k: nat, db: Db, env: Env, tracked: bool, fixed: bool)
    requires k <= |songs|
    ensures ReportsUpTo(Reports(Run(songs, k, db, env, tracked, fixed).events), k, |songs|, tracked)
  {
    var b := Run(songs, k, db, env, tracked, fixed);
    RunTrace(songs, k, db, env, tracked, fixed);
    TraceReports(|songs|, k, tracked, fixed, b.results);
  }

  /** The ids of the songs at positions `0 .. k - 1`. */
  function IdsBefore(songs: seq<Song>, k: nat): set<int>
    requires k <= |songs|
    decreases k
  {
    if k == 0 then {} else IdsBefore(songs, k - 1) + {songs[k - 1].id}
  }

  /** An id that no song at positions `0 .. k - 1` carries is not among their ids. */
  lemma {:induction false} NotInIdsBefore(songs: seq<Song>, k: nat, x: int)
    requires k <= |songs|
    requires forall i :: 0 <= i < k ==> songs[i].id != x
    ensures x !in IdsBefore(songs, k)
    decreases k
  {
    if k > 0 {
      NotInIdsBefore(songs, k - 1, x);
    }
  }

  /** The last song has no row in the database and does not occur earlier in the list. */
  predicate LastIsNew(songs: seq<Song>, db: Db) {
    && songs != []
    && songs[|songs| - 1].id !in db
    && forall i :: 0 <= i < |songs| - 1 ==> songs[i].id != songs[|songs| - 1].id
  }

  /** The database gains rows only for the songs the loop has handled. */
  lemma {:induction false} RunKeys(songs: seq<Song>, k: nat, db: Db, env: Env, tracked: bool, fixed: bool)
    requires k <= |songs|
    ensures Run(songs, k, db, env, tracked, fixed).db.Keys <= db.Keys + IdsBefore(songs, k)
    decreases k
  {
    if k > 0 {
      RunKeys(songs, k - 1, db, env, tracked, fixed);
      RunStep(songs, k, db, env, tracked, fixed);
    }
  }

  /** When the loop reaches a last song that is new to the database, the database still has no row for it. */
  lemma LastSongNotHere(songs: seq<Song>, db: Db, env: Env, tracked: bool, fixed: bool)
    requires LastIsNew(songs, db)
    ensures songs[|songs| - 1].id !in Run(songs, |songs| - 1, db, env, tracked, fixed).db
  {
    RunKeys(songs, |songs| - 1, db, env, tracked, fixed);
    NotInIdsBefore(songs, |songs| - 1, songs[|songs| - 1].id);
  }

  /** A last song that is new to the database is not skipped, so it is downloaded. */
  lemma LastSongDownloaded(songs: seq<Song>, db: Db, env: Env, tracked: bool, fixed: bool)
    requires LastIsNew(songs, db)
    ensures Fetching(|songs| - 1) in Run(songs, |songs|, db, env, tracked, fixed).events
  {
    var n := |songs|;
    var b := Run(songs, n, db, env, tracked, fixed);
    assert b.results[n - 1].status != Skipped by {
      LastSongNotHere(songs, db, env, tracked, fixed);
      RunStep(songs, n, db, env, tracked, fixed);
    }
    RunTrace(songs, n, db, env, tracked, fixed);
    LastNotSkippedFetched(n, tracked, fixed, b.results);
  }

  /** Corrected, the whole loop never starts a download after a 100% report. */
  lemma FixedRunOrder(songs: seq<Song>, db: Db, env: Env, tracked: bool)
    ensures NoFetchAfterFull(Run(songs, |songs|, db, env, tracked, true).events)
  {
    var b := Run(songs, |songs|, db, env, tracked, true);
    RunTrace(songs, |songs|, db, env, tracked, true);
    FixedTraceOrder(|songs|, tracked, b.results);
  }

  /**
   As written, with a task id, the whole loop starts a download after a 100%
   report exactly when it downloads the last song: that song's report comes
   first.
   */
  lemma AsWrittenRunOrder(songs: seq<Song>, db: Db, env: Env)
    requires songs != []
    ensures var e := Run(songs, |songs|, db, env, true, false).events;
            !NoFetchAfterFull(e) <==> Fetching(|songs| - 1) in e
  {
    var b := Run(songs, |songs|, db, env, true, false);
    RunTrace(songs, |songs|, db, env, true, false);
    AsWrittenTraceOrder(|songs|, b.results);
  }
}
