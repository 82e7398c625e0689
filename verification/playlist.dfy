/**
 The playlist downloader: turning user input into a playlist id, turning a
 playlist name into a directory name, downloading one song with a
 cancellation check, and the batch loop over a whole or a filtered
 playlist with its download-database bookkeeping and progress reports.
 */
module PlaylistDownloader {
  import opened Common
  import opened Downloads
  import Tasks

  // ---------------------------------------------------------------------------
  // Playlist ids

  /** The longest run of ASCII digits at the start of `s`: a greedy `\d+` group. */
  function DigitRun(s: string): (r: string)
    ensures r <= s
    ensures forall i :: 0 <= i < |r| ==> IsAsciiDigit(r[i])
    ensures |r| < |s| ==> !IsAsciiDigit(s[|r|])
  {
    if s != [] && IsAsciiDigit(s[0]) then [s[0]] + DigitRun(s[1..]) else []
  }

  lemma {:induction false} DigitRunOfDigits(d: string, rest: string)
    requires forall i :: 0 <= i < |d| ==> IsAsciiDigit(d[i])
    requires rest == [] || !IsAsciiDigit(rest[0])
    ensures DigitRun(d + rest) == d
    decreases |d|
  {
    if d == [] {
      assert d + rest == rest;
    } else {
      assert (d + rest)[1..] == d[1..] + rest;
      DigitRunOfDigits(d[1..], rest);
    }
  }

  /** The regular expression `pre(\d+)` matches at index `i`. */
  predicate MatchesAt(s: string, pre: string, i: int) {
    OccursAt(s, pre, i) && i + |pre| < |s| && IsAsciiDigit(s[i + |pre|])
  }

  /** `re.search`: the leftmost index from `start` on where `pre(\d+)` matches, or -1. */
  function SearchFrom(s: string, pre: string, start: nat): (r: int)
    ensures r == -1 || (start <= r && MatchesAt(s, pre, r))
    ensures r >= 0 ==> forall j :: start <= j < r ==> !MatchesAt(s, pre, j)
    ensures r == -1 ==> forall j :: start <= j ==> !MatchesAt(s, pre, j)
    decreases |s| - start
  {
    if start + |pre| >= |s| then -1
    else if MatchesAt(s, pre, start) then start
    else SearchFrom(s, pre, start + 1)
  }

  /** `pre(\d+)` matches at `i` and nowhere before it: the match `re.search` reports. */
  ghost predicate FirstMatchAt(s: string, pre: string, i: int) {
    MatchesAt(s, pre, i) && forall j :: 0 <= j < i ==> !MatchesAt(s, pre, j)
  }

  /** `pre(\d+)` matches nowhere in `s`. */
  ghost predicate NoMatch(s: string, pre: string) {
    forall j :: !MatchesAt(s, pre, j)
  }

  /** There is at most one first match. */
  lemma FirstMatchUnique(s: string, pre: string, i: int, k: int)
    requires FirstMatchAt(s, pre, i) && FirstMatchAt(s, pre, k)
    ensures i == k
  {
  }

  /**
   `match.group(1)` of the first match of `pre(\d+)`, if any: the greedy
   digit run right after the leftmost occurrence of `pre` followed by a digit.
   */
  function RegexGroup(s: string, pre: string): (r: Option<string>)
    ensures r.Some? ==> IsDigits(r.value)
    ensures r.None? <==> NoMatch(s, pre)
    ensures r.Some? ==> exists i :: FirstMatchAt(s, pre, i) && r.value == DigitRun(s[i + |pre|..])
    ensures forall i :: FirstMatchAt(s, pre, i) ==> r == Some(DigitRun(s[i + |pre|..]))
  {
    var i := SearchFrom(s, pre, 0);
    if i < 0 then None
    else
      var g := DigitRun(s[i + |pre|..]);
      assert g[0] == s[i + |pre|];
      assert FirstMatchAt(s, pre, i);
      Some(g)
  }

  const QueryPattern: string := "playlist?id="
  const PathPattern: string := "playlist/"

  /**
   `_extract_playlist_id`: all-digit input is already an id; otherwise the
   digits after the first `playlist?id=`, else after the first `playlist/`;
   otherwise the input itself. The third pattern of the code,
   `playlist/(\d+)/`, can only match where `playlist/(\d+)` already does,
   so it never decides the result.
   */
  function ExtractPlaylistId(input: string): (r: string)
    ensures IsDigits(input) ==> r == input
    ensures r == input || IsDigits(r)
    ensures r != input ==> (exists j :: MatchesAt(input, QueryPattern, j)) || (exists j :: MatchesAt(input, PathPattern, j))
    ensures forall i :: !IsDigits(input) && FirstMatchAt(input, QueryPattern, i) ==>
              r == DigitRun(input[i + |QueryPattern|..])
    ensures forall i :: !IsDigits(input) && NoMatch(input, QueryPattern) && FirstMatchAt(input, PathPattern, i) ==>
              r == DigitRun(input[i + |PathPattern|..])
    ensures !IsDigits(input) && NoMatch(input, QueryPattern) && NoMatch(input, PathPattern) ==> r == input
  {
    if IsDigits(input) then input
    else match RegexGroup(input, QueryPattern)
      case Some(g) => g
      case None =>
        match RegexGroup(input, PathPattern)
        case Some(g) => g
        case None => input
  }

  /**
   A share link `<prefix>playlist?id=<digits><rest>` yields exactly its
   digits, whatever the prefix (as long as it holds no `?`) and whatever
   follows the digits.
   */
  lemma ExtractFromQuery(pre: string, d: string, rest: string)
    requires '?' !in pre
    requires IsDigits(d)
    requires rest == [] || !IsAsciiDigit(rest[0])
    ensures ExtractPlaylistId(pre + QueryPattern + d + rest) == d
  {
    var tail := QueryPattern + d + rest;
    var s := pre + tail;
    assert pre + QueryPattern + d + rest == s;
    QueryAfterPrefix(pre, d, rest);
    forall j | 0 <= j < |pre|
      ensures !MatchesAt(s, QueryPattern, j)
    {
      NoEarlyQueryMatch(pre, tail, j);
    }
    FirstMatch(s, QueryPattern, |pre|);
    DigitRunOfDigits(d, rest);
  }

  /** The pattern right after the prefix matches there, and the text is not all digits. */
  lemma QueryAfterPrefix(pre: string, d: string, rest: string)
    requires IsDigits(d)
    ensures var s := pre + (QueryPattern + d + rest);
            && MatchesAt(s, QueryPattern, |pre|) && !IsDigits(s)
            && s[|pre| + |QueryPattern|..] == d + rest
  {
    var s := pre + (QueryPattern + d + rest);
    var n := |pre|;
    assert s[n + 8] == '?';
    assert s[n..n + 12] == QueryPattern;
    assert s[n + 12] == d[0];
  }

  /** A match with none before it is the one the search finds. */
  lemma FirstMatch(s: string, pre: string, n: int)
    requires MatchesAt(s, pre, n)
    requires forall j :: 0 <= j < n ==> !MatchesAt(s, pre, j)
    ensures SearchFrom(s, pre, 0) == n
  {
  }

  /** Before a prefix without `?` ends, `playlist?id=` cannot start. */
  lemma NoEarlyQueryMatch(pre: string, tail: string, j: int)
    requires '?' !in pre
    requires QueryPattern <= tail
    requires 0 <= j < |pre|
    ensures !MatchesAt(pre + tail, QueryPattern, j)
  {
    var s := pre + tail;
    if j + 12 <= |s| {
      assert s[j + 8] != '?' by {
        if j + 8 < |pre| {
          assert s[j + 8] == pre[j + 8];
        } else {
          assert s[j + 8] == tail[j + 8 - |pre|] == QueryPattern[j + 8 - |pre|];
        }
      }
      assert s[j..j + 12][8] == s[j + 8];
    }
  }

  /** The web link form used by the service. */
  lemma ExtractFromWebLink(d: string)
    requires IsDigits(d)
    ensures ExtractPlaylistId("https://music.163.com/" + QueryPattern + d) == d
  {
    assert "https://music.163.com/" + QueryPattern + d == "https://music.163.com/" + QueryPattern + d + [];
    ExtractFromQuery("https://music.163.com/", d, []);
  }

  /**
   The path form `https://music.163.com/playlist/<digits>`: no `playlist?id=`
   matches, so the digits after `playlist/` are the id.
   */
  lemma ExtractFromWebPath(d: string)
    requires IsDigits(d)
    ensures ExtractPlaylistId("https://music.163.com/" + PathPattern + d) == d
  {
    var host := "https://music.163.com/";
    var s := host + PathPattern + d;
    var n := |host| + |PathPattern|;
    assert s[..n] == host + PathPattern && s[n..] == d;
    assert !IsDigits(s) by {
      assert !IsAsciiDigit(s[0]);
    }
    forall j | 0 <= j && j + 12 <= |s|
      ensures !MatchesAt(s, QueryPattern, j)
    {
      assert s[j..j + 12][8] == s[j + 8];
      if j + 8 < n {
        assert s[j + 8] == (host + PathPattern)[j + 8];
      } else {
        assert s[j + 8] == d[j + 8 - n];
      }
    }
    forall j | 0 <= j < |host| && j + 9 <= |s|
      ensures !MatchesAt(s, PathPattern, j)
    {
      assert s[j..j + 9][0] == s[j] == host[j];
      assert s[j..j + 9][1] == s[j + 1];
      assert j == 3 ==> s[j + 1] == 's';
    }
    assert MatchesAt(s, PathPattern, |host|) by {
      assert s[n] == d[0];
    }
    assert FirstMatchAt(s, PathPattern, |host|);
    DigitRunOfDigits(d, []);
    assert d + [] == d;
  }

  // ---------------------------------------------------------------------------
  // Directory names

  /** The characters `[<>:"/\\|?*\x00-\x1f]` that may not appear in a file name. */
  predicate IsIllegalFileChar(c: char) {
    IsReservedChar(c) || c as int < 0x20
  }

  /** How the playlist service answered a name lookup for an id. */
  datatype NameLookup = Named(name: string) | NoDetail | LookupRaised

  const UnknownPlaylist: string := "未知歌单"
  const DefaultFilename: string := "歌单下载"

  /**
   The URL branch of `_sanitize_filename`: a name that looks like a link
   with an extractable id is replaced by the playlist's real name; a lookup
   without detail keeps the name; a failed lookup gives the generic name.
   */
  function ResolveName(name: string, lookup: string -> NameLookup): (r: string)
    ensures !Contains(name, "music.163.com") && !Contains(name, QueryPattern) ==> r == name
    ensures ExtractPlaylistId(name) == name ==> r == name
  {
    if Contains(name, "music.163.com") || Contains(name, QueryPattern) then
      var id := ExtractPlaylistId(name);
      if id != name then
        match lookup(id)
        case Named(n) => n
        case NoDetail => name
        case LookupRaised => UnknownPlaylist
      else name
    else name
  }

  /**
   `_sanitize_filename`: illegal characters become `_`, surrounding
   whitespace and then dots are stripped, an empty result becomes the
   default name, and the result is cut to 100 characters.
   */
  function SanitizeFilename(name: string, lookup: string -> NameLookup): (r: string)
    ensures 0 < |r| <= 100
    ensures forall i :: 0 <= i < |r| ==> !IsIllegalFileChar(r[i])
    ensures r[0] != '.'
  {
    var t := ReplaceIllegal(ResolveName(name, lookup));
    TidyNameLegal(t);
    var u := TidyName(t);
    CutKeepsLegal(u, 100);
    PyTake(u, 100)
  }

  /** Cutting a legal name that does not start with a dot keeps it legal. */
  lemma CutKeepsLegal(u: string, k: nat)
    requires 0 < |u| && 0 < k && u[0] != '.'
    requires forall i :: 0 <= i < |u| ==> !IsIllegalFileChar(u[i])
    ensures 0 < |PyTake(u, k)| <= k && PyTake(u, k)[0] != '.'
    ensures forall i :: 0 <= i < |PyTake(u, k)| ==> !IsIllegalFileChar(PyTake(u, k)[i])
  {
    var r := PyTake(u, k);
    assert forall i :: 0 <= i < |r| ==> r[i] == u[i];
  }

  lemma TidyNameLegal(t: string)
    requires forall c :: c in t ==> !IsIllegalFileChar(c)
    ensures forall i :: 0 <= i < |TidyName(t)| ==> !IsIllegalFileChar(TidyName(t)[i])
  {
    var u := TidyName(t);
    DefaultFilenameLegal();
    forall i | 0 <= i < |u|
      ensures !IsIllegalFileChar(u[i])
    {
      assert u[i] in u;
    }
  }

  lemma DefaultFilenameLegal()
    ensures forall c :: c in DefaultFilename ==> !IsIllegalFileChar(c)
  {
    forall c | c in DefaultFilename
      ensures !IsIllegalFileChar(c)
    {
      assert c as int >= 0x20;
    }
  }

  function ReplaceIllegal(name: string): (t: string)
    ensures |t| == |name|
    ensures forall c :: c in t ==> !IsIllegalFileChar(c)
    ensures (forall i :: 0 <= i < |name| ==> !IsIllegalFileChar(name[i])) ==> t == name
  {
    var t := ReplaceChars(name, IsIllegalFileChar, '_');
    assert forall i :: 0 <= i < |t| ==> !IsIllegalFileChar(t[i]);
    t
  }

  predicate IsDot(c: char) {
    c == '.'
  }

  /** Whitespace and then dots stripped from both ends; the default name if nothing is left. */
  function TidyName(t: string): (u: string)
    ensures |u| > 0 && u[0] != '.'
    ensures forall c :: c in u ==> c in t || c in DefaultFilename
  {
    var m := Strip(t, IsSpace);
    var s := Strip(m, IsDot);
    StripMembers(t, IsSpace);
    StripMembers(m, IsDot);
    if s == "" then DefaultFilename else s
  }

  /** A name that is already a clean directory name comes back unchanged. */
  lemma SanitizeKeepsCleanName(name: string, lookup: string -> NameLookup)
    requires 0 < |name| <= 100
    requires forall i :: 0 <= i < |name| ==> !IsIllegalFileChar(name[i])
    requires !IsSpace(name[0]) && !IsSpace(name[|name| - 1])
    requires name[0] != '.' && name[|name| - 1] != '.'
    requires !Contains(name, "music.163.com") && !Contains(name, QueryPattern)
    ensures SanitizeFilename(name, lookup) == name
  {
    StripNoop(name, IsSpace);
    StripNoop(name, IsDot);
  }

  // ---------------------------------------------------------------------------
  // Selections and whole playlists

  /** The filter of `download_selected_songs`: the songs whose id was selected, in playlist order. */
  function SelectSongs(songs: seq<Song>, ids: seq<int>): (r: seq<Song>)
    ensures |r| <= |songs|
    ensures forall s :: s in r ==> s in songs && s.id in ids
    ensures forall s :: s in songs && s.id in ids ==> s in r
  {
    if songs == [] then []
    else if songs[0].id in ids then [songs[0]] + SelectSongs(songs[1..], ids)
    else SelectSongs(songs[1..], ids)
  }

  /** Filtering distributes over concatenation, so the playlist order is kept. */
  lemma {:induction false} SelectAppend(a: seq<Song>, b: seq<Song>, ids: seq<int>)
    ensures SelectSongs(a + b, ids) == SelectSongs(a, ids) + SelectSongs(b, ids)
    decreases |a|
  {
    if a == [] {
      assert a + b == b;
    } else {
      assert (a + b)[1..] == a[1..] + b;
      SelectAppend(a[1..], b, ids);
    }
  }

  function NoSongsMessage(playlistId: string): string {
    "无法获取歌单 " + playlistId + " 的歌曲"
  }

  const NothingSelectedMessage: string := "未找到选中的歌曲，请检查歌曲ID是否正确"

  /**
   `download_playlist_songs`: an empty listing is an error; otherwise every
   song is handled. With a task id each song's report precedes its download
   as written, so a download of the last song starts after the 100% report;
   corrected (`fixed`) no download follows that report.
   */
  function DownloadPlaylistSongs(playlistId: string, songs: seq<Song>, db: Db, env: Env, tracked: bool, fixed: bool): (r: BatchOutcome)
    ensures songs == [] <==> r.Unavailable?
    ensures r.Unavailable? ==> r.error == NoSongsMessage(playlistId)
    ensures r.Done? ==> r.total == |songs| && |r.batch.results| == |songs|
    ensures r.Done? ==> r.batch.succeeded + r.batch.failed + r.batch.skipped + Count(r.batch.results, Cancelled) == |songs|
    ensures r.Done? ==> ReportsUpTo(Reports(r.batch.events), r.total, r.total, tracked)
    ensures r.Done? && tracked ==> Reports(r.batch.events)[|songs| - 1] == Progress(100.0, |songs|, |songs|)
    ensures r.Done? && fixed ==> NoFetchAfterFull(r.batch.events)
    ensures r.Done? && tracked && !fixed ==> (!NoFetchAfterFull(r.batch.events) <==> Fetching(|songs| - 1) in r.batch.events)
    ensures LastIsNew(songs, db) ==> r.Done? && Fetching(|songs| - 1) in r.batch.events
  {
    if songs == [] then Unavailable(NoSongsMessage(playlistId))
    else
      var b := Run(songs, |songs|, db, env, tracked, fixed);
      CountsPartition(b.results);
      RunReports(songs, |songs|, db, env, tracked, fixed);
      BatchOrder(songs, db, env, tracked, fixed);
      if LastIsNew(songs, db) then LastSongDownloaded(songs, db, env, tracked, fixed); Done(|songs|, b)
      else Done(|songs|, b)
  }

  /** The order facts of a whole loop over a non-empty list, as written or corrected. */
  lemma BatchOrder(songs: seq<Song>, db: Db, env: Env, tracked: bool, fixed: bool)
    requires songs != []
    ensures var e := Run(songs, |songs|, db, env, tracked, fixed).events;
            && (fixed ==> NoFetchAfterFull(e))
            && (tracked && !fixed ==> (!NoFetchAfterFull(e) <==> Fetching(|songs| - 1) in e))
  {
    if fixed {
      FixedRunOrder(songs, db, env, tracked);
    } else if tracked {
      AsWrittenRunOrder(songs, db, env);
    }
  }

  /**
   `download_selected_songs`: an empty listing or an empty selection is an
   error; otherwise the loop runs over the selected songs only, with the
   same order of reports and downloads.
   */
  function DownloadSelectedSongs(playlistId: string, songs: seq<Song>, ids: seq<int>, db: Db, env: Env, tracked: bool, fixed: bool)
    : (r: BatchOutcome)
    ensures songs == [] ==> r == Unavailable(NoSongsMessage(playlistId))
    ensures songs != [] && SelectSongs(songs, ids) == [] ==> r == Unavailable(NothingSelectedMessage)
    ensures r.Done? ==> r.total == |SelectSongs(songs, ids)| > 0
    ensures r.Done? ==> |r.batch.results| == r.total && forall i :: 0 <= i < r.total ==> r.batch.results[i].songId in ids
    ensures r.Done? ==> r.batch.succeeded + r.batch.failed + r.batch.skipped + Count(r.batch.results, Cancelled) == r.total
    ensures r.Done? ==> ReportsUpTo(Reports(r.batch.events), r.total, r.total, tracked)
    ensures r.Done? && fixed ==> NoFetchAfterFull(r.batch.events)
    ensures r.Done? && tracked && !fixed ==> (!NoFetchAfterFull(r.batch.events) <==> Fetching(r.total - 1) in r.batch.events)
  {
    if songs == [] then Unavailable(NoSongsMessage(playlistId))
    else
      var sel := SelectSongs(songs, ids);
      if sel == [] then Unavailable(NothingSelectedMessage)
      else
        var b := Run(sel, |sel|, db, env, tracked, fixed);
        CountsPartition(b.results);
        RunReports(sel, |sel|, db, env, tracked, fixed);
        SelectedResults(songs, ids, b, env, tracked);
        BatchOrder(sel, db, env, tracked, fixed);
        Done(|sel|, b)
  }

  /** Every result of a loop over the selection belongs to a selected id. */
  lemma SelectedResults(songs: seq<Song>, ids: seq<int>, b: Batch, env: Env, tracked: bool)
    requires AllExplained(b, SelectSongs(songs, ids), |SelectSongs(songs, ids)|, env, tracked)
    ensures forall i :: 0 <= i < |SelectSongs(songs, ids)| ==> b.results[i].songId in ids
  {
    var sel := SelectSongs(songs, ids);
    forall i | 0 <= i < |sel|
      ensures b.results[i].songId in ids
    {
      assert sel[i] in sel;
    }
  }
}
