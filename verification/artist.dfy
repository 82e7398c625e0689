/**
 The artist downloader: the directory name made from an artist name, the
 match-mode filter applied to search results, the paged search, the result
 of downloading one song, and the batch loop over the songs found.
 */
module ArtistDownloader {
  import opened Common
  import opened Downloads

  // ---------------------------------------------------------------------------
  // Directory names

  const UnknownArtistDir: string := "unknown_artist"

  predicate IsSpaceOrDot(c: char) {
    c == ' ' || c == '.'
  }

  /**
   `_sanitize_artist_name`: reserved characters become `_`, spaces and dots
   are stripped from both ends, and an empty result becomes the default.
   */
  function SanitizeArtistName(name: string): (r: string)
    ensures |r| > 0
    ensures forall i :: 0 <= i < |r| ==> !IsReservedChar(r[i])
    ensures !IsSpaceOrDot(r[0]) && !IsSpaceOrDot(r[|r| - 1])
    ensures r == UnknownArtistDir || forall c :: c in r ==> c in name || c == '_'
  {
    var t := ReplaceChars(name, IsReservedChar, '_');
    var s := Strip(t, IsSpaceOrDot);
    StrippedFacts(name, t, s);
    DefaultDirClean();
    if s == "" then UnknownArtistDir else s
  }

  lemma DefaultDirClean()
    ensures forall i :: 0 <= i < |UnknownArtistDir| ==> !IsReservedChar(UnknownArtistDir[i])
    ensures !IsSpaceOrDot(UnknownArtistDir[0]) && !IsSpaceOrDot(UnknownArtistDir[|UnknownArtistDir| - 1])
  {
    forall i | 0 <= i < |UnknownArtistDir|
      ensures !IsReservedChar(UnknownArtistDir[i])
    {
      assert 'a' <= UnknownArtistDir[i] <= 'z' || UnknownArtistDir[i] == '_';
    }
  }

  /** What stripping leaves of the replaced name: none of the reserved characters, nothing new. */
  lemma StrippedFacts(name: string, t: string, s: string)
    requires t == ReplaceChars(name, IsReservedChar, '_')
    requires s == Strip(t, IsSpaceOrDot)
    ensures forall i :: 0 <= i < |s| ==> !IsReservedChar(s[i])
    ensures forall c :: c in s ==> c in name || c == '_'
  {
    ReplacedFacts(name, t);
    StripMembers(t, IsSpaceOrDot);
    forall i | 0 <= i < |s|
      ensures s[i] in t
    {
    }
  }

  /** Replacing the reserved characters leaves none of them and nothing new but `_`. */
  lemma ReplacedFacts(name: string, t: string)
    requires t == ReplaceChars(name, IsReservedChar, '_')
    ensures forall c :: c in t ==> !IsReservedChar(c) && (c in name || c == '_')
  {
    forall c | c in t
      ensures !IsReservedChar(c) && (c in name || c == '_')
    {
      var i :| 0 <= i < |t| && t[i] == c;
      if !IsReservedChar(name[i]) {
        assert name[i] in name;
      }
    }
  }


  /** Sanitising a sanitised name changes nothing. */
  lemma SanitizeArtistIdempotent(name: string)
    ensures SanitizeArtistName(SanitizeArtistName(name)) == SanitizeArtistName(name)
  {
    var r := SanitizeArtistName(name);
    var t := ReplaceChars(r, IsReservedChar, '_');
    assert t == r;
    StripNoop(r, IsSpaceOrDot);
  }

  /** A name with no reserved character and no space or dot at either end is its own directory name. */
  lemma SanitizeKeepsCleanArtist(name: string)
    requires |name| > 0
    requires forall i :: 0 <= i < |name| ==> !IsReservedChar(name[i])
    requires !IsSpaceOrDot(name[0]) && !IsSpaceOrDot(name[|name| - 1])
    ensures SanitizeArtistName(name) == name
  {
    assert ReplaceChars(name, IsReservedChar, '_') == name;
    StripNoop(name, IsSpaceOrDot);
  }

  /** `r` is `name[k..k + |r|]` with every reserved character written as `_`. */
  ghost predicate ReplacedInfix(name: string, k: int, r: string) {
    && 0 <= k && k + |r| <= |name|
    && forall i :: 0 <= i < |r| ==> r[i] == if IsReservedChar(name[k + i]) then '_' else name[k + i]
  }

  /**
   Which name comes back: `unknown_artist` when every character is a space
   or a dot; otherwise the name with reserved characters as `_`, less
   the spaces and dots at either end and nothing else.
   */
  lemma SanitizeArtistChoice(name: string)
    ensures (forall i :: 0 <= i < |name| ==> IsSpaceOrDot(name[i])) ==> SanitizeArtistName(name) == UnknownArtistDir
    ensures (exists i :: 0 <= i < |name| && !IsSpaceOrDot(name[i])) ==>
              exists k :: ReplacedInfix(name, k, SanitizeArtistName(name))
                       && DroppedOutside(name, IsSpaceOrDot, k, |SanitizeArtistName(name)|)
  {
    var t := ReplaceChars(name, IsReservedChar, '_');
    var s := Strip(t, IsSpaceOrDot);
    assert SanitizeArtistName(name) == if s == [] then UnknownArtistDir else s;
    ReplacedKeepsSpaceOrDot(name, t);
    StripEmptyIff(t, IsSpaceOrDot);
    if s != [] {
      StrippedInfix(name, t, s);
    }
  }

  /** Replacing reserved characters changes no space or dot and makes none. */
  lemma ReplacedKeepsSpaceOrDot(name: string, t: string)
    requires t == ReplaceChars(name, IsReservedChar, '_')
    ensures |t| == |name| && forall i :: 0 <= i < |t| ==> (IsSpaceOrDot(t[i]) <==> IsSpaceOrDot(name[i]))
  {
  }

  /** The stripped replaced name is an infix of it, bordered only by spaces and dots. */
  lemma StrippedInfix(name: string, t: string, s: string)
    requires t == ReplaceChars(name, IsReservedChar, '_') && s == Strip(t, IsSpaceOrDot)
    ensures exists k :: ReplacedInfix(name, k, s) && DroppedOutside(name, IsSpaceOrDot, k, |s|)
  {
    var k := |t| - |TrimLeft(t, IsSpaceOrDot)|;
    StripRemovesOnly(t, IsSpaceOrDot);
    StripOccurs(t, IsSpaceOrDot);
    InfixOfReplaced(name, t, k, s);
  }

  /** An infix of the replaced name, bordered by spaces and dots, is bordered the same way in the name itself. */
  lemma InfixOfReplaced(name: string, t: string, k: int, s: string)
    requires t == ReplaceChars(name, IsReservedChar, '_')
    requires 0 <= k && k + |s| <= |t| && s == t[k..k + |s|]
    requires DroppedOutside(t, IsSpaceOrDot, k, |s|)
    ensures ReplacedInfix(name, k, s) && DroppedOutside(name, IsSpaceOrDot, k, |s|)
  {
    assert forall i :: 0 <= i < |s| ==> s[i] == t[k + i];
    assert forall i :: 0 <= i < |t| ==> (IsSpaceOrDot(t[i]) <==> IsSpaceOrDot(name[i]));
  }

  // ---------------------------------------------------------------------------
  // Match modes

  /** The `match_mode` setting; any text other than the three named modes selects `exact_single`. */
  datatype MatchMode = All | Partial | ExactMulti | ExactSingle

  function ModeOf(setting: string): (mode: MatchMode)
    ensures mode == All <==> setting == "all"
    ensures mode == Partial <==> setting == "partial"
    ensures mode == ExactMulti <==> setting == "exact_multi"
  {
    if setting == "all" then All
    else if setting == "partial" then Partial
    else if setting == "exact_multi" then ExactMulti
    else ExactSingle
  }

  /** One credited artist of a `/`-separated artist list names the searched artist. */
  predicate CreditsArtist(artists: string, name: string) {
    var parts := Split(artists, "/");
    exists i :: 0 <= i < |parts| && Lower(Strip(parts[i], IsSpace)) == Lower(name)
  }

  /** Whether the filter of `search_artist_songs` keeps a song with this artist text. */
  predicate Keeps(mode: MatchMode, name: string, artists: string) {
    match mode
    case All => true
    case Partial => Contains(Lower(artists), Lower(name))
    case ExactMulti => CreditsArtist(artists, name)
    case ExactSingle => Lower(artists) == Lower(name) && !Contains(artists, "/")
  }

  /** A song kept in `exact_multi` mode is also kept in `partial` mode. */
  lemma ExactMultiWithinPartial(name: string, artists: string)
    requires Keeps(ExactMulti, name, artists)
    ensures Keeps(Partial, name, artists)
  {
    var parts := Split(artists, "/");
    var i :| 0 <= i < |parts| && Lower(Strip(parts[i], IsSpace)) == Lower(name);
    SplitPartsOccur(artists, "/", i);
    var k :| OccursAt(artists, parts[i], k);
    CreditInside(artists, parts[i], name, k);
  }

  /** A credited artist inside the artist text makes the searched name a substring of it. */
  lemma CreditInside(artists: string, p: string, name: string, k: int)
    requires OccursAt(artists, p, k)
    requires Lower(Strip(p, IsSpace)) == Lower(name)
    ensures Contains(Lower(artists), Lower(name))
  {
    StripOccurs(p, IsSpace);
    NestedIgnoringCase(artists, p, Strip(p, IsSpace), name, k, |p| - |TrimLeft(p, IsSpace)|);
  }

  /** A song kept in `exact_single` mode is also kept in `partial` mode. */
  lemma ExactSingleWithinPartial(name: string, artists: string)
    requires Keeps(ExactSingle, name, artists)
    ensures Keeps(Partial, name, artists)
  {
    assert OccursAt(artists, artists, 0);
    ContainsIgnoringCase(artists, artists, name, 0);
  }

  /** The songs of one search page that the mode keeps. */
  function FilterPage(page: seq<Song>, mode: MatchMode, name: string): (r: seq<Song>)
    ensures |r| <= |page|
    ensures forall s :: s in r ==> s in page && Keeps(mode, name, s.artists)
    ensures forall s :: s in page && Keeps(mode, name, s.artists) ==> s in r
    ensures mode == All ==> r == page
  {
    if page == [] then []
    else
      var rest := FilterPage(page[1..], mode, name);
      assert page == [page[0]] + page[1..];
      if Keeps(mode, name, page[0].artists) then [page[0]] + rest else rest
  }

  /** The filter only deletes songs: the kept ones stay in page order. */
  lemma {:induction false} FilterPageInOrder(page: seq<Song>, mode: MatchMode, name: string)
    ensures IsSubsequence(FilterPage(page, mode, name), page)
    decreases |page|
  {
    if page != [] {
      FilterPageInOrder(page[1..], mode, name);
      var rest := FilterPage(page[1..], mode, name);
      if Keeps(mode, name, page[0].artists) {
        assert ([page[0]] + rest)[1..] == rest;
      } else {
        SubsequenceCons(rest, page[0], page[1..]);
        assert [page[0]] + page[1..] == page;
      }
    }
  }

  // ---------------------------------------------------------------------------
  // Paged search

  /**
   The answer to one search request: a page of songs, or an exception. The
   sequence of answers is finite; a request past its end gets an empty page.
   */
  datatype Page = Page(songs: seq<Song>) | PageRaised(message: string)

  const SearchPageSize: nat := 100

  /** The songs of the answers from position `k` on, raised answers contributing nothing. */
  function Listed(pages: seq<Page>, k: nat): seq<Song>
    decreases |pages| - k
  {
    if k >= |pages| then []
    else (if pages[k].Page? then pages[k].songs else []) + Listed(pages, k + 1)
  }

  /**
   The request loop of `search_artist_songs` from request `k` on: stop at an
   empty page, keep the filtered songs of each page, stop after a short page,
   and give up entirely (`None`) when a request raises.
   */
  function Collect(pages: seq<Page>, k: nat, mode: MatchMode, name: string): (r: Option<seq<Song>>)
    ensures r.Some? ==> IsSubsequence(r.value, Listed(pages, k))
    ensures r.Some? ==> forall s :: s in r.value ==> Keeps(mode, name, s.artists)
    ensures r.None? ==> exists j :: k <= j < |pages| && pages[j].PageRaised?
    decreases |pages| - k
  {
    if k >= |pages| then Some([])
    else match pages[k]
      case PageRaised(_) => None
      case Page(ss) =>
        if ss == [] then
          Some([])
        else
          var kept := FilterPage(ss, mode, name);
          FilterPageInOrder(ss, mode, name);
          if |ss| < SearchPageSize then
            SubsequenceConcat(kept, ss, [], Listed(pages, k + 1));
            assert kept + [] == kept;
            Some(kept)
          else
            match Collect(pages, k + 1, mode, name)
            case None => None
            case Some(rest) =>
              SubsequenceConcat(kept, ss, rest, Listed(pages, k + 1));
              Some(kept + rest)
  }

  /** `search_artist_songs`: the collected songs, or nothing at all when a request raised. */
  function SearchArtistSongs(pages: seq<Page>, mode: MatchMode, name: string): (r: seq<Song>)
    ensures IsSubsequence(r, Listed(pages, 0))
    ensures forall s :: s in r ==> Keeps(mode, name, s.artists)
    ensures Collect(pages, 0, mode, name).None? ==> r == []
  {
    match Collect(pages, 0, mode, name)
    case None => []
    case Some(r) => r
  }

  /** With full pages followed by a short one, the search returns every filtered page in order. */
  lemma {:induction false} SearchConcatenatesPages(pages: seq<Page>, k: nat, mode: MatchMode, name: string)
    requires k < |pages|
    requires forall j :: k <= j < |pages| ==> pages[j].Page? && pages[j].songs != []
    requires forall j :: k <= j < |pages| - 1 ==> |pages[j].songs| == SearchPageSize
    requires |pages[|pages| - 1].songs| < SearchPageSize
    ensures Collect(pages, k, mode, name) == Some(FilterPage(Listed(pages, k), mode, name))
    decreases |pages| - k
  {
    var ss := pages[k].songs;
    if k == |pages| - 1 {
      assert Listed(pages, k) == ss + [];
      assert ss + [] == ss;
    } else {
      SearchConcatenatesPages(pages, k + 1, mode, name);
      FilterAppend(ss, Listed(pages, k + 1), mode, name);
    }
  }

  /** Filtering distributes over concatenation. */
  lemma {:induction false} FilterAppend(a: seq<Song>, b: seq<Song>, mode: MatchMode, name: string)
    ensures FilterPage(a + b, mode, name) == FilterPage(a, mode, name) + FilterPage(b, mode, name)
    decreases |a|
  {
    if a == [] {
      assert a + b == b;
    } else {
      assert (a + b)[1..] == a[1..] + b;
      FilterAppend(a[1..], b, mode, name);
    }
  }

  // ---------------------------------------------------------------------------
  // One song

  /**
   What Python reports when the `cancelled` result is built without its
   required `album` argument.
   */
  const MissingAlbumMessage: string := "SongDownloadResult.__init__() missing 1 required positional argument: 'album'"

  /**
   The artist downloader's `download_song` as written: with a task id and a
   Cancelled task, building the `cancelled` result raises, and the handler
   turns the song into a failure carrying the exception text. Otherwise it
   behaves like the playlist downloader's `download_song`.
   */
  function DownloadSong(song: Song, tracked: bool, cancelledNow: bool, fetch: Fetch, includeLyric: bool): (r: SongResult)
    ensures r.songId == song.id && r.name == song.name && r.artists == song.artists && r.album == song.album
    ensures tracked && cancelledNow ==> r.status == Failed && r.errorMessage == MissingAlbumMessage
    ensures r.status != Cancelled && r.status != Skipped
    ensures !(tracked && cancelledNow) ==> r == Downloads.DownloadSong(song, tracked, cancelledNow, fetch, includeLyric)
  {
    if tracked && cancelledNow then
      SongResult(song.id, song.name, song.artists, song.album, Failed, None, 0, MissingAlbumMessage, "")
    else FetchedResult(song, fetch, includeLyric)
  }

  /**
   A song stopped by a cancellation comes back `failed` instead of
   `cancelled`, and so is counted as a failure; with the `album` argument
   supplied it would be `cancelled`.
   */
  lemma CancelledSongComesBackFailed(song: Song, fetch: Fetch, includeLyric: bool)
    ensures DownloadSong(song, true, true, fetch, includeLyric).status == Failed
    ensures Downloads.DownloadSong(song, true, true, fetch, includeLyric).status == Cancelled
  {
  }

  // ---------------------------------------------------------------------------
  // The batch

  function NotFoundMessage(name: string): string {
    "未找到歌手 '" + name + "' 的歌曲"
  }

  /** Any stored path counts: the artist downloader trusts a `success` row wherever the file is. */
  predicate AnyPath(path: string) {
    true
  }

  /**
   `download_artist_songs`: nothing found is an error; otherwise every song is
   skipped on a `success` row of the database or downloaded without a task
   id, so no song is ever cancelled and no progress is reported.
   */
  function DownloadArtistSongs(name: string, found: seq<Song>, db: Db, env: Env): (r: BatchOutcome)
    ensures found == [] <==> r.Unavailable?
    ensures r.Unavailable? ==> r.error == NotFoundMessage(name)
    ensures r.Done? ==> r.total == |found| == |r.batch.results| && Reports(r.batch.events) == []
    ensures r.Done? ==> r.batch.succeeded + r.batch.failed + r.batch.skipped == |found|
    ensures r.Done? ==> forall i :: 0 <= i < |found| ==>
              r.batch.results[i].songId == found[i].id && r.batch.results[i].status != Cancelled
  {
    if found == [] then Unavailable(NotFoundMessage(name))
    else
      var e := env.(inTarget := AnyPath);
      var b := Run(found, |found|, db, e, false, false);
      RunReports(found, |found|, db, e, false, false);
      assert forall i :: 0 <= i < |found| ==> Explained(b.results[i], found, i, e, false, b.db);
      CountsPartition(b.results);
      assert Count(b.results, Cancelled) == 0 by {
        NoneCancelled(b.results);
      }
      Done(|found|, b)
  }

  lemma {:induction false} NoneCancelled(rs: seq<SongResult>)
    requires forall i :: 0 <= i < |rs| ==> rs[i].status != Cancelled
    ensures Count(rs, Cancelled) == 0
  {
    if rs != [] {
      NoneCancelled(rs[..|rs| - 1]);
    }
  }
}
