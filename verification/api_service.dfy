/**
 The request-side helpers of the HTTP service in `main.py`: the response
 dictionaries of `APIResponse`, parameter validation, music id extraction,
 quality display names, the post-processing of hot playlists, and the
 directory name of a song's primary artist.
 */
module ApiService {
  import opened Common
  import ArtistDownloader

  // ---------------------------------------------------------------------------
  // Responses

  /** A JSON value as the service builds it. */
  datatype Json = JNull | JBool(b: bool) | JInt(i: int) | JStr(s: string) | JList(items: seq<Json>) | JObject(fields: map<string, Json>)

  /** Python truthiness of a JSON value. */
  predicate Truthy(v: Json) {
    match v
    case JNull => false
    case JBool(b) => b
    case JInt(i) => i != 0
    case JStr(s) => s != ""
    case JList(items) => items != []
    case JObject(fields) => fields != map[]
  }

  type Response = map<string, Json>

  const StatusKey: string := "status"
  const SuccessKey: string := "success"
  const MessageKey: string := "message"
  const DataKey: string := "data"
  const ErrorCodeKey: string := "error_code"

  /**
   `APIResponse.success`: status, success and message, then `data` unless it
   is `None`, then the extra fields, which win over any of those keys. The
   status code is also returned beside the dictionary.
   */
  function Success(data: Json, message: string, statusCode: int, extra: map<string, Json>): (r: (Response, int))
    ensures r.1 == statusCode
    ensures r.0.Keys == {StatusKey, SuccessKey, MessageKey} + (if data != JNull then {DataKey} else {}) + extra.Keys
    ensures forall k :: k in extra ==> r.0[k] == extra[k]
    ensures StatusKey !in extra ==> r.0[StatusKey] == JInt(statusCode)
    ensures SuccessKey !in extra ==> r.0[SuccessKey] == JBool(true)
    ensures MessageKey !in extra ==> r.0[MessageKey] == JStr(message)
    ensures DataKey !in extra ==> (DataKey in r.0 <==> data != JNull) && (data != JNull ==> r.0[DataKey] == data)
  {
    var base := map[StatusKey := JInt(statusCode), SuccessKey := JBool(true), MessageKey := JStr(message)];
    var withData := if data != JNull then base[DataKey := data] else base;
    (withData + extra, statusCode)
  }

  /** `APIResponse.error`: status, `success` false and message, plus `error_code` when it is a nonempty text. */
  function Error(message: string, statusCode: int, errorCode: Option<string>): (r: (Response, int))
    ensures r.1 == statusCode
    ensures r.0.Keys == {StatusKey, SuccessKey, MessageKey} + (if errorCode.Some? && errorCode.value != "" then {ErrorCodeKey} else {})
    ensures r.0[StatusKey] == JInt(statusCode) && r.0[SuccessKey] == JBool(false) && r.0[MessageKey] == JStr(message)
    ensures ErrorCodeKey in r.0 ==> r.0[ErrorCodeKey] == JStr(errorCode.value)
  {
    var base := map[StatusKey := JInt(statusCode), SuccessKey := JBool(false), MessageKey := JStr(message)];
    if errorCode.Some? && errorCode.value != "" then (base[ErrorCodeKey := JStr(errorCode.value)], statusCode)
    else (base, statusCode)
  }

  /**
   A client reading `success` tells the two kinds apart, unless the extra
   fields of a success response overwrite `success` themselves.
   */
  lemma SuccessAndErrorDiffer(data: Json, message: string, statusCode: int, extra: map<string, Json>,
                              message': string, statusCode': int, errorCode: Option<string>)
    requires SuccessKey !in extra
    ensures Success(data, message, statusCode, extra).0 != Error(message', statusCode', errorCode).0
  {
    assert Success(data, message, statusCode, extra).0[SuccessKey] == JBool(true);
  }

  // ---------------------------------------------------------------------------
  // Parameter validation

  function EmptyParamMessage(name: string): string {
    "参数 '" + name + "' 不能为空"
  }

  /** `params[i]` is the first parameter, in the order given, whose value is falsy. */
  predicate FirstFalsyAt(params: seq<(string, Json)>, i: int) {
    && 0 <= i < |params| && !Truthy(params[i].1)
    && forall j :: 0 <= j < i ==> Truthy(params[j].1)
  }

  /**
   `_validate_request_params`: nothing when every value is truthy, otherwise
   a 400 error that names the first parameter with a falsy value.
   */
  function ValidateRequestParams(params: seq<(string, Json)>): (r: Option<(Response, int)>)
    ensures r.None? <==> forall i :: 0 <= i < |params| ==> Truthy(params[i].1)
    ensures r.Some? ==> exists i :: FirstFalsyAt(params, i) && r.value == Error(EmptyParamMessage(params[i].0), 400, None)
    decreases |params|
  {
    if params == [] then None
    else if !Truthy(params[0].1) then
      assert FirstFalsyAt(params, 0);
      Some(Error(EmptyParamMessage(params[0].0), 400, None))
    else
      var r := ValidateRequestParams(params[1..]);
      FirstFalsyShifts(params);
      r
  }

  /** Behind a truthy first value, the first falsy one of the rest is the first falsy one overall. */
  lemma FirstFalsyShifts(params: seq<(string, Json)>)
    requires params != [] && Truthy(params[0].1)
    ensures forall i :: FirstFalsyAt(params[1..], i) ==> FirstFalsyAt(params, i + 1)
    ensures forall i :: 0 <= i < |params| - 1 ==> params[1..][i] == params[i + 1]
  {
    forall i | FirstFalsyAt(params[1..], i)
      ensures FirstFalsyAt(params, i + 1)
    {
      forall j | 0 <= j < i + 1
        ensures Truthy(params[j].1)
      {
        if j > 0 {
          assert params[j] == params[1..][j - 1];
        }
      }
    }
  }

  /** The error names exactly one parameter: the first with a falsy value. */
  lemma ValidationNamesFirstEmpty(params: seq<(string, Json)>, i: nat)
    requires FirstFalsyAt(params, i)
    ensures ValidateRequestParams(params) == Some(Error(EmptyParamMessage(params[i].0), 400, None))
  {
    var r := ValidateRequestParams(params);
    var k :| FirstFalsyAt(params, k) && r.value == Error(EmptyParamMessage(params[k].0), 400, None);
    assert k == i;
  }

  // ---------------------------------------------------------------------------
  // Music ids

  const ShortLinkHost: string := "163cn.tv"
  const LinkHost: string := "music.163.com"
  const IdMarker: string := "id="

  /** What following a short link gave: its `Location` header, no such header, or a failed request. */
  datatype Redirect = Location(url: string) | NoLocation | RequestFailed

  /**
   The link part of `_extract_music_id`: a `music.163.com` link with an
   `id=` gives the text after the first `id=` up to the first `&`; anything
   else is kept.
   */
  function IdFromLink(s: string): (r: string)
    ensures !Contains(s, LinkHost) || !Contains(s, IdMarker) ==> r == s
    ensures Contains(s, LinkHost) && Contains(s, IdMarker) ==>
              var t := s[Find(s, IdMarker) + 3..];
              && r <= t && !Contains(r, "&")
              && (|r| < |t| ==> t[|r|] == '&')
  {
    if Contains(s, LinkHost) then
      var i := Find(s, IdMarker) + 3;
      if i > 2 then
        var t := s[i..];
        SplitHead(t, "&");
        Split(t, "&")[0]
      else s
    else s
  }

  /**
   `_extract_music_id` without the network: the input is stripped; a short
   link is replaced by where it redirects (kept when there is no `Location`
   header); a failed request gives the stripped input back; the result then
   goes through `IdFromLink`.
   */
  function ExtractMusicId(input: string, follow: string -> Redirect): (r: string)
    ensures var s := Strip(input, IsSpace);
            !Contains(s, ShortLinkHost) ==> r == IdFromLink(s)
    ensures var s := Strip(input, IsSpace);
            !Contains(s, ShortLinkHost) && !Contains(s, LinkHost) ==> r == s
    ensures var s := Strip(input, IsSpace);
            Contains(s, ShortLinkHost) && follow(s).RequestFailed? ==> r == s
  {
    var s := Strip(input, IsSpace);
    if Contains(s, ShortLinkHost) then
      match follow(s)
      case RequestFailed => s
      case NoLocation => IdFromLink(s)
      case Location(url) => IdFromLink(url)
    else IdFromLink(s)
  }

  /** A plain numeric id comes back unchanged. */
  lemma PlainIdUnchanged(d: string, follow: string -> Redirect)
    requires IsDigits(d)
    ensures ExtractMusicId(d, follow) == d
  {
    StripNoop(d, IsSpace);
    NotInDigits(d, ShortLinkHost, 3);
    NotInDigits(d, LinkHost, 5);
  }

  /** A text of digits holds no pattern that has a non-digit in it. */
  lemma NotInDigits(d: string, pat: string, k: nat)
    requires IsDigits(d) && k < |pat| && !IsAsciiDigit(pat[k])
    ensures !Contains(d, pat)
  {
  }

  /**
   A song link `<prefix>id=<digits>` followed by nothing or by `&…` yields
   exactly its digits, when the prefix names `music.163.com`, holds no `=`,
   and the link is not a short link.
   */
  lemma ExtractFromSongLink(pre: string, d: string, rest: string, follow: string -> Redirect)
    requires |pre| > 0 && !IsSpace(pre[0]) && '=' !in pre && Contains(pre, LinkHost)
    requires IsDigits(d) && (rest == [] || (rest[0] == '&' && !IsSpace(rest[|rest| - 1])))
    requires !Contains(pre + IdMarker + d + rest, ShortLinkHost)
    ensures ExtractMusicId(pre + IdMarker + d + rest, follow) == d
  {
    var t := d + rest;
    var s := pre + IdMarker + t;
    assert pre + IdMarker + d + rest == s;
    SongLinkUnstripped(pre, d, rest);
    LinkCutAfterId(pre, t);
    UnshortenedLink(s, follow);
    AmpCutOfDigits(d, rest, IdFromLink(s));
  }

  /** A link that needs no stripping and is no short link goes straight to `IdFromLink`. */
  lemma UnshortenedLink(s: string, follow: string -> Redirect)
    requires Strip(s, IsSpace) == s && !Contains(s, ShortLinkHost)
    ensures ExtractMusicId(s, follow) == IdFromLink(s)
  {
  }

  /** In `<prefix>id=<tail>`, the link part cuts `tail` at its first `&`. */
  lemma LinkCutAfterId(pre: string, tail: string)
    requires '=' !in pre && Contains(pre, LinkHost)
    ensures var r := IdFromLink(pre + IdMarker + tail);
            r <= tail && !Contains(r, "&") && (|r| < |tail| ==> tail[|r|] == '&')
  {
    var s := pre + IdMarker + tail;
    SongLinkFirstId(pre, tail);
    assert s[|pre| + 3..] == tail;
  }

  /** The link's ends are no spaces, so stripping keeps it. */
  lemma SongLinkUnstripped(pre: string, d: string, rest: string)
    requires |pre| > 0 && !IsSpace(pre[0])
    requires IsDigits(d) && (rest == [] || !IsSpace(rest[|rest| - 1]))
    ensures Strip(pre + IdMarker + d + rest, IsSpace) == pre + IdMarker + d + rest
  {
    var s := pre + IdMarker + d + rest;
    assert s[0] == pre[0];
    assert s[|s| - 1] == if rest == [] then d[|d| - 1] else rest[|rest| - 1];
    assert IsAsciiDigit(d[|d| - 1]);
    StripNoop(s, IsSpace);
  }

  /** In `<prefix>id=<tail>` with no `=` in the prefix, the host is found and the first `id=` ends the prefix. */
  lemma SongLinkFirstId(pre: string, tail: string)
    requires '=' !in pre && Contains(pre, LinkHost)
    ensures Contains(pre + IdMarker + tail, LinkHost)
    ensures Find(pre + IdMarker + tail, IdMarker) == |pre|
  {
    var s := pre + IdMarker + tail;
    var n := |pre|;
    assert s[..n] == pre;
    OccursInPrefix(s, LinkHost, n, Find(pre, LinkHost));
    assert s[n..n + 3] == IdMarker;
    assert OccursAt(s, IdMarker, n);
    forall j | 0 <= j < n
      ensures !OccursAt(s, IdMarker, j)
    {
      if j + 3 <= |s| {
        assert s[j..j + 3][2] == s[j + 2];
        if j + 2 < n {
          assert s[j + 2] == pre[j + 2];
        }
      }
    }
  }

  /** The longest `&`-free prefix of `<digits><rest>`, with `rest` empty or starting at `&`, is the digits. */
  lemma AmpCutOfDigits(d: string, rest: string, r: string)
    requires IsDigits(d) && (rest == [] || rest[0] == '&')
    requires r <= d + rest && !Contains(r, "&")
    requires |r| < |d + rest| ==> (d + rest)[|r|] == '&'
    ensures r == d
  {
    var t := d + rest;
    if |r| < |d| {
    } else if |d| < |r| {
      assert r[|d|] == t[|d|] == rest[0];
      assert r[|d|..|d| + 1] == "&";
      ContainsIntro(r, "&", |d|);
    } else {
      assert r == t[..|d|] == d;
    }
  }

  // ---------------------------------------------------------------------------
  // Quality names

  /** `_get_quality_display_name`'s table. */
  const QualityNames: map<string, string> := map[
    "standard" := "标准音质",
    "exhigh" := "极高音质",
    "lossless" := "无损音质",
    "hires" := "Hi-Res音质",
    "sky" := "沉浸环绕声",
    "jyeffect" := "高清环绕声",
    "jymaster" := "超清母带",
    "dolby" := "杜比全景声"]

  function UnknownQualityName(quality: string): (r: string)
    ensures |r| == |quality| + 6 && r[..5] == "未知音质(" && r[5..|r| - 1] == quality && r[|r| - 1] == ')'
  {
    "未知音质(" + quality + ")"
  }

  /** `_get_quality_display_name`: the table's name for the eight known levels, `未知音质(<q>)` otherwise. */
  function QualityDisplayName(quality: string): (r: string)
    ensures quality in QualityNames ==> r == QualityNames[quality]
    ensures quality !in QualityNames ==> r == UnknownQualityName(quality)
  {
    if quality in QualityNames then QualityNames[quality] else UnknownQualityName(quality)
  }

  /** No two quality settings share a display name, so the name identifies the setting. */
  lemma QualityDisplayNameInjective(a: string, b: string)
    requires QualityDisplayName(a) == QualityDisplayName(b)
    ensures a == b
  {
    var n := QualityDisplayName(a);
    if a in QualityNames && b in QualityNames {
      KnownNamesDistinct(a, b);
    } else if a !in QualityNames && b !in QualityNames {
      assert a == n[5..|n| - 1] == b;
    } else {
      KnownNamesNotUnknown(if a in QualityNames then a else b);
    }
  }

  lemma KnownNamesDistinct(a: string, b: string)
    requires a in QualityNames && b in QualityNames && QualityNames[a] == QualityNames[b]
    ensures a == b
  {
  }

  /** A known level's name never starts with `未`, while every unknown one does. */
  lemma KnownNamesNotUnknown(q: string)
    requires q in QualityNames
    ensures |QualityNames[q]| > 0 && QualityNames[q][0] != '未'
  {
  }

  // ---------------------------------------------------------------------------
  // Hot playlists

  /** One playlist of a hot list: its `id` and `playCount`, either possibly missing. */
  datatype HotPlaylist = HotPlaylist(id: Option<int>, playCount: Option<int>, name: string)

  /** `x.get('playCount', 0)`. */
  function PlayCount(p: HotPlaylist): int {
    p.playCount.GetOr(0)
  }

  /** `playlist.get('id')` is truthy. */
  predicate HasId(p: HotPlaylist) {
    p.id.Some? && p.id.value != 0
  }

  predicate SortedByPlays(s: seq<HotPlaylist>) {
    forall i, j :: 0 <= i < j < |s| ==> PlayCount(s[i]) >= PlayCount(s[j])
  }

  /** `[x]` when `x` has play count `c`, nothing otherwise. */
  function Tie(x: HotPlaylist, c: int): seq<HotPlaylist> {
    if PlayCount(x) == c then [x] else []
  }

  /** The playlists with play count `c`, in order. */
  function WithPlays(s: seq<HotPlaylist>, c: int): seq<HotPlaylist> {
    if s == [] then [] else Tie(s[0], c) + WithPlays(s[1..], c)
  }

  /**
   `x` put into a list sorted by descending play count, before every entry
   whose count is at most its own.
   */
  function Insert(s: seq<HotPlaylist>, x: HotPlaylist): seq<HotPlaylist> {
    if s == [] then [x]
    else if PlayCount(s[0]) > PlayCount(x) then [s[0]] + Insert(s[1..], x)
    else [x] + s
  }

  /** Insertion adds exactly `x`. */
  lemma {:induction false} InsertAddsOne(s: seq<HotPlaylist>, x: HotPlaylist)
    ensures multiset(Insert(s, x)) == multiset(s) + multiset{x}
    decreases |s|
  {
    if s != [] {
      assert s == [s[0]] + s[1..];
      if PlayCount(s[0]) > PlayCount(x) {
        InsertAddsOne(s[1..], x);
      }
    }
  }

  /** Every entry after the head of an insertion into `s` is `x` or an entry of `s`'s tail. */
  lemma {:induction false} InsertMembers(s: seq<HotPlaylist>, x: HotPlaylist, y: HotPlaylist)
    requires y in Insert(s, x)
    ensures y == x || y in s
    decreases |s|
  {
    if s != [] && PlayCount(s[0]) > PlayCount(x) {
      var rest := Insert(s[1..], x);
      assert Insert(s, x) == [s[0]] + rest;
      if y != s[0] {
        assert y in rest;
        InsertMembers(s[1..], x, y);
      }
    }
  }

  /** Insertion keeps a sorted list sorted. */
  lemma {:induction false} InsertSorted(s: seq<HotPlaylist>, x: HotPlaylist)
    requires SortedByPlays(s)
    ensures SortedByPlays(Insert(s, x))
    decreases |s|
  {
    if s != [] && PlayCount(s[0]) > PlayCount(x) {
      var tail := s[1..];
      assert SortedByPlays(tail) by {
        forall i, j | 0 <= i < j < |tail|
          ensures PlayCount(tail[i]) >= PlayCount(tail[j])
        {
          assert tail[i] == s[i + 1] && tail[j] == s[j + 1];
        }
      }
      var rest := Insert(tail, x);
      InsertSorted(tail, x);
      var r := [s[0]] + rest;
      assert r == Insert(s, x);
      forall i, j | 0 <= i < j < |r|
        ensures PlayCount(r[i]) >= PlayCount(r[j])
      {
        assert r[j] == rest[j - 1];
        if i > 0 {
          assert r[i] == rest[i - 1];
        } else {
          InsertMembers(tail, x, rest[j - 1]);
          if rest[j - 1] != x {
            var m :| 0 <= m < |tail| && tail[m] == rest[j - 1];
            assert tail[m] == s[m + 1];
          }
        }
      }
    } else if s != [] {
      var r := [x] + s;
      assert r == Insert(s, x);
      forall i, j | 0 <= i < j < |r|
        ensures PlayCount(r[i]) >= PlayCount(r[j])
      {
        assert r[j] == s[j - 1];
        if i > 0 {
          assert r[i] == s[i - 1];
        } else {
          assert PlayCount(s[0]) >= PlayCount(s[j - 1]) || j - 1 == 0;
        }
      }
    }
  }

  /**
   `playlists.sort(key=playCount, reverse=True)`: Python's sort is stable
   also when reversed, so entries with equal counts keep their order. Each
   entry goes in front of the sorted rest, ahead of its equals.
   */
  function SortByPlays(s: seq<HotPlaylist>): (r: seq<HotPlaylist>)
    ensures SortedByPlays(r)
    ensures multiset(r) == multiset(s)
    decreases |s|
  {
    if s == [] then []
    else
      assert s == [s[0]] + s[1..];
      InsertSorted(SortByPlays(s[1..]), s[0]);
      InsertAddsOne(SortByPlays(s[1..]), s[0]);
      Insert(SortByPlays(s[1..]), s[0])
  }

  /** Inserting `x` puts it in front of the entries of its own count. */
  lemma {:induction false} InsertKeepsTies(s: seq<HotPlaylist>, x: HotPlaylist, c: int)
    ensures WithPlays(Insert(s, x), c) == Tie(x, c) + WithPlays(s, c)
    decreases |s|
  {
    if s == [] {
      WithPlaysCons(x, [], c);
    } else if PlayCount(s[0]) > PlayCount(x) {
      var rest := Insert(s[1..], x);
      var w := WithPlays(s[1..], c);
      InsertKeepsTies(s[1..], x, c);
      assert Insert(s, x) == [s[0]] + rest;
      WithPlaysCons(s[0], rest, c);
      WithPlaysCons(s[0], s[1..], c);
      assert [s[0]] + s[1..] == s;
      if Tie(s[0], c) == [] {
        assert Tie(s[0], c) + (Tie(x, c) + w) == Tie(x, c) + w;
      } else {
        assert Tie(x, c) == [];
      }
    } else {
      assert Insert(s, x) == [x] + s;
      WithPlaysCons(x, s, c);
    }
  }

  lemma WithPlaysCons(y: HotPlaylist, t: seq<HotPlaylist>, c: int)
    ensures WithPlays([y] + t, c) == Tie(y, c) + WithPlays(t, c)
  {
    assert ([y] + t)[1..] == t;
  }


  /** Stability: for every play count, the entries with that count come out in their input order. */
  lemma {:induction false} SortIsStable(s: seq<HotPlaylist>, c: int)
    ensures WithPlays(SortByPlays(s), c) == WithPlays(s, c)
    decreases |s|
  {
    if s != [] {
      SortIsStable(s[1..], c);
      InsertKeepsTies(SortByPlays(s[1..]), s[0], c);
      assert SortByPlays(s) == Insert(SortByPlays(s[1..]), s[0]);
    }
  }

  /**
   The dedup loop: keep a playlist when its id is truthy and not yet seen;
   one without an id is dropped.
   */
  function DedupFrom(s: seq<HotPlaylist>, seen: set<int>): (r: seq<HotPlaylist>)
    ensures forall i :: 0 <= i < |r| ==> r[i] in s && HasId(r[i]) && r[i].id.value !in seen
    ensures forall i, j :: 0 <= i < j < |r| ==> r[i].id != r[j].id
    decreases |s|
  {
    if s == [] then []
    else
      var x := s[0];
      if HasId(x) && x.id.value !in seen then
        var rest := DedupFrom(s[1..], seen + {x.id.value});
        var r := [x] + rest;
        assert forall i :: 1 <= i < |r| ==> r[i] == rest[i - 1];
        r
      else DedupFrom(s[1..], seen)
  }

  /** Every truthy id not seen before shows up in the output. */
  lemma {:induction false} DedupCovers(s: seq<HotPlaylist>, seen: set<int>, k: nat)
    requires k < |s| && HasId(s[k]) && s[k].id.value !in seen
    ensures exists y :: y in DedupFrom(s, seen) && y.id == s[k].id
    decreases k
  {
    var x := s[0];
    var r := DedupFrom(s, seen);
    if HasId(x) && x.id.value !in seen {
      assert r == [x] + DedupFrom(s[1..], seen + {x.id.value});
      if k == 0 || x.id == s[k].id {
        assert x in r;
      } else {
        DedupCovers(s[1..], seen + {x.id.value}, k - 1);
        var y :| y in DedupFrom(s[1..], seen + {x.id.value}) && y.id == s[k].id;
        assert y in r;
      }
    } else {
      assert k > 0;
      DedupCovers(s[1..], seen, k - 1);
    }
  }

  /** The output keeps the input's order, so a sorted input stays sorted. */
  lemma {:induction false} DedupSorted(s: seq<HotPlaylist>, seen: set<int>)
    requires SortedByPlays(s)
    ensures SortedByPlays(DedupFrom(s, seen))
    decreases |s|
  {
    if s != [] {
      var x := s[0];
      var tail := s[1..];
      SortedTail(s);
      if HasId(x) && x.id.value !in seen {
        var rest := DedupFrom(tail, seen + {x.id.value});
        DedupSorted(tail, seen + {x.id.value});
        HeadDominates(s, rest);
        SortedCons(x, rest);
        assert DedupFrom(s, seen) == [x] + rest;
      } else {
        DedupSorted(tail, seen);
      }
    }
  }

  lemma SortedTail(s: seq<HotPlaylist>)
    requires s != [] && SortedByPlays(s)
    ensures SortedByPlays(s[1..])
  {
    var tail := s[1..];
    forall i, j | 0 <= i < j < |tail|
      ensures PlayCount(tail[i]) >= PlayCount(tail[j])
    {
      assert tail[i] == s[i + 1] && tail[j] == s[j + 1];
    }
  }

  /** The head of a sorted list plays at least as often as anything drawn from its tail. */
  lemma HeadDominates(s: seq<HotPlaylist>, rest: seq<HotPlaylist>)
    requires s != [] && SortedByPlays(s)
    requires forall k :: 0 <= k < |rest| ==> rest[k] in s[1..]
    ensures forall k :: 0 <= k < |rest| ==> PlayCount(s[0]) >= PlayCount(rest[k])
  {
    forall k | 0 <= k < |rest|
      ensures PlayCount(s[0]) >= PlayCount(rest[k])
    {
      var m :| 0 <= m < |s| - 1 && s[1..][m] == rest[k];
      assert s[m + 1] == rest[k];
    }
  }

  lemma SortedCons(x: HotPlaylist, rest: seq<HotPlaylist>)
    requires SortedByPlays(rest)
    requires forall k :: 0 <= k < |rest| ==> PlayCount(x) >= PlayCount(rest[k])
    ensures SortedByPlays([x] + rest)
  {
    var r := [x] + rest;
    forall i, j | 0 <= i < j < |r|
      ensures PlayCount(r[i]) >= PlayCount(r[j])
    {
      assert r[j] == rest[j - 1];
      if i > 0 {
        assert r[i] == rest[i - 1];
      }
    }
  }


  /** The entry kept for an id is the first input entry carrying it. */
  lemma {:induction false} DedupKeepsFirst(s: seq<HotPlaylist>, seen: set<int>, k: nat)
    requires k < |s| && HasId(s[k]) && s[k].id.value !in seen
    requires forall j :: 0 <= j < k ==> s[j].id != s[k].id
    ensures s[k] in DedupFrom(s, seen)
    decreases k
  {
    var x := s[0];
    if k == 0 {
      assert DedupFrom(s, seen) == [x] + DedupFrom(s[1..], seen + {x.id.value});
    } else if HasId(x) && x.id.value !in seen {
      assert x.id.value != s[k].id.value;
      DedupKeepsFirst(s[1..], seen + {x.id.value}, k - 1);
      assert DedupFrom(s, seen) == [x] + DedupFrom(s[1..], seen + {x.id.value});
    } else {
      DedupKeepsFirst(s[1..], seen, k - 1);
    }
  }

  /**
   The post-processing of `get_hot_playlists`: sort by play count,
   descending and stable, then keep the first playlist of each id.
   */
  function HotPlaylists(s: seq<HotPlaylist>): (r: seq<HotPlaylist>)
    ensures SortedByPlays(r)
    ensures forall i, j :: 0 <= i < j < |r| ==> r[i].id != r[j].id
    ensures forall i :: 0 <= i < |r| ==> r[i] in s && HasId(r[i])
  {
    var sorted := SortByPlays(s);
    DedupSorted(sorted, {});
    var r := DedupFrom(sorted, {});
    forall i | 0 <= i < |r|
      ensures r[i] in s
    {
      assert r[i] in multiset(sorted);
    }
    r
  }

  /** Every playlist with a truthy id has its id in the output. */
  lemma HotPlaylistsCoverIds(s: seq<HotPlaylist>, k: nat)
    requires k < |s| && HasId(s[k])
    ensures exists y :: y in HotPlaylists(s) && y.id == s[k].id
  {
    var sorted := SortByPlays(s);
    assert s[k] in multiset(sorted);
    var m :| 0 <= m < |sorted| && sorted[m] == s[k];
    DedupCovers(sorted, {}, m);
  }

  /**
   Among playlists sharing an id, the one kept is the first in the sorted
   order: the most played one, and among equally played ones the earliest.
   */
  lemma HotPlaylistKeepsFirstOfId(s: seq<HotPlaylist>, k: nat)
    requires k < |SortByPlays(s)| && HasId(SortByPlays(s)[k])
    requires forall j :: 0 <= j < k ==> SortByPlays(s)[j].id != SortByPlays(s)[k].id
    ensures SortByPlays(s)[k] in HotPlaylists(s)
  {
    DedupKeepsFirst(SortByPlays(s), {}, k);
  }

  // ---------------------------------------------------------------------------
  // Artist directory

  const UnknownArtist: string := "Unknown"

  /** The first credited artist, `Unknown` when there is none. */
  function PrimaryArtist(artistNames: seq<string>): string {
    if artistNames != [] then artistNames[0] else UnknownArtist
  }

  /** Stripping text free of reserved characters leaves text free of them, made of the same characters. */
  lemma StrippedKeepsClean(kept: string, name: string)
    requires forall i :: 0 <= i < |kept| ==> !IsReservedChar(kept[i])
    requires forall c :: c in kept ==> c in name
    ensures var s := Strip(kept, ArtistDownloader.IsSpaceOrDot);
            && (forall i :: 0 <= i < |s| ==> !IsReservedChar(s[i]))
            && (forall c :: c in s ==> c in name)
  {
    var s := Strip(kept, ArtistDownloader.IsSpaceOrDot);
    var k := |kept| - |TrimLeft(kept, ArtistDownloader.IsSpaceOrDot)|;
    assert forall i :: 0 <= i < |s| ==> s[i] == kept[k + i];
    StripMembers(kept, ArtistDownloader.IsSpaceOrDot);
  }

  lemma UnknownArtistClean()
    ensures forall i :: 0 <= i < |UnknownArtist| ==> !IsReservedChar(UnknownArtist[i])
    ensures !ArtistDownloader.IsSpaceOrDot(UnknownArtist[0]) && !ArtistDownloader.IsSpaceOrDot(UnknownArtist[|UnknownArtist| - 1])
  {
  }

  /**
   The `safe_artist_name` expression of the synchronous download: the first
   artist, reserved characters removed, spaces and dots stripped from both
   ends, `Unknown` when nothing is left.
   */
  function SafeArtistName(artistNames: seq<string>): (r: string)
    ensures |r| > 0
    ensures forall i :: 0 <= i < |r| ==> !IsReservedChar(r[i])
    ensures !ArtistDownloader.IsSpaceOrDot(r[0]) && !ArtistDownloader.IsSpaceOrDot(r[|r| - 1])
    ensures r == UnknownArtist || forall c :: c in r ==> c in PrimaryArtist(artistNames)
  {
    var kept := RemoveChars(PrimaryArtist(artistNames), IsReservedChar);
    var s := Strip(kept, ArtistDownloader.IsSpaceOrDot);
    UnknownArtistClean();
    if s == "" then UnknownArtist
    else
      StrippedKeepsClean(kept, PrimaryArtist(artistNames));
      s
  }

  /** A first artist with no reserved character and no space or dot at either end names the directory as it is. */
  lemma SafeKeepsCleanArtist(name: string, others: seq<string>)
    requires |name| > 0
    requires forall i :: 0 <= i < |name| ==> !IsReservedChar(name[i])
    requires !ArtistDownloader.IsSpaceOrDot(name[0]) && !ArtistDownloader.IsSpaceOrDot(name[|name| - 1])
    ensures SafeArtistName([name] + others) == name
  {
    assert PrimaryArtist([name] + others) == name;
    RemoveNothing(name, IsReservedChar);
    StripNoop(name, ArtistDownloader.IsSpaceOrDot);
  }

  /**
   Which name comes back: `Unknown` when there is no artist or every
   character of the first one is reserved, a space or a dot; otherwise the
   first artist with its reserved characters removed, less the spaces and
   dots at either end and nothing else.
   */
  lemma SafeArtistChoice(artistNames: seq<string>)
    ensures artistNames == [] ==> SafeArtistName(artistNames) == UnknownArtist
    ensures var p := PrimaryArtist(artistNames);
            (forall i :: 0 <= i < |p| ==> IsReservedChar(p[i]) || ArtistDownloader.IsSpaceOrDot(p[i])) ==>
              SafeArtistName(artistNames) == UnknownArtist
    ensures var p := PrimaryArtist(artistNames);
            (exists i :: 0 <= i < |p| && !IsReservedChar(p[i]) && !ArtistDownloader.IsSpaceOrDot(p[i])) ==>
              var kept := RemoveChars(p, IsReservedChar);
              exists k :: OccursAt(kept, SafeArtistName(artistNames), k)
                       && DroppedOutside(kept, ArtistDownloader.IsSpaceOrDot, k, |SafeArtistName(artistNames)|)
  {
    var p := PrimaryArtist(artistNames);
    var kept := RemoveChars(p, IsReservedChar);
    var s := Strip(kept, ArtistDownloader.IsSpaceOrDot);
    assert SafeArtistName(artistNames) == if s == [] then UnknownArtist else s;
    StripEmptyIff(kept, ArtistDownloader.IsSpaceOrDot);
    KeptSpaceOrDot(p, kept);
    StripIsBorderedInfix(kept, ArtistDownloader.IsSpaceOrDot);
    if artistNames == [] {
      UnknownArtistClean();
      RemoveNothing(UnknownArtist, IsReservedChar);
      StripNoop(UnknownArtist, ArtistDownloader.IsSpaceOrDot);
    }
  }

  /** What removing reserved characters keeps is all spaces and dots iff the rest of the name is. */
  lemma KeptSpaceOrDot(p: string, kept: string)
    requires kept == RemoveChars(p, IsReservedChar)
    ensures (forall i :: 0 <= i < |kept| ==> ArtistDownloader.IsSpaceOrDot(kept[i]))
        <==> (forall i :: 0 <= i < |p| ==> IsReservedChar(p[i]) || ArtistDownloader.IsSpaceOrDot(p[i]))
  {
    if forall i :: 0 <= i < |kept| ==> ArtistDownloader.IsSpaceOrDot(kept[i]) {
      forall i | 0 <= i < |p| && !IsReservedChar(p[i])
        ensures ArtistDownloader.IsSpaceOrDot(p[i])
      {
        assert p[i] in p;
        var j :| 0 <= j < |kept| && kept[j] == p[i];
      }
    }
    if forall i :: 0 <= i < |p| ==> IsReservedChar(p[i]) || ArtistDownloader.IsSpaceOrDot(p[i]) {
      forall i | 0 <= i < |kept|
        ensures ArtistDownloader.IsSpaceOrDot(kept[i])
      {
        assert kept[i] in kept;
        var j :| 0 <= j < |p| && p[j] == kept[i];
      }
    }
  }

  /** A safe name used as the only artist comes back unchanged. */
  lemma SafeArtistNameIdempotent(artistNames: seq<string>)
    ensures SafeArtistName([SafeArtistName(artistNames)]) == SafeArtistName(artistNames)
  {
    var r := SafeArtistName(artistNames);
    RemoveNothing(r, IsReservedChar);
    StripNoop(r, ArtistDownloader.IsSpaceOrDot);
  }
}
