/**
 The pure parts of the NetEase client in `music_api.py`: hexadecimal
 digests, the reversible stages of the picture-id scrambler and the
 picture URL built from it, the batching of track ids, the paging loops of
 the playlist listings, and the extraction of the login cookie. MD5,
 base64 and every HTTP request are parameters.
 */
module MusicApi {
  import opened Common

  // ---------------------------------------------------------------------------
  // Hexadecimal digests

  type Byte = x: int | 0 <= x < 256

  const HexDigits: string := "0123456789abcdef"

  function HexDigit(n: int): (c: char)
    requires 0 <= n < 16
    ensures c in HexDigits
  {
    HexDigits[n]
  }

  /** The value of a lower-case hexadecimal digit. */
  function HexValue(c: char): (n: int)
    requires c in HexDigits
    ensures 0 <= n < 16 && HexDigit(n) == c
  {
    if '0' <= c <= '9' then c as int - '0' as int else c as int - 'a' as int + 10
  }

  /** `hex(d)[2:].zfill(2)`: two lower-case digits, high nibble first. */
  function ByteHex(b: Byte): (r: string)
    ensures |r| == 2 && r[0] in HexDigits && r[1] in HexDigits
    ensures HexValue(r[0]) == b / 16 && HexValue(r[1]) == b % 16
  {
    [HexDigit(b / 16), HexDigit(b % 16)]
  }

  /** `CryptoUtils.hex_digest`: the bytes written out two hexadecimal digits each. */
  function HexDigest(data: seq<Byte>): (r: string)
    ensures |r| == 2 * |data|
    ensures forall i :: 0 <= i < |r| ==> r[i] in HexDigits
    decreases |data|
  {
    if data == [] then "" else ByteHex(data[0]) + HexDigest(data[1..])
  }

  /** The bytes of a digest string: every digit pair read back as one byte. */
  function HexDecode(s: string): (r: seq<Byte>)
    requires |s| % 2 == 0 && forall i :: 0 <= i < |s| ==> s[i] in HexDigits
    decreases |s|
  {
    if s == "" then [] else [16 * HexValue(s[0]) + HexValue(s[1])] + HexDecode(s[2..])
  }

  /** Reading the digest back gives the bytes, so no two byte strings share a digest. */
  lemma {:induction false} HexDigestDecodes(data: seq<Byte>)
    ensures HexDecode(HexDigest(data)) == data
    decreases |data|
  {
    if data != [] {
      var h, rest := ByteHex(data[0]), HexDigest(data[1..]);
      var r := h + rest;
      assert r == HexDigest(data);
      assert r[0] == h[0] && r[1] == h[1] && r[2..] == rest;
      HexDigestDecodes(data[1..]);
      var b := data[0];
      assert 16 * (b / 16) + b % 16 == b;
    }
  }

  // ---------------------------------------------------------------------------
  // Picture ids

  /** The key of the XOR stage of `netease_encrypt_id`: 18 ASCII characters. */
  const Magic: string := "3go8&$8*3*3h0k(2)2"

  function Pow2(n: nat): (r: nat)
    ensures r > 0
  {
    if n == 0 then 1 else 2 * Pow2(n - 1)
  }

  /** Bitwise exclusive or of the low `n` bits of `a` and `b`, lowest bit first. */
  function XorBits(a: nat, b: nat, n: nat): (r: nat)
    ensures r < Pow2(n)
  {
    if n == 0 then 0 else (if a % 2 != b % 2 then 1 else 0) + 2 * XorBits(a / 2, b / 2, n - 1)
  }

  /** XOR with the same key twice gives back any `n`-bit number. */
  lemma {:induction false} XorBitsTwice(a: nat, b: nat, n: nat)
    requires a < Pow2(n)
    ensures XorBits(XorBits(a, b, n), b, n) == a
  {
    if n > 0 {
      var rest := XorBits(a / 2, b / 2, n - 1);
      var x := (if a % 2 != b % 2 then 1 else 0) + 2 * rest;
      assert x == XorBits(a, b, n);
      assert x % 2 == (if a % 2 != b % 2 then 1 else 0) && x / 2 == rest;
      XorBitsTwice(a / 2, b / 2, n - 1);
    }
  }

  /** Bitwise exclusive or of two seven-bit numbers. */
  function Xor7(a: nat, b: nat): (r: nat)
    requires a < 128 && b < 128
    ensures r < 128
  {
    assert Pow2(7) == 128;
    XorBits(a, b, 7)
  }

  /** XOR with the same key twice gives the number back. */
  lemma Xor7Twice(a: nat, b: nat)
    requires a < 128 && b < 128
    ensures Xor7(Xor7(a, b), b) == a
  {
    assert Pow2(7) == 128;
    XorBitsTwice(a, b, 7);
  }

  /**
   `chr(ord(c) ^ ord(m))` for an ASCII `m`: only the low seven bits of the
   code point change, so the result is a character again (the surrogate
   block starts and ends on a multiple of 128, so a code point outside it
   stays outside it).
   */
  function XorChar(c: char, m: char): (r: char)
    requires m as int < 128
    ensures r as int / 128 == c as int / 128
    ensures r as int % 128 == Xor7(c as int % 128, m as int)
  {
    var q := c as int / 128;
    var low := Xor7(c as int % 128, m as int);
    var x := 128 * q + low;
    assert c as int < 0xD800 ==> q <= 431;
    assert c as int >= 0xE000 ==> q >= 448;
    assert q <= 8703;
    x as char
  }

  /** XORing a character twice with the same ASCII key gives it back. */
  lemma XorCharTwice(c: char, m: char)
    requires m as int < 128
    ensures XorChar(XorChar(c, m), m) == c
  {
    Xor7Twice(c as int % 128, m as int);
  }

  /** The key character used at position `i`: the key repeats every 18 characters. */
  function KeyAt(i: nat): (m: char)
    ensures m == Magic[i % |Magic|] && m as int < 128
  {
    assert forall k :: 0 <= k < |Magic| ==> Magic[k] as int < 128;
    Magic[i % |Magic|]
  }

  /** The XOR stage of `netease_encrypt_id`: character `i` is XORed with `Magic[i % 18]`. */
  function XorStage(id: string): (r: string)
    ensures |r| == |id|
    ensures forall i :: 0 <= i < |id| ==> r[i] == XorChar(id[i], KeyAt(i))
  {
    seq(|id|, i requires 0 <= i < |id| => XorChar(id[i], KeyAt(i)))
  }

  /** The XOR stage undoes itself. */
  lemma XorStageInvolution(id: string)
    ensures XorStage(XorStage(id)) == id
  {
    var once := XorStage(id);
    var twice := XorStage(once);
    forall i | 0 <= i < |id|
      ensures twice[i] == id[i]
    {
      XorCharTwice(id[i], KeyAt(i));
    }
  }

  /** `.replace('/', '_').replace('+', '-')` on the base64 text. */
  function UrlSafe(s: string): (r: string)
    ensures |r| == |s|
    ensures forall i :: 0 <= i < |r| ==> r[i] != '/' && r[i] != '+'
    ensures forall i :: 0 <= i < |s| ==> r[i] == if s[i] == '/' then '_' else if s[i] == '+' then '-' else s[i]
  {
    ReplaceChars(ReplaceChars(s, c => c == '/', '_'), c => c == '+', '-')
  }

  /** Text that is already URL-safe is left alone. */
  lemma UrlSafeIdempotent(s: string)
    ensures UrlSafe(UrlSafe(s)) == UrlSafe(s)
  {
  }

  /**
   `netease_encrypt_id`, with `md5Base64` standing for the MD5 digest of the
   UTF-8 text written in base64, which this model does not compute.
   */
  function EncryptId(id: string, md5Base64: string -> string): (r: string)
    ensures |r| == |md5Base64(XorStage(id))|
    ensures forall i :: 0 <= i < |r| ==> r[i] != '/' && r[i] != '+'
  {
    UrlSafe(md5Base64(XorStage(id)))
  }

  const PicHost: string := "https://p3.music.126.net/"

  /** The file part of a picture URL: `<id>.jpg?param=<size>y<size>`. */
  function PicFile(id: int, size: int): string {
    IntToString(id) + ".jpg?param=" + IntToString(size) + "y" + IntToString(size)
  }

  /**
   `get_pic_url`: no id gives the empty text; otherwise
   `https://p3.music.126.net/<encrypted id>/<id>.jpg?param=<size>y<size>`.
   */
  function PicUrl(picId: Option<int>, size: int, md5Base64: string -> string): (r: string)
    ensures picId.None? <==> r == ""
    ensures picId.Some? ==>
              var enc := EncryptId(IntToString(picId.value), md5Base64);
              && |r| > |PicHost| + |enc| && r[..|PicHost|] == PicHost
              && r[|PicHost|..|PicHost| + |enc|] == enc && r[|PicHost| + |enc|] == '/'
  {
    match picId
    case None => ""
    case Some(id) =>
      var enc := EncryptId(IntToString(id), md5Base64);
      var r := PicHost + (enc + "/" + PicFile(id, size));
      assert r[..|PicHost|] == PicHost;
      assert r[|PicHost|..|PicHost| + |enc|] == enc;
      r
  }

  /**
   Since the encrypted id holds no `/`, it is exactly the fourth path
   segment of the URL, whatever MD5 and base64 produced.
   */
  lemma PicUrlSegment(id: int, size: int, md5Base64: string -> string)
    ensures var enc := EncryptId(IntToString(id), md5Base64);
            var parts := Split(PicUrl(Some(id), size, md5Base64), "/");
            |parts| == 5 && parts[3] == enc
  {
    var enc := EncryptId(IntToString(id), md5Base64);
    var parts := ["https:", "", "p3.music.126.net", enc, PicFile(id, size)];
    PicUrlPieces(id, size, md5Base64, parts);
    NoSlashInPieces(enc, id, size, parts);
    SplitJoin(parts);
  }

  /** The picture URL is its five pieces joined with slashes. */
  lemma PicUrlPieces(id: int, size: int, md5Base64: string -> string, parts: seq<string>)
    requires parts == ["https:", "", "p3.music.126.net", EncryptId(IntToString(id), md5Base64), PicFile(id, size)]
    ensures PicUrl(Some(id), size, md5Base64) == Join(parts, "/")
  {
    var x := parts[3] + "/" + parts[4];
    assert PicUrl(Some(id), size, md5Base64) == PicHost + x;
    HostPieces(x, parts[0], parts[2]);
    JoinFive(parts[0], parts[1], parts[2], parts[3], parts[4]);
  }

  lemma HostPieces(x: string, scheme: string, host: string)
    requires scheme == "https:" && host == "p3.music.126.net"
    ensures PicHost + x == scheme + "/" + ("" + "/" + (host + "/" + x))
  {
    assert PicHost == scheme + "/" + "/" + host + "/";
    calc {
      scheme + "/" + ("" + "/" + (host + "/" + x));
      scheme + "/" + "/" + (host + "/" + x);
      scheme + "/" + "/" + host + "/" + x;
    }
  }

  lemma JoinFive(a: string, b: string, c: string, d: string, e: string)
    ensures Join([a, b, c, d, e], "/") == a + "/" + (b + "/" + (c + "/" + (d + "/" + e)))
  {
    var p := [a, b, c, d, e];
    assert Join(p[3..], "/") == d + "/" + e by { assert p[3..][1..] == [e]; }
    assert Join(p[2..], "/") == c + "/" + Join(p[3..], "/") by { assert p[2..][1..] == p[3..]; }
    assert Join(p[1..], "/") == b + "/" + Join(p[2..], "/") by { assert p[1..][1..] == p[2..]; }
  }

  /** Slash-free pieces joined with slashes split back into the same pieces. */
  lemma {:induction false} SplitJoin(parts: seq<string>)
    requires |parts| >= 1
    requires forall i :: 0 <= i < |parts| ==> !Contains(parts[i], "/")
    ensures Split(Join(parts, "/"), "/") == parts
    decreases |parts|
  {
    if |parts| > 1 {
      var rest := Join(parts[1..], "/");
      assert Join(parts, "/") == parts[0] + "/" + rest;
      SplitJoin(parts[1..]);
      SplitFirst(parts[0], "/", rest);
      assert [parts[0]] + parts[1..] == parts;
    }
  }

  /** Text without a `/` character does not contain `"/"`. */
  lemma NoSlashIn(s: string)
    requires forall i :: 0 <= i < |s| ==> s[i] != '/'
    ensures !Contains(s, "/")
  {
    forall k | 0 <= k
      ensures !OccursAt(s, "/", k)
    {
      if k < |s| {
        assert s[k..k + 1][0] == s[k];
      }
    }
  }

  /** None of the pieces between the slashes of a picture URL holds one. */
  lemma NoSlashInPieces(enc: string, id: int, size: int, parts: seq<string>)
    requires forall i :: 0 <= i < |enc| ==> enc[i] != '/'
    requires parts == ["https:", "", "p3.music.126.net", enc, PicFile(id, size)]
    ensures forall i :: 0 <= i < |parts| ==> !Contains(parts[i], "/")
  {
    forall i | 0 <= i < |parts|
      ensures !Contains(parts[i], "/")
    {
      if i == 3 {
        NoSlashIn(enc);
      } else if i == 4 {
        NoSlashInFile(id, size);
        NoSlashIn(PicFile(id, size));
      } else {
        NoSlashIn(parts[i]);
      }
    }
  }

  lemma NoSlashInFile(id: int, size: int)
    ensures forall i :: 0 <= i < |PicFile(id, size)| ==> PicFile(id, size)[i] != '/'
  {
    var tail := PicFile(id, size);
    forall i | 0 <= i < |tail|
      ensures tail[i] != '/'
    {
    }
  }

  /** Splitting `a/b` where `a` holds no separator splits off `a` and then splits `b`. */
  lemma SplitFirst(a: string, sep: string, b: string)
    requires |sep| == 1 && !Contains(a, sep)
    ensures Split(a + sep + b, sep) == [a] + Split(b, sep)
  {
    var s := a + sep + b;
    assert OccursAt(s, sep, |a|);
    forall j | 0 <= j < |a|
      ensures !OccursAt(s, sep, j)
    {
      assert s[j..j + 1] == a[j..j + 1];
      assert !OccursAt(a, sep, j);
    }
    assert Find(s, sep) == |a|;
    assert s[..|a|] == a && s[|a| + 1..] == b;
  }

  /** Text that starts with the separator splits into an empty first piece and the rest. */
  lemma SplitLeading(sep: string, b: string)
    requires |sep| > 0
    ensures Split(sep + b, sep) == [""] + Split(b, sep)
  {
    var s := sep + b;
    assert OccursAt(s, sep, 0);
    assert Find(s, sep) == 0;
    assert s[..0] == "" && s[|sep|..] == b;
  }

  // ---------------------------------------------------------------------------
  // Track batches

  /** The batches concatenated back together. */
  function Flatten<T>(parts: seq<seq<T>>): seq<T> {
    if parts == [] then [] else parts[0] + Flatten(parts[1..])
  }

  /** `track_ids[i:i+size]` for `i` in `range(start, len(track_ids), size)`. */
  function BatchesFrom<T>(xs: seq<T>, start: nat, size: nat): (r: seq<seq<T>>)
    requires size > 0
    ensures forall i :: 0 <= i < |r| ==> 0 < |r[i]| <= size
    ensures forall i :: 0 <= i < |r| - 1 ==> |r[i]| == size
    decreases |xs| - start
  {
    if start >= |xs| then []
    else
      var end := if start + size < |xs| then start + size else |xs|;
      var rest := BatchesFrom(xs, start + size, size);
      var r := [xs[start..end]] + rest;
      assert forall i :: 1 <= i < |r| ==> r[i] == rest[i - 1];
      assert rest != [] ==> end == start + size;
      r
  }

  const BatchSize: nat := 100

  /** The batches of `get_playlist_detail`: at most 100 ids each, all full except the last. */
  function TrackBatches<T>(ids: seq<T>): (r: seq<seq<T>>)
    ensures forall i :: 0 <= i < |r| ==> 0 < |r[i]| <= BatchSize
    ensures forall i :: 0 <= i < |r| - 1 ==> |r[i]| == BatchSize
  {
    BatchesFrom(ids, 0, BatchSize)
  }

  /** The batches from `start` on cover the ids from `start` on, in order. */
  lemma {:induction false} BatchesCover<T>(xs: seq<T>, start: nat, size: nat)
    requires size > 0 && start <= |xs|
    ensures Flatten(BatchesFrom(xs, start, size)) == xs[start..]
    decreases |xs| - start
  {
    if start < |xs| {
      var end := if start + size < |xs| then start + size else |xs|;
      var rest := BatchesFrom(xs, start + size, size);
      assert BatchesFrom(xs, start, size) == [xs[start..end]] + rest;
      assert ([xs[start..end]] + rest)[1..] == rest;
      if start + size < |xs| {
        BatchesCover(xs, start + size, size);
      } else {
        assert rest == [];
      }
      assert xs[start..] == xs[start..end] + xs[end..];
    }
  }

  /** Every track id is fetched exactly once and in playlist order: the batches concatenate to the ids. */
  lemma TrackBatchesConcat<T>(ids: seq<T>)
    ensures Flatten(TrackBatches(ids)) == ids
  {
    BatchesCover(ids, 0, BatchSize);
  }

  // ---------------------------------------------------------------------------
  // Paging loops

  /** One listing page as the API answered it; `total` is 0 when the answer carries none. */
  datatype Page<T> = Page(items: seq<T>, total: int)

  /** How a paging loop ended: its list, and how many pages it asked for. */
  datatype Paged<T> = Paged(items: seq<T>, fetched: nat)

  /** The items of the pages at offsets `from * pageSize` up to `to * pageSize`, in order. */
  function PagesFrom<T>(fetch: nat -> Page<T>, pageSize: nat, from: nat, to: nat): seq<T>
    decreases to - from
  {
    if from >= to then [] else fetch(from * pageSize).items + PagesFrom(fetch, pageSize, from + 1, to)
  }

  /**
   The page loop of `get_personalized_playlists` (`checksTotal` false) and
   of `get_high_quality_playlists` (`checksTotal` true), from page `page`
   on: an empty page ends it; otherwise the page is appended; reaching the
   limit truncates to it and ends; a known total that is reached, or a
   short page, ends it; otherwise the next offset is asked for.
   */
  function PageLoop<T>(fetch: nat -> Page<T>, pageSize: nat, maxPages: nat, checksTotal: bool, limit: Option<int>,
                       page: nat, acc: seq<T>): (r: Paged<T>)
    requires page <= maxPages
    ensures page <= r.fetched <= maxPages
    ensures limit.Some? && limit.value >= 0 && |acc| <= limit.value ==> |r.items| <= limit.value
    decreases maxPages - page
  {
    if page == maxPages then Paged(acc, page)
    else
      var p := fetch(page * pageSize);
      if p.items == [] then Paged(acc, page + 1)
      else
        var all := acc + p.items;
        if limit.Some? && |all| >= limit.value then Paged(PyTake(all, limit.value), page + 1)
        else if checksTotal && p.total > 0 && page * pageSize + pageSize >= p.total then Paged(all, page + 1)
        else if |p.items| < pageSize then Paged(all, page + 1)
        else PageLoop(fetch, pageSize, maxPages, checksTotal, limit, page + 1, all)
  }

  /** `get_personalized_playlists`: pages of 50, at most two pages. */
  function PersonalizedPlaylists<T>(fetch: nat -> Page<T>, limit: Option<int>): (r: Paged<T>)
    ensures r.fetched <= 2
    ensures limit.Some? && limit.value >= 0 ==> |r.items| <= limit.value
  {
    PageLoop(fetch, 50, 2, false, limit, 0, [])
  }

  /** `get_high_quality_playlists`: pages of 50, at most twenty pages. */
  function HighQualityPlaylists<T>(fetch: nat -> Page<T>, limit: Option<int>): (r: Paged<T>)
    ensures r.fetched <= 20
    ensures limit.Some? && limit.value >= 0 ==> |r.items| <= limit.value
  {
    PageLoop(fetch, 50, 20, true, limit, 0, [])
  }

  /** `r` holds `acc` followed by the pages from `page` up to `r.fetched`: all of them, or a prefix when a limit is set. */
  ghost predicate CollectsFrom<T>(fetch: nat -> Page<T>, pageSize: nat, page: nat, acc: seq<T>, limit: Option<int>, r: Paged<T>) {
    var all := acc + PagesFrom(fetch, pageSize, page, r.fetched);
    r.items <= all && (limit.None? ==> r.items == all)
  }

  /**
   The loop's list is what the pages it asked for hold, in page order: all
   of it without a limit, a prefix of it with one.
   */
  lemma {:induction false} PageLoopCollects<T>(fetch: nat -> Page<T>, pageSize: nat, maxPages: nat, checksTotal: bool,
                                               limit: Option<int>, page: nat, acc: seq<T>)
    requires page <= maxPages
    ensures CollectsFrom(fetch, pageSize, page, acc, limit, PageLoop(fetch, pageSize, maxPages, checksTotal, limit, page, acc))
    decreases maxPages - page
  {
    var r := PageLoop(fetch, pageSize, maxPages, checksTotal, limit, page, acc);
    if page == maxPages {
      assert PagesFrom(fetch, pageSize, page, r.fetched) == [];
    } else {
      var p := fetch(page * pageSize);
      var all := acc + p.items;
      if p.items == [] || (limit.Some? && |all| >= limit.value)
         || (checksTotal && p.total > 0 && page * pageSize + pageSize >= p.total) || |p.items| < pageSize {
        PageLoopLastPage(fetch, pageSize, maxPages, checksTotal, limit, page, acc);
      } else {
        PageLoopCollects(fetch, pageSize, maxPages, checksTotal, limit, page + 1, all);
        CollectsStep(fetch, pageSize, page, acc, limit, r);
      }
    }
  }

  /** A loop that ends on page `page` holds `acc` and that page, or a prefix of them. */
  lemma PageLoopLastPage<T>(fetch: nat -> Page<T>, pageSize: nat, maxPages: nat, checksTotal: bool,
                            limit: Option<int>, page: nat, acc: seq<T>)
    requires page < maxPages
    requires var p := fetch(page * pageSize);
             || p.items == [] || (limit.Some? && |acc + p.items| >= limit.value)
             || (checksTotal && p.total > 0 && page * pageSize + pageSize >= p.total) || |p.items| < pageSize
    ensures CollectsFrom(fetch, pageSize, page, acc, limit, PageLoop(fetch, pageSize, maxPages, checksTotal, limit, page, acc))
  {
    var p := fetch(page * pageSize);
    assert PagesFrom(fetch, pageSize, page, page + 1) == p.items + [];
  }

  /** Collecting from page `page + 1` after appending page `page` is collecting from page `page`. */
  lemma CollectsStep<T>(fetch: nat -> Page<T>, pageSize: nat, page: nat, acc: seq<T>, limit: Option<int>, r: Paged<T>)
    requires page < r.fetched
    requires CollectsFrom(fetch, pageSize, page + 1, acc + fetch(page * pageSize).items, limit, r)
    ensures CollectsFrom(fetch, pageSize, page, acc, limit, r)
  {
    var items := fetch(page * pageSize).items;
    var rest := PagesFrom(fetch, pageSize, page + 1, r.fetched);
    assert PagesFrom(fetch, pageSize, page, r.fetched) == items + rest;
    assert acc + items + rest == acc + (items + rest);
  }


  /** A listed playlist; only its id matters to the loops. */
  datatype Listed = Listed(id: int, name: string)

  predicate DistinctIds(s: seq<Listed>) {
    forall i, j :: 0 <= i < j < |s| ==> s[i].id != s[j].id
  }

  /** Some playlist in `s` has id `id`. */
  predicate IdListed(s: seq<Listed>, id: int) {
    exists j :: 0 <= j < |s| && s[j].id == id
  }

  /**
   The inner loop of `_get_playlists_by_search` over one page: an item is
   added when its id is not among the ids collected so far, which include
   those added from the same page.
   */
  function AddNew(acc: seq<Listed>, items: seq<Listed>): (r: seq<Listed>)
    ensures |acc| <= |r| && r[..|acc|] == acc
    ensures forall j :: |acc| <= j < |r| ==> r[j] in items
    ensures DistinctIds(acc) ==> DistinctIds(r)
    decreases |items|
  {
    if items == [] then acc
    else
      var x := items[0];
      var next := if IdListed(acc, x.id) then acc else acc + [x];
      var r := AddNew(next, items[1..]);
      assert r[..|acc|] == next[..|acc|];
      assert forall j :: |next| <= j < |r| ==> r[j] in items[1..];
      r
  }

  /** Every playlist of the page ends up listed by id, whether it was added or already there. */
  lemma {:induction false} AddNewCovers(acc: seq<Listed>, items: seq<Listed>, i: int)
    requires 0 <= i < |items|
    ensures IdListed(AddNew(acc, items), items[i].id)
    decreases |items|
  {
    var x := items[0];
    var next := if IdListed(acc, x.id) then acc else acc + [x];
    var r := AddNew(next, items[1..]);
    assert r == AddNew(acc, items);
    if i == 0 {
      if IdListed(acc, x.id) {
        var j :| 0 <= j < |acc| && acc[j].id == x.id;
        assert r[j] == acc[j];
      } else {
        assert r[|acc|] == next[|acc|];
      }
    } else {
      AddNewCovers(next, items[1..], i - 1);
      assert items[1..][i - 1] == items[i];
    }
  }

  /** One search answer: the request failed (code other than 200), or a page of playlists with its total. */
  datatype SearchAnswer = SearchFailed | Found(page: Page<Listed>)

  /** How the search loop left a keyword: carry on with the next keyword, or return from the function. */
  datatype SearchStep = Continue(acc: seq<Listed>) | Return(result: seq<Listed>)

  const SearchPageSize: nat := 100
  const SearchMaxPages: nat := 10
  const SearchKeywords: nat := 14

  /**
   The page loop of one keyword in `_get_playlists_by_search`: a failed or
   empty answer ends the keyword; new playlists are added; reaching the
   limit truncates and returns from the whole function; a reached total or
   a short page ends the keyword.
   */
  function SearchPages(search: (nat, nat) -> SearchAnswer, keyword: nat, limit: Option<int>, page: nat, acc: seq<Listed>)
    : (r: SearchStep)
    requires page <= SearchMaxPages
    ensures DistinctIds(acc) ==> (r.Continue? ==> DistinctIds(r.acc)) && (r.Return? ==> DistinctIds(r.result))
    ensures r.Return? && limit.Some? && limit.value >= 0 ==> |r.result| <= limit.value
    ensures r.Continue? && limit.Some? ==> r.acc == acc || |r.acc| < limit.value
    decreases SearchMaxPages - page
  {
    if page == SearchMaxPages then Continue(acc)
    else match search(keyword, page * SearchPageSize)
      case SearchFailed => Continue(acc)
      case Found(p) =>
        if p.items == [] then Continue(acc)
        else
          var all := AddNew(acc, p.items);
          if limit.Some? && |all| >= limit.value then
            var r := PyTake(all, limit.value);
            assert forall i :: 0 <= i < |r| ==> r[i] == all[i];
            Return(r)
          else if p.total > 0 && page * SearchPageSize + SearchPageSize >= p.total then Continue(all)
          else if |p.items| < SearchPageSize then Continue(all)
          else SearchPages(search, keyword, limit, page + 1, all)
  }

  /** The keyword loop of `_get_playlists_by_search`, from keyword `k` on. */
  function SearchKeywordsFrom(search: (nat, nat) -> SearchAnswer, limit: Option<int>, k: nat, acc: seq<Listed>)
    : (r: seq<Listed>)
    requires k <= SearchKeywords
    ensures DistinctIds(acc) ==> DistinctIds(r)
    ensures limit.Some? && limit.value >= 0 && |acc| <= limit.value ==> |r| <= limit.value
    decreases SearchKeywords - k
  {
    if k == SearchKeywords then acc
    else match SearchPages(search, k, limit, 0, acc)
      case Return(result) => result
      case Continue(next) =>
        if limit.Some? && |next| >= limit.value then next
        else SearchKeywordsFrom(search, limit, k + 1, next)
  }

  /** `_get_playlists_by_search`: the collected playlists have distinct ids and respect a limit. */
  function PlaylistsBySearch(search: (nat, nat) -> SearchAnswer, limit: Option<int>): (r: seq<Listed>)
    ensures DistinctIds(r)
    ensures limit.Some? && limit.value >= 0 ==> |r| <= limit.value
  {
    SearchKeywordsFrom(search, limit, 0, [])
  }

  /**
   `get_category_playlists`: for `全部`, the search results, then the
   discovery and hot listings while fewer than 1000 were collected (a
   failing source adds nothing); for any other category, that category's
   listing; the whole cut to the limit.
   */
  function CategoryPlaylists(category: string, bySearch: seq<Listed>, byDiscover: Option<seq<Listed>>,
                             byHot: Option<seq<Listed>>, byCategory: seq<Listed>, limit: Option<int>): (r: seq<Listed>)
    ensures limit.Some? && limit.value >= 0 ==> |r| <= limit.value
    ensures category != "全部" ==> r <= byCategory && (limit.None? ==> r == byCategory)
    ensures category == "全部" ==> r <= bySearch + byDiscover.GetOr([]) + byHot.GetOr([])
    ensures category == "全部" && (limit.None? || |bySearch| <= limit.value) ==> bySearch <= r
  {
    var collected :=
      if category == "全部" then
        var a := bySearch;
        var b := if |a| < 1000 then a + byDiscover.GetOr([]) else a;
        if |b| < 1000 then b + byHot.GetOr([]) else b
      else byCategory;
    if limit.Some? && |collected| > limit.value then PyTake(collected, limit.value) else collected
  }

  // ---------------------------------------------------------------------------
  // Login cookie

  const LoginSucceeded: int := 803
  const CookieMarker: string := "MUSIC_U="

  /** The text of a cookie after its first `MUSIC_U=`. */
  function AfterMarker(cookie: string): string
    requires Contains(cookie, CookieMarker)
  {
    cookie[Find(cookie, CookieMarker) + |CookieMarker|..]
  }

  /**
   `cookie_str.split('MUSIC_U=')[1].split(';')[0]`: the text after the first
   `MUSIC_U=`, up to the first `;` or the next `MUSIC_U=`, whichever comes
   first, or to the end.
   */
  function CookieValue(cookie: string): (r: string)
    requires Contains(cookie, CookieMarker)
    ensures r <= AfterMarker(cookie)
    ensures !Contains(r, ";") && !Contains(r, CookieMarker)
    ensures var after := AfterMarker(cookie);
            |r| == |after| || after[|r|] == ';' || OccursAt(after, CookieMarker, |r|)
  {
    var after := AfterMarker(cookie);
    var parts := Split(cookie, CookieMarker);
    assert parts[1..] == Split(after, CookieMarker);
    var piece := parts[1];
    SplitHead(after, CookieMarker);
    SplitHead(piece, ";");
    var r := Split(piece, ";")[0];
    PrefixKeepsAbsent(piece, r, CookieMarker);
    r
  }

  /** A prefix of a text without `pat` has no `pat` either. */
  lemma PrefixKeepsAbsent(s: string, p: string, pat: string)
    requires p <= s && !Contains(s, pat)
    ensures !Contains(p, pat)
  {
    if Contains(p, pat) {
      var j := Find(p, pat);
      assert s[..|p|] == p;
      OccursInPrefix(s, pat, |p|, j);
      ContainsIntro(s, pat, j);
    }
  }

  /** Cookie `i` carries `MUSIC_U=` and no later cookie does: the one the loop's last overwrite comes from. */
  ghost predicate LastCarrier(cookies: seq<string>, i: int) {
    && 0 <= i < |cookies| && Contains(cookies[i], CookieMarker)
    && forall j :: i < j < |cookies| ==> !Contains(cookies[j], CookieMarker)
  }

  /** No cookie carries `MUSIC_U=`. */
  ghost predicate NoCarrier(cookies: seq<string>) {
    forall i :: 0 <= i < |cookies| ==> !Contains(cookies[i], CookieMarker)
  }

  /** The cookie loop, from the end: the last cookie that carries `MUSIC_U=` decides. */
  function LastMusicU(cookies: seq<string>): (r: Option<string>)
    ensures r.None? <==> NoCarrier(cookies)
    ensures r.Some? ==> exists i :: LastCarrier(cookies, i) && r.value == CookieValue(cookies[i])
    decreases |cookies|
  {
    if cookies == [] then None
    else
      var last := cookies[|cookies| - 1];
      if Contains(last, CookieMarker) then
        assert LastCarrier(cookies, |cookies| - 1);
        Some(CookieValue(last))
      else
        var init := cookies[..|cookies| - 1];
        var r := LastMusicU(init);
        assert forall i :: 0 <= i < |cookies| - 1 ==> init[i] == cookies[i];
        CarrierOfInit(cookies);
        r
  }

  /** When the last cookie carries no `MUSIC_U=`, the last carrier among the others is the last carrier of all. */
  lemma CarrierOfInit(cookies: seq<string>)
    requires cookies != [] && !Contains(cookies[|cookies| - 1], CookieMarker)
    ensures forall i :: LastCarrier(cookies[..|cookies| - 1], i) ==> LastCarrier(cookies, i)
  {
    var init := cookies[..|cookies| - 1];
    forall i | LastCarrier(init, i)
      ensures LastCarrier(cookies, i)
    {
      assert init[i] == cookies[i];
      forall j | i < j < |cookies|
        ensures !Contains(cookies[j], CookieMarker)
      {
        if j < |cookies| - 1 {
          assert init[j] == cookies[j];
        }
      }
    }
  }

  /**
   The three facts `CookieValue` ensures pin its value down: `MUSIC_U=`
   overlaps itself nowhere and holds no `;`, so two such prefixes of the
   text after the marker cannot differ.
   */
  lemma CookieValueUnique(cookie: string, v: string)
    requires Contains(cookie, CookieMarker)
    requires v <= AfterMarker(cookie) && !Contains(v, ";") && !Contains(v, CookieMarker)
    requires var after := AfterMarker(cookie);
             |v| == |after| || after[|v|] == ';' || OccursAt(after, CookieMarker, |v|)
    ensures v == CookieValue(cookie)
  {
    var after := AfterMarker(cookie);
    var r := CookieValue(cookie);
    if |v| < |r| {
      ShorterStopsLonger(after, v, r);
    } else if |r| < |v| {
      ShorterStopsLonger(after, r, v);
    }
  }

  /**
   Of two prefixes of `after`, each free of `;` and `MUSIC_U=`, a shorter
   one cannot end where the text ends, at a `;`, or at a `MUSIC_U=`.
   */
  lemma ShorterStopsLonger(after: string, p: string, q: string)
    requires p <= after && q <= after && |p| < |q|
    requires !Contains(q, ";") && !Contains(q, CookieMarker)
    requires |q| == |after| || after[|q|] == ';' || OccursAt(after, CookieMarker, |q|)
    ensures !(|p| == |after| || after[|p|] == ';' || OccursAt(after, CookieMarker, |p|))
  {
    var m := CookieMarker;
    assert after[|p|] == q[|p|];
    assert !OccursAt(q, ";", |p|);
    if |p| + |m| <= |q| {
      assert OccursAt(after, m, |p|) ==> OccursAt(q, m, |p|) by {
        assert q[|p|..|p| + |m|] == after[|p|..|p| + |m|];
      }
    } else if |q| < |after| {
      assert after[|q|] == ';' || after[|q|] == m[0];
      assert after[|q|] != m[|q| - |p|];
      assert |p| + |m| <= |after| ==> after[|p|..|p| + |m|][|q| - |p|] == after[|q|];
    }
  }

  /** One more cookie at the end replaces the value iff it carries `MUSIC_U=`. */
  lemma LastMusicUSnoc(init: seq<string>, c: string)
    ensures LastMusicU(init + [c]) == if Contains(c, CookieMarker) then Some(CookieValue(c)) else LastMusicU(init)
  {
    var all := init + [c];
    assert all[|all| - 1] == c;
    assert all[..|all| - 1] == init;
  }

  /** Whatever comes before a cookie that carries `MUSIC_U=` has no say: the later cookie's value wins. */
  lemma {:induction false} LaterCarrierWins(front: seq<string>, back: seq<string>)
    requires !NoCarrier(back)
    ensures LastMusicU(front + back) == LastMusicU(back)
    decreases |back|
  {
    var n := |back| - 1;
    var init, c := back[..n], back[n];
    if !Contains(c, CookieMarker) {
      var k :| 0 <= k < |back| && Contains(back[k], CookieMarker);
      assert k != n;
      assert init[k] == back[k];
      LaterCarrierWins(front, init);
    }
    assert back == init + [c];
    assert front + back == (front + init) + [c];
    LastMusicUSnoc(front + init, c);
    LastMusicUSnoc(init, c);
  }

  /**
   The cookie part of `check_qr_login`: only code 803 fills `MUSIC_U`, from
   the `Set-Cookie` header split at `, `, with the value of the last cookie
   that carries `MUSIC_U=`.
   */
  function ExtractMusicU(code: int, setCookie: string): (r: Option<string>)
    ensures code != LoginSucceeded ==> r.None?
    ensures r.Some? ==> !Contains(r.value, ";") && !Contains(r.value, CookieMarker)
    ensures code == LoginSucceeded ==> (r.None? <==> NoCarrier(Split(setCookie, ", ")))
    ensures r.Some? ==> exists i :: LastCarrier(Split(setCookie, ", "), i) && r.value == CookieValue(Split(setCookie, ", ")[i])
  {
    if code == LoginSucceeded then
      var cookies := Split(setCookie, ", ");
      var r := LastMusicU(cookies);
      assert r.Some? ==> !Contains(r.value, ";") && !Contains(r.value, CookieMarker) by {
        if r.Some? {
          var i :| LastCarrier(cookies, i) && r.value == CookieValue(cookies[i]);
        }
      }
      r
    else None
  }

  /**
   A successful login whose header is one cookie `MUSIC_U=<v>; <attributes>`
   yields exactly `v`, as long as `v` holds no `;` and the attributes hold
   no `, ` and no second `MUSIC_U=`.
   */
  lemma MusicUFromCookie(v: string, attributes: string)
    requires !Contains(v, ";") && !Contains(v + ";" + attributes, CookieMarker)
    requires !Contains(CookieMarker + v + ";" + attributes, ", ")
    ensures ExtractMusicU(LoginSucceeded, CookieMarker + v + ";" + attributes) == Some(v)
  {
    var after := v + ";" + attributes;
    var header := CookieMarker + after;
    assert header == CookieMarker + v + ";" + attributes;
    assert Split(header, ", ") == [header];
    SplitLeading(CookieMarker, after);
    assert Split(after, CookieMarker) == [after];
    SplitFirst(v, ";", attributes);
  }
}
