/**
 Shared vocabulary: an Option type and the handful of Python `str`/`list`
 operations the modelled code relies on (`in`, `find`, `split`, `strip`,
 `lower`, `isdigit`, slicing), each restricted to ASCII where Python's
 definition depends on Unicode tables.
 */
module Common {

  datatype Option<+T> = None | Some(value: T) {
    function GetOr(default: T): T {
      match this
      case Some(v) => v
      case None => default
    }
  }

  // ---------------------------------------------------------------------------
  // Sequences

  /** Python's `xs[:k]` for any integer `k`; a negative `k` counts from the end. */
  function PyTake<T>(xs: seq<T>, k: int): (r: seq<T>)
    ensures r <= xs
    ensures 0 <= k ==> |r| == if k < |xs| then k else |xs|
    ensures k < 0 ==> |r| == if |xs| + k > 0 then |xs| + k else 0
  {
    if 0 <= k then (if k < |xs| then xs[..k] else xs)
    else if |xs| + k > 0 then xs[..|xs| + k]
    else []
  }

  /** `xs` is obtained from `ys` by deleting some elements, keeping the order. */
  ghost predicate IsSubsequence<T>(xs: seq<T>, ys: seq<T>)
    decreases |ys|
  {
    if xs == [] then true
    else if ys == [] then false
    else if xs[0] == ys[0] then IsSubsequence(xs[1..], ys[1..])
    else IsSubsequence(xs, ys[1..])
  }

  lemma {:induction false} SubsequenceRefl<T>(xs: seq<T>)
    ensures IsSubsequence(xs, xs)
    decreases |xs|
  {
    if xs != [] {
      SubsequenceRefl(xs[1..]);
    }
  }

  /** Deleting from `ys` and then from `ws` deletes from `ys + ws`. */
  lemma {:induction false} SubsequenceConcat<T>(xs: seq<T>, ys: seq<T>, vs: seq<T>, ws: seq<T>)
    requires IsSubsequence(xs, ys) && IsSubsequence(vs, ws)
    ensures IsSubsequence(xs + vs, ys + ws)
    decreases |ys|
  {
    if xs == [] {
      assert xs + vs == vs;
      SubsequenceSuffix(vs, ys, ws);
    } else {
      assert ys != [];
      assert (ys + ws)[1..] == ys[1..] + ws;
      if xs[0] == ys[0] {
        SubsequenceConcat(xs[1..], ys[1..], vs, ws);
        assert (xs + vs)[1..] == xs[1..] + vs;
      } else {
        SubsequenceConcat(xs, ys[1..], vs, ws);
      }
    }
  }

  /** Anything deleted from `ws` is also deleted from a longer `ys + ws`. */
  lemma {:induction false} SubsequenceSuffix<T>(vs: seq<T>, ys: seq<T>, ws: seq<T>)
    requires IsSubsequence(vs, ws)
    ensures IsSubsequence(vs, ys + ws)
    decreases |ys|
  {
    if ys != [] {
      SubsequenceSuffix(vs, ys[1..], ws);
      assert [ys[0]] + (ys[1..] + ws) == ys + ws;
      SubsequenceCons(vs, ys[0], ys[1..] + ws);
    } else {
      assert ys + ws == ws;
    }
  }

  /** A subsequence of `zs` is a subsequence of `[x] + zs`. */
  lemma {:induction false} SubsequenceCons<T>(xs: seq<T>, x: T, zs: seq<T>)
    requires IsSubsequence(xs, zs)
    ensures IsSubsequence(xs, [x] + zs)
    decreases |zs|, 1
  {
    assert ([x] + zs)[1..] == zs;
    if xs != [] && xs[0] == x {
      SubsequenceTail(xs, zs);
    }
  }

  /** Dropping the first element of a subsequence keeps it a subsequence. */
  lemma {:induction false} SubsequenceTail<T>(xs: seq<T>, zs: seq<T>)
    requires xs != [] && IsSubsequence(xs, zs)
    ensures IsSubsequence(xs[1..], zs)
    decreases |zs|, 0
  {
    if xs[0] == zs[0] {
      SubsequenceCons(xs[1..], zs[0], zs[1..]);
    } else {
      SubsequenceTail(xs, zs[1..]);
      SubsequenceCons(xs[1..], zs[0], zs[1..]);
    }
    assert [zs[0]] + zs[1..] == zs;
  }

  // ---------------------------------------------------------------------------
  // Characters

  predicate IsAsciiDigit(c: char) {
    '0' <= c <= '9'
  }

  /** Python's `str.isdigit()` on ASCII text: nonempty and every character a digit. */
  predicate IsDigits(s: string) {
    |s| > 0 && forall i :: 0 <= i < |s| ==> IsAsciiDigit(s[i])
  }

  /** The characters Python's argument-less `strip()` removes, restricted to ASCII. */
  predicate IsSpace(c: char) {
    c == ' ' || ('\t' <= c <= '\r') || ('\U{001C}' <= c <= '\U{001F}')
  }

  /** The nine characters `<>:"/\|?*` that Windows forbids in file names. */
  predicate IsReservedChar(c: char) {
    c == '<' || c == '>' || c == ':' || c == '"' || c == '/' || c == '\\' || c == '|' || c == '?' || c == '*'
  }

  function LowerChar(c: char): (r: char)
    ensures 'A' <= c <= 'Z' ==> r as int == c as int + 32
    ensures !('A' <= c <= 'Z') ==> r == c
  {
    if 'A' <= c <= 'Z' then (c as int + 32) as char else c
  }

  /** Python's `str.lower()` on ASCII letters; every other character is kept. */
  function Lower(s: string): (r: string)
    ensures |r| == |s|
    ensures forall i :: 0 <= i < |s| ==> r[i] == LowerChar(s[i])
  {
    seq(|s|, i requires 0 <= i < |s| => LowerChar(s[i]))
  }

  lemma LowerSlice(s: string, i: int, j: int)
    requires 0 <= i <= j <= |s|
    ensures Lower(s[i..j]) == Lower(s)[i..j]
  {
  }

  /** Every character of `s` for which `bad` holds becomes `sub` (`re.sub("[...]", sub, s)`). */
  function ReplaceChars(s: string, bad: char -> bool, sub: char): (r: string)
    ensures |r| == |s|
    ensures forall i :: 0 <= i < |s| ==> r[i] == if bad(s[i]) then sub else s[i]
  {
    seq(|s|, i requires 0 <= i < |s| => if bad(s[i]) then sub else s[i])
  }

  /** `''.join(c for c in s if c not in bad)`. */
  function RemoveChars(s: string, bad: char -> bool): (r: string)
    ensures |r| <= |s|
    ensures forall i :: 0 <= i < |r| ==> !bad(r[i])
    ensures forall c :: c in s && !bad(c) ==> c in r
    ensures forall c :: c in r ==> c in s
  {
    if s == [] then []
    else if bad(s[0]) then RemoveChars(s[1..], bad)
    else [s[0]] + RemoveChars(s[1..], bad)
  }

  /** Removing characters that do not occur changes nothing. */
  lemma {:induction false} RemoveNothing(s: string, bad: char -> bool)
    requires forall i :: 0 <= i < |s| ==> !bad(s[i])
    ensures RemoveChars(s, bad) == s
  {
    if s != [] {
      RemoveNothing(s[1..], bad);
    }
  }

  // ---------------------------------------------------------------------------
  // Stripping

  /** Python's `s.lstrip(chars)`, with the character set given as a predicate. */
  function TrimLeft(s: string, drop: char -> bool): (r: string)
    ensures |r| <= |s| && r == s[|s| - |r|..]
    ensures |r| > 0 ==> !drop(r[0])
  {
    if s != [] && drop(s[0]) then TrimLeft(s[1..], drop) else s
  }

  /** `lstrip` removes only characters in the set, so its result is the longest such suffix. */
  lemma {:induction false} TrimLeftRemovesOnly(s: string, drop: char -> bool)
    ensures forall i :: 0 <= i < |s| - |TrimLeft(s, drop)| ==> drop(s[i])
    decreases |s|
  {
    if s != [] && drop(s[0]) {
      TrimLeftRemovesOnly(s[1..], drop);
    }
  }

  /** Python's `s.rstrip(chars)`. */
  function TrimRight(s: string, drop: char -> bool): (r: string)
    ensures |r| <= |s| && r == s[..|r|]
    ensures |r| > 0 ==> !drop(r[|r| - 1])
  {
    if s != [] && drop(s[|s| - 1]) then TrimRight(s[..|s| - 1], drop) else s
  }

  /** `rstrip` removes only characters in the set, so its result is the longest such prefix. */
  lemma {:induction false} TrimRightRemovesOnly(s: string, drop: char -> bool)
    ensures forall i :: |TrimRight(s, drop)| <= i < |s| ==> drop(s[i])
    decreases |s|
  {
    if s != [] && drop(s[|s| - 1]) {
      TrimRightRemovesOnly(s[..|s| - 1], drop);
    }
  }

  /** Python's `s.strip(chars)`: the longest infix with no end character in the set. */
  function Strip(s: string, drop: char -> bool): (r: string)
    ensures |r| <= |s|
    ensures |r| > 0 ==> !drop(r[0]) && !drop(r[|r| - 1])
    ensures var k := |s| - |TrimLeft(s, drop)|; 0 <= k && k + |r| <= |s| && r == s[k..k + |r|]
  {
    StripSuffix(s, TrimLeft(s, drop), drop)
  }

  /** The right strip of a left-stripped suffix `l` of `s`, as an infix of `s`. */
  function StripSuffix(s: string, l: string, drop: char -> bool): (r: string)
    requires |l| <= |s| && l == s[|s| - |l|..]
    requires |l| > 0 ==> !drop(l[0])
    ensures |r| <= |l|
    ensures |r| > 0 ==> !drop(r[0]) && !drop(r[|r| - 1])
    ensures r == s[|s| - |l|..|s| - |l| + |r|]
  {
    var t := TrimRight(l, drop);
    InfixOfSuffix(s, l, t, drop);
    t
  }

  /** A prefix of a suffix is an infix, and keeps the suffix's first character. */
  lemma InfixOfSuffix(s: string, l: string, r: string, drop: char -> bool)
    requires |l| <= |s| && l == s[|s| - |l|..]
    requires |l| > 0 ==> !drop(l[0])
    requires |r| <= |l| && r == l[..|r|]
    requires |r| > 0 ==> !drop(r[|r| - 1])
    ensures |r| <= |s|
    ensures r == s[|s| - |l|..|s| - |l| + |r|]
    ensures |r| > 0 ==> !drop(r[0]) && !drop(r[|r| - 1])
  {
    if |r| > 0 {
      assert r[0] == l[0];
    }
  }

  /** Stripping keeps only characters of the original. */
  lemma StripMembers(s: string, drop: char -> bool)
    ensures forall c :: c in Strip(s, drop) ==> c in s
  {
    var r := Strip(s, drop);
    InfixMembers(s, |s| - |TrimLeft(s, drop)|, |r|);
  }

  /** Every character of an infix occurs in the whole. */
  lemma InfixMembers(s: string, k: int, n: int)
    requires 0 <= k && 0 <= n && k + n <= |s|
    ensures forall c :: c in s[k..k + n] ==> c in s
  {
    forall c | c in s[k..k + n]
      ensures c in s
    {
      var i :| 0 <= i < n && s[k..k + n][i] == c;
      assert s[k + i] == c;
    }
  }

  /** The stripped text occurs in the original where the left strip ends. */
  lemma StripOccurs(s: string, drop: char -> bool)
    ensures OccursAt(s, Strip(s, drop), |s| - |TrimLeft(s, drop)|)
  {
  }


  /** Everything `i` outside the infix `s[k..k + n]` is a character to drop. */
  ghost predicate DroppedOutside(s: string, drop: char -> bool, k: int, n: int) {
    forall i :: 0 <= i < |s| && (i < k || k + n <= i) ==> drop(s[i])
  }

  /** `strip` removes only characters in the set: the kept infix is bordered by dropped characters alone. */
  lemma StripRemovesOnly(s: string, drop: char -> bool)
    ensures DroppedOutside(s, drop, |s| - |TrimLeft(s, drop)|, |Strip(s, drop)|)
  {
    var l := TrimLeft(s, drop);
    var k := |s| - |l|;
    var r := Strip(s, drop);
    TrimLeftRemovesOnly(s, drop);
    TrimRightRemovesOnly(l, drop);
    assert r == TrimRight(l, drop);
    assert forall j :: |r| <= j < |l| ==> drop(l[j]);
    assert forall i :: k <= i < |s| ==> s[i] == l[i - k];
  }

  /** What `strip` keeps is an infix bordered only by characters to drop. */
  lemma StripIsBorderedInfix(s: string, drop: char -> bool)
    ensures exists k :: OccursAt(s, Strip(s, drop), k) && DroppedOutside(s, drop, k, |Strip(s, drop)|)
  {
    StripRemovesOnly(s, drop);
    StripOccurs(s, drop);
  }

  /** `strip` leaves nothing exactly when every character is one to drop. */
  lemma StripEmptyIff(s: string, drop: char -> bool)
    ensures Strip(s, drop) == [] <==> forall i :: 0 <= i < |s| ==> drop(s[i])
  {
    var k := |s| - |TrimLeft(s, drop)|;
    var r := Strip(s, drop);
    StripRemovesOnly(s, drop);
    if r != [] {
      assert r[0] == s[k];
    }
  }

  /** Stripping a string whose ends are already kept changes nothing. */
  lemma StripNoop(s: string, drop: char -> bool)
    requires |s| > 0 ==> !drop(s[0]) && !drop(s[|s| - 1])
    ensures Strip(s, drop) == s
  {
  }

  // ---------------------------------------------------------------------------
  // Searching and splitting

  /** `pat` occurs in `s` starting at index `i`. */
  predicate OccursAt(s: string, pat: string, i: int) {
    0 <= i && i + |pat| <= |s| && s[i..i + |pat|] == pat
  }

  function FindFrom(s: string, pat: string, start: nat): (r: int)
    ensures r == -1 || (start <= r && OccursAt(s, pat, r))
    ensures r >= 0 ==> forall j :: start <= j < r ==> !OccursAt(s, pat, j)
    ensures r == -1 ==> forall j :: start <= j ==> !OccursAt(s, pat, j)
    decreases |s| - start
  {
    if start + |pat| > |s| then -1
    else if s[start..start + |pat|] == pat then start
    else FindFrom(s, pat, start + 1)
  }

  /** Python's `s.find(pat)`: the first index where `pat` occurs, or -1. */
  function Find(s: string, pat: string): (r: int)
    ensures r == -1 || OccursAt(s, pat, r)
    ensures r >= 0 ==> forall j :: 0 <= j < r ==> !OccursAt(s, pat, j)
    ensures r == -1 <==> forall j :: !OccursAt(s, pat, j)
  {
    FindFrom(s, pat, 0)
  }

  /** Python's `pat in s`. */
  predicate Contains(s: string, pat: string) {
    Find(s, pat) >= 0
  }

  lemma ContainsIntro(s: string, pat: string, i: int)
    requires OccursAt(s, pat, i)
    ensures Contains(s, pat)
  {
  }

  /** An occurrence inside an occurrence is an occurrence. */
  lemma OccursWithin(s: string, p: string, q: string, k: int, j: int)
    requires OccursAt(s, p, k) && OccursAt(p, q, j)
    ensures OccursAt(s, q, k + j)
  {
    assert forall i :: 0 <= i < |q| ==> q[i] == p[j + i] == s[k + j + i];
  }

  /** Lower-casing keeps occurrences where they are. */
  lemma OccursLower(s: string, q: string, j: int)
    requires OccursAt(s, q, j)
    ensures OccursAt(Lower(s), Lower(q), j)
  {
    LowerSlice(s, j, j + |q|);
  }

  /** Text that matches `name` up to case and occurs in `s` makes `name` a substring of `s` up to case. */
  lemma ContainsIgnoringCase(s: string, q: string, name: string, m: int)
    requires OccursAt(s, q, m) && Lower(q) == Lower(name)
    ensures Contains(Lower(s), Lower(name))
  {
    OccursLower(s, q, m);
    ContainsIntro(Lower(s), Lower(q), m);
  }

  /** Text matching `name` up to case inside an occurrence inside `s` makes `name` a substring of `s` up to case. */
  lemma NestedIgnoringCase(s: string, p: string, q: string, name: string, k: int, j: int)
    requires OccursAt(s, p, k) && OccursAt(p, q, j) && Lower(q) == Lower(name)
    ensures Contains(Lower(s), Lower(name))
  {
    OccursWithin(s, p, q, k, j);
    ContainsIgnoringCase(s, q, name, k + j);
  }

  /** A substring of a prefix of `s` is a substring of `s`. */
  lemma OccursInPrefix(s: string, pat: string, n: int, j: int)
    requires 0 <= n <= |s|
    requires OccursAt(s[..n], pat, j)
    ensures OccursAt(s, pat, j) && j + |pat| <= n
  {
    assert s[..n][j..j + |pat|] == s[j..j + |pat|];
  }

  lemma OccursInSuffix(s: string, pat: string, n: int, j: int)
    requires 0 <= n <= |s|
    requires OccursAt(s[n..], pat, j)
    ensures OccursAt(s, pat, n + j)
  {
    assert s[n..][j..j + |pat|] == s[n + j..n + j + |pat|];
  }

  /** The text of `s` with `sep` put between consecutive parts. */
  function Join(parts: seq<string>, sep: string): string
    decreases |parts|
  {
    if |parts| == 0 then ""
    else if |parts| == 1 then parts[0]
    else parts[0] + sep + Join(parts[1..], sep)
  }

  /**
   Python's `s.split(sep)` for a nonempty separator: the parts, read left to
   right, glue back to `s` and none of them contains the separator.
   */
  function Split(s: string, sep: string): (parts: seq<string>)
    requires |sep| > 0
    ensures |parts| >= 1
    ensures Join(parts, sep) == s
    ensures forall i :: 0 <= i < |parts| ==> !Contains(parts[i], sep)
    ensures !Contains(s, sep) ==> parts == [s]
    ensures Contains(s, sep) ==> parts[0] == s[..Find(s, sep)]
    decreases |s|
  {
    var i := Find(s, sep);
    if i < 0 then [s]
    else
      var head := s[..i];
      var rest := Split(s[i + |sep|..], sep);
      NothingBeforeFirst(s, sep);
      JoinCons(head, rest, sep);
      PartsCons(head, rest, sep);
      ThreeParts(s, i, i + |sep|);
      [head] + rest
  }

  /** Cutting `s` at `i` and `j` and gluing the pieces back gives `s`. */
  lemma ThreeParts(s: string, i: int, j: int)
    requires 0 <= i <= j <= |s|
    ensures s[..i] + s[i..j] + s[j..] == s
  {
    assert s[..i] + s[i..j] == s[..j];
    assert s[..j] + s[j..] == s;
  }

  lemma PartsCons(head: string, rest: seq<string>, sep: string)
    requires !Contains(head, sep)
    requires forall i :: 0 <= i < |rest| ==> !Contains(rest[i], sep)
    ensures forall i :: 0 <= i < |[head] + rest| ==> !Contains(([head] + rest)[i], sep)
  {
    forall i | 0 < i < |[head] + rest|
      ensures ([head] + rest)[i] == rest[i - 1]
    {
    }
  }

  lemma JoinCons(head: string, rest: seq<string>, sep: string)
    requires |rest| >= 1
    ensures Join([head] + rest, sep) == head + sep + Join(rest, sep)
  {
    assert ([head] + rest)[1..] == rest;
  }

  /** Every piece of `s.split(sep)` occurs in `s`. */
  lemma {:induction false} SplitPartsOccur(s: string, sep: string, i: int)
    requires |sep| > 0 && 0 <= i < |Split(s, sep)|
    ensures exists k :: OccursAt(s, Split(s, sep)[i], k)
    decreases |s|
  {
    var f := Find(s, sep);
    if f < 0 {
      assert OccursAt(s, s, 0);
    } else if i == 0 {
      assert OccursAt(s, s[..f], 0);
    } else {
      var tail := s[f + |sep|..];
      assert Split(s, sep)[i] == Split(tail, sep)[i - 1];
      SplitPartsOccur(tail, sep, i - 1);
      var k :| OccursAt(tail, Split(tail, sep)[i - 1], k);
      OccursInSuffix(s, Split(tail, sep)[i - 1], f + |sep|, k);
    }
  }

  /** The first piece of a split is a prefix that ends where the first separator starts. */
  lemma SplitHead(s: string, sep: string)
    requires |sep| > 0
    ensures var p := Split(s, sep)[0];
            p <= s && (|p| < |s| ==> s[|p|..|p| + |sep|] == sep)
  {
    if Contains(s, sep) {
      var i := Find(s, sep);
      assert OccursAt(s, sep, i);
    }
  }

  /** The text before the first occurrence of `sep` does not contain `sep`. */
  lemma NothingBeforeFirst(s: string, sep: string)
    requires |sep| > 0 && Find(s, sep) >= 0
    ensures !Contains(s[..Find(s, sep)], sep)
  {
    var i := Find(s, sep);
    forall j | 0 <= j
      ensures !OccursAt(s[..i], sep, j)
    {
      if OccursAt(s[..i], sep, j) {
        OccursInPrefix(s, sep, i, j);
      }
    }
  }

  /** The first piece of `s.split(sep)`: the text before the first `sep`, or all of `s`. */
  function Before(s: string, sep: string): (r: string)
    requires |sep| > 0
    ensures !Contains(r, sep)
    ensures r <= s
    ensures !Contains(s, sep) ==> r == s
  {
    var i := Find(s, sep);
    if i < 0 then s
    else
      NothingBeforeFirst(s, sep);
      s[..i]
  }

  lemma BeforeIsFirstSplit(s: string, sep: string)
    requires |sep| > 0
    ensures Split(s, sep)[0] == Before(s, sep)
  {
  }

  // ---------------------------------------------------------------------------
  // Numbers as text

  function DigitChar(d: nat): (c: char)
    requires d < 10
    ensures IsAsciiDigit(c)
  {
    ('0' as int + d) as char
  }

  /** Python's `str(n)` for a natural number. */
  function NatToString(n: nat): (r: string)
    ensures IsDigits(r)
  {
    if n < 10 then [DigitChar(n)] else NatToString(n / 10) + [DigitChar(n % 10)]
  }

  /** Python's `str(i)` for an integer. */
  function IntToString(i: int): (r: string)
    ensures |r| > 0
    ensures forall k :: 0 <= k < |r| ==> IsAsciiDigit(r[k]) || r[k] == '-'
  {
    if i < 0 then "-" + NatToString(-i) else NatToString(i)
  }
}
