/**
  Python string primitives the source relies on, stated over `seq<char>`:
  `str.strip`, `str.lower` (ASCII letters), `startswith`/`endswith`, `in`,
  `find`/`rfind`, `replace`, `split` and `join`.
*/
module Strings {
  import opened Wrappers

  /** The characters Python's `str.isspace` (and so `strip()`, `split()` and regex `\s`) treats as whitespace. */
  predicate IsSpace(c: char) {
    var n := c as int;
    n == 0x20 || (0x09 <= n <= 0x0D) || (0x1C <= n <= 0x1F) || n == 0x85 || n == 0xA0
    || n == 0x1680 || (0x2000 <= n <= 0x200A) || n == 0x2028 || n == 0x2029
    || n == 0x202F || n == 0x205F || n == 0x3000
  }

  predicate IsDigit(c: char) {
    '0' <= c <= '9'
  }

  predicate IsAsciiLetter(c: char) {
    ('a' <= c <= 'z') || ('A' <= c <= 'Z')
  }

  /** A character of the class `[a-z0-9]`. */
  predicate IsLowerAlnum(c: char) {
    ('a' <= c <= 'z') || IsDigit(c)
  }

  function LowerChar(c: char): (r: char)
    ensures 'A' <= c <= 'Z' ==> r as int == c as int + 32
    ensures !('A' <= c <= 'Z') ==> r == c
    ensures !('A' <= r <= 'Z')
  {
    if 'A' <= c <= 'Z' then (c as int + 32) as char else c
  }

  /** `s.lower()` restricted to ASCII letters. */
  function Lower(s: string): (r: string)
    ensures |r| == |s|
    ensures forall i :: 0 <= i < |s| ==> r[i] == LowerChar(s[i])
  {
    seq(|s|, i requires 0 <= i < |s| => LowerChar(s[i]))
  }

  predicate AllSpace(s: string) {
    forall i :: 0 <= i < |s| ==> IsSpace(s[i])
  }

  /** `s.lstrip()`: the suffix left after dropping leading whitespace. */
  function TrimLeft(s: string): (r: string)
    ensures |r| <= |s| && r == s[|s| - |r|..]
    ensures AllSpace(s[..|s| - |r|])
    ensures r == [] || !IsSpace(r[0])
  {
    if |s| > 0 && IsSpace(s[0]) then
      var r := TrimLeft(s[1..]);
      TrimLeftCons(s, r);
      r
    else s
  }

  /** Dropping one more leading space keeps the suffix and the all-space prefix. */
  lemma TrimLeftCons(s: string, r: string)
    requires |s| > 0 && IsSpace(s[0])
    requires |r| <= |s| - 1 && r == s[1..][|s| - 1 - |r|..] && AllSpace(s[1..][..|s| - 1 - |r|])
    ensures r == s[|s| - |r|..] && AllSpace(s[..|s| - |r|])
  {
    assert s[1..][|s| - 1 - |r|..] == s[|s| - |r|..];
    forall i | 0 <= i < |s| - |r|
      ensures IsSpace(s[i])
    {
      if i > 0 {
        assert s[i] == s[1..][..|s| - 1 - |r|][i - 1];
      }
    }
  }

  /** `s.rstrip()`: the prefix left after dropping trailing whitespace. */
  function TrimRight(s: string): (r: string)
    ensures |r| <= |s| && r == s[..|r|]
    ensures AllSpace(s[|r|..])
    ensures r == [] || !IsSpace(r[|r| - 1])
  {
    if |s| > 0 && IsSpace(s[|s| - 1]) then
      var r := TrimRight(s[..|s| - 1]);
      assert AllSpace(s[|r|..]) by {
        forall i | |r| <= i < |s|
          ensures IsSpace(s[i])
        {
          if i < |s| - 1 {
            assert s[i] == s[..|s| - 1][|r|..][i - |r|];
          }
        }
      }
      r
    else s
  }

  /** `s.strip()`. */
  function Trim(s: string): (r: string)
    ensures |r| <= |s|
    ensures r == [] || (!IsSpace(r[0]) && !IsSpace(r[|r| - 1]))
    ensures r == [] <==> AllSpace(s)
  {
    var l := TrimLeft(s);
    var r := TrimRight(l);
    assert r == [] ==> AllSpace(s) by {
      if r == [] {
        assert s == s[..|s| - |l|] + l;
        assert AllSpace(l[|r|..]);
      }
    }
    r
  }

  /** The non-space characters of a string survive `strip`, and no other characters appear. */
  lemma TrimChars(s: string)
    ensures forall x :: x in Trim(s) ==> x in s
    ensures forall i :: 0 <= i < |s| && !IsSpace(s[i]) ==> s[i] in Trim(s)
  {
    TrimSubset(s);
    TrimKeeps(s);
  }

  lemma TrimSubset(s: string)
    ensures forall x :: x in Trim(s) ==> x in s
  {
    var l := TrimLeft(s);
    assert Trim(s) == TrimRight(l) == l[..|TrimRight(l)|];
    assert l == s[|s| - |l|..];
  }

  lemma TrimKeeps(s: string)
    ensures forall i :: 0 <= i < |s| && !IsSpace(s[i]) ==> s[i] in Trim(s)
  {
    TrimLeftKeeps(s);
    TrimRightKeeps(TrimLeft(s));
    forall i | 0 <= i < |s| && !IsSpace(s[i])
      ensures s[i] in Trim(s)
    {
      assert s[i] in s;
    }
  }

  lemma {:induction false} TrimLeftKeeps(s: string)
    ensures forall x :: x in s && !IsSpace(x) ==> x in TrimLeft(s)
  {
    if |s| > 0 && IsSpace(s[0]) {
      TrimLeftKeeps(s[1..]);
      assert s == [s[0]] + s[1..];
    }
  }

  lemma {:induction false} TrimRightKeeps(s: string)
    ensures forall x :: x in s && !IsSpace(x) ==> x in TrimRight(s)
  {
    if |s| > 0 && IsSpace(s[|s| - 1]) {
      TrimRightKeeps(s[..|s| - 1]);
      assert s == s[..|s| - 1] + [s[|s| - 1]];
    }
  }

  /** Stripping a string without whitespace changes nothing. */
  lemma NoSpaceTrim(s: string)
    requires forall i :: 0 <= i < |s| ==> !IsSpace(s[i])
    ensures Trim(s) == s
  {
    assert TrimLeft(s) == s;
    assert TrimRight(s) == s;
  }

  /** Stripping a string whose ends are not whitespace changes nothing. */
  lemma NoEdgeSpaceTrim(s: string)
    requires s != [] && !IsSpace(s[0]) && !IsSpace(s[|s| - 1])
    ensures Trim(s) == s
  {
    assert TrimLeft(s) == s;
    assert TrimRight(s) == s;
  }

  /** `strip` is idempotent, and a non-blank string stays non-blank. */
  lemma TrimTwice(s: string)
    ensures Trim(Trim(s)) == Trim(s)
    ensures IsBlank(Trim(s)) <==> IsBlank(s)
  {
    if Trim(s) != [] {
      NoEdgeSpaceTrim(Trim(s));
    }
  }

  /** Leading whitespace before a non-space character is exactly what `lstrip` drops. */
  lemma TrimLeftPadded(pre: string, x: string)
    requires AllSpace(pre) && x != [] && !IsSpace(x[0])
    ensures TrimLeft(pre + x) == x
  {
    var s := pre + x;
    assert s[|pre|..] == x;
  }

  /** Trailing whitespace after a non-space character is exactly what `rstrip` drops. */
  lemma TrimRightPadded(x: string, post: string)
    requires AllSpace(post) && x != [] && !IsSpace(x[|x| - 1])
    ensures TrimRight(x + post) == x
  {
    var s := x + post;
    assert s[..|x|] == x;
  }

  /** `strip()` removes exactly the whitespace padding around a string whose ends are not whitespace. */
  lemma TrimPadded(pre: string, t: string, post: string)
    requires AllSpace(pre) && AllSpace(post)
    requires t != [] && !IsSpace(t[0]) && !IsSpace(t[|t| - 1])
    ensures Trim(pre + t + post) == t
  {
    assert pre + t + post == pre + (t + post);
    TrimLeftPadded(pre, t + post);
    TrimRightPadded(t, post);
  }

  /** `not s.strip()`: the string is empty or whitespace only. */
  predicate IsBlank(s: string) {
    Trim(s) == []
  }

  predicate StartsWith(s: string, prefix: string) {
    |prefix| <= |s| && s[..|prefix|] == prefix
  }

  predicate EndsWith(s: string, suffix: string) {
    |suffix| <= |s| && s[|s| - |suffix|..] == suffix
  }

  /** `sub` occurs in `s` starting at index `i`. */
  predicate OccursAt(s: string, sub: string, i: int) {
    0 <= i && i + |sub| <= |s| && s[i..i + |sub|] == sub
  }

  /** An occurrence fixes the characters it covers. */
  lemma OccursAtChar(s: string, sub: string, i: int, k: int)
    ensures OccursAt(s, sub, i) && 0 <= k < |sub| ==> s[i + k] == sub[k]
  {
    if OccursAt(s, sub, i) && 0 <= k < |sub| {
      assert s[i + k] == s[i..i + |sub|][k];
    }
  }

  /** A string opens every concatenation it heads. */
  lemma StartsWithConcat(p: string, q: string)
    ensures StartsWith(p + q, p)
  {
    assert (p + q)[..|p|] == p;
  }

  /** An occurrence survives putting text in front, shifted by that text's length. */
  lemma OccursAtShift(a: string, b: string, sub: string, k: int)
    requires OccursAt(b, sub, k)
    ensures OccursAt(a + b, sub, |a| + k)
  {
    assert (a + b)[|a| + k..|a| + k + |sub|] == b[k..k + |sub|];
  }

  /** `''.join(f(x) for x in xs)`. */
  function ConcatMap<T>(xs: seq<T>, f: T -> string): string {
    if |xs| == 0 then "" else f(xs[0]) + ConcatMap(xs[1..], f)
  }

  /** The text of every item occurs in the joined text, at some offset. */
  lemma {:induction false} ConcatMapAt<T>(xs: seq<T>, f: T -> string, i: nat) returns (at: nat)
    requires i < |xs|
    ensures OccursAt(ConcatMap(xs, f), f(xs[i]), at)
    decreases |xs|
  {
    var head := f(xs[0]);
    var tail := ConcatMap(xs[1..], f);
    if i == 0 {
      at := 0;
      StartsWithConcat(head, tail);
    } else {
      assert xs[1..][i - 1] == xs[i];
      var k := ConcatMapAt(xs[1..], f, i - 1);
      OccursAtShift(head, tail, f(xs[i]), k);
      at := |head| + k;
    }
  }

  /** Python's `sub in s`. */
  predicate Contains(s: string, sub: string) {
    exists i :: 0 <= i <= |s| - |sub| && OccursAt(s, sub, i)
  }

  /** `s.find(sub, from)`: the first occurrence at or after `from`, or -1. */
  function Find(s: string, sub: string, from: nat): (r: int)
    ensures r == -1 || (from <= r && OccursAt(s, sub, r))
    ensures r >= 0 ==> forall i :: from <= i < r ==> !OccursAt(s, sub, i)
    ensures r == -1 ==> forall i :: from <= i ==> !OccursAt(s, sub, i)
    decreases |s| - from
  {
    if from + |sub| > |s| then -1
    else if s[from..from + |sub|] == sub then from
    else Find(s, sub, from + 1)
  }

  lemma FindContains(s: string, sub: string)
    ensures Contains(s, sub) <==> Find(s, sub, 0) >= 0
  {
    if Find(s, sub, 0) >= 0 {
      assert OccursAt(s, sub, Find(s, sub, 0));
    }
  }

  /** Find returns the first occurrence at or after `from`. */
  lemma FindFirst(s: string, sub: string, from: nat, p: nat)
    requires from <= p && OccursAt(s, sub, p)
    requires forall i :: from <= i < p ==> !OccursAt(s, sub, i)
    ensures Find(s, sub, from) == p
  {
  }

  /** Find returns -1 when nothing occurs at or after `from`. */
  lemma FindNone(s: string, sub: string, from: nat)
    requires forall i :: from <= i ==> !OccursAt(s, sub, i)
    ensures Find(s, sub, from) == -1
  {
  }

  /** `s.rfind(c)` for a single character: the last index holding `c`, or -1. */
  function RFindChar(s: string, c: char): (r: int)
    ensures -1 <= r < |s|
    ensures r >= 0 ==> s[r] == c
    ensures forall i :: r < i < |s| ==> s[i] != c
  {
    if |s| == 0 then -1
    else if s[|s| - 1] == c then |s| - 1
    else RFindChar(s[..|s| - 1], c)
  }

  /** `s.replace(c, t)` for a one-character pattern. */
  function ReplaceChar(s: string, c: char, t: string): (r: string)
    ensures c !in s ==> r == s
    ensures c !in t ==> c !in r
    ensures forall x :: x in r ==> x in s || x in t
  {
    if |s| == 0 then []
    else (if s[0] == c then t else [s[0]]) + ReplaceChar(s[1..], c, t)
  }

  /** Replacing a character acts on each part of a concatenation separately. */
  lemma {:induction false} ReplaceCharAppend(a: string, b: string, c: char, t: string)
    ensures ReplaceChar(a + b, c, t) == ReplaceChar(a, c, t) + ReplaceChar(b, c, t)
    decreases |a|
  {
    if |a| > 0 {
      assert (a + b)[1..] == a[1..] + b;
      ReplaceCharAppend(a[1..], b, c, t);
    } else {
      assert a + b == b;
    }
  }

  /**
    Splitting at every character satisfying `isDelim` (Python's `s.split(c)`
    for a one-character separator): the pieces between delimiters, empty ones included.
  */
  function SplitBy(s: string, isDelim: char -> bool): (parts: seq<string>)
    ensures |parts| >= 1
    ensures forall i :: 0 <= i < |parts| ==> forall x :: x in parts[i] ==> !isDelim(x)
    ensures forall i :: 0 <= i < |parts| ==> forall x :: x in parts[i] ==> x in s
  {
    if |s| == 0 then [""]
    else if isDelim(s[0]) then [""] + SplitBy(s[1..], isDelim)
    else
      var rest := SplitBy(s[1..], isDelim);
      [[s[0]] + rest[0]] + rest[1..]
  }

  /** `sep.join(parts)`. */
  function Join(sep: string, parts: seq<string>): string {
    if |parts| == 0 then ""
    else if |parts| == 1 then parts[0]
    else parts[0] + sep + Join(sep, parts[1..])
  }

  /** Splitting at a delimiter and joining with it again gives back the string. */
  lemma {:induction false} SplitByJoin(s: string, c: char)
    ensures Join([c], SplitBy(s, x => x == c)) == s
  {
    if |s| == 0 {
    } else if s[0] == c {
      SplitByJoin(s[1..], c);
      var rest := SplitBy(s[1..], x => x == c);
      assert SplitBy(s, x => x == c) == [""] + rest;
      assert ([""] + rest)[1..] == rest;
    } else {
      SplitByJoin(s[1..], c);
      var rest := SplitBy(s[1..], x => x == c);
      var parts := [[s[0]] + rest[0]] + rest[1..];
      assert SplitBy(s, x => x == c) == parts;
      if |rest| == 1 {
        assert parts == [[s[0]] + rest[0]];
      } else {
        assert parts[1..] == rest[1..];
        assert Join([c], parts) == [s[0]] + rest[0] + [c] + Join([c], rest[1..]);
      }
    }
  }

  /** A piece without the delimiter is one part. */
  lemma {:induction false} SplitByNoDelim(a: string, c: char)
    requires c !in a
    ensures SplitBy(a, x => x == c) == [a]
  {
    if |a| > 0 {
      SplitByNoDelim(a[1..], c);
      assert [a[0]] + a[1..] == a;
    }
  }

  /** A delimiter after a piece without one splits off exactly that piece. */
  lemma {:induction false} SplitByFirst(a: string, c: char, b: string)
    requires c !in a
    ensures SplitBy(a + [c] + b, x => x == c) == [a] + SplitBy(b, x => x == c)
  {
    if |a| == 0 {
      assert a + [c] + b == [c] + b;
      assert ([c] + b)[1..] == b;
    } else {
      var s := a + [c] + b;
      assert s[1..] == a[1..] + [c] + b;
      SplitByFirst(a[1..], c, b);
      assert [a[0]] + a[1..] == a;
    }
  }

  /** Joining pieces without the delimiter and splitting again gives back the pieces. */
  lemma {:induction false} JoinSplitBy(c: char, parts: seq<string>)
    requires |parts| >= 1
    requires forall i :: 0 <= i < |parts| ==> c !in parts[i]
    ensures SplitBy(Join([c], parts), x => x == c) == parts
  {
    if |parts| == 1 {
      SplitByNoDelim(parts[0], c);
    } else {
      JoinSplitBy(c, parts[1..]);
      SplitByFirst(parts[0], c, Join([c], parts[1..]));
      assert [parts[0]] + parts[1..] == parts;
    }
  }

  /** The non-empty members of `parts`, in order. */
  function NonEmpty(parts: seq<string>): (r: seq<string>)
    ensures forall i :: 0 <= i < |r| ==> r[i] != "" && r[i] in parts
    ensures forall i :: 0 <= i < |parts| && parts[i] != "" ==> parts[i] in r
  {
    if |parts| == 0 then []
    else (if parts[0] == "" then [] else [parts[0]]) + NonEmpty(parts[1..])
  }

  /** A leading delimiter opens an empty piece before the pieces of the rest. */
  lemma SplitByDelimHead(s: string, isDelim: char -> bool)
    requires |s| > 0 && isDelim(s[0])
    ensures SplitBy(s, isDelim) == [""] + SplitBy(s[1..], isDelim)
  {
  }

  /** A leading non-delimiter joins the first piece of the rest; the other pieces stay. */
  lemma SplitByCharHead(s: string, isDelim: char -> bool)
    requires |s| > 0 && !isDelim(s[0])
    ensures |SplitBy(s, isDelim)| == |SplitBy(s[1..], isDelim)|
    ensures SplitBy(s, isDelim)[0] == [s[0]] + SplitBy(s[1..], isDelim)[0]
    ensures forall k :: 1 <= k < |SplitBy(s, isDelim)| ==> SplitBy(s, isDelim)[k] == SplitBy(s[1..], isDelim)[k]
  {
    var rest := SplitBy(s[1..], isDelim);
    assert SplitBy(s, isDelim) == [[s[0]] + rest[0]] + rest[1..];
  }

  /** The piece of `SplitBy(s, isDelim)` that holds the non-delimiter character at `i`. */
  lemma {:induction false} SplitByPiece(s: string, isDelim: char -> bool, i: int) returns (k: int)
    requires 0 <= i < |s| && !isDelim(s[i])
    ensures 0 <= k < |SplitBy(s, isDelim)| && s[i] in SplitBy(s, isDelim)[k]
    decreases |s|
  {
    if isDelim(s[0]) {
      SplitByDelimHead(s, isDelim);
    } else {
      SplitByCharHead(s, isDelim);
    }
    var parts := SplitBy(s, isDelim);
    var rest := SplitBy(s[1..], isDelim);
    if i == 0 {
      if isDelim(s[0]) {
        assert false;
      }
      k := 0;
      assert parts[0][0] == s[0];
    } else {
      assert s[1..][i - 1] == s[i];
      var j := SplitByPiece(s[1..], isDelim, i - 1);
      if isDelim(s[0]) {
        k := j + 1;
        assert parts[k] == rest[j];
      } else if j == 0 {
        k := 0;
        assert s[i] in [s[0]] + rest[0];
      } else {
        k := j;
      }
    }
  }

  /** Every non-delimiter character lands in some piece. */
  lemma SplitByCovers(s: string, isDelim: char -> bool, i: int)
    requires 0 <= i < |s| && !isDelim(s[i])
    ensures exists k :: 0 <= k < |SplitBy(s, isDelim)| && s[i] in SplitBy(s, isDelim)[k]
  {
    var k := SplitByPiece(s, isDelim, i);
  }

  /** Every non-delimiter character lands in some piece of a run split. */
  lemma SplitRunsCovers(s: string, isDelim: char -> bool, i: int)
    requires 0 <= i < |s| && !isDelim(s[i])
    ensures exists k :: 0 <= k < |SplitRuns(s, isDelim)| && s[i] in SplitRuns(s, isDelim)[k]
  {
    var k := SplitByPiece(s, isDelim, i);
    var j := SplitRunsIndex(s, isDelim, k);
    assert SplitRuns(s, isDelim)[j] == SplitBy(s, isDelim)[k];
  }

  /** Where a piece of the plain split sits in the run split: the first, the last and every non-empty piece are kept. */
  lemma SplitRunsIndex(s: string, isDelim: char -> bool, k: int) returns (j: int)
    requires 0 <= k < |SplitBy(s, isDelim)|
    requires k == 0 || k == |SplitBy(s, isDelim)| - 1 || SplitBy(s, isDelim)[k] != ""
    ensures 0 <= j < |SplitRuns(s, isDelim)| && SplitRuns(s, isDelim)[j] == SplitBy(s, isDelim)[k]
  {
    var all := SplitBy(s, isDelim);
    if |all| > 1 {
      j := KeptIndex(all, k);
    } else {
      j := k;
    }
  }

  /** The same for any list of pieces with its inner empty pieces dropped. */
  lemma KeptIndex(all: seq<string>, k: int) returns (j: int)
    requires |all| > 1 && 0 <= k < |all| && (k == 0 || k == |all| - 1 || all[k] != "")
    ensures var parts := [all[0]] + NonEmpty(all[1..|all| - 1]) + [all[|all| - 1]];
      0 <= j < |parts| && parts[j] == all[k]
  {
    var ne := NonEmpty(all[1..|all| - 1]);
    if k == 0 {
      j := 0;
    } else if k == |all| - 1 {
      j := |ne| + 1;
    } else {
      var m := NonEmptyIndex(all[1..|all| - 1], k - 1);
      j := m + 1;
    }
  }

  /** The position in `NonEmpty(parts)` of a non-empty part. */
  function NonEmptyIndex(parts: seq<string>, i: int): (m: int)
    requires 0 <= i < |parts| && parts[i] != ""
    ensures 0 <= m < |NonEmpty(parts)| && NonEmpty(parts)[m] == parts[i]
  {
    if i == 0 then 0
    else
      var m := NonEmptyIndex(parts[1..], i - 1);
      if parts[0] == "" then m else m + 1
  }

  /** `s.split()`: the maximal runs of non-whitespace characters. */
  function Words(s: string): (r: seq<string>)
    ensures forall i :: 0 <= i < |r| ==> r[i] != "" && forall x :: x in r[i] ==> !IsSpace(x)
  {
    NonEmpty(SplitBy(s, IsSpace))
  }

  /**
    `re.split("[...]+", s)`: like SplitBy, but a run of delimiters separates
    only once, so the empty pieces strictly inside the list disappear.
  */
  function SplitRuns(s: string, isDelim: char -> bool): (parts: seq<string>)
    ensures |parts| >= 1
    ensures forall i :: 0 <= i < |parts| ==> forall x :: x in parts[i] ==> !isDelim(x) && x in s
  {
    var all := SplitBy(s, isDelim);
    if |all| == 1 then all
    else [all[0]] + NonEmpty(all[1..|all| - 1]) + [all[|all| - 1]]
  }

  function DigitChar(d: nat): (c: char)
    requires d < 10
    ensures IsDigit(c)
  {
    ('0' as int + d) as char
  }

  /** `str(n)` for a natural number. */
  function NatToString(n: nat): (r: string)
    ensures |r| >= 1
    ensures forall i :: 0 <= i < |r| ==> IsDigit(r[i])
  {
    if n < 10 then [DigitChar(n)] else NatToString(n / 10) + [DigitChar(n % 10)]
  }

  /** `str(i)` for an integer. */
  function IntToString(i: int): string {
    if i < 0 then "-" + NatToString(-i) else NatToString(i)
  }

  // ---------------------------------------------------------------------
  // int() on a string
  // ---------------------------------------------------------------------

  /** A character of the body of a base-10 literal: a digit or the `_` separator. */
  predicate IsDigitOrSep(c: char) {
    IsDigit(c) || c == '_'
  }

  /** The body `int()` accepts in base 10: digits, with single underscores allowed between two digits. */
  predicate DigitGroups(s: string) {
    && |s| >= 1 && IsDigit(s[0]) && IsDigit(s[|s| - 1])
    && (forall i :: 0 <= i < |s| ==> IsDigitOrSep(s[i]))
    && (forall i :: 0 <= i < |s| - 1 ==> !(s[i] == '_' && s[i + 1] == '_'))
  }

  /** The value of one decimal digit. */
  function DigitValue(c: char): (d: nat)
    requires IsDigit(c)
    ensures d < 10
  {
    c as int - '0' as int
  }

  /** The number a run of digits and separators spells, separators skipped. */
  function DigitsValue(s: string): nat
    requires forall i :: 0 <= i < |s| ==> IsDigitOrSep(s[i])
    decreases |s|
  {
    if |s| == 0 then 0
    else
      var last := s[|s| - 1];
      assert IsDigitOrSep(last);
      if last == '_' then DigitsValue(s[..|s| - 1])
      else DigitsValue(s[..|s| - 1]) * 10 + DigitValue(last)
  }

  /**
    `int(s)` for a string, in base 10: surrounding whitespace is ignored,
    one sign may lead and leading zeros are allowed. None stands for the
    ValueError raised on anything else.
  */
  function ParseInt(s: string): (r: Option<int>)
    ensures IsBlank(s) ==> r.None?
  {
    ParseStripped(Trim(s))
  }

  /** `int()` on an already stripped string: one optional sign, then the digit groups. */
  function ParseStripped(t: string): Option<int> {
    if |t| >= 1 && (t[0] == '-' || t[0] == '+') && DigitGroups(t[1..]) then
      var n: int := DigitsValue(t[1..]);
      Some(if t[0] == '-' then -n else n)
    else if DigitGroups(t) then Some(DigitsValue(t))
    else None
  }

  /** `str(n)` spells `n` as a run of digits. */
  lemma {:induction false} NatToStringValue(n: nat)
    ensures DigitGroups(NatToString(n)) && DigitsValue(NatToString(n)) == n
    decreases n
  {
    if n >= 10 {
      NatToStringValue(n / 10);
      var s := NatToString(n);
      assert s[..|s| - 1] == NatToString(n / 10);
    }
  }

  /** `int(str(i)) == i`, whatever whitespace surrounds the digits. */
  lemma ParseIntRoundTrip(i: int, pre: string, post: string)
    requires AllSpace(pre) && AllSpace(post)
    ensures ParseInt(pre + IntToString(i) + post) == Some(i)
  {
    var t := IntToString(i);
    ParseStrippedIntToString(i);
    TrimPadded(pre, t, post);
  }

  /** `str(i)` has no whitespace at its ends and reads back as `i`. */
  lemma ParseStrippedIntToString(i: int)
    ensures var t := IntToString(i);
      t != [] && !IsSpace(t[0]) && !IsSpace(t[|t| - 1]) && ParseStripped(t) == Some(i)
  {
    var t := IntToString(i);
    if i < 0 {
      NatToStringValue(-i);
      assert t[1..] == NatToString(-i);
    } else {
      NatToStringValue(i);
    }
  }

  /** `int()` raises on every string that holds no digit. */
  lemma ParseIntNeedsDigit(s: string)
    requires ParseInt(s).Some?
    ensures exists i :: 0 <= i < |s| && IsDigit(s[i])
  {
    var l := TrimLeft(s);
    var t := TrimRight(l);
    assert Trim(s) == t;
    var k := if DigitGroups(t) then 0 else 1;
    assert IsDigit(t[k]);
    var off := |s| - |l|;
    assert t[k] == l[k] == s[off + k];
  }
}
