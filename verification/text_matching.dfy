/**
  `app/services/validation/text_matching.py`: text normalization, rule
  product candidates and the three similarity scores. Scores are exact
  rationals (`real`); the stemmer and difflib's ratio are parameters.
*/
module TextMatching {
  import opened Wrappers
  import opened Strings
  import opened JsonValue

  // ---------------------------------------------------------------------
  // normalize_text
  // ---------------------------------------------------------------------

  /** One character after the five `replace` calls: `&`/`+` become ` and `, `/`, `_`, `-` a space. */
  function Expand(c: char): string {
    if c == '&' || c == '+' then " and "
    else if c == '/' || c == '_' || c == '-' then " "
    else [c]
  }

  /** The five replacements as a single left-to-right pass (equal to them by `ReplacementsExpand`). */
  function ExpandAll(s: string): string {
    if |s| == 0 then [] else Expand(s[0]) + ExpandAll(s[1..])
  }

  /** The five `text.replace(...)` calls, in the source's order. */
  function Replacements(s: string): string {
    ReplaceFive(s, " and ", " ")
  }

  /** The five replacements with the two replacement texts as parameters. */
  function ReplaceFive(s: string, word: string, space: string): string {
    var t1 := ReplaceChar(s, '&', word);
    var t2 := ReplaceChar(t1, '+', word);
    var t3 := ReplaceChar(t2, '/', space);
    var t4 := ReplaceChar(t3, '_', space);
    ReplaceChar(t4, '-', space)
  }

  /** The replacements act on each character separately. */
  lemma ReplacementsAppend(a: string, b: string)
    ensures Replacements(a + b) == Replacements(a) + Replacements(b)
  {
    ReplaceCharAppend(a, b, '&', " and ");
    var a1, b1 := ReplaceChar(a, '&', " and "), ReplaceChar(b, '&', " and ");
    ReplaceCharAppend(a1, b1, '+', " and ");
    var a2, b2 := ReplaceChar(a1, '+', " and "), ReplaceChar(b1, '+', " and ");
    ReplaceCharAppend(a2, b2, '/', " ");
    var a3, b3 := ReplaceChar(a2, '/', " "), ReplaceChar(b2, '/', " ");
    ReplaceCharAppend(a3, b3, '_', " ");
    var a4, b4 := ReplaceChar(a3, '_', " "), ReplaceChar(b3, '_', " ");
    ReplaceCharAppend(a4, b4, '-', " ");
  }

  lemma ReplaceCharSingle(c: char, x: char, t: string)
    ensures ReplaceChar([c], x, t) == if c == x then t else [c]
  {
    assert [c][1..] == [];
  }

  /** A string without any of the five replaced characters is left alone. */
  lemma ReplacementsNone(t: string)
    requires forall x :: x in t ==> x !in "&+/_-"
    ensures Replacements(t) == t
  {
  }

  lemma ReplaceFiveAnd(c: char, word: string, space: string)
    requires c == '&' || c == '+'
    requires '+' !in word && '/' !in word && '_' !in word && '-' !in word
    ensures ReplaceFive([c], word, space) == word
  {
    ReplaceCharSingle(c, '&', word);
    var t1 := ReplaceChar([c], '&', word);
    ReplaceCharSingle(c, '+', word);
    assert ReplaceChar(t1, '+', word) == word;
  }

  lemma ReplacementsAnd(c: char)
    requires c == '&' || c == '+'
    ensures Replacements([c]) == " and "
  {
    ReplaceFiveAnd(c, " and ", " ");
  }

  lemma ReplacementsSpace(c: char)
    requires c == '/' || c == '_' || c == '-'
    ensures Replacements([c]) == " "
  {
    ReplaceCharSingle(c, '&', " and ");
    ReplaceCharSingle(c, '+', " and ");
    ReplaceCharSingle(c, '/', " ");
    ReplaceCharSingle(c, '_', " ");
    ReplaceCharSingle(c, '-', " ");
  }

  /** A single character: a replacement's output is never rewritten by a later one. */
  lemma ReplacementsChar(c: char)
    ensures Replacements([c]) == Expand(c)
  {
    if c == '&' || c == '+' {
      ReplacementsAnd(c);
    } else if c == '/' || c == '_' || c == '-' {
      ReplacementsSpace(c);
    } else {
      ReplacementsNone([c]);
    }
  }

  /**
    Chaining the replacements equals expanding each character once, so
    `&` and `+` always end up as the word `and`.
  */
  lemma {:induction false} ReplacementsExpand(s: string)
    ensures Replacements(s) == ExpandAll(s)
  {
    if |s| > 0 {
      var h, t := [s[0]], s[1..];
      ReplacementsExpand(t);
      assert s == h + t;
      ReplacementsAppend(h, t);
      ReplacementsChar(s[0]);
      assert ExpandAll(s) == Expand(s[0]) + ExpandAll(t);
    } else {
      ReplacementsNone(s);
    }
  }

  /** `re.sub(r"\s+", " ", s)`: every whitespace run becomes one space. */
  function Collapse(s: string): string
    decreases |s|
  {
    if |s| == 0 then []
    else if IsSpace(s[0]) then " " + Collapse(TrimLeft(s[1..]))
    else [s[0]] + Collapse(s[1..])
  }

  /** Collapsing keeps every non-space character and adds nothing but spaces. */
  lemma CollapseChars(s: string)
    ensures forall x :: x in Collapse(s) ==> x == ' ' || (x in s && !IsSpace(x))
    ensures forall i :: 0 <= i < |s| && !IsSpace(s[i]) ==> s[i] in Collapse(s)
  {
    CollapseAddsSpaces(s);
    CollapseKeeps(s);
  }

  lemma {:induction false} CollapseAddsSpaces(s: string)
    ensures forall x :: x in Collapse(s) ==> x == ' ' || (x in s && !IsSpace(x))
    decreases |s|
  {
    if |s| > 0 {
      if IsSpace(s[0]) {
        var t := TrimLeft(s[1..]);
        CollapseAddsSpaces(t);
        var k := |s[1..]| - |t|;
        forall x | x in t ensures x in s {
          var j :| 0 <= j < |t| && t[j] == x;
          assert s[1 + k + j] == x;
        }
        assert Collapse(s) == " " + Collapse(t);
      } else {
        CollapseAddsSpaces(s[1..]);
        assert Collapse(s) == [s[0]] + Collapse(s[1..]);
      }
    }
  }

  lemma {:induction false} CollapseKeeps(s: string)
    ensures forall i :: 0 <= i < |s| && !IsSpace(s[i]) ==> s[i] in Collapse(s)
    decreases |s|
  {
    if |s| > 0 {
      if IsSpace(s[0]) {
        var t := TrimLeft(s[1..]);
        CollapseKeeps(t);
        var k := |s[1..]| - |t|;
        forall j | 1 <= j <= k ensures IsSpace(s[j]) {
          assert s[1..][..k][j - 1] == s[j];
        }
        forall i | 1 <= i < |s| && !IsSpace(s[i]) ensures s[i] in Collapse(t) {
          assert t[i - 1 - k] == s[i];
        }
        assert Collapse(s) == " " + Collapse(t);
      } else {
        CollapseKeeps(s[1..]);
        assert Collapse(s) == [s[0]] + Collapse(s[1..]);
        forall i | 1 <= i < |s| && !IsSpace(s[i]) ensures s[i] in Collapse(s[1..]) {
          assert s[1..][i - 1] == s[i];
        }
      }
    }
  }

  /**
    Collapsing never leaves two spaces side by side, and the result starts
    with a space exactly when the text starts with whitespace.
  */
  lemma {:induction false} CollapseSpaces(s: string)
    ensures forall i :: 0 <= i < |Collapse(s)| - 1 ==> !(Collapse(s)[i] == ' ' && Collapse(s)[i + 1] == ' ')
    ensures |s| > 0 ==> |Collapse(s)| > 0 && (Collapse(s)[0] == ' ' <==> IsSpace(s[0]))
    decreases |s|
  {
    if |s| > 0 {
      var tail := if IsSpace(s[0]) then TrimLeft(s[1..]) else s[1..];
      CollapseSpaces(tail);
      var c := Collapse(tail);
      if IsSpace(s[0]) {
        assert Collapse(s) == " " + c;
        assert c == [] || c[0] != ' ';
      } else {
        assert Collapse(s) == [s[0]] + c;
      }
      forall i | 0 <= i < |Collapse(s)| - 1
        ensures !(Collapse(s)[i] == ' ' && Collapse(s)[i + 1] == ' ')
      {
        if i > 0 {
          assert Collapse(s)[i] == c[i - 1] && Collapse(s)[i + 1] == c[i];
        }
      }
    }
  }

  /** `re.sub(r"[^a-z0-9\s]", "", s)`: only `[a-z0-9]` and whitespace survive. */
  function KeepWordChars(s: string): string {
    if |s| == 0 then []
    else (if IsLowerAlnum(s[0]) || IsSpace(s[0]) then [s[0]] else []) + KeepWordChars(s[1..])
  }

  lemma {:induction false} KeepWordCharsSpec(s: string)
    ensures forall x :: x in KeepWordChars(s) <==> x in s && (IsLowerAlnum(x) || IsSpace(x))
  {
    if |s| > 0 {
      KeepWordCharsSpec(s[1..]);
      assert s == [s[0]] + s[1..];
    }
  }

  /**
    The normalization of a text (`normalize_text` after `str`): strip, lower,
    the five replacements (written as ExpandAll, see `ReplacementsExpand`),
    whitespace runs to one space, other characters outside `[a-z0-9]` dropped,
    strip.
  */
  function Normalize(s: string): string {
    Trim(KeepWordChars(Collapse(ExpandAll(Lower(Trim(s))))))
  }

  /** `normalize_text(value)`: `None` normalizes to the empty string. */
  function NormalizeText(v: Json): (r: string)
    ensures v == JNull ==> r == ""
  {
    if v == JNull then "" else Normalize(PyStr(v))
  }

  /** A character whose presence makes the normalization non-empty: a letter, a digit, `&` or `+`. */
  predicate WordSource(c: char) {
    IsAsciiLetter(c) || IsDigit(c) || c == '&' || c == '+'
  }

  /** Some character of `t` is in `[a-z0-9]`. */
  predicate HasAlnum(t: string) {
    exists x :: x in t && IsLowerAlnum(x)
  }

  /** Some character of `t` is a letter, a digit, `&` or `+`. */
  predicate HasWordSource(t: string) {
    exists x :: x in t && WordSource(x)
  }

  lemma TrimWordSource(s: string)
    ensures HasWordSource(Trim(s)) <==> HasWordSource(s)
  {
    TrimChars(s);
    if HasWordSource(s) {
      var x :| x in s && WordSource(x);
      var i :| 0 <= i < |s| && s[i] == x;
    }
  }

  lemma LowerWordSource(t: string)
    ensures HasWordSource(Lower(t)) <==> HasWordSource(t)
    ensures HasWordSource(Lower(t)) <==> exists x :: x in Lower(t) && (IsLowerAlnum(x) || x == '&' || x == '+')
  {
    var lo := Lower(t);
    if HasWordSource(t) {
      var x :| x in t && WordSource(x);
      var i :| 0 <= i < |t| && t[i] == x;
      assert lo[i] in lo && WordSource(lo[i]);
    }
    if HasWordSource(lo) {
      var x :| x in lo && WordSource(x);
      var i :| 0 <= i < |lo| && lo[i] == x;
      assert t[i] in t && WordSource(t[i]);
    }
  }

  lemma {:induction false} ExpandAllAlnum(t: string)
    ensures HasAlnum(ExpandAll(t)) <==> exists x :: x in t && (IsLowerAlnum(x) || x == '&' || x == '+')
  {
    if |t| > 0 {
      ExpandAllAlnum(t[1..]);
      var e := ExpandAll(t);
      var rest := ExpandAll(t[1..]);
      assert e == Expand(t[0]) + rest;
      if IsLowerAlnum(t[0]) || t[0] == '&' || t[0] == '+' {
        if t[0] == '&' || t[0] == '+' {
          assert e[1] == 'a' && e[1] in e;
        } else {
          assert e[0] == t[0] && e[0] in e;
        }
      }
      if HasAlnum(rest) {
        var x :| x in rest && IsLowerAlnum(x);
        assert x in e;
        var y :| y in t[1..] && (IsLowerAlnum(y) || y == '&' || y == '+');
        assert y in t;
      }
      if HasAlnum(e) {
        var x :| x in e && IsLowerAlnum(x);
        if x !in rest {
          assert x in Expand(t[0]);
        }
      }
      if exists x :: x in t && (IsLowerAlnum(x) || x == '&' || x == '+') {
        var x :| x in t && (IsLowerAlnum(x) || x == '&' || x == '+');
        if x != t[0] {
          assert x in t[1..];
        }
      }
    }
  }

  lemma CollapseAlnum(e: string)
    ensures HasAlnum(Collapse(e)) <==> HasAlnum(e)
  {
    CollapseChars(e);
    if HasAlnum(e) {
      var x :| x in e && IsLowerAlnum(x);
      var i :| 0 <= i < |e| && e[i] == x;
      assert x in Collapse(e);
    }
  }

  lemma KeepAlnum(c: string)
    ensures HasAlnum(KeepWordChars(c)) <==> HasAlnum(c)
  {
    KeepWordCharsSpec(c);
    if HasAlnum(c) {
      var x :| x in c && IsLowerAlnum(x);
      assert x in KeepWordChars(c);
    }
  }

  lemma TrimAlnum(k: string)
    ensures HasAlnum(Trim(k)) <==> HasAlnum(k)
  {
    TrimChars(k);
    if HasAlnum(k) {
      var x :| x in k && IsLowerAlnum(x);
      var i :| 0 <= i < |k| && k[i] == x;
    }
  }

  /** The normalization holds only `[a-z0-9 ]` and has no space at either end. */
  lemma NormalizeShape(s: string)
    ensures var r := Normalize(s);
      (forall x :: x in r ==> IsLowerAlnum(x) || x == ' ') &&
      (r == [] || (r[0] != ' ' && r[|r| - 1] != ' '))
  {
    var c := Collapse(ExpandAll(Lower(Trim(s))));
    CollapseChars(ExpandAll(Lower(Trim(s))));
    KeepWordCharsSpec(c);
    TrimChars(KeepWordChars(c));
  }

  /** No normalized text holds an underscore. */
  lemma NormalizeNoUnderscore(s: string)
    ensures forall j :: 0 <= j < |Normalize(s)| ==> Normalize(s)[j] != '_'
  {
    NormalizeShape(s);
    var n := Normalize(s);
    forall j | 0 <= j < |n|
      ensures n[j] != '_'
    {
      assert n[j] in n;
    }
  }

  /**
    The normalization is empty exactly when the text holds no letter, digit,
    `&` or `+`: every other character is removed or becomes a space.
  */
  lemma NormalizeEmpty(s: string)
    ensures Normalize(s) == [] <==> !HasWordSource(s)
  {
    var t := Trim(s);
    var lo := Lower(t);
    var e := ExpandAll(lo);
    var c := Collapse(e);
    var k := KeepWordChars(c);
    TrimWordSource(s);
    LowerWordSource(t);
    ExpandAllAlnum(lo);
    CollapseAlnum(e);
    KeepAlnum(c);
    TrimAlnum(k);
    NormalizeShape(s);
    var r := Normalize(s);
    if r != [] {
      assert r[0] in r;
    }
  }

  // ---------------------------------------------------------------------
  // First-occurrence deduplication (a `seen` set and an output list)
  // ---------------------------------------------------------------------

  /** The keys of `xs` under `key`, in order. */
  function KeysOf<T>(xs: seq<T>, key: T -> string): (ks: seq<string>)
    ensures |ks| == |xs|
    ensures forall i :: 0 <= i < |xs| ==> ks[i] == key(xs[i])
  {
    seq(|xs|, i requires 0 <= i < |xs| => key(xs[i]))
  }

  /** The index of the first element of `xs` whose key is `k`, or -1. */
  function FirstIndex<T>(xs: seq<T>, key: T -> string, k: string): (i: int)
    ensures -1 <= i < |xs|
    ensures i >= 0 ==> key(xs[i]) == k && forall j :: 0 <= j < i ==> key(xs[j]) != k
    ensures i == -1 ==> forall j :: 0 <= j < |xs| ==> key(xs[j]) != k
  {
    if |xs| == 0 then -1
    else if key(xs[0]) == k then 0
    else
      var i := FirstIndex(xs[1..], key, k);
      if i < 0 then -1 else i + 1
  }

  /** Appending an element does not move the first occurrence of a key already present. */
  lemma FirstIndexSnoc<T>(xs: seq<T>, x: T, key: T -> string, k: string)
    ensures var i := FirstIndex(xs, key, k);
      FirstIndex(xs + [x], key, k) == if i >= 0 then i else if key(x) == k then |xs| else -1
  {
    var i := FirstIndex(xs, key, k);
    var ys := xs + [x];
    if i >= 0 {
      assert ys[i] == xs[i];
    } else if key(x) == k {
      assert ys[|xs|] == x;
    }
  }

  /**
    `for v in xs: if key(v) not in seen: seen.add(key(v)); out.append(v)`:
    each element whose key has not been seen before, in order.
  */
  function DedupeBy<T>(xs: seq<T>, key: T -> string): (r: seq<T>)
    ensures |r| <= |xs|
    decreases |xs|
  {
    if |xs| == 0 then []
    else
      var d := DedupeBy(xs[..|xs| - 1], key);
      if key(xs[|xs| - 1]) in KeysOf(d, key) then d else d + [xs[|xs| - 1]]
  }

  /** No two elements of `r` share a key. */
  predicate KeysDistinct<T>(r: seq<T>, key: T -> string) {
    forall i, j :: 0 <= i < j < |r| ==> key(r[i]) != key(r[j])
  }

  /** The kept elements have pairwise different keys. */
  lemma {:induction false} DedupeDistinct<T>(xs: seq<T>, key: T -> string)
    ensures KeysDistinct(DedupeBy(xs, key), key)
    decreases |xs|
  {
    if |xs| > 0 {
      var d := DedupeBy(xs[..|xs| - 1], key);
      DedupeDistinct(xs[..|xs| - 1], key);
      var x := xs[|xs| - 1];
      if key(x) !in KeysOf(d, key) {
        var r := d + [x];
        assert DedupeBy(xs, key) == r;
        forall i, j | 0 <= i < j < |r| ensures key(r[i]) != key(r[j]) {
          assert r[i] == d[i];
          if j == |d| {
            assert r[j] == x;
            assert KeysOf(d, key)[i] == key(d[i]);
            assert key(d[i]) in KeysOf(d, key);
          } else {
            assert r[j] == d[j];
          }
        }
      }
    }
  }

  /** Every key of the input is represented in the output. */
  lemma {:induction false} DedupeCovers<T>(xs: seq<T>, key: T -> string, j: int)
    requires 0 <= j < |xs|
    ensures key(xs[j]) in KeysOf(DedupeBy(xs, key), key)
    decreases |xs|
  {
    var init := xs[..|xs| - 1];
    var d := DedupeBy(init, key);
    var x := xs[|xs| - 1];
    var r := DedupeBy(xs, key);
    if j < |xs| - 1 {
      DedupeCovers(init, key, j);
      assert init[j] == xs[j];
      var m :| 0 <= m < |d| && KeysOf(d, key)[m] == key(xs[j]);
      assert r[m] == d[m];
      assert KeysOf(r, key)[m] == key(xs[j]);
    } else if key(x) !in KeysOf(d, key) {
      assert KeysOf(r, key)[|d|] == key(x);
    }
  }

  /** Each kept element is the first input element with its key. */
  lemma {:induction false} DedupeFirst<T>(xs: seq<T>, key: T -> string, i: int)
    requires 0 <= i < |DedupeBy(xs, key)|
    ensures var r := DedupeBy(xs, key);
      var f := FirstIndex(xs, key, key(r[i]));
      0 <= f && xs[f] == r[i]
    decreases |xs|
  {
    var init := xs[..|xs| - 1];
    var d := DedupeBy(init, key);
    var x := xs[|xs| - 1];
    var r := DedupeBy(xs, key);
    assert xs == init + [x];
    FirstIndexSnoc(init, x, key, key(r[i]));
    if i < |d| {
      DedupeFirst(init, key, i);
      assert r[i] == d[i];
    } else {
      var f := FirstIndex(init, key, key(x));
      if f >= 0 {
        DedupeCovers(init, key, f);
        assert false;
      }
    }
  }

  /** Kept elements appear in the order of their keys' first occurrences. */
  lemma {:induction false} DedupeOrder<T>(xs: seq<T>, key: T -> string, i: int, j: int)
    requires 0 <= i < j < |DedupeBy(xs, key)|
    ensures var r := DedupeBy(xs, key);
      FirstIndex(xs, key, key(r[i])) < FirstIndex(xs, key, key(r[j]))
    decreases |xs|
  {
    var init := xs[..|xs| - 1];
    var d := DedupeBy(init, key);
    var x := xs[|xs| - 1];
    var r := DedupeBy(xs, key);
    assert xs == init + [x];
    FirstIndexSnoc(init, x, key, key(r[i]));
    FirstIndexSnoc(init, x, key, key(r[j]));
    DedupeFirst(init, key, i);
    assert r[i] == d[i];
    if j < |d| {
      DedupeOrder(init, key, i, j);
      assert r[j] == d[j];
    } else {
      assert r[j] == x;
      var f := FirstIndex(init, key, key(x));
      if f >= 0 {
        DedupeCovers(init, key, f);
        assert false;
      }
    }
  }

  /** Deduplication by the value itself. */
  function Id(s: string): string {
    s
  }

  /** Deduplicating by value keeps exactly the values of the input. */
  lemma DedupeIdMembers(xs: seq<string>, c: string)
    ensures c in DedupeBy(xs, Id) <==> c in xs
  {
    var r := DedupeBy(xs, Id);
    if c in r {
      var i :| 0 <= i < |r| && r[i] == c;
      DedupeFirst(xs, Id, i);
    }
    if c in xs {
      var j :| 0 <= j < |xs| && xs[j] == c;
      DedupeCovers(xs, Id, j);
      var m :| 0 <= m < |r| && KeysOf(r, Id)[m] == c;
      assert r[m] == c;
    }
  }

  // ---------------------------------------------------------------------
  // normalized_rule_product_candidates
  // ---------------------------------------------------------------------

  /** The separator class `[,;\n|]`. */
  predicate IsCandidateDelim(c: char) {
    c == ',' || c == ';' || c == '\n' || c == '|'
  }

  function NormalizeAll(parts: seq<string>): (r: seq<string>)
    ensures |r| == |parts|
    ensures forall i :: 0 <= i < |parts| ==> r[i] == Normalize(parts[i])
  {
    seq(|parts|, i requires 0 <= i < |parts| => Normalize(parts[i]))
  }

  /** The pieces of a rule's product field, split on runs of separators. */
  function CandidateParts(text: string): seq<string> {
    SplitRuns(text, IsCandidateDelim)
  }

  /** The deduplicated non-empty normalized pieces (the loop of `normalized_rule_product_candidates`). */
  function SplitCandidates(text: string): seq<string> {
    DedupeBy(NonEmpty(NormalizeAll(CandidateParts(text))), Id)
  }

  /** `normalized_rule_product_candidates(raw)`. */
  function Candidates(raw: Json): (r: seq<string>)
    ensures raw == JNull || IsBlank(PyStr(raw)) ==> r == []
  {
    if raw == JNull then []
    else
      var text := Trim(PyStr(raw));
      if text == [] then []
      else
        var found := SplitCandidates(text);
        if found != [] then found
        else
          var full := Normalize(text);
          if full != "" then [full] else []
  }

  /** A part holding a letter, digit, `&` or `+` yields a candidate. */
  lemma CandidatePartNonEmpty(text: string, x: char)
    requires x in text && WordSource(x)
    ensures SplitCandidates(text) != []
  {
    var i :| 0 <= i < |text| && text[i] == x;
    SplitRunsCovers(text, IsCandidateDelim, i);
    var parts := CandidateParts(text);
    var k :| 0 <= k < |parts| && x in parts[k];
    NormalizeEmpty(parts[k]);
    var ns := NormalizeAll(parts);
    assert ns[k] != "";
    var ne := NonEmpty(ns);
    assert ns[k] in ne;
    var m :| 0 <= m < |ne| && ne[m] == ns[k];
    DedupeCovers(ne, Id, m);
  }

  /**
    The fallback to the whole normalized text never adds anything: when no
    piece normalizes to a non-empty string, neither does the whole text.
    The candidates are exactly the distinct non-empty normalized pieces.
  */
  lemma CandidatesArePieces(raw: Json)
    requires raw != JNull && !IsBlank(PyStr(raw))
    ensures Candidates(raw) == SplitCandidates(Trim(PyStr(raw)))
  {
    var text := Trim(PyStr(raw));
    if SplitCandidates(text) == [] {
      NormalizeEmpty(text);
      if HasWordSource(text) {
        var x :| x in text && WordSource(x);
        CandidatePartNonEmpty(text, x);
      }
    }
  }

  /** The candidates are non-empty and pairwise distinct. */
  lemma CandidatesDistinct(raw: Json)
    ensures var r := Candidates(raw);
      (forall i, j :: 0 <= i < j < |r| ==> r[i] != r[j]) && forall i :: 0 <= i < |r| ==> r[i] != ""
  {
    if raw != JNull && !IsBlank(PyStr(raw)) {
      CandidatesArePieces(raw);
      var ne := NonEmpty(NormalizeAll(CandidateParts(Trim(PyStr(raw)))));
      DedupeDistinct(ne, Id);
      var r := DedupeBy(ne, Id);
      forall i | 0 <= i < |r| ensures r[i] != "" {
        DedupeIdMembers(ne, r[i]);
      }
    }
  }

  /** Every non-empty normalized piece is a candidate, and every candidate is one. */
  lemma CandidatesMembers(raw: Json, c: string)
    requires raw != JNull && !IsBlank(PyStr(raw))
    ensures c in Candidates(raw) <==> c != "" && c in NormalizeAll(CandidateParts(Trim(PyStr(raw))))
  {
    CandidatesArePieces(raw);
    DedupeIdMembers(NonEmpty(NormalizeAll(CandidateParts(Trim(PyStr(raw))))), c);
  }

  // ---------------------------------------------------------------------
  // Similarity scores
  // ---------------------------------------------------------------------

  /** Set cardinality is monotone, and a subset of the same size is the whole set. */
  lemma {:induction false} SubsetCard<T>(a: set<T>, b: set<T>)
    requires a <= b
    ensures |a| <= |b|
    ensures |a| == |b| ==> a == b
    decreases |b|
  {
    if b != {} {
      var x :| x in b;
      assert |b - {x}| == |b| - 1;
      if x !in a {
        assert a <= b - {x};
        SubsetCard(a, b - {x});
      } else {
        assert |a - {x}| == |a| - 1;
        SubsetCard(a - {x}, b - {x});
        if |a| == |b| {
          assert a - {x} == b - {x};
          assert a == (a - {x}) + {x};
          assert b == (b - {x}) + {x};
        }
      }
    }
  }

  /** The Jaccard index `|a ∩ b| / |a ∪ b|`. */
  function Jaccard<T>(a: set<T>, b: set<T>): (r: real)
    requires a + b != {}
    ensures 0.0 <= r <= 1.0
    ensures r == 1.0 <==> a == b
    ensures r > 0.0 <==> a * b != {}
  {
    SubsetCard(a * b, a + b);
    var inter := |a * b|;
    var union := |a + b|;
    assert union > 0;
    if a * b == {} then
      assert a != b;
      0.0
    else
      assert inter > 0;
      var r := inter as real / union as real;
      assert r <= 1.0;
      assert a == b ==> r == 1.0 by {
        if a == b {
          assert a * b == a + b;
        }
      }
      assert r == 1.0 ==> a == b by {
        if r == 1.0 {
          assert inter == union;
          assert a * b == a + b;
          assert a <= a * b && b <= a * b;
        }
      }
      r
  }

  /** `s.split(" ")`. */
  function SpaceSplit(s: string): seq<string> {
    SplitBy(s, c => c == ' ')
  }

  /** `{tok for tok in s.split(" ") if tok}`. */
  function TokenSet(s: string): set<string> {
    set t | t in SpaceSplit(s) && t != ""
  }

  /**
    `token_overlap_score(left, right, min_token_intersection)`: zero when a
    side has no token or too few tokens are shared, the Jaccard index otherwise.
  */
  function TokenOverlap(left: string, right: string, minShared: int): (r: real)
    ensures 0.0 <= r <= 1.0
    ensures r > 0.0 <==> (TokenSet(left) != {} && TokenSet(right) != {} &&
      TokenSet(left) * TokenSet(right) != {} && |TokenSet(left) * TokenSet(right)| >= minShared)
    ensures r > 0.0 ==> r == Jaccard(TokenSet(left), TokenSet(right))
  {
    var l := TokenSet(left);
    var rt := TokenSet(right);
    if l == {} || rt == {} then 0.0
    else if |l * rt| < minShared then 0.0
    else Jaccard(l, rt)
  }

  /** The token score does not depend on the argument order. */
  lemma TokenOverlapSymmetric(left: string, right: string, minShared: int)
    ensures TokenOverlap(left, right, minShared) == TokenOverlap(right, left, minShared)
  {
    var l, r := TokenSet(left), TokenSet(right);
    assert l * r == r * l && l + r == r + l;
  }

  /** A text with tokens scores 1 against itself (with the source's minimum of one shared token). */
  lemma TokenOverlapSelf(s: string)
    requires TokenSet(s) != {}
    ensures TokenOverlap(s, s, 1) == 1.0
  {
    var t := TokenSet(s);
    assert t * t == t;
    var x :| x in t;
    assert |t| >= 1 by { assert {x} <= t; SubsetCard({x}, t); }
  }

  /** `{stem(tok) for tok in s.split()}`. */
  function StemSet(s: string, stem: string -> string): set<string> {
    set t | t in Words(s) :: stem(t)
  }

  /**
    `stem_based_overlap_score`: zero when a side has no stem or no stem is
    shared, the Jaccard index of the stem sets otherwise.
  */
  function StemOverlap(left: string, right: string, stem: string -> string): (r: real)
    ensures 0.0 <= r <= 1.0
    ensures r == 0.0 <==> (StemSet(left, stem) == {} || StemSet(right, stem) == {} ||
      StemSet(left, stem) * StemSet(right, stem) == {})
    ensures r > 0.0 ==> r == Jaccard(StemSet(left, stem), StemSet(right, stem))
  {
    var l := StemSet(left, stem);
    var rt := StemSet(right, stem);
    if l == {} || rt == {} then 0.0
    else if l * rt == {} then 0.0
    else Jaccard(l, rt)
  }

  lemma StemOverlapSymmetric(left: string, right: string, stem: string -> string)
    ensures StemOverlap(left, right, stem) == StemOverlap(right, left, stem)
  {
    var l, r := StemSet(left, stem), StemSet(right, stem);
    assert l * r == r * l && l + r == r + l;
  }

  /** The threshold for a pair whose shorter string has `minLen` characters. */
  function FuzzyThreshold(minLen: nat, configured: real): (t: real)
    ensures minLen <= 4 ==> t == 0.70
    ensures 4 < minLen <= 10 ==> t == 0.75
    ensures minLen > 10 ==> t == configured
  {
    if minLen <= 4 then 0.70 else if minLen <= 10 then 0.75 else configured
  }

  function Min(a: nat, b: nat): nat {
    if a <= b then a else b
  }

  /** `fuzzy_similarity(a, b, fuzzy_threshold)`; `ratio` is difflib's `SequenceMatcher(None, a, b).ratio()`. */
  function FuzzySimilarity(a: string, b: string, configured: real, ratio: (string, string) -> real): (r: real)
    ensures r == 0.0 || (r == ratio(a, b) && r >= FuzzyThreshold(Min(|a|, |b|), configured))
    ensures ratio(a, b) >= FuzzyThreshold(Min(|a|, |b|), configured) ==> r == ratio(a, b)
  {
    var t := FuzzyThreshold(Min(|a|, |b|), configured);
    if ratio(a, b) >= t then ratio(a, b) else 0.0
  }

  /** A positive fuzzy score is at least the most lenient threshold, whatever the configured one. */
  lemma FuzzyPositiveBound(a: string, b: string, configured: real, ratio: (string, string) -> real)
    requires configured >= 0.70
    ensures FuzzySimilarity(a, b, configured, ratio) > 0.0 ==> FuzzySimilarity(a, b, configured, ratio) >= 0.70
  {
  }
}
