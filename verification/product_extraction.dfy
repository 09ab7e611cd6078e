/**
  `app/services/validation/product_extraction.py`: the deterministic walk
  that collects likely product names from an extracted JSON payload.
*/
module ProductExtraction {
  import opened Strings
  import opened JsonValue
  import TextMatching

  /** The key fragments that mark a product field. */
  const Hints: seq<string> := ["product", "products", "product_name", "item", "items", "commodity", "commodities", "sku"]

  /** `any(hint in normalize_text(key) for hint in product_key_hints)`. */
  predicate HasHint(key: string) {
    AnyOccurs(TextMatching.Normalize(key), Hints)
  }

  /** Some of `hints` occurs in `text`. */
  predicate AnyOccurs(text: string, hints: seq<string>) {
    |hints| > 0 && (Contains(text, hints[0]) || AnyOccurs(text, hints[1..]))
  }

  /** A non-empty string with no whitespace at either end, as `strip` leaves it. */
  predicate Stripped(x: string) {
    x != [] && !IsSpace(x[0]) && !IsSpace(x[|x| - 1])
  }

  /**
    The string values collected by `walk(value, parent_key)`, in depth-first
    order. `hinted` is whether the parent key carries a hint and `isHint`
    decides that for the keys met below; `ExtractProductNames` passes `HasHint`.
  */
  function Walk(v: Json, hinted: bool, isHint: string -> bool): (r: seq<string>)
    ensures forall i :: 0 <= i < |r| ==> Stripped(r[i])
    decreases v, 1, 0
  {
    match v
    case JObj(fields) => WalkFields(fields, isHint, 0)
    case JArr(items) => WalkItems(items, hinted, isHint, 0)
    case JStr(s) => Leaf(s, hinted)
    case _ => []
  }

  /** A string leaf: collected stripped when non-blank and its key carries a hint. */
  function Leaf(s: string, hinted: bool): (r: seq<string>)
    ensures |r| <= 1
    ensures |r| == 1 ==> Stripped(r[0]) && r[0] == Trim(s) && hinted
  {
    var cleaned := Trim(s);
    if cleaned == [] then [] else if hinted then [cleaned] else []
  }

  /** Each value of a dict is walked under its own key. */
  function WalkFields(fields: seq<(string, Json)>, isHint: string -> bool, i: nat): (r: seq<string>)
    ensures forall k :: 0 <= k < |r| ==> Stripped(r[k])
    decreases JObj(fields), 0, |fields| - i
  {
    if i >= |fields| then []
    else
      assert fields[i] in fields;
      Walk(fields[i].1, isHint(fields[i].0), isHint) + WalkFields(fields, isHint, i + 1)
  }

  /** Each list element is walked under the key enclosing the list. */
  function WalkItems(items: seq<Json>, hinted: bool, isHint: string -> bool, i: nat): (r: seq<string>)
    ensures forall k :: 0 <= k < |r| ==> Stripped(r[k])
    decreases JArr(items), 0, |items| - i
  {
    if i >= |items| then []
    else
      assert items[i] in items;
      Walk(items[i], hinted, isHint) + WalkItems(items, hinted, isHint, i + 1)
  }

  /**
    `s` is a string leaf of `v` whose nearest enclosing dict key carries a
    hint; `hinted` stands for the key above `v`, and list elements sit
    under the key of the list.
  */
  predicate HintedLeaf(v: Json, hinted: bool, isHint: string -> bool, s: string)
    decreases v, 1, 0
  {
    match v
    case JObj(fields) => HintedLeafField(fields, isHint, s, 0)
    case JArr(items) => HintedLeafItem(items, hinted, isHint, s, 0)
    case JStr(t) => hinted && t == s
    case _ => false
  }

  /** Some entry from `i` on holds `s` as a hinted leaf, under its own key. */
  predicate HintedLeafField(fields: seq<(string, Json)>, isHint: string -> bool, s: string, i: nat)
    decreases JObj(fields), 0, |fields| - i
  {
    if i >= |fields| then false
    else
      assert fields[i] in fields;
      HintedLeaf(fields[i].1, isHint(fields[i].0), isHint, s) || HintedLeafField(fields, isHint, s, i + 1)
  }

  /** Some element from `i` on holds `s` as a hinted leaf, under the list's key. */
  predicate HintedLeafItem(items: seq<Json>, hinted: bool, isHint: string -> bool, s: string, i: nat)
    decreases JArr(items), 0, |items| - i
  {
    if i >= |items| then false
    else
      assert items[i] in items;
      HintedLeaf(items[i], hinted, isHint, s) || HintedLeafItem(items, hinted, isHint, s, i + 1)
  }

  /** Every collected value is a hinted, non-blank leaf, stripped. */
  lemma {:induction false} WalkSound(v: Json, hinted: bool, isHint: string -> bool, k: nat) returns (s: string)
    requires k < |Walk(v, hinted, isHint)|
    ensures HintedLeaf(v, hinted, isHint, s) && !IsBlank(s) && Walk(v, hinted, isHint)[k] == Trim(s)
    decreases v, 1, 0
  {
    match v
    case JObj(fields) => s := WalkFieldsSound(fields, isHint, 0, k);
    case JArr(items) => s := WalkItemsSound(items, hinted, isHint, 0, k);
    case JStr(t) => s := t;
  }

  lemma {:induction false} WalkFieldsSound(fields: seq<(string, Json)>, isHint: string -> bool, i: nat, k: nat) returns (s: string)
    requires k < |WalkFields(fields, isHint, i)|
    ensures HintedLeafField(fields, isHint, s, i) && !IsBlank(s) && WalkFields(fields, isHint, i)[k] == Trim(s)
    decreases JObj(fields), 0, |fields| - i
  {
    assert fields[i] in fields;
    var head := Walk(fields[i].1, isHint(fields[i].0), isHint);
    var tail := WalkFields(fields, isHint, i + 1);
    assert WalkFields(fields, isHint, i) == head + tail;
    if k < |head| {
      s := WalkSound(fields[i].1, isHint(fields[i].0), isHint, k);
    } else {
      s := WalkFieldsSound(fields, isHint, i + 1, k - |head|);
      assert tail[k - |head|] == Trim(s);
    }
  }

  lemma {:induction false} WalkItemsSound(items: seq<Json>, hinted: bool, isHint: string -> bool, i: nat, k: nat) returns (s: string)
    requires k < |WalkItems(items, hinted, isHint, i)|
    ensures HintedLeafItem(items, hinted, isHint, s, i) && !IsBlank(s) && WalkItems(items, hinted, isHint, i)[k] == Trim(s)
    decreases JArr(items), 0, |items| - i
  {
    assert items[i] in items;
    var head := Walk(items[i], hinted, isHint);
    var tail := WalkItems(items, hinted, isHint, i + 1);
    assert WalkItems(items, hinted, isHint, i) == head + tail;
    if k < |head| {
      s := WalkSound(items[i], hinted, isHint, k);
    } else {
      s := WalkItemsSound(items, hinted, isHint, i + 1, k - |head|);
      assert tail[k - |head|] == Trim(s);
    }
  }

  /** Every hinted, non-blank leaf is collected, stripped. */
  lemma {:induction false} WalkComplete(v: Json, hinted: bool, isHint: string -> bool, s: string)
    requires HintedLeaf(v, hinted, isHint, s) && !IsBlank(s)
    ensures Trim(s) in Walk(v, hinted, isHint)
    decreases v, 1, 0
  {
    match v
    case JObj(fields) => WalkFieldsComplete(fields, isHint, s, 0);
    case JArr(items) => WalkItemsComplete(items, hinted, isHint, s, 0);
    case JStr(t) => assert Leaf(t, hinted) == [Trim(s)];
  }

  lemma {:induction false} WalkFieldsComplete(fields: seq<(string, Json)>, isHint: string -> bool, s: string, i: nat)
    requires HintedLeafField(fields, isHint, s, i) && !IsBlank(s)
    ensures Trim(s) in WalkFields(fields, isHint, i)
    decreases JObj(fields), 0, |fields| - i
  {
    assert fields[i] in fields;
    if HintedLeaf(fields[i].1, isHint(fields[i].0), isHint, s) {
      WalkComplete(fields[i].1, isHint(fields[i].0), isHint, s);
    } else {
      WalkFieldsComplete(fields, isHint, s, i + 1);
    }
  }

  lemma {:induction false} WalkItemsComplete(items: seq<Json>, hinted: bool, isHint: string -> bool, s: string, i: nat)
    requires HintedLeafItem(items, hinted, isHint, s, i) && !IsBlank(s)
    ensures Trim(s) in WalkItems(items, hinted, isHint, i)
    decreases JArr(items), 0, |items| - i
  {
    assert items[i] in items;
    if HintedLeaf(items[i], hinted, isHint, s) {
      WalkComplete(items[i], hinted, isHint, s);
    } else {
      WalkItemsComplete(items, hinted, isHint, s, i + 1);
    }
  }

  /** The walk collects exactly the stripped hinted, non-blank string leaves. */
  lemma WalkMembers(v: Json, hinted: bool, isHint: string -> bool, x: string)
    ensures x in Walk(v, hinted, isHint) <==> exists s :: HintedLeaf(v, hinted, isHint, s) && !IsBlank(s) && x == Trim(s)
  {
    if x in Walk(v, hinted, isHint) {
      var s := WalkMemberLeaf(v, hinted, isHint, x);
    }
    if exists s :: HintedLeaf(v, hinted, isHint, s) && !IsBlank(s) && x == Trim(s) {
      var s :| HintedLeaf(v, hinted, isHint, s) && !IsBlank(s) && x == Trim(s);
      WalkComplete(v, hinted, isHint, s);
    }
  }

  lemma WalkMemberLeaf(v: Json, hinted: bool, isHint: string -> bool, x: string) returns (s: string)
    requires x in Walk(v, hinted, isHint)
    ensures HintedLeaf(v, hinted, isHint, s) && !IsBlank(s) && x == Trim(s)
  {
    var r := Walk(v, hinted, isHint);
    var k :| 0 <= k < |r| && r[k] == x;
    s := WalkSound(v, hinted, isHint, k);
  }

  /** The case-insensitive identity of a name: `value.lower().strip()`. */
  function LowerStrip(s: string): string {
    Trim(Lower(s))
  }

  /** `extract_product_names_from_structure(payload)`. */
  function ExtractProductNames(payload: Json): (r: seq<string>)
    ensures TextMatching.KeysDistinct(r, LowerStrip)
  {
    var all := Walk(payload, HasHint(""), HasHint);
    TextMatching.DedupeDistinct(all, LowerStrip);
    TextMatching.DedupeBy(all, LowerStrip)
  }

  /** Some key in the tree carries a hint. */
  predicate AnyHintKey(v: Json, isHint: string -> bool)
    decreases v, 1, 0
  {
    match v
    case JObj(fields) => AnyHintFields(fields, isHint, 0)
    case JArr(items) => AnyHintItems(items, isHint, 0)
    case _ => false
  }

  predicate AnyHintFields(fields: seq<(string, Json)>, isHint: string -> bool, i: nat)
    decreases JObj(fields), 0, |fields| - i
  {
    if i >= |fields| then false
    else
      assert fields[i] in fields;
      isHint(fields[i].0) || AnyHintKey(fields[i].1, isHint) || AnyHintFields(fields, isHint, i + 1)
  }

  predicate AnyHintItems(items: seq<Json>, isHint: string -> bool, i: nat)
    decreases JArr(items), 0, |items| - i
  {
    if i >= |items| then false
    else
      assert items[i] in items;
      AnyHintKey(items[i], isHint) || AnyHintItems(items, isHint, i + 1)
  }

  /** Nothing is collected from a tree in which no key carries a hint (the root's empty key never does). */
  lemma {:induction false} NoHintNoNames(v: Json, isHint: string -> bool)
    requires !AnyHintKey(v, isHint)
    ensures Walk(v, false, isHint) == []
    decreases v, 1, 0
  {
    match v
    case JObj(fields) => NoHintFields(fields, isHint, 0);
    case JArr(items) => NoHintItems(items, isHint, 0);
    case _ =>
  }

  lemma {:induction false} NoHintFields(fields: seq<(string, Json)>, isHint: string -> bool, i: nat)
    requires !AnyHintFields(fields, isHint, i)
    ensures WalkFields(fields, isHint, i) == []
    decreases JObj(fields), 0, |fields| - i
  {
    if i < |fields| {
      assert fields[i] in fields;
      NoHintNoNames(fields[i].1, isHint);
      NoHintFields(fields, isHint, i + 1);
    }
  }

  lemma {:induction false} NoHintItems(items: seq<Json>, isHint: string -> bool, i: nat)
    requires !AnyHintItems(items, isHint, i)
    ensures WalkItems(items, false, isHint, i) == []
    decreases JArr(items), 0, |items| - i
  {
    if i < |items| {
      assert items[i] in items;
      NoHintNoNames(items[i], isHint);
      NoHintItems(items, isHint, i + 1);
    }
  }

  /** The empty parent key of the root carries no hint. */
  lemma RootKeyNoHint()
    ensures !HasHint("")
  {
    EmptyKeyNormalized();
    HintsNonEmpty();
    NothingInEmpty(Hints);
  }

  lemma EmptyKeyNormalized()
    ensures TextMatching.Normalize("") == ""
  {
    TextMatching.NormalizeEmpty("");
  }

  lemma HintsNonEmpty()
    ensures forall i :: 0 <= i < |Hints| ==> Hints[i] != ""
  {
  }

  /** No non-empty hint occurs in the empty text. */
  lemma {:induction false} NothingInEmpty(hints: seq<string>)
    requires forall i :: 0 <= i < |hints| ==> hints[i] != ""
    ensures !AnyOccurs("", hints)
  {
    if |hints| > 0 {
      assert hints[1..][0..] == hints[1..];
      assert !Contains("", hints[0]);
      assert forall i :: 0 <= i < |hints| - 1 ==> hints[1..][i] == hints[i + 1];
      NothingInEmpty(hints[1..]);
    }
  }

  /** A string at the root, or any non-string scalar, yields nothing. */
  lemma ScalarsAtRootIgnored(v: Json)
    requires !v.JObj? && !v.JArr?
    ensures ExtractProductNames(v) == []
  {
    RootKeyNoHint();
  }

  /** A payload in which no key carries a hint yields no product names. */
  lemma NoHintNoProducts(payload: Json)
    requires !AnyHintKey(payload, HasHint)
    ensures ExtractProductNames(payload) == []
  {
    RootKeyNoHint();
    NoHintNoNames(payload, HasHint);
  }

  /** A one-entry dict is walked as its value under the entry's key. */
  lemma WalkOneField(key: string, v: Json, hinted: bool, isHint: string -> bool)
    ensures Walk(JObj([(key, v)]), hinted, isHint) == Walk(v, isHint(key), isHint)
  {
    var f := [(key, v)];
    assert WalkFields(f, isHint, 1) == [];
  }

  /** A one-element list is walked as its element under the same key. */
  lemma WalkOneItem(v: Json, hinted: bool, isHint: string -> bool)
    ensures Walk(JArr([v]), hinted, isHint) == Walk(v, hinted, isHint)
  {
    assert WalkItems([v], hinted, isHint, 1) == [];
  }

  /** A non-blank string under a hinted key is collected stripped; list elements inherit the key. */
  lemma HintedStringsCollected(key: string, s: string, isHint: string -> bool)
    requires isHint(key) && !IsBlank(s)
    ensures Walk(JObj([(key, JStr(s))]), false, isHint) == [Trim(s)]
    ensures Walk(JObj([(key, JArr([JStr(s)]))]), false, isHint) == [Trim(s)]
  {
    assert Walk(JStr(s), true, isHint) == [Trim(s)] by {
      assert Leaf(s, true) == [Trim(s)];
    }
    WalkOneField(key, JStr(s), false, isHint);
    assert Walk(JArr([JStr(s)]), true, isHint) == [Trim(s)] by {
      WalkOneItem(JStr(s), true, isHint);
    }
    WalkOneField(key, JArr([JStr(s)]), false, isHint);
  }

  /**
    The result keeps, for each case-insensitive name, the first collected
    value in depth-first order, and no two results are equal ignoring case.
  */
  lemma ExtractProductNamesUnique(payload: Json)
    ensures var r := ExtractProductNames(payload);
      var all := Walk(payload, HasHint(""), HasHint);
      TextMatching.KeysDistinct(r, LowerStrip) &&
      (forall j :: 0 <= j < |all| ==> LowerStrip(all[j]) in TextMatching.KeysOf(r, LowerStrip)) &&
      (forall i :: 0 <= i < |r| ==> r[i] in all)
  {
    var all := Walk(payload, HasHint(""), HasHint);
    var r := ExtractProductNames(payload);
    TextMatching.DedupeDistinct(all, LowerStrip);
    forall j | 0 <= j < |all| ensures LowerStrip(all[j]) in TextMatching.KeysOf(r, LowerStrip) {
      TextMatching.DedupeCovers(all, LowerStrip, j);
    }
    forall i | 0 <= i < |r| ensures r[i] in all {
      TextMatching.DedupeFirst(all, LowerStrip, i);
    }
  }

  lemma NoUnderscoreNoHint(n: string)
    requires forall j :: 0 <= j < |n| ==> n[j] != '_'
    ensures !Contains(n, "product_name")
  {
    if Contains(n, "product_name") {
      var i :| 0 <= i <= |n| - |"product_name"| && OccursAt(n, "product_name", i);
      OccursAtChar(n, "product_name", i, 7);
    }
  }

  /** The hint `product_name` never fires: a normalized key holds no underscore. */
  lemma ProductNameHintUnreachable(key: string)
    ensures !Contains(TextMatching.Normalize(key), "product_name")
  {
    TextMatching.NormalizeNoUnderscore(key);
    NoUnderscoreNoHint(TextMatching.Normalize(key));
  }
}
