/**
  `app/services/validation/validation_service.py`, `validate_data`: the
  decision taken once a document has been extracted and saved. The early
  rejections, the expansion of rule rows into product candidates and the
  five-tier matching cascade are modelled as pure functions of the document
  type, the certificate type, the extracted product names and the active
  rules. The service's private helpers (`_normalize_text`,
  `_normalized_rule_product_candidates`, the three scores) are copies of the
  functions in `text_matching.py` and are taken from `TextMatching`.
*/
module Validation {
  import opened Wrappers
  import opened Strings
  import opened JsonValue
  import TextMatching

  const TokenOverlapThreshold: real := 0.6
  const StemOverlapThreshold: real := 0.5
  const ConfiguredFuzzyThreshold: real := 0.80
  const MinTokenIntersection: int := 1

  /** An active rule row as the rule query returns it; `productName` may hold several products. */
  datatype Rule = Rule(id: int, certificateType: Json, productName: Json)

  /** A rule with its non-empty list of normalized product candidates. */
  datatype Expanded = Expanded(rule: Rule, candidates: seq<string>)

  /** A rule candidate, in the order the nested loops visit them. */
  datatype Pair = Pair(rule: Rule, candidate: string)

  /** A rule candidate against one normalized product name. */
  datatype Triple = Triple(rule: Rule, candidate: string, product: string)

  datatype MatchKind = Exact | Containment | TokenOverlap | StemOverlap | Fuzzy

  /** The matched rule, its matched candidate, the tier and the score (`round` is not modelled). */
  datatype Match = Match(rule: Rule, candidate: string, kind: MatchKind, score: real)

  datatype Status = Approved | Rejected

  /** Which branch of `validate_data` produced the verdict (its validation message). */
  datatype Reason = NotACertificate | NoCertificateType | NoActiveRules | Compared

  /**
    The `data` part of the result. The early rejections carry no normalized
    lists in the source; they are empty here.
  */
  datatype Verdict = Verdict(
    status: Status,
    reason: Reason,
    productNames: seq<string>,
    normalizedProducts: seq<string>,
    ruleProducts: seq<string>,
    matched: Option<Match>,
    rulesChecked: nat)

  // ---------------------------------------------------------------------
  // The two loop shapes of the cascade
  // ---------------------------------------------------------------------

  /** The first element satisfying `p`: the nested `for ... break` loops of tiers 1 and 2. */
  function FirstWhere<T>(xs: seq<T>, p: T -> bool): (r: Option<nat>)
    ensures r.Some? ==> r.value < |xs| && p(xs[r.value])
    ensures r.Some? ==> forall j :: 0 <= j < r.value ==> !p(xs[j])
    ensures r.None? ==> forall j :: 0 <= j < |xs| ==> !p(xs[j])
  {
    if |xs| == 0 then None
    else if p(xs[0]) then Some(0)
    else
      var r := FirstWhere(xs[1..], p);
      assert forall j :: 1 <= j < |xs| ==> xs[j] == xs[1..][j - 1];
      if r.Some? then Some(r.value + 1) else None
  }

  /**
    The loop of tiers 3 to 5 from position `i` on: a score replaces the best
    so far only when it is strictly greater, starting from `0.0`.
  */
  function BestFrom<T>(xs: seq<T>, score: T -> real, i: nat, best: Option<nat>, bestScore: real): Option<nat>
    requires i <= |xs|
    decreases |xs| - i
  {
    if i == |xs| then best
    else if score(xs[i]) > bestScore then BestFrom(xs, score, i + 1, Some(i), score(xs[i]))
    else BestFrom(xs, score, i + 1, best, bestScore)
  }

  /** The loop state after visiting `xs[..i]`: `best` is the first strict maximum, if any score was positive. */
  predicate BestSoFar<T>(xs: seq<T>, score: T -> real, i: nat, best: Option<nat>, bestScore: real) {
    i <= |xs| &&
    (best.None? ==> bestScore == 0.0 && forall j :: 0 <= j < i ==> score(xs[j]) <= 0.0) &&
    (best.Some? ==>
      best.value < i && bestScore == score(xs[best.value]) && bestScore > 0.0 &&
      (forall j :: 0 <= j < i ==> score(xs[j]) <= bestScore) &&
      (forall j :: 0 <= j < best.value ==> score(xs[j]) < bestScore))
  }

  function ScoreOf<T>(xs: seq<T>, score: T -> real, best: Option<nat>): real
    requires best.Some? ==> best.value < |xs|
  {
    if best.Some? then score(xs[best.value]) else 0.0
  }

  /** The loop keeps its invariant to the end. */
  lemma {:induction false} BestFromSpec<T>(xs: seq<T>, score: T -> real, i: nat, best: Option<nat>, bestScore: real)
    requires BestSoFar(xs, score, i, best, bestScore)
    ensures var r := BestFrom(xs, score, i, best, bestScore);
      (r.Some? ==> r.value < |xs|) && BestSoFar(xs, score, |xs|, r, ScoreOf(xs, score, r))
    decreases |xs| - i
  {
    if i < |xs| {
      if score(xs[i]) > bestScore {
        BestFromSpec(xs, score, i + 1, Some(i), score(xs[i]));
      } else {
        BestFromSpec(xs, score, i + 1, best, bestScore);
      }
    }
  }

  /**
    The pair the scoring loop settles on: None when no score is positive,
    otherwise the first position holding the maximal score.
  */
  function Best<T>(xs: seq<T>, score: T -> real): (r: Option<nat>)
    ensures r.None? <==> forall j :: 0 <= j < |xs| ==> score(xs[j]) <= 0.0
    ensures r.Some? ==> r.value < |xs| && score(xs[r.value]) > 0.0
    ensures r.Some? ==> forall j :: 0 <= j < |xs| ==> score(xs[j]) <= score(xs[r.value])
    ensures r.Some? ==> forall j :: 0 <= j < r.value ==> score(xs[j]) < score(xs[r.value])
  {
    BestFromSpec(xs, score, 0, None, 0.0);
    BestFrom(xs, score, 0, None, 0.0)
  }

  /** The first strict maximum is unique: any position with its properties is the one `Best` picks. */
  lemma BestUnique<T>(xs: seq<T>, score: T -> real, b: nat)
    requires b < |xs| && score(xs[b]) > 0.0
    requires forall j :: 0 <= j < |xs| ==> score(xs[j]) <= score(xs[b])
    requires forall j :: 0 <= j < b ==> score(xs[j]) < score(xs[b])
    ensures Best(xs, score) == Some(b)
  {
    var r := Best(xs, score);
    assert score(xs[b]) <= score(xs[r.value]);
  }

  // ---------------------------------------------------------------------
  // Inputs of the cascade
  // ---------------------------------------------------------------------

  /** `[normalize(v) for v in names if normalize(v)]`. */
  function NormalizedProducts(names: seq<string>): (r: seq<string>)
    ensures forall i :: 0 <= i < |r| ==> r[i] != ""
  {
    NonEmpty(TextMatching.NormalizeAll(names))
  }

  /**
    The rules whose product field yields candidates, each with them, in rule
    order; `cands` is the candidate split (`TextMatching.Candidates`).
  */
  function ExpandRules(rules: seq<Rule>, cands: Json -> seq<string>): (r: seq<Expanded>)
    ensures |r| <= |rules|
    ensures forall i :: 0 <= i < |r| ==> r[i].rule in rules && r[i].candidates == cands(r[i].rule.productName)
    ensures forall i :: 0 <= i < |r| ==> r[i].candidates != []
  {
    if |rules| == 0 then []
    else
      var c := cands(rules[0].productName);
      (if c == [] then [] else [Expanded(rules[0], c)]) + ExpandRules(rules[1..], cands)
  }

  /** Every rule with candidates is expanded (the converse is part of `ExpandRules`'s contract). */
  lemma {:induction false} ExpandRulesHas(rules: seq<Rule>, cands: Json -> seq<string>, x: Rule) returns (i: nat)
    requires x in rules && cands(x.productName) != []
    ensures i < |ExpandRules(rules, cands)| && ExpandRules(rules, cands)[i].rule == x
  {
    var c := cands(rules[0].productName);
    var head := if c == [] then [] else [Expanded(rules[0], c)];
    var ex := ExpandRules(rules, cands);
    assert ex == head + ExpandRules(rules[1..], cands);
    if x == rules[0] {
      i := 0;
    } else {
      assert x in rules[1..];
      var i' := ExpandRulesHas(rules[1..], cands, x);
      i := |head| + i';
    }
  }

  /** `normalized_rule_products`: every candidate of every expanded rule, in order. */
  function RuleProducts(ex: seq<Expanded>): seq<string> {
    if |ex| == 0 then [] else ex[0].candidates + RuleProducts(ex[1..])
  }

  /** The (rule, candidate) pairs in the order of the two outer loops. */
  function Pairs(ex: seq<Expanded>): (r: seq<Pair>)
    ensures |r| == |RuleProducts(ex)|
    ensures forall i :: 0 <= i < |r| ==> r[i].candidate == RuleProducts(ex)[i]
  {
    if |ex| == 0 then []
    else
      var head := seq(|ex[0].candidates|, k requires 0 <= k < |ex[0].candidates| => Pair(ex[0].rule, ex[0].candidates[k]));
      head + Pairs(ex[1..])
  }

  /** Every pair comes from an expanded rule and one of its candidates. */
  lemma {:induction false} PairsFromRules(ex: seq<Expanded>, i: nat) returns (e: nat)
    requires i < |Pairs(ex)|
    ensures e < |ex| && Pairs(ex)[i].rule == ex[e].rule && Pairs(ex)[i].candidate in ex[e].candidates
  {
    var n := |ex[0].candidates|;
    if i >= n {
      var e' := PairsFromRules(ex[1..], i - n);
      assert Pairs(ex)[i] == Pairs(ex[1..])[i - n];
      assert ex[1..][e'] == ex[e' + 1];
      e := e' + 1;
    } else {
      assert Pairs(ex)[i] == Pair(ex[0].rule, ex[0].candidates[i]);
      e := 0;
    }
  }

  /** Every candidate of every expanded rule is paired with that rule (the converse of `PairsFromRules`). */
  lemma {:induction false} PairsHas(ex: seq<Expanded>, e: nat, c: string) returns (i: nat)
    requires e < |ex| && c in ex[e].candidates
    ensures i < |Pairs(ex)| && Pairs(ex)[i] == Pair(ex[e].rule, c)
  {
    var n := |ex[0].candidates|;
    if e == 0 {
      var k :| 0 <= k < n && ex[0].candidates[k] == c;
      assert Pairs(ex)[k] == Pair(ex[0].rule, ex[0].candidates[k]);
      i := k;
    } else {
      assert ex[1..][e - 1] == ex[e];
      var i' := PairsHas(ex[1..], e - 1, c);
      assert Pairs(ex)[n + i'] == Pairs(ex[1..])[i'];
      i := n + i';
    }
  }

  /** Each pair against each product, in the order of the three nested loops. */
  function Triples(pairs: seq<Pair>, products: seq<string>): seq<Triple> {
    if |pairs| == 0 then []
    else
      seq(|products|, k requires 0 <= k < |products| => Triple(pairs[0].rule, pairs[0].candidate, products[k]))
      + Triples(pairs[1..], products)
  }

  /** Every triple is a pair against a product. */
  lemma {:induction false} TripleFrom(pairs: seq<Pair>, products: seq<string>, i: nat) returns (j: nat, k: nat)
    requires i < |Triples(pairs, products)|
    ensures j < |pairs| && k < |products|
    ensures Triples(pairs, products)[i] == Triple(pairs[j].rule, pairs[j].candidate, products[k])
  {
    var head := seq(|products|, n requires 0 <= n < |products| => Triple(pairs[0].rule, pairs[0].candidate, products[n]));
    var tail := Triples(pairs[1..], products);
    assert Triples(pairs, products) == head + tail;
    if i < |head| {
      j, k := 0, i;
    } else {
      var j', k' := TripleFrom(pairs[1..], products, i - |head|);
      assert pairs[1..][j'] == pairs[j' + 1];
      j, k := j' + 1, k';
    }
  }

  // ---------------------------------------------------------------------
  // The five tiers
  // ---------------------------------------------------------------------

  predicate InProducts(products: seq<string>, p: Pair) {
    p.candidate in products
  }

  /** Substring containment in either direction (`a in b or b in a`). */
  predicate Overlaps(t: Triple) {
    Contains(t.product, t.candidate) || Contains(t.candidate, t.product)
  }

  /** Tier 1: the first candidate that is one of the normalized product names. */
  function ExactTier(pairs: seq<Pair>, products: seq<string>): (r: Option<Match>)
    ensures r.Some? <==> exists i :: 0 <= i < |pairs| && pairs[i].candidate in products
    ensures r.Some? ==> r.value.kind == Exact && r.value.score == 1.0 && r.value.candidate in products
    ensures r.Some? ==> Pair(r.value.rule, r.value.candidate) in pairs
  {
    var f := FirstWhere(pairs, p => InProducts(products, p));
    if f.Some? then Some(Match(pairs[f.value].rule, pairs[f.value].candidate, Exact, 1.0)) else None
  }

  /** The match was built from the rule and candidate of one of the triples. */
  predicate FromTriple(triples: seq<Triple>, m: Match) {
    exists i :: 0 <= i < |triples| && triples[i].rule == m.rule && triples[i].candidate == m.candidate
  }

  /** Tier 2: the first (candidate, product) pair where one contains the other. */
  function ContainsTier(triples: seq<Triple>): (r: Option<Match>)
    ensures r.Some? <==> exists i :: 0 <= i < |triples| && Overlaps(triples[i])
    ensures r.Some? ==> r.value.kind == Containment && r.value.score == 0.9 && FromTriple(triples, r.value)
  {
    var f := FirstWhere(triples, Overlaps);
    if f.Some? then Some(Match(triples[f.value].rule, triples[f.value].candidate, Containment, 0.9)) else None
  }

  /** Tiers 3 to 5: the first maximal pair, accepted when its score reaches `threshold`. */
  function ScoredTier(triples: seq<Triple>, score: Triple -> real, threshold: real, kind: MatchKind): (r: Option<Match>)
    ensures r.Some? ==> r.value.kind == kind && r.value.score > 0.0 && r.value.score >= threshold
    ensures r.Some? ==> Best(triples, score).Some?
    ensures r.Some? ==> var b := Best(triples, score).value;
      r.value == Match(triples[b].rule, triples[b].candidate, kind, score(triples[b]))
    ensures r.None? <==> Best(triples, score).None? || score(triples[Best(triples, score).value]) < threshold
  {
    var b := Best(triples, score);
    if b.Some? && score(triples[b.value]) >= threshold then
      Some(Match(triples[b.value].rule, triples[b.value].candidate, kind, score(triples[b.value])))
    else None
  }

  function TokenScore(t: Triple): real {
    TextMatching.TokenOverlap(t.candidate, t.product, MinTokenIntersection)
  }

  function StemScore(stem: string -> string): Triple -> real {
    (t: Triple) => TextMatching.StemOverlap(t.candidate, t.product, stem)
  }

  function FuzzyScore(ratio: (string, string) -> real): Triple -> real {
    (t: Triple) => TextMatching.FuzzySimilarity(t.candidate, t.product, ConfiguredFuzzyThreshold, ratio)
  }

  /** The cascade: each tier runs only when every earlier one found nothing. */
  function Cascade(pairs: seq<Pair>, products: seq<string>, stem: string -> string,
                   ratio: (string, string) -> real): (r: Option<Match>)
    ensures r.Some? ==> r.value.score > 0.0
    ensures r.Some? && r.value.kind == Exact ==> r.value.candidate in products
  {
    var triples := Triples(pairs, products);
    var t1 := ExactTier(pairs, products);
    if t1.Some? then t1
    else
      var t2 := ContainsTier(triples);
      if t2.Some? then t2
      else
        var t3 := ScoredTier(triples, TokenScore, TokenOverlapThreshold, TokenOverlap);
        if t3.Some? then t3
        else
          var t4 := ScoredTier(triples, StemScore(stem), StemOverlapThreshold, StemOverlap);
          if t4.Some? then t4
          else ScoredTier(triples, FuzzyScore(ratio), 0.0, Fuzzy)
  }

  /** What each tier's match says about the earlier tiers and about its own pair. */
  lemma CascadeTiers(pairs: seq<Pair>, products: seq<string>, stem: string -> string,
                     ratio: (string, string) -> real)
    ensures var m := Cascade(pairs, products, stem, ratio);
      var triples := Triples(pairs, products);
      (m.Some? && m.value.kind == Exact ==> m == ExactTier(pairs, products)) &&
      (m.Some? && m.value.kind != Exact ==> forall i :: 0 <= i < |pairs| ==> pairs[i].candidate !in products) &&
      (m.Some? && m.value.kind == Containment ==> m == ContainsTier(triples)) &&
      (m.Some? && m.value.kind in {TokenOverlap, StemOverlap, Fuzzy} ==>
        forall i :: 0 <= i < |triples| ==> !Overlaps(triples[i])) &&
      (m.Some? && m.value.kind == TokenOverlap ==> m.value.score >= TokenOverlapThreshold) &&
      (m.Some? && m.value.kind in {StemOverlap, Fuzzy} ==>
        ScoredTier(triples, TokenScore, TokenOverlapThreshold, TokenOverlap).None?) &&
      (m.Some? && m.value.kind == StemOverlap ==> m.value.score >= StemOverlapThreshold) &&
      (m.Some? && m.value.kind == Fuzzy ==>
        ScoredTier(triples, StemScore(stem), StemOverlapThreshold, StemOverlap).None? && m.value.score >= 0.70)
  {
    var triples := Triples(pairs, products);
    var m := Cascade(pairs, products, stem, ratio);
    if m.Some? && m.value.kind == Fuzzy {
      var b := Best(triples, FuzzyScore(ratio)).value;
      TextMatching.FuzzyPositiveBound(triples[b].candidate, triples[b].product, ConfiguredFuzzyThreshold, ratio);
    }
  }

  /** The cascade finds nothing only when no tier can: no shared candidate, no containment, no positive fuzzy score. */
  lemma CascadeNone(pairs: seq<Pair>, products: seq<string>, stem: string -> string,
                    ratio: (string, string) -> real)
    ensures var triples := Triples(pairs, products);
      Cascade(pairs, products, stem, ratio).None? <==>
        (forall i :: 0 <= i < |pairs| ==> pairs[i].candidate !in products) &&
        (forall i :: 0 <= i < |triples| ==> !Overlaps(triples[i])) &&
        ScoredTier(triples, TokenScore, TokenOverlapThreshold, TokenOverlap).None? &&
        ScoredTier(triples, StemScore(stem), StemOverlapThreshold, StemOverlap).None? &&
        forall i :: 0 <= i < |triples| ==> FuzzyScore(ratio)(triples[i]) <= 0.0
  {
  }

  /** A match of any tier names one of the (rule, candidate) pairs. */
  lemma CascadePair(pairs: seq<Pair>, products: seq<string>, stem: string -> string,
                    ratio: (string, string) -> real) returns (j: nat)
    requires Cascade(pairs, products, stem, ratio).Some?
    ensures var m := Cascade(pairs, products, stem, ratio).value;
      j < |pairs| && pairs[j] == Pair(m.rule, m.candidate)
  {
    var m := Cascade(pairs, products, stem, ratio).value;
    var triples := Triples(pairs, products);
    if m.kind == Exact {
      j :| 0 <= j < |pairs| && pairs[j] == Pair(m.rule, m.candidate);
    } else {
      var i: nat :| i < |triples| && triples[i].rule == m.rule && triples[i].candidate == m.candidate by {
        if m.kind != Containment {
          var score := if m.kind == TokenOverlap then TokenScore
            else if m.kind == StemOverlap then StemScore(stem) else FuzzyScore(ratio);
          var b := Best(triples, score).value;
          assert triples[b].rule == m.rule && triples[b].candidate == m.candidate;
        }
      }
      var k;
      j, k := TripleFrom(pairs, products, i);
    }
  }

  /** The matched rule is one of the rules given, and the matched candidate one of its candidates. */
  lemma CascadeRule(rules: seq<Rule>, cands: Json -> seq<string>, products: seq<string>,
                    stem: string -> string, ratio: (string, string) -> real)
    requires Cascade(Pairs(ExpandRules(rules, cands)), products, stem, ratio).Some?
    ensures var m := Cascade(Pairs(ExpandRules(rules, cands)), products, stem, ratio).value;
      m.rule in rules && m.candidate in cands(m.rule.productName)
  {
    var ex := ExpandRules(rules, cands);
    var j := CascadePair(Pairs(ex), products, stem, ratio);
    var e := PairsFromRules(ex, j);
  }

  /** With non-empty candidates and products, every compared pair of strings is non-empty. */
  lemma NonEmptyTriples(rules: seq<Rule>, cands: Json -> seq<string>, products: seq<string>)
    requires forall v, k :: 0 <= k < |cands(v)| ==> cands(v)[k] != ""
    requires forall k :: 0 <= k < |products| ==> products[k] != ""
    ensures var triples := Triples(Pairs(ExpandRules(rules, cands)), products);
      forall i :: 0 <= i < |triples| ==> triples[i].product != "" && triples[i].candidate != ""
  {
    var ex := ExpandRules(rules, cands);
    var pairs := Pairs(ex);
    var triples := Triples(pairs, products);
    forall i | 0 <= i < |triples| ensures triples[i].product != "" && triples[i].candidate != "" {
      var j, k := TripleFrom(pairs, products, i);
      var e := PairsFromRules(ex, j);
      assert pairs[j].candidate in cands(ex[e].rule.productName);
    }
  }

  // ---------------------------------------------------------------------
  // validate_data
  // ---------------------------------------------------------------------

  /**
    The verdict of `validate_data` for a saved extraction. `documentType`
    is `str(document_type or "").strip()`, `productNames` what the product
    extraction returned, `rules` the active rules for the certificate type.
  */
  function ValidateData(documentType: string, certificateType: Json, productNames: seq<string>,
                        rules: seq<Rule>, stem: string -> string, ratio: (string, string) -> real): (v: Verdict)
    ensures Lower(documentType) != "certificate" ==>
      v.status == Rejected && v.reason == NotACertificate && v.productNames == [] && v.rulesChecked == 0
    ensures Lower(documentType) == "certificate" && TextMatching.NormalizeText(certificateType) == "" ==>
      v.status == Rejected && v.reason == NoCertificateType && v.productNames == [] && v.rulesChecked == 0
    ensures v.reason == NoActiveRules ==> v.status == Rejected && v.rulesChecked == 0 && v.productNames == productNames
    ensures v.reason == Compared ==> v.rulesChecked == |rules| > 0 && v.productNames == productNames
    ensures v.status == Approved <==> v.matched.Some?
    ensures v.reason == Compared ==>
      v.matched == Cascade(Pairs(ExpandRules(rules, TextMatching.Candidates)), NormalizedProducts(productNames), stem, ratio) &&
      v.normalizedProducts == NormalizedProducts(productNames) &&
      v.ruleProducts == RuleProducts(ExpandRules(rules, TextMatching.Candidates))
  {
    if Lower(documentType) != "certificate" then
      Verdict(Rejected, NotACertificate, [], [], [], None, 0)
    else if TextMatching.NormalizeText(certificateType) == "" then
      Verdict(Rejected, NoCertificateType, [], [], [], None, 0)
    else
      var products := NormalizedProducts(productNames);
      var ex := ExpandRules(rules, TextMatching.Candidates);
      if |rules| == 0 || |ex| == 0 then
        Verdict(Rejected, NoActiveRules, productNames, [], [], None, 0)
      else
        var m := Cascade(Pairs(ex), products, stem, ratio);
        Verdict(if m.Some? then Approved else Rejected, Compared, productNames, products, RuleProducts(ex), m, |rules|)
  }

  /** The rules are compared only when at least one of them yields a product candidate. */
  lemma ComparedIffCandidates(documentType: string, certificateType: Json, productNames: seq<string>,
                              rules: seq<Rule>, stem: string -> string, ratio: (string, string) -> real)
    requires Lower(documentType) == "certificate" && TextMatching.NormalizeText(certificateType) != ""
    ensures ValidateData(documentType, certificateType, productNames, rules, stem, ratio).reason == Compared <==>
      exists r :: r in rules && TextMatching.Candidates(r.productName) != []
  {
    var ex := ExpandRules(rules, TextMatching.Candidates);
    if exists r :: r in rules && TextMatching.Candidates(r.productName) != [] {
      var r :| r in rules && TextMatching.Candidates(r.productName) != [];
      var i := ExpandRulesHas(rules, TextMatching.Candidates, r);
    }
  }

  /**
    A certificate with a type whose extracted products include a candidate
    of one of the rules is approved by the first tier, as an exact match.
  */
  lemma ExactProductApproved(documentType: string, certificateType: Json, productNames: seq<string>,
                             rules: seq<Rule>, stem: string -> string, ratio: (string, string) -> real, r: Rule, c: string)
    requires Lower(documentType) == "certificate" && TextMatching.NormalizeText(certificateType) != ""
    requires r in rules && c in TextMatching.Candidates(r.productName) && c in NormalizedProducts(productNames)
    ensures var v := ValidateData(documentType, certificateType, productNames, rules, stem, ratio);
      v.status == Approved && v.reason == Compared && v.matched.value.kind == Exact
  {
    var ex := ExpandRules(rules, TextMatching.Candidates);
    var products := NormalizedProducts(productNames);
    var e := ExpandRulesHas(rules, TextMatching.Candidates, r);
    var i := PairsHas(ex, e, c);
    assert Pairs(ex)[i].candidate in products;
    assert ExactTier(Pairs(ex), products).Some?;
  }

  /** An approval names a rule from the input and one of that rule's product candidates. */
  lemma ApprovalJustified(documentType: string, certificateType: Json, productNames: seq<string>,
                          rules: seq<Rule>, stem: string -> string, ratio: (string, string) -> real)
    ensures var v := ValidateData(documentType, certificateType, productNames, rules, stem, ratio);
      v.status == Approved ==>
        v.reason == Compared && v.matched.value.rule in rules &&
        v.matched.value.candidate in TextMatching.Candidates(v.matched.value.rule.productName)
  {
    var v := ValidateData(documentType, certificateType, productNames, rules, stem, ratio);
    if v.status == Approved {
      CascadeRule(rules, TextMatching.Candidates, NormalizedProducts(productNames), stem, ratio);
    }
  }

  /** Tier 2 never matches through an empty string: every compared product and candidate is non-empty. */
  lemma NoEmptyComparisons(rules: seq<Rule>, productNames: seq<string>)
    ensures var triples := Triples(Pairs(ExpandRules(rules, TextMatching.Candidates)), NormalizedProducts(productNames));
      forall i :: 0 <= i < |triples| ==> triples[i].product != "" && triples[i].candidate != ""
  {
    forall v: Json ensures forall k :: 0 <= k < |TextMatching.Candidates(v)| ==> TextMatching.Candidates(v)[k] != "" {
      TextMatching.CandidatesDistinct(v);
    }
    NonEmptyTriples(rules, TextMatching.Candidates, NormalizedProducts(productNames));
  }
}
