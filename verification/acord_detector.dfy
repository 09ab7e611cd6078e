/**
  `backend/services/acord_detector.py`: decides from the field names of a
  fillable PDF whether it is an ACORD form, and how confidently.
*/
module AcordDetector {
  import opened Wrappers
  import opened Strings

  /** `ACORD_FIELD_PATTERNS`, in order. */
  const Patterns: seq<string> := [
    "NamedInsured",
    "Producer_",
    "Policy_GeneralLiability",
    "Policy_AutomobileLiability",
    "Policy_WorkersCompensation",
    "Policy_ExcessLiability",
    "Insurer_FullName",
    "Insurer_NAICCode",
    "CertificateHolder",
    "Vehicle_",
    "WorkersCompensation",
    "GeneralAggregateLimitAmount",
    "EachOccurrenceLimitAmount"
  ]

  /** The ACORD 25 indicators of `_detect_acord_form_type`, already lower-case. */
  const Acord25Indicators: seq<string> := [
    "certificateholder",
    "generalliability",
    "automobileliability",
    "workerscompensation",
    "excessliability",
    "namedinsured"
  ]

  const Acord25Label := "ACORD 25 - Certificate of Liability Insurance"
  const UndeterminedLabel := "ACORD Form (type undetermined)"
  const PossibleLabel := "Possible ACORD form"
  const NotAcordLabel := "Not an ACORD form"

  datatype Confidence = NoConfidence | Low | Medium | High {
    function Rank(): nat {
      match this
      case NoConfidence => 0
      case Low => 1
      case Medium => 2
      case High => 3
    }
  }

  /** What opening the PDF gives: a missing file, a reader exception, or the field names (`None` is the empty list). */
  datatype DetectorInput = FileMissing(path: string) | ReadError(message: string) | Fields(names: seq<string>)

  datatype Detection = Detection(
    isFillable: bool,
    isAcord: bool,
    fieldCount: nat,
    patternMatches: nat,
    confidence: Confidence,
    formType: string,
    matchedPatterns: seq<string>,
    error: Option<string>)

  /** `pattern.lower() in field_name.lower()` for some field name. */
  predicate MatchesSome(pattern: string, names: seq<string>) {
    exists i :: 0 <= i < |names| && Contains(Lower(names[i]), Lower(pattern))
  }

  /** The patterns that match some name, each once, in pattern order. */
  function Matched(patterns: seq<string>, names: seq<string>): (r: seq<string>)
    ensures |r| <= |patterns|
    ensures forall p :: p in r <==> p in patterns && MatchesSome(p, names)
  {
    if |patterns| == 0 then []
    else (if MatchesSome(patterns[0], names) then [patterns[0]] else []) + Matched(patterns[1..], names)
  }

  predicate Distinct(xs: seq<string>) {
    forall i, j :: 0 <= i < j < |xs| ==> xs[i] != xs[j]
  }

  /** A pattern list without repeats gives matched patterns without repeats. */
  lemma {:induction false} MatchedDistinct(patterns: seq<string>, names: seq<string>)
    requires Distinct(patterns)
    ensures Distinct(Matched(patterns, names))
  {
    if |patterns| > 0 {
      var rest := patterns[1..];
      assert Distinct(rest) by {
        forall i, j | 0 <= i < j < |rest| ensures rest[i] != rest[j] {
          assert rest[i] == patterns[i + 1] && rest[j] == patterns[j + 1];
        }
      }
      MatchedDistinct(rest, names);
      assert patterns[0] !in rest by {
        forall i | 0 <= i < |rest| ensures rest[i] != patterns[0] {
          assert rest[i] == patterns[i + 1];
        }
      }
      var tail := Matched(rest, names);
      assert patterns[0] !in tail;
      var head := if MatchesSome(patterns[0], names) then [patterns[0]] else [];
      var r := head + tail;
      forall i, j | 0 <= i < j < |r| ensures r[i] != r[j] {
        if i >= |head| {
          assert r[i] == tail[i - |head|] && r[j] == tail[j - |head|];
        } else {
          assert r[j] == tail[j - 1] && r[j] in tail;
        }
      }
    }
  }

  /** A sequence without repeats has as many distinct elements as positions. */
  lemma {:induction false} DistinctCard(xs: seq<string>)
    requires Distinct(xs)
    ensures |set x | x in xs| == |xs|
  {
    if |xs| > 0 {
      var rest := xs[1..];
      assert Distinct(rest) by {
        forall i, j | 0 <= i < j < |rest| ensures rest[i] != rest[j] {
          assert rest[i] == xs[i + 1] && rest[j] == xs[j + 1];
        }
      }
      DistinctCard(rest);
      assert xs[0] !in rest by {
        forall i | 0 <= i < |rest| ensures rest[i] != xs[0] {
          assert rest[i] == xs[i + 1];
        }
      }
      assert (set x | x in xs) == {xs[0]} + (set x | x in rest) by {
        assert xs == [xs[0]] + rest;
      }
    }
  }

  /**
    With a pattern list without repeats, the match count is the number of
    distinct patterns that occur in some field name.
  */
  lemma MatchedCount(patterns: seq<string>, names: seq<string>)
    requires Distinct(patterns)
    ensures |Matched(patterns, names)| == |set p | p in patterns && MatchesSome(p, names)|
  {
    var r := Matched(patterns, names);
    MatchedDistinct(patterns, names);
    DistinctCard(r);
    assert (set x | x in r) == (set p | p in patterns && MatchesSome(p, names));
  }

  /** The detector's pattern list has no repeats. */
  lemma PatternsDistinct()
    ensures Distinct(Patterns)
  {
  }

  /** Adding field names never loses a matched pattern. */
  lemma {:induction false} MatchedMonotone(patterns: seq<string>, names: seq<string>, more: seq<string>)
    ensures |Matched(patterns, names)| <= |Matched(patterns, names + more)|
  {
    if |patterns| > 0 {
      MatchedMonotone(patterns[1..], names, more);
      if MatchesSome(patterns[0], names) {
        var i :| 0 <= i < |names| && Contains(Lower(names[i]), Lower(patterns[0]));
        assert (names + more)[i] == names[i];
      }
    }
  }

  /** The tier of a match count. */
  function ConfidenceOf(matches: nat): (c: Confidence)
    ensures c == High <==> matches >= 8
    ensures c == Medium <==> 5 <= matches < 8
    ensures c == Low <==> 3 <= matches < 5
    ensures c == NoConfidence <==> matches < 3
  {
    if matches >= 8 then High
    else if matches >= 5 then Medium
    else if matches >= 3 then Low
    else NoConfidence
  }

  /** A higher count never gives a lower tier. */
  lemma ConfidenceMonotone(m: nat, n: nat)
    requires m <= n
    ensures ConfidenceOf(m).Rank() <= ConfidenceOf(n).Rank()
  {
  }

  /** The number of indicators occurring in some lower-cased field name. */
  function IndicatorCount(indicators: seq<string>, names: seq<string>): (n: nat)
    ensures n <= |indicators|
  {
    if |indicators| == 0 then 0
    else (if MatchesSome(indicators[0], names) then 1 else 0) + IndicatorCount(indicators[1..], names)
  }

  /** The positions from `k` on of the indicators that occur in some field name. */
  function IndicatorHits(indicators: seq<string>, names: seq<string>, k: nat): set<int> {
    set i | k <= i < |indicators| && MatchesSome(indicators[i], names)
  }

  lemma {:induction false} IndicatorCountFrom(indicators: seq<string>, names: seq<string>, k: nat)
    requires k <= |indicators|
    ensures IndicatorCount(indicators[k..], names) == |IndicatorHits(indicators, names, k)|
    decreases |indicators| - k
  {
    if k < |indicators| {
      IndicatorCountFrom(indicators, names, k + 1);
      assert indicators[k..][1..] == indicators[k + 1..];
      var head: set<int> := if MatchesSome(indicators[k], names) then {k} else {};
      assert IndicatorHits(indicators, names, k) == head + IndicatorHits(indicators, names, k + 1);
      assert k !in IndicatorHits(indicators, names, k + 1);
    } else {
      assert IndicatorHits(indicators, names, k) == {};
    }
  }

  /** The count is the number of indicator positions that occur in some field name. */
  lemma IndicatorCountHits(indicators: seq<string>, names: seq<string>)
    ensures IndicatorCount(indicators, names) == |IndicatorHits(indicators, names, 0)|
  {
    IndicatorCountFrom(indicators, names, 0);
    assert indicators[0..] == indicators;
  }

  /** `_detect_acord_form_type`. */
  function FormType(names: seq<string>): (r: string)
    ensures r == Acord25Label <==> IndicatorCount(Acord25Indicators, names) >= 4
    ensures r == Acord25Label || r == UndeterminedLabel
  {
    if IndicatorCount(Acord25Indicators, names) >= 4 then Acord25Label else UndeterminedLabel
  }

  function NotFillable(formType: string, error: Option<string>): Detection {
    Detection(false, false, 0, 0, NoConfidence, formType, [], error)
  }

  /** `detect_acord_form`. */
  function Detect(input: DetectorInput): (r: Detection)
    ensures r.isFillable <==> input.Fields? && |input.names| > 0
    ensures !r.isFillable ==> !r.isAcord && r.fieldCount == 0 && r.patternMatches == 0 && r.confidence == NoConfidence
    ensures r.isFillable ==> r.fieldCount == |input.names| && r.matchedPatterns == Matched(Patterns, input.names)
    ensures r.patternMatches == |r.matchedPatterns| <= |Patterns|
    ensures r.isAcord <==> r.patternMatches >= 3
    ensures r.confidence == ConfidenceOf(r.patternMatches)
    ensures r.confidence == Low ==> r.formType == PossibleLabel
    ensures r.isFillable && r.confidence == NoConfidence ==> r.formType == NotAcordLabel
    ensures r.confidence.Rank() >= 2 ==> r.formType == FormType(input.names)
  {
    match input
    case FileMissing(path) => NotFillable("File not found", Some("PDF file not found: " + path))
    case ReadError(message) => NotFillable("Error reading PDF", Some(message))
    case Fields(names) =>
      if |names| == 0 then NotFillable("Not a fillable PDF", None)
      else
        var matched := Matched(Patterns, names);
        var m := |matched|;
        var confidence := ConfidenceOf(m);
        var formType :=
          if confidence == High || confidence == Medium then FormType(names)
          else if confidence == Low then PossibleLabel
          else NotAcordLabel;
        Detection(true, m >= 3, |names|, m, confidence, formType, matched, None)
  }

  /** Adding field names to a fillable PDF never lowers the match count or the tier. */
  lemma DetectMonotone(names: seq<string>, more: seq<string>)
    requires |names| > 0
    ensures Detect(Fields(names)).patternMatches <= Detect(Fields(names + more)).patternMatches
    ensures Detect(Fields(names)).confidence.Rank() <= Detect(Fields(names + more)).confidence.Rank()
  {
    MatchedMonotone(Patterns, names, more);
    ConfidenceMonotone(Detect(Fields(names)).patternMatches, Detect(Fields(names + more)).patternMatches);
  }

  /** The reported match count of a fillable PDF is the number of distinct patterns found in its field names. */
  lemma DetectPatternCount(names: seq<string>)
    requires |names| > 0
    ensures Detect(Fields(names)).patternMatches == |set p | p in Patterns && MatchesSome(p, names)|
  {
    PatternsDistinct();
    MatchedCount(Patterns, names);
  }

  /** The ACORD 25 label is given iff at least four indicator positions occur in some field name. */
  lemma FormTypeHits(names: seq<string>)
    ensures FormType(names) == Acord25Label <==> |IndicatorHits(Acord25Indicators, names, 0)| >= 4
  {
    IndicatorCountHits(Acord25Indicators, names);
  }

  /** `is_fillable_acord`: exactly a PDF with fields matching at least five patterns. */
  function IsFillableAcord(input: DetectorInput): (r: bool)
    ensures r <==> input.Fields? && |input.names| > 0 && |Matched(Patterns, input.names)| >= 5
  {
    var d := Detect(input);
    d.isFillable && d.isAcord && (d.confidence == High || d.confidence == Medium)
  }
}
