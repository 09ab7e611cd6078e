/**
  `_parse_response`, which both organizer variants define with the same
  body: strip markdown code fences from a model reply, parse the JSON, fall
  back to the slice from the first `{` to the last `}`, and return `{}`
  whenever parsing fails. `json.loads` is a parameter.
*/
module ResponseParsing {
  import opened Wrappers
  import opened Strings
  import opened JsonValue

  /** `json.loads`: the parsed value, or None where it raises `JSONDecodeError`. */
  type Parser = string -> Option<Json>

  const JsonFence := "```json"
  const Fence := "```"
  const EmptyObject := JObj([])

  /**
    The text between an opening fence ending at `start` and the next fence,
    stripped; the whole text when no fence follows or the body is empty.
  */
  function FencedBody(s: string, start: nat): (r: string)
    requires start <= |s|
  {
    var end := Find(s, Fence, start);
    if end > start then Trim(s[start..end]) else s
  }

  /**
    The fence step: a "```json" fence takes precedence over a bare "```"
    fence. What it keeps is a stretch of the text.
  */
  function Unfence(s: string): (r: string)
    ensures Piece(s, r)
  {
    var j := Find(s, JsonFence, 0);
    if j >= 0 then
      FencedBodyPiece(s, j + |JsonFence|);
      FencedBody(s, j + |JsonFence|)
    else
      var b := Find(s, Fence, 0);
      if b >= 0 then
        FencedBodyPiece(s, b + |Fence|);
        FencedBody(s, b + |Fence|)
      else
        PieceWhole(s);
        s
  }

  /** `s[s.find("{"):s.rfind("}") + 1]` when the braces are in order. */
  function BraceSlice(s: string): (r: Option<string>)
    ensures r.Some? ==> |r.value| >= 1 && r.value[0] == '{' && r.value[|r.value| - 1] == '}'
  {
    var start := Find(s, "{", 0);
    var end := RFindChar(s, '}') + 1;
    if start >= 0 && end > start then
      assert s[start..start + 1] == "{";
      Some(s[start..end])
    else None
  }

  /** Parsing the unfenced text, with the brace fallback; `{}` when both parses fail. */
  function ParseText(text: string, parse: Parser): (r: Json)
    ensures parse(text).Some? ==> r == parse(text).value
    ensures parse(text).None? && BraceSlice(text).None? ==> r == EmptyObject
  {
    match parse(text)
    case Some(v) => v
    case None =>
      match BraceSlice(text)
      case Some(slice) => parse(slice).GetOr(EmptyObject)
      case None => EmptyObject
  }

  /** `t` is a contiguous stretch of `s`. */
  predicate Piece(s: string, t: string) {
    exists i, j :: 0 <= i <= j <= |s| && t == s[i..j]
  }

  lemma PieceWhole(s: string)
    ensures Piece(s, s)
  {
    assert s == s[0..|s|];
  }

  lemma PieceSlice(s: string, i: nat, j: nat)
    requires i <= j <= |s|
    ensures Piece(s, s[i..j])
  {
  }

  lemma {:induction false} PieceTrans(a: string, b: string, c: string)
    requires Piece(a, b) && Piece(b, c)
    ensures Piece(a, c)
  {
    var i, j :| 0 <= i <= j <= |a| && b == a[i..j];
    var k, l :| 0 <= k <= l <= |b| && c == b[k..l];
    SliceOfSlice(a, i, j, k, l);
    PieceSlice(a, i + k, i + l);
  }

  /** A stretch of a stretch, taken in one step. */
  lemma SliceOfSlice(a: string, i: nat, j: nat, k: nat, l: nat)
    requires i <= j <= |a| && k <= l <= j - i
    ensures a[i..j][k..l] == a[i + k..i + l]
  {
    forall m | 0 <= m < l - k ensures a[i..j][k..l][m] == a[i + k..i + l][m] {
      assert a[i..j][k..l][m] == a[i..j][k + m] == a[i + k + m];
    }
  }

  /** Stripping keeps a stretch of the text. */
  lemma TrimPiece(s: string)
    ensures Piece(s, Trim(s))
  {
    var l := TrimLeft(s);
    var r := TrimRight(l);
    assert l == s[|s| - |l|..|s|];
    assert r == l[0..|r|];
    PieceTrans(s, l, r);
  }

  lemma FencedBodyPiece(s: string, start: nat)
    requires start <= |s|
    ensures Piece(s, FencedBody(s, start))
  {
    var end := Find(s, Fence, start);
    if end > start {
      TrimPiece(s[start..end]);
      PieceTrans(s, s[start..end], Trim(s[start..end]));
    } else {
      PieceWhole(s);
    }
  }

  /**
    Whatever `ParseText` returns other than `{}` is the parse of a stretch
    of the text: the text itself or its brace slice.
  */
  lemma ParseTextOrigin(text: string, parse: Parser)
    ensures var r := ParseText(text, parse);
      r == EmptyObject || exists t :: Piece(text, t) && parse(t) == Some(r)
  {
    var r := ParseText(text, parse);
    if parse(text).Some? {
      PieceWhole(text);
      assert Piece(text, text) && parse(text) == Some(r);
    } else if BraceSlice(text).Some? && parse(BraceSlice(text).value).Some? {
      var start := Find(text, "{", 0);
      var end := RFindChar(text, '}') + 1;
      PieceSlice(text, start, end);
      assert Piece(text, BraceSlice(text).value) && parse(BraceSlice(text).value) == Some(r);
    }
  }

  /**
    The parsed reply. It is `{}` for an empty reply, and otherwise either
    `{}` or what the parser made of some stretch of the reply, so no parse
    failure escapes. A reply with no backtick that parses as it stands,
    once stripped, is that parse.
  */
  function ParseResponse(response: string, parse: Parser): (r: Json)
    ensures response == "" ==> r == EmptyObject
    ensures r == EmptyObject || exists t :: Piece(response, t) && parse(t) == Some(r)
    ensures response != "" && '`' !in Trim(response) && parse(Trim(response)).Some? ==> r == parse(Trim(response)).value
  {
    if response == "" then EmptyObject
    else
      var trimmed := Trim(response);
      var text := Unfence(trimmed);
      var r := ParseText(text, parse);
      ParseResponseProof(response, trimmed, text, r, parse);
      r
  }

  /** The steps of a non-empty reply: strip, unfence, parse. */
  lemma ParseResponseSteps(response: string, parse: Parser)
    requires response != ""
    ensures ParseResponse(response, parse) == ParseText(Unfence(Trim(response)), parse)
  {
  }

  lemma ParseResponseProof(response: string, trimmed: string, text: string, r: Json, parse: Parser)
    requires trimmed == Trim(response) && text == Unfence(trimmed) && r == ParseText(text, parse)
    ensures r == EmptyObject || exists t :: Piece(response, t) && parse(t) == Some(r)
    ensures '`' !in trimmed && parse(trimmed).Some? ==> r == parse(trimmed).value
  {
    ParseTextOrigin(text, parse);
    if r != EmptyObject {
      var t :| Piece(text, t) && parse(t) == Some(r);
      TrimPiece(response);
      PieceTrans(response, trimmed, text);
      PieceTrans(response, text, t);
    }
    if '`' !in trimmed {
      forall i | 0 <= i < |trimmed| ensures trimmed[i] != '`' {
        assert trimmed[i] in trimmed;
      }
      NoBacktickNoFence(trimmed, 0);
    }
  }

  /** No fence of either kind starts where there is no backtick. */
  lemma NoBacktickNoFence(s: string, from: nat)
    requires forall i :: from <= i < |s| ==> s[i] != '`'
    ensures Find(s, JsonFence, from) == -1 && Find(s, Fence, from) == -1
  {
    forall i | from <= i ensures !OccursAt(s, JsonFence, i) && !OccursAt(s, Fence, i) {
      OccursAtChar(s, Fence, i, 0);
      OccursAtChar(s, JsonFence, i, 0);
    }
    FindNone(s, JsonFence, from);
    FindNone(s, Fence, from);
  }

  /** The closing fence is the first backtick after a body without backticks. */
  lemma ClosingFence(s: string, start: nat, t: string)
    requires start + |t| + 3 <= |s| && s[start..start + |t|] == t && s[start + |t|..start + |t| + 3] == Fence
    requires '`' !in t
    ensures Find(s, Fence, start) == start + |t|
  {
    assert OccursAt(s, Fence, start + |t|);
    forall i | start <= i < start + |t| ensures !OccursAt(s, Fence, i) {
      assert s[i] == t[i - start];
      OccursAtChar(s, Fence, i, 0);
    }
    FindFirst(s, Fence, start, start + |t|);
  }

  /** A "```json" fence at `p`, with no backtick before it, closed after the body `t`, unfences to the stripped body. */
  lemma UnfenceJsonFenceAt(s: string, p: nat, t: string)
    requires p + 7 + |t| + 3 <= |s| && '`' !in t && |t| > 0
    requires forall i :: 0 <= i < p ==> s[i] != '`'
    requires s[p..p + 7] == JsonFence && s[p + 7..p + 7 + |t|] == t && s[p + 7 + |t|..p + 7 + |t| + 3] == Fence
    ensures Unfence(s) == Trim(t)
  {
    forall i | 0 <= i < p ensures !OccursAt(s, JsonFence, i) {
      OccursAtChar(s, JsonFence, i, 0);
    }
    assert OccursAt(s, JsonFence, p);
    FindFirst(s, JsonFence, 0, p);
    FencedBodyOf(s, p + 7, t);
  }

  /**
    Fence precedence: after a prefix without backticks, a "```json" fence
    closed by "```" yields its stripped body, without the word `json` the
    bare-fence reading would keep.
  */
  lemma UnfenceJsonFence(pre: string, t: string, post: string)
    requires '`' !in pre && '`' !in t && |t| > 0
    ensures Unfence(pre + JsonFence + t + Fence + post) == Trim(t)
  {
    var s := pre + JsonFence + t + Fence + post;
    var p := |pre|;
    assert forall i :: 0 <= i < p ==> s[i] == pre[i];
    assert s[p..p + 7] == JsonFence;
    assert s[p + 7..p + 7 + |t|] == t;
    assert s[p + 7 + |t|..p + 7 + |t| + 3] == Fence;
    UnfenceJsonFenceAt(s, p, t);
  }

  /** A "```json" fence at a bare fence's position means the body begins with `json`. */
  lemma JsonAfterFence(s: string, p: nat, t: string)
    requires p + 3 + |t| + 3 <= |s| && s[p + 3..p + 3 + |t|] == t && s[p + 3 + |t|] == '`'
    ensures OccursAt(s, JsonFence, p) ==> StartsWith(t, "json")
  {
    if OccursAt(s, JsonFence, p) {
      forall k | 0 <= k < 4 ensures s[p + 3 + k] == "json"[k] {
        OccursAtChar(s, JsonFence, p, k + 3);
      }
      if |t| >= 4 {
        assert t[..4] == s[p + 3..p + 7];
      }
    }
  }

  lemma NoJsonFenceAt(pre: string, t: string, i: nat)
    requires '`' !in pre && '`' !in t && |t| > 0 && !StartsWith(t, "json")
    ensures !OccursAt(pre + Fence + t + Fence, JsonFence, i)
  {
    var s := pre + Fence + t + Fence;
    var p := |pre|;
    var q := p + 3 + |t|;
    if i < p {
      assert s[i] == pre[i];
      OccursAtChar(s, JsonFence, i, 0);
    } else if i == p {
      assert s[p + 3..q] == t && s[q] == '`';
      JsonAfterFence(s, p, t);
    } else if i < p + 3 {
      assert s[p + 3] == t[0];
      OccursAtChar(s, JsonFence, i, p + 3 - i);
    } else if i < q {
      assert s[i] == t[i - p - 3];
      OccursAtChar(s, JsonFence, i, 0);
    }
  }

  lemma BareReplyHasNoJsonFence(pre: string, t: string)
    requires '`' !in pre && '`' !in t && |t| > 0 && !StartsWith(t, "json")
    ensures Find(pre + Fence + t + Fence, JsonFence, 0) == -1
  {
    forall i: nat ensures !OccursAt(pre + Fence + t + Fence, JsonFence, i) {
      NoJsonFenceAt(pre, t, i);
    }
    FindNone(pre + Fence + t + Fence, JsonFence, 0);
  }

  /** A body `t` without backticks followed by a fence is what the fence step keeps, stripped. */
  lemma FencedBodyOf(s: string, start: nat, t: string)
    requires start + |t| + 3 <= |s| && s[start..start + |t|] == t && s[start + |t|..start + |t| + 3] == Fence
    requires '`' !in t && |t| > 0
    ensures FencedBody(s, start) == Trim(t)
  {
    ClosingFence(s, start, t);
    var e := Find(s, Fence, start);
    assert s[start..e] == t;
  }

  /** A fence at `p` with no backtick before it is the first fence. */
  lemma FirstFence(s: string, p: nat)
    requires p + 3 <= |s| && s[p..p + 3] == Fence
    requires forall i :: 0 <= i < p ==> s[i] != '`'
    ensures Find(s, Fence, 0) == p
  {
    forall i | 0 <= i < p ensures !OccursAt(s, Fence, i) {
      OccursAtChar(s, Fence, i, 0);
    }
    FindFirst(s, Fence, 0, p);
  }

  /** A bare fence around a body that does not begin with `json` yields the stripped body. */
  lemma UnfenceBareFence(pre: string, t: string)
    requires '`' !in pre && '`' !in t && |t| > 0 && !StartsWith(t, "json")
    ensures Unfence(pre + Fence + t + Fence) == Trim(t)
  {
    var s := pre + Fence + t + Fence;
    var p := |pre|;
    assert forall i :: 0 <= i < p ==> s[i] == pre[i];
    assert s[p..p + 3] == Fence;
    assert s[p + 3..p + 3 + |t|] == t;
    assert s[p + 3 + |t|..p + 3 + |t| + 3] == Fence;
    FirstFence(s, p);
    FencedBodyOf(s, p + 3, t);
    BareReplyHasNoJsonFence(pre, t);
  }

  lemma FencedReplyTrimmed(t: string)
    ensures Trim(JsonFence + t + Fence) == JsonFence + t + Fence
  {
    var s := JsonFence + t + Fence;
    assert s[0] == '`';
    assert s[|s| - 1] == '`';
    NoEdgeSpaceTrim(s);
  }

  lemma FencedReplyBody(t: string)
    requires '`' !in t && |t| > 0
    ensures Unfence(JsonFence + t + Fence) == Trim(t)
  {
    var s := JsonFence + t + Fence;
    assert s[0..7] == JsonFence;
    assert s[7..7 + |t|] == t;
    assert s[7 + |t|..7 + |t| + 3] == Fence;
    UnfenceJsonFenceAt(s, 0, t);
  }

  /** A fenced reply whose body parses yields exactly that parse. */
  lemma ParseFencedReply(t: string, parse: Parser)
    requires '`' !in t && |t| > 0 && parse(Trim(t)).Some?
    ensures ParseResponse(JsonFence + t + Fence, parse) == parse(Trim(t)).value
  {
    FencedReplyTrimmed(t);
    FencedReplyBody(t);
  }

  /** The first `{` of a text whose prefix has none is the one after the prefix. */
  lemma FirstBrace(s: string, pre: string)
    requires |pre| < |s| && s[..|pre|] == pre && s[|pre|] == '{' && '{' !in pre
    ensures Find(s, "{", 0) == |pre|
  {
    var p := |pre|;
    assert s[p..p + 1] == "{";
    forall i | 0 <= i < p ensures !OccursAt(s, "{", i) {
      assert s[i] == pre[i];
      OccursAtChar(s, "{", i, 0);
    }
    FindFirst(s, "{", 0, p);
  }

  /** The last `}` of a text whose suffix has none is the one before the suffix. */
  lemma LastBrace(s: string, post: string)
    requires |post| < |s| && s[|s| - |post|..] == post && s[|s| - |post| - 1] == '}' && '}' !in post
    ensures RFindChar(s, '}') == |s| - |post| - 1
  {
    var q := |s| - |post| - 1;
    forall i | q < i < |s| ensures s[i] != '}' {
      assert s[i] == post[i - q - 1];
    }
  }

  /** The brace slice of `pre + "{" + mid + "}" + post` is `"{" + mid + "}"` when `pre` has no `{` and `post` no `}`. */
  lemma BraceSliceOf(pre: string, mid: string, post: string)
    requires '{' !in pre && '}' !in post
    ensures BraceSlice(pre + "{" + mid + "}" + post) == Some("{" + mid + "}")
  {
    var s := pre + "{" + mid + "}" + post;
    var p := |pre|;
    var q := p + 1 + |mid|;
    assert s[..p] == pre;
    FirstBrace(s, pre);
    assert s[q + 1..] == post;
    LastBrace(s, post);
    assert s[p..q + 1] == "{" + mid + "}";
  }

  /**
    Brace fallback: an unfenced reply that does not parse is read from its
    first `{` to its last `}`, and is `{}` when that slice does not parse either.
  */
  lemma BraceFallback(pre: string, mid: string, post: string, parse: Parser)
    requires var s := pre + "{" + mid + "}" + post;
      '`' !in s && '{' !in pre && '}' !in post && Trim(s) == s && parse(s).None?
    ensures ParseResponse(pre + "{" + mid + "}" + post, parse) == parse("{" + mid + "}").GetOr(EmptyObject)
  {
    var s := pre + "{" + mid + "}" + post;
    assert Unfence(s) == s by {
      forall i | 0 <= i < |s| ensures s[i] != '`' {
        assert s[i] in s;
      }
      NoBacktickNoFence(s, 0);
    }
    assert ParseText(s, parse) == parse("{" + mid + "}").GetOr(EmptyObject) by {
      BraceSliceOf(pre, mid, post);
    }
    ParseResponseSteps(s, parse);
  }

  /** An unfenced reply without `{` that does not parse gives `{}`. */
  lemma NoBracesEmpty(s: string, parse: Parser)
    requires s != "" && '`' !in s && '{' !in s && Trim(s) == s && parse(s).None?
    ensures ParseResponse(s, parse) == EmptyObject
  {
    NoBacktickNoFence(s, 0);
    assert Unfence(s) == s;
    forall i | 0 <= i ensures !OccursAt(s, "{", i) {
      OccursAtChar(s, "{", i, 0);
    }
    FindNone(s, "{", 0);
  }
}
