/**
  `app/services/ai/embedding_service.py`: the batch embedding call with its
  retry loop, the placeholder for blank texts, the zero-vector fallback and
  the fitting of every vector to the configured dimension. The embeddings
  API is a parameter: `api(attempt, inputs)` is its answer to the given
  attempt, None when the call raises.
*/
module Embedding {
  import opened Wrappers
  import opened Strings

  /** `EmbeddingConfig`: the two settings the batch logic reads. */
  datatype Config = Config(dimensions: nat, maxRetries: nat)

  /** The settings when the environment sets neither. */
  const Default := Config(1024, 3)

  /** The longest pause between two attempts, in seconds. */
  const MaxBackoff: real := 10.0

  type Vector = seq<real>

  function Min(a: real, b: real): real {
    if a <= b then a else b
  }

  /** `[0.0] * n`. */
  function Zero(n: nat): (r: Vector)
    ensures |r| == n && forall i :: 0 <= i < n ==> r[i] == 0.0
  {
    seq(n, _ => 0.0)
  }

  /** `n` zero vectors of the configured dimension. */
  function Zeros(n: nat, dim: nat): (r: seq<Vector>)
    ensures |r| == n && forall i :: 0 <= i < n ==> r[i] == Zero(dim)
  {
    seq(n, _ => Zero(dim))
  }

  // ---------------------------------------------------------------------
  // _normalize_embedding
  // ---------------------------------------------------------------------

  /** `_normalize_embedding`: cut to the dimension, or pad with zeros up to it. */
  function Normalize(e: Vector, dim: nat): (r: Vector)
    ensures |r| == dim
    ensures forall i :: 0 <= i < dim ==> r[i] == if i < |e| then e[i] else 0.0
  {
    if |e| == dim then e
    else if |e| > dim then e[..dim]
    else e + Zero(dim - |e|)
  }

  /** A vector already of the dimension is kept; fitting twice is fitting once. */
  lemma NormalizeIdempotent(e: Vector, dim: nat)
    ensures |e| == dim ==> Normalize(e, dim) == e
    ensures Normalize(Normalize(e, dim), dim) == Normalize(e, dim)
  {
  }

  // ---------------------------------------------------------------------
  // the inputs sent
  // ---------------------------------------------------------------------

  /** `(text or '').strip()`. */
  function Cleaned(t: Option<string>): string {
    Trim(t.GetOr(""))
  }

  /** The input actually sent for one text: the cleaned text, or a single space when nothing is left. */
  function SafeText(t: Option<string>): (r: string)
    ensures r != ""
    ensures r == " " || (r == Cleaned(t) && !IsSpace(r[0]) && !IsSpace(r[|r| - 1]))
    ensures IsBlank(t.GetOr("")) ==> r == " "
  {
    if Cleaned(t) == "" then " " else Cleaned(t)
  }

  function SafeTexts(texts: seq<Option<string>>): (r: seq<string>)
    ensures |r| == |texts| && forall i :: 0 <= i < |r| ==> r[i] == SafeText(texts[i])
  {
    seq(|texts|, i requires 0 <= i < |texts| => SafeText(texts[i]))
  }

  /** Sending the inputs again would send the same inputs: the cleaning is idempotent. */
  lemma SafeTextIdempotent(t: Option<string>)
    ensures SafeText(Some(SafeText(t))) == SafeText(t)
  {
    var r := SafeText(t);
    if r == " " {
      assert AllSpace(" ") by { assert IsSpace(' '); }
    } else {
      NoEdgeSpaceTrim(r);
    }
  }

  // ---------------------------------------------------------------------
  // embed_batch
  // ---------------------------------------------------------------------

  /** The pause after the `i`-th failed attempt: 1 s, doubled each time, capped at 10 s. */
  function Backoff(i: nat): real {
    if i == 0 then 1.0 else Min(Backoff(i - 1) * 2.0, MaxBackoff)
  }

  function Pow2(i: nat): nat {
    if i == 0 then 1 else 2 * Pow2(i - 1)
  }

  /** The pauses are 1, 2, 4 and 8 seconds, then 10 seconds from the fifth on. */
  lemma {:induction false} BackoffClosedForm(i: nat)
    ensures Backoff(i) == if i < 4 then Pow2(i) as real else MaxBackoff
  {
    if i > 0 {
      BackoffClosedForm(i - 1);
    }
  }

  function TotalWait(sleeps: seq<real>): real {
    if |sleeps| == 0 then 0.0 else sleeps[0] + TotalWait(sleeps[1..])
  }

  /** However many retries are configured, no pause exceeds 10 s, so the loop waits at most 10 s per retry. */
  lemma {:induction false} TotalWaitBound(sleeps: seq<real>)
    requires forall i :: 0 <= i < |sleeps| ==> sleeps[i] == Backoff(i)
    ensures 0.0 <= TotalWait(sleeps) <= MaxBackoff * |sleeps| as real
  {
    if |sleeps| > 0 {
      BackoffBound(0);
      var rest := sleeps[1..];
      forall i | 0 <= i < |rest| ensures 0.0 <= rest[i] <= MaxBackoff {
        BackoffBound(i + 1);
      }
      WaitBound(rest);
    }
  }

  lemma {:induction false} BackoffBound(i: nat)
    ensures 0.0 < Backoff(i) <= MaxBackoff
  {
    if i > 0 {
      BackoffBound(i - 1);
    }
  }

  lemma {:induction false} WaitBound(sleeps: seq<real>)
    requires forall i :: 0 <= i < |sleeps| ==> 0.0 <= sleeps[i] <= MaxBackoff
    ensures 0.0 <= TotalWait(sleeps) <= MaxBackoff * |sleeps| as real
  {
    if |sleeps| > 0 {
      WaitBound(sleeps[1..]);
    }
  }

  /** With the default three retries, a batch that never succeeds waits 1 + 2 + 4 seconds. */
  lemma DefaultWait()
    ensures TotalWait([Backoff(0), Backoff(1), Backoff(2)]) == 7.0
  {
    assert [Backoff(0), Backoff(1), Backoff(2)][1..] == [Backoff(1), Backoff(2)];
    assert [Backoff(1), Backoff(2)][1..] == [Backoff(2)];
  }

  /** The first attempt, from `from` up to `last`, at which the API answers, with its answer. */
  function FirstAnswer(api: (nat, seq<string>) -> Option<seq<Vector>>, inputs: seq<string>, from: nat, last: nat): (r: Option<(nat, seq<Vector>)>)
    ensures r.Some? ==> from <= r.value.0 <= last && api(r.value.0, inputs) == Some(r.value.1)
    ensures r.Some? ==> forall a :: from <= a < r.value.0 ==> api(a, inputs).None?
    ensures r.None? ==> forall a :: from <= a <= last ==> api(a, inputs).None?
    decreases last + 1 - from
  {
    if from > last then None
    else
      match api(from, inputs)
      case Some(data) => Some((from, data))
      case None => FirstAnswer(api, inputs, from + 1, last)
  }

  /** The answer padded with zero vectors up to one per text, each fitted to the dimension. */
  function Finish(data: seq<Vector>, n: nat, dim: nat): (r: seq<Vector>)
    ensures |r| == if |data| < n then n else |data|
    ensures forall i :: 0 <= i < |r| ==> |r[i]| == dim
    ensures forall i :: 0 <= i < |data| ==> r[i] == Normalize(data[i], dim)
    ensures forall i :: |data| <= i < |r| ==> r[i] == Zero(dim)
  {
    var padded := if |data| < n then data + Zeros(n - |data|, dim) else data;
    seq(|padded|, i requires 0 <= i < |padded| => Normalize(padded[i], dim))
  }

  /**
    The retry loop of `embed_batch` for a non-empty batch of `n` texts
    sent as `inputs`: the vectors returned and the pauses slept.
  */
  method Attempts(cfg: Config, n: nat, inputs: seq<string>, api: (nat, seq<string>) -> Option<seq<Vector>>)
    returns (vectors: seq<Vector>, sleeps: seq<real>)
    ensures match FirstAnswer(api, inputs, 0, cfg.maxRetries)
      case Some((a, data)) => vectors == Finish(data, n, cfg.dimensions) && |sleeps| == a
      case None => vectors == Zeros(n, cfg.dimensions) && |sleeps| == cfg.maxRetries
    ensures forall i :: 0 <= i < |sleeps| ==> sleeps[i] == Backoff(i)
  {
    var attempt: nat := 0;
    var backoff := 1.0;
    sleeps := [];
    while attempt <= cfg.maxRetries
      invariant attempt <= cfg.maxRetries + 1
      invariant |sleeps| == if attempt <= cfg.maxRetries then attempt else cfg.maxRetries
      invariant forall i :: 0 <= i < |sleeps| ==> sleeps[i] == Backoff(i)
      invariant backoff == Backoff(|sleeps|)
      invariant FirstAnswer(api, inputs, 0, cfg.maxRetries) == FirstAnswer(api, inputs, attempt, cfg.maxRetries)
      decreases cfg.maxRetries + 1 - attempt
    {
      match api(attempt, inputs)
      case Some(data) =>
        return Finish(data, n, cfg.dimensions), sleeps;
      case None =>
        if attempt < cfg.maxRetries {
          sleeps := sleeps + [backoff];
          backoff := Min(backoff * 2.0, MaxBackoff);
        }
        attempt := attempt + 1;
    }
    vectors := Zeros(n, cfg.dimensions);
  }

  /**
    `embed_batch`: an empty batch calls nothing; otherwise the cleaned
    inputs go out at most `maxRetries + 1` times, the first answer is
    padded and fitted, and when every attempt fails the result is one
    zero vector per text.
  */
  method EmbedBatch(cfg: Config, texts: seq<Option<string>>, api: (nat, seq<string>) -> Option<seq<Vector>>)
    returns (vectors: seq<Vector>, sleeps: seq<real>)
    ensures texts == [] ==> vectors == [] && sleeps == []
    ensures texts != [] ==> match FirstAnswer(api, SafeTexts(texts), 0, cfg.maxRetries)
      case Some((a, data)) => vectors == Finish(data, |texts|, cfg.dimensions) && |sleeps| == a
      case None => vectors == Zeros(|texts|, cfg.dimensions) && |sleeps| == cfg.maxRetries
    ensures forall i :: 0 <= i < |sleeps| ==> sleeps[i] == Backoff(i)
    ensures |sleeps| <= cfg.maxRetries
    ensures texts != [] ==> |vectors| >= |texts| && forall i :: 0 <= i < |vectors| ==> |vectors[i]| == cfg.dimensions
  {
    if texts == [] {
      return [], [];
    }
    vectors, sleeps := Attempts(cfg, |texts|, SafeTexts(texts), api);
  }
}
