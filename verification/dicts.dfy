/**
  Python dictionaries as association lists that remember insertion order:
  assigning to an existing key keeps its position, a new key goes last.
*/
module Dicts {
  import opened Wrappers

  function Keys<K, V>(d: seq<(K, V)>): (ks: seq<K>)
    ensures |ks| == |d|
    ensures forall i :: 0 <= i < |d| ==> ks[i] == d[i].0
  {
    seq(|d|, i requires 0 <= i < |d| => d[i].0)
  }

  /** The dict pairing each key with the value at the same position. */
  function Zip<K, V>(ks: seq<K>, vs: seq<V>): (r: seq<(K, V)>)
    requires |ks| == |vs|
    ensures |r| == |ks| && Keys(r) == ks
    ensures forall i :: 0 <= i < |r| ==> r[i] == (ks[i], vs[i])
  {
    seq(|ks|, i requires 0 <= i < |ks| => (ks[i], vs[i]))
  }

  /** Every key occurs once, as in any Python dict. */
  predicate DistinctKeys<K(==), V>(d: seq<(K, V)>) {
    forall i, j :: 0 <= i < j < |d| ==> d[i].0 != d[j].0
  }

  /** `d.get(k)`: the value stored under `k`, or None. */
  function Get<K(==), V>(d: seq<(K, V)>, k: K): (r: Option<V>)
    ensures r.Some? <==> k in Keys(d)
    ensures r.Some? ==> (k, r.value) in d
  {
    if |d| == 0 then None
    else if d[0].0 == k then Some(d[0].1)
    else Get(d[1..], k)
  }

  lemma GetAt<K, V>(d: seq<(K, V)>, i: nat)
    requires DistinctKeys(d) && i < |d|
    ensures Get(d, d[i].0) == Some(d[i].1)
  {
    if i > 0 {
      GetAt(d[1..], i - 1);
    }
  }

  /** The assignment itself, without its contract (see `Put`). */
  function Assign<K(==), V>(d: seq<(K, V)>, k: K, v: V): seq<(K, V)>
  {
    if |d| == 0 then [(k, v)]
    else if d[0].0 == k then [(k, v)] + d[1..]
    else [d[0]] + Assign(d[1..], k, v)
  }

  lemma {:induction false} AssignGet<K, V>(d: seq<(K, V)>, k: K, v: V)
    ensures Get(Assign(d, k, v), k) == Some(v)
  {
    if |d| > 0 && d[0].0 != k {
      AssignGet(d[1..], k, v);
      assert Assign(d, k, v)[1..] == Assign(d[1..], k, v);
    }
  }

  /** Assignment keeps every existing entry's key at its position and appends a new key last. */
  lemma {:induction false} AssignShape<K, V>(d: seq<(K, V)>, k: K, v: V)
    ensures k in Keys(d) ==> |Assign(d, k, v)| == |d|
    ensures k !in Keys(d) ==> |Assign(d, k, v)| == |d| + 1 && Assign(d, k, v)[|d|].0 == k
    ensures forall i :: 0 <= i < |d| ==> Assign(d, k, v)[i].0 == d[i].0
  {
    if |d| > 0 && d[0].0 == k {
      assert Keys(d)[0] == k;
    } else if |d| > 0 {
      var r := Assign(d, k, v);
      var t := Assign(d[1..], k, v);
      assert r == [d[0]] + t;
      AssignShape(d[1..], k, v);
      KeysUncons(d, k);
      forall i | 0 <= i < |d|
        ensures r[i].0 == d[i].0
      {
        if i > 0 {
          assert r[i] == t[i - 1] && d[i] == d[1..][i - 1];
        }
      }
    }
  }

  /** `d[k] = v`: the key now maps to `v`; a known key keeps its place, a new one goes last. */
  function Put<K(==), V>(d: seq<(K, V)>, k: K, v: V): (r: seq<(K, V)>)
    ensures Get(r, k) == Some(v)
    ensures k in Keys(d) ==> Keys(r) == Keys(d)
    ensures k !in Keys(d) ==> Keys(r) == Keys(d) + [k]
  {
    AssignGet(d, k, v);
    AssignShape(d, k, v);
    Assign(d, k, v)
  }

  /** Assigning one key leaves every other key's value alone. */
  lemma {:induction false} PutOther<K, V>(d: seq<(K, V)>, k: K, v: V, k': K)
    requires k' != k
    ensures Get(Put(d, k, v), k') == Get(d, k')
  {
    if |d| > 0 && d[0].0 != k {
      PutOther(d[1..], k, v, k');
      assert Assign(d, k, v)[1..] == Assign(d[1..], k, v);
    }
  }

  /** After `d[k] = v` the keys are the old ones and `k`. */
  lemma PutKeys<K, V>(d: seq<(K, V)>, k: K, v: V, k': K)
    ensures k' in Keys(Put(d, k, v)) <==> k' in Keys(d) || k' == k
  {
  }

  /** Assignment keeps the keys distinct. */
  lemma PutDistinct<K, V>(d: seq<(K, V)>, k: K, v: V)
    requires DistinctKeys(d)
    ensures DistinctKeys(Put(d, k, v))
  {
    var r := Put(d, k, v);
    forall i, j | 0 <= i < j < |r|
      ensures r[i].0 != r[j].0
    {
      assert Keys(r)[i] == r[i].0 && Keys(r)[j] == r[j].0;
    }
  }

  /** The dict built by assigning the pairs one after another. */
  function FromPairs<K(==), V>(ps: seq<(K, V)>): (r: seq<(K, V)>)
    ensures DistinctKeys(r)
    decreases |ps|
  {
    if |ps| == 0 then []
    else
      var init := FromPairs(ps[..|ps| - 1]);
      PutDistinct(init, ps[|ps| - 1].0, ps[|ps| - 1].1);
      Put(init, ps[|ps| - 1].0, ps[|ps| - 1].1)
  }

  /** The dict keeps the value of the last pair written under each key. */
  lemma {:induction false} FromPairsLastWins<K, V>(ps: seq<(K, V)>, i: nat)
    requires i < |ps|
    requires forall j :: i < j < |ps| ==> ps[j].0 != ps[i].0
    ensures Get(FromPairs(ps), ps[i].0) == Some(ps[i].1)
    decreases |ps|
  {
    if i < |ps| - 1 {
      FromPairsLastWins(ps[..|ps| - 1], i);
      PutOther(FromPairs(ps[..|ps| - 1]), ps[|ps| - 1].0, ps[|ps| - 1].1, ps[i].0);
    }
  }

  /** Every entry of the dict is one of the pairs. */
  lemma {:induction false} FromPairsFrom<K, V>(ps: seq<(K, V)>, k: K)
    ensures Get(FromPairs(ps), k).Some? ==> exists j :: 0 <= j < |ps| && ps[j] == (k, Get(FromPairs(ps), k).value)
    decreases |ps|
  {
    if |ps| > 0 {
      var init := ps[..|ps| - 1];
      var last := ps[|ps| - 1];
      if k != last.0 {
        PutOther(FromPairs(init), last.0, last.1, k);
        FromPairsFrom(init, k);
        if Get(FromPairs(ps), k).Some? {
          var j :| 0 <= j < |init| && init[j] == (k, Get(FromPairs(init), k).value);
          assert ps[j] == init[j];
        }
      }
    }
  }

  /** `for k, v in ps: d[k] = v`. */
  function PutAll<K(==), V>(d: seq<(K, V)>, ps: seq<(K, V)>): (r: seq<(K, V)>)
    decreases |ps|
  {
    if |ps| == 0 then d else PutAll(Put(d, ps[0].0, ps[0].1), ps[1..])
  }

  lemma KeysUncons<K, V>(d: seq<(K, V)>, k: K)
    requires |d| > 0
    ensures k in Keys(d) <==> k == d[0].0 || k in Keys(d[1..])
  {
    assert Keys(d) == [d[0].0] + Keys(d[1..]);
  }

  /** Putting an entry in front puts its key in front of the keys. */
  lemma KeysCons<K, V>(e: (K, V), d: seq<(K, V)>)
    ensures Keys([e] + d) == [e.0] + Keys(d)
  {
    forall i | 0 <= i < |d| + 1
      ensures Keys([e] + d)[i] == ([e.0] + Keys(d))[i]
    {
      if i > 0 {
        assert ([e] + d)[i] == d[i - 1];
      }
    }
  }

  lemma DistinctUncons<K, V>(d: seq<(K, V)>)
    requires DistinctKeys(d) && |d| > 0
    ensures DistinctKeys(d[1..]) && d[0].0 !in Keys(d[1..])
  {
    forall j | 0 <= j < |d| - 1
      ensures Keys(d[1..])[j] != d[0].0
    {
      assert d[1..][j] == d[j + 1];
    }
  }

  /** Copying a dict into another: its keys win, every other key keeps its old value. */
  lemma {:induction false} PutAllGet<K, V>(d: seq<(K, V)>, ps: seq<(K, V)>, k: K)
    requires DistinctKeys(ps)
    ensures Get(PutAll(d, ps), k) == if k in Keys(ps) then Get(ps, k) else Get(d, k)
    decreases |ps|
  {
    if |ps| > 0 {
      DistinctUncons(ps);
      KeysUncons(ps, k);
      PutAllGet(Put(d, ps[0].0, ps[0].1), ps[1..], k);
      if k != ps[0].0 {
        PutOther(d, ps[0].0, ps[0].1, k);
      }
    }
  }

  /** Copying keeps a dict's keys distinct. */
  lemma {:induction false} PutAllDistinct<K, V>(d: seq<(K, V)>, ps: seq<(K, V)>)
    requires DistinctKeys(d)
    ensures DistinctKeys(PutAll(d, ps))
    decreases |ps|
  {
    if |ps| > 0 {
      PutDistinct(d, ps[0].0, ps[0].1);
      PutAllDistinct(Put(d, ps[0].0, ps[0].1), ps[1..]);
    }
  }

  /** The position of a key: its first occurrence. */
  function IndexOf<K(==), V>(d: seq<(K, V)>, k: K): (i: nat)
    requires k in Keys(d)
    ensures i < |d| && d[i].0 == k
    ensures forall j :: 0 <= j < i ==> d[j].0 != k
    ensures Get(d, k) == Some(d[i].1)
  {
    if d[0].0 == k then 0
    else
      KeysUncons(d, k);
      var i := IndexOf(d[1..], k);
      IndexOfStep(d, k, i);
      1 + i
  }

  lemma IndexOfStep<K, V>(d: seq<(K, V)>, k: K, i: nat)
    requires |d| > 0 && d[0].0 != k && i < |d| - 1 && d[1..][i].0 == k
    requires forall j :: 0 <= j < i ==> d[1..][j].0 != k
    requires Get(d[1..], k) == Some(d[1..][i].1)
    ensures d[i + 1].0 == k && Get(d, k) == Some(d[i + 1].1)
    ensures forall j :: 0 <= j < i + 1 ==> d[j].0 != k
  {
    assert d[i + 1] == d[1..][i];
    forall j | 0 < j < i + 1
      ensures d[j].0 != k
    {
      assert d[j] == d[1..][j - 1];
    }
  }

  /** Dicts with the same key list hold each key at the same position. */
  lemma IndexOfSameKeys<K, V, W>(a: seq<(K, V)>, b: seq<(K, W)>, k: K)
    requires Keys(a) == Keys(b) && k in Keys(a)
    ensures IndexOf(a, k) == IndexOf(b, k)
  {
    var i, j := IndexOf(a, k), IndexOf(b, k);
    assert Keys(a)[i] == k && Keys(b)[j] == k;
  }

  /** A key stored at `i` and nowhere before reads back as the value at `i`. */
  lemma {:induction false} GetAtFirst<K, V>(d: seq<(K, V)>, i: nat)
    requires i < |d|
    requires forall j :: 0 <= j < i ==> d[j].0 != d[i].0
    ensures Get(d, d[i].0) == Some(d[i].1)
  {
    if i > 0 {
      GetAtFirst(d[1..], i - 1);
    }
  }

  lemma {:induction false} AssignAt<K, V>(d: seq<(K, V)>, k: K, v: V, i: nat)
    requires i < |d| && d[i].0 == k
    requires forall j :: 0 <= j < i ==> d[j].0 != k
    ensures Assign(d, k, v) == d[..i] + [(k, v)] + d[i + 1..]
  {
    if i > 0 {
      AssignAt(d[1..], k, v, i - 1);
      assert d[1..][..i - 1] == d[1..i];
      assert d[1..][i..] == d[i + 1..];
      assert d[..i] == [d[0]] + d[1..i];
    }
  }

  /** Assigning a key that is present overwrites its entry in place. */
  lemma PutPresent<K, V>(d: seq<(K, V)>, k: K, v: V)
    requires k in Keys(d)
    ensures |Put(d, k, v)| == |d|
    ensures forall j :: 0 <= j < |d| ==> Put(d, k, v)[j] == if j == IndexOf(d, k) then (k, v) else d[j]
  {
    var i := IndexOf(d, k);
    var r := Put(d, k, v);
    assert r == Assign(d, k, v);
    AssignAt(d, k, v, i);
    forall j | 0 <= j < |d|
      ensures r[j] == if j == i then (k, v) else d[j]
    {
      if j < i {
        assert r[j] == d[..i][j];
      } else if j > i {
        assert r[j] == d[i + 1..][j - i - 1];
      }
    }
  }
}
