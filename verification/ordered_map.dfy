/** JavaScript `Map` semantics: a finite map that remembers the order in which
    its keys were first inserted. `set` on a present key keeps that key's
    position, `set` on a new key appends it, and `delete` drops it. Iteration
    (`forEach`, `values()`) follows that order, which the source relies on
    when it scans player statistics or vehicles. */
module OrderedMap {
  import opened Wrappers

  function Keys<K, V>(m: seq<(K, V)>): (ks: seq<K>)
    ensures |ks| == |m|
    ensures forall i :: 0 <= i < |m| ==> ks[i] == m[i].0
  {
    seq(|m|, i requires 0 <= i < |m| => m[i].0)
  }

  function Values<K, V>(m: seq<(K, V)>): (vs: seq<V>)
    ensures |vs| == |m|
    ensures forall i :: 0 <= i < |m| ==> vs[i] == m[i].1
  {
    seq(|m|, i requires 0 <= i < |m| => m[i].1)
  }

  /** No key occurs twice: the representation invariant of a JS `Map`. */
  predicate DistinctKeys<K(==), V>(m: seq<(K, V)>)
  {
    forall i, j :: 0 <= i < j < |m| ==> m[i].0 != m[j].0
  }

  predicate HasKey<K(==), V>(m: seq<(K, V)>, k: K)
  {
    exists i :: 0 <= i < |m| && m[i].0 == k
  }

  /** Position of the first entry for `k`. */
  function IndexOf<K(==), V>(m: seq<(K, V)>, k: K): (i: nat)
    requires HasKey(m, k)
    ensures i < |m| && m[i].0 == k
    ensures forall j :: 0 <= j < i ==> m[j].0 != k
  {
    if m[0].0 == k then 0
    else
      assert HasKey(m[1..], k) by {
        var j :| 0 <= j < |m| && m[j].0 == k;
        assert m[1..][j - 1].0 == k;
      }
      1 + IndexOf(m[1..], k)
  }

  /** `map.get(k)`; `None` stands for `undefined`. */
  function Get<K(==), V>(m: seq<(K, V)>, k: K): (r: Option<V>)
    ensures r.Some? <==> HasKey(m, k)
    ensures DistinctKeys(m) ==> forall i :: 0 <= i < |m| && m[i].0 == k ==> r == Some(m[i].1)
  {
    if HasKey(m, k) then Some(m[IndexOf(m, k)].1) else None
  }

  /** `map.set(k, v)`: a present key is updated in place, a new key is appended. */
  function Put<K(==), V>(m: seq<(K, V)>, k: K, v: V): (r: seq<(K, V)>)
    ensures HasKey(m, k) ==> Keys(r) == Keys(m)
    ensures !HasKey(m, k) ==> Keys(r) == Keys(m) + [k]
  {
    if HasKey(m, k) then m[IndexOf(m, k) := (k, v)] else m + [(k, v)]
  }

  /** `map.delete(k)`: the key is dropped, the others keep their order. */
  function Remove<K(==), V>(m: seq<(K, V)>, k: K): (r: seq<(K, V)>)
    ensures !HasKey(r, k)
    ensures forall e :: e in r ==> e in m
  {
    if |m| == 0 then []
    else
      var t := Remove(m[1..], k);
      var r := (if m[0].0 == k then [] else [m[0]]) + t;
      assert forall e :: e in r ==> e in m by {
        forall e | e in r ensures e in m {
          if e in t { assert e in m[1..]; }
        }
      }
      r
  }

  /** Any position that holds the first entry for `k` is `IndexOf`. */
  lemma IndexOfUnique<K, V>(m: seq<(K, V)>, k: K, i: nat)
    requires i < |m| && m[i].0 == k
    requires forall j :: 0 <= j < i ==> m[j].0 != k
    ensures IndexOf(m, k) == i
  {
  }

  /** `Get` reads the first entry, or looks further along. */
  lemma GetCons<K, V>(m: seq<(K, V)>, k: K)
    requires |m| > 0
    ensures Get(m, k) == if m[0].0 == k then Some(m[0].1) else Get(m[1..], k)
  {
  }

  lemma PutGet<K, V>(m: seq<(K, V)>, k: K, v: V, k': K)
    ensures Get(Put(m, k, v), k') == if k' == k then Some(v) else Get(m, k')
  {
    var r := Put(m, k, v);
    assert forall j :: 0 <= j < |m| ==> r[j].0 == m[j].0;
    if HasKey(m, k) {
      var i := IndexOf(m, k);
      assert r[i] == (k, v);
      if k' == k {
        IndexOfUnique(r, k, i);
      } else if HasKey(m, k') {
        IndexOfUnique(r, k', IndexOf(m, k'));
      } else {
        assert !HasKey(r, k');
      }
    } else {
      if k' == k {
        IndexOfUnique(r, k, |m|);
      } else if HasKey(m, k') {
        IndexOfUnique(r, k', IndexOf(m, k'));
      } else {
        assert !HasKey(r, k');
      }
    }
  }

  lemma PutDistinct<K, V>(m: seq<(K, V)>, k: K, v: V)
    requires DistinctKeys(m)
    ensures DistinctKeys(Put(m, k, v))
  {
  }

  lemma {:induction false} RemoveGet<K, V>(m: seq<(K, V)>, k: K, k': K)
    requires k' != k
    ensures Get(Remove(m, k), k') == Get(m, k')
  {
    if |m| > 0 {
      var t := Remove(m[1..], k);
      RemoveGet(m[1..], k, k');
      GetCons(m, k');
      if m[0].0 != k {
        GetCons([m[0]] + t, k');
        assert ([m[0]] + t)[1..] == t;
      } else {
        assert Remove(m, k) == t;
      }
    }
  }

  lemma {:induction false} RemoveDistinct<K, V>(m: seq<(K, V)>, k: K)
    requires DistinctKeys(m)
    ensures DistinctKeys(Remove(m, k))
  {
    if |m| > 0 {
      RemoveDistinct(m[1..], k);
      var t := Remove(m[1..], k);
      forall e | e in t ensures e.0 != m[0].0 {
        assert e in m[1..];
      }
    }
  }
}
