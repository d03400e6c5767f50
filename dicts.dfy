/**
 * Python dicts keep insertion order, and the generated mapping documents rely on it.
 * A dict is modelled as its entries in insertion order; assigning to a key that is
 * already present replaces the value where it stands.
 */
module Dicts {

  type Dict<V> = seq<(string, V)>

  /** `list(d.keys())` */
  function Keys<V>(d: Dict<V>): (ks: seq<string>)
    ensures |ks| == |d|
    ensures forall i :: 0 <= i < |d| ==> ks[i] == d[i].0
  {
    if d == [] then [] else [d[0].0] + Keys(d[1..])
  }

  /** `k in d` */
  predicate HasKey<V>(d: Dict<V>, k: string) {
    k in Keys(d)
  }

  /** What every Python dict satisfies: no key twice. */
  predicate UniqueKeys<V>(d: Dict<V>) {
    forall i, j :: 0 <= i < j < |d| ==> d[i].0 != d[j].0
  }

  /** `d[k]` */
  function Get<V>(d: Dict<V>, k: string): V
    requires HasKey(d, k)
  {
    if d[0].0 == k then d[0].1 else Get(d[1..], k)
  }

  /** Position of `k` among the entries. */
  function IndexOfKey<V>(d: Dict<V>, k: string): (i: nat)
    requires HasKey(d, k)
    ensures i < |d| && d[i].0 == k && d[i].1 == Get(d, k)
    ensures forall j :: 0 <= j < i ==> d[j].0 != k
  {
    if d[0].0 == k then 0 else 1 + IndexOfKey(d[1..], k)
  }

  lemma KeysCons<V>(d: Dict<V>)
    requires d != []
    ensures Keys(d) == [d[0].0] + Keys(d[1..])
    ensures forall j :: HasKey(d, j) <==> j == d[0].0 || HasKey(d[1..], j)
  {
  }

  /** In a dict with distinct keys, the key of an entry looks up that entry. */
  lemma {:induction false} GetAt<V>(d: Dict<V>, i: nat)
    requires UniqueKeys(d) && i < |d|
    ensures HasKey(d, d[i].0) && Get(d, d[i].0) == d[i].1 && IndexOfKey(d, d[i].0) == i
  {
    assert Keys(d)[i] == d[i].0;
    var j := IndexOfKey(d, d[i].0);
  }

  /** `d[k] = v`: a present key keeps its position, a new key goes last. */
  function Put<V>(d: Dict<V>, k: string, v: V): (r: Dict<V>)
    ensures Keys(r) == if HasKey(d, k) then Keys(d) else Keys(d) + [k]
  {
    if d == [] then [(k, v)]
    else if d[0].0 == k then [(k, v)] + d[1..]
    else
      KeysCons(d);
      var r := [d[0]] + Put(d[1..], k, v);
      KeysCons(r);
      assert r[1..] == Put(d[1..], k, v);
      r
  }

  /** Assigning a new key appends an entry. */
  lemma {:induction false} PutNew<V>(d: Dict<V>, k: string, v: V)
    requires !HasKey(d, k)
    ensures Put(d, k, v) == d + [(k, v)]
  {
    if d != [] {
      assert d[0].0 != k && !HasKey(d[1..], k) by {
        KeysCons(d);
      }
      PutNew(d[1..], k, v);
      calc {
        Put(d, k, v);
        [d[0]] + Put(d[1..], k, v);
        [d[0]] + (d[1..] + [(k, v)]);
        { assert d == [d[0]] + d[1..]; }
        d + [(k, v)];
      }
    }
  }

  /** The keys of a concatenation. */
  lemma KeysAppend<V>(a: Dict<V>, b: Dict<V>)
    ensures Keys(a + b) == Keys(a) + Keys(b)
  {
  }

  /** After `d[k] = v`, `d[k]` is `v` and every other key keeps its value. */
  lemma {:induction false} PutGet<V>(d: Dict<V>, k: string, v: V)
    ensures HasKey(Put(d, k, v), k) && Get(Put(d, k, v), k) == v
    ensures forall j :: j != k && HasKey(d, j) ==> Get(Put(d, k, v), j) == Get(d, j)
  {
    if d != [] && d[0].0 != k {
      PutGet(d[1..], k, v);
      var r := Put(d, k, v);
      assert r[1..] == Put(d[1..], k, v);
      KeysCons(d);
      KeysCons(r);
    }
  }

  /** Assigning the same key twice keeps only the second value, where the key stands. */
  lemma {:induction false} PutPut<V>(d: Dict<V>, k: string, v: V, w: V)
    ensures Put(Put(d, k, v), k, w) == Put(d, k, w)
  {
    if d != [] && d[0].0 != k {
      PutPut(d[1..], k, v, w);
      var r := Put(d, k, v);
      assert r[1..] == Put(d[1..], k, v);
    }
  }

  /** Assignment keeps the keys of a dict distinct. */
  lemma {:induction false} PutUnique<V>(d: Dict<V>, k: string, v: V)
    ensures UniqueKeys(d) ==> UniqueKeys(Put(d, k, v))
  {
    var r := Put(d, k, v);
    forall i, j | UniqueKeys(d) && 0 <= i < j < |r| ensures r[i].0 != r[j].0 {
      assert Keys(r)[i] == r[i].0 && Keys(r)[j] == r[j].0;
      if !HasKey(d, k) && j == |d| {
        assert Keys(d)[i] == d[i].0;
      } else {
        assert Keys(d)[i] == d[i].0 && Keys(d)[j] == d[j].0;
      }
    }
  }

  /** The dict left behind by `d.pop(k)`: every entry but the one for `k`, in order. */
  function Remove<V>(d: Dict<V>, k: string): Dict<V>
  {
    if d == [] then []
    else if d[0].0 == k then Remove(d[1..], k)
    else [d[0]] + Remove(d[1..], k)
  }

  /** Popping an absent key changes nothing. */
  lemma {:induction false} RemoveAbsent<V>(d: Dict<V>, k: string)
    requires !HasKey(d, k)
    ensures Remove(d, k) == d
  {
    if d != [] {
      KeysCons(d);
      RemoveAbsent(d[1..], k);
    }
  }

  /** Popping a present key cuts out exactly its entry. */
  lemma {:induction false} RemoveAt<V>(d: Dict<V>, k: string)
    requires HasKey(d, k) && UniqueKeys(d)
    ensures Remove(d, k) == d[..IndexOfKey(d, k)] + d[IndexOfKey(d, k) + 1..]
  {
    KeysCons(d);
    if d[0].0 == k {
      RemoveAbsent(d[1..], k);
    } else {
      assert UniqueKeys(d[1..]) by {
        forall a, b | 0 <= a < b < |d| - 1 ensures d[1..][a].0 != d[1..][b].0 {
          assert d[1..][a] == d[a + 1] && d[1..][b] == d[b + 1];
        }
      }
      RemoveAt(d[1..], k);
      assert d[1..][..IndexOfKey(d[1..], k)] == d[1..IndexOfKey(d, k)];
    }
  }

  /** `d.pop(k)` takes `k` out and leaves every other key and its value alone. */
  lemma {:induction false} RemoveGet<V>(d: Dict<V>, k: string)
    ensures !HasKey(Remove(d, k), k)
    ensures forall j :: j != k ==> (HasKey(Remove(d, k), j) <==> HasKey(d, j))
    ensures forall j :: j != k && HasKey(d, j) ==> Get(Remove(d, k), j) == Get(d, j)
  {
    if d != [] {
      RemoveGet(d[1..], k);
      KeysCons(d);
      var r := Remove(d, k);
      if d[0].0 != k {
        assert r[1..] == Remove(d[1..], k);
        KeysCons(r);
      }
    }
  }

  /** Popping keeps the keys of a dict distinct. */
  lemma {:induction false} RemoveUnique<V>(d: Dict<V>, k: string)
    requires UniqueKeys(d)
    ensures UniqueKeys(Remove(d, k))
  {
    if !HasKey(d, k) {
      RemoveAbsent(d, k);
    } else {
      var i := IndexOfKey(d, k);
      RemoveAt(d, k);
      var r := Remove(d, k);
      forall a, b | 0 <= a < b < |r| ensures r[a].0 != r[b].0 {
        var a' := if a < i then a else a + 1;
        var b' := if b < i then b else b + 1;
        assert r[a] == d[a'] && r[b] == d[b'];
      }
    }
  }
}
