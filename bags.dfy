/**
 * Multisets accumulated by loops. A Go `for k := range m` visits the keys of
 * a map (or the members of a set) in an unspecified order; when each visit
 * appends the values f(k), what the loop produces is fixed only up to order,
 * and `Bag(keys, f)` is that multiset. `SumUpTo(n, f)` is the same for a loop
 * over the indices 0 .. n-1 of a slice.
 */
module Bags {

  /** Some element of a non-empty set (the same one every time). */
  ghost function Pick<K>(s: set<K>): K
    requires s != {}
  {
    var k :| k in s; k
  }

  /** The multiset union of f(k) over the keys. */
  ghost function Bag<K, V>(keys: set<K>, f: K -> multiset<V>): multiset<V>
    decreases keys
  {
    if keys == {} then multiset{}
    else
      var k := Pick(keys);
      f(k) + Bag(keys - {k}, f)
  }

  /** The union does not depend on which key is taken first. */
  lemma {:induction false} BagPick<K, V>(keys: set<K>, f: K -> multiset<V>, k: K)
    requires k in keys
    ensures Bag(keys, f) == f(k) + Bag(keys - {k}, f)
    decreases keys
  {
    var j := Pick(keys);
    if j != k {
      BagPick(keys - {j}, f, k);
      BagPick(keys - {k}, f, j);
      assert keys - {j} - {k} == keys - {k} - {j};
    }
  }

  /** A value is in the union iff some key contributes it. */
  lemma {:induction false} BagMember<K, V>(keys: set<K>, f: K -> multiset<V>, v: V)
    ensures v in Bag(keys, f) <==> exists k :: k in keys && v in f(k)
    decreases keys
  {
    if keys != {} {
      var j := Pick(keys);
      BagMember(keys - {j}, f, v);
    }
  }

  /** Functions that agree on the keys have the same union. */
  lemma {:induction false} BagCongruent<K, V>(keys: set<K>, f: K -> multiset<V>, g: K -> multiset<V>)
    requires forall k :: k in keys ==> f(k) == g(k)
    ensures Bag(keys, f) == Bag(keys, g)
    decreases keys
  {
    if keys != {} {
      var k := Pick(keys);
      BagCongruent(keys - {k}, f, g);
    }
  }

  /** Adding a key adds its contribution, also when the function changes only at the new key. */
  lemma BagInsert<K, V>(keys: set<K>, f: K -> multiset<V>, g: K -> multiset<V>, k: K)
    requires k !in keys
    requires forall j :: j in keys ==> f(j) == g(j)
    ensures Bag(keys + {k}, g) == Bag(keys, f) + g(k)
  {
    BagPick(keys + {k}, g, k);
    assert keys + {k} - {k} == keys;
    BagCongruent(keys, f, g);
  }

  /** The contributions recorded in a map, and none for other keys. */
  ghost function Recorded<K, V>(m: map<K, multiset<V>>): K -> multiset<V> {
    k => if k in m then m[k] else multiset{}
  }

  /** Recording the contribution of a new key adds it to the union. */
  lemma BagLookupInsert<K, V>(m: map<K, multiset<V>>, k: K, c: multiset<V>)
    requires k !in m
    ensures Bag(m[k := c].Keys, Recorded(m[k := c])) == Bag(m.Keys, Recorded(m)) + c
  {
    var m' := m[k := c];
    forall j | j in m.Keys
      ensures Recorded(m)(j) == Recorded(m')(j)
    {
    }
    BagInsert(m.Keys, Recorded(m), Recorded(m'), k);
    assert m'.Keys == m.Keys + {k};
  }

  /** When only key k can contribute v, v occurs in the union as often as in f(k). */
  lemma BagCountSingle<K, V>(keys: set<K>, f: K -> multiset<V>, k: K, v: V)
    requires k in keys
    requires forall j :: j in keys && j != k ==> v !in f(j)
    ensures Bag(keys, f)[v] == f(k)[v]
  {
    BagPick(keys, f, k);
    BagMember(keys - {k}, f, v);
  }

  /** When no key but k can contribute v, v occurs in the union as often as k contributes it, and not at all without k. */
  lemma BagCountOnly<K, V>(keys: set<K>, f: K -> multiset<V>, k: K, v: V)
    requires forall j :: j in keys && j != k ==> v !in f(j)
    ensures Bag(keys, f)[v] == if k in keys then f(k)[v] else 0
  {
    if k in keys {
      BagCountSingle(keys, f, k, v);
    } else {
      BagMember(keys, f, v);
    }
  }

  /** The multiset union of f(i) for 0 <= i < n. */
  ghost function SumUpTo<V>(n: nat, f: nat -> multiset<V>): multiset<V> {
    if n == 0 then multiset{} else SumUpTo(n - 1, f) + f(n - 1)
  }

  /** A value is in the sum iff some index below n contributes it. */
  lemma {:induction false} SumUpToMember<V>(n: nat, f: nat -> multiset<V>, v: V)
    ensures v in SumUpTo(n, f) <==> exists i :: 0 <= i < n && v in f(i)
  {
    if n > 0 {
      SumUpToMember(n - 1, f, v);
    }
  }

  /** A property every contribution has, the union has. */
  lemma BagForall<K, V>(keys: set<K>, f: K -> multiset<V>, P: V -> bool)
    requires forall k, v :: k in keys && v in f(k) ==> P(v)
    ensures forall v :: v in Bag(keys, f) ==> P(v)
  {
    forall v | v in Bag(keys, f)
      ensures P(v)
    {
      BagMember(keys, f, v);
    }
  }

  /** A property every contribution has, the sum has. */
  lemma SumUpToForall<V>(n: nat, f: nat -> multiset<V>, P: V -> bool)
    requires forall i, v :: 0 <= i < n && v in f(i) ==> P(v)
    ensures forall v :: v in SumUpTo(n, f) ==> P(v)
  {
    forall v | v in SumUpTo(n, f)
      ensures P(v)
    {
      SumUpToMember(n, f, v);
    }
  }
}
