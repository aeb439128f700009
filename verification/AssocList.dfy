/** Association lists with distinct keys, in insertion order: the abstract value of the runtime's
    hash map. Nothing here knows about buckets or hashes. */
module AssocLists {
  import opened Options

  datatype Pair<+K, +V> = Pair(key: K, value: V)

  type Assoc<+K, +V> = seq<Pair<K, V>>

  ghost predicate DistinctKeys<K, V>(l: Assoc<K, V>) {
    forall i, j :: 0 <= i < j < |l| ==> l[i].key != l[j].key
  }

  /** A position with key `k`, or `|l|` when there is none; with distinct keys there is at most one. */
  ghost function IndexOf<K(!new), V>(l: Assoc<K, V>, k: K): (i: nat)
    ensures i <= |l|
    ensures i < |l| ==> l[i].key == k
    ensures i == |l| ==> forall j :: 0 <= j < |l| ==> l[j].key != k
  {
    if exists j :: 0 <= j < |l| && l[j].key == k then
      var j :| 0 <= j < |l| && l[j].key == k; j
    else |l|
  }

  ghost predicate Has<K(!new), V>(l: Assoc<K, V>, k: K) {
    IndexOf(l, k) < |l|
  }

  ghost function Lookup<K(!new), V>(l: Assoc<K, V>, k: K): Option<V> {
    var i := IndexOf(l, k);
    if i < |l| then Some(l[i].value) else None
  }

  /** An update keeps its place; a new key goes last. */
  ghost function Put<K(!new), V>(l: Assoc<K, V>, k: K, v: V): Assoc<K, V> {
    var i := IndexOf(l, k);
    if i < |l| then l[i := Pair(k, v)] else l + [Pair(k, v)]
  }

  /** A removal closes the gap. */
  ghost function Delete<K(!new), V>(l: Assoc<K, V>, k: K): Assoc<K, V> {
    var i := IndexOf(l, k);
    if i < |l| then l[..i] + l[i + 1..] else l
  }

  ghost function PutAll<K(!new), V>(l: Assoc<K, V>, m: Assoc<K, V>): Assoc<K, V>
    decreases |m|
  {
    if m == [] then l
    else var n := |m| - 1; Put(PutAll(l, m[..n]), m[n].key, m[n].value)
  }

  function Keys<K, V>(l: Assoc<K, V>): (ks: seq<K>)
    ensures |ks| == |l|
    ensures forall i :: 0 <= i < |l| ==> ks[i] == l[i].key
  {
    seq(|l|, i requires 0 <= i < |l| => l[i].key)
  }

  function Values<K, V>(l: Assoc<K, V>): (vs: seq<V>)
    ensures |vs| == |l|
    ensures forall i :: 0 <= i < |l| ==> vs[i] == l[i].value
  {
    seq(|l|, i requires 0 <= i < |l| => l[i].value)
  }

  lemma IndexIs<K(!new), V>(l: Assoc<K, V>, k: K, i: nat)
    requires DistinctKeys(l) && i < |l| && l[i].key == k
    ensures IndexOf(l, k) == i
  {
  }

  lemma HasKey<K(!new), V>(l: Assoc<K, V>, k: K)
    ensures Has(l, k) <==> k in Keys(l)
    ensures Has(l, k) <==> Lookup(l, k).Some?
  {
    if k in Keys(l) {
      var j :| 0 <= j < |l| && Keys(l)[j] == k;
      assert l[j].key == k;
    }
    if Has(l, k) {
      assert Keys(l)[IndexOf(l, k)] == k;
    }
  }

  /** Putting is last-write-wins on one key and leaves every other key alone. */
  lemma LookupPut<K(!new), V>(l: Assoc<K, V>, k: K, v: V, q: K)
    requires DistinctKeys(l)
    ensures DistinctKeys(Put(l, k, v))
    ensures Lookup(Put(l, k, v), q) == if q == k then Some(v) else Lookup(l, q)
  {
    var r, i := Put(l, k, v), IndexOf(l, k);
    assert r[i] == Pair(k, v) && DistinctKeys(r);
    if q == k {
      IndexIs(r, k, i);
    } else {
      var j := IndexOf(l, q);
      if j < |l| { IndexIs(r, q, j); } else if IndexOf(r, q) < |r| { assert false; }
    }
  }

  lemma LookupDelete<K(!new), V>(l: Assoc<K, V>, k: K, q: K)
    requires DistinctKeys(l)
    ensures DistinctKeys(Delete(l, k))
    ensures Lookup(Delete(l, k), q) == if q == k then None else Lookup(l, q)
  {
    var r, i := Delete(l, k), IndexOf(l, k);
    assert forall j :: 0 <= j < |r| ==> r[j] == if j < i then l[j] else l[j + 1];
    var j := IndexOf(l, q);
    if q != k && j < |l| {
      IndexIs(r, q, if j < i then j else j - 1);
    } else if IndexOf(r, q) < |r| {
      assert false;
    }
  }

  /** Removing a key and putting it back moves it to the end, after the survivors in their order. */
  lemma ReinsertGoesLast<K(!new), V>(l: Assoc<K, V>, k: K, v: V)
    requires DistinctKeys(l)
    ensures Put(Delete(l, k), k, v) == Delete(l, k) + [Pair(k, v)]
  {
    LookupDelete(l, k, k);
  }

  /** Two lists with the same keys in the same order and the same lookups are the same list. */
  lemma Extensional<K(!new), V>(a: Assoc<K, V>, b: Assoc<K, V>)
    requires DistinctKeys(a) && DistinctKeys(b) && Keys(a) == Keys(b)
    requires forall k :: k in Keys(a) ==> Lookup(a, k) == Lookup(b, k)
    ensures a == b
  {
    forall i | 0 <= i < |a| ensures a[i] == b[i] {
      assert a[i].key == Keys(a)[i] == Keys(b)[i] == b[i].key;
      IndexIs(a, a[i].key, i);
      IndexIs(b, a[i].key, i);
      assert Lookup(a, a[i].key) == Lookup(b, a[i].key);
    }
  }

  /** The elements of `ks` that are not in `seen`, in order. */
  function Fresh<K(==, !new)>(ks: seq<K>, seen: seq<K>): seq<K> {
    if ks == [] then []
    else
      var n := |ks| - 1;
      Fresh(ks[..n], seen) + if ks[n] in seen then [] else [ks[n]]
  }

  lemma {:induction false} FreshMember<K(!new)>(ks: seq<K>, seen: seq<K>, k: K)
    ensures k in Fresh(ks, seen) <==> k in ks && k !in seen
  {
    if ks == [] {
    } else {
      var n := |ks| - 1;
      assert ks == ks[..n] + [ks[n]];
      FreshMember(ks[..n], seen, k);
    }
  }

  lemma KeysPut<K(!new), V>(l: Assoc<K, V>, k: K, v: V)
    ensures Keys(Put(l, k, v)) == if k in Keys(l) then Keys(l) else Keys(l) + [k]
  {
    HasKey(l, k);
  }

  /** A merge keeps the destination's order and appends the new keys in the order of the source. */
  lemma {:induction false} MergeKeys<K(!new), V>(l: Assoc<K, V>, m: Assoc<K, V>)
    requires DistinctKeys(l) && DistinctKeys(m)
    ensures DistinctKeys(PutAll(l, m))
    ensures Keys(PutAll(l, m)) == Keys(l) + Fresh(Keys(m), Keys(l))
    decreases |m|
  {
    if m == [] {
    } else {
      var n := |m| - 1;
      var p, k := m[..n], m[n].key;
      MergeKeys(l, p);
      assert m == p + [m[n]];
      assert k !in Keys(p) by { HasKey(p, k); }
      LookupPut(PutAll(l, p), k, m[n].value, k);
      PutFresh(l, PutAll(l, p), p, m[n]);
    }
  }

  lemma PutFresh<K(!new), V>(l: Assoc<K, V>, r: Assoc<K, V>, p: Assoc<K, V>, x: Pair<K, V>)
    requires x.key !in Keys(p)
    requires Keys(r) == Keys(l) + Fresh(Keys(p), Keys(l))
    ensures Keys(Put(r, x.key, x.value)) == Keys(l) + Fresh(Keys(p + [x]), Keys(l))
  {
    assert Keys(p + [x]) == Keys(p) + [x.key];
    KeysPut(r, x.key, x.value);
    FreshAppend(Keys(l), Keys(p), x.key);
  }

  /** A merge is right-biased on values. */
  lemma {:induction false} MergeLookup<K(!new), V>(l: Assoc<K, V>, m: Assoc<K, V>, q: K)
    requires DistinctKeys(l) && DistinctKeys(m)
    ensures Lookup(PutAll(l, m), q) == if Has(m, q) then Lookup(m, q) else Lookup(l, q)
    decreases |m|
  {
    if m == [] {
    } else {
      var n := |m| - 1;
      var p, k := m[..n], m[n].key;
      MergeKeys(l, p);
      MergeLookup(l, p, q);
      LookupPut(PutAll(l, p), k, m[n].value, q);
      if q == k {
        IndexIs(m, q, n);
      } else if Has(p, q) {
        IndexIs(m, q, IndexOf(p, q));
      }
    }
  }

  lemma {:induction false} PutAllSize<K(!new), V>(l: Assoc<K, V>, m: Assoc<K, V>)
    ensures |PutAll(l, m)| <= |l| + |m|
    decreases |m|
  {
    if m != [] { PutAllSize(l, m[..|m| - 1]); }
  }

  /** The new keys keep the order of their source. */
  lemma {:induction false} FreshInOrder<K(!new), V>(m: Assoc<K, V>, seen: seq<K>, i: nat, j: nat)
    requires DistinctKeys(m) && i < j < |Fresh(Keys(m), seen)|
    ensures IndexOf(m, Fresh(Keys(m), seen)[i]) < IndexOf(m, Fresh(Keys(m), seen)[j]) < |m|
    decreases |m|
  {
    var n := |m| - 1;
    var p, fresh' := m[..n], Fresh(Keys(m), seen);
    assert Keys(m)[..n] == Keys(p);
    InPrefix(m, seen, i);
    if j < |Fresh(Keys(p), seen)| {
      FreshInOrder(p, seen, i, j);
      InPrefix(m, seen, j);
    } else {
      IndexIs(m, m[n].key, n);
    }
  }

  lemma InPrefix<K(!new), V>(m: Assoc<K, V>, seen: seq<K>, i: nat)
    requires DistinctKeys(m) && m != [] && i < |Fresh(Keys(m[..|m| - 1]), seen)|
    ensures var p, k := m[..|m| - 1], Fresh(Keys(m[..|m| - 1]), seen)[i];
            IndexOf(m, k) == IndexOf(p, k) < |p|
  {
    var p := m[..|m| - 1];
    var k := Fresh(Keys(p), seen)[i];
    FreshMember(Keys(p), seen, k);
    HasKey(p, k);
    IndexIs(m, k, IndexOf(p, k));
  }

  /** Merging is a monoid action: merging twice is merging the merge. */
  lemma MergeAssociative<K(!new), V>(a: Assoc<K, V>, b: Assoc<K, V>, c: Assoc<K, V>)
    requires DistinctKeys(a) && DistinctKeys(b) && DistinctKeys(c)
    ensures DistinctKeys(PutAll(b, c))
    ensures PutAll(PutAll(a, b), c) == PutAll(a, PutAll(b, c))
  {
    MergeKeysTwice(a, b, c);
    var l, r := PutAll(PutAll(a, b), c), PutAll(a, PutAll(b, c));
    forall q | q in Keys(l) ensures Lookup(l, q) == Lookup(r, q) {
      MergeLookupTwice(a, b, c, q);
    }
    Extensional(l, r);
  }

  lemma MergeKeysTwice<K(!new), V>(a: Assoc<K, V>, b: Assoc<K, V>, c: Assoc<K, V>)
    requires DistinctKeys(a) && DistinctKeys(b) && DistinctKeys(c)
    ensures DistinctKeys(PutAll(b, c))
    ensures DistinctKeys(PutAll(PutAll(a, b), c)) && DistinctKeys(PutAll(a, PutAll(b, c)))
    ensures Keys(PutAll(PutAll(a, b), c)) == Keys(PutAll(a, PutAll(b, c)))
  {
    MergeKeys(a, b);
    MergeKeys(b, c);
    MergeKeys(PutAll(a, b), c);
    MergeKeys(a, PutAll(b, c));
    var ka, kb, kc := Keys(a), Keys(b), Keys(c);
    FreshTwice(ka, kb, kc);
  }

  lemma MergeLookupTwice<K(!new), V>(a: Assoc<K, V>, b: Assoc<K, V>, c: Assoc<K, V>, q: K)
    requires DistinctKeys(a) && DistinctKeys(b) && DistinctKeys(c)
    ensures Lookup(PutAll(PutAll(a, b), c), q) == Lookup(PutAll(a, PutAll(b, c)), q)
  {
    MergeKeys(a, b);
    MergeKeys(b, c);
    MergeLookup(a, b, q);
    MergeLookup(b, c, q);
    MergeLookup(PutAll(a, b), c, q);
    MergeLookup(a, PutAll(b, c), q);
  }

  lemma FreshAppend<K(!new)>(a: seq<K>, b: seq<K>, k: K)
    requires k !in b
    ensures a + Fresh(b + [k], a) == if k in a + Fresh(b, a) then a + Fresh(b, a) else a + Fresh(b, a) + [k]
  {
    FreshSnoc(b, k, a);
    FreshMember(b, a, k);
  }

  lemma FreshTwice<K(!new)>(a: seq<K>, b: seq<K>, c: seq<K>)
    ensures a + Fresh(b + Fresh(c, b), a) == (a + Fresh(b, a)) + Fresh(c, a + Fresh(b, a))
  {
    FreshFresh(a, b, c);
  }

  lemma {:induction false} FreshFresh<K(!new)>(a: seq<K>, b: seq<K>, c: seq<K>)
    ensures Fresh(b + Fresh(c, b), a) == Fresh(b, a) + Fresh(c, a + Fresh(b, a))
  {
    if c == [] {
      assert b + [] == b;
    } else {
      var n := |c| - 1;
      FreshFresh(a, b, c[..n]);
      FreshSnoc(b + Fresh(c[..n], b), c[n], a);
      FreshMember(b, a, c[n]);
      var before, last := Fresh(c[..n], a + Fresh(b, a)), if c[n] in a || c[n] in b then [] else [c[n]];
      assert Fresh(b, a) + (before + last) == (Fresh(b, a) + before) + last;
      if c[n] in b {
        assert b + Fresh(c, b) == b + Fresh(c[..n], b);
      } else {
        assert b + Fresh(c, b) == b + Fresh(c[..n], b) + [c[n]];
      }
    }
  }

  lemma FreshSnoc<K(!new)>(ks: seq<K>, k: K, seen: seq<K>)
    ensures Fresh(ks + [k], seen) == Fresh(ks, seen) + if k in seen then [] else [k]
  {
    assert (ks + [k])[..|ks|] == ks;
  }

  /** Putting every pair of a list into the empty list rebuilds it; into itself, changes nothing. */
  lemma MergeUnits<K(!new), V>(m: Assoc<K, V>)
    requires DistinctKeys(m)
    ensures PutAll([], m) == m
    ensures PutAll(m, m) == m
  {
    FreshNone(Keys(m));
    MergeKeys([], m);
    MergeKeys(m, m);
    forall q ensures Lookup(PutAll([], m), q) == Lookup(m, q) == Lookup(PutAll(m, m), q) {
      MergeLookup([], m, q);
      MergeLookup(m, m, q);
    }
    Extensional(PutAll([], m), m);
    Extensional(PutAll(m, m), m);
  }

  lemma {:induction false} FreshNone<K(!new)>(ks: seq<K>)
    ensures Fresh(ks, []) == ks
    ensures Fresh(ks, ks) == []
  {
    if ks == [] {
    } else {
      var n := |ks| - 1;
      FreshNone(ks[..n]);
      assert ks[..n] + [ks[n]] == ks;
      if Fresh(ks, ks) != [] { FreshMember(ks, ks, Fresh(ks, ks)[0]); }
    }
  }

  lemma PutAllStep<K(!new), V>(l: Assoc<K, V>, m: Assoc<K, V>, i: nat)
    requires i < |m|
    ensures PutAll(l, m[..i + 1]) == Put(PutAll(l, m[..i]), m[i].key, m[i].value)
  {
    assert m[..i + 1][..i] == m[..i];
  }

  lemma {:induction false} MergePrefix<K(!new), V>(m: Assoc<K, V>, i: nat)
    requires DistinctKeys(m) && i <= |m|
    ensures PutAll(m, m[..i]) == m
  {
    if i > 0 {
      MergePrefix(m, i - 1);
      PutAllStep(m, m, i - 1);
      IndexIs(m, m[i - 1].key, i - 1);
    }
  }
}
