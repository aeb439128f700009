/** The runtime's hash set: a hash map whose values are the marker byte 1, and the set algebra on it. */
module HashSets {
  import opened Options
  import opened AssocLists
  import opened HashMaps
  import opened FluxusVector
  import opened Sequences

  const MARKER := 1

  ghost function Elems<T(!new)>(xs: seq<T>): set<T> {
    set x | x in xs
  }

  /** The elements of `xs` that are in `other` (or, when `keep` is false, that are not), in order. */
  ghost function Sift<T(!new)>(xs: seq<T>, other: seq<T>, keep: bool): seq<T> {
    if xs == [] then []
    else
      var n := |xs| - 1;
      Sift(xs[..n], other, keep) + if (xs[n] in other) == keep then [xs[n]] else []
  }

  lemma {:induction false} SiftMember<T(!new)>(xs: seq<T>, other: seq<T>, keep: bool, x: T)
    ensures x in Sift(xs, other, keep) <==> x in xs && (x in other) == keep
  {
    if xs != [] {
      var n := |xs| - 1;
      assert xs == xs[..n] + [xs[n]];
      SiftMember(xs[..n], other, keep, x);
    }
  }

  lemma SiftElems<T(!new)>(xs: seq<T>, other: seq<T>, keep: bool)
    ensures Elems(Sift(xs, other, keep)) == if keep then Elems(xs) * Elems(other) else Elems(xs) - Elems(other)
  {
    forall x ensures x in Sift(xs, other, keep) <==> x in xs && (x in other) == keep {
      SiftMember(xs, other, keep, x);
    }
  }

  lemma ElemsConcat<T(!new)>(xs: seq<T>, ys: seq<T>)
    ensures Elems(xs + ys) == Elems(xs) + Elems(ys)
  {
  }

  /** Sifting out is what a merge adds. */
  lemma {:induction false} SiftIsFresh<T(!new)>(xs: seq<T>, other: seq<T>)
    ensures Sift(xs, other, false) == Fresh(xs, other)
  {
    if xs != [] { SiftIsFresh(xs[..|xs| - 1], other); }
  }

  lemma SiftStep<T(!new)>(xs: seq<T>, other: seq<T>, keep: bool, seen: seq<T>, i: nat)
    requires Distinct(xs) && i < |xs|
    ensures var got := seen + Fresh(Sift(xs[..i], other, keep), seen);
            seen + Fresh(Sift(xs[..i + 1], other, keep), seen)
              == if (xs[i] in other) == keep && xs[i] !in got then got + [xs[i]] else got
  {
    var before := Sift(xs[..i], other, keep);
    assert xs[..i + 1][..i] == xs[..i];
    SiftMember(xs[..i], other, keep, xs[i]);
    FreshMember(before, seen, xs[i]);
    assert Sift(xs[..i + 1], other, keep) == before + if (xs[i] in other) == keep then [xs[i]] else [];
    if (xs[i] in other) == keep {
      FreshAppend(seen, before, xs[i]);
    } else {
      assert before + [] == before;
    }
  }

  /** A list without repetitions has as many elements as its set. */
  lemma {:induction false} DistinctSize<T(!new)>(xs: seq<T>)
    requires Distinct(xs)
    ensures |Elems(xs)| == |xs|
  {
    if xs != [] {
      var n := |xs| - 1;
      DistinctSize(xs[..n]);
      assert xs == xs[..n] + [xs[n]];
      assert Elems(xs) == Elems(xs[..n]) + {xs[n]};
    }
  }

  lemma SubsetSize<T(!new)>(a: set<T>, b: set<T>)
    requires a <= b
    ensures |a| <= |b|
    ensures |a| == |b| ==> a == b
  {
    assert b == a + (b - a);
    assert |b| == |a| + |b - a|;
  }

  /** The keys that are left close the gap. */
  lemma KeysDelete<K(!new), V>(l: Assoc<K, V>, k: K)
    ensures var i := IndexOf(l, k);
            Keys(Delete(l, k)) == if i < |l| then Keys(l)[..i] + Keys(l)[i + 1..] else Keys(l)
    ensures IndexOf(l, k) < |l| ==> Keys(l)[IndexOf(l, k)] == k
  {
  }

  class HashSet<T(==, !new)> {
    const table: HashMap<T, int>

    ghost predicate Valid()
      reads table, table.Repr
      ensures Valid() ==> Distinct(Items())
    {
      table.Valid()
    }

    /** The elements in insertion order. */
    ghost function Items(): seq<T>
      reads table
    {
      Keys(table.contents)
    }

    ghost function Footprint(): set<object>
      reads table
    {
      table.Repr
    }

    constructor (home: HomeFn<T>)
      ensures Valid() && fresh(Footprint()) && Items() == [] && table.home == home
    {
      table := new HashMap(home);
    }

    method Insert(x: T) returns (added: bool)
      requires Valid()
      modifies Footprint()
      ensures Valid() && fresh(Footprint() - old(Footprint()))
      ensures added <==> x !in old(Items())
      ensures Items() == if x in old(Items()) then old(Items()) else old(Items()) + [x]
    {
      var before := table.len;
      KeysPut(table.contents, x, MARKER);
      table.Insert(x, MARKER);
      added := table.len > before;
    }

    method Contains(x: T) returns (r: bool)
      requires Valid()
      ensures r <==> x in Items()
    {
      HasKey(table.contents, x);
      r := table.Contains(x);
    }

    method Remove(x: T) returns (found: bool)
      requires Valid()
      modifies Footprint()
      ensures Valid() && fresh(Footprint() - old(Footprint()))
      ensures found <==> x in old(Items())
      ensures !found ==> Items() == old(Items())
      ensures found ==> exists i :: 0 <= i < |old(Items())| && old(Items())[i] == x
                                 && Items() == old(Items())[..i] + old(Items())[i + 1..]
    {
      HasKey(table.contents, x);
      KeysDelete(table.contents, x);
      found := table.Remove(x);
    }

    method Copy() returns (dst: HashSet<T>)
      requires Valid()
      ensures dst.Valid() && fresh(dst) && fresh(dst.Footprint()) && dst.Items() == Items()
      ensures dst.table.home == table.home
    {
      dst := new HashSet(table.home);
      dst.AddAll(this);
      FreshNone(Items());
    }

    method Reserve(additional: nat)
      requires Valid()
      modifies Footprint()
      ensures Valid() && fresh(Footprint() - old(Footprint())) && Items() == old(Items())
    {
      table.Reserve(additional);
    }

    /** Reserves room for the elements of `src`, then inserts them one by one. */
    method AddAll(src: HashSet<T>)
      requires Valid() && src.Valid() && Footprint() !! src.Footprint()
      modifies Footprint()
      ensures Valid() && fresh(Footprint() - old(Footprint()))
      ensures Items() == old(Items()) + Fresh(src.Items(), old(Items()))
      ensures src.Valid() && src.Items() == old(src.Items())
    {
      MergeKeys(table.contents, src.table.contents);
      table.Merge(src.table);
    }

    /** The filtering loop of intersection and difference: inserts the elements of `src` that are in
        `other`, or those that are not. */
    method AddSifted(src: HashSet<T>, other: HashSet<T>, keep: bool)
      requires Valid() && src.Valid() && other.Valid()
      requires Footprint() !! src.Footprint() && Footprint() !! other.Footprint()
      modifies Footprint()
      ensures Valid() && fresh(Footprint() - old(Footprint()))
      ensures Items() == old(Items()) + Fresh(Sift(src.Items(), other.Items(), keep), old(Items()))
      ensures src.Valid() && src.Items() == old(src.Items())
      ensures other.Valid() && other.Items() == old(other.Items())
    {
      ghost var mine, theirs, sieve := Items(), src.Items(), other.Items();
      var i := 0;
      while i < src.table.len
        invariant 0 <= i <= |theirs| && fresh(Footprint() - old(Footprint()))
        invariant SiftState(src, other, keep, mine, theirs, sieve, i)
      {
        SiftOne(src, other, keep, mine, theirs, sieve, i);
        i := i + 1;
      }
      assert theirs[..i] == theirs;
    }

    /** The first `i` elements of the source have been through the sieve. */
    ghost predicate SiftState(src: HashSet<T>, other: HashSet<T>, keep: bool,
        mine: seq<T>, theirs: seq<T>, sieve: seq<T>, i: nat)
      requires i <= |theirs|
      reads table, table.Repr, src.table, src.table.Repr, other.table, other.table.Repr
    {
      && Valid()
      && src.Valid() && src.Items() == theirs && Footprint() !! src.Footprint()
      && other.Valid() && other.Items() == sieve && Footprint() !! other.Footprint()
      && Items() == mine + Fresh(Sift(theirs[..i], sieve, keep), mine)
    }

    /** Two other sets do not notice an insertion. */
    method InsertApart(src: HashSet<T>, other: HashSet<T>, x: T)
      requires Valid() && src.Valid() && Footprint() !! src.Footprint()
      requires other.Valid() && Footprint() !! other.Footprint()
      modifies Footprint()
      ensures Valid() && Items() == if x in old(Items()) then old(Items()) else old(Items()) + [x]
      ensures src.Valid() && src.Items() == old(src.Items()) && Footprint() !! src.Footprint()
      ensures other.Valid() && other.Items() == old(other.Items()) && Footprint() !! other.Footprint()
      ensures fresh(Footprint() - old(Footprint()))
    {
      var _ := Insert(x);
    }

    method SiftOne(src: HashSet<T>, other: HashSet<T>, keep: bool,
        ghost mine: seq<T>, ghost theirs: seq<T>, ghost sieve: seq<T>, i: nat)
      requires i < |theirs| && SiftState(src, other, keep, mine, theirs, sieve, i)
      modifies Footprint()
      ensures SiftState(src, other, keep, mine, theirs, sieve, i + 1)
      ensures fresh(Footprint() - old(Footprint()))
    {
      var x := src.table.insertOrder[i].key;
      assert x == theirs[i];
      var inOther := other.Contains(x);
      SiftStep(theirs, sieve, keep, mine, i);
      if inOther == keep { InsertApart(src, other, x); }
    }
  }

  lemma UnionElems<T(!new)>(a: seq<T>, b: seq<T>)
    ensures Fresh(b, a) == Sift(b, a, false)
    ensures Elems(a + Sift(b, a, false)) == Elems(a) + Elems(b)
  {
    SiftIsFresh(b, a);
    ElemsConcat(a, Sift(b, a, false));
    SiftElems(b, a, false);
  }

  lemma SymmetricElems<T(!new)>(a: seq<T>, b: seq<T>)
    ensures Fresh(Sift(b, a, false), Sift(a, b, false)) == Sift(b, a, false)
    ensures Elems(Sift(a, b, false) + Sift(b, a, false)) == (Elems(a) - Elems(b)) + (Elems(b) - Elems(a))
  {
    var left, right := Sift(a, b, false), Sift(b, a, false);
    SiftElems(a, b, false);
    SiftElems(b, a, false);
    ElemsConcat(left, right);
    forall x | x in right ensures x !in left {
      SiftMember(b, a, false, x);
      SiftMember(a, b, false, x);
    }
    FreshDisjoint(right, left);
  }

  /** Both a test of lengths and a one-way scan; the early exit is the pigeonhole principle. */
  method IsSubset<T(==, !new)>(a: HashSet<T>, b: HashSet<T>) returns (r: bool)
    requires a.Valid() && b.Valid()
    ensures r <==> Elems(a.Items()) <= Elems(b.Items())
  {
    DistinctSize(a.Items());
    DistinctSize(b.Items());
    if a.table.len > b.table.len {
      if Elems(a.Items()) <= Elems(b.Items()) { SubsetSize(Elems(a.Items()), Elems(b.Items())); }
      return false;
    }
    for i := 0 to a.table.len
      invariant Elems(a.Items()[..i]) <= Elems(b.Items())
    {
      var x := a.table.insertOrder[i].key;
      assert a.Items()[..i + 1] == a.Items()[..i] + [x] && x in a.Items();
      var inB := b.Contains(x);
      if !inB {
        assert x in Elems(a.Items()) && x !in Elems(b.Items());
        return false;
      }
    }
    assert a.Items()[..a.table.len] == a.Items();
    return true;
  }

  /** Equal lengths and one-way inclusion decide equality of the sets. */
  method Equals<T(==, !new)>(a: HashSet<T>, b: HashSet<T>) returns (r: bool)
    requires a.Valid() && b.Valid()
    ensures r <==> Elems(a.Items()) == Elems(b.Items())
  {
    DistinctSize(a.Items());
    DistinctSize(b.Items());
    if a.table.len != b.table.len { return false; }
    r := IsSubset(a, b);
    if r { SubsetSize(Elems(a.Items()), Elems(b.Items())); }
  }

  method Union<T(==, !new)>(a: HashSet<T>, b: HashSet<T>) returns (u: HashSet<T>)
    requires a.Valid() && b.Valid()
    ensures u.Valid() && fresh(u.Footprint())
    ensures u.Items() == a.Items() + Sift(b.Items(), a.Items(), false)
    ensures Elems(u.Items()) == Elems(a.Items()) + Elems(b.Items())
  {
    ghost var left, right := a.Items(), b.Items();
    u := a.Copy();
    u.AddAll(b);
    assert u.Items() == left + Fresh(right, left);
    UnionElems(left, right);
  }

  /** A new set with room for `extra` more, holding what the sieve lets through. */
  method Sifted<T(==, !new)>(src: HashSet<T>, other: HashSet<T>, keep: bool, extra: nat) returns (u: HashSet<T>)
    requires src.Valid() && other.Valid()
    ensures u.Valid() && fresh(u.Footprint()) && u.Items() == Sift(src.Items(), other.Items(), keep)
  {
    u := new HashSet(src.table.home);
    u.Reserve(src.table.len + extra);
    u.AddSifted(src, other, keep);
    FreshNone(Sift(src.Items(), other.Items(), keep));
  }

  /** Scans the smaller set, so the order of the result is that of the smaller operand (the left one on a tie). */
  method Intersection<T(==, !new)>(a: HashSet<T>, b: HashSet<T>) returns (u: HashSet<T>)
    requires a.Valid() && b.Valid()
    ensures u.Valid() && fresh(u.Footprint())
    ensures u.Items() == if |a.Items()| <= |b.Items()| then Sift(a.Items(), b.Items(), true)
                         else Sift(b.Items(), a.Items(), true)
    ensures Elems(u.Items()) == Elems(a.Items()) * Elems(b.Items())
  {
    var probe := if a.table.len <= b.table.len then a else b;
    var other := if probe == a then b else a;
    u := Sifted(probe, other, true, 0);
    SiftElems(probe.Items(), other.Items(), true);
  }

  method Difference<T(==, !new)>(a: HashSet<T>, b: HashSet<T>) returns (u: HashSet<T>)
    requires a.Valid() && b.Valid()
    ensures u.Valid() && fresh(u.Footprint())
    ensures u.Items() == Sift(a.Items(), b.Items(), false)
    ensures Elems(u.Items()) == Elems(a.Items()) - Elems(b.Items())
  {
    u := Sifted(a, b, false, 0);
    SiftElems(a.Items(), b.Items(), false);
  }

  method SymmetricDifference<T(==, !new)>(a: HashSet<T>, b: HashSet<T>) returns (u: HashSet<T>)
    requires a.Valid() && b.Valid()
    ensures u.Valid() && fresh(u.Footprint())
    ensures u.Items() == Sift(a.Items(), b.Items(), false) + Sift(b.Items(), a.Items(), false)
    ensures Elems(u.Items()) == (Elems(a.Items()) - Elems(b.Items())) + (Elems(b.Items()) - Elems(a.Items()))
  {
    u := Sifted(a, b, false, b.table.len);
    u.AddSifted(b, a, false);
    SymmetricElems(a.Items(), b.Items());
  }

  lemma {:induction false} FreshDisjoint<T(!new)>(xs: seq<T>, seen: seq<T>)
    requires forall x :: x in xs ==> x !in seen
    ensures Fresh(xs, seen) == xs
  {
    if xs != [] {
      FreshDisjoint(xs[..|xs| - 1], seen);
      assert xs == xs[..|xs| - 1] + [xs[|xs| - 1]];
    }
  }
}
