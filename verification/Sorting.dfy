/** What any correct sort does with a total order: one result, whatever the algorithm. */
module Sorting {
  import opened Sequences

  /** A comparator's sign: negative, zero or positive. */
  type Order<!T> = (T, T) -> int

  ghost predicate TotalOn<T(!new)>(cmp: Order<T>, s: seq<T>) {
    && (forall x, y :: x in s && y in s ==> (cmp(x, y) == 0 <==> x == y))
    && (forall x, y :: x in s && y in s ==> (cmp(x, y) < 0 <==> cmp(y, x) > 0))
    && (forall x, y, z {:trigger Chain(cmp, x, y, z)} ::
          x in s && y in s && z in s && Chain(cmp, x, y, z) ==> cmp(x, z) <= 0)
  }

  predicate Chain<T>(cmp: Order<T>, x: T, y: T, z: T) {
    cmp(x, y) <= 0 && cmp(y, z) <= 0
  }

  ghost predicate Ordered<T>(cmp: Order<T>, s: seq<T>) {
    forall i, j :: 0 <= i < j < |s| ==> cmp(s[i], s[j]) <= 0
  }

  ghost predicate IsSortOf<T>(cmp: Order<T>, s: seq<T>, sorted: seq<T>) {
    multiset(sorted) == multiset(s) && Ordered(cmp, sorted)
  }

  /** The contract of the C library's sort. */
  ghost predicate Sorts<T(!new)>(qsort: (seq<T>, Order<T>) -> seq<T>) {
    forall s, cmp :: TotalOn(cmp, s) ==> IsSortOf(cmp, s, qsort(s, cmp))
  }

  lemma SameElements<T>(a: seq<T>, b: seq<T>)
    requires multiset(a) == multiset(b)
    ensures |a| == |b| && forall x :: x in a <==> x in b
  {
    assert |multiset(a)| == |a| && |multiset(b)| == |b|;
    forall x ensures x in a <==> x in b { assert x in multiset(a) <==> x in multiset(b); }
  }

  lemma TotalOnFewer<T(!new)>(cmp: Order<T>, s: seq<T>, t: seq<T>)
    requires TotalOn(cmp, s) && forall x :: x in t ==> x in s
    ensures TotalOn(cmp, t)
  {
  }

  lemma FirstAgrees<T(!new)>(cmp: Order<T>, a: seq<T>, b: seq<T>)
    requires TotalOn(cmp, a) && Ordered(cmp, a) && Ordered(cmp, b) && multiset(a) == multiset(b) && a != []
    ensures b != [] && a[0] == b[0]
  {
    SameElements(a, b);
    assert a[0] in b && b[0] in a;
    FirstIsLeast(cmp, a, b[0]);
    FirstIsLeast(cmp, b, a[0]);
  }

  lemma FirstIsLeast<T(!new)>(cmp: Order<T>, s: seq<T>, x: T)
    requires Ordered(cmp, s) && x in s && cmp(x, x) == 0
    ensures cmp(s[0], x) <= 0
  {
  }

  lemma TailsPermute<T>(a: seq<T>, b: seq<T>)
    requires multiset(a) == multiset(b) && a != [] && b != [] && a[0] == b[0]
    ensures multiset(a[1..]) == multiset(b[1..])
  {
    assert a == [a[0]] + a[1..] && b == [b[0]] + b[1..];
    assert multiset(a[1..]) == multiset(a) - multiset{a[0]};
    assert multiset(b[1..]) == multiset(b) - multiset{b[0]};
  }

  lemma TailOrdered<T>(cmp: Order<T>, s: seq<T>)
    requires Ordered(cmp, s) && s != []
    ensures Ordered(cmp, s[1..])
  {
    var t := s[1..];
    forall i, j | 0 <= i < j < |t| ensures cmp(t[i], t[j]) <= 0 {
      assert t[i] == s[i + 1] && t[j] == s[j + 1];
    }
  }

  lemma SameHeadAndTail<T>(a: seq<T>, b: seq<T>)
    requires a != [] && b != [] && a[0] == b[0] && a[1..] == b[1..]
    ensures a == b
  {
    assert a == [a[0]] + a[1..] && b == [b[0]] + b[1..];
  }

  /** Two sorts of the same elements are equal. */
  lemma {:induction false} OrderedUnique<T(!new)>(cmp: Order<T>, a: seq<T>, b: seq<T>)
    requires TotalOn(cmp, a) && Ordered(cmp, a) && Ordered(cmp, b) && multiset(a) == multiset(b)
    ensures a == b
  {
    if a == [] {
      SameElements(a, b);
    } else {
      FirstAgrees(cmp, a, b);
      TailsPermute(a, b);
      TotalOnFewer(cmp, a, a[1..]);
      TailOrdered(cmp, a);
      TailOrdered(cmp, b);
      OrderedUnique(cmp, a[1..], b[1..]);
      SameHeadAndTail(a, b);
    }
  }

  // ---------- a reference sort ----------

  function Inserted<T>(cmp: Order<T>, x: T, s: seq<T>): (r: seq<T>)
    ensures multiset(r) == multiset([x] + s)
  {
    if s == [] then [x]
    else if cmp(x, s[0]) <= 0 then [x] + s
    else
      assert s == [s[0]] + s[1..];
      [s[0]] + Inserted(cmp, x, s[1..])
  }

  function InsertionSorted<T>(cmp: Order<T>, s: seq<T>): (r: seq<T>)
    ensures multiset(r) == multiset(s)
  {
    if s == [] then []
    else
      assert s == [s[0]] + s[1..];
      Inserted(cmp, s[0], InsertionSorted(cmp, s[1..]))
  }

  lemma OrderedCons<T>(cmp: Order<T>, x: T, s: seq<T>)
    requires Ordered(cmp, s) && forall y :: y in s ==> cmp(x, y) <= 0
    ensures Ordered(cmp, [x] + s)
  {
    var t := [x] + s;
    forall i, j | 0 <= i < j < |t| ensures cmp(t[i], t[j]) <= 0 {
      assert t[j] == s[j - 1];
      if i > 0 { assert t[i] == s[i - 1]; }
    }
  }

  lemma FirstBounds<T(!new)>(cmp: Order<T>, x: T, s: seq<T>)
    requires TotalOn(cmp, [x] + s) && Ordered(cmp, s) && s != [] && cmp(x, s[0]) <= 0
    ensures forall y :: y in s ==> cmp(x, y) <= 0
  {
    var all := [x] + s;
    assert all[0] == x && all[1] == s[0];
    forall y | y in s ensures cmp(x, y) <= 0 {
      assert y in all && s[0] in all && x in all;
      FirstIsLeast(cmp, s, y);
      assert Chain(cmp, x, s[0], y);
    }
  }

  lemma {:induction false} InsertedOrdered<T(!new)>(cmp: Order<T>, x: T, s: seq<T>)
    requires TotalOn(cmp, [x] + s) && Ordered(cmp, s)
    ensures Ordered(cmp, Inserted(cmp, x, s))
  {
    if s != [] {
      if cmp(x, s[0]) <= 0 {
        FirstBounds(cmp, x, s);
        OrderedCons(cmp, x, s);
      } else {
        var tail := s[1..];
        var rest := Inserted(cmp, x, tail);
        TailOrdered(cmp, s);
        TotalOnFewer(cmp, [x] + s, [x] + tail);
        InsertedOrdered(cmp, x, tail);
        HeadBounds(cmp, x, s, rest);
        OrderedCons(cmp, s[0], rest);
      }
    }
  }

  lemma HeadBounds<T(!new)>(cmp: Order<T>, x: T, s: seq<T>, rest: seq<T>)
    requires TotalOn(cmp, [x] + s) && Ordered(cmp, s) && s != [] && cmp(x, s[0]) > 0
    requires multiset(rest) == multiset([x] + s[1..])
    ensures forall y :: y in rest ==> cmp(s[0], y) <= 0
  {
    var all := [x] + s;
    assert all[0] == x && all[1] == s[0] && x in all && s[0] in all;
    SameElements(rest, [x] + s[1..]);
    forall y | y in rest ensures cmp(s[0], y) <= 0 {
      assert y in [x] + s[1..];
      if y != x { FirstIsLeastOfAll(cmp, x, s, y); }
    }
  }

  lemma FirstIsLeastOfAll<T(!new)>(cmp: Order<T>, x: T, s: seq<T>, y: T)
    requires TotalOn(cmp, [x] + s) && Ordered(cmp, s) && y in s
    ensures cmp(s[0], y) <= 0
  {
    assert y in [x] + s;
    FirstIsLeast(cmp, s, y);
  }

  /** A sort of `s` exists, and it is the only one. */
  lemma {:induction false} InsertionSorts<T(!new)>(cmp: Order<T>, s: seq<T>)
    requires TotalOn(cmp, s)
    ensures IsSortOf(cmp, s, InsertionSorted(cmp, s))
  {
    if s != [] {
      var rest := InsertionSorted(cmp, s[1..]);
      TotalOnFewer(cmp, s, s[1..]);
      InsertionSorts(cmp, s[1..]);
      SameElements(rest, s[1..]);
      TotalOnFewer(cmp, s, [s[0]] + rest);
      InsertedOrdered(cmp, s[0], rest);
    }
  }

  lemma SortIsInsertionSorted<T(!new)>(cmp: Order<T>, s: seq<T>, sorted: seq<T>)
    requires TotalOn(cmp, s)
    ensures IsSortOf(cmp, s, sorted) <==> sorted == InsertionSorted(cmp, s)
  {
    InsertionSorts(cmp, s);
    if IsSortOf(cmp, s, sorted) {
      var reference := InsertionSorted(cmp, s);
      SameElements(reference, s);
      OrderedUnique(cmp, reference, sorted);
    }
  }

  // ---------- mapping keeps permutations ----------

  lemma {:induction false} MappedPermutes<T, U>(f: T -> U, a: seq<T>, b: seq<T>)
    requires multiset(a) == multiset(b)
    ensures multiset(Mapped(f, a)) == multiset(Mapped(f, b))
    decreases |a|
  {
    if a == [] {
      SameElements(a, b);
    } else {
      var j := FindFirst(a, b);
      FirstElsewhere(a, b, j);
      MappedPermutes(f, a[1..], b[..j] + b[j + 1..]);
      MappedCons(f, a);
      MappedWithoutOne(f, b, j);
    }
  }

  lemma FindFirst<T>(a: seq<T>, b: seq<T>) returns (j: nat)
    requires a != [] && multiset(a) == multiset(b)
    ensures j < |b| && b[j] == a[0]
  {
    SameElements(a, b);
    assert a[0] in b;
    j :| j < |b| && b[j] == a[0];
  }

  lemma MappedCons<T, U>(f: T -> U, s: seq<T>)
    requires s != []
    ensures multiset(Mapped(f, s)) == multiset{f(s[0])} + multiset(Mapped(f, s[1..]))
  {
    assert Mapped(f, s) == [f(s[0])] + Mapped(f, s[1..]);
  }

  lemma FirstElsewhere<T>(a: seq<T>, b: seq<T>, j: nat)
    requires a != [] && j < |b| && multiset(a) == multiset(b) && a[0] == b[j]
    ensures multiset(a[1..]) == multiset(b[..j] + b[j + 1..])
  {
    WithoutOne(a, 0);
    WithoutOne(b, j);
    assert a[..0] + a[1..] == a[1..];
    assert multiset(a[1..]) == multiset(a) - multiset{a[0]};
    assert multiset(b[..j] + b[j + 1..]) == multiset(b) - multiset{b[j]};
  }

  lemma MappedWithoutOne<T, U>(f: T -> U, s: seq<T>, j: nat)
    requires j < |s|
    ensures multiset(Mapped(f, s)) == multiset{f(s[j])} + multiset(Mapped(f, s[..j] + s[j + 1..]))
  {
    WithoutOne(Mapped(f, s), j);
    assert Mapped(f, s)[..j] + Mapped(f, s)[j + 1..] == Mapped(f, s[..j] + s[j + 1..]);
  }

  lemma WithoutOne<T>(s: seq<T>, j: nat)
    requires j < |s|
    ensures multiset(s) == multiset{s[j]} + multiset(s[..j] + s[j + 1..])
  {
    assert s == s[..j] + [s[j]] + s[j + 1..];
  }
}
