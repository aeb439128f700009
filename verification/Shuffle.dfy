/** The in-place Fisher-Yates shuffle, with the random numbers as an argument. */
module Shuffles {
  import opened Sequences

  function Swap<T>(s: seq<T>, i: nat, j: nat): seq<T>
    requires i < |s| && j < |s|
  {
    s[i := s[j]][j := s[i]]
  }

  /** One choice per position: position `i` is swapped with some position at or below it. */
  ghost predicate IsChoice(c: seq<nat>) {
    forall i :: 0 <= i < |c| ==> c[i] <= i
  }

  /** The loop from position `m - 1` down to position 1. */
  ghost function Shuffled<T>(s: seq<T>, c: seq<nat>, m: nat): (r: seq<T>)
    requires m <= |s| && m <= |c| && IsChoice(c)
    ensures |r| == |s|
    decreases m
  {
    if m <= 1 then s else Shuffled(Swap(s, m - 1, c[m - 1]), c, m - 1)
  }

  /** The choices that a run of random numbers makes: the first number decides the last position. */
  ghost function ChoicesOf(rands: seq<nat>, n: nat): (c: seq<nat>)
    requires n <= |rands| + 1
    ensures |c| == n && IsChoice(c)
  {
    seq(n, i requires 0 <= i < n => if i == 0 then 0 else rands[n - 1 - i] % (i + 1))
  }

  method ShuffleInt(a: array<int>, n: nat, rands: seq<nat>)
    requires n <= a.Length && n <= |rands| + 1
    modifies a
    ensures a[..n] == Shuffled(old(a[..n]), ChoicesOf(rands, n), n)
    ensures a[n..] == old(a[n..])
  {
    ghost var c := ChoicesOf(rands, n);
    var i := n - 1;
    while i > 0
      invariant n == 0 || 0 <= i < n
      invariant n > 0 ==> Shuffled(a[..n], c, i + 1) == Shuffled(old(a[..n]), c, n)
      invariant a[n..] == old(a[n..])
    {
      var j := rands[n - 1 - i] % (i + 1);
      assert j == c[i];
      ghost var before := a[..n];
      var tmp := a[i];
      a[i] := a[j];
      a[j] := tmp;
      assert a[..n] == Swap(before, i, j);
      i := i - 1;
    }
  }

  // ---------- what a run keeps ----------

  lemma SwapKeeps<T>(s: seq<T>, i: nat, j: nat)
    requires j <= i < |s|
    ensures multiset(Swap(s, i, j)) == multiset(s)
    ensures multiset(Swap(s, i, j)[..i + 1]) == multiset(s[..i + 1])
    ensures Swap(s, i, j)[i + 1..] == s[i + 1..]
  {
    var p := s[..i + 1];
    SwapBelow(s, i, j);
    SwapPermutes(p, i, j);
    SwapPermutes(s, i, j);
  }

  lemma SwapBelow<T>(s: seq<T>, i: nat, j: nat)
    requires j <= i < |s|
    ensures Swap(s, i, j)[..i + 1] == Swap(s[..i + 1], i, j) && Swap(s, i, j)[i + 1..] == s[i + 1..]
  {
  }

  lemma SwapPermutes<T>(s: seq<T>, i: nat, j: nat)
    requires j <= i < |s|
    ensures multiset(Swap(s, i, j)) == multiset(s)
  {
  }

  /** The shuffle keeps the multiset, and never touches positions at or above `m`. */
  lemma {:induction false} ShuffleKeeps<T>(s: seq<T>, c: seq<nat>, m: nat)
    requires m <= |s| && m <= |c| && IsChoice(c)
    ensures multiset(Shuffled(s, c, m)) == multiset(s)
    ensures Shuffled(s, c, m)[m..] == s[m..]
    decreases m
  {
    if m > 1 {
      var t := Swap(s, m - 1, c[m - 1]);
      SwapKeeps(s, m - 1, c[m - 1]);
      ShuffleKeeps(t, c, m - 1);
      assert Shuffled(s, c, m)[m..] == Shuffled(s, c, m)[m - 1..][1..] && t[m - 1..][1..] == t[m..];
    }
  }

  /** The element that ends at the highest position is the one that was chosen. */
  lemma LastIsChosen<T>(s: seq<T>, c: seq<nat>, m: nat)
    requires 0 < m <= |s| && m <= |c| && IsChoice(c)
    ensures Shuffled(s, c, m)[m - 1] == s[c[m - 1]]
  {
    if m > 1 {
      var t := Swap(s, m - 1, c[m - 1]);
      ShuffleKeeps(t, c, m - 1);
      assert Shuffled(s, c, m)[m - 1] == Shuffled(t, c, m - 1)[m - 1..][0] == t[m - 1..][0];
    }
  }

  // ---------- one-to-one and onto ----------

  /** On distinct elements, different choices give different results. */
  lemma {:induction false} ChoicesAreDetermined<T>(s: seq<T>, c: seq<nat>, d: seq<nat>, m: nat)
    requires m <= |s| && m <= |c| && m <= |d| && IsChoice(c) && IsChoice(d)
    requires Distinct(s) && Shuffled(s, c, m) == Shuffled(s, d, m)
    ensures c[..m] == d[..m]
    decreases m
  {
    if m > 0 {
      LastIsChosen(s, c, m);
      LastIsChosen(s, d, m);
      assert c[m - 1] == d[m - 1];
      if m > 1 {
        ChoicesAreDetermined(Swap(s, m - 1, c[m - 1]), c, d, m - 1);
      }
      assert c[..m] == c[..m - 1] + [c[m - 1]] && d[..m] == d[..m - 1] + [d[m - 1]];
    }
  }

  /** The choices that take `s` to `t`, found from the top position down. */
  lemma {:induction false} Unshuffle<T>(s: seq<T>, t: seq<T>, m: nat) returns (c: seq<nat>)
    requires m <= |s| && |t| == |s|
    requires multiset(s[..m]) == multiset(t[..m]) && s[m..] == t[m..]
    ensures |c| == m && IsChoice(c) && Shuffled(s, c, m) == t
    decreases m
  {
    if m == 0 {
      c := [];
      assert s[0..] == s && t[0..] == t;
    } else {
      var j := PickLast(s, t, m);
      var s' := Swap(s, m - 1, j);
      var c' := Unshuffle(s', t, m - 1);
      c := c' + [j];
      SameBelow(s', c', c, m - 1);
      if m == 1 { assert s' == s; }
    }
  }

  /** Some position below `m` holds what must end at `m - 1`; swapping it there leaves a smaller instance. */
  lemma PickLast<T>(s: seq<T>, t: seq<T>, m: nat) returns (j: nat)
    requires 0 < m <= |s| && |t| == |s|
    requires multiset(s[..m]) == multiset(t[..m]) && s[m..] == t[m..]
    ensures j < m
    ensures var s' := Swap(s, m - 1, j); multiset(s'[..m - 1]) == multiset(t[..m - 1]) && s'[m - 1..] == t[m - 1..]
  {
    j := FindLast(s[..m], t[..m]);
    SwapKeeps(s, m - 1, j);
    DropLast(Swap(s, m - 1, j), t, m);
    SameTail(Swap(s, m - 1, j), t, m);
  }

  lemma FindLast<T>(s: seq<T>, t: seq<T>) returns (j: nat)
    requires t != [] && multiset(s) == multiset(t)
    ensures j < |s| && s[j] == t[|t| - 1]
  {
    assert t[|t| - 1] in multiset(t) && t[|t| - 1] in s;
    j :| j < |s| && s[j] == t[|t| - 1];
  }

  lemma SameTail<T>(s: seq<T>, t: seq<T>, m: nat)
    requires 0 < m <= |s| && m <= |t| && s[m - 1] == t[m - 1] && s[m..] == t[m..]
    ensures s[m - 1..] == t[m - 1..]
  {
    assert s[m - 1..] == [s[m - 1]] + s[m..] && t[m - 1..] == [t[m - 1]] + t[m..];
  }

  lemma DropLast<T>(s: seq<T>, t: seq<T>, m: nat)
    requires 0 < m <= |s| && m <= |t| && s[m - 1] == t[m - 1] && multiset(s[..m]) == multiset(t[..m])
    ensures multiset(s[..m - 1]) == multiset(t[..m - 1])
  {
    assert s[..m] == s[..m - 1] + [s[m - 1]] && t[..m] == t[..m - 1] + [t[m - 1]];
    assert multiset(s[..m - 1]) == multiset(s[..m]) - multiset{t[m - 1]};
    assert multiset(t[..m - 1]) == multiset(t[..m]) - multiset{t[m - 1]};
  }

  lemma {:induction false} SameBelow<T>(s: seq<T>, c: seq<nat>, d: seq<nat>, m: nat)
    requires m <= |s| && m <= |c| && m <= |d| && IsChoice(c) && IsChoice(d) && c[..m] == d[..m]
    ensures Shuffled(s, c, m) == Shuffled(s, d, m)
    decreases m
  {
    if m > 1 {
      assert c[m - 1] == c[..m][m - 1] == d[m - 1];
      assert c[..m - 1] == c[..m][..m - 1] == d[..m - 1];
      SameBelow(Swap(s, m - 1, c[m - 1]), c, d, m - 1);
    }
  }

  /** Every permutation of distinct elements comes from exactly one sequence of choices. */
  lemma ShuffleIsBijective<T(!new)>(s: seq<T>, t: seq<T>)
    requires Distinct(s)
    ensures multiset(t) == multiset(s) <==>
            exists c :: |c| == |s| && IsChoice(c) && Shuffled(s, c, |s|) == t
    ensures forall c, d | |c| == |d| == |s| && IsChoice(c) && IsChoice(d) ::
              Shuffled(s, c, |s|) == Shuffled(s, d, |s|) ==> c == d
  {
    if multiset(t) == multiset(s) {
      assert |t| == |multiset(t)| == |multiset(s)| == |s|;
      assert s[..|s|] == s && t[..|t|] == t;
      var c := Unshuffle(s, t, |s|);
    }
    forall c | |c| == |s| && IsChoice(c) && Shuffled(s, c, |s|) == t ensures multiset(t) == multiset(s) {
      ShuffleKeeps(s, c, |s|);
    }
    forall c, d | |c| == |d| == |s| && IsChoice(c) && IsChoice(d) && Shuffled(s, c, |s|) == Shuffled(s, d, |s|)
      ensures c == d
    {
      ChoicesAreDetermined(s, c, d, |s|);
      assert c[..|s|] == c && d[..|s|] == d;
    }
  }

  function Identity(n: nat): (p: seq<int>)
    ensures |p| == n && forall i :: 0 <= i < n ==> p[i] == i
  {
    seq(n, i => i)
  }

  /** `r` is `s` read at the positions `p`. */
  ghost predicate ReadAt<T>(s: seq<T>, p: seq<int>, r: seq<T>) {
    && |p| == |r| == |s|
    && forall k :: 0 <= k < |p| ==> 0 <= p[k] < |s| && r[k] == s[p[k]]
  }

  lemma {:induction false} ShuffleMovesPositions<T>(s: seq<T>, p: seq<int>, r: seq<T>, c: seq<nat>, m: nat)
    requires m <= |s| && m <= |c| && IsChoice(c) && ReadAt(s, p, r)
    ensures ReadAt(s, Shuffled(p, c, m), Shuffled(r, c, m))
    decreases m
  {
    if m > 1 {
      ShuffleMovesPositions(s, Swap(p, m - 1, c[m - 1]), Swap(r, m - 1, c[m - 1]), c, m - 1);
    }
  }

  /** Which positions move where does not depend on the elements, equal or not. */
  lemma ShufflePermutesPositions<T>(s: seq<T>, c: seq<nat>)
    requires |c| == |s| && IsChoice(c)
    ensures var p := Shuffled(Identity(|s|), c, |s|);
            multiset(p) == multiset(Identity(|s|)) && ReadAt(s, p, Shuffled(s, c, |s|))
  {
    ShuffleMovesPositions(s, Identity(|s|), s, c, |s|);
    ShuffleKeeps(Identity(|s|), c, |s|);
  }

  // ---------- random numbers and choices ----------

  /** Some random numbers, none of them large, make any given choices. */
  lemma ChoicesAreReached(c: seq<nat>) returns (rands: seq<nat>)
    requires IsChoice(c)
    ensures |rands| + 1 >= |c| && ChoicesOf(rands, |c|) == c
    ensures forall k :: 0 <= k < |rands| ==> rands[k] < |c|
  {
    var n := |c|;
    rands := if n == 0 then [] else seq(n - 1, k requires 0 <= k < n - 1 => c[n - 1 - k]);
    forall i | 0 < i < n ensures rands[n - 1 - i] % (i + 1) == c[i] {
      Below(c[i], i + 1);
    }
  }

  lemma Below(a: nat, m: nat)
    requires a < m
    ensures a % m == a
  {
  }

  /** Every permutation is the result of a run: some random numbers take `s` to `t`. */
  lemma EveryPermutationIsReached<T>(s: seq<T>, t: seq<T>) returns (rands: seq<nat>)
    requires multiset(s) == multiset(t)
    ensures |rands| + 1 >= |s| && Shuffled(s, ChoicesOf(rands, |s|), |s|) == t
  {
    assert |multiset(s)| == |s| && |multiset(t)| == |t|;
    assert s[..|s|] == s && t[..|s|] == t;
    var c := Unshuffle(s, t, |s|);
    rands := ChoicesAreReached(c);
  }

  /** Two runs make the same choices exactly when their numbers agree at every draw, modulo the number of
      positions that draw chooses from. */
  lemma SameChoices(r: seq<nat>, q: seq<nat>, n: nat)
    requires n <= |r| + 1 && n <= |q| + 1
    ensures ChoicesOf(r, n) == ChoicesOf(q, n) <==> forall k :: 0 <= k < n - 1 ==> r[k] % (n - k) == q[k] % (n - k)
  {
    var c, d := ChoicesOf(r, n), ChoicesOf(q, n);
    forall k | 0 <= k < n - 1 ensures c[n - 1 - k] == r[k] % (n - k) && d[n - 1 - k] == q[k] % (n - k) {}
    if forall k :: 0 <= k < n - 1 ==> r[k] % (n - k) == q[k] % (n - k) {
      forall i | 0 <= i < n ensures c[i] == d[i] {
        assert i > 0 ==> r[n - 1 - i] % (i + 1) == q[n - 1 - i] % (i + 1);
      }
    }
  }
}
