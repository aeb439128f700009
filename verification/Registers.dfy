/** Iteration and folding over an arbitrary register, kept apart from bit-vectors. */
module Registers {

  function Iter<T>(f: T -> T, c: T, n: nat): T
    decreases n
  {
    if n == 0 then c else Iter(f, f(c), n - 1)
  }

  function Fold<T, B>(f: (T, B) -> T, c: T, s: seq<B>): T
    decreases |s|
  {
    if s == [] then c else Fold(f, f(c, s[0]), s[1..])
  }

  lemma FoldThree<T, B>(f: (T, B) -> T, c: T, x: B, y: B, z: B, rest: seq<B>)
    ensures Fold(f, c, [x, y, z] + rest) == Fold(f, f(f(f(c, x), y), z), rest)
  {
    var s := [x, y, z] + rest;
    assert Fold(f, c, s) == Fold(f, f(c, x), s[1..]) == Fold(f, f(f(c, x), y), s[1..][1..]);
    assert s[1..][1..] == [z] + rest && ([z] + rest)[1..] == rest;
  }

  /** Feeds `n` symbols of `x`, low end first. */
  function Feed<T>(feed: (T, T) -> T, shift: T -> T, c: T, x: T, n: nat): T
    decreases n
  {
    if n == 0 then c else Feed(feed, shift, feed(c, x), shift(x), n - 1)
  }

  ghost predicate Linear<T(!new)>(f: T -> T, op: (T, T) -> T) {
    forall x, y {:trigger f(op(x, y))} :: f(op(x, y)) == op(f(x), f(y))
  }

  lemma {:induction false} IterIsLinear<T(!new)>(f: T -> T, op: (T, T) -> T, a: T, b: T, n: nat)
    requires Linear(f, op)
    ensures Iter(f, op(a, b), n) == op(Iter(f, a, n), Iter(f, b, n))
    decreases n
  {
    if n > 0 { IterIsLinear(f, op, f(a), f(b), n - 1); }
  }

  lemma {:induction false} IterCompose<T>(f: T -> T, c: T, m: nat, n: nat)
    ensures Iter(f, c, m + n) == Iter(f, Iter(f, c, m), n)
    decreases m
  {
    if m > 0 { IterCompose(f, f(c), m - 1, n); }
  }

  lemma IterEight<T>(f: T -> T, c: T)
    ensures Iter(f, c, 8) == f(f(f(f(f(f(f(f(c))))))))
  {
    assert Iter(f, c, 8) == Iter(f, f(f(c)), 6) == Iter(f, f(f(f(f(c)))), 4) == Iter(f, f(f(f(f(f(f(c)))))), 2);
  }

  lemma {:induction false} IterIsInjective<T(!new)>(f: T -> T, g: T -> T, a: T, b: T, n: nat)
    requires (forall x :: g(f(x)) == x) && Iter(f, a, n) == Iter(f, b, n)
    ensures a == b
    decreases n
  {
    if n > 0 {
      IterIsInjective(f, g, f(a), f(b), n - 1);
      assert g(f(a)) == a && g(f(b)) == b;
    }
  }

  lemma {:induction false} FoldConcat<T, B>(f: (T, B) -> T, c: T, s: seq<B>, t: seq<B>)
    ensures Fold(f, c, s + t) == Fold(f, Fold(f, c, s), t)
    decreases |s|
  {
    if s == [] {
      assert s + t == t;
    } else {
      assert (s + t)[1..] == s[1..] + t;
      FoldConcat(f, f(c, s[0]), s[1..], t);
    }
  }

  lemma {:induction false} FoldIsInjective<T(!new), B(!new)>(f: (T, B) -> T, a: T, b: T, s: seq<B>)
    requires forall x, y, z {:trigger f(x, z), f(y, z)} :: f(x, z) == f(y, z) ==> x == y
    requires Fold(f, a, s) == Fold(f, b, s)
    ensures a == b
    decreases |s|
  {
    if s != [] { FoldIsInjective(f, f(a, s[0]), f(b, s[0]), s[1..]); }
  }

  /** Feeding symbol by symbol is stepping a register that already holds the symbols, apart from those
      still to come. */
  lemma {:induction false} FeedIsStepping<T(!new)>(
      step: T -> T, op: (T, T) -> T, feed: (T, T) -> T, shift: T -> T, c: T, x: T, n: nat)
    requires forall r, y :: step(op(r, y)) == op(feed(r, y), shift(y))
    ensures Iter(step, op(c, x), n) == op(Feed(feed, shift, c, x, n), Iter(shift, x, n))
    decreases n
  {
    if n > 0 { FeedIsStepping(step, op, feed, shift, feed(c, x), shift(x), n - 1); }
  }

  /** `s` packed into one register, first symbol lowest. */
  function Packed<T, B>(pack: (B, T) -> T, zero: T, s: seq<B>): T
    decreases |s|
  {
    if s == [] then zero else pack(s[0], Packed(pack, zero, s[1..]))
  }

  /** A reversible register of `size` symbols: `k` steps take in one packed symbol and shift the rest down.
      `fits(w, n)` says that `w` is a packing of `n` symbols. */
  datatype Machine<!T(!new), !B(!new)> = Machine(
    step: T -> T, back: T -> T, op: (T, T) -> T, zero: T,
    feed: (T, B) -> T, pack: (B, T) -> T, fits: (T, nat) -> bool, k: nat, size: nat)
  {
    ghost predicate Sound() {
      && (forall x :: back(step(x)) == x)
      && (forall x :: op(x, zero) == x)
      && (forall x, y, p {:trigger op(x, p), op(y, p)} :: op(x, p) == op(y, p) ==> x == y)
      && (forall x, y, p {:trigger op(p, x), op(p, y)} :: op(p, x) == op(p, y) ==> x == y)
      && size > 0 && fits(zero, 0)
      && (forall b, w, n: nat {:trigger fits(w, n), pack(b, w)} :: n < size && fits(w, n) ==> fits(pack(b, w), n + 1))
      && (forall a, b, v, w, n: nat {:trigger pack(a, v), pack(b, w), fits(v, n), fits(w, n)} ::
            n < size && fits(v, n) && fits(w, n) && pack(a, v) == pack(b, w) ==> a == b && v == w)
      && (forall c, b, w, n: nat {:trigger fits(w, n), op(c, pack(b, w))} ::
            n < size && fits(w, n) ==> Iter(step, op(c, pack(b, w)), k) == op(feed(c, b), w))
    }
  }

  lemma {:induction false} PackedFits<T(!new), B(!new)>(m: Machine<T, B>, s: seq<B>)
    requires m.Sound() && |s| <= m.size
    ensures m.fits(Packed(m.pack, m.zero, s), |s|)
    decreases |s|
  {
    if s != [] { PackedFits(m, s[1..]); }
  }

  lemma {:induction false} PackedIsInjective<T(!new), B(!new)>(m: Machine<T, B>, s: seq<B>, t: seq<B>)
    requires m.Sound() && |s| == |t| <= m.size
    requires Packed(m.pack, m.zero, s) == Packed(m.pack, m.zero, t)
    ensures s == t
    decreases |s|
  {
    if s != [] {
      PackedFits(m, s[1..]);
      PackedFits(m, t[1..]);
      PackedIsInjective(m, s[1..], t[1..]);
      assert s == [s[0]] + s[1..] && t == [t[0]] + t[1..];
    }
  }

  /** Feeding a window that fits the register is stepping with the whole window packed in. */
  lemma {:induction false} FeedWindow<T(!new), B(!new)>(m: Machine<T, B>, c: T, s: seq<B>)
    requires m.Sound() && |s| <= m.size
    ensures Fold(m.feed, c, s) == Iter(m.step, m.op(c, Packed(m.pack, m.zero, s)), |s| * m.k)
    decreases |s|
  {
    if s != [] {
      FeedWindow(m, m.feed(c, s[0]), s[1..]);
      PackedFits(m, s[1..]);
      IterCompose(m.step, m.op(c, Packed(m.pack, m.zero, s)), m.k, (|s| - 1) * m.k);
      assert |s| * m.k == m.k + (|s| - 1) * m.k;
    }
  }

  lemma FeedIsReversible<T(!new), B(!new)>(m: Machine<T, B>, a: T, b: T, z: B)
    requires m.Sound() && m.feed(a, z) == m.feed(b, z)
    ensures a == b
  {
    var p := m.pack(z, m.zero);
    assert Iter(m.step, m.op(a, p), m.k) == m.op(m.feed(a, z), m.zero);
    assert Iter(m.step, m.op(b, p), m.k) == m.op(m.feed(b, z), m.zero);
    IterIsInjective(m.step, m.back, m.op(a, p), m.op(b, p), m.k);
  }

  /** Changing a window that fits the register changes the register, whatever surrounds the window. */
  lemma WindowIsVisible<T(!new), B(!new)>(m: Machine<T, B>, c: T, before: seq<B>, x: seq<B>, y: seq<B>, after: seq<B>)
    requires m.Sound() && |x| == |y| <= m.size
    requires Fold(m.feed, c, before + x + after) == Fold(m.feed, c, before + y + after)
    ensures x == y
  {
    FoldConcat(m.feed, c, before + x, after);
    FoldConcat(m.feed, c, before + y, after);
    forall a, b, z {:trigger m.feed(a, z), m.feed(b, z)} | m.feed(a, z) == m.feed(b, z) ensures a == b {
      FeedIsReversible(m, a, b, z);
    }
    FoldIsInjective(m.feed, Fold(m.feed, c, before + x), Fold(m.feed, c, before + y), after);
    FoldConcat(m.feed, c, before, x);
    FoldConcat(m.feed, c, before, y);
    SameWindow(m, Fold(m.feed, c, before), x, y);
  }

  lemma SameWindow<T(!new), B(!new)>(m: Machine<T, B>, c: T, x: seq<B>, y: seq<B>)
    requires m.Sound() && |x| == |y| <= m.size && Fold(m.feed, c, x) == Fold(m.feed, c, y)
    ensures x == y
  {
    FeedWindow(m, c, x);
    FeedWindow(m, c, y);
    var u, v := Packed(m.pack, m.zero, x), Packed(m.pack, m.zero, y);
    IterIsInjective(m.step, m.back, m.op(c, u), m.op(c, v), |x| * m.k);
    PackedIsInjective(m, x, y);
  }
}
