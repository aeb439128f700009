/** The text kernel: searching, splitting, joining, replacing and counting. Characters stand for the
    bytes of a NUL-terminated string. */
module Texts {
  import opened Options
  import opened FluxusVector

  predicate OccursAt(s: string, n: string, i: int) {
    0 <= i && i + |n| <= |s| && s[i..i + |n|] == n
  }

  predicate FirstAt(s: string, n: string, i: nat, p: nat) {
    i <= p && OccursAt(s, n, p) && forall j :: i <= j < p ==> !OccursAt(s, n, j)
  }

  lemma {:induction false} FirstExists(s: string, n: string, i: nat)
    requires exists j :: i <= j <= |s| && OccursAt(s, n, j)
    ensures exists p: nat :: i <= p <= |s| && FirstAt(s, n, i, p)
    decreases |s| - i
  {
    if OccursAt(s, n, i) {
      assert FirstAt(s, n, i, i);
    } else {
      var j :| i <= j <= |s| && OccursAt(s, n, j);
      FirstExists(s, n, i + 1);
      var p: nat :| i + 1 <= p <= |s| && FirstAt(s, n, i + 1, p);
      assert FirstAt(s, n, i, p);
    }
  }

  /** `strstr` from offset `i`: the first occurrence of `n` at or after `i`. */
  function Find(s: string, n: string, i: nat): (r: Option<nat>)
    requires i <= |s|
    ensures r.Some? ==> FirstAt(s, n, i, r.value)
    ensures r.None? ==> forall j :: i <= j ==> !OccursAt(s, n, j)
  {
    if exists j :: i <= j <= |s| && OccursAt(s, n, j) then
      FirstExists(s, n, i);
      var p: nat :| i <= p <= |s| && FirstAt(s, n, i, p); Some(p)
    else None
  }

  /** The pieces of `s[i..]` between greedy left-to-right occurrences of `sep`. */
  function PiecesFrom(s: string, sep: string, i: nat): (ps: seq<string>)
    requires sep != "" && i <= |s|
    ensures ps != []
    decreases |s| - i
  {
    match Find(s, sep, i)
    case None => [s[i..]]
    case Some(p) => [s[i..p]] + PiecesFrom(s, sep, p + |sep|)
  }

  function Singletons(s: string): (ps: seq<string>)
    ensures |ps| == |s| && forall i :: 0 <= i < |s| ==> ps[i] == [s[i]]
  {
    seq(|s|, i requires 0 <= i < |s| => [s[i]])
  }

  /** Splitting: the empty text gives one empty piece, the empty separator gives single characters. */
  function Pieces(s: string, sep: string): seq<string> {
    if s == "" then [""]
    else if sep == "" then Singletons(s)
    else PiecesFrom(s, sep, 0)
  }

  function Joined(ps: seq<string>, sep: string): string {
    if ps == [] then ""
    else if |ps| == 1 then ps[0]
    else ps[0] + sep + Joined(ps[1..], sep)
  }

  function CountFrom(s: string, n: string, i: nat): nat
    requires n != "" && i <= |s|
    decreases |s| - i
  {
    match Find(s, n, i)
    case None => 0
    case Some(p) => 1 + CountFrom(s, n, p + |n|)
  }

  function Count(s: string, n: string): nat {
    if n == "" then 0 else CountFrom(s, n, 0)
  }

  function ReplacedFrom(s: string, from: string, to: string, i: nat): string
    requires from != "" && i <= |s|
    decreases |s| - i
  {
    match Find(s, from, i)
    case None => s[i..]
    case Some(p) => s[i..p] + to + ReplacedFrom(s, from, to, p + |from|)
  }

  function Replaced(s: string, from: string, to: string): string {
    if from == "" then s else ReplacedFrom(s, from, to, 0)
  }

  lemma {:induction false} JoinedSnoc(ps: seq<string>, p: string, sep: string)
    ensures Joined(ps + [p], sep) == if ps == [] then p else Joined(ps, sep) + sep + p
  {
    if |ps| > 1 {
      JoinedSnoc(ps[1..], p, sep);
      assert (ps + [p])[1..] == ps[1..] + [p];
    } else if |ps| == 1 {
      assert (ps + [p])[1..] == [p];
    }
  }

  /** The length of a join: the parts, and one separator between any two neighbours. */
  lemma {:induction false} JoinedLength(ps: seq<string>, sep: string)
    ensures |Joined(ps, sep)| == Total(ps) + (if ps == [] then 0 else (|ps| - 1) * |sep|)
  {
    if |ps| > 1 { JoinedLength(ps[1..], sep); }
  }

  function Total(ps: seq<string>): nat {
    if ps == [] then 0 else |ps[0]| + Total(ps[1..])
  }

  /** An empty needle: splitting gives the characters one by one (an empty text gives one empty piece), nothing
      is counted and nothing replaced. */
  lemma EmptyNeedles(s: string, to: string)
    ensures |Pieces(s, "")| == if s == "" then 1 else |s|
    ensures forall i :: 0 <= i < |Pieces(s, "")| ==> Pieces(s, "")[i] == if s == "" then "" else [s[i]]
    ensures Count(s, "") == 0 && Replaced(s, "", to) == s
  {
  }

  // ---------- the loops ----------

  method Split(s: string, sep: string) returns (out: Fluxus<string>)
    ensures out.Valid() && fresh(out.Repr) && out.Contents() == Pieces(s, sep)
  {
    out := new Fluxus();
    if |s| == 0 {
      out.Push("");
      return;
    }
    if |sep| == 0 {
      for i := 0 to |s|
        invariant out.Valid() && fresh(out.Repr) && out.Contents() == Singletons(s)[..i]
      {
        assert s[i..i + 1] == [s[i]];
        out.Push(s[i..i + 1]);
      }
      return;
    }
    SplitLoop(s, sep, out);
  }

  method SplitLoop(s: string, sep: string, out: Fluxus<string>)
    requires sep != "" && out.Valid() && out.Contents() == []
    modifies out.Repr
    ensures out.Valid() && fresh(out.Repr - old(out.Repr)) && out.Contents() == PiecesFrom(s, sep, 0)
  {
    var cur, p := 0, Find(s, sep, 0);
    while p.Some?
      invariant 0 <= cur <= |s| && p == Find(s, sep, cur)
      invariant out.Valid() && fresh(out.Repr - old(out.Repr))
      invariant out.Contents() + PiecesFrom(s, sep, cur) == PiecesFrom(s, sep, 0)
      decreases |s| - cur
    {
      PiecesStep(s, sep, cur, p.value, out.Contents());
      out.Push(s[cur..p.value]);
      cur := p.value + |sep|;
      p := Find(s, sep, cur);
    }
    out.Push(s[cur..]);
  }

  lemma PiecesStep(s: string, sep: string, cur: nat, p: nat, before: seq<string>)
    requires sep != "" && cur <= |s| && Find(s, sep, cur) == Some(p)
    ensures before + PiecesFrom(s, sep, cur) == (before + [s[cur..p]]) + PiecesFrom(s, sep, p + |sep|)
  {
  }

  lemma ReplacedStep(s: string, from: string, to: string, cur: nat, p: nat, before: string)
    requires from != "" && cur <= |s| && Find(s, from, cur) == Some(p)
    ensures before + ReplacedFrom(s, from, to, cur)
         == ((before + s[cur..p]) + to) + ReplacedFrom(s, from, to, p + |from|)
  {
    var piece, rest := s[cur..p], ReplacedFrom(s, from, to, p + |from|);
    assert before + (piece + to + rest) == ((before + piece) + to) + rest;
  }

  /** `memcpy` into a buffer at `w`. */
  method CopyInto(buf: array<char>, w: nat, src: string)
    requires w + |src| <= buf.Length
    modifies buf
    ensures buf[..w + |src|] == old(buf[..w]) + src
  {
    forall k | 0 <= k < |src| { buf[w + k] := src[k]; }
  }

  /** Counts the output first, allocates exactly that, then copies; the copy fills the buffer exactly. */
  method Join(parts: seq<string>, sep: string) returns (r: string)
    ensures r == Joined(parts, sep)
  {
    if |parts| == 0 { return ""; }
    var total := 0;
    for i := 0 to |parts|
      invariant total == |JoinedUpTo(parts, sep, i)|
    {
      total := total + |parts[i]|;
      if i + 1 < |parts| { total := total + |sep|; }
    }
    var buf, w := new char[total], 0;
    for i := 0 to |parts|
      invariant w == |JoinedUpTo(parts, sep, i)| && buf.Length == |JoinedUpTo(parts, sep, |parts|)|
      invariant w <= buf.Length && buf[..w] == JoinedUpTo(parts, sep, i)
    {
      JoinedUpToGrows(parts, sep, i + 1);
      CopyInto(buf, w, parts[i]);
      w := w + |parts[i]|;
      if i + 1 < |parts| {
        CopyInto(buf, w, sep);
        w := w + |sep|;
      }
    }
    assert w == buf.Length;
    JoinedUpToAll(parts, sep);
    return buf[..];
  }

  /** What the loop has written after `i` parts: every part but the last is followed by the separator. */
  function JoinedUpTo(ps: seq<string>, sep: string, i: nat): string
    requires i <= |ps|
  {
    if i == 0 then "" else JoinedUpTo(ps, sep, i - 1) + ps[i - 1] + if i < |ps| then sep else ""
  }

  lemma {:induction false} JoinedUpToGrows(ps: seq<string>, sep: string, i: nat)
    requires i <= |ps|
    ensures |JoinedUpTo(ps, sep, i)| <= |JoinedUpTo(ps, sep, |ps|)|
    decreases |ps| - i
  {
    if i < |ps| { JoinedUpToGrows(ps, sep, i + 1); }
  }

  lemma {:induction false} JoinedUpToTail(ps: seq<string>, sep: string, i: nat)
    requires i < |ps|
    ensures JoinedUpTo(ps, sep, i) + Joined(ps[i..], sep) == JoinedUpTo(ps, sep, |ps|)
    decreases |ps| - i
  {
    if i + 1 < |ps| {
      JoinedUpToTail(ps, sep, i + 1);
      assert ps[i..][1..] == ps[i + 1..];
      assert JoinedUpTo(ps, sep, i) + (ps[i] + sep + Joined(ps[i + 1..], sep))
          == JoinedUpTo(ps, sep, i) + ps[i] + sep + Joined(ps[i + 1..], sep);
    } else {
      assert ps[i..] == [ps[i]];
    }
  }

  lemma JoinedUpToAll(ps: seq<string>, sep: string)
    requires ps != []
    ensures JoinedUpTo(ps, sep, |ps|) == Joined(ps, sep)
  {
    JoinedUpToTail(ps, sep, 0);
    assert ps[0..] == ps;
  }

  method CountOccurrences(s: string, n: string) returns (count: nat)
    ensures count == Count(s, n)
  {
    if |n| == 0 { return 0; }
    count := 0;
    var p := Find(s, n, 0);
    ghost var cur := 0;
    while p.Some?
      invariant 0 <= cur <= |s| && p == Find(s, n, cur)
      invariant count + CountFrom(s, n, cur) == CountFrom(s, n, 0)
      decreases |s| - cur
    {
      count := count + 1;
      cur := p.value + |n|;
      p := Find(s, n, p.value + |n|);
    }
  }

  /** Counts, sizes the buffer from the count alone, then copies; the copy fills the buffer exactly. */
  method ReplaceAll(s: string, from: string, to: string) returns (r: string)
    ensures r == Replaced(s, from, to)
  {
    if |from| == 0 { return s; }
    var count := CountOccurrences(s, from);
    ReplacedLength(s, from, to, 0);
    if count == 0 {
      return s;
    }
    var outLen := |s|;
    if |to| >= |from| {
      outLen := outLen + count * (|to| - |from|);
    } else {
      OneMore(count, |to| - |from|);
      outLen := outLen - count * (|from| - |to|);
    }
    var buf := new char[outLen];
    ReplaceLoop(s, from, to, buf);
    return buf[..];
  }

  /** The text before `cur` has been copied, with its occurrences replaced, into the first `w` cells. */
  ghost predicate Copied(s: string, from: string, to: string, buf: array<char>, cur: nat, w: nat)
    reads buf
  {
    && from != "" && cur <= |s| && buf.Length == |ReplacedFrom(s, from, to, 0)|
    && w <= buf.Length && buf[..w] + ReplacedFrom(s, from, to, cur) == ReplacedFrom(s, from, to, 0)
  }

  /** Copies occurrence by occurrence, then what is left. */
  method ReplaceLoop(s: string, from: string, to: string, buf: array<char>)
    requires from != "" && buf.Length == |ReplacedFrom(s, from, to, 0)|
    modifies buf
    ensures buf[..] == ReplacedFrom(s, from, to, 0)
  {
    var cur, w := 0, 0;
    var p := Find(s, from, cur);
    while p.Some?
      invariant 0 <= cur <= |s| && 0 <= w && p == Find(s, from, cur) && Copied(s, from, to, buf, cur, w)
      decreases |s| - cur
    {
      w := ReplaceOne(s, from, to, buf, cur, p.value, w);
      cur := p.value + |from|;
      p := Find(s, from, cur);
    }
    CopyInto(buf, w, s[cur..]);
    assert buf[..buf.Length] == buf[..];
  }

  /** The two copies of one turn: the text before the occurrence, then the replacement. */
  method ReplaceOne(s: string, from: string, to: string, buf: array<char>, cur: nat, p: nat, w: nat) returns (w': nat)
    requires Copied(s, from, to, buf, cur, w) && Find(s, from, cur) == Some(p)
    modifies buf
    ensures Copied(s, from, to, buf, p + |from|, w')
  {
    ghost var done := buf[..w];
    ReplacedStep(s, from, to, cur, p, done);
    CopyInto(buf, w, s[cur..p]);
    CopyInto(buf, w + (p - cur), to);
    w' := w + (p - cur) + |to|;
    assert buf[..w'] == done + s[cur..p] + to;
  }

  lemma {:induction false} ReplacedLength(s: string, from: string, to: string, i: nat)
    requires from != "" && i <= |s|
    ensures |ReplacedFrom(s, from, to, i)| == |s| - i + CountFrom(s, from, i) * (|to| - |from|)
    ensures CountFrom(s, from, i) == 0 ==> ReplacedFrom(s, from, to, i) == s[i..]
    decreases |s| - i
  {
    match Find(s, from, i)
    case None =>
    case Some(p) =>
      ReplacedLength(s, from, to, p + |from|);
      OneMore(CountFrom(s, from, p + |from|), |to| - |from|);
      ReplacedTurnLength(s, from, to, i, p);
  }

  lemma ReplacedTurnLength(s: string, from: string, to: string, i: nat, p: nat)
    requires from != "" && i <= |s| && Find(s, from, i) == Some(p)
    ensures |ReplacedFrom(s, from, to, i)| == p - i + |to| + |ReplacedFrom(s, from, to, p + |from|)|
    ensures CountFrom(s, from, i) == 1 + CountFrom(s, from, p + |from|)
  {
  }

  lemma OneMore(c: nat, d: int)
    ensures (1 + c) * d == d + c * d
    ensures c * -d == -(c * d)
  {
  }

  // ---------- what the loops agree on ----------

  /** Splitting and joining again gives the text back, for every text and every separator. */
  lemma JoinSplit(s: string, sep: string)
    ensures Joined(Pieces(s, sep), sep) == s
  {
    if s == "" {
    } else if sep == "" {
      JoinSingletons(s);
    } else {
      JoinPiecesFrom(s, sep, sep, 0);
      ReplaceSelf(s, sep, 0);
    }
  }

  lemma {:induction false} JoinSingletons(s: string)
    ensures Joined(Singletons(s), "") == s
  {
    if |s| > 1 {
      JoinSingletons(s[1..]);
      assert Singletons(s)[1..] == Singletons(s[1..]);
    }
  }

  lemma {:induction false} ReplaceSelf(s: string, from: string, i: nat)
    requires from != "" && i <= |s|
    ensures ReplacedFrom(s, from, from, i) == s[i..]
    decreases |s| - i
  {
    match Find(s, from, i)
    case None =>
    case Some(p) =>
      ReplaceSelf(s, from, p + |from|);
      assert s[i..] == s[i..p] + s[p..p + |from|] + s[p + |from|..];
  }

  /** Replacing is splitting on one text and joining with another. */
  lemma {:induction false} JoinPiecesFrom(s: string, from: string, to: string, i: nat)
    requires from != "" && i <= |s|
    ensures Joined(PiecesFrom(s, from, i), to) == ReplacedFrom(s, from, to, i)
    decreases |s| - i
  {
    match Find(s, from, i)
    case None =>
    case Some(p) =>
      JoinPiecesFrom(s, from, to, p + |from|);
      assert PiecesFrom(s, from, i)[1..] == PiecesFrom(s, from, p + |from|);
  }

  lemma ReplaceIsSplitJoin(s: string, from: string, to: string)
    requires from != ""
    ensures Replaced(s, from, to) == Joined(Pieces(s, from), to)
  {
    JoinPiecesFrom(s, from, to, 0);
  }

  lemma SliceOfSlice<T>(s: seq<T>, i: nat, hi: nat, j: nat, k: nat)
    requires i <= hi <= |s| && j <= k <= hi - i
    ensures s[i..hi][j..k] == s[i + j..i + k]
  {
    var t := s[i..hi];
    forall x | 0 <= x < k - j ensures t[j..k][x] == s[i + j..i + k][x] {
      assert t[j..k][x] == t[j + x];
      assert t[j + x] == s[i + (j + x)];
      assert s[i + j..i + k][x] == s[i + j + x];
    }
  }

  lemma FindIsFirst(s: string, n: string, i: nat, p: nat)
    requires i <= |s| && FirstAt(s, n, i, p)
    ensures Find(s, n, i) == Some(p)
  {
  }

  lemma FindLater(s: string, n: string, i: nat)
    requires i < |s| && !OccursAt(s, n, i)
    ensures Find(s, n, i) == Find(s, n, i + 1)
  {
    var r := Find(s, n, i + 1);
    if r.Some? { FindIsFirst(s, n, i, r.value); }
  }

  /** Replacing, one character at a time. */
  lemma ReplacedUnroll(s: string, from: string, to: string, i: nat)
    requires from != "" && i <= |s|
    ensures ReplacedFrom(s, from, to, i) ==
            if OccursAt(s, from, i) then to + ReplacedFrom(s, from, to, i + |from|)
            else if i == |s| then ""
            else [s[i]] + ReplacedFrom(s, from, to, i + 1)
  {
    if OccursAt(s, from, i) {
      FindIsFirst(s, from, i, i);
    } else if i < |s| {
      FindLater(s, from, i);
      OneCharLater(s, from, to, i, Find(s, from, i));
    }
  }

  /** The two branches of the replacement. */
  lemma ReplacedMatched(s: string, from: string, to: string, i: nat, p: nat)
    requires from != "" && i <= |s| && Find(s, from, i) == Some(p)
    ensures ReplacedFrom(s, from, to, i) == s[i..p] + to + ReplacedFrom(s, from, to, p + |from|)
  {
  }

  lemma ReplacedRest(s: string, from: string, to: string, i: nat)
    requires from != "" && i <= |s| && Find(s, from, i) == None
    ensures ReplacedFrom(s, from, to, i) == s[i..]
  {
  }

  lemma OneCharBefore(x: char, a: string, b: string, c: string)
    ensures [x] + a + b + c == [x] + (a + b + c)
  {
  }

  lemma FirstOfSlice(s: string, i: nat, j: nat)
    requires i < j <= |s|
    ensures s[i..j] == [s[i]] + s[i + 1..j]
  {
  }

  lemma OneCharLater(s: string, from: string, to: string, i: nat, r: Option<nat>)
    requires from != "" && i < |s| && Find(s, from, i) == Find(s, from, i + 1) == r
    ensures ReplacedFrom(s, from, to, i) == [s[i]] + ReplacedFrom(s, from, to, i + 1)
  {
    if r.Some? {
      var p := r.value;
      ReplacedMatched(s, from, to, i, p);
      ReplacedMatched(s, from, to, i + 1, p);
      FirstOfSlice(s, i, p);
      OneCharBefore(s[i], s[i + 1..p], to, ReplacedFrom(s, from, to, p + |from|));
    } else {
      ReplacedRest(s, from, to, i);
      ReplacedRest(s, from, to, i + 1);
      FirstOfSlice(s, i, |s|);
    }
  }

  /** There is one piece more than there are occurrences counted, and no piece holds the separator. */
  lemma {:induction false} PiecesCount(s: string, sep: string, i: nat)
    requires sep != "" && i <= |s|
    ensures |PiecesFrom(s, sep, i)| == CountFrom(s, sep, i) + 1
    ensures forall k, j :: 0 <= k < |PiecesFrom(s, sep, i)| ==> !OccursAt(PiecesFrom(s, sep, i)[k], sep, j)
    decreases |s| - i
  {
    var r := Find(s, sep, i);
    var hi := if r.Some? then r.value else |s|;
    forall j ensures !OccursAt(s[i..hi], sep, j) {
      if 0 <= j && j + |sep| <= hi - i {
        SliceOfSlice(s, i, hi, j, j + |sep|);
        assert !OccursAt(s, sep, i + j);
      }
    }
    if r.Some? {
      PiecesCount(s, sep, r.value + |sep|);
      var rest := PiecesFrom(s, sep, r.value + |sep|);
      assert PiecesFrom(s, sep, i) == [s[i..hi]] + rest;
    } else {
      assert s[i..hi] == s[i..];
      assert PiecesFrom(s, sep, i) == [s[i..hi]];
    }
  }

  ghost predicate FreeOf(ps: seq<string>, c: char) {
    forall k :: 0 <= k < |ps| ==> c !in ps[k]
  }

  /** With a one-character separator, splitting undoes joining exactly when there is a piece and no piece
      holds the separator. */
  lemma SplitJoin(ps: seq<string>, c: char)
    ensures Pieces(Joined(ps, [c]), [c]) == ps <==> ps != [] && FreeOf(ps, c)
  {
    var t := Joined(ps, [c]);
    if ps != [] && FreeOf(ps, c) {
      SplitJoinFrom("", ps, c);
      assert "" + t == t;
      if t == "" { assert ps == [""]; }
    }
    PiecesFreeOf(t, c);
  }

  lemma PiecesFreeOf(t: string, c: char)
    ensures Pieces(t, [c]) != [] && FreeOf(Pieces(t, [c]), c)
  {
    if t != "" {
      var ps := Pieces(t, [c]);
      PiecesCount(t, [c], 0);
      forall k | 0 <= k < |ps| ensures c !in ps[k] {
        forall j | 0 <= j < |ps[k]| ensures ps[k][j] != c {
          assert !OccursAt(ps[k], [c], j);
        }
      }
    }
  }

  lemma {:induction false} SplitJoinFrom(pre: string, ps: seq<string>, c: char)
    requires ps != [] && FreeOf(ps, c)
    ensures PiecesFrom(pre + Joined(ps, [c]), [c], |pre|) == ps
    decreases |ps|
  {
    var t := pre + Joined(ps, [c]);
    forall j | |pre| <= j < |pre| + |ps[0]| ensures !OccursAt(t, [c], j) {
      assert t[j] == ps[0][j - |pre|];
      assert t[j] != c;
    }
    if |ps| == 1 {
      assert Find(t, [c], |pre|) == None;
      assert t[|pre|..] == ps[0];
    } else {
      var pre' := pre + ps[0] + [c];
      assert t == pre' + Joined(ps[1..], [c]);
      assert OccursAt(t, [c], |pre| + |ps[0]|);
      assert Find(t, [c], |pre|) == Some(|pre| + |ps[0]|);
      assert t[|pre|..|pre| + |ps[0]|] == ps[0];
      SplitJoinFrom(pre', ps[1..], c);
    }
  }

  /** Places where `n` occurs in `s` at or after `i`, no two of them overlapping. */
  ghost predicate Packing(s: string, n: string, i: nat, ps: set<nat>) {
    && (forall p :: p in ps ==> i <= p && OccursAt(s, n, p))
    && (forall p, q :: p in ps && q in ps && p < q ==> p + |n| <= q)
  }

  /** The greedy count is the size of a packing. */
  lemma {:induction false} GreedyPacking(s: string, n: string, i: nat) returns (ps: set<nat>)
    requires n != "" && i <= |s|
    ensures Packing(s, n, i, ps) && |ps| == CountFrom(s, n, i)
    decreases |s| - i
  {
    match Find(s, n, i)
    case None => ps := {};
    case Some(p) =>
      var rest := GreedyPacking(s, n, p + |n|);
      assert p !in rest;
      ps := {p} + rest;
  }

  /** No packing is larger: exchange the first place of a packing for the greedy one. */
  lemma {:induction false} GreedyIsMaximal(s: string, n: string, i: nat, ps: set<nat>)
    requires n != "" && i <= |s| && Packing(s, n, i, ps)
    ensures |ps| <= CountFrom(s, n, i)
    decreases |s| - i
  {
    match Find(s, n, i)
    case None =>
      assert ps == {};
    case Some(f) =>
      LaterPlaces(s, n, i, f, ps);
      GreedyIsMaximal(s, n, f + |n|, Later(ps, f + |n|));
  }

  ghost function Later(ps: set<nat>, from: nat): set<nat> {
    set p | p in ps && from <= p
  }

  /** At most one place of a packing lies before the end of the first occurrence. */
  lemma LaterPlaces(s: string, n: string, i: nat, f: nat, ps: set<nat>)
    requires n != "" && i <= |s| && Packing(s, n, i, ps) && Find(s, n, i) == Some(f)
    ensures Packing(s, n, f + |n|, Later(ps, f + |n|)) && |ps| <= 1 + |Later(ps, f + |n|)|
  {
    var rest := Later(ps, f + |n|);
    forall p | p in ps ensures f <= p {
      assert OccursAt(s, n, p);
    }
    AtMostOne(ps - rest);
    assert ps == (ps - rest) + rest;
  }

  lemma AtMostOne<T>(s: set<T>)
    requires forall x, y :: x in s && y in s ==> x == y
    ensures |s| <= 1
  {
    if s != {} {
      var x :| x in s;
      assert s == {x};
    }
  }

  /** `count_occurrences` is the largest number of pairwise non-overlapping occurrences. */
  lemma CountIsMaximumPacking(s: string, n: string)
    requires n != ""
    ensures exists ps :: Packing(s, n, 0, ps) && |ps| == Count(s, n)
    ensures forall ps :: Packing(s, n, 0, ps) ==> |ps| <= Count(s, n)
    ensures |Pieces(s, n)| == Count(s, n) + 1
  {
    var best := GreedyPacking(s, n, 0);
    forall ps | Packing(s, n, 0, ps) ensures |ps| <= Count(s, n) {
      GreedyIsMaximal(s, n, 0, ps);
    }
    PiecesCount(s, n, 0);
  }
}
