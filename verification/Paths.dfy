/** Lexical paths: segments, normal forms, joining and relative paths. */
module Paths {
  import opened Options
  import opened Texts

  predicate IsSep(ch: char) {
    ch == '/' || ch == '\\'
  }

  predicate IsAbsolute(p: string) {
    p != "" && p[0] == '/'
  }

  /** The maximal runs of non-separators. */
  function Segments(p: string): (r: seq<string>)
    ensures p != "" && !IsSep(p[|p| - 1]) ==> r != []
  {
    if p == "" then []
    else
      var n := |p| - 1;
      var r := Segments(p[..n]);
      if IsSep(p[n]) then r
      else if n == 0 || IsSep(p[n - 1]) then r + [[p[n]]]
      else Extend(r, p[n])
  }

  /** The last segment grows by one character. */
  function Extend(r: seq<string>, x: char): seq<string>
    requires r != []
  {
    r[..|r| - 1] + [r[|r| - 1] + [x]]
  }

  predicate IsSegment(s: string) {
    s != "" && forall i :: 0 <= i < |s| ==> !IsSep(s[i])
  }

  ghost predicate AllSegments(ss: seq<string>) {
    forall i :: 0 <= i < |ss| ==> IsSegment(ss[i])
  }

  // ---------- the normaliser's stack ----------

  function Push(stack: seq<string>, part: string, abs: bool): seq<string> {
    if part == "." then stack
    else if part == ".." then
      if stack != [] && stack[|stack| - 1] != ".." then stack[..|stack| - 1]
      else if abs then stack
      else stack + [part]
    else stack + [part]
  }

  function PushAll(stack: seq<string>, parts: seq<string>, abs: bool): seq<string> {
    if parts == [] then stack
    else Push(PushAll(stack, parts[..|parts| - 1], abs), parts[|parts| - 1], abs)
  }

  function NormalParts(p: string): seq<string> {
    PushAll([], Segments(p), IsAbsolute(p))
  }

  function Printed(parts: seq<string>, abs: bool): string {
    if parts == [] then if abs then "/" else "."
    else (if abs then "/" else "") + Joined(parts, "/")
  }

  function Normalize(p: string): string {
    Printed(NormalParts(p), IsAbsolute(p))
  }

  /** No `.`, no empty part, and `..` only at the front of a relative path. */
  ghost predicate Canonical(parts: seq<string>, abs: bool) {
    && AllSegments(parts)
    && (forall i :: 0 <= i < |parts| ==> parts[i] != ".")
    && (forall i :: 0 <= i < |parts| && parts[i] == ".." ==> !abs && (i > 0 ==> parts[i - 1] == ".."))
  }

  // ---------- what a path means ----------

  /** Following segments from a directory; `..` at the root stays at the root. */
  function Walk(dir: seq<string>, parts: seq<string>): seq<string> {
    if parts == [] then dir else WalkOne(Walk(dir, parts[..|parts| - 1]), parts[|parts| - 1])
  }

  function WalkOne(dir: seq<string>, part: string): seq<string> {
    if part == "." then dir
    else if part == ".." then if dir == [] then [] else dir[..|dir| - 1]
    else dir + [part]
  }

  lemma WalkSnoc(dir: seq<string>, parts: seq<string>, part: string)
    ensures Walk(dir, parts + [part]) == WalkOne(Walk(dir, parts), part)
  {
    assert (parts + [part])[..|parts|] == parts;
  }

  /** Where a path leads from a working directory. */
  function Resolve(dir: seq<string>, p: string): seq<string> {
    Walk(if IsAbsolute(p) then [] else dir, Segments(p))
  }

  // ---------- segments of texts ----------

  lemma {:induction false} SegmentsAreSegments(p: string)
    ensures AllSegments(Segments(p))
  {
    if p != "" {
      var n := |p| - 1;
      SegmentsAreSegments(p[..n]);
      assert !IsSep(p[n]) ==> IsSegment([p[n]]);
    }
  }

  lemma SegmentsSnoc(q: string, x: char)
    ensures Segments(q + [x]) ==
            if IsSep(x) then Segments(q)
            else if q == "" || IsSep(q[|q| - 1]) then Segments(q) + [[x]]
            else Extend(Segments(q), x)
  {
    var p := q + [x];
    assert p[..|p| - 1] == q && p[|p| - 1] == x;
    if q != "" { assert p[|p| - 2] == q[|q| - 1]; }
  }

  lemma ExtendConcat(a: seq<string>, b: seq<string>, x: char)
    requires b != []
    ensures Extend(a + b, x) == a + Extend(b, x)
  {
    assert (a + b)[..|a + b| - 1] == a + b[..|b| - 1];
  }

  lemma {:induction false} SegmentsConcat(a: string, c: char, b: string)
    requires IsSep(c)
    ensures Segments(a + [c] + b) == Segments(a) + Segments(b)
    decreases |b|
  {
    if b == "" {
      SegmentsSnoc(a, c);
      assert a + [c] + b == a + [c];
    } else {
      var n := |b| - 1;
      var q := a + [c] + b[..n];
      SegmentsConcat(a, c, b[..n]);
      assert a + [c] + b == q + [b[n]];
      assert q[|q| - 1] == if n == 0 then c else b[n - 1];
      SegmentsSnoc(q, b[n]);
      if !IsSep(b[n]) && n > 0 && !IsSep(b[n - 1]) { ExtendConcat(Segments(a), Segments(b[..n]), b[n]); }
    }
  }

  /** A run appended after a separator, or at the start, is one more segment. */
  lemma {:induction false} SegmentsRun(a: string, run: string)
    requires IsSegment(run) && (a == "" || IsSep(a[|a| - 1]))
    ensures Segments(a + run) == Segments(a) + [run]
    decreases |run|
  {
    var n := |run| - 1;
    LastOfRun(a, run);
    if n == 0 {
      assert run[..0] == [];
      StartRun(a, run[0]);
    } else {
      SegmentsRun(a, run[..n]);
      GrowRun(a, run[..n], run[n]);
    }
  }

  lemma LastOfRun(a: string, run: string)
    requires run != ""
    ensures var n := |run| - 1;
            a + run == a + run[..n] + [run[n]] && run == run[..n] + [run[n]]
  {
  }

  lemma StartRun(a: string, x: char)
    requires !IsSep(x) && (a == "" || IsSep(a[|a| - 1]))
    ensures Segments(a + [] + [x]) == Segments(a) + [[] + [x]]
  {
    SegmentsSnoc(a, x);
    assert a + [] == a;
    assert [] + [x] == [x];
  }

  lemma GrowRun(a: string, run: string, x: char)
    requires IsSegment(run) && !IsSep(x) && Segments(a + run) == Segments(a) + [run]
    ensures Segments(a + run + [x]) == Segments(a) + [run + [x]]
  {
    var q := a + run;
    assert q[|q| - 1] == run[|run| - 1];
    SegmentsSnoc(q, x);
    ExtendConcat(Segments(a), [run], x);
  }

  lemma {:induction false} SegmentsJoined(parts: seq<string>)
    requires AllSegments(parts)
    ensures Segments(Joined(parts, "/")) == parts
  {
    if parts == [] {
    } else if |parts| == 1 {
      SegmentsRun("", parts[0]);
      assert "" + parts[0] == parts[0];
    } else {
      SegmentsJoined(parts[1..]);
      SegmentsRun("", parts[0]);
      assert "" + parts[0] == parts[0];
      SegmentsConcat(parts[0], '/', Joined(parts[1..], "/"));
    }
  }

  lemma JoinedStart(parts: seq<string>)
    requires parts != [] && AllSegments(parts)
    ensures Joined(parts, "/") != "" && !IsSep(Joined(parts, "/")[0])
  {
  }

  /** Printing a canonical stack and reading it again: the same kind of path with the same parts. */
  lemma PrintedReads(parts: seq<string>, abs: bool)
    requires Canonical(parts, abs)
    ensures IsAbsolute(Printed(parts, abs)) == abs
    ensures Segments(Printed(parts, abs)) == if parts == [] && !abs then ["."] else parts
  {
    if parts == [] {
      PrintedEmptyReads(abs);
    } else {
      var t := Joined(parts, "/");
      JoinedStart(parts);
      SegmentsJoined(parts);
      LeadingSlash(t);
      assert "" + t == t;
    }
  }

  lemma PrintedEmptyReads(abs: bool)
    ensures IsAbsolute(Printed([], abs)) == abs
    ensures Segments(Printed([], abs)) == if abs then [] else ["."]
  {
    SegmentsSnoc("", '/');
    SegmentsSnoc("", '.');
    assert "" + ['/'] == "/" && "" + ['.'] == ".";
  }

  lemma LeadingSlash(t: string)
    ensures Segments("/" + t) == Segments(t) && IsAbsolute("/" + t)
  {
    SegmentsConcat("", '/', t);
    assert "" + ['/'] + t == "/" + t;
  }

  // ---------- normal forms ----------

  lemma PushOneKeepsCanonical(stack: seq<string>, part: string, abs: bool)
    requires Canonical(stack, abs) && IsSegment(part)
    ensures Canonical(Push(stack, part, abs), abs)
  {
  }

  lemma {:induction false} PushKeepsCanonical(stack: seq<string>, parts: seq<string>, abs: bool)
    requires Canonical(stack, abs) && AllSegments(parts)
    ensures Canonical(PushAll(stack, parts, abs), abs)
  {
    if parts != [] {
      var n := |parts| - 1;
      PushKeepsCanonical(stack, parts[..n], abs);
      PushOneKeepsCanonical(PushAll(stack, parts[..n], abs), parts[n], abs);
    }
  }

  lemma {:induction false} PushAllConcat(stack: seq<string>, a: seq<string>, b: seq<string>, abs: bool)
    ensures PushAll(stack, a + b, abs) == PushAll(PushAll(stack, a, abs), b, abs)
  {
    if b == [] {
      assert a + b == a;
    } else {
      var n := |b| - 1;
      PushAllConcat(stack, a, b[..n], abs);
      assert (a + b)[..|a + b| - 1] == a + b[..n];
    }
  }

  /** A canonical stack is a fixed point. */
  lemma {:induction false} CanonicalIsFixed(parts: seq<string>, abs: bool)
    requires Canonical(parts, abs)
    ensures PushAll([], parts, abs) == parts
  {
    if parts != [] {
      var n := |parts| - 1;
      CanonicalIsFixed(parts[..n], abs);
      assert parts == parts[..n] + [parts[n]];
    }
  }

  lemma NormalPartsCanonical(p: string)
    ensures Canonical(NormalParts(p), IsAbsolute(p))
  {
    SegmentsAreSegments(p);
    PushKeepsCanonical([], Segments(p), IsAbsolute(p));
  }

  /** The result of normalising is canonical, reads back as its own parts, and is a fixed point. */
  lemma NormalizeIsCanonical(p: string)
    ensures Canonical(NormalParts(p), IsAbsolute(p))
    ensures IsAbsolute(Normalize(p)) == IsAbsolute(p) && NormalParts(Normalize(p)) == NormalParts(p)
    ensures Segments(Normalize(p)) == if Normalize(p) == "." then ["."] else NormalParts(p)
    ensures Normalize(Normalize(p)) == Normalize(p)
  {
    var parts, abs := NormalParts(p), IsAbsolute(p);
    NormalPartsCanonical(p);
    PrintedReads(parts, abs);
    CanonicalIsFixed(parts, abs);
    if parts == [] && !abs {
      assert PushAll([], ["."], false) == [];
    } else {
      assert Normalize(p) != ".";
    }
  }

  // ---------- meaning ----------

  lemma WalkPush(dir: seq<string>, stack: seq<string>, part: string, abs: bool)
    requires Canonical(stack, abs) && (abs ==> dir == [])
    ensures Walk(dir, Push(stack, part, abs)) == WalkOne(Walk(dir, stack), part)
  {
    WalkSnoc(dir, stack, part);
    if part == ".." && stack != [] && stack[|stack| - 1] != ".." {
      WalkSnoc(dir, stack[..|stack| - 1], stack[|stack| - 1]);
    }
  }

  lemma {:induction false} WalkPushAll(dir: seq<string>, parts: seq<string>, abs: bool)
    requires AllSegments(parts) && (abs ==> dir == [])
    ensures Walk(dir, PushAll([], parts, abs)) == Walk(dir, parts)
  {
    if parts != [] {
      var n := |parts| - 1;
      WalkPushAll(dir, parts[..n], abs);
      PushKeepsCanonical([], parts[..n], abs);
      WalkPush(dir, PushAll([], parts[..n], abs), parts[n], abs);
    }
  }

  /** Normalising preserves where a path leads, from every working directory. */
  lemma NormalizeKeepsMeaning(dir: seq<string>, p: string)
    ensures Resolve(dir, Normalize(p)) == Resolve(dir, p)
  {
    var from := if IsAbsolute(p) then [] else dir;
    SegmentsAreSegments(p);
    WalkPushAll(from, Segments(p), IsAbsolute(p));
    NormalizeIsCanonical(p);
    if Normalize(p) == "." {
      assert Walk(dir, ["."]) == Walk(dir, []);
      PrintedIsDot(NormalParts(p), IsAbsolute(p));
    }
  }

  lemma PrintedIsDot(parts: seq<string>, abs: bool)
    requires Canonical(parts, abs) && Printed(parts, abs) == "."
    ensures parts == [] && !abs
  {
    if parts != [] { PrintedReads(parts, abs); }
  }

  /** How many leading `..` a canonical stack has. */
  function Ups(parts: seq<string>): (k: nat)
    ensures k <= |parts|
  {
    if parts == [] then 0
    else if parts[|parts| - 1] == ".." then |parts|
    else Ups(parts[..|parts| - 1])
  }

  lemma {:induction false} UpsArePrefix(parts: seq<string>, abs: bool)
    requires Canonical(parts, abs)
    ensures forall i :: 0 <= i < |parts| ==> (parts[i] == ".." <==> i < Ups(parts))
    ensures abs ==> Ups(parts) == 0
  {
    if parts != [] {
      var n := |parts| - 1;
      UpsArePrefix(parts[..n], abs);
      if parts[n] == ".." {
        assert n > 0 ==> parts[..n][n - 1] == "..";
      }
    }
  }

  /** The directory `k` levels up; above the root there is only the root. */
  function Above(dir: seq<string>, k: nat): seq<string> {
    if k <= |dir| then dir[..|dir| - k] else []
  }

  /** A canonical stack climbs as often as it has `..`, then descends through its names. */
  lemma {:induction false} WalkCanonical(dir: seq<string>, parts: seq<string>, abs: bool)
    requires Canonical(parts, abs)
    ensures Walk(dir, parts) == Above(dir, Ups(parts)) + parts[Ups(parts)..]
  {
    if parts == [] {
      assert dir[..|dir|] + [] == dir;
    } else {
      var n := |parts| - 1;
      UpsArePrefix(parts, abs);
      WalkCanonical(dir, parts[..n], abs);
      if parts[n] == ".." {
        AllUps(parts, abs);
        ClimbOne(dir, n);
        assert parts[|parts|..] == [] && parts[..n][n..] == [];
      } else {
        WalkName(Above(dir, Ups(parts)), parts, Ups(parts));
      }
    }
  }

  lemma ClimbOne(dir: seq<string>, k: nat)
    ensures WalkOne(Above(dir, k) + [], "..") == Above(dir, k + 1) + []
  {
  }

  lemma AllUps(parts: seq<string>, abs: bool)
    requires Canonical(parts, abs) && parts != [] && parts[|parts| - 1] == ".."
    ensures Ups(parts) == |parts| && Ups(parts[..|parts| - 1]) == |parts| - 1
  {
    var n := |parts| - 1;
    if n > 0 { assert parts[..n][n - 1] == parts[n - 1] == ".."; }
  }

  lemma WalkName(top: seq<string>, parts: seq<string>, k: nat)
    requires k < |parts|
    ensures (top + parts[..|parts| - 1][k..]) + [parts[|parts| - 1]] == top + parts[k..]
  {
    assert parts[k..] == parts[..|parts| - 1][k..] + [parts[|parts| - 1]];
  }

  function Filler(x: string, n: nat): (dir: seq<string>)
    ensures |dir| == n && forall i :: 0 <= i < n ==> dir[i] == x
  {
    seq(n, _ => x)
  }

  function Follow(dir: seq<string>, parts: seq<string>, abs: bool): seq<string> {
    Walk(if abs then [] else dir, parts)
  }

  /** Different canonical stacks lead to different places from some directory. */
  lemma TellApart(a: seq<string>, aAbs: bool, b: seq<string>, bAbs: bool) returns (dir: seq<string>)
    requires Canonical(a, aAbs) && Canonical(b, bAbs) && (a != b || aAbs != bAbs)
    ensures Follow(dir, a, aAbs) != Follow(dir, b, bAbs)
  {
    UpsArePrefix(a, aAbs);
    UpsArePrefix(b, bAbs);
    if aAbs && bAbs {
      dir := [];
      AbsoluteIsItself(a);
      AbsoluteIsItself(b);
    } else if aAbs {
      dir := AbsoluteApart(a, b);
    } else if bAbs {
      dir := AbsoluteApart(b, a);
    } else if Ups(a) <= Ups(b) {
      dir := RelativeApart(a, b);
    } else {
      dir := RelativeApart(b, a);
    }
  }

  /** An absolute path ignores the directory; a relative one from deep enough is longer. */
  lemma AbsoluteApart(a: seq<string>, b: seq<string>) returns (dir: seq<string>)
    requires Canonical(a, true) && Canonical(b, false)
    ensures Walk([], a) != Walk(dir, b)
  {
    dir := Filler("", Ups(b) + |a| + 1);
    AbsoluteIsItself(a);
    WalkCanonical(dir, b, false);
    assert |Walk(dir, b)| > |a| == |Walk([], a)|;
  }

  lemma RelativeApart(a: seq<string>, b: seq<string>) returns (dir: seq<string>)
    requires Canonical(a, false) && Canonical(b, false) && a != b && Ups(a) <= Ups(b)
    ensures Walk(dir, a) != Walk(dir, b)
  {
    var j, k := Ups(a), Ups(b);
    dir := Filler(if k < |b| then b[k] + "x" else "", k);
    WalkCanonical(dir, a, false);
    WalkFromTop(dir, b);
    if j == k {
      WalkFromTop(dir, a);
      if a[j..] == b[k..] { SameAfterUps(a, b); }
    } else {
      assert Walk(dir, a)[0] == dir[0];
      assert k < |b| ==> |dir[0]| > |b[k]|;
    }
  }

  /** From a directory just deep enough, what is left is the names. */
  lemma WalkFromTop(dir: seq<string>, parts: seq<string>)
    requires Canonical(parts, false) && |dir| == Ups(parts)
    ensures Walk(dir, parts) == parts[Ups(parts)..]
  {
    WalkCanonical(dir, parts, false);
    assert dir[..0] == [];
  }

  lemma SameAfterUps(a: seq<string>, b: seq<string>)
    requires Canonical(a, false) && Canonical(b, false) && Ups(a) == Ups(b) && a[Ups(a)..] == b[Ups(b)..]
    ensures a == b
  {
    var k := Ups(a);
    UpsArePrefix(a, false);
    UpsArePrefix(b, false);
    assert a[..k] == b[..k];
    assert a == a[..k] + a[k..] && b == b[..k] + b[k..];
  }

  lemma AbsoluteIsItself(parts: seq<string>)
    requires Canonical(parts, true)
    ensures Walk([], parts) == parts
  {
    UpsArePrefix(parts, true);
    WalkCanonical([], parts, true);
    assert parts[0..] == parts;
  }

  /** Two paths have the same normal form exactly when they lead to the same place from every directory. */
  lemma NormalFormDecidesMeaning(p: string, q: string)
    ensures Normalize(p) == Normalize(q) <==> forall dir :: Resolve(dir, p) == Resolve(dir, q)
  {
    if Normalize(p) == Normalize(q) {
      forall dir ensures Resolve(dir, p) == Resolve(dir, q) {
        NormalizeKeepsMeaning(dir, p);
        NormalizeKeepsMeaning(dir, q);
      }
    }
    if NormalParts(p) != NormalParts(q) || IsAbsolute(p) != IsAbsolute(q) {
      NormalPartsCanonical(p);
      NormalPartsCanonical(q);
      var dir := TellApart(NormalParts(p), IsAbsolute(p), NormalParts(q), IsAbsolute(q));
      FollowIsResolve(dir, p);
      FollowIsResolve(dir, q);
    }
  }

  lemma FollowIsResolve(dir: seq<string>, p: string)
    ensures Resolve(dir, p) == Follow(dir, NormalParts(p), IsAbsolute(p))
  {
    SegmentsAreSegments(p);
    WalkPushAll(if IsAbsolute(p) then [] else dir, Segments(p), IsAbsolute(p));
  }

  // ---------- the text of a normal form ----------

  /** Not empty, no backslash, no empty part: no two slashes in a row, and a slash at the end only in the root. */
  predicate Tidy(r: string) {
    && r != "" && '\\' !in r
    && (forall i :: 0 <= i < |r| - 1 ==> !(r[i] == '/' && r[i + 1] == '/'))
    && (r[|r| - 1] == '/' ==> r == "/")
  }

  /** One slash between parts and none at the ends. */
  lemma {:induction false} JoinedIsTidy(parts: seq<string>)
    requires parts != [] && AllSegments(parts)
    ensures var r := Joined(parts, "/"); Tidy(r) && r[0] != '/' && r[|r| - 1] != '/'
  {
    var first := parts[0];
    assert IsSegment(first);
    if |parts| > 1 {
      JoinedIsTidy(parts[1..]);
      SlashBetween(first, Joined(parts[1..], "/"));
    }
  }

  lemma SlashBetween(a: string, b: string)
    requires IsSegment(a) && Tidy(b) && b[0] != '/' && b[|b| - 1] != '/'
    ensures var r := a + "/" + b; Tidy(r) && r[0] != '/' && r[|r| - 1] != '/'
  {
    var r := a + "/" + b;
    assert forall i :: 0 <= i < |r| ==> r[i] == if i < |a| then a[i] else if i == |a| then '/' else b[i - |a| - 1];
  }

  lemma SlashBefore(b: string)
    requires Tidy(b) && b[0] != '/' && b[|b| - 1] != '/'
    ensures Tidy("/" + b)
  {
    var r := "/" + b;
    assert forall i :: 0 <= i < |r| ==> r[i] == if i == 0 then '/' else b[i - 1];
  }

  /** The text of every normal form is tidy, and starts with a slash exactly when the path does: a backslash
      in front makes no path absolute. */
  lemma NormalText(p: string)
    ensures Tidy(Normalize(p))
    ensures Normalize(p)[0] == '/' <==> p != "" && p[0] == '/'
  {
    NormalPartsCanonical(p);
    if NormalParts(p) != [] {
      var t := Joined(NormalParts(p), "/");
      JoinedIsTidy(NormalParts(p));
      SlashBefore(t);
      assert "" + t == t;
    }
  }

  /** The length of the parts, counting one separator for each. */
  function Weight(parts: seq<string>): nat {
    if parts == [] then 0 else Weight(parts[..|parts| - 1]) + |parts[|parts| - 1]| + 1
  }

  lemma WeightSnoc(parts: seq<string>, part: string)
    ensures Weight(parts + [part]) == Weight(parts) + |part| + 1
  {
    assert (parts + [part])[..|parts|] == parts;
  }

  lemma {:induction false} JoinedWeight(parts: seq<string>)
    requires parts != []
    ensures |Joined(parts, "/")| == Weight(parts) - 1
    decreases |parts|
  {
    var n := |parts| - 1;
    assert parts == parts[..n] + [parts[n]];
    JoinedSnoc(parts[..n], parts[n], "/");
    if n > 0 { JoinedWeight(parts[..n]); }
  }

  lemma {:induction false} PushAllWeight(parts: seq<string>, abs: bool)
    ensures Weight(PushAll([], parts, abs)) <= Weight(parts)
    decreases |parts|
  {
    if parts != [] {
      var n := |parts| - 1;
      PushAllWeight(parts[..n], abs);
      PushWeight(PushAll([], parts[..n], abs), parts[n], abs);
    }
  }

  lemma PushWeight(stack: seq<string>, part: string, abs: bool)
    ensures Weight(Push(stack, part, abs)) <= Weight(stack) + |part| + 1
  {
    WeightSnoc(stack, part);
  }

  /** A text is at least as long as its segments with the separators they need. */
  lemma {:induction false} SegmentsWeight(q: string)
    ensures q != "" ==> Weight(Segments(q)) + (if IsSep(q[0]) then 1 else 0) <= |q| + if IsSep(q[|q| - 1]) then 0 else 1
  {
    if q != "" {
      var n := |q| - 1;
      SegmentsWeight(q[..n]);
      SegmentsSnoc(q[..n], q[n]);
      assert q == q[..n] + [q[n]];
      GrowWeight(q[..n], q[n]);
    }
  }

  lemma GrowWeight(q: string, x: char)
    ensures Weight(Segments(q + [x])) ==
            Weight(Segments(q)) + if IsSep(x) then 0 else if q == "" || IsSep(q[|q| - 1]) then 2 else 1
  {
    SegmentsSnoc(q, x);
    var r := Segments(q);
    if !IsSep(x) {
      if q == "" || IsSep(q[|q| - 1]) {
        WeightSnoc(r, [x]);
      } else {
        WeightSnoc(r[..|r| - 1], r[|r| - 1] + [x]);
      }
    }
  }

  /** A normal form is no longer than the path. */
  lemma NormalIsNoLonger(q: string)
    requires q != ""
    ensures |Normalize(q)| <= |q|
  {
    var parts := NormalParts(q);
    SegmentsWeight(q);
    PushAllWeight(Segments(q), IsAbsolute(q));
    if parts != [] { JoinedWeight(parts); }
  }

  /** Of all the non-empty paths that lead to the same place from every directory, the normal form is shortest. */
  lemma NormalIsShortest(p: string, q: string)
    requires q != "" && forall dir :: Resolve(dir, p) == Resolve(dir, q)
    ensures |Normalize(p)| <= |q|
  {
    NormalFormDecidesMeaning(p, q);
    NormalIsNoLonger(q);
  }
}
