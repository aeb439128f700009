/** The path functions as the runtime runs them: index loops over the text and a segment stack. */
module PathLoops {
  import opened Options
  import opened FluxusVector
  import opened Texts
  import opened Paths
  import opened RelativePaths

  lemma SkipOne(p: string, i: nat)
    requires i < |p| && IsSep(p[i])
    ensures Segments(p[..i + 1]) == Segments(p[..i])
  {
    SegmentsSnoc(p[..i], p[i]);
    assert p[..i + 1] == p[..i] + [p[i]];
  }

  lemma TakeRun(p: string, start: nat, end: nat)
    requires start < end <= |p| && (start == 0 || IsSep(p[start - 1]))
    requires forall k :: start <= k < end ==> !IsSep(p[k])
    ensures Segments(p[..end]) == Segments(p[..start]) + [p[start..end]] && IsSegment(p[start..end])
  {
    SegmentsRun(p[..start], p[start..end]);
    assert p[..end] == p[..start] + p[start..end];
  }

  lemma PushNext(parts: seq<string>, part: string, abs: bool)
    ensures PushAll([], parts + [part], abs) == Push(PushAll([], parts, abs), part, abs)
  {
    assert (parts + [part])[..|parts|] == parts;
  }

  /** One turn of the normaliser: drop `.`, pop on `..`, otherwise push. */
  method PushPart(stack: Fluxus<string>, part: string, abs: bool)
    requires stack.Valid()
    modifies stack.Repr
    ensures stack.Valid() && fresh(stack.Repr - old(stack.Repr))
    ensures stack.Contents() == Push(old(stack.Contents()), part, abs)
  {
    if part == "." { return; }
    if part == ".." {
      var n := stack.len;
      if n > 0 {
        var top := stack.Get(n - 1);
        if top != ".." {
          stack.Remove(n - 1);
          return;
        }
      }
      if abs { return; }
    }
    stack.Push(part);
  }

  /** The two scans of one turn: over separators, then over a run. */
  method NextRun(p: string, i: nat) returns (start: nat, end: nat)
    requires i < |p| && (i == 0 || IsSep(p[i]))
    ensures i <= start <= end <= |p| && i < end && (end == |p| || IsSep(p[end]))
    ensures Segments(p[..end]) == if start < end then Segments(p[..i]) + [p[start..end]] else Segments(p[..i])
  {
    start := i;
    while start < |p| && IsSep(p[start])
      invariant i <= start <= |p| && Segments(p[..start]) == Segments(p[..i])
      invariant start == 0 || (start == i && start < |p| && IsSep(p[start])) || IsSep(p[start - 1])
    {
      SkipOne(p, start);
      start := start + 1;
    }
    end := start;
    while end < |p| && !IsSep(p[end])
      invariant start <= end <= |p| && forall k :: start <= k < end ==> !IsSep(p[k])
    {
      end := end + 1;
    }
    if start < end { TakeRun(p, start, end); }
  }

  method PathNormalize(p: string) returns (r: string)
    ensures r == Normalize(p)
  {
    var abs := |p| > 0 && p[0] == '/';
    var stack := new Fluxus<string>();
    var i := 0;
    while i < |p|
      invariant 0 <= i <= |p| && (i == 0 || i == |p| || IsSep(p[i]))
      invariant stack.Valid() && fresh(stack.Repr)
      invariant stack.Contents() == PushAll([], Segments(p[..i]), abs)
    {
      var start, end := NextRun(p, i);
      if start < end {
        PushNext(Segments(p[..i]), p[start..end], abs);
        PushPart(stack, p[start..end], abs);
      }
      i := end;
    }
    assert p[..i] == p;
    if stack.len == 0 { return if abs then "/" else "."; }
    var joined := Join(stack.data[..stack.len], "/");
    if !abs { return joined; }
    return "/" + joined;
  }

  /** The normal form cut at slashes, with the root listed first. */
  function SplitParts(p: string): seq<string> {
    (if IsAbsolute(p) then ["/"] else []) + Listed(p)
  }

  /** Joining what splitting lists gives the normal form back. */
  lemma JoinListed(p: string)
    ensures JoinAll(SplitParts(p)) == Normalize(p)
  {
    ListedAreSegments(p);
    if IsAbsolute(p) {
      JoinAllAbsolute(NormalParts(p));
      assert "/" + "" == "/";
    } else {
      assert [] + Listed(p) == Listed(p);
      JoinAllRelative(Listed(p));
      assert Joined(["."], "/") == "." && "" + Joined(NormalParts(p), "/") == Joined(NormalParts(p), "/");
    }
  }

  /** One turn of the splitting loop: a slash or the end closes a segment. */
  method SplitTurn(norm: string, out: Fluxus<string>, start: nat, i: nat) returns (next: nat)
    requires out.Valid() && start <= i <= |norm| && '\\' !in norm
    requires start == 0 || IsSep(norm[start - 1])
    requires forall k :: start <= k < i ==> !IsSep(norm[k])
    modifies out.Repr
    ensures out.Valid() && fresh(out.Repr - old(out.Repr))
    ensures next == if i == |norm| || norm[i] == '/' then i + 1 else start
    ensures i < |norm| && norm[i] != '/' ==> !IsSep(norm[i])
    ensures next == start ==> out.Contents() == old(out.Contents())
    ensures next > i ==> out.Contents() == old(out.Contents()) + if start < i then [norm[start..i]] else []
  {
    next := start;
    if i == |norm| || norm[i] == '/' {
      if i > start { out.Push(norm[start..i]); }
      next := i + 1;
    }
  }

  /** Closing a segment at `i`: the segments up to there, and past the slash. */
  lemma CloseSegment(norm: string, start: nat, i: nat)
    requires start <= i <= |norm| && (start == 0 || IsSep(norm[start - 1]))
    requires forall k :: start <= k < i ==> !IsSep(norm[k])
    ensures Segments(norm[..i]) == Segments(norm[..start]) + if start < i then [norm[start..i]] else []
    ensures i < |norm| && IsSep(norm[i]) ==> Segments(norm[..i + 1]) == Segments(norm[..i])
  {
    if start < i { TakeRun(norm, start, i); }
    if i < |norm| && IsSep(norm[i]) { SkipOne(norm, i); }
  }

  /** The splitting loop, from the first character after the root. */
  method SplitLoop(norm: string, out: Fluxus<string>, first: nat)
    requires out.Valid() && first <= |norm| && '\\' !in norm
    requires first == 0 || IsSep(norm[first - 1])
    requires Segments(norm[..first]) == []
    modifies out.Repr
    ensures out.Valid() && fresh(out.Repr - old(out.Repr))
    ensures out.Contents() == old(out.Contents()) + Segments(norm)
  {
    var i: nat, start: nat := first, first;
    ghost var root := out.Contents();
    while i <= |norm|
      invariant SplitState(norm, start, i) && out.Valid() && fresh(out.Repr - old(out.Repr))
      invariant out.Contents() == root + Closed(norm, start)
    {
      CloseSegment(norm, start, i);
      ghost var before := start;
      start := SplitTurn(norm, out, start, i);
      SplitAdvances(norm, root, before, i, start);
      i := i + 1;
    }
    assert norm[..|norm|] == norm;
  }

  /** The scan is at `i`, in a run that began at `start`, or one past the end. */
  ghost predicate SplitState(norm: string, start: nat, i: nat) {
    && start <= i <= |norm| + 1 && (i > |norm| ==> start == i)
    && (start <= |norm| ==> start == 0 || IsSep(norm[start - 1]))
    && forall k :: start <= k < i ==> !IsSep(norm[k])
  }

  /** The segments closed before `start`. */
  ghost function Closed(norm: string, start: nat): seq<string> {
    Segments(norm[..if start <= |norm| then start else |norm|])
  }

  lemma SplitAdvances(norm: string, root: seq<string>, start: nat, i: nat, next: nat)
    requires i <= |norm| && SplitState(norm, start, i) && '\\' !in norm
    requires next == if i == |norm| || norm[i] == '/' then i + 1 else start
    requires Segments(norm[..i]) == Segments(norm[..start]) + if start < i then [norm[start..i]] else []
    requires i < |norm| && IsSep(norm[i]) ==> Segments(norm[..i + 1]) == Segments(norm[..i])
    ensures SplitState(norm, next, i + 1)
    ensures next > i ==>
              root + Closed(norm, start) + (if start < i then [norm[start..i]] else []) == root + Closed(norm, next)
  {
    if next > i {
      assert Closed(norm, next) == Segments(norm[..i]);
    }
  }

  method PathSplit(p: string) returns (out: Fluxus<string>)
    ensures out.Valid() && fresh(out.Repr) && out.Contents() == SplitParts(p)
  {
    var norm := PathNormalize(p);
    ListedAreNormalSegments(p);
    NoBackslash(p);
    var abs := |norm| > 0 && norm[0] == '/';
    out := new Fluxus();
    if abs {
      out.Push("/");
      SkipOne(norm, 0);
      assert norm[..0] == "";
    }
    SplitLoop(norm, out, if abs then 1 else 0);
    if !abs && out.len == 0 {
      assert false; // the runtime would list `.` here, but the normal form of a relative path is never empty
    }
  }

  lemma ListedAreNormalSegments(p: string)
    ensures Segments(Normalize(p)) == Listed(p) && IsAbsolute(Normalize(p)) == IsAbsolute(p)
  {
    NormalPartsCanonical(p);
    PrintedReads(NormalParts(p), IsAbsolute(p));
  }

  /** A normal form has no backslash. */
  lemma NoBackslash(p: string)
    ensures '\\' !in Normalize(p)
  {
    NormalPartsCanonical(p);
    JoinedHasNoBackslash(NormalParts(p));
  }

  lemma {:induction false} JoinedHasNoBackslash(parts: seq<string>)
    requires AllSegments(parts)
    ensures '\\' !in Joined(parts, "/")
  {
    if |parts| > 1 { JoinedHasNoBackslash(parts[1..]); }
    if parts != [] { assert IsSegment(parts[0]); }
  }

  // ---------- joining ----------

  /** Copies a stretch cell by cell, turning backslashes into slashes. */
  method DupNormalized(src: string, start: nat, end: nat) returns (r: string)
    requires start <= end <= |src|
    ensures r == Forward(src[start..end])
  {
    var n := end - start;
    var buf := new char[n];
    for i := 0 to n
      invariant forall k :: 0 <= k < i ==> buf[k] == if src[start + k] == '\\' then '/' else src[start + k]
    {
      var ch := src[start + i];
      buf[i] := if ch == '\\' then '/' else ch;
    }
    r := buf[..];
    assert r == Forward(src[start..end]);
  }

  /** Scans for the stretch of `a` before its trailing separators; nothing is left of a path of separators only. */
  method JoinLeft(a: string) returns (left: string)
    requires a != ""
    ensures left == if TrimEnd(a) == 0 then "/" else Forward(a[..TrimEnd(a)])
  {
    var aEnd: nat := |a|;
    while aEnd > 0 && IsSep(a[aEnd - 1])
      invariant aEnd <= |a| && forall k :: aEnd <= k < |a| ==> IsSep(a[k])
    {
      aEnd := aEnd - 1;
    }
    var rootOnly := false;
    if aEnd == 0 {
      var i := 0;
      while i < |a|
        invariant 0 <= i <= |a| && rootOnly == (i > 0)
      {
        if !IsSep(a[i]) { rootOnly := false; break; }
        rootOnly := true;
        i := i + 1;
      }
    }
    TrimEndIs(a, aEnd);
    if rootOnly { left := DupNormalized("/", 0, 1); } else { left := DupNormalized(a, 0, aEnd); }
  }

  lemma TrimEndIs(a: string, n: nat)
    requires n <= |a| && (n > 0 ==> !IsSep(a[n - 1])) && forall k :: n <= k < |a| ==> IsSep(a[k])
    ensures TrimEnd(a) == n && Forward("/"[0..1]) == "/" && a[0..n] == a[..n]
  {
  }

  method SkipLeading(b: string) returns (bStart: nat)
    ensures bStart == SkipSeps(b)
  {
    bStart := 0;
    while bStart < |b| && IsSep(b[bStart])
      invariant bStart <= |b| && forall k :: 0 <= k < bStart ==> IsSep(b[k])
    {
      bStart := bStart + 1;
    }
  }

  method JoinPaths(a: string, b: string) returns (r: string)
    ensures r == PathJoin(a, b)
  {
    assert a[0..|a|] == a && b[0..|b|] == b;
    if |a| == 0 { r := DupNormalized(b, 0, |b|); return; }
    if |b| == 0 { r := DupNormalized(a, 0, |a|); return; }
    var left := JoinLeft(a);
    var bStart := SkipLeading(b);
    LeftSegments(a, left);
    if bStart == |b| {
      LastOfLeft(a, left);
      if left[|left| - 1] == '/' { return left; }
      return left + "/";
    }
    var right := DupNormalized(b, bStart, |b|);
    var leftIsRoot := |left| == 1 && left[0] == '/';
    r := JoinBuffer(left, right, leftIsRoot);
  }

  lemma LastOfLeft(a: string, left: string)
    requires a != "" && left == if TrimEnd(a) == 0 then "/" else Forward(a[..TrimEnd(a)])
    ensures left != "" && (left[|left| - 1] == '/' <==> left == "/")
  {
    LeftSegments(a, left);
    if TrimEnd(a) > 0 { assert !IsSep(a[TrimEnd(a) - 1]); }
  }

  method JoinBuffer(left: string, right: string, leftIsRoot: bool) returns (r: string)
    ensures r == left + (if leftIsRoot then "" else "/") + right
  {
    var n := |left| + |right| + if leftIsRoot then 0 else 1;
    var buf, pos := new char[n], 0;
    CopyInto(buf, pos, left);
    pos := pos + |left|;
    if !leftIsRoot {
      CopyInto(buf, pos, "/");
      pos := pos + 1;
    }
    CopyInto(buf, pos, right);
    r := buf[..];
    assert r == buf[..pos + |right|];
  }

  // ---------- relative paths ----------

  /** Splitting an already normalised path lists the same parts. */
  lemma SplitOfNormal(p: string)
    ensures SplitParts(Normalize(p)) == SplitParts(p)
  {
    NormalizeIsCanonical(p);
  }

  lemma CommonPrefixIs(a: seq<string>, b: seq<string>, c: nat)
    requires c <= |a| && c <= |b| && (forall k :: 0 <= k < c ==> a[k] == b[k])
    requires c < |a| && c < |b| ==> a[c] != b[c]
    ensures CommonPrefix(a, b) == c
  {
    assert a[..CommonPrefix(a, b)] == b[..CommonPrefix(a, b)];
  }

  method CountCommon(pp: Fluxus<string>, bp: Fluxus<string>, root: nat) returns (c: nat)
    requires pp.Valid() && bp.Valid() && root <= pp.len && root <= bp.len
    ensures c == CommonPrefix(pp.Contents()[root..], bp.Contents()[root..])
  {
    c := 0;
    while root + c < pp.len && root + c < bp.len
      invariant root + c <= pp.len && root + c <= bp.len
      invariant forall k :: root <= k < root + c ==> pp.Contents()[k] == bp.Contents()[k]
    {
      var ps, bs := pp.Get(root + c), bp.Get(root + c);
      if ps != bs { break; }
      c := c + 1;
    }
    CommonPrefixIs(pp.Contents()[root..], bp.Contents()[root..], c);
  }

  method PushUps(out: Fluxus<string>, n: nat)
    requires out.Valid() && out.Contents() == []
    modifies out.Repr
    ensures out.Valid() && fresh(out.Repr - old(out.Repr)) && out.Contents() == Filler("..", n)
  {
    for i := 0 to n
      invariant out.Valid() && fresh(out.Repr - old(out.Repr)) && out.Contents() == Filler("..", i)
    {
      out.Push("..");
      assert Filler("..", i + 1) == Filler("..", i) + [".."];
    }
  }

  /** Pushes the cells of `from` past `first`; an empty part would be skipped. */
  method PushRest(out: Fluxus<string>, from: Fluxus<string>, first: nat)
    requires out.Valid() && from.Valid() && out.Repr !! from.Repr && first <= from.len
    requires AllSegments(from.Contents()[first..])
    modifies out.Repr
    ensures out.Valid() && fresh(out.Repr - old(out.Repr))
    ensures out.Contents() == old(out.Contents()) + from.Contents()[first..]
  {
    ghost var parts, had := from.Contents(), out.Contents();
    assert parts[first..first] == [];
    for i := first to from.len
      invariant out.Valid() && fresh(out.Repr - old(out.Repr)) && out.Repr !! from.Repr
      invariant from.Valid() && from.Contents() == parts && out.Contents() == had + parts[first..i]
    {
      var ps := from.Get(i);
      assert ps == parts[first..][i - first] && parts[first..i + 1] == parts[first..i] + [ps];
      if ps != "" { out.Push(ps); }
    }
  }

  method PathRelativeTo(path: string, base: string) returns (r: Result<string, PathError>)
    ensures r == RelativeTo(path, base)
  {
    var pn := PathNormalize(path);
    var bn := PathNormalize(base);
    ListedAreNormalSegments(path);
    ListedAreNormalSegments(base);
    ListedAreSegments(path);
    var pa, ba := |pn| > 0 && pn[0] == '/', |bn| > 0 && bn[0] == '/';
    if pa != ba { return Err(MixedAbsoluteAndRelative); }
    var pp := PathSplit(pn);
    var bp := PathSplit(bn);
    SplitOfNormal(path);
    SplitOfNormal(base);
    var root := if pa then 1 else 0;
    assert pp.Contents()[root..] == Listed(path) && bp.Contents()[root..] == Listed(base);
    var text := RelativeText(pp, bp, root, Listed(path), Listed(base));
    r := Ok(text);
  }

  method RelativeText(pp: Fluxus<string>, bp: Fluxus<string>, root: nat, ghost p: seq<string>, ghost b: seq<string>)
    returns (text: string)
    requires pp.Valid() && bp.Valid() && root <= pp.len && root <= bp.len
    requires pp.Contents()[root..] == p && bp.Contents()[root..] == b && AllSegments(p)
    ensures text == var parts := RelativeParts(p, b); if parts == [] then "." else Joined(parts, "/")
  {
    var out := RelativeVector(pp, bp, root, p, b);
    if out.len == 0 { return "."; }
    text := Join(out.data[..out.len], "/");
  }

  method RelativeVector(pp: Fluxus<string>, bp: Fluxus<string>, root: nat, ghost p: seq<string>, ghost b: seq<string>)
    returns (out: Fluxus<string>)
    requires pp.Valid() && bp.Valid() && root <= pp.len && root <= bp.len
    requires pp.Contents()[root..] == p && bp.Contents()[root..] == b && AllSegments(p)
    ensures out.Valid() && out.Contents() == RelativeParts(p, b)
  {
    var c := CountCommon(pp, bp, root);
    out := new Fluxus<string>();
    PushUps(out, bp.len - root - c);
    assert pp.Contents()[root + c..] == p[c..];
    PushRest(out, pp, root + c);
  }
}
