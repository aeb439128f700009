/** Joining paths and expressing one path relative to another. */
module RelativePaths {
  import opened Options
  import opened Texts
  import opened Paths

  /** Backslashes become slashes. */
  function Forward(p: string): (r: string)
    ensures |r| == |p| && forall i :: 0 <= i < |p| ==> r[i] == if p[i] == '\\' then '/' else p[i]
  {
    seq(|p|, i requires 0 <= i < |p| => if p[i] == '\\' then '/' else p[i])
  }

  /** The length of `p` without its trailing separators. */
  function TrimEnd(p: string): (n: nat)
    ensures n <= |p| && (n > 0 ==> !IsSep(p[n - 1])) && forall i :: n <= i < |p| ==> IsSep(p[i])
  {
    if p == "" || !IsSep(p[|p| - 1]) then |p| else TrimEnd(p[..|p| - 1])
  }

  /** The number of leading separators of `p`. */
  function SkipSeps(p: string): (n: nat)
    ensures n <= |p| && (n < |p| ==> !IsSep(p[n])) && forall i :: 0 <= i < n ==> IsSep(p[i])
  {
    if p == "" || !IsSep(p[0]) then 0 else 1 + SkipSeps(p[1..])
  }

  function PathJoin(a: string, b: string): string {
    if a == "" then Forward(b)
    else if b == "" then Forward(a)
    else
      var left := if TrimEnd(a) == 0 then "/" else Forward(a[..TrimEnd(a)]);
      if SkipSeps(b) == |b| then if left == "/" then left else left + "/"
      else left + (if left == "/" then "" else "/") + Forward(b[SkipSeps(b)..])
  }

  // ---------- joining concatenates segments ----------

  lemma {:induction false} SegmentsForward(p: string)
    ensures Segments(Forward(p)) == Segments(p)
  {
    if p != "" {
      var n := |p| - 1;
      SegmentsForward(p[..n]);
      assert Forward(p)[..n] == Forward(p[..n]);
    }
  }

  lemma {:induction false} SegmentsTrimEnd(p: string, n: nat)
    requires n <= |p| && forall i :: n <= i < |p| ==> IsSep(p[i])
    ensures Segments(p[..n]) == Segments(p)
    decreases |p|
  {
    if n == |p| {
      assert p[..n] == p;
    } else {
      SegmentsTrimEnd(p[..|p| - 1], n);
      assert p[..|p| - 1][..n] == p[..n];
    }
  }

  lemma {:induction false} SegmentsSkip(p: string, n: nat)
    requires n <= |p| && forall i :: 0 <= i < n ==> IsSep(p[i])
    ensures Segments(p[n..]) == Segments(p)
    decreases n
  {
    if n == 0 {
      assert p[n..] == p;
    } else {
      SegmentsConcat("", p[0], p[1..]);
      assert "" + [p[0]] + p[1..] == p;
      SegmentsSkip(p[1..], n - 1);
      assert p[1..][n - 1..] == p[n..];
    }
  }

  /** The segments of a join are those of its parts; it is absolute when its first non-empty part starts
      with either separator. */
  lemma JoinConcatenates(a: string, b: string)
    ensures Segments(PathJoin(a, b)) == Segments(a) + Segments(b)
    ensures IsAbsolute(PathJoin(a, b)) <==> if a == "" then b != "" && IsSep(b[0]) else IsSep(a[0])
  {
    if a == "" {
      SegmentsForward(b);
    } else if b == "" {
      SegmentsForward(a);
    } else {
      JoinParts(a, b);
    }
  }

  lemma JoinParts(a: string, b: string)
    requires a != "" && b != ""
    ensures Segments(PathJoin(a, b)) == Segments(a) + Segments(b)
    ensures IsAbsolute(PathJoin(a, b)) <==> IsSep(a[0])
  {
    var left, right := if TrimEnd(a) == 0 then "/" else Forward(a[..TrimEnd(a)]), Forward(b[SkipSeps(b)..]);
    LeftSegments(a, left);
    RightSegments(b);
    JoinHalves(left, right);
    assert PathJoin(a, b)[0] == left[0];
  }

  lemma RightSegments(b: string)
    ensures Segments(Forward(b[SkipSeps(b)..])) == Segments(b)
    ensures SkipSeps(b) == |b| ==> Segments(b) == []
  {
    SegmentsSkip(b, SkipSeps(b));
    SegmentsForward(b[SkipSeps(b)..]);
  }

  lemma LeftSegments(a: string, left: string)
    requires a != "" && left == if TrimEnd(a) == 0 then "/" else Forward(a[..TrimEnd(a)])
    ensures Segments(left) == Segments(a) && left != "" && (IsAbsolute(left) <==> IsSep(a[0]))
    ensures left == "/" <==> TrimEnd(a) == 0
  {
    var n := TrimEnd(a);
    SegmentsTrimEnd(a, n);
    if n == 0 {
      assert a[..0] == "" && "/"[..0] == "";
    } else {
      SegmentsForward(a[..n]);
      assert !IsSep(a[n - 1]) && left[n - 1] == a[n - 1];
    }
  }

  lemma JoinHalves(left: string, right: string)
    requires left != ""
    ensures Segments(left + (if left == "/" then "" else "/") + right) == Segments(left) + Segments(right)
    ensures Segments(left + "/") == Segments(left)
  {
    SegmentsConcat(left, '/', "");
    assert left + ['/'] + "" == left + "/";
    if left == "/" {
      SegmentsConcat("", '/', right);
      assert "" + ['/'] + right == left + "" + right;
      assert left[..0] == "";
    } else {
      SegmentsConcat(left, '/', right);
    }
  }

  // ---------- relative paths ----------

  /** What `path_split` lists after the root: a relative path without parts is listed as `.`. */
  function Listed(p: string): seq<string> {
    if NormalParts(p) == [] && !IsAbsolute(p) then ["."] else NormalParts(p)
  }

  function CommonPrefix(a: seq<string>, b: seq<string>): (c: nat)
    ensures c <= |a| && c <= |b| && a[..c] == b[..c]
    ensures c < |a| && c < |b| ==> a[c] != b[c]
  {
    if a == [] || b == [] || a[0] != b[0] then 0
    else
      var c := CommonPrefix(a[1..], b[1..]);
      assert a[..c + 1] == [a[0]] + a[1..][..c] && b[..c + 1] == [b[0]] + b[1..][..c];
      c + 1
  }

  /** One `..` for each part of the base past the common prefix, then the rest of the path. */
  function RelativeParts(p: seq<string>, b: seq<string>): seq<string> {
    var c := CommonPrefix(p, b);
    Filler("..", |b| - c) + p[c..]
  }

  datatype PathError = MixedAbsoluteAndRelative

  function RelativeTo(path: string, base: string): (r: Result<string, PathError>)
    ensures r.Err? <==> IsAbsolute(path) != IsAbsolute(base)
  {
    if IsAbsolute(path) != IsAbsolute(base) then Err(MixedAbsoluteAndRelative)
    else
      var parts := RelativeParts(Listed(path), Listed(base));
      Ok(if parts == [] then "." else Joined(parts, "/"))
  }

  lemma ListedAreSegments(p: string)
    ensures AllSegments(Listed(p))
    ensures IsAbsolute(p) ==> Canonical(Listed(p), true)
    ensures !IsAbsolute(p) ==> Listed(p) == ["."] || Canonical(Listed(p), false)
  {
    NormalPartsCanonical(p);
  }

  lemma RelativeSegments(path: string, base: string)
    requires IsAbsolute(path) == IsAbsolute(base)
    ensures var parts := RelativeParts(Listed(path), Listed(base));
            var rel := RelativeTo(path, base).value;
            rel != "" && Segments(rel) == if parts == [] then ["."] else parts
  {
    ListedAreSegments(path);
    var parts := RelativeParts(Listed(path), Listed(base));
    assert AllSegments(parts);
    if parts == [] {
      assert Segments(".") == ["."] by { SegmentsRun("", "."); assert "" + "." == "."; }
    } else {
      SegmentsJoined(parts);
      JoinedStart(parts);
    }
  }

  /** The parts of the joined path: climb from the base's parts, then descend the rest of the path. */
  lemma JoinedParts(path: string, base: string)
    requires IsAbsolute(path) == IsAbsolute(base)
    ensures var abs := IsAbsolute(path);
            PushAll([], Segments(PathJoin(base, RelativeTo(path, base).value)), abs)
              == PushAll(NormalParts(base), RelativeParts(Listed(path), Listed(base)), abs)
  {
    var abs, rel := IsAbsolute(path), RelativeTo(path, base).value;
    var parts := RelativeParts(Listed(path), Listed(base));
    JoinConcatenates(base, rel);
    RelativeSegments(path, base);
    PushAllConcat([], Segments(base), Segments(rel), abs);
    if parts == [] {
      assert PushAll(NormalParts(base), ["."], abs) == PushAll(NormalParts(base), [], abs);
    }
  }

  /** Climbing out of names. */
  lemma {:induction false} ClimbNames(stack: seq<string>, n: nat, abs: bool)
    requires n <= |stack| && forall i :: |stack| - n <= i < |stack| ==> stack[i] != ".."
    ensures PushAll(stack, Filler("..", n), abs) == stack[..|stack| - n]
    decreases n
  {
    if n == 0 {
      assert stack[..|stack|] == stack;
    } else {
      ClimbNames(stack, n - 1, abs);
      assert Filler("..", n)[..n - 1] == Filler("..", n - 1);
    }
  }

  /** Climbing on from a stack of nothing but `..`. */
  lemma {:induction false} ClimbUps(k: nat, n: nat)
    ensures PushAll(Filler("..", k), Filler("..", n), false) == Filler("..", k + n)
    decreases n
  {
    if n == 0 {
    } else {
      ClimbUps(k, n - 1);
      assert Filler("..", n)[..n - 1] == Filler("..", n - 1);
      assert Filler("..", k + n) == Filler("..", k + n - 1) + [".."];
    }
  }

  lemma FillerSplits(x: string, m: nat, n: nat)
    ensures Filler(x, m + n) == Filler(x, m) + Filler(x, n)
  {
  }

  /** From the common prefix, the rest of a canonical stack rebuilds it. */
  lemma RestRebuilds(parts: seq<string>, c: nat, abs: bool)
    requires Canonical(parts, abs) && c <= |parts|
    ensures PushAll(parts[..c], parts[c..], abs) == parts
  {
    CanonicalIsFixed(parts, abs);
    CanonicalPrefix(parts, c, abs);
    CanonicalIsFixed(parts[..c], abs);
    PushAllConcat([], parts[..c], parts[c..], abs);
    assert parts[..c] + parts[c..] == parts;
  }

  lemma CanonicalPrefix(parts: seq<string>, c: nat, abs: bool)
    requires Canonical(parts, abs) && c <= |parts|
    ensures Canonical(parts[..c], abs)
  {
    var head := parts[..c];
    assert forall i :: 0 <= i < c ==> head[i] == parts[i];
  }

  /** Climbing the base down to the common prefix and descending again reaches the path. */
  lemma ClimbThenDescend(p: seq<string>, b: seq<string>, abs: bool)
    requires Canonical(p, abs) && Canonical(b, abs)
    requires forall i :: CommonPrefix(p, b) <= i < |b| ==> b[i] != ".."
    ensures PushAll(b, RelativeParts(p, b), abs) == p
  {
    var c := CommonPrefix(p, b);
    PushAllConcat(b, Filler("..", |b| - c), p[c..], abs);
    ClimbNames(b, |b| - c, abs);
    RestRebuilds(p, c, abs);
  }

  /** For absolute paths, following the relative path from the base always leads back to the path. */
  lemma AbsoluteRoundTrip(path: string, base: string)
    requires IsAbsolute(path) && IsAbsolute(base)
    ensures Normalize(PathJoin(base, RelativeTo(path, base).value)) == Normalize(path)
  {
    JoinedParts(path, base);
    JoinConcatenates(base, RelativeTo(path, base).value);
    ListedAreSegments(path);
    ListedAreSegments(base);
    ClimbThenDescend(NormalParts(path), NormalParts(base), true);
  }

  /** No `.` or `..` among the parts of the base that must be climbed out of. */
  predicate Climbable(path: string, base: string) {
    var p, b := Listed(path), Listed(base);
    forall i :: CommonPrefix(p, b) <= i < |b| ==> b[i] != "." && b[i] != ".."
  }

  /** Climbing past all the names of a relative stack piles up `..`. */
  lemma ClimbInTwo(b: seq<string>, k: nat, m: nat, extra: nat)
    requires |b| == k + m && forall i :: 0 <= i < |b| ==> (b[i] == ".." <==> i < k)
    ensures PushAll(b, Filler("..", m + extra), false) == Filler("..", k + extra)
  {
    FillerSplits("..", m, extra);
    PushAllConcat(b, Filler("..", m), Filler("..", extra), false);
    ClimbNames(b, m, false);
    assert b[..k] == Filler("..", k);
    ClimbUps(k, extra);
  }

  /** A canonical stack pushed on top of `..`s keeps them all. */
  lemma PushOnUps(k: nat, parts: seq<string>)
    requires Canonical(parts, false)
    ensures PushAll(Filler("..", k), parts, false) == Filler("..", k) + parts
  {
    var whole := Filler("..", k) + parts;
    assert Canonical(whole, false) by {
      assert forall i :: 0 <= i < |whole| ==> whole[i] == if i < k then ".." else parts[i - k];
      assert IsSegment("..");
    }
    RestRebuilds(whole, k, false);
    assert whole[..k] == Filler("..", k) && whole[k..] == parts;
  }

  /** A base that must be climbed past its own `..` leads too high. */
  lemma ClimbsTooHigh(p: seq<string>, b: seq<string>)
    requires Canonical(p, false) && Canonical(b, false) && CommonPrefix(p, b) < Ups(b)
    ensures |PushAll(b, RelativeParts(p, b), false)| > |p|
  {
    UpsArePrefix(b, false);
    ClimbsTooHighFrom(p, b, CommonPrefix(p, b));
  }

  lemma ClimbsTooHighFrom(p: seq<string>, b: seq<string>, c: nat)
    requires Canonical(p, false) && Canonical(b, false) && c <= |p| && c < Ups(b) && (c < |p| ==> p[c] != b[c])
    ensures |PushAll(b, Filler("..", |b| - c) + p[c..], false)| > |p|
  {
    var k := Ups(b);
    UpsArePrefix(b, false);
    NamesAreCanonical(p, c);
    ClimbTwice(b, p[c..], k, |b| - k, k - c);
  }

  lemma ClimbTwice(b: seq<string>, names: seq<string>, k: nat, m: nat, extra: nat)
    requires |b| == k + m && forall i :: 0 <= i < |b| ==> (b[i] == ".." <==> i < k)
    requires Canonical(names, false)
    ensures PushAll(b, Filler("..", m + extra) + names, false) == Filler("..", k + extra) + names
  {
    ClimbInTwo(b, k, m, extra);
    PushOnUps(k + extra, names);
    PushAfter(b, Filler("..", m + extra), names, Filler("..", k + extra));
  }

  lemma PushAfter(b: seq<string>, ups: seq<string>, names: seq<string>, top: seq<string>)
    requires PushAll(b, ups, false) == top && PushAll(top, names, false) == top + names
    ensures PushAll(b, ups + names, false) == top + names
  {
    PushAllConcat(b, ups, names, false);
  }

  lemma NamesAreCanonical(p: seq<string>, c: nat)
    requires Canonical(p, false) && c <= |p| && (c < |p| ==> p[c] != "..")
    ensures Canonical(p[c..], false)
  {
    UpsArePrefix(p, false);
    var r := p[c..];
    assert forall i :: 0 <= i < |r| ==> r[i] == p[c + i];
  }

  /** Where the joined path leads when base and path are both relative and the base has parts. */
  lemma FromNamedBase(path: string, base: string)
    requires !IsAbsolute(path) && !IsAbsolute(base) && NormalParts(base) != []
    ensures PushAll(NormalParts(base), RelativeParts(Listed(path), Listed(base)), false) == NormalParts(path)
            <==> Climbable(path, base)
  {
    var p, b := NormalParts(path), NormalParts(base);
    NormalPartsCanonical(path);
    NormalPartsCanonical(base);
    UpsArePrefix(b, false);
    var c := CommonPrefix(Listed(path), b);
    assert Listed(base) == b;
    if c < Ups(b) { assert b[c] == ".." && !Climbable(path, base); }
    if p == [] {
      assert Listed(path) == ["."] && c == 0;
      FromDot(b);
    } else if Ups(b) <= c {
      ClimbThenDescend(p, b, false);
    } else {
      ClimbsTooHigh(p, b);
    }
  }

  lemma FromDot(b: seq<string>)
    requires Canonical(b, false) && b != [] && CommonPrefix(["."], b) == 0
    ensures PushAll(b, RelativeParts(["."], b), false) == [] <==> Ups(b) == 0
  {
    var up := Filler("..", |b|);
    assert RelativeParts(["."], b) == up + ["."];
    PushAllConcat(b, up, ["."], false);
    assert PushAll(PushAll(b, up, false), ["."], false) == PushAll(b, up, false);
    UpsArePrefix(b, false);
    ClimbInTwo(b, Ups(b), |b| - Ups(b), Ups(b));
  }

  /** From the bare `.`, everything but `.` itself is reached one level too high. */
  lemma FromDotBase(path: string, base: string)
    requires !IsAbsolute(path) && !IsAbsolute(base) && NormalParts(base) == []
    ensures PushAll([], RelativeParts(Listed(path), Listed(base)), false) == NormalParts(path)
            <==> Climbable(path, base)
  {
    var p := NormalParts(path);
    NormalPartsCanonical(path);
    if p != [] {
      assert Listed(path) == p && p[0] != "." && CommonPrefix(p, ["."]) == 0;
      DotBaseClimbs(p);
    }
  }

  lemma DotBaseClimbs(p: seq<string>)
    requires Canonical(p, false) && p != []
    ensures PushAll([], RelativeParts(p, ["."]), false) == Filler("..", 1) + p
  {
    assert p[0] != ".";
    var up := Filler("..", 1);
    assert RelativeParts(p, ["."]) == up + p;
    PushOnUps(1, p);
    PushAllConcat([], up, p, false);
    ClimbUps(0, 1);
    assert Filler("..", 0) == [];
  }

  /** For relative paths, following the relative path from the base leads back exactly when the base does
      not start with a backslash (which joining turns into a root) and the parts to climb are names. */
  lemma RelativeRoundTrip(path: string, base: string)
    requires !IsAbsolute(path) && !IsAbsolute(base)
    ensures Normalize(PathJoin(base, RelativeTo(path, base).value)) == Normalize(path)
            <==> (base == "" || base[0] != '\\') && Climbable(path, base)
  {
    var rel := RelativeTo(path, base).value;
    var joined := PathJoin(base, rel);
    JoinConcatenates(base, rel);
    NormalizeIsCanonical(path);
    NormalizeIsCanonical(joined);
    if base != "" && base[0] == '\\' {
      assert IsAbsolute(joined);
    } else {
      RelativeStart(path, base);
      JoinedParts(path, base);
      if NormalParts(base) == [] { FromDotBase(path, base); } else { FromNamedBase(path, base); }
    }
  }

  lemma RelativeStart(path: string, base: string)
    requires !IsAbsolute(path) && !IsAbsolute(base)
    ensures var rel := RelativeTo(path, base).value; rel != "" && !IsSep(rel[0])
  {
    ListedAreSegments(path);
    var parts := RelativeParts(Listed(path), Listed(base));
    assert IsSegment("..") && AllSegments(parts);
    if parts != [] { JoinedStart(parts); }
  }

  /** `a` relative to `.` is printed as `../a`, which from `.` is not `a`. */
  lemma DotBaseFails()
    ensures RelativeTo("a", ".") == Ok("../a")
    ensures Normalize(PathJoin(".", "../a")) != Normalize("a")
  {
    assert Segments("a") == ["a"] by { SegmentsRun("", "a"); assert "" + "a" == "a"; }
    assert Segments(".") == ["."] by { SegmentsRun("", "."); assert "" + "." == "."; }
    assert NormalParts("a") == ["a"] && Listed("a") == ["a"];
    assert NormalParts(".") == [] && Listed(".") == ["."];
    assert RelativeParts(["a"], ["."]) == ["..", "a"];
    assert Joined(["..", "a"], "/") == ".." + "/" + Joined(["a"], "/") == "../a";
    RelativeRoundTrip("a", ".");
    assert !Climbable("a", ".") by { assert Listed(".")[0] == "."; }
  }

  // ---------- the texts ----------

  /** Joining puts exactly one slash between the two parts, whatever separators stood there. */
  lemma JoinText(a: string, b: string)
    requires a != "" && b != ""
    ensures PathJoin(a, b) == Forward(a[..TrimEnd(a)]) + "/" + Forward(b[SkipSeps(b)..])
    ensures PathJoin("", b) == Forward(b) && PathJoin(a, "") == Forward(a)
  {
    var left, right := Forward(a[..TrimEnd(a)]), Forward(b[SkipSeps(b)..]);
    SlashGlue(left, right);
    if TrimEnd(a) > 0 {
      assert left[TrimEnd(a) - 1] == a[TrimEnd(a) - 1];
    } else {
      assert left == "";
    }
    if SkipSeps(b) == |b| { assert right == ""; }
  }

  /** The ways in which a slash between two parts is written. */
  lemma SlashGlue(left: string, right: string)
    ensures "" + "/" + right == "/" + "" + right
    ensures right == "" ==> left + "/" + right == left + "/" && "" + "/" + right == "/"
  {
  }

  /** A relative path is tidy and starts with a part. */
  lemma RelativeText(path: string, base: string)
    requires IsAbsolute(path) == IsAbsolute(base)
    ensures var r := RelativeTo(path, base).value; Tidy(r) && r[0] != '/'
  {
    var parts := RelativeParts(Listed(path), Listed(base));
    ListedAreSegments(path);
    if parts != [] {
      assert IsSegment("..") && AllSegments(parts);
      JoinedIsTidy(parts);
    }
  }

  /** Joining a segment to a tidy path. */
  lemma AppendSegment(a: string, seg: string)
    requires Tidy(a) && IsSegment(seg)
    ensures PathJoin(a, seg) == if a == "/" then "/" + seg else a + "/" + seg
  {
    JoinText(a, seg);
    assert !IsSep(seg[0]) && SkipSeps(seg) == 0 && seg[0..] == seg && Forward(seg) == seg;
    if a == "/" {
      assert TrimEnd(a) == 0 && a[..0] == "" && Forward("") == "" && "" + "/" + seg == "/" + seg;
    } else {
      assert TrimEnd(a) == |a| && a[..|a|] == a && Forward(a) == a;
    }
  }

  /** Joining a list of parts one after the other. */
  function JoinAll(parts: seq<string>): string {
    if parts == [] then "" else PathJoin(JoinAll(parts[..|parts| - 1]), parts[|parts| - 1])
  }

  lemma JoinAllSnoc(parts: seq<string>, part: string)
    ensures JoinAll(parts + [part]) == PathJoin(JoinAll(parts), part)
  {
    assert (parts + [part])[..|parts|] == parts;
  }

  lemma {:induction false} JoinAllRelative(parts: seq<string>)
    requires parts != [] && AllSegments(parts)
    ensures JoinAll(parts) == Joined(parts, "/")
    decreases |parts|
  {
    var n := |parts| - 1;
    assert parts == parts[..n] + [parts[n]] && IsSegment(parts[n]);
    JoinAllSnoc(parts[..n], parts[n]);
    JoinedSnoc(parts[..n], parts[n], "/");
    if n == 0 {
      assert Forward(parts[0]) == parts[0];
    } else {
      JoinAllRelative(parts[..n]);
      JoinedIsTidy(parts[..n]);
      AppendSegment(Joined(parts[..n], "/"), parts[n]);
    }
  }

  /** One more part behind an absolute path. */
  lemma JoinAbsoluteSnoc(parts: seq<string>, part: string)
    requires AllSegments(parts) && IsSegment(part)
    requires JoinAll(["/"] + parts) == "/" + Joined(parts, "/")
    ensures JoinAll(["/"] + parts + [part]) == "/" + Joined(parts + [part], "/")
  {
    var text := Joined(parts, "/");
    JoinAllSnoc(["/"] + parts, part);
    JoinedSnoc(parts, part, "/");
    if parts == [] {
      assert text == "" && "/" + text == "/";
      AppendSegment("/", part);
    } else {
      JoinedIsTidy(parts);
      SlashBefore(text);
      AppendSegment("/" + text, part);
      Prefixed("/", text, part);
    }
  }

  lemma Prefixed(a: string, b: string, c: string)
    ensures a + b + "/" + c == a + (b + "/" + c)
  {
  }

  lemma LastPart(parts: seq<string>, front: seq<string>, last: string)
    requires parts != [] && front == parts[..|parts| - 1] && last == parts[|parts| - 1]
    ensures front + [last] == parts && ["/"] + front + [last] == ["/"] + parts
    ensures AllSegments(parts) ==> AllSegments(front) && IsSegment(last)
  {
  }

  lemma JoinAllRoot()
    ensures JoinAll(["/"]) == "/"
  {
    assert ["/"][..0] == [] && JoinAll([]) == "" && Forward("/") == "/";
  }

  lemma {:induction false} JoinAllAbsolute(parts: seq<string>)
    requires AllSegments(parts)
    ensures JoinAll(["/"] + parts) == "/" + Joined(parts, "/")
    decreases |parts|
  {
    if parts == [] {
      assert ["/"] + parts == ["/"];
      JoinAllRoot();
    } else {
      var front, last := parts[..|parts| - 1], parts[|parts| - 1];
      LastPart(parts, front, last);
      JoinAllAbsolute(front);
      JoinAbsoluteSnoc(front, last);
    }
  }

  // ---------- no shorter way ----------

  lemma CommonPrefixIsMost(a: seq<string>, b: seq<string>, m: nat)
    requires m <= |a| && m <= |b| && a[..m] == b[..m]
    ensures m <= CommonPrefix(a, b)
  {
    assert forall i :: 0 <= i < m ==> a[..m][i] == a[i] && b[..m][i] == b[i];
  }

  lemma {:induction false} WeightConcat(a: seq<string>, b: seq<string>)
    ensures Weight(a + b) == Weight(a) + Weight(b)
    decreases |b|
  {
    if b == [] {
      assert a + b == a;
    } else {
      var n := |b| - 1;
      WeightConcat(a, b[..n]);
      assert a + b == (a + b[..n]) + [b[n]];
      WeightSnoc(a + b[..n], b[n]);
    }
  }

  lemma {:induction false} UpsWeight(n: nat)
    ensures Weight(Filler("..", n)) == 3 * n
  {
    if n > 0 {
      UpsWeight(n - 1);
      assert Filler("..", n) == Filler("..", n - 1) + [".."];
      WeightSnoc(Filler("..", n - 1), "..");
    }
  }

  lemma SuffixWeight(parts: seq<string>, i: nat, j: nat)
    requires i <= j <= |parts|
    ensures Weight(parts[j..]) <= Weight(parts[i..])
  {
    assert parts[i..] == parts[i..j] + parts[j..];
    WeightConcat(parts[i..j], parts[j..]);
  }

  /** Any climb and descent from `b` to `p` leaves at least the parts of `b` behind that are not shared. */
  lemma ClimbsAtLeast(p: seq<string>, b: seq<string>, k: nat, names: seq<string>)
    requires Above(b, k) + names == p
    ensures |b| - CommonPrefix(p, b) <= k && Weight(p[CommonPrefix(p, b)..]) <= Weight(names)
  {
    var c := CommonPrefix(p, b);
    if k <= |b| {
      var m := |b| - k;
      assert p[..m] == b[..m] && p[m..] == names;
      CommonPrefixIsMost(p, b, m);
      SuffixWeight(p, m, c);
    } else {
      assert p[0..] == names;
      SuffixWeight(p, 0, c);
    }
  }

  lemma CanonicalWeight(parts: seq<string>)
    requires Canonical(parts, false)
    ensures Weight(parts) == 3 * Ups(parts) + Weight(parts[Ups(parts)..])
  {
    var k := Ups(parts);
    UpsArePrefix(parts, false);
    assert parts[..k] == Filler("..", k) && parts == parts[..k] + parts[k..];
    WeightConcat(parts[..k], parts[k..]);
    UpsWeight(k);
  }

  lemma RelativePartsWeight(p: seq<string>, b: seq<string>)
    ensures Weight(RelativeParts(p, b)) == 3 * (|b| - CommonPrefix(p, b)) + Weight(p[CommonPrefix(p, b)..])
  {
    var c := CommonPrefix(p, b);
    WeightConcat(Filler("..", |b| - c), p[c..]);
    UpsWeight(|b| - c);
  }

  lemma RelativeWeight(p: seq<string>, b: seq<string>, q: seq<string>)
    requires Canonical(q, false) && Walk(b, q) == p
    ensures Weight(RelativeParts(p, b)) <= Weight(q)
  {
    WalkCanonical(b, q, false);
    ClimbsAtLeast(p, b, Ups(q), q[Ups(q)..]);
    CanonicalWeight(q);
    RelativePartsWeight(p, b);
  }

  lemma NormalWalk(dir: seq<string>, p: string)
    requires IsAbsolute(p) ==> dir == []
    ensures Walk(dir, NormalParts(p)) == Walk(dir, Segments(p)) == Resolve(dir, p)
  {
    SegmentsAreSegments(p);
    WalkPushAll(dir, Segments(p), IsAbsolute(p));
  }

  lemma AbsoluteParts(p: string)
    requires IsAbsolute(p)
    ensures Resolve([], p) == NormalParts(p) && Listed(p) == NormalParts(p)
  {
    NormalWalk([], p);
    NormalPartsCanonical(p);
    AbsoluteIsItself(NormalParts(p));
  }

  /** The text of parts, with a dot for none. */
  function DotOr(parts: seq<string>): string {
    if parts == [] then "." else Joined(parts, "/")
  }

  lemma LighterIsShorter(parts: seq<string>, other: seq<string>)
    requires Weight(parts) <= Weight(other) && AllSegments(other)
    ensures |DotOr(parts)| <= |DotOr(other)|
  {
    if parts != [] { JoinedWeight(parts); }
    if other != [] {
      JoinedWeight(other);
      assert IsSegment(other[|other| - 1]);
    }
  }

  /** From the directory of an absolute base, no relative path that leads to the absolute path is shorter than
      the one that is given. */
  lemma RelativeIsShortest(path: string, base: string, q: string)
    requires IsAbsolute(path) && IsAbsolute(base) && q != "" && !IsAbsolute(q)
    requires Resolve(Resolve([], base), q) == Resolve([], path)
    ensures |RelativeTo(path, base).value| <= |q|
  {
    AbsoluteParts(path);
    AbsoluteParts(base);
    NormalPartsCanonical(q);
    NormalWalk(NormalParts(base), q);
    RelativeWeight(NormalParts(path), NormalParts(base), NormalParts(q));
    LighterIsShorter(RelativeParts(NormalParts(path), NormalParts(base)), NormalParts(q));
    NormalIsNoLonger(q);
    assert Normalize(q) == DotOr(NormalParts(q));
  }

  lemma {:induction false} WalkConcat(dir: seq<string>, a: seq<string>, b: seq<string>)
    ensures Walk(dir, a + b) == Walk(Walk(dir, a), b)
    decreases |b|
  {
    if b == [] {
      assert a + b == a;
    } else {
      var n := |b| - 1;
      WalkConcat(dir, a, b[..n]);
      assert a + b == (a + b[..n]) + [b[n]];
      WalkSnoc(dir, a + b[..n], b[n]);
    }
  }

  /** From the directory of an absolute base, the relative path leads to the absolute path. */
  lemma RelativeLeads(path: string, base: string)
    requires IsAbsolute(path) && IsAbsolute(base)
    ensures Resolve(Resolve([], base), RelativeTo(path, base).value) == Resolve([], path)
  {
    var rel := RelativeTo(path, base).value;
    AbsoluteRoundTrip(path, base);
    NormalFormDecidesMeaning(PathJoin(base, rel), path);
    JoinConcatenates(base, rel);
    WalkConcat([], Segments(base), Segments(rel));
    RelativeText(path, base);
  }
}
