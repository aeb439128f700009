/** The regex drivers over an abstract engine: finding all matches, splitting and replacing. */
module Regex {
  import opened Options
  import opened FluxusVector
  import opened Texts

  /** What the engine reports about a text: the first match, as offsets into that text. */
  datatype Span = Span(so: int, eo: int)

  /** The engine, called on a suffix of the subject. */
  type Engine = string -> Option<Span>

  /** The engine never reports a match that ends beyond its text. */
  ghost predicate InText(m: Engine) {
    forall s :: m(s).Some? ==> m(s).value.eo <= |s|
  }

  /** A match met by the scan: where the scan stood, and the match in the subject. */
  datatype Hit = Hit(offset: nat, start: nat, end: nat)

  predicate IsEmpty(h: Hit) {
    h.start == h.end
  }

  /** One engine call at `offset`; a malformed report ends the scan like no match. */
  function Next(m: Engine, text: string, offset: nat): (r: Option<Hit>)
    requires InText(m) && offset <= |text|
    ensures r.Some? ==> r.value.offset == offset <= r.value.start <= r.value.end <= |text|
  {
    match m(text[offset..])
    case None => None
    case Some(span) =>
      if span.so < 0 || span.eo < span.so then None else Some(Hit(offset, offset + span.so, offset + span.eo))
  }

  /** Where the scan goes on: past the match, or one character on when it is empty; an empty match at the
      end is the last. */
  function After(text: string, h: Hit): Option<nat> {
    if !IsEmpty(h) then Some(h.end)
    else if h.offset == |text| then None
    else Some(h.offset + 1)
  }

  /** The matches the scan meets from `offset` on. */
  function Hits(m: Engine, text: string, offset: nat): (hits: seq<Hit>)
    requires InText(m) && offset <= |text|
    ensures forall i :: 0 <= i < |hits| ==> offset <= hits[i].offset <= hits[i].start <= hits[i].end <= |text|
    ensures |hits| <= |text| - offset + 1
    decreases |text| - offset
  {
    var next := Next(m, text, offset);
    if next.None? then []
    else
      var after := After(text, next.value);
      if after.None? then [next.value] else [next.value] + Hits(m, text, after.value)
  }

  function Matches(m: Engine, text: string, offset: nat): (found: seq<string>)
    requires InText(m) && offset <= |text|
    ensures |found| == |Hits(m, text, offset)|
    decreases |text| - offset
  {
    var next := Next(m, text, offset);
    if next.None? then []
    else
      var h := next.value;
      var after := After(text, h);
      [text[h.start..h.end]] + if after.None? then [] else Matches(m, text, after.value)
  }

  function SplitFrom(m: Engine, text: string, offset: nat): (pieces: seq<string>)
    requires InText(m) && offset <= |text|
    ensures |pieces| == |Hits(m, text, offset)| + 1
    decreases |text| - offset
  {
    var next := Next(m, text, offset);
    if next.None? then [text[offset..]]
    else
      var h := next.value;
      var after := After(text, h);
      [text[offset..h.start]] + if after.None? then [text[offset..]] else SplitFrom(m, text, after.value)
  }

  function ReplaceFrom(m: Engine, text: string, rep: string, all: bool, offset: nat): string
    requires InText(m) && offset <= |text|
    decreases |text| - offset
  {
    var next := Next(m, text, offset);
    if next.None? then text[offset..]
    else
      var h := next.value;
      var head := text[offset..h.start] + rep;
      if !all then head + text[h.end..]
      else if !IsEmpty(h) then head + ReplaceFrom(m, text, rep, all, h.end)
      else if offset == |text| then head
      else head + [text[offset]] + ReplaceFrom(m, text, rep, all, offset + 1)
  }

  // ---------- the loops ----------

  method FindAll(handle: Option<Engine>, text: string) returns (out: Fluxus<string>)
    requires handle.Some? ==> InText(handle.value)
    ensures out.Valid() && fresh(out.Repr)
    ensures out.Contents() == if handle.None? then [] else Matches(handle.value, text, 0)
  {
    out := new Fluxus();
    if handle.None? { return; }
    var m, offset := handle.value, 0;
    while offset <= |text|
      invariant offset <= |text| && out.Valid() && fresh(out.Repr)
      invariant out.Contents() + Matches(m, text, offset) == Matches(m, text, 0)
      decreases |text| - offset
    {
      var next := Next(m, text, offset);
      if next.None? { break; }
      var h := next.value;
      ghost var had := out.Contents();
      out.Push(text[h.start..h.end]);
      if IsEmpty(h) {
        if offset == |text| { break; }
        offset := offset + 1;
      } else {
        offset := h.end;
      }
      Regroup(had, text[h.start..h.end], Matches(m, text, offset));
    }
  }

  lemma Regroup<T>(a: seq<T>, x: T, b: seq<T>)
    ensures (a + [x]) + b == a + ([x] + b)
  {
  }

  method Split(handle: Option<Engine>, text: string) returns (out: Fluxus<string>)
    requires handle.Some? ==> InText(handle.value)
    ensures out.Valid() && fresh(out.Repr)
    ensures out.Contents() == if handle.None? then [text] else SplitFrom(handle.value, text, 0)
  {
    out := new Fluxus();
    if handle.None? { out.Push(text); return; }
    SplitLoop(handle.value, text, out);
  }

  method SplitLoop(m: Engine, text: string, out: Fluxus<string>)
    requires InText(m) && out.Valid() && out.Contents() == []
    modifies out.Repr
    ensures out.Valid() && fresh(out.Repr - old(out.Repr)) && out.Contents() == SplitFrom(m, text, 0)
  {
    var offset := 0;
    while offset <= |text|
      invariant offset <= |text| && out.Valid() && fresh(out.Repr - old(out.Repr))
      invariant out.Contents() + SplitFrom(m, text, offset) == SplitFrom(m, text, 0)
      decreases |text| - offset
    {
      var next := Next(m, text, offset);
      if next.None? { break; }
      var h := next.value;
      ghost var had := out.Contents();
      out.Push(text[offset..h.start]);
      if IsEmpty(h) {
        if offset == |text| { Regroup(had, text[offset..h.start], [text[offset..]]); break; }
        offset := offset + 1;
      } else {
        offset := h.end;
      }
      Regroup(had, text[h.offset..h.start], SplitFrom(m, text, offset));
    }
    out.Push(text[offset..]);
  }

  /** Doubles the buffer until `need` fits. */
  method Grow(buf: array<char>, used: nat, need: nat) returns (out: array<char>)
    requires used <= buf.Length && buf.Length > 0
    ensures need <= out.Length && used <= out.Length && out[..used] == buf[..used]
    ensures out == buf || fresh(out)
  {
    out := buf;
    while need > out.Length
      invariant 0 < out.Length && used <= out.Length && out[..used] == buf[..used]
      invariant out == buf || fresh(out)
      decreases need - out.Length
    {
      var bigger := new char[2 * out.Length];
      forall k | 0 <= k < used { bigger[k] := out[k]; }
      assert bigger[..used] == out[..used];
      out := bigger;
    }
  }

  /** Appends two stretches to the text so far, growing the buffer first so that both and a terminator fit. */
  method Append(buf: array<char>, used: nat, prefix: string, rep: string) returns (out: array<char>, w: nat)
    requires used <= buf.Length && buf.Length > 0
    modifies buf
    ensures w == used + |prefix| + |rep| < out.Length && out[..w] == old(buf[..used]) + prefix + rep
    ensures out == buf || fresh(out)
  {
    out := Grow(buf, used, used + |prefix| + |rep| + 1);
    CopyInto(out, used, prefix);
    CopyInto(out, used + |prefix|, rep);
    w := used + |prefix| + |rep|;
  }

  /** What is still to be written when the scan stands at `offset`, or has stopped there. */
  function Pending(m: Engine, text: string, rep: string, all: bool, offset: nat, stopped: bool): string
    requires InText(m) && offset <= |text|
  {
    if stopped then text[offset..] else ReplaceFrom(m, text, rep, all, offset)
  }

  /** One match: what precedes it, the replacement, and after an empty match the character under the scan. */
  method ReplaceTurn(m: Engine, text: string, rep: string, all: bool, h: Hit, buf: array<char>, used: nat)
    returns (out: array<char>, w: nat, offset: nat, stopped: bool)
    requires InText(m) && h.offset <= |text| && Next(m, text, h.offset) == Some(h)
    requires used <= buf.Length && buf.Length > 0
    modifies buf
    ensures w < out.Length && (out == buf || fresh(out))
    ensures h.offset <= offset <= |text| && (stopped || h.offset < offset)
    ensures out[..w] + Pending(m, text, rep, all, offset, stopped)
            == old(buf[..used]) + ReplaceFrom(m, text, rep, all, h.offset)
  {
    ghost var had := buf[..used];
    out, w := Append(buf, used, text[h.offset..h.start], rep);
    if !all {
      ThreeParts(had, text[h.offset..h.start], rep, text[h.end..]);
      return out, w, h.end, true;
    }
    if !IsEmpty(h) {
      ThreeParts(had, text[h.offset..h.start], rep, ReplaceFrom(m, text, rep, all, h.end));
      return out, w, h.end, false;
    }
    if h.offset == |text| {
      ThreeParts(had, text[h.offset..h.start], rep, []);
      return out, w, h.offset, true;
    }
    out, w := AppendOne(out, w, text[h.offset]);
    offset, stopped := h.offset + 1, false;
    FourParts(had, text[h.offset..h.start], rep, [text[h.offset]], ReplaceFrom(m, text, rep, all, offset));
  }

  method AppendOne(buf: array<char>, used: nat, ch: char) returns (out: array<char>, w: nat)
    requires used < buf.Length
    modifies buf
    ensures w == used + 1 < out.Length && out[..w] == old(buf[..used]) + [ch]
    ensures out == buf || fresh(out)
  {
    out := Grow(buf, used, used + 2);
    out[used] := ch;
    w := used + 1;
  }

  lemma ThreeParts(a: string, b: string, c: string, d: string)
    ensures a + b + c + d == a + (b + c + d)
  {
  }

  lemma FourParts(a: string, b: string, c: string, d: string, e: string)
    ensures a + b + c + d + e == a + (b + c + d + e)
  {
  }

  method Replace(handle: Option<Engine>, text: string, rep: string, all: bool) returns (r: string)
    requires handle.Some? ==> InText(handle.value)
    ensures r == if handle.None? then text else ReplaceFrom(handle.value, text, rep, all, 0)
  {
    if handle.None? { return text; }
    var m := handle.value;
    var buf, w: nat, offset: nat := new char[|text| + |rep| + 16], 0, 0;
    while offset <= |text|
      invariant offset <= |text| && w < buf.Length && fresh(buf)
      invariant buf[..w] + ReplaceFrom(m, text, rep, all, offset) == ReplaceFrom(m, text, rep, all, 0)
      decreases |text| - offset
    {
      var next := Next(m, text, offset);
      if next.None? { break; }
      var stopped;
      buf, w, offset, stopped := ReplaceTurn(m, text, rep, all, next.value, buf, w);
      if stopped { break; }
    }
    if offset < |text| {
      buf, w := Append(buf, w, text[offset..], "");
    }
    r := buf[..w];
  }

  // ---------- finding and splitting ----------

  /** The i-th match found is the i-th hit; the i-th piece reaches from the scan to that hit. */
  lemma {:induction false} FoundAndSplitAtHits(m: Engine, text: string, offset: nat, i: nat)
    requires InText(m) && offset <= |text| && i < |Hits(m, text, offset)|
    ensures var h := Hits(m, text, offset)[i];
            && Matches(m, text, offset)[i] == text[h.start..h.end]
            && SplitFrom(m, text, offset)[i] == text[h.offset..h.start]
    decreases |text| - offset
  {
    var after := After(text, Next(m, text, offset).value);
    if i > 0 && after.Some? { FoundAndSplitAtHits(m, text, after.value, i - 1); }
  }

  /** The scan stops at `offset`: the engine reports nothing there, or something that is not a span. */
  predicate StopsAt(m: Engine, text: string, offset: nat)
    requires offset <= |text|
  {
    m(text[offset..]).None? || m(text[offset..]).value.so < 0 || m(text[offset..]).value.eo < m(text[offset..]).value.so
  }

  /** A hit is exactly what the engine reports for the suffix under the scan. */
  predicate IsReport(m: Engine, text: string, h: Hit) {
    h.offset <= h.start <= h.end <= |text| && m(text[h.offset..]) == Some(Span(h.start - h.offset, h.end - h.offset))
  }

  /** From one hit the scan goes to the next: past the match, or one character on after an empty one. */
  predicate GoesOn(h: Hit, next: nat) {
    next == if h.start < h.end then h.end else h.offset + 1
  }

  /** The hits are the engine's reports, each where the one before sends the scan; the scan ends on no report, on
      a malformed one, or on an empty match at the end of the text. */
  ghost predicate IsScan(m: Engine, text: string, offset: nat, hits: seq<Hit>)
    requires offset <= |text|
  {
    && (forall i :: 0 <= i < |hits| ==> IsReport(m, text, hits[i]))
    && (hits == [] ==> StopsAt(m, text, offset))
    && (hits != [] ==> hits[0].offset == offset)
    && (forall i :: 0 < i < |hits| ==> GoesOn(hits[i - 1], hits[i].offset))
    && (hits != [] ==>
          var last := hits[|hits| - 1];
          || (last.offset == last.start == last.end == |text|)
          || exists next :: 0 <= next <= |text| && GoesOn(last, next) && StopsAt(m, text, next))
  }

  lemma {:induction false} HitsAreTheScan(m: Engine, text: string, offset: nat)
    requires InText(m) && offset <= |text|
    ensures IsScan(m, text, offset, Hits(m, text, offset))
    decreases |text| - offset
  {
    var next := Next(m, text, offset);
    if next.Some? {
      var h := next.value;
      var after := After(text, h);
      assert IsReport(m, text, h);
      if after.Some? {
        HitsAreTheScan(m, text, after.value);
        ScanCons(m, text, h, after.value, Hits(m, text, after.value));
      }
    }
  }

  lemma ScanCons(m: Engine, text: string, h: Hit, next: nat, rest: seq<Hit>)
    requires next <= |text| && h.offset <= |text|
    requires IsReport(m, text, h) && GoesOn(h, next) && IsScan(m, text, next, rest)
    ensures IsScan(m, text, h.offset, [h] + rest)
  {
    var hits := [h] + rest;
    forall i | 0 < i < |hits| ensures GoesOn(hits[i - 1], hits[i].offset) {
      assert hits[i] == rest[i - 1];
      if i > 1 { assert hits[i - 1] == rest[i - 2]; }
    }
    if rest != [] { assert hits[|hits| - 1] == rest[|rest| - 1]; }
  }

  /** Every such list is the list of hits: reports, steps and ending leave no choice. */
  lemma {:induction false} ScanIsTheHits(m: Engine, text: string, offset: nat, hits: seq<Hit>)
    requires InText(m) && offset <= |text| && IsScan(m, text, offset, hits)
    ensures hits == Hits(m, text, offset)
    decreases |hits|
  {
    if hits != [] {
      var h := hits[0];
      assert IsReport(m, text, h) && Next(m, text, offset) == Some(h);
      if |hits| > 1 {
        ScanTail(m, text, offset, hits);
        ScanIsTheHits(m, text, hits[1].offset, hits[1..]);
        assert hits == [h] + hits[1..];
      } else {
        assert hits == [h];
      }
    }
  }

  lemma ScanTail(m: Engine, text: string, offset: nat, hits: seq<Hit>)
    requires InText(m) && offset <= |text| && IsScan(m, text, offset, hits) && |hits| > 1
    ensures hits[1].offset <= |text| && IsScan(m, text, hits[1].offset, hits[1..])
    ensures After(text, hits[0]) == Some(hits[1].offset)
  {
    var rest := hits[1..];
    assert IsReport(m, text, hits[1]) && GoesOn(hits[0], hits[1].offset);
    assert forall i :: 0 <= i < |rest| ==> rest[i] == hits[i + 1];
    forall i | 0 < i < |rest| ensures GoesOn(rest[i - 1], rest[i].offset) {
      assert GoesOn(hits[i], hits[i + 1].offset);
    }
    forall i | 0 <= i < |rest| ensures IsReport(m, text, rest[i]) {
      assert IsReport(m, text, hits[i + 1]);
    }
  }

  // ---------- a literal pattern ----------

  /** The engine of a pattern without special characters. */
  function Literal(n: string): Engine {
    s => match Find(s, n, 0) case Some(p) => Some(Span(p, p + |n|)) case None => None
  }

  lemma FindInSuffix(s: string, n: string, i: nat)
    requires i <= |s|
    ensures Find(s, n, i) == match Find(s[i..], n, 0) case Some(p) => Some(i + p) case None => None
  {
    forall j: int ensures OccursAt(s[i..], n, j) <==> j >= 0 && OccursAt(s, n, i + j) {
      OccursInSuffix(s, n, i, j);
    }
    var r := Find(s[i..], n, 0);
    if r.Some? {
      forall j | i <= j < i + r.value ensures !OccursAt(s, n, j) {
        assert !OccursAt(s[i..], n, j - i);
      }
      FindIsFirst(s, n, i, i + r.value);
    } else {
      forall j | i <= j ensures !OccursAt(s, n, j) {
        assert !OccursAt(s[i..], n, j - i);
      }
    }
  }

  lemma OccursInSuffix(s: string, n: string, i: nat, j: int)
    requires i <= |s|
    ensures OccursAt(s[i..], n, j) <==> j >= 0 && OccursAt(s, n, i + j)
  {
    if j >= 0 && i + j + |n| <= |s| { assert s[i..][j..j + |n|] == s[i + j..i + j + |n|]; }
  }

  lemma LiteralNext(n: string, text: string, offset: nat)
    requires n != "" && offset <= |text|
    ensures InText(Literal(n))
    ensures Next(Literal(n), text, offset) ==
            match Find(text, n, offset) case Some(p) => Some(Hit(offset, p, p + |n|)) case None => None
  {
    FindInSuffix(text, n, offset);
  }

  /** The functions below see the engine only through `Next`. */
  ghost predicate ActsLike(m: Engine, n: string, text: string) {
    n != "" && InText(m) && forall o: nat :: o <= |text| ==> LikeFind(m, n, text, o)
  }

  ghost predicate LikeFind(m: Engine, n: string, text: string, o: nat)
    requires InText(m) && o <= |text|
  {
    Next(m, text, o) == match Find(text, n, o) case Some(p) => Some(Hit(o, p, p + |n|)) case None => None
  }

  lemma {:induction false} LiteralSplit(m: Engine, n: string, text: string, offset: nat)
    requires offset <= |text| && ActsLike(m, n, text)
    ensures SplitFrom(m, text, offset) == PiecesFrom(text, n, offset)
    decreases |text| - offset
  {
    assert LikeFind(m, n, text, offset);
    var p := Find(text, n, offset);
    if p.Some? { LiteralSplit(m, n, text, p.value + |n|); }
  }

  lemma LiteralCount(m: Engine, n: string, text: string, offset: nat)
    requires offset <= |text| && ActsLike(m, n, text)
    ensures |Matches(m, text, offset)| == CountFrom(text, n, offset)
  {
    LiteralSplit(m, n, text, offset);
    PiecesCount(text, n, offset);
  }

  lemma {:induction false} LiteralReplace(m: Engine, n: string, rep: string, text: string, offset: nat)
    requires offset <= |text| && ActsLike(m, n, text)
    ensures ReplaceFrom(m, text, rep, true, offset) == ReplacedFrom(text, n, rep, offset)
    decreases |text| - offset
  {
    assert LikeFind(m, n, text, offset);
    var p := Find(text, n, offset);
    if p.Some? {
      LiteralReplace(m, n, rep, text, p.value + |n|);
      LiteralTurn(m, n, rep, text, offset, p.value);
    } else {
      ReplaceRest(m, text, rep, offset);
      ReplacedRest(text, n, rep, offset);
    }
  }

  lemma LiteralTurn(m: Engine, n: string, rep: string, text: string, offset: nat, p: nat)
    requires InText(m) && n != "" && offset <= |text| && Find(text, n, offset) == Some(p)
    requires Next(m, text, offset) == Some(Hit(offset, p, p + |n|))
    requires ReplaceFrom(m, text, rep, true, p + |n|) == ReplacedFrom(text, n, rep, p + |n|)
    ensures ReplaceFrom(m, text, rep, true, offset) == ReplacedFrom(text, n, rep, offset)
  {
    ReplaceMatched(m, text, rep, Hit(offset, p, p + |n|));
    ReplacedMatched(text, n, rep, offset, p);
  }

  lemma ReplaceMatched(m: Engine, text: string, rep: string, h: Hit)
    requires InText(m) && h.offset <= |text| && Next(m, text, h.offset) == Some(h) && h.start < h.end
    ensures ReplaceFrom(m, text, rep, true, h.offset)
            == text[h.offset..h.start] + rep + ReplaceFrom(m, text, rep, true, h.end)
  {
  }

  lemma ReplaceRest(m: Engine, text: string, rep: string, offset: nat)
    requires InText(m) && offset <= |text| && Next(m, text, offset) == None
    ensures ReplaceFrom(m, text, rep, true, offset) == text[offset..]
  {
  }

  lemma LiteralActs(n: string, text: string)
    requires n != ""
    ensures ActsLike(Literal(n), n, text)
  {
    forall o: nat | o <= |text| ensures InText(Literal(n)) && LikeFind(Literal(n), n, text, o) {
      LiteralNext(n, text, o);
    }
    LiteralNext(n, text, 0);
  }

  /** With a literal pattern the regex loops agree with the text kernel: the pieces are those of splitting, the
      matches are as many as counted, and replacing all is replacing the text. */
  lemma LiteralIsTextKernel(n: string, rep: string, text: string)
    requires n != ""
    ensures InText(Literal(n))
    ensures SplitFrom(Literal(n), text, 0) == Pieces(text, n)
    ensures |Matches(Literal(n), text, 0)| == Count(text, n)
    ensures ReplaceFrom(Literal(n), text, rep, true, 0) == Replaced(text, n, rep)
  {
    LiteralActs(n, text);
    LiteralSplit(Literal(n), n, text, 0);
    LiteralCount(Literal(n), n, text, 0);
    LiteralReplace(Literal(n), n, rep, text, 0);
    if text == "" { assert PiecesFrom(text, n, 0) == [""]; }
  }

  // ---------- finding and splitting again ----------

  /** Piece, match, piece, match, ..., piece. */
  function Interleaved(pieces: seq<string>, found: seq<string>): string
    requires |pieces| == |found| + 1
  {
    if found == [] then pieces[0] else pieces[0] + found[0] + Interleaved(pieces[1..], found[1..])
  }

  /** A match that is empty before the end of the subject; the scan then moves on by one character. */
  predicate MidEmpty(text: string, h: Hit) {
    IsEmpty(h) && h.offset < |text|
  }

  /** Each such match moves the rebuilt text's length by its distance from the scan, less the character skipped. */
  function Drift(text: string, hits: seq<Hit>): int {
    if hits == [] then 0
    else (if MidEmpty(text, hits[0]) then hits[0].start - hits[0].offset - 1 else 0) + Drift(text, hits[1..])
  }

  /** For every engine, the length of the interleaving. */
  lemma {:induction false} RebuiltLength(m: Engine, text: string, offset: nat)
    requires InText(m) && offset <= |text|
    ensures |Interleaved(SplitFrom(m, text, offset), Matches(m, text, offset))|
            == |text| - offset + Drift(text, Hits(m, text, offset))
    decreases |text| - offset
  {
    var next := Next(m, text, offset);
    if next.Some? {
      var after := After(text, next.value);
      RebuiltTurnLength(m, text, offset);
      if after.Some? { RebuiltLength(m, text, after.value); }
    }
  }

  /** One turn of both scans, in lengths. */
  lemma RebuiltTurnLength(m: Engine, text: string, offset: nat)
    requires InText(m) && offset <= |text| && Next(m, text, offset).Some?
    ensures var h := Next(m, text, offset).value;
            var after := After(text, h);
            |Interleaved(SplitFrom(m, text, offset), Matches(m, text, offset))|
            == h.end - offset +
               if after.None? then 0
               else |Interleaved(SplitFrom(m, text, after.value), Matches(m, text, after.value))|
  {
    var h := Next(m, text, offset).value;
    var after := After(text, h);
    if after.Some? {
      InterleavedCons(text[offset..h.start], SplitFrom(m, text, after.value), text[h.start..h.end],
                      Matches(m, text, after.value));
    }
  }

  lemma InterleavedCons(p: string, pieces: seq<string>, f: string, found: seq<string>)
    requires |pieces| == |found| + 1
    ensures Interleaved([p] + pieces, [f] + found) == p + f + Interleaved(pieces, found)
  {
    assert ([p] + pieces)[1..] == pieces && ([f] + found)[1..] == found;
  }

  /** Interleaving the split pieces with the matches found rebuilds the text when every empty match before the
      end lies one character past the scan, in particular when there is none. */
  lemma {:induction false} SplitFindRebuild(m: Engine, text: string, offset: nat)
    requires InText(m) && offset <= |text|
    requires forall h :: h in Hits(m, text, offset) && MidEmpty(text, h) ==> h.start == h.offset + 1
    ensures Interleaved(SplitFrom(m, text, offset), Matches(m, text, offset)) == text[offset..]
    decreases |text| - offset
  {
    var next := Next(m, text, offset);
    if next.Some? {
      var h := next.value;
      var after := After(text, h);
      assert h in Hits(m, text, offset);
      if after.Some? {
        SplitFindRebuild(m, text, after.value);
        OneTurnRebuilds(text, h, after.value);
      }
    }
  }

  /** The engine matches the empty text, other than one character on, before the end of `s`. */
  predicate Misplaced(m: Engine, s: string) {
    s != "" && m(s).Some? && 0 <= m(s).value.so == m(s).value.eo && m(s).value.so != 1
  }

  /** Splitting and finding rebuild every text exactly for the engines whose empty matches before the end of a
      text all lie one character on; in particular for those that never match the empty text. */
  lemma EngineRebuilds(m: Engine)
    requires InText(m)
    ensures (forall t :: Interleaved(SplitFrom(m, t, 0), Matches(m, t, 0)) == t) <==> forall s :: !Misplaced(m, s)
  {
    if s :| Misplaced(m, s) {
      var t := ShortestMisplaced(m, s);
      ShortestIsNotRebuilt(m, t);
    } else {
      forall t ensures Interleaved(SplitFrom(m, t, 0), Matches(m, t, 0)) == t {
        WellPlacedRebuilds(m, t);
      }
    }
  }

  lemma WellPlacedRebuilds(m: Engine, t: string)
    requires InText(m) && forall s :: !Misplaced(m, s)
    ensures Interleaved(SplitFrom(m, t, 0), Matches(m, t, 0)) == t
  {
    OneOn(m, t, 0);
    SplitFindRebuild(m, t, 0);
    assert t[0..] == t;
  }

  /** Only the suffixes from `offset` on matter. */
  lemma OneOn(m: Engine, text: string, offset: nat)
    requires InText(m) && offset <= |text| && forall s :: |s| <= |text| - offset ==> !Misplaced(m, s)
    ensures forall h :: h in Hits(m, text, offset) && MidEmpty(text, h) ==> h.start == h.offset + 1
  {
    HitsAreEngineCalls(m, text, offset);
    forall h | h in Hits(m, text, offset) && MidEmpty(text, h) ensures h.start == h.offset + 1 {
      assert !Misplaced(m, text[h.offset..]);
    }
  }

  /** Every hit is what the engine reports for the suffix under the scan. */
  lemma {:induction false} HitsAreEngineCalls(m: Engine, text: string, offset: nat)
    requires InText(m) && offset <= |text|
    ensures forall h :: h in Hits(m, text, offset) ==>
                          offset <= h.offset <= |text| && Next(m, text, h.offset) == Some(h)
    decreases |text| - offset
  {
    var next := Next(m, text, offset);
    if next.Some? {
      var after := After(text, next.value);
      if after.Some? { HitsAreEngineCalls(m, text, after.value); }
    }
  }

  lemma {:induction false} ShortestMisplaced(m: Engine, s: string) returns (t: string)
    requires Misplaced(m, s)
    ensures Misplaced(m, t) && forall u :: |u| < |t| ==> !Misplaced(m, u)
    decreases |s|
  {
    if u :| |u| < |s| && Misplaced(m, u) {
      t := ShortestMisplaced(m, u);
    } else {
      t := s;
    }
  }

  /** The first match makes the rebuilt text too long or too short, and the others make up for nothing. */
  lemma ShortestIsNotRebuilt(m: Engine, t: string)
    requires InText(m) && Misplaced(m, t) && forall u :: |u| < |t| ==> !Misplaced(m, u)
    ensures Interleaved(SplitFrom(m, t, 0), Matches(m, t, 0)) != t
  {
    assert t[0..] == t;
    var so := m(t).value.so;
    assert Next(m, t, 0) == Some(Hit(0, so, so));
    OneOn(m, t, 1);
    NoDrift(t, Hits(m, t, 1));
    assert Hits(m, t, 0) == [Hit(0, so, so)] + Hits(m, t, 1);
    RebuiltLength(m, t, 0);
  }

  lemma {:induction false} NoDrift(text: string, hits: seq<Hit>)
    requires forall h :: h in hits && MidEmpty(text, h) ==> h.start == h.offset + 1
    ensures Drift(text, hits) == 0
  {
    if hits != [] {
      assert hits[0] in hits;
      NoDrift(text, hits[1..]);
    }
  }

  /** The engine of the pattern `x*` on texts without an `x`: the empty match at the start of its text. */
  function AtStart(): Engine {
    s => Some(Span(0, 0))
  }

  /** It splits every text into empty pieces with empty matches between them: all characters are lost. */
  lemma {:induction false} StartMatchesLoseText(text: string, offset: nat)
    requires offset <= |text|
    ensures InText(AtStart())
    ensures Interleaved(SplitFrom(AtStart(), text, offset), Matches(AtStart(), text, offset)) == ""
    decreases |text| - offset
  {
    assert Next(AtStart(), text, offset) == Some(Hit(offset, offset, offset));
    if offset < |text| { StartMatchesLoseText(text, offset + 1); }
  }

  lemma OneTurnRebuilds(text: string, h: Hit, next: nat)
    requires h.offset <= h.start <= h.end <= |text| && next == h.end
    ensures text[h.offset..h.start] + text[h.start..h.end] + text[next..] == text[h.offset..]
  {
  }

  /** An engine that never matches the empty text. */
  ghost predicate NeverEmpty(m: Engine) {
    forall s :: m(s).Some? ==> m(s).value.so != m(s).value.eo
  }

  lemma {:induction false} NeverEmptyHits(m: Engine, text: string, offset: nat)
    requires InText(m) && NeverEmpty(m) && offset <= |text|
    ensures forall h :: h in Hits(m, text, offset) ==> !IsEmpty(h)
    decreases |text| - offset
  {
    var next := Next(m, text, offset);
    if next.Some? {
      assert m(text[offset..]).Some?;
      NeverEmptyHits(m, text, next.value.end);
    }
  }

  // ---------- replacing ----------

  /** How many empty matches before the end the scan meets. */
  function MidEmpties(text: string, hits: seq<Hit>): nat {
    if hits == [] then 0 else (if MidEmpty(text, hits[0]) then 1 else 0) + MidEmpties(text, hits[1..])
  }

  lemma JoinedCons(piece: string, pieces: seq<string>, rep: string)
    requires pieces != []
    ensures Joined([piece] + pieces, rep) == piece + rep + Joined(pieces, rep)
  {
    assert ([piece] + pieces)[1..] == pieces;
  }

  /** For every engine: replacing all writes one character more than joining the split pieces for every empty
      match before the end, and without such matches the two agree. */
  lemma {:induction false} ReplaceAgainstJoin(m: Engine, text: string, rep: string, offset: nat)
    requires InText(m) && offset <= |text|
    ensures var replaced, joined := ReplaceFrom(m, text, rep, true, offset), Joined(SplitFrom(m, text, offset), rep);
            var extra := MidEmpties(text, Hits(m, text, offset));
            |replaced| == |joined| + extra && (extra == 0 ==> replaced == joined)
    decreases |text| - offset
  {
    var next := Next(m, text, offset);
    if next.Some? {
      var h := next.value;
      var after := After(text, h);
      if after.None? {
        JoinedCons(text[offset..h.start], [text[offset..]], rep);
      } else {
        ReplaceAgainstJoin(m, text, rep, after.value);
        JoinedCons(text[offset..h.start], SplitFrom(m, text, after.value), rep);
      }
    }
  }

  /** Replacing all is joining the split pieces with the replacement exactly when no empty match is met before
      the end of the text. */
  lemma ReplaceIsJoin(m: Engine, text: string, rep: string)
    requires InText(m)
    ensures ReplaceFrom(m, text, rep, true, 0) == Joined(SplitFrom(m, text, 0), rep)
            <==> MidEmpties(text, Hits(m, text, 0)) == 0
  {
    ReplaceAgainstJoin(m, text, rep, 0);
  }

  /** The pieces, the matches and the replacement agree for an engine that never matches the empty text. */
  lemma NonEmptyEngineAgrees(m: Engine, text: string, rep: string)
    requires InText(m) && NeverEmpty(m)
    ensures Interleaved(SplitFrom(m, text, 0), Matches(m, text, 0)) == text
    ensures ReplaceFrom(m, text, rep, true, 0) == Joined(SplitFrom(m, text, 0), rep)
  {
    NeverEmptyHits(m, text, 0);
    SplitFindRebuild(m, text, 0);
    NoMidEmpties(text, Hits(m, text, 0));
    ReplaceAgainstJoin(m, text, rep, 0);
    assert text[0..] == text;
  }

  lemma {:induction false} NoMidEmpties(text: string, hits: seq<Hit>)
    requires forall h :: h in hits ==> !IsEmpty(h)
    ensures MidEmpties(text, hits) == 0
  {
    if hits != [] {
      assert hits[0] in hits;
      NoMidEmpties(text, hits[1..]);
    }
  }

  // ---------- what replacing should write ----------

  function Cut(text: string, a: nat, b: nat): string
    requires b <= |text|
  {
    if a <= b then text[a..b] else ""
  }

  /** The text from `from` on with every listed match replaced at once. */
  function Substituted(text: string, hits: seq<Hit>, rep: string, from: nat): string
    requires forall i :: 0 <= i < |hits| ==> hits[i].start <= |text|
  {
    if hits == [] then Cut(text, from, |text|)
    else Cut(text, from, hits[0].start) + rep + Substituted(text, hits[1..], rep, hits[0].end)
  }

  /** Every empty match before the end lies where the scan stands. */
  predicate AtTheScan(text: string, hits: seq<Hit>) {
    forall h :: h in hits && MidEmpty(text, h) ==> h.start == h.offset
  }

  /** One turn of the scan, in lengths. */
  lemma ReplaceTurnLength(m: Engine, text: string, rep: string, offset: nat)
    requires InText(m) && offset <= |text| && Next(m, text, offset).Some?
    ensures var h := Next(m, text, offset).value;
            var after := After(text, h);
            |ReplaceFrom(m, text, rep, true, offset)|
            == h.start - offset + |rep| +
               if after.None? then 0
               else (if IsEmpty(h) then 1 else 0) + |ReplaceFrom(m, text, rep, true, after.value)|
  {
  }

  /** The scan has written everything before `done`; it still writes at least what it should from `from` on,
      and more when it repeats text. */
  lemma {:induction false} ReplaceWritesEnough(m: Engine, text: string, rep: string, offset: nat, done: nat, from: nat)
    requires InText(m) && offset - 1 <= done <= offset <= |text| && done <= from <= |text|
    requires done == offset ==> from == offset
    ensures var hits := Hits(m, text, offset);
            var written := offset - done + |ReplaceFrom(m, text, rep, true, offset)|;
            var wanted := |Substituted(text, hits, rep, from)|;
            written >= wanted && (written == wanted ==> from == done && AtTheScan(text, hits))
    decreases |text| - offset
  {
    var next := Next(m, text, offset);
    if next.Some? {
      var h := next.value;
      var after := After(text, h);
      ReplaceTurnLength(m, text, rep, offset);
      if after.None? {
        assert Hits(m, text, offset) == [h];
        HitsCons(text, h, [], rep, from);
      } else {
        var next' := if IsEmpty(h) then offset else h.end;
        var rest := Hits(m, text, after.value);
        ReplaceWritesEnough(m, text, rep, after.value, next', h.end);
        assert Hits(m, text, offset) == [h] + rest;
        TurnWritesEnough(text, h, rest, rep, done, from, |ReplaceFrom(m, text, rep, true, after.value)|);
      }
    }
  }

  /** One turn, given what the rest of the scan writes. */
  lemma TurnWritesEnough(text: string, h: Hit, rest: seq<Hit>, rep: string, done: nat, from: nat, later: nat)
    requires h.offset <= h.start <= h.end <= |text| && forall i :: 0 <= i < |rest| ==> rest[i].start <= |text|
    requires h.offset - 1 <= done <= h.offset && done <= from && (done == h.offset ==> from == h.offset)
    requires IsEmpty(h) ==> h.offset < |text|
    requires var written, wanted := (if IsEmpty(h) then 1 else 0) + later, |Substituted(text, rest, rep, h.end)|;
             && written >= wanted
             && (written == wanted ==> h.end == (if IsEmpty(h) then h.offset else h.end) && AtTheScan(text, rest))
    ensures var written := h.start - done + |rep| + (if IsEmpty(h) then 1 else 0) + later;
            var wanted := |Substituted(text, [h] + rest, rep, from)|;
            written >= wanted && (written == wanted ==> from == done && AtTheScan(text, [h] + rest))
  {
    HitsCons(text, h, rest, rep, from);
  }

  lemma HitsCons(text: string, h: Hit, rest: seq<Hit>, rep: string, from: nat)
    requires h.start <= |text| && forall i :: 0 <= i < |rest| ==> rest[i].start <= |text|
    ensures |Substituted(text, [h] + rest, rep, from)|
            == (if from <= h.start then h.start - from else 0) + |rep| + |Substituted(text, rest, rep, h.end)|
    ensures AtTheScan(text, [h] + rest) <==> (MidEmpty(text, h) ==> h.start == h.offset) && AtTheScan(text, rest)
  {
    assert h in [h] + rest;
    assert ([h] + rest)[1..] == rest;
  }

  /** The empty matches being at the scan, it writes just what it should. */
  lemma {:induction false} ReplaceIsSubstituted(m: Engine, text: string, rep: string, offset: nat, done: nat)
    requires InText(m) && offset - 1 <= done <= offset <= |text| && AtTheScan(text, Hits(m, text, offset))
    ensures text[done..offset] + ReplaceFrom(m, text, rep, true, offset)
            == Substituted(text, Hits(m, text, offset), rep, done)
    decreases |text| - offset
  {
    var next := Next(m, text, offset);
    if next.None? {
      assert text[done..offset] + text[offset..] == text[done..];
    } else {
      var h := next.value;
      var after := After(text, h);
      assert h in Hits(m, text, offset);
      if after.None? {
        LastTurnText(m, text, rep, h, done);
      } else {
        var rest := Hits(m, text, after.value);
        assert Hits(m, text, offset) == [h] + rest;
        ReplaceIsSubstituted(m, text, rep, after.value, if IsEmpty(h) then offset else h.end);
        ReplaceTurnText(m, text, rep, h, done, Substituted(text, rest, rep, h.end));
        SubstitutedCons(text, h, rest, rep, done);
      }
    }
  }

  lemma SubstitutedCons(text: string, h: Hit, rest: seq<Hit>, rep: string, done: nat)
    requires h.start <= |text| && forall i :: 0 <= i < |rest| ==> rest[i].start <= |text|
    ensures Substituted(text, [h] + rest, rep, done)
            == Cut(text, done, h.start) + rep + Substituted(text, rest, rep, h.end)
  {
    assert ([h] + rest)[1..] == rest;
  }

  lemma LastTurnText(m: Engine, text: string, rep: string, h: Hit, done: nat)
    requires InText(m) && done <= h.offset <= |text| && Next(m, text, h.offset) == Some(h) && After(text, h) == None
    ensures text[done..h.offset] + ReplaceFrom(m, text, rep, true, h.offset) == Substituted(text, [h], rep, done)
  {
    assert Substituted(text, [h], rep, done) == Cut(text, done, h.start) + rep + "";
  }

  lemma ReplaceTurnText(m: Engine, text: string, rep: string, h: Hit, done: nat, tail: string)
    requires InText(m) && done <= h.offset <= |text| && Next(m, text, h.offset) == Some(h)
    requires After(text, h).Some? && var next := After(text, h).value;
             tail == text[if IsEmpty(h) then h.offset else h.end..next] + ReplaceFrom(m, text, rep, true, next)
    ensures text[done..h.offset] + ReplaceFrom(m, text, rep, true, h.offset) == text[done..h.start] + rep + tail
  {
    var next := After(text, h).value;
    var rest := ReplaceFrom(m, text, rep, true, next);
    var pending := text[if IsEmpty(h) then h.offset else h.end..next];
    assert IsEmpty(h) ==> pending == [text[h.offset]];
    assert !IsEmpty(h) ==> pending + rest == rest;
    TurnRegroups(text, done, h.offset, h.start, rep, pending, rest);
  }

  lemma TurnRegroups(text: string, a: nat, b: nat, c: nat, rep: string, pending: string, rest: string)
    requires a <= b <= c <= |text|
    ensures text[a..b] + (text[b..c] + rep + pending + rest) == text[a..c] + rep + (pending + rest)
    ensures text[b..c] + rep + pending + rest == text[b..c] + rep + (pending + rest)
  {
    assert text[a..b] + text[b..c] == text[a..c];
  }

  /** Replacing all is replacing every match found at once exactly when every empty match before the end lies
      where the scan stands. */
  lemma ReplaceIsSubstitution(m: Engine, text: string, rep: string)
    requires InText(m)
    ensures ReplaceFrom(m, text, rep, true, 0) == Substituted(text, Hits(m, text, 0), rep, 0)
            <==> AtTheScan(text, Hits(m, text, 0))
  {
    ReplaceWritesEnough(m, text, rep, 0, 0, 0);
    if AtTheScan(text, Hits(m, text, 0)) { ReplaceIsSubstituted(m, text, rep, 0, 0); }
    assert text[0..0] + ReplaceFrom(m, text, rep, true, 0) == ReplaceFrom(m, text, rep, true, 0);
  }

  /** Replacing one replaces the first match found, and no match leaves the text alone. */
  lemma ReplaceFirst(m: Engine, text: string, rep: string)
    requires InText(m)
    ensures var hits := Hits(m, text, 0);
            ReplaceFrom(m, text, rep, false, 0) == Substituted(text, if hits == [] then [] else [hits[0]], rep, 0)
  {
    var next := Next(m, text, 0);
    if next.Some? {
      assert Substituted(text, [next.value], rep, 0)
             == Cut(text, 0, next.value.start) + rep + Substituted(text, [], rep, next.value.end);
    }
  }

  /** The engine of the pattern `$`: the empty match at the end of its text. */
  function AtEnd(): Engine {
    s => Some(Span(|s|, |s|))
  }

  /** Replacing `$` in "ab" by "!" repeats text: the one match at the end is met three times. */
  lemma EndAnchorRepeats()
    ensures ReplaceFrom(AtEnd(), "ab", "!", true, 0) == "ab!ab!b!"
    ensures Matches(AtEnd(), "ab", 0) == ["", "", ""]
  {
    var m, text := AtEnd(), "ab";
    assert Next(m, text, 0) == Some(Hit(0, 2, 2)) && Next(m, text, 1) == Some(Hit(1, 2, 2));
    assert Next(m, text, 2) == Some(Hit(2, 2, 2));
    assert ReplaceFrom(m, text, "!", true, 2) == "!";
    assert ReplaceFrom(m, text, "!", true, 1) == "b" + "!" + "b" + "!";
    assert ReplaceFrom(m, text, "!", true, 0) == "ab" + "!" + "a" + ("b" + "!" + "b" + "!");
    assert Matches(m, text, 2) == [""] && Matches(m, text, 1) == ["", ""];
  }
}
