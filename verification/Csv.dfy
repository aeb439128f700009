/** One line of comma-separated values: a quoted field ends at the next quote, a bare one at the separator. */
module CsvLines {
  import opened Options
  import opened FluxusVector

  datatype CsvError = SeparatorOutOfRange | UnclosedQuote | InvalidFormat

  const QUOTE: char := '\"'

  ghost predicate FirstOf(s: string, c: char, i: nat, j: nat) {
    && i <= j <= |s| && (j < |s| ==> s[j] == c)
    && forall k :: i <= k < j ==> s[k] != c
  }

  /** The first position of `c` at or after `i`, or the end of the text. */
  ghost function IndexOfChar(s: string, c: char, i: nat): (j: nat)
    requires i <= |s|
    ensures FirstOf(s, c, i, j)
  {
    FirstOfExists(s, c, i);
    var j: nat :| FirstOf(s, c, i, j); j
  }

  lemma {:induction false} FirstOfExists(s: string, c: char, i: nat)
    requires i <= |s|
    ensures exists j: nat :: FirstOf(s, c, i, j)
    decreases |s| - i
  {
    if i == |s| || s[i] == c {
      assert FirstOf(s, c, i, i);
    } else {
      FirstOfExists(s, c, i + 1);
      var j: nat :| FirstOf(s, c, i + 1, j);
      assert FirstOf(s, c, i, j);
    }
  }

  function Cons(field: string, rest: Result<seq<string>, CsvError>): Result<seq<string>, CsvError> {
    match rest
    case Ok(fields) => Ok([field] + fields)
    case Err(e) => Err(e)
  }

  /** The fields of `s[i..]`. A trailing separator is followed by one more, empty, field. */
  ghost function FieldsFrom(s: string, c: char, i: nat): (r: Result<seq<string>, CsvError>)
    requires i <= |s|
    ensures r.Ok? ==> r.value != []
    decreases |s| - i
  {
    if i == |s| then Ok([""])
    else if s[i] == QUOTE then
      var j := IndexOfChar(s, QUOTE, i + 1);
      if j >= |s| then Err(UnclosedQuote)
      else if j + 1 >= |s| then Ok([s[i + 1..j]])
      else if s[j + 1] != c then Err(InvalidFormat)
      else Cons(s[i + 1..j], FieldsFrom(s, c, j + 2))
    else
      var j := IndexOfChar(s, c, i);
      if j >= |s| then Ok([s[i..j]]) else Cons(s[i..j], FieldsFrom(s, c, j + 1))
  }

  /** What the loop still owes: the fields collected so far, then those of the rest. */
  function Prepend(fields: seq<string>, rest: Result<seq<string>, CsvError>): Result<seq<string>, CsvError> {
    match rest
    case Ok(more) => Ok(fields + more)
    case Err(e) => Err(e)
  }

  lemma PrependCons(fields: seq<string>, f: string, rest: Result<seq<string>, CsvError>)
    ensures Prepend(fields, Cons(f, rest)) == Prepend(fields + [f], rest)
  {
    if rest.Ok? { assert fields + ([f] + rest.value) == (fields + [f]) + rest.value; }
  }

  method ScanTo(s: string, c: char, i: nat) returns (j: nat)
    requires i <= |s|
    ensures j == IndexOfChar(s, c, i)
  {
    j := i;
    while j < |s| && s[j] != c
      invariant i <= j <= |s| && forall k :: i <= k < j ==> s[k] != c
    {
      j := j + 1;
    }
    assert FirstOf(s, c, i, j);
  }

  method ParseCsvLine(s: string, sep: int) returns (r: Result<Fluxus<string>, CsvError>)
    ensures sep < 0 || sep > 255 ==> r == Err(SeparatorOutOfRange)
    ensures 0 <= sep <= 255 ==> match FieldsFrom(s, sep as char, 0)
                                case Ok(fields) => r.Ok? && r.value.Valid() && fresh(r.value.Repr)
                                                   && r.value.Contents() == fields
                                case Err(e) => r == Err(e)
  {
    if sep < 0 || sep > 255 { return Err(SeparatorOutOfRange); }
    var c := sep as char;
    var out := new Fluxus<string>();
    var i := 0;
    ghost var want := FieldsFrom(s, c, 0);
    assert Prepend([], want) == want by { if want.Ok? { assert [] + want.value == want.value; } }
    while true
      invariant 0 <= i <= |s| && out.Valid() && fresh(out.Repr)
      invariant Prepend(out.Contents(), FieldsFrom(s, c, i)) == want
      decreases |s| - i
    {
      var next := NextField(s, c, i);
      if next.Err? { return Err(next.error); }
      if next.value.next.Some? {
        PrependCons(out.Contents(), next.value.text, FieldsFrom(s, c, next.value.next.value));
      }
      out.Push(next.value.text);
      if next.value.next.None? { break; }
      i := next.value.next.value;
    }
    return Ok(out);
  }

  /** A field, and where the next one starts when there is one. */
  datatype Field = Field(text: string, next: Option<nat>)

  /** One turn of the loop. */
  method NextField(s: string, c: char, i: nat) returns (r: Result<Field, CsvError>)
    requires i <= |s|
    ensures match r
            case Err(e) => FieldsFrom(s, c, i) == Err(e)
            case Ok(Field(t, None)) => FieldsFrom(s, c, i) == Ok([t])
            case Ok(Field(t, Some(k))) => i < k <= |s| && FieldsFrom(s, c, i) == Cons(t, FieldsFrom(s, c, k))
  {
    if i == |s| { return Ok(Field("", None)); }
    if s[i] == QUOTE {
      var j := ScanTo(s, QUOTE, i + 1);
      if j >= |s| { return Err(UnclosedQuote); }
      if j + 1 >= |s| { return Ok(Field(s[i + 1..j], None)); }
      if s[j + 1] != c { return Err(InvalidFormat); }
      return Ok(Field(s[i + 1..j], Some(j + 2)));
    }
    var j := ScanTo(s, c, i);
    if j >= |s| { return Ok(Field(s[i..j], None)); }
    return Ok(Field(s[i..j], Some(j + 1)));
  }

  // ---------- writers ----------

  /** A writer chooses, field by field, whether to wrap it in quotes; nothing is ever doubled. */
  datatype Cell = Quoted(text: string) | Bare(text: string)

  function Render(cell: Cell): string {
    match cell
    case Quoted(t) => [QUOTE] + t + [QUOTE]
    case Bare(t) => t
  }

  function RenderLine(cells: seq<Cell>, c: char): string {
    if cells == [] then ""
    else if |cells| == 1 then Render(cells[0])
    else Render(cells[0]) + [c] + RenderLine(cells[1..], c)
  }

  function TextsOf(cells: seq<Cell>): (ts: seq<string>)
    ensures |ts| == |cells|
  {
    seq(|cells|, i requires 0 <= i < |cells| => cells[i].text)
  }

  predicate Readable(cell: Cell, c: char) {
    match cell
    case Quoted(t) => QUOTE !in t
    case Bare(t) => c !in t && (t != "" ==> t[0] != QUOTE)
  }

  /** Reading a quoted field whose text is meant to be `t`. */
  lemma QuotedField(s: string, i: nat, t: string, c: char)
    requires c != QUOTE && i + |t| + 2 <= |s| && s[i] == QUOTE
    requires forall k :: 0 <= k < |t| ==> s[i + 1 + k] == t[k]
    requires s[i + 1 + |t|] == QUOTE && (i + |t| + 2 < |s| ==> s[i + |t| + 2] == c)
    ensures var r := FieldsFrom(s, c, i);
            if QUOTE !in t then
              r == if i + |t| + 2 == |s| then Ok([t]) else Cons(t, FieldsFrom(s, c, i + |t| + 3))
            else r.Ok? ==> r.value[0] != t
  {
    assert s[i + 1..i + 1 + |t|] == t;
    var j := IndexOfChar(s, QUOTE, i + 1);
    if QUOTE in t {
      var q :| 0 <= q < |t| && t[q] == QUOTE;
      assert j <= i + 1 + q;
    } else {
      assert forall k :: i + 1 <= k < i + 1 + |t| ==> s[k] == t[k - i - 1];
      assert j == i + 1 + |t|;
    }
  }

  lemma BareField(s: string, i: nat, t: string, c: char)
    requires c != QUOTE && i + |t| <= |s| && (i + |t| < |s| ==> s[i + |t|] == c)
    requires forall k :: 0 <= k < |t| ==> s[i + k] == t[k]
    ensures var r := FieldsFrom(s, c, i);
            if Readable(Bare(t), c) then
              r == if i + |t| == |s| then Ok([t]) else Cons(t, FieldsFrom(s, c, i + |t| + 1))
            else r.Ok? ==> r.value[0] != t
  {
    assert s[i..i + |t|] == t;
    if t != "" && t[0] == QUOTE {
      assert QUOTE !in s[i + 1..IndexOfChar(s, QUOTE, i + 1)];
    } else {
      var j := IndexOfChar(s, c, i);
      if c in t {
        var q :| 0 <= q < |t| && t[q] == c;
        assert j <= i + q;
      } else {
        assert forall k :: i <= k < i + |t| ==> s[k] == t[k - i];
        assert j == i + |t|;
      }
    }
  }

  /** Reading a field that a cell was rendered to. */
  lemma FirstCell(s: string, i: nat, at: nat, cell: Cell, c: char)
    requires c != QUOTE && i <= at <= |s| && s[i..at] == Render(cell) && (at < |s| ==> s[at] == c)
    ensures var r := FieldsFrom(s, c, i);
            if Readable(cell, c) then
              r == if at == |s| then Ok([cell.text]) else Cons(cell.text, FieldsFrom(s, c, at + 1))
            else r.Ok? ==> r.value != [] && r.value[0] != cell.text
  {
    match cell
    case Quoted(t) => FirstQuoted(s, i, at, t, c);
    case Bare(t) =>
      SliceChars(s, i, at, t);
      BareField(s, i, t, c);
  }

  lemma FirstQuoted(s: string, i: nat, at: nat, t: string, c: char)
    requires c != QUOTE && i <= at <= |s| && s[i..at] == [QUOTE] + t + [QUOTE] && (at < |s| ==> s[at] == c)
    ensures var r := FieldsFrom(s, c, i);
            if QUOTE !in t then r == if at == |s| then Ok([t]) else Cons(t, FieldsFrom(s, c, at + 1))
            else r.Ok? ==> r.value != [] && r.value[0] != t
  {
    SliceChars(s, i, at, [QUOTE] + t + [QUOTE]);
    assert forall k :: 0 <= k < |t| ==> s[i + (k + 1)] == ([QUOTE] + t + [QUOTE])[k + 1] == t[k];
    QuotedField(s, i, t, c);
  }

  lemma SliceChars(s: string, i: nat, at: nat, t: string)
    requires i <= at <= |s| && s[i..at] == t
    ensures at == i + |t| && forall k :: 0 <= k < |t| ==> s[i + k] == t[k]
  {
    assert |s[i..at]| == at - i;
  }

  ghost predicate AllReadable(cells: seq<Cell>, c: char) {
    forall k :: 0 <= k < |cells| ==> Readable(cells[k], c)
  }

  lemma AllReadableCons(cells: seq<Cell>, c: char)
    requires cells != []
    ensures AllReadable(cells, c) <==> Readable(cells[0], c) && AllReadable(cells[1..], c)
    ensures TextsOf(cells) == [cells[0].text] + TextsOf(cells[1..])
  {
    var rest := cells[1..];
    if Readable(cells[0], c) && AllReadable(rest, c) {
      assert forall k :: 0 < k < |cells| ==> cells[k] == rest[k - 1];
    }
  }

  /** The same, where a separator and more fields follow. */
  lemma CellThenMore(s: string, i: nat, next: nat, cell: Cell, c: char)
    requires c != QUOTE && i < next <= |s| && s[i..next - 1] == Render(cell) && s[next - 1] == c
    ensures var r := FieldsFrom(s, c, i);
            if Readable(cell, c) then r == Cons(cell.text, FieldsFrom(s, c, next))
            else r.Ok? ==> r.value != [] && r.value[0] != cell.text
  {
    FirstCell(s, i, next - 1, cell, c);
  }

  lemma {:induction false} ReadLine(s: string, i: nat, cells: seq<Cell>, c: char)
    requires c != QUOTE && cells != [] && i <= |s| && s[i..|s|] == RenderLine(cells, c)
    ensures FieldsFrom(s, c, i) == Ok(TextsOf(cells)) <==> AllReadable(cells, c)
    decreases |cells|
  {
    if |cells| == 1 {
      ReadLast(s, i, cells, c);
    } else {
      var next := ReadNext(s, i, cells, c);
      ReadLine(s, next, cells[1..], c);
    }
  }

  lemma ReadLast(s: string, i: nat, cells: seq<Cell>, c: char)
    requires c != QUOTE && |cells| == 1 && i <= |s| && s[i..|s|] == Render(cells[0])
    ensures FieldsFrom(s, c, i) == Ok(TextsOf(cells)) <==> AllReadable(cells, c)
  {
    FirstCell(s, i, |s|, cells[0], c);
    assert TextsOf(cells) == [cells[0].text];
  }

  lemma ReadNext(s: string, i: nat, cells: seq<Cell>, c: char) returns (next: nat)
    requires c != QUOTE && |cells| > 1 && i <= |s| && s[i..|s|] == RenderLine(cells, c)
    ensures i < next <= |s| && s[next..|s|] == RenderLine(cells[1..], c)
    ensures FieldsFrom(s, c, i) == Ok(TextsOf(cells)) <==>
            Readable(cells[0], c) && FieldsFrom(s, c, next) == Ok(TextsOf(cells[1..]))
    ensures AllReadable(cells, c) <==> Readable(cells[0], c) && AllReadable(cells[1..], c)
  {
    AllReadableCons(cells, c);
    next := LeadSlices(s, i, |s|, Render(cells[0]), c, RenderLine(cells[1..], c));
    CellThenMore(s, i, next, cells[0], c);
    ReadFirst(FieldsFrom(s, c, i), cells[0], c, FieldsFrom(s, c, next), TextsOf(cells[1..]));
  }

  lemma LeadSlices(s: string, i: nat, k: nat, b: string, c: char, later: string) returns (next: nat)
    requires i <= k <= |s| && s[i..k] == b + [c] + later
    ensures i < next <= k && next == i + |b| + 1 && s[i..next - 1] == b && s[next - 1] == c && s[next..k] == later
  {
    next := i + |b| + 1;
    var r := s[i..k];
    assert |r| == k - i && r[..|b|] == b && r[|b|] == c && r[|b| + 1..] == later;
  }

  lemma ReadFirst(r: Result<seq<string>, CsvError>, cell: Cell, c: char, later: Result<seq<string>, CsvError>,
      ts: seq<string>)
    requires if Readable(cell, c) then r == Cons(cell.text, later)
             else r.Ok? ==> r.value != [] && r.value[0] != cell.text
    ensures r == Ok([cell.text] + ts) <==> Readable(cell, c) && later == Ok(ts)
  {
    ConsInjective(cell.text, later, ts);
  }

  lemma ConsInjective(f: string, r: Result<seq<string>, CsvError>, ts: seq<string>)
    ensures Cons(f, r) == Ok([f] + ts) <==> r == Ok(ts)
  {
    if r.Ok? && [f] + r.value == [f] + ts {
      assert ([f] + r.value)[1..] == r.value && ([f] + ts)[1..] == ts;
    }
  }

  /** Parsing inverts a writer exactly when every quoted field is free of quotes and every bare field is
      free of the separator and does not start with a quote. */
  lemma ParseInvertsWriter(cells: seq<Cell>, c: char)
    requires c != QUOTE && cells != []
    ensures FieldsFrom(RenderLine(cells, c), c, 0) == Ok(TextsOf(cells))
            <==> AllReadable(cells, c)
  {
    var line := RenderLine(cells, c);
    assert line[0..|line|] == line;
    ReadLine(line, 0, cells, c);
  }

  // ---------- which lines are accepted, and which error the others give ----------

  /** Cells each followed by a separator: what precedes the last field. */
  function Lead(cells: seq<Cell>, c: char): string {
    if cells == [] then "" else Render(cells[0]) + [c] + Lead(cells[1..], c)
  }

  lemma {:induction false} LeadRenders(cells: seq<Cell>, last: Cell, c: char)
    ensures Lead(cells, c) + Render(last) == RenderLine(cells + [last], c)
  {
    if cells == [] {
      assert "" + Render(last) == Render(last);
    } else {
      LeadRenders(cells[1..], last, c);
      assert (cells + [last])[1..] == cells[1..] + [last];
      Regroup(Render(cells[0]) + [c], Lead(cells[1..], c), Render(last));
    }
  }

  lemma Regroup(a: string, b: string, d: string)
    ensures a + b + d == a + (b + d)
  {
  }

  /** A quote that is never closed. */
  predicate IsUnclosed(r: string) {
    r != "" && r[0] == QUOTE && QUOTE !in r[1..]
  }

  /** A quoted field that is followed by something other than the separator. */
  ghost predicate IsBroken(r: string, c: char) {
    exists j :: ClosesAt(r, j) && j + 1 < |r| && r[j + 1] != c
  }

  predicate ClosesAt(r: string, j: int) {
    0 < j < |r| && r[0] == QUOTE && r[j] == QUOTE && QUOTE !in r[1..j]
  }

  /** What is left of a line that has no further separator to stop at. */
  ghost predicate EndsAs(s: string, c: char, k: nat, last: Cell, r: Result<seq<string>, CsvError>)
    requires k <= |s|
  {
    match r
    case Ok(_) => Readable(last, c) && s[k..] == Render(last)
    case Err(UnclosedQuote) => IsUnclosed(s[k..])
    case Err(InvalidFormat) => IsBroken(s[k..], c)
    case Err(SeparatorOutOfRange) => false
  }

  /** One field: a readable cell up to a separator at `at`, or the end of what can be read. */
  ghost predicate OneField(s: string, c: char, i: nat, cell: Cell, at: nat)
    requires i <= |s|
  {
    if at < |s| then
      && i <= at && s[at] == c && s[i..at] == Render(cell) && Readable(cell, c)
      && FieldsFrom(s, c, i) == Cons(cell.text, FieldsFrom(s, c, at + 1))
    else EndsAs(s, c, i, cell, FieldsFrom(s, c, i))
  }

  lemma TakeQuoted(s: string, c: char, i: nat) returns (cell: Cell, at: nat)
    requires i < |s| && s[i] == QUOTE
    ensures OneField(s, c, i, cell, at)
  {
    var j := IndexOfChar(s, QUOTE, i + 1);
    QuotedStart(s, i, j);
    cell, at := Quoted(s[i + 1..j]), |s|;
    if j + 1 == |s| {
      assert s[i..j + 1] == s[i..];
    } else if j + 1 < |s| && s[j + 1] == c {
      at := j + 1;
      NextQuoted(s, c, i, j);
    } else if j < |s| {
      BrokenQuoted(s, c, i, j);
    }
  }

  lemma NextQuoted(s: string, c: char, i: nat, j: nat)
    requires i < |s| && s[i] == QUOTE && j == IndexOfChar(s, QUOTE, i + 1) && j + 1 < |s| && s[j + 1] == c
    requires QUOTE !in s[i + 1..j] && s[i..j + 1] == Render(Quoted(s[i + 1..j]))
    ensures OneField(s, c, i, Quoted(s[i + 1..j]), j + 1)
  {
  }

  lemma BrokenQuoted(s: string, c: char, i: nat, j: nat)
    requires i < |s| && s[i] == QUOTE && j == IndexOfChar(s, QUOTE, i + 1) && j + 1 < |s| && s[j + 1] != c
    requires ClosesAt(s[i..], j - i)
    ensures OneField(s, c, i, Quoted(s[i + 1..j]), |s|)
  {
    assert s[i..][j - i + 1] == s[j + 1];
  }

  lemma TakeBare(s: string, c: char, i: nat) returns (cell: Cell, at: nat)
    requires i <= |s| && (i < |s| ==> s[i] != QUOTE)
    ensures OneField(s, c, i, cell, at)
  {
    at := IndexOfChar(s, c, i);
    cell := Bare(s[i..at]);
    assert c !in s[i..at] && (i < at ==> s[i..at][0] == s[i]);
    if at == |s| { assert s[i..at] == s[i..]; }
  }

  lemma TakeField(s: string, c: char, i: nat) returns (cell: Cell, at: nat)
    requires i <= |s|
    ensures OneField(s, c, i, cell, at)
  {
    if i < |s| && s[i] == QUOTE { cell, at := TakeQuoted(s, c, i); } else { cell, at := TakeBare(s, c, i); }
  }

  /** Takes a line apart from `i`: cells up to `k`, then the last field or the text that cannot be read. */
  lemma {:induction false} TakeApart(s: string, c: char, i: nat) returns (cells: seq<Cell>, k: nat, last: Cell)
    requires i <= |s|
    ensures i <= k <= |s| && AllReadable(cells, c) && s[i..k] == Lead(cells, c)
    ensures EndsAs(s, c, k, last, FieldsFrom(s, c, i))
    decreases |s| - i
  {
    var cell, at := TakeField(s, c, i);
    if at < |s| {
      cells, k, last := TakeApart(s, c, at + 1);
      TakeMore(s, c, i, at, cell, cells, k, last);
      cells := [cell] + cells;
    } else {
      TakeLast(s, c, i, cell, at);
      cells, k, last := [], i, cell;
    }
  }

  lemma TakeLast(s: string, c: char, i: nat, cell: Cell, at: nat)
    requires i <= |s| <= at && OneField(s, c, i, cell, at)
    ensures s[i..i] == Lead([], c) && AllReadable([], c) && EndsAs(s, c, i, cell, FieldsFrom(s, c, i))
  {
  }

  lemma TakeMore(s: string, c: char, i: nat, at: nat, cell: Cell, cells: seq<Cell>, k: nat, last: Cell)
    requires i <= at < k <= |s| && OneField(s, c, i, cell, at)
    requires AllReadable(cells, c) && s[at + 1..k] == Lead(cells, c)
    requires EndsAs(s, c, k, last, FieldsFrom(s, c, at + 1))
    ensures AllReadable([cell] + cells, c) && s[i..k] == Lead([cell] + cells, c)
    ensures EndsAs(s, c, k, last, FieldsFrom(s, c, i))
  {
    TakeOne(s, c, i, at, cell, cells, k);
    EndsLater(s, c, k, last, cell.text, FieldsFrom(s, c, at + 1));
  }

  lemma EndsLater(s: string, c: char, k: nat, last: Cell, t: string, r: Result<seq<string>, CsvError>)
    requires k <= |s| && EndsAs(s, c, k, last, r)
    ensures EndsAs(s, c, k, last, Cons(t, r))
  {
  }

  lemma QuotedStart(s: string, i: nat, j: nat)
    requires i < |s| && s[i] == QUOTE && FirstOf(s, QUOTE, i + 1, j)
    ensures QUOTE !in s[i + 1..j]
    ensures j == |s| ==> IsUnclosed(s[i..])
    ensures j < |s| ==> s[i..j + 1] == Render(Quoted(s[i + 1..j])) && ClosesAt(s[i..], j - i)
  {
    TailParts(s, i, j);
    if j < |s| { QuotedWhole(s, i, j); }
  }

  lemma TailParts(s: string, i: nat, j: nat)
    requires i < j <= |s|
    ensures s[i..][0] == s[i] && s[i..][1..j - i] == s[i + 1..j]
    ensures if j < |s| then s[i..][j - i] == s[j] else s[i..][1..] == s[i + 1..j]
  {
  }

  lemma QuotedWhole(s: string, i: nat, j: nat)
    requires i < j < |s| && s[i] == QUOTE && s[j] == QUOTE
    ensures s[i..j + 1] == Render(Quoted(s[i + 1..j]))
  {
  }

  lemma TakeOne(s: string, c: char, i: nat, at: nat, cell: Cell, cells: seq<Cell>, k: nat)
    requires i <= at < k <= |s| && s[at] == c && s[i..at] == Render(cell) && Readable(cell, c)
    requires AllReadable(cells, c) && s[at + 1..k] == Lead(cells, c)
    ensures AllReadable([cell] + cells, c) && s[i..k] == Lead([cell] + cells, c)
  {
    LeadCons(cell, cells, c);
    SliceThree(s, i, at, k);
  }

  lemma LeadCons(cell: Cell, cells: seq<Cell>, c: char)
    requires Readable(cell, c) && AllReadable(cells, c)
    ensures AllReadable([cell] + cells, c) && Lead([cell] + cells, c) == Render(cell) + [c] + Lead(cells, c)
  {
    assert ([cell] + cells)[1..] == cells;
  }

  lemma SliceThree(s: string, i: nat, at: nat, k: nat)
    requires i <= at < k <= |s|
    ensures s[i..k] == s[i..at] + [s[at]] + s[at + 1..k]
  {
  }

  /** Reading past cells: their texts, then what the rest gives. */
  lemma {:induction false} ReadLead(s: string, i: nat, k: nat, cells: seq<Cell>, c: char)
    requires c != QUOTE && AllReadable(cells, c) && i <= k <= |s| && s[i..k] == Lead(cells, c)
    ensures FieldsFrom(s, c, i) == Prepend(TextsOf(cells), FieldsFrom(s, c, k))
    decreases |cells|
  {
    if cells == [] {
      assert |s[i..k]| == k - i;
      PrependNothing(FieldsFrom(s, c, i));
    } else {
      var next := LeadStep(s, i, k, cells, c);
      ReadLead(s, next, k, cells[1..], c);
      PrependOne(cells[0].text, TextsOf(cells[1..]), FieldsFrom(s, c, k));
    }
  }

  lemma LeadStep(s: string, i: nat, k: nat, cells: seq<Cell>, c: char) returns (next: nat)
    requires c != QUOTE && AllReadable(cells, c) && i <= k <= |s| && s[i..k] == Lead(cells, c) && cells != []
    ensures i < next <= k && s[next..k] == Lead(cells[1..], c)
    ensures AllReadable(cells[1..], c) && TextsOf(cells) == [cells[0].text] + TextsOf(cells[1..])
    ensures FieldsFrom(s, c, i) == Cons(cells[0].text, FieldsFrom(s, c, next))
  {
    AllReadableCons(cells, c);
    next := LeadSlices(s, i, k, Render(cells[0]), c, Lead(cells[1..], c));
    CellThenMore(s, i, next, cells[0], c);
  }

  lemma PrependNothing(r: Result<seq<string>, CsvError>)
    ensures Prepend([], r) == r
  {
    assert r.Ok? ==> [] + r.value == r.value;
  }

  lemma PrependOne(t: string, ts: seq<string>, r: Result<seq<string>, CsvError>)
    ensures Cons(t, Prepend(ts, r)) == Prepend([t] + ts, r)
  {
    assert r.Ok? ==> [t] + (ts + r.value) == [t] + ts + r.value;
  }

  ghost predicate UnclosedAt(s: string, c: char, cells: seq<Cell>, k: int) {
    0 <= k <= |s| && AllReadable(cells, c) && s[..k] == Lead(cells, c) && IsUnclosed(s[k..])
  }

  ghost predicate BrokenAt(s: string, c: char, cells: seq<Cell>, k: int) {
    0 <= k <= |s| && AllReadable(cells, c) && s[..k] == Lead(cells, c) && IsBroken(s[k..], c)
  }

  /** A line is accepted exactly when some writer could have written it. It has an unclosed quote exactly when
      readable cells are followed by a quote that nothing closes, and an invalid format exactly when they are
      followed by a quoted field that runs into something else than the separator. */
  lemma LineIsRead(s: string, c: char)
    requires c != QUOTE
    ensures FieldsFrom(s, c, 0).Ok? <==>
            exists cells :: cells != [] && AllReadable(cells, c) && RenderLine(cells, c) == s
    ensures FieldsFrom(s, c, 0) == Err(UnclosedQuote) <==> exists cells, k :: UnclosedAt(s, c, cells, k)
    ensures FieldsFrom(s, c, 0) == Err(InvalidFormat) <==> exists cells, k :: BrokenAt(s, c, cells, k)
  {
    var cells, k, last := TakeApart(s, c, 0);
    assert s[0..k] == s[..k];
    SomeEnd(s, c, cells, k, last, FieldsFrom(s, c, 0));
    OnlyThen(s, c);
  }

  lemma SomeEnd(s: string, c: char, cells: seq<Cell>, k: nat, last: Cell, r: Result<seq<string>, CsvError>)
    requires k <= |s| && AllReadable(cells, c) && s[..k] == Lead(cells, c) && EndsAs(s, c, k, last, r)
    ensures r.Ok? ==> exists all :: all != [] && AllReadable(all, c) && RenderLine(all, c) == s
    ensures r.Err? ==> r.error == UnclosedQuote || r.error == InvalidFormat
    ensures r == Err(UnclosedQuote) ==> exists cells, k :: UnclosedAt(s, c, cells, k)
    ensures r == Err(InvalidFormat) ==> exists cells, k :: BrokenAt(s, c, cells, k)
  {
    if r.Ok? {
      LeadRenders(cells, last, c);
      assert s[..k] + s[k..] == s && AllReadable(cells + [last], c);
    } else {
      assert UnclosedAt(s, c, cells, k) || BrokenAt(s, c, cells, k);
    }
  }

  lemma OnlyThen(s: string, c: char)
    requires c != QUOTE
    ensures (exists cells :: cells != [] && AllReadable(cells, c) && RenderLine(cells, c) == s) ==>
              FieldsFrom(s, c, 0).Ok?
    ensures (exists cells, k :: UnclosedAt(s, c, cells, k)) ==> FieldsFrom(s, c, 0) == Err(UnclosedQuote)
    ensures (exists cells, k :: BrokenAt(s, c, cells, k)) ==> FieldsFrom(s, c, 0) == Err(InvalidFormat)
  {
    if cells :| cells != [] && AllReadable(cells, c) && RenderLine(cells, c) == s { ParseInvertsWriter(cells, c); }
    if cells, k :| UnclosedAt(s, c, cells, k) { UnclosedFails(s, c, cells, k); }
    if cells, k :| BrokenAt(s, c, cells, k) { BrokenFails(s, c, cells, k); }
  }

  lemma UnclosedFails(s: string, c: char, cells: seq<Cell>, k: nat)
    requires c != QUOTE && UnclosedAt(s, c, cells, k)
    ensures FieldsFrom(s, c, 0) == Err(UnclosedQuote)
  {
    LeadThen(s, c, cells, k);
    assert s[k..][0] == s[k] && s[k..][1..] == s[k + 1..|s|];
    NoneIn(s, QUOTE, k + 1, |s|);
  }

  lemma BrokenFails(s: string, c: char, cells: seq<Cell>, k: nat)
    requires c != QUOTE && BrokenAt(s, c, cells, k)
    ensures FieldsFrom(s, c, 0) == Err(InvalidFormat)
  {
    LeadThen(s, c, cells, k);
    BrokenHere(s, c, k);
  }

  lemma BrokenHere(s: string, c: char, k: nat)
    requires k <= |s| && IsBroken(s[k..], c)
    ensures FieldsFrom(s, c, k) == Err(InvalidFormat)
  {
    var r := s[k..];
    var e :| ClosesAt(r, e) && e + 1 < |r| && r[e + 1] != c;
    ClosesFirst(s, k, e);
    assert r[e + 1] == s[k + e + 1];
  }

  lemma ClosesFirst(s: string, k: nat, e: nat)
    requires k <= |s| && ClosesAt(s[k..], e)
    ensures s[k] == QUOTE && IndexOfChar(s, QUOTE, k + 1) == k + e
  {
    assert s[k..][0] == s[k] && s[k..][e] == s[k + e] && s[k..][1..e] == s[k + 1..k + e];
    NoneIn(s, QUOTE, k + 1, k + e);
  }

  lemma NoneIn(s: string, c: char, a: nat, b: nat)
    requires a <= b <= |s| && c !in s[a..b]
    ensures forall k :: a <= k < b ==> s[k] != c
  {
    assert forall k :: a <= k < b ==> s[a..b][k - a] == s[k];
  }

  lemma LeadThen(s: string, c: char, cells: seq<Cell>, k: nat)
    requires c != QUOTE && k <= |s| && AllReadable(cells, c) && s[..k] == Lead(cells, c)
    ensures FieldsFrom(s, c, 0) == Prepend(TextsOf(cells), FieldsFrom(s, c, k))
  {
    assert s[0..k] == s[..k];
    ReadLead(s, 0, k, cells, c);
  }
}
