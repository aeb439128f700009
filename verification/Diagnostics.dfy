/** The order in which the driver prints the diagnostics of a sigil document. */
module Diagnostics {
  import opened Options
  import opened Sequences
  import opened Sorting

  datatype Level = Warning | Error

  /** A diagnostic as the parser records it; the message pointer may be null. */
  datatype Diag = Diag(level: Level, kind: int, line: nat, column: nat, message: Option<string>)

  /** What the comparator sees of a diagnostic: a missing message is the empty text. */
  datatype Key = Key(level: Level, kind: int, line: nat, column: nat, message: string)

  function KeyOf(d: Diag): Key {
    Key(d.level, d.kind, d.line, d.column, if d.message.Some? then d.message.value else "")
  }

  /** `strcmp`, up to the size of its result. */
  function StrCmp(a: string, b: string): int {
    if a == "" then if b == "" then 0 else -1
    else if b == "" then 1
    else if a[0] < b[0] then -1
    else if a[0] > b[0] then 1
    else StrCmp(a[1..], b[1..])
  }

  /** Errors before warnings, then by kind, line, column and message. */
  function KeyCompare(a: Key, b: Key): int {
    if a.level != b.level then if a.level == Error then -1 else 1
    else if a.kind != b.kind then a.kind - b.kind
    else if a.line != b.line then if a.line < b.line then -1 else 1
    else if a.column != b.column then if a.column < b.column then -1 else 1
    else StrCmp(a.message, b.message)
  }

  /** The comparator of two cells of the index array: equal keys are told apart by the index. */
  function Compare(doc: seq<Diag>, ia: nat, ib: nat): int
    requires ia < |doc| && ib < |doc|
  {
    var byKey := KeyCompare(KeyOf(doc[ia]), KeyOf(doc[ib]));
    if byKey != 0 then byKey else if ia < ib then -1 else if ia > ib then 1 else 0
  }

  /** The comparator as it is handed to the sort; it looks at the document set for sorting, if there is one. */
  function Comparator(sortDoc: Option<seq<Diag>>): Order<nat> {
    (ia: nat, ib: nat) =>
      if sortDoc.Some? && ia < |sortDoc.value| && ib < |sortDoc.value| then Compare(sortDoc.value, ia, ib) else 0
  }

  function Indices(n: nat): (r: seq<nat>)
    ensures |r| == n && forall i :: 0 <= i < n ==> r[i] == i
    ensures forall x :: x in r <==> 0 <= x < n
  {
    var r := seq(n, i => i);
    MembersAreIndices(r);
    r
  }

  lemma MembersAreIndices(r: seq<nat>)
    requires forall i :: 0 <= i < |r| ==> r[i] == i
    ensures forall x :: x in r <==> 0 <= x < |r|
  {
    forall x | 0 <= x < |r| ensures x in r { assert r[x] == x; }
  }

  // ---------- the comparator is a total order ----------

  lemma {:induction false} StrCmpSigns(a: string, b: string)
    ensures (StrCmp(a, b) == 0 <==> a == b) && (StrCmp(a, b) < 0 <==> StrCmp(b, a) > 0)
  {
    if a != "" && b != "" && a[0] == b[0] {
      StrCmpSigns(a[1..], b[1..]);
      assert a == [a[0]] + a[1..] && b == [b[0]] + b[1..];
    }
  }

  lemma {:induction false} StrCmpTransitive(a: string, b: string, c: string)
    requires StrCmp(a, b) <= 0 && StrCmp(b, c) <= 0
    ensures StrCmp(a, c) <= 0
  {
    if a != "" && b != "" && c != "" && a[0] == b[0] == c[0] { StrCmpTransitive(a[1..], b[1..], c[1..]); }
  }

  lemma KeySigns(a: Key, b: Key)
    ensures (KeyCompare(a, b) == 0 <==> a == b) && (KeyCompare(a, b) < 0 <==> KeyCompare(b, a) > 0)
  {
    StrCmpSigns(a.message, b.message);
  }

  lemma KeyTransitive(a: Key, b: Key, c: Key)
    requires KeyCompare(a, b) <= 0 && KeyCompare(b, c) <= 0
    ensures KeyCompare(a, c) <= 0
  {
    if StrCmp(a.message, b.message) <= 0 && StrCmp(b.message, c.message) <= 0 {
      StrCmpTransitive(a.message, b.message, c.message);
    }
  }

  /** The comparator is a strict total order on distinct indices. */
  lemma CompareIsTotal(doc: seq<Diag>)
    ensures TotalOn(Comparator(Some(doc)), Indices(|doc|))
  {
    var cmp, all := Comparator(Some(doc)), Indices(|doc|);
    forall x, y | x in all && y in all ensures (cmp(x, y) == 0 <==> x == y) && (cmp(x, y) < 0 <==> cmp(y, x) > 0) {
      KeySigns(KeyOf(doc[x]), KeyOf(doc[y]));
      KeySigns(KeyOf(doc[y]), KeyOf(doc[x]));
      assert cmp(x, y) == Compare(doc, x, y) && cmp(y, x) == Compare(doc, y, x);
    }
    forall x, y, z | x in all && y in all && z in all && Chain(cmp, x, y, z) ensures cmp(x, z) <= 0 {
      CompareTransitive(doc, x, y, z);
    }
  }

  lemma CompareTransitive(doc: seq<Diag>, x: nat, y: nat, z: nat)
    requires x < |doc| && y < |doc| && z < |doc| && Compare(doc, x, y) <= 0 && Compare(doc, y, z) <= 0
    ensures Compare(doc, x, z) <= 0
  {
    var a, b, c := KeyOf(doc[x]), KeyOf(doc[y]), KeyOf(doc[z]);
    KeyTransitive(a, b, c);
    KeySigns(a, b);
    KeySigns(b, c);
    KeySigns(a, c);
  }

  // ---------- the sorted indices ----------

  function SortedIndices(doc: seq<Diag>): (r: seq<nat>)
    ensures multiset(r) == multiset(Indices(|doc|))
  {
    InsertionSorted(Comparator(Some(doc)), Indices(|doc|))
  }

  /** Any correct sort of the indices gives one and the same array. */
  lemma AnySortAgrees(doc: seq<Diag>, sorted: seq<nat>)
    ensures IsSortOf(Comparator(Some(doc)), Indices(|doc|), sorted) <==> sorted == SortedIndices(doc)
  {
    CompareIsTotal(doc);
    SortIsInsertionSorted(Comparator(Some(doc)), Indices(|doc|), sorted);
  }

  lemma SortedIndicesInRange(doc: seq<Diag>)
    ensures |SortedIndices(doc)| == |doc| && forall p :: 0 <= p < |doc| ==> SortedIndices(doc)[p] < |doc|
    ensures forall i :: 0 <= i < |doc| ==> i in SortedIndices(doc)
  {
    SameElements(SortedIndices(doc), Indices(|doc|));
    forall p | 0 <= p < |doc| ensures SortedIndices(doc)[p] < |doc| {
      assert SortedIndices(doc)[p] in SortedIndices(doc);
    }
  }

  lemma SortedPairsBelow(doc: seq<Diag>, p: nat, q: nat)
    requires p < q < |doc|
    ensures var sorted := SortedIndices(doc);
            && |sorted| == |doc| && sorted[p] < |doc| && sorted[q] < |doc|
            && Comparator(Some(doc))(sorted[p], sorted[q]) <= 0
  {
    SortedIndicesInRange(doc);
    AnySortAgrees(doc, SortedIndices(doc));
  }

  // ---------- what the order promises ----------

  /** Errors come before warnings. */
  lemma ErrorsFirst(doc: seq<Diag>, p: nat, q: nat)
    requires p < q < |doc|
    ensures var sorted := SortedIndices(doc);
            |sorted| == |doc| && sorted[p] < |doc| && sorted[q] < |doc|
            && (doc[sorted[q]].level == Error ==> doc[sorted[p]].level == Error)
  {
    SortedPairsBelow(doc, p, q);
    assert Compare(doc, SortedIndices(doc)[p], SortedIndices(doc)[q]) <= 0;
  }

  /** The diagnostics in the order they are printed. */
  function InOrder(doc: seq<Diag>): (r: seq<Diag>)
    ensures |r| == |doc|
  {
    SortedIndicesInRange(doc);
    seq(|doc|, p requires 0 <= p < |doc| => doc[SortedIndices(doc)[p]])
  }

  /** `x` comes before `y`, or is `y`: a proper prefix, or smaller at the first character where they differ. */
  ghost predicate AtMost(x: string, y: string) {
    x == y || exists i :: Differ(x, y, i)
  }

  predicate Differ(x: string, y: string, i: int) {
    0 <= i <= |x| && i < |y| && x[..i] == y[..i] && (i == |x| || x[i] < y[i])
  }

  lemma {:induction false} StrCmpIsLexical(x: string, y: string)
    ensures StrCmp(x, y) <= 0 ==> AtMost(x, y)
  {
    if x == "" {
      assert y != "" ==> Differ(x, y, 0);
    } else if y != "" && x[0] == y[0] {
      StrCmpIsLexical(x[1..], y[1..]);
      assert x == [x[0]] + x[1..] && y == [y[0]] + y[1..];
      if i :| Differ(x[1..], y[1..], i) {
        assert x[..i + 1] == [x[0]] + x[1..][..i] && y[..i + 1] == [y[0]] + y[1..][..i];
        assert Differ(x, y, i + 1);
      }
    } else if y != "" {
      assert x[..0] == y[..0];
      assert x[0] < y[0] ==> Differ(x, y, 0);
    }
  }

  /** Within one level the kinds ascend; within a kind the lines, within a line the columns, within a column the
      messages; diagnostics that agree in all of these keep their input order. */
  lemma PrintedInOrder(doc: seq<Diag>, p: nat, q: nat)
    requires p < q < |doc|
    ensures var a, b := KeyOf(InOrder(doc)[p]), KeyOf(InOrder(doc)[q]);
            && (a.level == b.level ==> a.kind <= b.kind)
            && (a.level == b.level && a.kind == b.kind ==> a.line <= b.line)
            && (a.level == b.level && a.kind == b.kind && a.line == b.line ==> a.column <= b.column)
            && (a.(message := "") == b.(message := "") ==> AtMost(a.message, b.message))
            && (a == b ==> |SortedIndices(doc)| == |doc| && SortedIndices(doc)[p] < SortedIndices(doc)[q])
  {
    SortedPairsBelow(doc, p, q);
    var ia, ib := SortedIndices(doc)[p], SortedIndices(doc)[q];
    var a, b := KeyOf(doc[ia]), KeyOf(doc[ib]);
    assert InOrder(doc)[p] == doc[ia] && InOrder(doc)[q] == doc[ib];
    assert Compare(doc, ia, ib) <= 0;
    KeySigns(a, b);
    StrCmpIsLexical(a.message, b.message);
    SortedDistinct(doc, p, q);
  }

  lemma SortedDistinct(doc: seq<Diag>, p: nat, q: nat)
    requires p < q < |doc|
    ensures |SortedIndices(doc)| == |doc| && SortedIndices(doc)[p] != SortedIndices(doc)[q]
  {
    SortedIndicesInRange(doc);
    var s := SortedIndices(doc);
    IndicesOnce(|doc|, s[p]);
    if s[q] == s[p] { TwiceInside(s, p, q); }
  }

  lemma TwiceInside(s: seq<nat>, p: nat, q: nat)
    requires p < q < |s| && s[p] == s[q]
    ensures multiset(s)[s[p]] >= 2
  {
    assert s == s[..p] + [s[p]] + s[p + 1..q] + [s[p]] + s[q + 1..];
  }

  lemma {:induction false} IndicesOnce(n: nat, x: nat)
    ensures multiset(Indices(n))[x] <= 1
  {
    if n > 0 {
      IndicesOnce(n - 1, x);
      assert Indices(n) == Indices(n - 1) + [n - 1];
      assert x == n - 1 ==> x !in Indices(n - 1);
    }
  }

  /** What a structured block says of its diagnostic. */
  lemma BlockTells(doc: seq<Diag>, p: nat)
    requires p < |doc|
    ensures var d, b := InOrder(doc)[p], Structured(doc)[p];
            && (b.level == "error" <==> d.level == Error) && (b.level == "warning" <==> d.level == Warning)
            && b.kind == KindName(d.kind) && b.line == d.line && b.column == d.column && b.message == KeyOf(d).message
  {
    assert "error" != "warning" by { assert "error"[0] != "warning"[0]; }
  }

  /** The nine kinds have nine names. */
  lemma KindNamesDiffer(a: int, b: int)
    requires 0 <= a <= 8 && 0 <= b <= 8
    ensures KindName(a) == KindName(b) <==> a == b
  {
    assert |"ok"| == |"io"| == 2 && "ok"[0] != "io"[0];
    assert |"duplicate_key"| == |"unknown_field"| == 13 && "duplicate_key"[0] != "unknown_field"[0];
  }

  /** An emitted message never exceeds the buffer, and one that fits is whole. */
  lemma EmittedMessage(inputPath: Option<string>, d: Diag)
    ensures |Emit(inputPath, d).message| <= 2047
    ensures d.message.Some? && |KindName(d.kind)| + |d.message.value| <= 2037 ==>
              Emit(inputPath, d).message == "sigilo[" + KindName(d.kind) + "]: " + d.message.value
    ensures Emit(inputPath, d).path.Some? <==> d.line > 0
  {
  }

  /** A diagnostic with a message, and one without message and without file. */
  lemma EmittedExamples()
    ensures Emit(Some("f"), Diag(Error, 1, 3, 4, Some("boom")))
            == Emitted(Error, "sigilo[syntax]: boom", Some("f"), 3, 4)
    ensures Emit(None, Diag(Warning, 8, 2, 1, None))
            == Emitted(Warning, "sigilo[io]: <no message>", Some("<sigil>"), 2, 1)
  {
    ShortMessages();
  }

  lemma ShortMessages()
    ensures "sigilo[" + "syntax" + "]: " + "boom" == "sigilo[syntax]: boom"
    ensures "sigilo[" + "io" + "]: " + "<no message>" == "sigilo[io]: <no message>"
  {
  }

  function KeyOrder(): Order<Key> {
    (a, b) => KeyCompare(a, b)
  }

  function Keys(doc: seq<Diag>): seq<Key> {
    Mapped(d => KeyOf(d), doc)
  }

  lemma KeysAreTotal(keys: seq<Key>)
    ensures TotalOn(KeyOrder(), keys)
  {
    forall x, y | x in keys && y in keys
      ensures (KeyOrder()(x, y) == 0 <==> x == y) && (KeyOrder()(x, y) < 0 <==> KeyOrder()(y, x) > 0)
    {
      KeySigns(x, y);
    }
    forall x, y, z | x in keys && y in keys && z in keys && Chain(KeyOrder(), x, y, z) ensures KeyOrder()(x, z) <= 0 {
      KeyTransitive(x, y, z);
    }
  }

  lemma KeysInOrder(doc: seq<Diag>)
    ensures Ordered(KeyOrder(), Keys(InOrder(doc)))
  {
    var keys := Keys(InOrder(doc));
    forall p, q | 0 <= p < q < |keys| ensures KeyOrder()(keys[p], keys[q]) <= 0 {
      KeyPair(doc, p, q);
    }
  }

  lemma KeyPair(doc: seq<Diag>, p: nat, q: nat)
    requires p < q < |doc|
    ensures KeyCompare(KeyOf(InOrder(doc)[p]), KeyOf(InOrder(doc)[q])) <= 0
  {
    SortedPairsBelow(doc, p, q);
    assert Compare(doc, SortedIndices(doc)[p], SortedIndices(doc)[q]) <= 0;
  }

  lemma InOrderPermutes(doc: seq<Diag>)
    ensures multiset(InOrder(doc)) == multiset(doc)
  {
    if doc == [] {
      assert InOrder(doc) == [];
    } else {
      var at := (i: nat) => if i < |doc| then doc[i] else doc[0];
      SortedIndicesInRange(doc);
      MappedPermutes(at, SortedIndices(doc), Indices(|doc|));
      assert Mapped(at, SortedIndices(doc)) == InOrder(doc);
      assert Mapped(at, Indices(|doc|)) == doc;
    }
  }

  /** Documents with the same diagnostics in any order give the same keys in printing order, and only those. */
  lemma KeysDependOnContents(doc: seq<Diag>, other: seq<Diag>)
    ensures Keys(InOrder(doc)) == Keys(InOrder(other)) <==> multiset(Keys(doc)) == multiset(Keys(other))
  {
    KeysPermute(doc);
    KeysPermute(other);
    if multiset(Keys(doc)) == multiset(Keys(other)) {
      KeysAreTotal(Keys(InOrder(doc)));
      KeysInOrder(doc);
      KeysInOrder(other);
      OrderedUnique(KeyOrder(), Keys(InOrder(doc)), Keys(InOrder(other)));
    }
  }

  lemma KeysPermute(doc: seq<Diag>)
    ensures multiset(Keys(InOrder(doc))) == multiset(Keys(doc))
  {
    InOrderPermutes(doc);
    MappedPermutes(d => KeyOf(d), InOrder(doc), doc);
  }

  // ---------- the printers ----------

  function KindName(kind: int): string {
    match kind
    case 0 => "ok"
    case 1 => "syntax"
    case 2 => "type"
    case 3 => "missing_required"
    case 4 => "duplicate_key"
    case 5 => "unknown_field"
    case 6 => "deprecated_field"
    case 7 => "schema_mismatch"
    case 8 => "io"
    case _ => "unknown"
  }

  /** What the structured printer writes of one diagnostic. */
  datatype Block = Block(level: string, kind: string, line: nat, column: nat, message: string)

  function BlockOf(k: Key): Block {
    Block(if k.level == Error then "error" else "warning", KindName(k.kind), k.line, k.column, k.message)
  }

  function Structured(doc: seq<Diag>): seq<Block> {
    Mapped(k => BlockOf(k), Keys(InOrder(doc)))
  }

  /** What the text printer hands to the diagnostic emitter; the file is named only for a positive line. */
  datatype Emitted = Emitted(level: Level, message: string, path: Option<string>, line: nat, column: nat)

  function Emit(inputPath: Option<string>, d: Diag): Emitted {
    var msg := "sigilo[" + KindName(d.kind) + "]: " + if d.message.Some? then d.message.value else "<no message>";
    var path := if d.line > 0 then Some(if inputPath.Some? then inputPath.value else "<sigil>") else None;
    Emitted(d.level, if |msg| > 2047 then msg[..2047] else msg, path, d.line, d.column)
  }

  function Text(inputPath: Option<string>, doc: seq<Diag>): seq<Emitted> {
    Mapped(d => Emit(inputPath, d), InOrder(doc))
  }

  /** The structured report depends only on which diagnostics there are, not on their input order. */
  lemma StructuredIgnoresOrder(doc: seq<Diag>, other: seq<Diag>)
    requires multiset(doc) == multiset(other)
    ensures Structured(doc) == Structured(other)
  {
    MappedPermutes(d => KeyOf(d), doc, other);
    KeysDependOnContents(doc, other);
  }

  /** Two diagnostics that differ only in that one has no message and the other an empty one. */
  predicate Clash(d: Diag, e: Diag) {
    d.message == None && e == d.(message := Some(""))
  }

  /** Same key: the same diagnostic, or a clash. */
  lemma SameKey(d: Diag, e: Diag)
    requires KeyOf(d) == KeyOf(e)
    ensures d == e || Clash(d, e) || Clash(e, d)
  {
  }

  lemma WithoutClash(doc: seq<Diag>, other: seq<Diag>)
    requires multiset(doc) == multiset(other) && forall d, e :: d in doc && e in doc ==> !Clash(d, e)
    ensures InOrder(doc) == InOrder(other)
  {
    MappedPermutes(d => KeyOf(d), doc, other);
    KeysDependOnContents(doc, other);
    InOrderPermutes(doc);
    InOrderPermutes(other);
    SameElements(InOrder(doc), doc);
    SameElements(InOrder(other), doc);
    forall p | 0 <= p < |doc| ensures InOrder(doc)[p] == InOrder(other)[p] {
      var d, e := InOrder(doc)[p], InOrder(other)[p];
      assert Keys(InOrder(doc))[p] == Keys(InOrder(other))[p];
      assert d in InOrder(doc) && e in InOrder(other);
      SameKey(d, e);
    }
  }

  lemma SameKeysCompareAlike(doc: seq<Diag>, other: seq<Diag>, x: nat, y: nat)
    requires |doc| == |other| && x < |doc| && y < |doc|
    requires KeyOf(doc[x]) == KeyOf(other[x]) && KeyOf(doc[y]) == KeyOf(other[y])
    ensures Comparator(Some(doc))(x, y) == Comparator(Some(other))(x, y)
  {
    assert Compare(doc, x, y) == Compare(other, x, y);
  }

  lemma SameKeysSameOrder(doc: seq<Diag>, other: seq<Diag>)
    requires |doc| == |other| && forall k :: 0 <= k < |doc| ==> KeyOf(doc[k]) == KeyOf(other[k])
    ensures SortedIndices(doc) == SortedIndices(other)
  {
    var sorted := SortedIndices(doc);
    SortedIndicesInRange(doc);
    forall p, q | 0 <= p < q < |sorted| ensures Comparator(Some(other))(sorted[p], sorted[q]) <= 0 {
      SortedPairsBelow(doc, p, q);
      SameKeysCompareAlike(doc, other, sorted[p], sorted[q]);
    }
    AnySortAgrees(other, sorted);
  }

  function Swapped(doc: seq<Diag>, i: nat, j: nat): (r: seq<Diag>)
    requires i < |doc| && j < |doc|
    ensures multiset(r) == multiset(doc)
  {
    doc[i := doc[j]][j := doc[i]]
  }

  /** Swapping two clashing diagnostics changes the text report. */
  lemma ClashShows(inputPath: Option<string>, doc: seq<Diag>, i: nat, j: nat)
    requires i < |doc| && j < |doc| && Clash(doc[i], doc[j])
    ensures Text(inputPath, Swapped(doc, i, j)) != Text(inputPath, doc)
  {
    SwapKeepsOrder(doc, i, j);
    SortedIndicesInRange(doc);
    assert i in SortedIndices(doc);
    var p :| 0 <= p < |doc| && SortedIndices(doc)[p] == i;
    ClashEmits(inputPath, doc[i], doc[j]);
    EmittedAt(inputPath, doc, p);
    EmittedAt(inputPath, Swapped(doc, i, j), p);
  }

  lemma SwapKeepsOrder(doc: seq<Diag>, i: nat, j: nat)
    requires i < |doc| && j < |doc| && KeyOf(doc[i]) == KeyOf(doc[j])
    ensures SortedIndices(Swapped(doc, i, j)) == SortedIndices(doc)
  {
    SameKeysSameOrder(doc, Swapped(doc, i, j));
  }

  lemma EmittedAt(inputPath: Option<string>, doc: seq<Diag>, p: nat)
    requires p < |doc|
    ensures |SortedIndices(doc)| == |doc| && SortedIndices(doc)[p] < |doc|
    ensures Text(inputPath, doc)[p] == Emit(inputPath, doc[SortedIndices(doc)[p]])
    ensures Structured(doc)[p] == BlockOf(KeyOf(doc[SortedIndices(doc)[p]]))
  {
    SortedIndicesInRange(doc);
  }

  lemma ClashEmits(inputPath: Option<string>, d: Diag, e: Diag)
    requires Clash(d, e)
    ensures Emit(inputPath, d) != Emit(inputPath, e)
  {
    var head := "sigilo[" + KindName(d.kind) + "]: ";
    assert |Emit(inputPath, e).message| == |head| < |Emit(inputPath, d).message|;
  }

  /** The text report ignores the input order exactly when no two diagnostics differ only in that one has no
      message and the other an empty one. */
  lemma TextIgnoresOrder(inputPath: Option<string>, doc: seq<Diag>)
    ensures (forall other :: multiset(other) == multiset(doc) ==> Text(inputPath, other) == Text(inputPath, doc))
            <==> forall d, e :: d in doc && e in doc ==> !Clash(d, e)
  {
    if d, e :| d in doc && e in doc && Clash(d, e) {
      var i :| 0 <= i < |doc| && doc[i] == d;
      var j :| 0 <= j < |doc| && doc[j] == e;
      ClashShows(inputPath, doc, i, j);
    } else {
      forall other | multiset(other) == multiset(doc) ensures Text(inputPath, other) == Text(inputPath, doc) {
        WithoutClash(doc, other);
      }
    }
  }

  /** Where every diagnostic has a message, the text report does not depend on the input order. */
  lemma WithMessagesTextIgnoresOrder(inputPath: Option<string>, doc: seq<Diag>, other: seq<Diag>)
    requires multiset(other) == multiset(doc) && forall d :: d in doc ==> d.message.Some?
    ensures Text(inputPath, other) == Text(inputPath, doc)
  {
    TextIgnoresOrder(inputPath, doc);
  }

  /** A missing and an empty message in either order: two different text reports. No parsed document holds such
      a pair, as recording a diagnostic refuses a missing message. */
  lemma InputOrderShows(inputPath: Option<string>)
    ensures var d := Diag(Error, 1, 0, 0, None);
            var e := d.(message := Some(""));
            Text(inputPath, [d, e]) != Text(inputPath, [e, d]) && Structured([d, e]) == Structured([e, d])
  {
    var d := Diag(Error, 1, 0, 0, None);
    var e := d.(message := Some(""));
    assert Swapped([d, e], 0, 1) == [e, d];
    ClashShows(inputPath, [d, e], 0, 1);
    StructuredIgnoresOrder([d, e], [e, d]);
  }

  // ---------- recording ----------

  /** The parser's one way of adding a diagnostic: a null message is refused. */
  function Recorded(doc: seq<Diag>, d: Diag): seq<Diag> {
    if d.message.None? then doc else doc + [d]
  }

  /** The document after a run of such calls. */
  function RecordedAll(calls: seq<Diag>): seq<Diag> {
    if calls == [] then [] else Recorded(RecordedAll(calls[..|calls| - 1]), calls[|calls| - 1])
  }

  lemma {:induction false} RecordedCount(calls: seq<Diag>, d: Diag)
    ensures multiset(RecordedAll(calls))[d] == if d.message.Some? then multiset(calls)[d] else 0
  {
    if calls != [] {
      var n := |calls| - 1;
      RecordedCount(calls[..n], d);
      assert calls == calls[..n] + [calls[n]];
    }
  }

  /** For a parsed document, both reports depend only on which diagnostics were recorded, not on their order. */
  lemma ParsedReportsIgnoreOrder(inputPath: Option<string>, calls: seq<Diag>, others: seq<Diag>)
    requires multiset(calls) == multiset(others)
    ensures Text(inputPath, RecordedAll(calls)) == Text(inputPath, RecordedAll(others))
    ensures Structured(RecordedAll(calls)) == Structured(RecordedAll(others))
  {
    var doc, other := RecordedAll(calls), RecordedAll(others);
    forall d ensures multiset(doc)[d] == multiset(other)[d] && (d in doc ==> d.message.Some?) {
      RecordedCount(calls, d);
      RecordedCount(others, d);
      assert d in doc <==> d in multiset(doc);
    }
    assert multiset(other) == multiset(doc);
    WithMessagesTextIgnoresOrder(inputPath, doc, other);
    StructuredIgnoresOrder(doc, other);
  }

  // ---------- the driver ----------

  lemma OneMore<T>(s: seq<T>, i: nat)
    requires i < |s|
    ensures s[..i + 1] == s[..i] + [s[i]]
  {
  }

  /** The document the comparator looks at is a global of the driver. */
  class Driver {
    var sortDoc: Option<seq<Diag>>

    /** Fills the index array, sorts it in place and clears the global again; null when there is nothing to sort. */
    method SortedDiagIndices(doc: seq<Diag>, qsort: (seq<nat>, Order<nat>) -> seq<nat>) returns (indices: array?<nat>)
      requires Sorts(qsort)
      modifies this
      ensures indices == null <==> |doc| == 0
      ensures indices == null ==> sortDoc == old(sortDoc)
      ensures indices != null ==> fresh(indices) && indices[..] == SortedIndices(doc) && sortDoc == None
    {
      if |doc| == 0 { return null; }
      indices := new nat[|doc|];
      for i := 0 to |doc|
        invariant forall k :: 0 <= k < i ==> indices[k] == k
      {
        indices[i] := i;
      }
      sortDoc := Some(doc);
      assert indices[..] == Indices(|doc|);
      CompareIsTotal(doc);
      AnySortAgrees(doc, qsort(indices[..], Comparator(sortDoc)));
      SortedIndicesInRange(doc);
      var sorted := qsort(indices[..], Comparator(sortDoc));
      forall k | 0 <= k < |doc| { indices[k] := sorted[k]; }
      sortDoc := None;
    }

    /** The text printer, up to what it hands to the emitter. */
    method PrintDiagnostics(doc: seq<Diag>, inputPath: Option<string>, qsort: (seq<nat>, Order<nat>) -> seq<nat>)
      returns (out: seq<Emitted>)
      requires Sorts(qsort)
      modifies this
      ensures out == Text(inputPath, doc)
    {
      var indices := SortedDiagIndices(doc, qsort);
      ghost var wanted := Text(inputPath, doc);
      out := [];
      for i := 0 to |doc|
        invariant |wanted| == |doc| && out == wanted[..i]
        invariant |doc| > 0 ==> indices != null && indices.Length == |doc| && indices[..] == SortedIndices(doc)
        modifies {}
      {
        EmittedAt(inputPath, doc, i);
        var idx := if indices != null then indices[i] else i;
        assert idx == indices[..][i];
        out := out + [Emit(inputPath, doc[idx])];
        OneMore(wanted, i);
      }
    }

    /** The structured printer's list of diagnostics. */
    method PrintBlocks(doc: seq<Diag>, qsort: (seq<nat>, Order<nat>) -> seq<nat>) returns (out: seq<Block>)
      requires Sorts(qsort)
      modifies this
      ensures out == Structured(doc)
    {
      var indices := SortedDiagIndices(doc, qsort);
      ghost var wanted := Structured(doc);
      out := [];
      for i := 0 to |doc|
        invariant |wanted| == |doc| && out == wanted[..i]
        invariant |doc| > 0 ==> indices != null && indices.Length == |doc| && indices[..] == SortedIndices(doc)
        modifies {}
      {
        EmittedAt(None, doc, i);
        var idx := if indices != null then indices[i] else i;
        assert idx == indices[..][i];
        var d := doc[idx];
        OneMore(wanted, i);
        out := out + [Block(if d.level == Error then "error" else "warning", KindName(d.kind), d.line, d.column,
                            if d.message.Some? then d.message.value else "")];
      }
    }
  }
}
