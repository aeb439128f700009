/** Whole runs of the hash map, stated on (list, capacity) pairs: what every reachable map satisfies. */
module MapRuns {
  import opened Options
  import opened AssocLists
  import opened HashMaps

  /** One call; merging takes a map built by inserting `pairs`, and after copying the run goes on with the copy. */
  datatype Op<+K, +V> =
    Insert(key: K, value: V) | Remove(key: K) | Clear | Reserve(additional: nat) | Merge(pairs: Assoc<K, V>) | Copy

  datatype State<K, V> = State(list: Assoc<K, V>, capacity: nat)

  const INITIAL_CAPACITY: nat := 16

  ghost function Step<K(!new), V>(s: State<K, V>, op: Op<K, V>): (r: State<K, V>)
    requires s.capacity > 0
    ensures r.capacity > 0
  {
    match op
    case Insert(k, v) => State(Put(s.list, k, v), Grown(|s.list|, s.capacity))
    case Remove(k) => State(Delete(s.list, k), s.capacity)
    case Clear => State([], s.capacity)
    case Reserve(n) => Reserving(s, n)
    case Merge(pairs) =>
      var source := PutAll([], pairs);
      State(PutAll(s.list, source), Reserving(s, |source|).capacity)
    case Copy => Reserving(State(s.list, INITIAL_CAPACITY), 0)
  }

  ghost function Reserving<K, V>(s: State<K, V>, additional: nat): (r: State<K, V>)
    requires s.capacity > 0
    ensures s.capacity <= r.capacity && (|s.list| + additional) * 4 < r.capacity * 3
  {
    ReservedIsEnough(|s.list| + additional, s.capacity);
    State(s.list, Room(|s.list|, additional, s.capacity))
  }

  ghost function Run<K(!new), V>(s: State<K, V>, ops: seq<Op<K, V>>): (r: State<K, V>)
    requires s.capacity > 0
    ensures r.capacity > 0
    decreases |ops|
  {
    if ops == [] then s else Step(Run(s, ops[..|ops| - 1]), ops[|ops| - 1])
  }

  ghost function Reached<K(!new), V>(ops: seq<Op<K, V>>): State<K, V> {
    Run(State([], INITIAL_CAPACITY), ops)
  }

  /** Distinct keys, and less than three quarters full. */
  ghost predicate Sound<K(!new), V>(s: State<K, V>) {
    DistinctKeys(s.list) && 4 * |s.list| < 3 * s.capacity && INITIAL_CAPACITY <= s.capacity
  }

  lemma StepKeepsSound<K(!new), V>(s: State<K, V>, op: Op<K, V>)
    requires Sound(s)
    ensures Sound(Step(s, op))
  {
    match op
    case Insert(k, v) => LookupPut(s.list, k, v, k);
    case Remove(k) => LookupDelete(s.list, k, k);
    case Clear =>
    case Reserve(m) =>
    case Merge(pairs) =>
      SourceIsDistinct(pairs);
      MergeKeys(s.list, PutAll([], pairs));
      PutAllSize(s.list, PutAll([], pairs));
    case Copy =>
  }

  lemma {:induction false} SourceIsDistinct<K(!new), V>(pairs: Assoc<K, V>)
    ensures DistinctKeys(PutAll([], pairs))
    decreases |pairs|
  {
    if pairs != [] {
      var n := |pairs| - 1;
      SourceIsDistinct(pairs[..n]);
      LookupPut(PutAll([], pairs[..n]), pairs[n].key, pairs[n].value, pairs[n].key);
    }
  }

  /** Every reachable map has distinct keys and is less than three quarters full. */
  lemma {:induction false} ReachedIsSound<K(!new), V>(ops: seq<Op<K, V>>)
    ensures Sound(Reached(ops))
    decreases |ops|
  {
    if ops != [] {
      var n := |ops| - 1;
      ReachedIsSound(ops[..n]);
      StepKeepsSound(Reached(ops[..n]), ops[n]);
    }
  }

  /** What the run last said about a key. */
  ghost function LastWrite<K(!new), V>(ops: seq<Op<K, V>>, k: K): Option<V>
    decreases |ops|
  {
    if ops == [] then None
    else
      var n := |ops| - 1;
      var before := LastWrite(ops[..n], k);
      match ops[n]
      case Insert(q, v) => if q == k then Some(v) else before
      case Remove(q) => if q == k then None else before
      case Clear => None
      case Reserve(_) => before
      case Merge(pairs) =>
        var theirs := Lookup(PutAll([], pairs), k);
        if theirs.Some? then theirs else before
      case Copy => before
  }

  lemma {:induction false} LookupIsLastWrite<K(!new), V>(ops: seq<Op<K, V>>, k: K)
    ensures Lookup(Reached(ops).list, k) == LastWrite(ops, k)
    decreases |ops|
  {
    if ops != [] {
      var n := |ops| - 1;
      var l := Reached(ops[..n]).list;
      LookupIsLastWrite(ops[..n], k);
      ReachedIsSound(ops[..n]);
      match ops[n]
      case Insert(q, v) => LookupPut(l, q, v, k);
      case Remove(q) => LookupDelete(l, q, k);
      case Clear =>
      case Reserve(m) =>
      case Merge(pairs) =>
        SourceIsDistinct(pairs);
        MergeLookup(l, PutAll([], pairs), k);
      case Copy =>
    }
  }

  /** A moment: the number of a call, and the place of the key within that call. */
  datatype Moment = Moment(call: nat, place: nat)

  predicate Before(a: Moment, b: Moment) {
    a.call < b.call || (a.call == b.call && a.place < b.place)
  }

  /** The moment at which the present life of a key began: the insertion since which it was never absent. */
  ghost function Birth<K(!new), V>(ops: seq<Op<K, V>>, k: K): Option<Moment>
    decreases |ops|
  {
    if ops == [] then None
    else
      var n := |ops| - 1;
      var before := Birth(ops[..n], k);
      match ops[n]
      case Insert(q, v) => if q == k && before.None? then Some(Moment(n, 0)) else before
      case Remove(q) => if q == k then None else before
      case Clear => None
      case Reserve(_) => before
      case Merge(pairs) =>
        var source := PutAll([], pairs);
        if before.None? && Has(source, k) then Some(Moment(n, IndexOf(source, k))) else before
      case Copy => before
  }

  ghost predicate InBirthOrder<K(!new), V>(ops: seq<Op<K, V>>, l: Assoc<K, V>) {
    && (forall i :: 0 <= i < |l| ==> Birth(ops, l[i].key).Some? && Birth(ops, l[i].key).value.call < |ops|)
    && (forall i, j :: 0 <= i < j < |l| ==> Before(Birth(ops, l[i].key).value, Birth(ops, l[j].key).value))
  }

  lemma {:induction false} BornIffPresent<K(!new), V>(ops: seq<Op<K, V>>, k: K)
    ensures Birth(ops, k).Some? <==> LastWrite(ops, k).Some?
    decreases |ops|
  {
    if ops != [] { BornIffPresent(ops[..|ops| - 1], k); }
  }

  /** Iteration order is birth order: an update keeps its place, a re-insertion goes last, a merge appends its
      new keys in the order of the source. */
  lemma {:induction false} OrderIsBirthOrder<K(!new), V>(ops: seq<Op<K, V>>)
    ensures InBirthOrder(ops, Reached(ops).list)
    decreases |ops|
  {
    if ops != [] {
      var n := |ops| - 1;
      var l := Reached(ops[..n]).list;
      OrderIsBirthOrder(ops[..n]);
      ReachedIsSound(ops[..n]);
      match ops[n]
      case Insert(k, v) =>
        LookupIsLastWrite(ops[..n], k);
        BornIffPresent(ops[..n], k);
      case Remove(k) => DeleteIsBirthOrder(ops, k);
      case Clear =>
      case Reserve(m) =>
      case Merge(pairs) => MergeIsBirthOrder(ops, pairs);
      case Copy =>
    }
  }

  lemma DeleteIsBirthOrder<K(!new), V>(ops: seq<Op<K, V>>, k: K)
    requires ops != [] && ops[|ops| - 1] == Remove(k)
    requires InBirthOrder(ops[..|ops| - 1], Reached(ops[..|ops| - 1]).list)
    ensures InBirthOrder(ops, Reached(ops).list)
  {
    var l, r := Reached(ops[..|ops| - 1]).list, Reached(ops).list;
    ReachedIsSound(ops[..|ops| - 1]);
    assert forall i :: 0 <= i < |r| ==> r[i] == l[if i < IndexOf(l, k) then i else i + 1] && r[i].key != k;
  }

  lemma MergeIsBirthOrder<K(!new), V>(ops: seq<Op<K, V>>, pairs: Assoc<K, V>)
    requires ops != [] && ops[|ops| - 1] == Merge(pairs)
    requires InBirthOrder(ops[..|ops| - 1], Reached(ops[..|ops| - 1]).list)
    ensures InBirthOrder(ops, Reached(ops).list)
  {
    var r := Reached(ops).list;
    forall i | 0 <= i < |r| ensures Birth(ops, r[i].key).Some? && Birth(ops, r[i].key).value.call < |ops| {
      MergedBirth(ops, pairs, i);
    }
    forall i, j | 0 <= i < j < |r| ensures Before(Birth(ops, r[i].key).value, Birth(ops, r[j].key).value) {
      MergedBirth(ops, pairs, i);
      MergedBirth(ops, pairs, j);
      MergedInOrder(ops, pairs, i, j);
    }
  }

  /** The keys of the destination stay in front; those of the source that are new follow in its order. */
  ghost function Added<K(!new), V>(ops: seq<Op<K, V>>, pairs: Assoc<K, V>): seq<K> {
    Fresh(Keys(PutAll([], pairs)), Keys(Reached(ops).list))
  }

  lemma MergedKeys<K(!new), V>(ops: seq<Op<K, V>>, pairs: Assoc<K, V>)
    requires ops != [] && ops[|ops| - 1] == Merge(pairs)
    ensures var before := ops[..|ops| - 1];
            Keys(Reached(ops).list) == Keys(Reached(before).list) + Added(before, pairs)
  {
    ReachedIsSound(ops[..|ops| - 1]);
    SourceIsDistinct(pairs);
    MergeKeys(Reached(ops[..|ops| - 1]).list, PutAll([], pairs));
  }

  lemma MergedBirth<K(!new), V>(ops: seq<Op<K, V>>, pairs: Assoc<K, V>, i: nat)
    requires ops != [] && ops[|ops| - 1] == Merge(pairs) && i < |Reached(ops).list|
    requires InBirthOrder(ops[..|ops| - 1], Reached(ops[..|ops| - 1]).list)
    ensures var n := |ops| - 1;
            var l, added, birth := Reached(ops[..n]).list, Added(ops[..n], pairs), Birth(ops, Reached(ops).list[i].key);
            if i < |l| then birth == Birth(ops[..n], l[i].key) && birth.Some? && birth.value.call < n
            else i - |l| < |added| && birth == Some(Moment(n, IndexOf(PutAll([], pairs), added[i - |l|])))
  {
    var n := |ops| - 1;
    var l, added, r := Reached(ops[..n]).list, Added(ops[..n], pairs), Reached(ops).list;
    MergedKeys(ops, pairs);
    assert r[i].key == Keys(r)[i] == (Keys(l) + added)[i];
    if i < |l| {
      assert r[i].key == l[i].key;
    } else {
      NewKeyIsBorn(ops, pairs, r[i].key);
    }
  }

  lemma MergedInOrder<K(!new), V>(ops: seq<Op<K, V>>, pairs: Assoc<K, V>, i: nat, j: nat)
    requires ops != [] && ops[|ops| - 1] == Merge(pairs) && i < j < |Reached(ops).list|
    requires InBirthOrder(ops[..|ops| - 1], Reached(ops[..|ops| - 1]).list)
    ensures var before := ops[..|ops| - 1];
            var l, added, source := Reached(before).list, Added(before, pairs), PutAll([], pairs);
            && (j < |l| ==> Before(Birth(before, l[i].key).value, Birth(before, l[j].key).value))
            && (|l| <= i ==> j - |l| < |added| && IndexOf(source, added[i - |l|]) < IndexOf(source, added[j - |l|]))
  {
    var l := Reached(ops[..|ops| - 1]).list;
    MergedKeys(ops, pairs);
    assert |Keys(Reached(ops).list)| == |Reached(ops).list|;
    if |l| <= i {
      SourceIsDistinct(pairs);
      FreshInOrder(PutAll([], pairs), Keys(l), i - |l|, j - |l|);
    }
  }

  lemma NewKeyIsBorn<K(!new), V>(ops: seq<Op<K, V>>, pairs: Assoc<K, V>, k: K)
    requires ops != [] && ops[|ops| - 1] == Merge(pairs)
    requires k in Fresh(Keys(PutAll([], pairs)), Keys(Reached(ops[..|ops| - 1]).list))
    ensures Birth(ops, k) == Some(Moment(|ops| - 1, IndexOf(PutAll([], pairs), k)))
  {
    var before := ops[..|ops| - 1];
    FreshMember(Keys(PutAll([], pairs)), Keys(Reached(before).list), k);
    HasKey(PutAll([], pairs), k);
    HasKey(Reached(before).list, k);
    LookupIsLastWrite(before, k);
    BornIffPresent(before, k);
  }

  function Inserts<K, V>(m: Assoc<K, V>): seq<Op<K, V>> {
    seq(|m|, i requires 0 <= i < |m| => Insert(m[i].key, m[i].value))
  }

  /** After reserving room for `|m|` keys, inserting `m` never changes the capacity, and gives the merge. */
  lemma {:induction false} ReserveThenInsert<K(!new), V>(s: State<K, V>, m: Assoc<K, V>)
    requires 0 < s.capacity && (|s.list| + |m|) * 4 < s.capacity * 3
    ensures Run(s, Inserts(m)) == State(PutAll(s.list, m), s.capacity)
    decreases |m|
  {
    if m != [] {
      var n := |m| - 1;
      ReserveThenInsert(s, m[..n]);
      PutAllSize(s.list, m[..n]);
      assert Inserts(m)[..n] == Inserts(m[..n]);
    }
  }

  /** A merge is what reserving and inserting the pairs one by one would do. */
  lemma MergeIsReserveThenInsert<K(!new), V>(s: State<K, V>, m: Assoc<K, V>)
    requires Sound(s) && DistinctKeys(m)
    ensures Step(s, Merge(m)) == Run(Step(s, Reserve(|m|)), Inserts(m))
  {
    MergeUnits(m);
    ReserveThenInsert(Step(s, Reserve(|m|)), m);
  }

  method Build<K(==, !new), V>(home: HomeFn<K>, pairs: Assoc<K, V>) returns (m: HashMap<K, V>)
    ensures m.Valid() && fresh(m) && fresh(m.Repr) && m.contents == PutAll([], pairs)
  {
    m := new HashMap(home);
    for i := 0 to |pairs|
      invariant m.Valid() && fresh(m) && fresh(m.Repr) && m.contents == PutAll([], pairs[..i])
    {
      PutAllStep([], pairs, i);
      m.Insert(pairs[i].key, pairs[i].value);
    }
    assert pairs[..|pairs|] == pairs;
  }

  /** One call on the class. */
  method Perform<K(==, !new), V>(home: HomeFn<K>, m: HashMap<K, V>, op: Op<K, V>) returns (r: HashMap<K, V>)
    requires m.Valid()
    modifies m.Repr
    ensures r.Valid() && fresh(r.Repr - old(m.Repr)) && r.home == m.home
    ensures State(r.contents, r.buckets.Length) == Step(old(State(m.contents, m.buckets.Length)), op)
  {
    r := m;
    match op
    case Insert(k, v) => m.Insert(k, v);
    case Remove(k) => var _ := m.Remove(k);
    case Clear => m.Clear();
    case Reserve(n) => m.Reserve(n);
    case Merge(pairs) => MergeFrom(home, m, pairs);
    case Copy => r := m.Copy();
  }

  method MergeFrom<K(==, !new), V>(home: HomeFn<K>, m: HashMap<K, V>, pairs: Assoc<K, V>)
    requires m.Valid()
    modifies m.Repr
    ensures m.Valid() && fresh(m.Repr - old(m.Repr))
    ensures m.contents == PutAll(old(m.contents), PutAll([], pairs))
    ensures m.buckets.Length == Room(|old(m.contents)|, |PutAll([], pairs)|, old(m.buckets.Length))
  {
    var source := Build(home, pairs);
    m.Merge(source);
  }

  /** The class keeps step with the model over every run. */
  method Replay<K(==, !new), V>(home: HomeFn<K>, ops: seq<Op<K, V>>) returns (m: HashMap<K, V>)
    ensures m.Valid() && fresh(m.Repr) && m.home == home
    ensures State(m.contents, m.buckets.Length) == Reached(ops)
  {
    m := new HashMap(home);
    for i := 0 to |ops|
      invariant m.Valid() && fresh(m.Repr) && m.home == home
      invariant State(m.contents, m.buckets.Length) == Reached(ops[..i])
    {
      assert ops[..i + 1][..i] == ops[..i];
      m := Perform(home, m, ops[i]);
    }
    assert ops[..|ops|] == ops;
  }

  /** With any hash of the keys, bucket `hash % capacity` serves as a home. */
  method ReplayHashed<K(==, !new), V>(hash: K -> nat, ops: seq<Op<K, V>>) returns (m: HashMap<K, V>)
    ensures m.Valid() && fresh(m.Repr)
    ensures State(m.contents, m.buckets.Length) == Reached(ops)
    ensures forall e :: e in m.entries ==> e in m.chains[hash(e.key) % m.buckets.Length]
  {
    m := Replay(BucketIndex(hash), ops);
  }

  // ---------- capacity ----------

  /** How many entries a call makes room for. */
  ghost function Demand<K(!new), V>(l: Assoc<K, V>, op: Op<K, V>): nat {
    match op
    case Insert(_, _) => |l| + 1
    case Remove(_) => 0
    case Clear => 0
    case Reserve(n) => |l| + n
    case Merge(pairs) => |l| + |PutAll([], pairs)|
    case Copy => |l|
  }

  /** The greatest demand since the table was made; a copy is a new table. */
  ghost function Peak<K(!new), V>(ops: seq<Op<K, V>>): nat
    decreases |ops|
  {
    if ops == [] then 0
    else
      var n := |ops| - 1;
      var now, before := Demand(Reached(ops[..n]).list, ops[n]), if ops[n].Copy? then 0 else Peak(ops[..n]);
      if now > before then now else before
  }

  /** Making room twice is making room for the greater demand. */
  lemma {:induction false} ReservedTwice(a: nat, b: nat, capacity: nat)
    requires capacity > 0
    ensures Reserved(b, Reserved(a, capacity)) == Reserved(if a > b then a else b, capacity)
    decreases a * 4 - capacity * 3
  {
    if a * 4 >= capacity * 3 {
      ReservedTwice(a, b, capacity * 2);
    }
  }

  /** One insertion makes room for one entry more. */
  lemma GrownIsReserved(len: nat, capacity: nat)
    requires 4 * len < 3 * capacity && capacity >= 4
    ensures Grown(len, capacity) == Reserved(len + 1, capacity)
  {
  }

  /** After every run the capacity is the least doubling of 16 with room for the peak: tables never grow more
      than the calls demand, and never shrink but by copying. */
  lemma {:induction false} CapacityIsPeak<K(!new), V>(ops: seq<Op<K, V>>)
    ensures Reached(ops).capacity == Reserved(Peak(ops), INITIAL_CAPACITY)
    decreases |ops|
  {
    if ops != [] {
      var n := |ops| - 1;
      var s := Reached(ops[..n]);
      CapacityIsPeak(ops[..n]);
      ReachedIsSound(ops[..n]);
      StepDemands(s, ops[n]);
      ReservedTwice(Peak(ops[..n]), Demand(s.list, ops[n]), INITIAL_CAPACITY);
    }
  }

  lemma StepDemands<K(!new), V>(s: State<K, V>, op: Op<K, V>)
    requires Sound(s)
    ensures Step(s, op).capacity == Reserved(Demand(s.list, op), if op.Copy? then INITIAL_CAPACITY else s.capacity)
  {
    if op.Insert? { GrownIsReserved(|s.list|, s.capacity); }
  }
}
