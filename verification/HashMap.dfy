/** The runtime's hash map: chained buckets plus an array of the entries in insertion order.
    The hash is an arbitrary function of the key. */
module HashMaps {
  import opened Options
  import opened AssocLists
  import opened FluxusVector
  import opened Sequences

  /** Where a key lives in a table of the given size. */
  type HomeFn<!K(!new)> = f: (K, nat) -> nat | forall k, n :: n > 0 ==> f(k, n) < n witness (_, _) => 0

  function BucketIndex<K(!new)>(hash: K -> nat): HomeFn<K> {
    (k: K, n: nat) => if n == 0 then 0 else hash(k) % n
  }

  class Entry<K(==, !new), V> {
    const key: K
    var value: V
    var next: Entry?<K, V>

    constructor (key: K, value: V)
      ensures this.key == key && this.value == value && next == null
    {
      this.key, this.value, next := key, value, null;
    }
  }

  // ---------- linked chains ----------

  ghost function Nth<K(!new), V>(c: seq<Entry<K, V>>, i: nat): Entry?<K, V> {
    if i < |c| then c[i] else null
  }

  /** `head` starts a linked list that runs through `c`. */
  ghost predicate Linked<K(!new), V>(head: Entry?<K, V>, c: seq<Entry<K, V>>)
    reads c
  {
    && head == Nth(c, 0)
    && forall i :: 0 <= i < |c| ==> c[i].next == Nth(c, i + 1)
  }

  lemma LinkedCons<K(!new), V>(e: Entry<K, V>, c: seq<Entry<K, V>>)
    requires Linked(e.next, c)
    ensures Linked(e, [e] + c)
  {
    forall i | 0 <= i <= |c| ensures ([e] + c)[i].next == Nth([e] + c, i + 1) {
      if i > 0 { assert c[i - 1].next == Nth(c, i); }
    }
  }

  lemma LinkedTail<K(!new), V>(head: Entry?<K, V>, c: seq<Entry<K, V>>)
    requires Linked(head, c) && c != []
    ensures head == c[0] && Linked(c[0].next, c[1..])
  {
    assert c[0].next == Nth(c, 1);
    assert forall i :: 0 <= i < |c| - 1 ==> c[1..][i].next == Nth(c, i + 2);
  }

  ghost function Elements<K(!new), V>(c: seq<Entry<K, V>>): set<Entry<K, V>> {
    set x | x in c
  }

  /** The chains hold exactly `entries`, each once and each in its home bucket. */
  ghost predicate Partition<K(!new), V>(home: HomeFn<K>, entries: set<Entry<K, V>>, chains: seq<seq<Entry<K, V>>>) {
    && (forall b :: 0 <= b < |chains| ==> Distinct(chains[b]))
    && (forall b, e :: 0 <= b < |chains| && e in chains[b] ==> e in entries && home(e.key, |chains|) == b)
    && (forall b, e {:trigger e in chains[b]} :: 0 <= b < |chains| && e in entries && home(e.key, |chains|) == b ==>
          e in chains[b])
  }

  /** Bucket `b` starts the linked list through `chains[b]`. */
  ghost predicate ChainsLinked<K(!new), V>(
      heads: array<Entry?<K, V>>, entries: set<Entry<K, V>>, chains: seq<seq<Entry<K, V>>>)
    reads heads, entries
  {
    && |chains| == heads.Length
    && forall b :: 0 <= b < |chains| ==> (forall e :: e in chains[b] ==> e in entries) && Linked(heads[b], chains[b])
  }

  lemma PartitionPush<K(!new), V>(home: HomeFn<K>, entries: set<Entry<K, V>>, chains: seq<seq<Entry<K, V>>>,
      e: Entry<K, V>)
    requires chains != [] && Partition(home, entries, chains) && e !in entries
    ensures var b := home(e.key, |chains|); Partition(home, entries + {e}, chains[b := [e] + chains[b]])
  {
    var b := home(e.key, |chains|);
    assert e !in chains[b];
    assert Distinct([e] + chains[b]);
  }

  lemma {:induction false} RemoveAt<T>(c: seq<T>, j: nat, x: T)
    requires j < |c| && Distinct(c)
    ensures Distinct(c[..j] + c[j + 1..])
    ensures x in c[..j] + c[j + 1..] <==> x in c && x != c[j]
  {
    var r := c[..j] + c[j + 1..];
    assert forall i :: 0 <= i < |r| ==> r[i] == c[if i < j then i else i + 1];
    if x in c && x != c[j] {
      var i :| 0 <= i < |c| && c[i] == x;
      assert r[if i < j then i else i - 1] == x;
    }
  }

  lemma PartitionPull<K(!new), V>(home: HomeFn<K>, entries: set<Entry<K, V>>, chains: seq<seq<Entry<K, V>>>,
      e: Entry<K, V>, j: nat)
    requires chains != [] && Partition(home, entries, chains) && e in entries
    requires j < |chains[home(e.key, |chains|)]| && chains[home(e.key, |chains|)][j] == e
    ensures var b := home(e.key, |chains|);
            Partition(home, entries - {e}, chains[b := chains[b][..j] + chains[b][j + 1..]])
  {
    var b := home(e.key, |chains|);
    var c := chains[b];
    var r := c[..j] + c[j + 1..];
    RemoveAt(c, j, e);
    assert forall x :: x in r <==> x in c && x != e by {
      forall x ensures x in r <==> x in c && x != e { RemoveAt(c, j, x); }
    }
    assert forall a :: 0 <= a < |chains| && a != b ==> e !in chains[a];
  }

  /** Pushes `e` onto the front of its home bucket. */
  method MoveToFront<K(!new), V>(home: HomeFn<K>, heads: array<Entry?<K, V>>, e: Entry<K, V>,
      ghost entries: set<Entry<K, V>>, ghost chains: seq<seq<Entry<K, V>>>)
    returns (ghost chains': seq<seq<Entry<K, V>>>)
    requires heads.Length > 0
    requires Partition(home, entries, chains) && ChainsLinked(heads, entries, chains) && e !in entries
    modifies heads, e`next
    ensures Partition(home, entries + {e}, chains') && ChainsLinked(heads, entries + {e}, chains')
  {
    var b := home(e.key, heads.Length);
    e.next := heads[b];
    heads[b] := e;
    chains' := chains[b := [e] + chains[b]];
    PartitionPush(home, entries, chains, e);
    forall a | 0 <= a < |chains'| ensures Linked(heads[a], chains'[a]) {
      assert old(Linked(heads[a], chains[a]));
      assert e !in chains[a];
      assert Linked(old(heads[a]), chains[a]);
      if a == b { LinkedCons(e, chains[b]); }
    }
  }

  /** Takes position `j` out of the home chain of `e`. */
  method Unlink<K(!new), V>(home: HomeFn<K>, heads: array<Entry?<K, V>>, prev: Entry?<K, V>, e: Entry<K, V>,
      ghost entries: set<Entry<K, V>>, ghost chains: seq<seq<Entry<K, V>>>, ghost j: nat)
    returns (ghost chains': seq<seq<Entry<K, V>>>)
    requires heads.Length > 0 && e in entries
    requires Partition(home, entries, chains) && ChainsLinked(heads, entries, chains)
    requires var c := chains[home(e.key, heads.Length)];
             j < |c| && c[j] == e && prev == if j == 0 then null else c[j - 1]
    modifies heads, entries`next
    ensures Partition(home, entries - {e}, chains') && ChainsLinked(heads, entries - {e}, chains')
  {
    var b := home(e.key, heads.Length);
    ghost var c := chains[b];
    assert Linked(heads[b], c) && c[j].next == Nth(c, j + 1);
    if prev != null {
      prev.next := e.next;
    } else {
      heads[b] := e.next;
    }
    chains' := chains[b := c[..j] + c[j + 1..]];
    PartitionPull(home, entries, chains, e, j);
    forall a | 0 <= a < |chains| ensures Linked(heads[a], chains'[a]) {
      assert old(Linked(heads[a], chains[a]));
      if a == b {
        SkipsEntry(heads[b], c, j);
      } else {
        assert forall x :: x in chains[a] ==> x !in c;
      }
    }
  }

  /** A link from before position `j` to after it leaves that entry out of the list. */
  lemma SkipsEntry<K(!new), V>(head: Entry?<K, V>, c: seq<Entry<K, V>>, j: nat)
    requires j < |c| && head == if j == 0 then Nth(c, 1) else c[0]
    requires forall i :: 0 <= i < |c| && i + 1 != j ==> c[i].next == Nth(c, i + 1)
    requires j > 0 ==> c[j - 1].next == Nth(c, j + 1)
    ensures Linked(head, c[..j] + c[j + 1..])
  {
    var r := c[..j] + c[j + 1..];
    forall i | 0 <= i < |r| ensures r[i].next == Nth(r, i + 1) {
      assert r[i] == c[if i < j then i else i + 1];
    }
  }

  lemma ChainHead<K(!new), V>(e: Entry<K, V>, c: seq<Entry<K, V>>, j: nat)
    requires j <= |c| && Linked(e, c[j..]) && Distinct(c)
    ensures j < |c| && c[j] == e && e !in c[j + 1..] && Linked(e.next, c[j + 1..])
    ensures Elements(c[..j + 1]) == Elements(c[..j]) + {e}
  {
    LinkedTail(e, c[j..]);
    assert c[j..][1..] == c[j + 1..] && c[..j + 1] == c[..j] + [e];
  }

  /** Unhooks the chain `c` that starts at `head`, node by node, into the table. */
  method MoveChain<K(!new), V>(home: HomeFn<K>, heads: array<Entry?<K, V>>, head: Entry?<K, V>,
      ghost c: seq<Entry<K, V>>, ghost entries: set<Entry<K, V>>, ghost chains: seq<seq<Entry<K, V>>>)
    returns (ghost chains': seq<seq<Entry<K, V>>>)
    requires heads.Length > 0
    requires Partition(home, entries, chains) && ChainsLinked(heads, entries, chains)
    requires Linked(head, c) && Distinct(c)
    requires forall x :: x in c ==> x !in entries
    modifies heads, c`next
    ensures Partition(home, entries + Elements(c), chains')
    ensures ChainsLinked(heads, entries + Elements(c), chains')
  {
    var e := head;
    ghost var j := 0;
    chains' := chains;
    ghost var moved := entries;
    while e != null
      invariant 0 <= j <= |c| && Linked(e, c[j..])
      invariant moved == entries + Elements(c[..j])
      invariant Partition(home, moved, chains') && ChainsLinked(heads, moved, chains')
      decreases |c| - j
    {
      ChainHead(e, c, j);
      var next := e.next;
      chains' := MoveToFront(home, heads, e, moved, chains');
      moved := moved + {e};
      e, j := next, j + 1;
    }
    assert c[..j] == c;
  }

  /** The entries whose home is below bucket `i` of `n`. */
  ghost function Below<K(!new), V>(home: HomeFn<K>, entries: set<Entry<K, V>>, n: nat, i: nat): set<Entry<K, V>> {
    set x | x in entries && home(x.key, n) < i
  }

  lemma BelowNext<K(!new), V>(home: HomeFn<K>, entries: set<Entry<K, V>>, chains: seq<seq<Entry<K, V>>>, i: nat)
    requires i < |chains| && Partition(home, entries, chains)
    ensures Below(home, entries, |chains|, i + 1) == Below(home, entries, |chains|, i) + Elements(chains[i])
    ensures forall x :: x in chains[i] ==> x !in Below(home, entries, |chains|, i)
    ensures forall b, x :: i < b < |chains| && x in chains[b] ==> x !in chains[i]
  {
    assert forall x :: x in entries && home(x.key, |chains|) == i ==> x in chains[i];
  }

  /** The rehash loop: fills a fresh table with every entry of the old one. */
  method Relink<K(!new), V>(home: HomeFn<K>, buckets: array<Entry?<K, V>>, capacity: nat,
      ghost entries: set<Entry<K, V>>, ghost chains: seq<seq<Entry<K, V>>>)
    returns (heads: array<Entry?<K, V>>, ghost chains': seq<seq<Entry<K, V>>>)
    requires capacity > 0 && buckets.Length > 0
    requires Partition(home, entries, chains) && ChainsLinked(buckets, entries, chains)
    modifies entries`next
    ensures fresh(heads) && heads.Length == capacity
    ensures Partition(home, entries, chains') && ChainsLinked(heads, entries, chains')
  {
    heads := new Entry?<K, V>[capacity](_ => null);
    chains' := seq(capacity, _ => []);
    var i := 0;
    assert Below(home, entries, |chains|, 0) == {};
    while i < buckets.Length
      invariant 0 <= i <= buckets.Length && heads.Length == capacity
      invariant Partition(home, Below(home, entries, |chains|, i), chains')
      invariant ChainsLinked(heads, Below(home, entries, |chains|, i), chains')
      invariant forall b, x :: i <= b < |chains| && x in chains[b] ==> x.next == old(x.next)
      modifies heads, entries`next
    {
      BelowNext(home, entries, chains, i);
      assert old(Linked(buckets[i], chains[i]));
      assert Linked(buckets[i], chains[i]);
      chains' := MoveChain(home, heads, buckets[i], chains[i], Below(home, entries, |chains|, i), chains');
      i := i + 1;
    }
    assert Below(home, entries, |chains|, i) == entries;
  }

  /** `order` lists the entries once, in the order of the pairs. */
  ghost predicate Lists<K(!new), V>(contents: Assoc<K, V>, order: seq<Entry<K, V>>, entries: set<Entry<K, V>>)
    reads entries
  {
    && |order| == |contents|
    && (forall i :: 0 <= i < |order| ==> order[i] in entries && contents[i] == Pair(order[i].key, order[i].value))
    && (forall e :: e in entries ==> e in order)
    && DistinctKeys(contents)
  }

  lemma GapCloses<K(!new), V>(contents: Assoc<K, V>, order: seq<Entry<K, V>>, entries: set<Entry<K, V>>, i: nat)
    requires Lists(contents, order, entries) && i < |order|
    ensures Lists(contents[..i] + contents[i + 1..], order[..i] + order[i + 1..], entries - {order[i]})
  {
    var r := order[..i] + order[i + 1..];
    var c := contents[..i] + contents[i + 1..];
    forall k | 0 <= k < |r| ensures r[k] == order[Skip(k, i)] && c[k] == contents[Skip(k, i)] && r[k] != order[i] {}
    forall e | e in entries - {order[i]} ensures e in r {
      var k :| 0 <= k < |order| && order[k] == e;
      assert r[if k < i then k else k - 1] == e;
    }
  }

  function Skip(k: nat, i: nat): nat {
    if k < i then k else k + 1
  }

  class HashMap<K(==, !new), V> {
    const home: HomeFn<K>
    var buckets: array<Entry?<K, V>>
    var insertOrder: array<Entry?<K, V>>
    var len: nat
    /** The abstract value: the pairs in insertion order. */
    ghost var contents: Assoc<K, V>
    ghost var order: seq<Entry<K, V>>
    ghost var entries: set<Entry<K, V>>
    ghost var chains: seq<seq<Entry<K, V>>>
    ghost var Repr: set<object>

    ghost predicate Valid()
      reads this, Repr
      ensures Valid() ==> this in Repr && |contents| == len && DistinctKeys(contents)
    {
      && Repr == {this, buckets, insertOrder} + entries
      && buckets != insertOrder
      && OrderValid()
      && 4 * len < 3 * buckets.Length
      && Partition(home, entries, chains)
      && ChainsLinked(buckets, entries, chains)
    }

    /** The insertion-order array lists every entry once, under distinct keys, and agrees with `contents`. */
    ghost predicate OrderValid()
      reads this, insertOrder, entries
    {
      && len == |order| == |contents| <= insertOrder.Length
      && (forall i :: 0 <= i < len ==> insertOrder[i] == order[i])
      && Lists(contents, order, entries)
    }

    constructor (home: HomeFn<K>)
      ensures Valid() && fresh(Repr)
      ensures contents == [] && buckets.Length == 16 && this.home == home
    {
      this.home := home;
      buckets := new Entry?<K, V>[16](_ => null);
      insertOrder := new Entry?<K, V>[0];
      len, contents, order, entries := 0, [], [], {};
      chains := seq(16, _ => []);
      new;
      Repr := {this, buckets, insertOrder};
    }

    method Len() returns (n: nat)
      requires Valid()
      ensures n == |contents|
    {
      n := len;
    }

    /** Walks the bucket of `k`, remembering the predecessor. */
    method Search(k: K) returns (prev: Entry?<K, V>, e: Entry?<K, V>, ghost j: nat)
      requires Valid()
      ensures e == null ==> !Has(contents, k)
      ensures e != null ==> e in entries && e.key == k
      ensures e != null ==> var c := chains[home(k, buckets.Length)];
                            j < |c| && c[j] == e && prev == if j == 0 then null else c[j - 1]
    {
      var b := home(k, buckets.Length);
      ghost var c := chains[b];
      prev, e, j := null, buckets[b], 0;
      assert Linked(e, c);
      while e != null
        invariant j <= |c| && e == Nth(c, j)
        invariant prev == if j == 0 then null else c[j - 1]
        invariant forall i :: 0 <= i < j ==> c[i].key != k
        invariant Linked(buckets[b], c)
        decreases |c| - j
      {
        assert e == c[j] && c[j].next == Nth(c, j + 1);
        if e.key == k { return; }
        prev, e, j := e, e.next, j + 1;
      }
      assert forall i :: 0 <= i < len && contents[i].key == k ==> order[i] in chains[b];
    }

    method Get(k: K) returns (r: Option<V>)
      requires Valid()
      ensures r == Lookup(contents, k)
    {
      var _, e, _ := Search(k);
      if e == null { return None; }
      ghost var i :| 0 <= i < len && order[i] == e;
      IndexIs(contents, k, i);
      return Some(e.value);
    }

    method Contains(k: K) returns (r: bool)
      requires Valid()
      ensures r <==> Has(contents, k)
    {
      var v := Get(k);
      return v.Some?;
    }

    // ---------- growth ----------

    /** Relinks every entry into a bigger table; the insertion order is untouched. */
    method Rehash(capacity: nat)
      requires Valid() && 4 * len < 3 * capacity
      modifies Repr
      ensures Valid() && fresh(Repr - old(Repr))
      ensures contents == old(contents) && len == old(len) && buckets.Length == capacity
    {
      buckets, chains := Relink(home, buckets, capacity, entries, chains);
      Repr := {this, buckets, insertOrder} + entries;
    }

    /** Makes room for `additional` more keys. */
    method Reserve(additional: nat)
      requires Valid()
      modifies Repr
      ensures Valid() && fresh(Repr - old(Repr))
      ensures contents == old(contents) && len == old(len)
      ensures buckets.Length == Room(|old(contents)|, additional, old(buckets.Length))
      ensures (len + additional) * 4 < buckets.Length * 3
    {
      var target := DoubledFor(len + additional, buckets.Length);
      if target > buckets.Length { Rehash(target); }
    }

    /** Grows the insertion-order array by doubling from 16; its used cells stay. */
    method ReserveOrder(needed: nat)
      requires Valid()
      modifies this`insertOrder, this`Repr
      ensures Valid() && fresh(Repr - old(Repr)) && needed <= insertOrder.Length
    {
      if needed <= insertOrder.Length { return; }
      var cap := if insertOrder.Length > 0 then insertOrder.Length * 2 else 16;
      while cap < needed
        invariant cap > 0 && cap >= insertOrder.Length
        decreases needed - cap
      {
        cap := cap * 2;
      }
      var bigger := new Entry?<K, V>[cap](_ => null);
      forall i | 0 <= i < len { bigger[i] := insertOrder[i]; }
      insertOrder := bigger;
      Repr := {this, buckets, insertOrder} + entries;
    }

    // ---------- insertion ----------

    /** Growth is decided before the key is looked up, so an update can grow the table too. */
    method Insert(k: K, v: V)
      requires Valid()
      modifies Repr
      ensures Valid() && fresh(Repr - old(Repr))
      ensures contents == Put(old(contents), k, v)
      ensures buckets.Length == Grown(|old(contents)|, old(buckets.Length))
    {
      if (len + 1) * 4 >= buckets.Length * 3 {
        Rehash(buckets.Length * 2);
      }
      Place(k, v);
    }

    method Place(k: K, v: V)
      requires Valid() && 4 * (len + 1) < 3 * buckets.Length
      modifies Repr
      ensures Valid() && fresh(Repr - old(Repr))
      ensures contents == Put(old(contents), k, v) && buckets.Length == old(buckets.Length)
    {
      var _, e, _ := Search(k);
      if e == null {
        ReserveOrder(len + 1);
        Append(k, v);
      } else {
        Update(e, v);
      }
    }

    /** The tail of an insertion that found its entry. */
    method Update(e: Entry<K, V>, v: V)
      requires Valid() && e in entries
      modifies this`contents, e`value
      ensures Valid() && contents == Put(old(contents), e.key, v)
    {
      ghost var i :| 0 <= i < len && order[i] == e;
      IndexIs(contents, e.key, i);
      e.value := v;
      contents := contents[i := Pair(e.key, v)];
    }

    /** The tail of an insertion that found no entry for `k`. */
    method Append(k: K, v: V)
      requires Valid() && !Has(contents, k)
      requires len < insertOrder.Length && 4 * (len + 1) < 3 * buckets.Length
      modifies Repr
      ensures Valid() && fresh(Repr - old(Repr))
      ensures contents == Put(old(contents), k, v) && buckets.Length == old(buckets.Length)
    {
      var e := new Entry(k, v);
      chains := MoveToFront(home, buckets, e, entries, chains);
      ListLast(e);
      Settle();
    }

    /** Writes a new entry into the next free cell of the insertion-order array. */
    method ListLast(e: Entry<K, V>)
      requires OrderValid() && len < insertOrder.Length && !Has(contents, e.key) && e !in entries
      modifies `contents, `order, `entries, `len, insertOrder
      ensures OrderValid() && len == old(len) + 1 && entries == old(entries) + {e}
      ensures contents == old(contents) + [Pair(e.key, e.value)]
    {
      insertOrder[len] := e;
      order, entries := order + [e], entries + {e};
      contents := contents + [Pair(e.key, e.value)];
      len := len + 1;
    }

    // ---------- removal ----------

    /** Unlinks the entry from its bucket, then closes its gap in the insertion-order array. */
    method Remove(k: K) returns (found: bool)
      requires Valid()
      modifies Repr
      ensures Valid() && fresh(Repr - old(Repr))
      ensures found <==> Has(old(contents), k)
      ensures contents == Delete(old(contents), k) && buckets.Length == old(buckets.Length)
    {
      var prev, e, j := Search(k);
      if e == null { return false; }
      Cut(prev, e, j);
      return true;
    }

    method Cut(prev: Entry?<K, V>, e: Entry<K, V>, ghost j: nat)
      requires Valid() && e in entries
      requires var c := chains[home(e.key, buckets.Length)];
               j < |c| && c[j] == e && prev == if j == 0 then null else c[j - 1]
      modifies this, buckets, insertOrder, entries`next
      ensures Valid() && Repr <= old(Repr)
      ensures Has(old(contents), e.key) && contents == Delete(old(contents), e.key)
      ensures buckets == old(buckets)
    {
      Detach(prev, e, j);
      Unlist(e);
      Settle();
    }

    /** The parts fit together again. */
    ghost method Settle()
      requires OrderValid() && buckets != insertOrder && 4 * len < 3 * buckets.Length
      requires Partition(home, entries, chains) && ChainsLinked(buckets, entries, chains)
      modifies `Repr
      ensures Valid() && Repr == {this, buckets, insertOrder} + entries
    {
      Repr := {this, buckets, insertOrder} + entries;
    }

    method Detach(prev: Entry?<K, V>, e: Entry<K, V>, ghost j: nat)
      requires Valid() && e in entries
      requires var c := chains[home(e.key, buckets.Length)];
               j < |c| && c[j] == e && prev == if j == 0 then null else c[j - 1]
      modifies `chains, buckets, entries`next
      ensures OrderValid()
      ensures Partition(home, entries - {e}, chains) && ChainsLinked(buckets, entries - {e}, chains)
    {
      chains := Unlink(home, buckets, prev, e, entries, chains, j);
    }

    method Unlist(e: Entry<K, V>)
      requires OrderValid() && e in entries
      modifies `contents, `order, `entries, `len, insertOrder
      ensures OrderValid() && len == old(len) - 1 && entries == old(entries) - {e}
      ensures Has(old(contents), e.key) && contents == Delete(old(contents), e.key)
    {
      var i := Position(e);
      CloseGap(i);
    }

    method Position(e: Entry<K, V>) returns (i: nat)
      requires OrderValid() && e in entries
      ensures i < len && order[i] == e && IndexOf(contents, e.key) == i
    {
      i := 0;
      while i < len && insertOrder[i] != e
        invariant 0 <= i <= len && e !in order[..i]
      {
        i := i + 1;
      }
      assert i < len;
      IndexIs(contents, e.key, i);
    }

    /** Shifts the cells above `i` down by one. */
    method CloseGap(i: nat)
      requires OrderValid() && i < len
      modifies `contents, `order, `entries, `len, insertOrder
      ensures OrderValid() && len == old(len) - 1 && entries == old(entries - {order[i]})
      ensures contents == old(contents)[..i] + old(contents)[i + 1..]
    {
      GapCloses(contents, order, entries, i);
      forall k | i <= k < len - 1 { insertOrder[k] := insertOrder[k + 1]; }
      insertOrder[len - 1] := null;
      entries := entries - {order[i]};
      order := order[..i] + order[i + 1..];
      contents := contents[..i] + contents[i + 1..];
      len := len - 1;
    }

    method Clear()
      requires Valid()
      modifies Repr
      ensures Valid() && fresh(Repr - old(Repr))
      ensures contents == [] && buckets.Length == old(buckets.Length)
    {
      for i := 0 to buckets.Length
        invariant forall b :: 0 <= b < i ==> buckets[b] == null
        modifies buckets
      {
        buckets[i] := null;
      }
      forall i | 0 <= i < len { insertOrder[i] := null; }
      len, contents, order, entries := 0, [], [], {};
      chains := seq(buckets.Length, _ => []);
      Repr := {this, buckets, insertOrder};
    }

    // ---------- merging and copying ----------

    /** Inserts the pairs of `src` in its insertion order; `src` may be this very map. */
    method Merge(src: HashMap<K, V>)
      requires Valid() && src.Valid() && (src == this || Repr !! src.Repr)
      modifies Repr
      ensures Valid() && fresh(Repr - old(Repr))
      ensures contents == PutAll(old(contents), old(src.contents))
      ensures buckets.Length == Room(|old(contents)|, |old(src.contents)|, old(buckets.Length))
      ensures src != this ==> src.Valid() && src.contents == old(src.contents)
    {
      ReserveFor(src);
      InsertAll(src);
    }

    method ReserveFor(src: HashMap<K, V>)
      requires Valid() && src.Valid() && (src == this || Repr !! src.Repr)
      modifies Repr
      ensures Valid() && fresh(Repr - old(Repr)) && contents == old(contents)
      ensures buckets.Length == Room(|old(contents)|, |old(src.contents)|, old(buckets.Length))
      ensures (len + src.len) * 4 < buckets.Length * 3
      ensures src.Valid() && (src == this || Repr !! src.Repr) && src.contents == old(src.contents)
    {
      assert src != this ==> src !in Repr;
      Reserve(src.len);
    }

    /** The insertion loop shared by merging and copying; the room for it is already there, and it
        never grows the table. */
    method InsertAll(src: HashMap<K, V>)
      requires Valid() && src.Valid() && (src == this || Repr !! src.Repr)
      requires (len + src.len) * 4 < buckets.Length * 3
      modifies Repr
      ensures Valid() && fresh(Repr - old(Repr)) && buckets.Length == old(buckets.Length)
      ensures contents == PutAll(old(contents), old(src.contents))
      ensures src != this ==> src.Valid() && src.contents == old(src.contents)
    {
      ghost var mine, theirs := contents, src.contents;
      var i := 0;
      while i < src.len
        invariant fresh(Repr - old(Repr)) && 0 <= i <= |theirs|
        invariant MergeState(src, mine, theirs, i)
        invariant buckets.Length == old(buckets.Length)
      {
        MergeStep(src, mine, theirs, i);
        i := i + 1;
      }
      assert theirs[..i] == theirs;
    }

    /** The first `i` pairs of the source are in. */
    ghost predicate MergeState(src: HashMap<K, V>, mine: Assoc<K, V>, theirs: Assoc<K, V>, i: nat)
      requires i <= |theirs|
      reads this, Repr, src, src.Repr
    {
      && Valid() && src.Valid() && (src == this || Repr !! src.Repr)
      && src.contents == theirs
      && DistinctKeys(mine) && contents == PutAll(mine, theirs[..i]) && len <= |mine| + i
      && (src == this ==> mine == theirs)
    }

    method MergeStep(src: HashMap<K, V>, ghost mine: Assoc<K, V>, ghost theirs: Assoc<K, V>, i: nat)
      requires i < |theirs| && MergeState(src, mine, theirs, i)
      requires (|mine| + |theirs|) * 4 < buckets.Length * 3
      modifies Repr
      ensures fresh(Repr - old(Repr)) && buckets.Length == old(buckets.Length)
      ensures MergeState(src, mine, theirs, i + 1)
    {
      PutAllStep(mine, theirs, i);
      if src == this {
        MergePrefix(mine, i);
        MergePrefix(mine, i + 1);
      }
      Insert(src.insertOrder[i].key, src.insertOrder[i].value);
    }

    /** A disjoint map with the same list, in a table that starts small again. */
    method Copy() returns (dst: HashMap<K, V>)
      requires Valid()
      ensures dst.Valid() && fresh(dst.Repr) && dst.home == home
      ensures dst.contents == contents && dst.buckets.Length == Reserved(|contents|, 16)
    {
      dst := new HashMap(home);
      dst.Merge(this);
      assert dst.buckets.Length == Room(0, |contents|, 16);
      assert dst.contents == contents by { MergeUnits(contents); }
    }
  }

  /** The iteration loop behind map and set traversals; it reads the map as it is at each step. */
  class MapIter<K(==, !new), V> {
    const table: HashMap<K, V>
    var index: nat

    constructor (table: HashMap<K, V>)
      ensures this.table == table && index == 0
    {
      this.table, index := table, 0;
    }

    method Next() returns (r: Option<Pair<K, V>>)
      requires table.Valid() && this !in table.Repr
      modifies this
      ensures table.Valid() && table.contents == old(table.contents)
      ensures var l := table.contents;
              if old(index) < |l| then r == Some(l[old(index)]) && index == old(index) + 1
              else r == None && index == old(index)
    {
      if index < table.len {
        var e := table.insertOrder[index];
        index := index + 1;
        return Some(Pair(e.key, e.value));
      }
      return None;
    }
  }

  method KeysOf<K(==, 0, !new), V>(table: HashMap<K, V>) returns (out: Fluxus<K>)
    requires table.Valid()
    ensures out.Valid() && fresh(out.Repr) && out.Contents() == Keys(table.contents)
  {
    out := new Fluxus();
    out.Reserve(table.len);
    for i := 0 to table.len
      invariant out.Valid() && fresh(out.Repr)
      invariant out.Contents() == Keys(table.contents)[..i]
    {
      out.Push(table.insertOrder[i].key);
    }
  }

  method ValuesOf<K(==, !new), V(0)>(table: HashMap<K, V>) returns (out: Fluxus<V>)
    requires table.Valid()
    ensures out.Valid() && fresh(out.Repr) && out.Contents() == Values(table.contents)
  {
    out := new Fluxus();
    out.Reserve(table.len);
    for i := 0 to table.len
      invariant out.Valid() && fresh(out.Repr)
      invariant out.Contents() == Values(table.contents)[..i]
    {
      out.Push(table.insertOrder[i].value);
    }
  }

  /** The capacity after doubling until `need` entries fill less than three quarters. */
  function Reserved(need: nat, capacity: nat): nat
    decreases need * 4 - capacity * 3
  {
    if capacity == 0 || need * 4 < capacity * 3 then capacity else Reserved(need, capacity * 2)
  }

  /** The capacity after making room for more keys. */
  function Room(len: nat, additional: nat, capacity: nat): nat {
    Reserved(len + additional, capacity)
  }

  /** Reserving reaches enough room, and stops at the first doubling that does. */
  lemma {:induction false} ReservedIsEnough(need: nat, capacity: nat)
    requires capacity > 0
    ensures need * 4 < Reserved(need, capacity) * 3 && capacity <= Reserved(need, capacity)
    ensures Reserved(need, capacity) == capacity || Reserved(need, capacity) * 3 <= need * 8
    decreases need * 4 - capacity * 3
  {
    if need * 4 >= capacity * 3 { ReservedIsEnough(need, capacity * 2); }
  }

  method DoubledFor(need: nat, capacity: nat) returns (target: nat)
    requires capacity > 0
    ensures target == Reserved(need, capacity) && need * 4 < target * 3 && capacity <= target
  {
    target := capacity;
    while need * 4 >= target * 3
      invariant capacity <= target && Reserved(need, target) == Reserved(need, capacity)
      decreases need * 4 - target * 3
    {
      target := target * 2;
    }
  }

  /** The capacity after one insertion into a table of `len` entries. */
  function Grown(len: nat, capacity: nat): nat {
    if (len + 1) * 4 >= capacity * 3 then capacity * 2 else capacity
  }
}
