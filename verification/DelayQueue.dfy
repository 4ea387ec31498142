/** The delta list: a circular doubly-linked list through a sentinel, where every
    node stores the time between its predecessor's alarm and its own.  Each method
    is proved to carry out an operation of module TaskQueue on the list of
    remaining times. */
module DelayQueues {
  import opened Timevals
  import opened TaskQueue
  import opened DeltaLists
  import opened DistinctSeqs

  class Entry {
    const id: nat
    var next: Entry?
    var prev: Entry?
    var delta: Timeval

    constructor (id: nat, delay: Timeval)
      ensures this.id == id && delta == delay
      ensures next == this && prev == this
    {
      this.id := id;
      next := this;
      prev := this;
      delta := delay;
    }
  }

  /** The nodes form a circular doubly-linked list in the given order, the last
      one (the sentinel) closing the ring. */
  ghost predicate Linked(nodes: seq<Entry>)
    reads nodes
  {
    && 0 < |nodes|
    && Distinct(nodes)
    && nodes[|nodes| - 1].next == nodes[0]
    && nodes[0].prev == nodes[|nodes| - 1]
    && (forall i {:trigger nodes[i].next} :: 0 <= i < |nodes| - 1 ==> nodes[i].next == nodes[i + 1])
    && (forall i {:trigger nodes[i].prev} :: 1 <= i < |nodes| ==> nodes[i].prev == nodes[i - 1])
  }

  lemma HeadIsNext(nodes: seq<Entry>)
    requires Linked(nodes)
    ensures 0 < |nodes| && nodes[|nodes| - 1].next == nodes[0]
  {
  }

  lemma LinkedDistinct(nodes: seq<Entry>)
    requires Linked(nodes)
    ensures Distinct(nodes) && 0 < |nodes|
  {
  }

  twostate lemma LinksKept(nodes: seq<Entry>)
    requires old(Linked(nodes))
    requires forall x :: x in nodes ==> x.next == old(x.next) && x.prev == old(x.prev)
    ensures Linked(nodes)
  {
  }

  /** The deltas the nodes hold. */
  ghost predicate Stores(nodes: seq<Entry>, ts: seq<Timeval>)
    reads nodes
  {
    |nodes| == |ts| && forall i :: 0 <= i < |ts| ==> nodes[i].delta == ts[i]
  }

  lemma SpliceStores(nodes: seq<Entry>, ts: seq<Timeval>, k: nat, entry: Entry)
    requires |nodes| == |ts| && k < |nodes|
    requires forall i :: 0 <= i < |ts| && i != k ==> nodes[i].delta == ts[i]
    ensures Stores(nodes[..k] + [entry] + nodes[k..], ts[..k] + [entry.delta, nodes[k].delta] + ts[k + 1..])
  {
  }

  /** The tasks' identities, the sentinel's left out. */
  ghost predicate Named(nodes: seq<Entry>, ids: seq<nat>) {
    |nodes| == |ids| + 1 && forall i :: 0 <= i < |ids| ==> ids[i] == nodes[i].id
  }

  lemma SpliceNames(nodes: seq<Entry>, ids: seq<nat>, k: nat, entry: Entry)
    requires Named(nodes, ids) && k < |nodes|
    ensures Named(nodes[..k] + [entry] + nodes[k..], ids[..k] + [entry.id] + ids[k..])
    ensures forall x :: x in nodes[..k] + [entry] + nodes[k..] <==> x == entry || x in nodes
  {
    assert nodes == nodes[..k] + nodes[k..];
  }

  /** The walk of `synchronize`: pays `since` off, node by node. */
  method PayOff(first: Entry, since: Timeval, ghost nodes: seq<Entry>, ghost ids: seq<nat>, ghost ts: seq<Timeval>)
    returns (ghost us: seq<Timeval>)
    requires Linked(nodes) && Stores(nodes, ts) && nodes[0] == first
    requires since.Normal() && AllNormal(ts)
    requires Sound(ids, ts, Prefix(Micro(ts), |ts|)) && since.Micros() < Prefix(Micro(ts), |ts|)
    modifies nodes`delta
    ensures Stores(nodes, us)
    ensures Sound(ids, us, Prefix(Micro(ts), |ts|) - since.Micros())
    ensures ViewOf(ids, us) == Lapse(ViewOf(ids, ts), since.Micros())
  {
    hide Timeval.Micros, Timeval.Geq, Timeval.Normal, Prefix, ViewOf, Sound, Distinct, Lapse, Micro;
    var rest, cur := since, first;
    WalkStart(ts, since);
    ghost var e: nat := since.Micros();
    ghost var k := 0;
    us := ts;
    while rest.Geq(cur.delta)
      invariant Walked(ts, k, rest, e)
      invariant Stores(nodes, us) && cur == nodes[k]
      invariant forall i :: 0 <= i < k ==> us[i] == DELAY_ZERO
      invariant forall i :: k <= i < |us| ==> us[i] == ts[i]
      decreases |nodes| - k
    {
      var left := SubAssign(rest, cur.delta);
      WalkStep(ts, k, rest, e, left);
      DistinctAt(nodes, k);
      rest := left;
      cur.delta := DELAY_ZERO;
      us := us[k := DELAY_ZERO];
      cur := cur.next;
      k := k + 1;
    }
    GeqIsMicros(rest, cur.delta);
    DistinctAt(nodes, k);
    cur.delta := SubAssign(cur.delta, rest);
    us := us[k := cur.delta];
    SyncDone(ids, ts, us, Prefix(Micro(ts), |ts|), k, rest, e);
  }

  /** The walk of `AddEntry`: finds the node that `entry` goes before, leaving in
      `entry` what it has to wait after that node's predecessor.  A delay that is longer
      than the whole list takes it round the ring. */
  method FindPlace(entry: Entry, first: Entry, ghost nodes: seq<Entry>, ghost ts: seq<Timeval>)
    returns (cur: Entry, ghost k: nat)
    requires Linked(nodes) && Stores(nodes, ts) && nodes[0] == first
    requires entry !in nodes && entry.delta.Normal() && AllNormal(ts)
    requires 0 < Micro(ts)[|ts| - 1]
    modifies entry`delta
    ensures k < |nodes| && cur == nodes[k]
    ensures 0 <= old(entry.delta.Micros())
    ensures Walked(ts, k, entry.delta, Waited(old(entry.delta.Micros()), Prefix(Micro(ts), |ts|)))
    ensures Waited(old(entry.delta.Micros()), Prefix(Micro(ts), |ts|)) < Prefix(Micro(ts), |ts|)
    ensures !entry.delta.Geq(cur.delta)
  {
    hide Timeval.Micros, Timeval.Geq, Timeval.Normal, Prefix, Distinct, Micro, Waited;
    CircleStart(ts, entry.delta);
    ghost var d: nat, laps := entry.delta.Micros(), 0;
    cur, k := first, 0;
    while entry.delta.Geq(cur.delta)
      invariant Circled(ts, k, entry.delta, d, laps) && cur == nodes[k]
      invariant 0 <= entry.delta.Micros()
      decreases entry.delta.Micros(), |nodes| - k
    {
      var left := SubAssign(entry.delta, cur.delta);
      CircleStep(ts, k, entry.delta, d, laps, left);
      entry.delta := left;
      cur := cur.next;
      k, laps := if k + 1 < |ts| then k + 1 else 0, if k + 1 < |ts| then laps else laps + 1;
    }
    CircleStop(ts, k, entry.delta, d, laps);
  }

  /** The walk, and the payment by the node it stops at. */
  method SplitDelta(entry: Entry, first: Entry, ghost nodes: seq<Entry>, ghost ids: seq<nat>, ghost ts: seq<Timeval>)
    returns (cur: Entry, ghost k: nat, ghost us: seq<Timeval>)
    requires Linked(nodes) && Stores(nodes, ts) && nodes[0] == first
    requires entry !in nodes && entry.delta.Normal() && AllNormal(ts)
    requires Sound(ids, ts, Prefix(Micro(ts), |ts|))
    modifies nodes`delta, entry`delta
    ensures k < |nodes| && cur == nodes[k]
    ensures us == ts[..k] + [entry.delta, cur.delta] + ts[k + 1..]
    ensures forall i :: 0 <= i < |ts| && i != k ==> nodes[i].delta == ts[i]
    ensures Sound(ids[..k] + [entry.id] + ids[k..], us, Prefix(Micro(ts), |ts|))
    ensures 0 <= old(entry.delta.Micros())
    ensures ViewOf(ids[..k] + [entry.id] + ids[k..], us) ==
            Enqueue(ViewOf(ids, ts), entry.id, Waited(old(entry.delta.Micros()), Prefix(Micro(ts), |ts|)))
  {
    hide Timeval.Micros, Timeval.Geq, Prefix, Distinct, Enqueue, ViewOf, Waited;
    NormalMicros(entry.delta);
    ghost var d: nat := Waited(entry.delta.Micros(), Prefix(Micro(ts), |ts|));
    cur, k := FindPlace(entry, first, nodes, ts);
    GeqIsMicros(entry.delta, cur.delta);
    DistinctAt(nodes, k);
    cur.delta := SubAssign(cur.delta, entry.delta);
    us := ts[..k] + [entry.delta, cur.delta] + ts[k + 1..];
    AddDone(ids, ts, us, Prefix(Micro(ts), |ts|), k, entry.delta, entry.id, d);
  }

  /** The links that make `entry` sit before position `k`. */
  lemma InsertedLinks(nodes: seq<Entry>, k: nat, entry: Entry)
    requires Distinct(nodes) && k < |nodes| && entry !in nodes
    requires entry.next == nodes[k] && nodes[k].prev == entry
    requires entry.prev == nodes[if k == 0 then |nodes| - 1 else k - 1] && entry.prev.next == entry
    requires k > 0 ==> nodes[|nodes| - 1].next == nodes[0] && nodes[0].prev == nodes[|nodes| - 1]
    requires forall i {:trigger nodes[i].next} :: 0 <= i < |nodes| - 1 && i + 1 != k ==> nodes[i].next == nodes[i + 1]
    requires forall i {:trigger nodes[i].prev} :: 1 <= i < |nodes| && i != k ==> nodes[i].prev == nodes[i - 1]
    ensures Linked(nodes[..k] + [entry] + nodes[k..])
  {
    hide Distinct;
    DistinctInsert(nodes, k, entry);
    var n, more := |nodes|, nodes[..k] + [entry] + nodes[k..];
    assert |more| == n + 1;
    InsertedAt(nodes, k, entry, n);
    InsertedAt(nodes, k, entry, 0);
    forall i | 0 <= i < n
      ensures more[i].next == more[i + 1] && more[i + 1].prev == more[i]
    {
      InsertedAt(nodes, k, entry, i);
      InsertedAt(nodes, k, entry, i + 1);
    }
  }

  /** Links `entry` in just before `cur`. */
  method LinkBefore(entry: Entry, cur: Entry, ghost nodes: seq<Entry>, ghost k: nat)
    requires Linked(nodes) && entry !in nodes && k < |nodes| && nodes[k] == cur
    modifies entry`next, entry`prev, nodes`next, nodes`prev
    ensures Linked(nodes[..k] + [entry] + nodes[k..])
  {
    hide Distinct;
    ghost var p := if k == 0 then |nodes| - 1 else k - 1;
    assert cur.prev == nodes[p];
    DistinctAt(nodes, p);
    DistinctAt(nodes, k);
    entry.next := cur;
    entry.prev := cur.prev;
    entry.prev.next := entry;
    cur.prev := entry;
    InsertedLinks(nodes, k, entry);
  }

  /** The links that bridge position `k`. */
  lemma RemovedLinks(nodes: seq<Entry>, k: nat)
    requires Distinct(nodes) && k < |nodes| - 1
    requires var p := if k == 0 then |nodes| - 1 else k - 1;
             nodes[p].next == nodes[k + 1] && nodes[k + 1].prev == nodes[p]
    requires k > 0 ==> nodes[|nodes| - 1].next == nodes[0] && nodes[0].prev == nodes[|nodes| - 1]
    requires forall i {:trigger nodes[i].next} :: 0 <= i < |nodes| - 1 && i + 1 != k && i != k ==>
      nodes[i].next == nodes[i + 1]
    requires forall i {:trigger nodes[i].prev} :: 1 <= i < |nodes| && i != k + 1 && i != k ==>
      nodes[i].prev == nodes[i - 1]
    ensures Linked(nodes[..k] + nodes[k + 1..])
  {
    hide Distinct;
    DistinctRemove(nodes, k);
    var n, rest := |nodes|, nodes[..k] + nodes[k + 1..];
    assert |rest| == n - 1;
    RemovedAt(nodes, k, n - 2);
    RemovedAt(nodes, k, 0);
    forall i | 0 <= i < n - 2
      ensures rest[i].next == rest[i + 1] && rest[i + 1].prev == rest[i]
    {
      RemovedAt(nodes, k, i);
      RemovedAt(nodes, k, i + 1);
    }
  }

  /** An entry that is in no list and still has the links it was constructed with. */
  ghost predicate Lone(entry: Entry, nodes: seq<Entry>)
    reads entry
  {
    && entry !in nodes && entry.next == entry && entry.prev == entry
    && entry.delta.Normal() && 2 * entry.delta.Micros() <= ETERNITY.Micros()
  }

  /** Links an entry out, whether it is at position `k` or (`k` past the end) alone. */
  method Unlink(entry: Entry, ghost nodes: seq<Entry>, ghost k: nat)
    requires Linked(nodes)
    requires if k < |nodes| - 1 then nodes[k] == entry else entry !in nodes && entry.next == entry && entry.prev == entry
    modifies nodes`next, nodes`prev, entry`next, entry`prev
    ensures k < |nodes| - 1 ==> Linked(nodes[..k] + nodes[k + 1..])
    ensures k >= |nodes| - 1 ==> Linked(nodes)
    ensures entry.next == null && entry.prev == null
  {
    hide Distinct;
    if k < |nodes| - 1 {
      ghost var p := if k == 0 then |nodes| - 1 else k - 1;
      assert entry.prev == nodes[p] && entry.next == nodes[k + 1];
      DistinctAt(nodes, p);
      DistinctAt(nodes, k);
      DistinctAt(nodes, k + 1);
    }
    entry.prev.next := entry.next;
    entry.next.prev := entry.prev;
    entry.next := null;
    entry.prev := null;
    if k < |nodes| - 1 {
      RemovedLinks(nodes, k);
    }
  }

  /** Walks to the place of `entry` and links it in there. */
  method InsertNode(entry: Entry, sentinel: Entry, ghost nodes: seq<Entry>, ghost ids: seq<nat>, ghost ts: seq<Timeval>)
    returns (ghost more: seq<Entry>, ghost names: seq<nat>, ghost us: seq<Timeval>)
    requires Linked(nodes) && nodes[|nodes| - 1] == sentinel && Named(nodes, ids) && Stores(nodes, ts)
    requires AllNormal(ts) && Sound(ids, ts, Prefix(Micro(ts), |ts|))
    requires entry !in nodes && entry.delta.Normal()
    modifies nodes, entry
    ensures Linked(more) && more[|more| - 1] == sentinel && Named(more, names) && Stores(more, us)
    ensures Sound(names, us, Prefix(Micro(ts), |ts|))
    ensures 0 <= old(entry.delta.Micros())
    ensures ViewOf(names, us) ==
            Enqueue(ViewOf(ids, ts), entry.id, Waited(old(entry.delta.Micros()), Prefix(Micro(ts), |ts|)))
    ensures forall x :: x in more <==> x == entry || x in nodes
  {
    hide Timeval.Micros, Timeval.Geq, Timeval.Normal, Prefix, Distinct, Enqueue, Named, ViewOf, Micro, Waited;
    var cur;
    ghost var k;
    cur, k, us := SplitDelta(entry, sentinel.next, nodes, ids, ts);
    LinkBefore(entry, cur, nodes, k);
    more, names := nodes[..k] + [entry] + nodes[k..], ids[..k] + [entry.id] + ids[k..];
    SpliceStores(nodes, ts, k, entry);
    SpliceNames(nodes, ids, k, entry);
  }

  lemma RemovedFrom(nodes: seq<Entry>, ids: seq<nat>, ts: seq<Timeval>, us: seq<Timeval>, k: nat)
    requires Distinct(nodes) && Named(nodes, ids) && |ts| == |nodes| && k < |ids|
    requires forall i :: 0 <= i < |ts| && i != k + 1 ==> nodes[i].delta == ts[i]
    requires us == ts[..k] + [nodes[k + 1].delta] + ts[k + 2..]
    ensures var rest := nodes[..k] + nodes[k + 1..];
            && Named(rest, ids[..k] + ids[k + 1..]) && Stores(rest, us)
            && (forall x :: x in rest <==> x in nodes && x != nodes[k])
  {
    hide Distinct;
    DistinctAt(nodes, k);
    assert nodes == nodes[..k] + [nodes[k]] + nodes[k + 1..];
  }

  /** Gives the entry's delta to its successor. */
  method MergeDelta(entry: Entry, ghost nodes: seq<Entry>, ghost ids: seq<nat>, ghost ts: seq<Timeval>, ghost k: nat)
    returns (ghost us: seq<Timeval>)
    requires Linked(nodes) && Named(nodes, ids) && Stores(nodes, ts) && AllNormal(ts)
    requires if k < |ids| then nodes[k] == entry else Lone(entry, nodes)
    requires Sound(ids, ts, Prefix(Micro(ts), |ts|)) && Prefix(Micro(ts), |ts|) <= ETERNITY.Micros()
    modifies nodes`delta, entry`delta
    ensures k >= |ids| ==> us == ts && Stores(nodes, ts)
    ensures k < |ids| ==>
      && entry.delta == old(entry.delta)
      && us == ts[..k] + [nodes[k + 1].delta] + ts[k + 2..]
      && (forall i :: 0 <= i < |ts| && i != k + 1 ==> nodes[i].delta == ts[i])
      && Sound(ids[..k] + ids[k + 1..], us, Prefix(Micro(ts), |ts|))
      && ViewOf(ids[..k] + ids[k + 1..], us) == Drop(ViewOf(ids, ts), k)
  {
    hide Timeval.Micros, Timeval.Geq, Timeval.Normal, Prefix, Distinct, Drop, ViewOf, Micro, Sound, Abstract;
    if k < |ids| {
      NeighboursFit(ids, ts, Prefix(Micro(ts), |ts|), k);
      DistinctAt(nodes, k + 1);
    }
    entry.next.delta := AddAssign(entry.next.delta, entry.delta);
    us := ts;
    if k < |ids| {
      us := ts[..k] + [nodes[k + 1].delta] + ts[k + 2..];
      RemoveDone(ids, ts, us, Prefix(Micro(ts), |ts|), k);
    }
  }

  /** The same with the sequences that remain. */
  method MergeNode(entry: Entry, ghost nodes: seq<Entry>, ghost ids: seq<nat>, ghost ts: seq<Timeval>, ghost k: nat)
    returns (ghost rest: seq<Entry>, ghost names: seq<nat>, ghost us: seq<Timeval>)
    requires Linked(nodes) && Named(nodes, ids) && Stores(nodes, ts) && AllNormal(ts)
    requires if k < |ids| then nodes[k] == entry else Lone(entry, nodes)
    requires Sound(ids, ts, Prefix(Micro(ts), |ts|)) && Prefix(Micro(ts), |ts|) <= ETERNITY.Micros()
    modifies nodes`delta, entry`delta
    ensures |nodes| == |ids| + 1
    ensures rest == if k < |ids| then nodes[..k] + nodes[k + 1..] else nodes
    ensures Named(rest, names) && Stores(rest, us) && Sound(names, us, Prefix(Micro(ts), |ts|))
    ensures ViewOf(names, us) == if k < |ids| then Drop(ViewOf(ids, ts), k) else ViewOf(ids, ts)
    ensures forall x :: x in rest <==> x in nodes && x != entry
    ensures k < |ids| ==> entry.delta == old(entry.delta)
  {
    hide Timeval.Micros, Timeval.Geq, Timeval.Normal, Prefix, Distinct, Drop, ViewOf, Micro, Sound, Abstract;
    hide Linked;
    LinkedDistinct(nodes);
    us := MergeDelta(entry, nodes, ids, ts, k);
    rest, names := nodes, ids;
    if k < |ids| {
      RemovedFrom(nodes, ids, ts, us, k);
      rest, names := nodes[..k] + nodes[k + 1..], ids[..k] + ids[k + 1..];
    }
  }

  /** Gives the entry's delta to its successor and links the entry out; an entry
      that is alone is its own successor. */
  method RemoveNode(entry: Entry, ghost nodes: seq<Entry>, ghost ids: seq<nat>, ghost ts: seq<Timeval>, ghost k: nat)
    returns (ghost rest: seq<Entry>, ghost names: seq<nat>, ghost us: seq<Timeval>)
    requires Linked(nodes) && Named(nodes, ids) && Stores(nodes, ts) && AllNormal(ts)
    requires if k < |ids| then nodes[k] == entry else Lone(entry, nodes)
    requires Sound(ids, ts, Prefix(Micro(ts), |ts|)) && Prefix(Micro(ts), |ts|) <= ETERNITY.Micros()
    modifies nodes, entry
    ensures Linked(rest) && rest[|rest| - 1] == nodes[|nodes| - 1] && Named(rest, names) && Stores(rest, us)
    ensures Sound(names, us, Prefix(Micro(ts), |ts|))
    ensures ViewOf(names, us) == if k < |ids| then Drop(ViewOf(ids, ts), k) else ViewOf(ids, ts)
    ensures forall x :: x in rest <==> x in nodes && x != entry
    ensures k >= |ids| ==> rest == nodes
    ensures entry.next == null && entry.prev == null
    ensures k < |ids| ==> entry.delta == old(entry.delta)
  {
    hide Timeval.Micros, Timeval.Geq, Timeval.Normal, Prefix, Distinct, Drop, ViewOf, Micro, Sound, Abstract;
    hide Linked, Named;
    rest, names, us := MergeNode(entry, nodes, ids, ts, k);
    LinksKept(nodes);
    LinkedDistinct(nodes);
    Unlink(entry, nodes, k);
  }

  class DelayQueue {
    const sentinel: Entry
    var lastSync: Timeval
    ghost var ring: seq<Entry>       // the nodes in list order, the sentinel last
    ghost var ids: seq<nat>          // the tasks' identities, without the sentinel's
    ghost var deltas: seq<Timeval>   // what the nodes store
    ghost var clock: nat             // how far this queue's clock has moved in all
    ghost const span: nat            // how far it can move

    /** The list is a ring through the sentinel, and what it stores is sound. */
    ghost predicate Valid()
      reads this, ring
    {
      && Linked(ring) && ring[|ring| - 1] == sentinel
      && lastSync.Normal()
      && Named(ring, ids) && Stores(ring, deltas)
      && clock <= span && Sound(ids, deltas, span - clock)
    }

    /** The tasks with their remaining times. */
    ghost function View(): Queue
      requires |deltas| == |ids| + 1 && AllNormal(deltas)
      reads this
    {
      ViewOf(ids, deltas)
    }

    constructor (now: Timeval)
      requires now.Normal()
      ensures Valid() && fresh(sentinel) && ring == [sentinel]
      ensures lastSync == now && clock == 0 && span == ETERNITY.Micros()
      ensures View() == Queue([], ETERNITY.Micros())
    {
      sentinel := new Entry(0, ETERNITY);
      lastSync := now;
      clock, span := 0, ETERNITY.Micros();
      new;
      ring, ids, deltas := [sentinel], [], [ETERNITY];
      assert Prefix(Micro(deltas), 1) == Prefix(Micro(deltas), 0) + Micro(deltas)[0];
    }

    /** Moves the queue's clock on to `now`.  It stands still when the reading went back;
        otherwise it moves by the difference of the readings. */
    method Synchronize(now: Timeval)
      requires Valid() && now.Normal()
      requires Elapsed(now, lastSync) < View().horizon
      modifies this, ring`delta
      ensures Valid() && ring == old(ring) && lastSync == now
      ensures clock == old(clock) + Elapsed(now, old(lastSync))
      ensures View() == Lapse(old(View()), Elapsed(now, old(lastSync)))
      ensures now.Less(old(lastSync)) ==> View() == old(View()) && clock == old(clock)
      ensures ShortlyAfter(now, old(lastSync)) ==>
                var e := now.Micros() - old(lastSync.Micros());
                0 <= e < old(View()).horizon && View() == Lapse(old(View()), e) && clock == old(clock) + e
    {
      hide Timeval.Micros, Timeval.Geq, Timeval.Normal, Timeval.Less, Elapsed, ShortlyAfter, Lapse;
      hide Linked, Named, Stores, ViewOf;
      ElapsedExact(now, lastSync);
      LapseNone(View());
      PassTime(now);
    }

    method PassTime(now: Timeval)
      requires Valid() && now.Normal()
      requires Elapsed(now, lastSync) < View().horizon
      modifies this, ring`delta
      ensures Valid() && ring == old(ring) && lastSync == now
      ensures clock == old(clock) + Elapsed(now, old(lastSync))
      ensures View() == Lapse(old(View()), Elapsed(now, old(lastSync)))
    {
      hide Timeval.Micros, Timeval.Geq, Minus, Distinct, Named, Prefix, ViewOf, Lapse, Linked, Abstract, Stores, Micro;
      hide Timeval.Normal;
      HeadIsNext(ring);
      HorizonIsTotal(ids, deltas);
      LapseNone(View());
      if now.Less(lastSync) {
        lastSync := now;
        return;
      }
      var since := Minus(now, lastSync);
      ghost var us := PayOff(sentinel.next, since, ring, ids, deltas);
      lastSync, clock, deltas := now, clock + since.Micros(), us;
      LinksKept(ring);
      assert Sound(ids, deltas, span - clock);
    }

    /** Puts `entry` in after every task due no later than what it has to wait; the
        delay it asks for is what it holds on entry, and full rounds of the list do not
        count. */
    method AddEntry(entry: Entry, now: Timeval)
      requires Valid() && now.Normal()
      requires entry !in ring && entry.delta.Normal()
      requires Elapsed(now, lastSync) < View().horizon
      modifies this, ring, entry
      ensures Valid() && lastSync == now
      ensures clock == old(clock) + Elapsed(now, old(lastSync))
      ensures 0 <= old(entry.delta.Micros())
      ensures View() == Enqueue(Lapse(old(View()), Elapsed(now, old(lastSync))), entry.id,
                                Waited(old(entry.delta.Micros()),
                                       old(View()).horizon - Elapsed(now, old(lastSync))))
      ensures forall x :: x in ring <==> x == entry || x in old(ring)
    {
      hide Timeval.Micros, Timeval.Geq, Minus, Prefix, Waited, Elapsed, ViewOf, Stores, Named, Sound, Enqueue;
      hide Distinct, Linked, Abstract;
      NormalMicros(entry.delta);
      Synchronize(now);
      PutIn(entry);
    }

    /** The part of `AddEntry` after the synchronisation. */
    method PutIn(entry: Entry)
      requires Valid() && entry !in ring && entry.delta.Normal()
      modifies this`ring, this`ids, this`deltas, ring, entry
      ensures Valid()
      ensures 0 <= old(entry.delta.Micros())
      ensures View() == Enqueue(old(View()), entry.id, Waited(old(entry.delta.Micros()), old(View()).horizon))
      ensures forall x :: x in ring <==> x == entry || x in old(ring)
    {
      hide Timeval.Micros, Timeval.Normal, Prefix, Enqueue, ViewOf, Stores, Named, Distinct, Waited;
      HorizonIsTotal(ids, deltas);
      ring, ids, deltas := InsertNode(entry, sentinel, ring, ids, deltas);
    }

    /** The position of a queued entry; for any other entry, the number of tasks. */
    ghost function Place(entry: Entry): (k: nat)
      requires Valid() && entry != sentinel
      reads this, ring
      ensures k <= |ids| == |View().items|
      ensures k < |ids| ==> ring[k] == entry
      ensures k < |ids| <==> entry in ring
    {
      hide Distinct, Linked;
      if entry in ring then var k :| 0 <= k < |ring| && ring[k] == entry; k else |ids|
    }

    /** Takes the entry out; an entry that is in no list only loses its links. */
    method RemoveEntry(entry: Entry?)
      requires Valid() && span <= ETERNITY.Micros()
      requires entry != null ==> entry != sentinel && (entry in ring || entry.next == null || Lone(entry, ring))
      modifies this`ring, this`ids, this`deltas, ring, entry
      ensures Valid()
      ensures View() == if entry != null && old(entry in ring) then Drop(old(View()), old(Place(entry))) else old(View())
      ensures forall x :: x in ring <==> x in old(ring) && x != entry
      ensures entry != null ==> entry.next == null
      ensures entry != null && old(entry in ring) ==> entry.delta == old(entry.delta)
    {
      hide Timeval.Micros, Timeval.Normal, Prefix, Drop, ViewOf, Stores, Distinct, Abstract;
      if entry == null || entry.next == null {
        return;
      }
      HorizonIsTotal(ids, deltas);
      ring, ids, deltas := RemoveNode(entry, ring, ids, deltas, Place(entry));
    }

    method UpdateEntry(entry: Entry?, newDelay: Timeval, now: Timeval)
      requires Valid() && span <= ETERNITY.Micros() && now.Normal() && newDelay.Normal()
      requires entry != null ==> entry != sentinel && (entry in ring || entry.next == null || Lone(entry, ring))
      requires Elapsed(now, lastSync) < View().horizon
      modifies this, ring, entry
      ensures Valid()
      ensures 0 <= newDelay.Micros()
      ensures entry == null ==> View() == old(View()) && lastSync == old(lastSync) && clock == old(clock)
      ensures entry != null ==>
        && lastSync == now && clock == old(clock) + Elapsed(now, old(lastSync))
        && View() == Enqueue(Lapse(if old(entry in ring) then Drop(old(View()), old(Place(entry))) else old(View()),
                                   Elapsed(now, old(lastSync))),
                             entry.id, Waited(newDelay.Micros(), old(View()).horizon - Elapsed(now, old(lastSync))))
      ensures entry != null ==> forall x :: x in ring <==> x == entry || x in old(ring)
    {
      hide Timeval.Micros, Timeval.Normal, Prefix, ViewOf, Stores, Distinct, Abstract, Linked, Named, Sound, Elapsed, Waited;
      NormalMicros(newDelay);
      if entry == null {
        return;
      }
      RemoveEntry(entry);
      entry.delta := newDelay;
      assert forall i :: 0 <= i < |ring| ==> ring[i] in old(ring);
      AddEntry(entry, now);
    }

    /** How long until the next alarm: the waiting time of the first task, or of the
        sentinel when there is none. */
    method TimeToNextAlarm(now: Timeval) returns (t: Timeval)
      requires Valid() && now.Normal()
      requires Elapsed(now, lastSync) < View().horizon
      modifies this, ring`delta
      ensures Valid() && ring == old(ring) && t.Normal()
      ensures View() == if |old(View()).items| > 0 && old(View()).items[0].due == 0 then old(View())
                        else Lapse(old(View()), Elapsed(now, old(lastSync)))
      ensures lastSync == if |old(View()).items| > 0 && old(View()).items[0].due == 0 then old(lastSync) else now
      ensures t.Micros() == if |View().items| == 0 then View().horizon else View().items[0].due
      ensures forall item :: item in View().items ==> t.Micros() <= item.due
    {
      hide Timeval.Micros, Timeval.Geq, Elapsed, Linked, Prefix, Lapse, Abstract, Micro, Named, ViewOf;
      HeadIsNext(ring);
      HeadDue(ids, deltas, span - clock);
      if sentinel.next.delta.Eq(DELAY_ZERO) {
        ZeroMicros();
        t := DELAY_ZERO;
      } else {
        Synchronize(now);
        HeadIsNext(ring);
        HeadDue(ids, deltas, span - clock);
        t := sentinel.next.delta;
      }
      ViewValid(ids, deltas, span - clock);
    }

    /** The first task comes out. */
    method FireNext() returns (id: nat)
      requires Valid() && span <= ETERNITY.Micros()
      requires |View().items| > 0
      modifies this`ring, this`ids, this`deltas, ring
      ensures Valid()
      ensures id == old(View()).items[0].id
      ensures View() == Drop(old(View()), 0)
      ensures |ring| < |old(ring)| && forall i :: 0 <= i < |ring| ==> ring[i] in old(ring)
    {
      hide Timeval.Micros, Timeval.Normal, Prefix, Stores, Distinct, Micro, Drop;
      DistinctAt(ring, 0);
      var toRemove := sentinel.next;
      id := toRemove.id;
      DropShorter(View(), 0);
      RemoveEntry(toRemove);
    }

    /** A pass of the alarm loop whose callbacks schedule nothing. */
    method HandleAlarm(now: Timeval) returns (fired: seq<nat>)
      requires Valid() && span <= ETERNITY.Micros() && now.Normal()
      requires Elapsed(now, lastSync) < View().horizon
      modifies this, ring
      ensures Valid()
      ensures var q := if |old(View()).items| > 0 && old(View()).items[0].due == 0 then old(View())
                       else Lapse(old(View()), Elapsed(now, old(lastSync)));
              && View() == Expire(q)
              && |fired| == |DueNow(q)|
              && forall i :: 0 <= i < |fired| ==> fired[i] == DueNow(q)[i].id
    {
      hide Timeval.Micros, Timeval.Geq, Elapsed, Linked, Prefix, Lapse, Abstract, Micro, Named, ViewOf, Stores, Distinct;
      hide Expire, DueNow;
      HeadAlarm();
      if !sentinel.next.delta.Eq(DELAY_ZERO) {
        Synchronize(now);
      }
      fired := FireDue();
    }

    /** The loop of `HandleAlarm`. */
    method FireDue() returns (fired: seq<nat>)
      requires Valid() && span <= ETERNITY.Micros()
      modifies this`ring, this`ids, this`deltas, ring
      ensures Valid() && View() == Expire(old(View()))
      ensures |fired| == |DueNow(old(View()))|
      ensures forall i :: 0 <= i < |fired| ==> fired[i] == DueNow(old(View()))[i].id
    {
      hide Timeval.Micros, Timeval.Geq, Linked, Prefix, Abstract, Micro, Named, ViewOf, Stores, Distinct;
      hide Expire, DueNow, Drop;
      fired := [];
      ghost var q, was := View(), ring;
      ghost var done: seq<Item> := [];
      HeadAlarm();
      while sentinel.next.delta.Eq(DELAY_ZERO)
        invariant Valid()
        invariant done + DueNow(View()) == DueNow(q) && Expire(View()) == Expire(q)
        invariant |fired| == |done| && forall i :: 0 <= i < |fired| ==> fired[i] == done[i].id
        invariant forall i :: 0 <= i < |ring| ==> ring[i] in was
        invariant sentinel.next != null
        invariant sentinel.next.delta.Eq(DELAY_ZERO) <==> |View().items| > 0 && View().items[0].due == 0
        decreases |ring|
      {
        DueNowHead(View());
        done := done + [View().items[0]];
        var id := FireNext();
        fired := fired + [id];
        HeadAlarm();
      }
      DueNowNone(View());
    }

    /** What the loop guard of the alarm loop sees. */
    lemma HeadAlarm()
      requires Valid()
      ensures sentinel.next != null
      ensures sentinel.next.delta.Eq(DELAY_ZERO) <==> |View().items| > 0 && View().items[0].due == 0
    {
      HeadIsNext(ring);
      HeadDue(ids, deltas, span - clock);
    }
  }
}
