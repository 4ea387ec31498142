/** Whole runs of the delay queue.  The `queue` component moves by the operations
    of module TaskQueue, which only ever see remaining times; the other components
    are history: the absolute deadline every task was given on the queue's own
    clock, the order of insertion, and what became of each task; `span` is
    the sum of all deltas at the start. */
module TaskRuns {
  import opened Timevals
  import opened TaskQueue

  datatype Ticket = Ticket(deadline: nat, order: nat)

  datatype Firing = Firing(id: nat, at: nat)

  datatype State = State(
    queue: Queue,
    clock: nat,
    lastSync: Timeval,
    tickets: map<nat, Ticket>,
    fired: seq<Firing>,
    removed: set<nat>,
    inserts: nat,
    span: nat)

  /** `Fire` is one turn of the alarm loop.  A callback may do anything the queue
      offers, so events of any kind may stand between two firings. */
  datatype Event =
    | Schedule(id: nat, delay: Timeval, now: Timeval)
    | Update(id: nat, delay: Timeval, now: Timeval)
    | Remove(id: nat)
    | Synchronize(now: Timeval)
    | Fire

  ghost function Init(now: Timeval): State {
    State(Queue([], ETERNITY.Micros()), 0, now, map[], [], {}, 0, ETERNITY.Micros())
  }

  predicate IsQueued(s: State, id: nat) {
    exists i :: 0 <= i < |s.queue.items| && s.queue.items[i].id == id
  }

  predicate HasFired(s: State, id: nat) {
    exists i :: 0 <= i < |s.fired| && s.fired[i].id == id
  }

  predicate Before(a: Ticket, b: Ticket) {
    a.deadline < b.deadline || (a.deadline == b.deadline && a.order < b.order)
  }

  // ---------- the steps ----------

  function IndexOf(items: seq<Item>, id: nat): (k: nat)
    ensures k <= |items|
    ensures k < |items| ==> items[k].id == id
    ensures k == |items| ==> forall i :: 0 <= i < |items| ==> items[i].id != id
  {
    if items == [] || items[0].id == id then 0 else 1 + IndexOf(items[1..], id)
  }

  function Without(q: Queue, id: nat): Queue {
    var k := IndexOf(q.items, id);
    if k < |q.items| then Drop(q, k) else q
  }

  /** A clock reading the queue can take in: the time that passed does not use up
      what is left of its horizon. */
  ghost predicate Readable(s: State, now: Timeval) {
    now.Normal() && s.lastSync.Normal() && Elapsed(now, s.lastSync) < s.queue.horizon
  }

  ghost predicate Enabled(s: State, ev: Event) {
    match ev
    case Schedule(id, delay, now) =>
      id !in s.tickets && Readable(s, now) && delay.Normal()
    case Update(id, delay, now) =>
      id in s.tickets && !HasFired(s, id) && Readable(s, now) && delay.Normal()
    case Remove(id) =>
      id in s.tickets && !HasFired(s, id)
    case Synchronize(now) =>
      Readable(s, now)
    case Fire =>
      s.queue.items != [] && s.queue.items[0].due == 0
  }

  ghost function Sync(s: State, now: Timeval): State
    requires Readable(s, now)
  {
    var e := Elapsed(now, s.lastSync);
    s.(queue := Lapse(s.queue, e), clock := s.clock + e, lastSync := now)
  }

  ghost function Add(s: State, id: nat, d: nat): State {
    s.(queue := Enqueue(s.queue, id, d),
       tickets := s.tickets[id := Ticket(s.clock + d, s.inserts)],
       removed := s.removed - {id},
       inserts := s.inserts + 1)
  }

  ghost function TakeOut(s: State, id: nat): State {
    s.(queue := Without(s.queue, id), removed := s.removed + {id})
  }

  ghost function Step(s: State, ev: Event): State
    requires Enabled(s, ev)
  {
    match ev
    case Schedule(id, delay, now) =>
      var t := Sync(s, now);
      Add(t, id, Waited(delay.Micros(), t.queue.horizon))
    case Update(id, delay, now) =>
      var t := Sync(TakeOut(s, id), now);
      Add(t, id, Waited(delay.Micros(), t.queue.horizon))
    case Remove(id) => TakeOut(s, id)
    case Synchronize(now) => Sync(s, now)
    case Fire => s.(queue := Drop(s.queue, 0), fired := s.fired + [Firing(s.queue.items[0].id, s.clock)])
  }

  ghost predicate CanRun(s: State, evs: seq<Event>)
    decreases |evs|
  {
    evs == [] || (Enabled(s, evs[0]) && CanRun(Step(s, evs[0]), evs[1..]))
  }

  ghost function Run(s: State, evs: seq<Event>): State
    requires CanRun(s, evs)
    decreases |evs|
  {
    if evs == [] then s else Run(Step(s, evs[0]), evs[1..])
  }

  // ---------- what every step keeps ----------

  ghost predicate Conserved(s: State) {
    && s.queue.horizon + s.clock == s.span
    && 0 < s.queue.horizon
  }

  ghost predicate Known(s: State) {
    && (forall i :: 0 <= i < |s.queue.items| ==> s.queue.items[i].id in s.tickets)
    && (forall i :: 0 <= i < |s.fired| ==> s.fired[i].id in s.tickets)
  }

  /** Every remaining time is the deadline minus the clock, or zero. */
  ghost predicate Faithful(s: State)
    requires Known(s)
  {
    forall i :: 0 <= i < |s.queue.items| ==>
      && s.queue.items[i].due == Left(s.tickets[s.queue.items[i].id].deadline, s.clock)
      && s.queue.items[i].due < s.queue.horizon
  }

  /** The tickets of the fired tasks, then of the queued ones, strictly ascend. */
  ghost predicate Ordered(s: State)
    requires Known(s)
  {
    && (forall i, j :: 0 <= i < j < |s.fired| ==>
          Before(s.tickets[s.fired[i].id], s.tickets[s.fired[j].id]))
    && (forall i, j :: 0 <= i < |s.fired| && 0 <= j < |s.queue.items| ==>
          Before(s.tickets[s.fired[i].id], s.tickets[s.queue.items[j].id]))
    && (forall i, j :: 0 <= i < j < |s.queue.items| ==>
          Before(s.tickets[s.queue.items[i].id], s.tickets[s.queue.items[j].id]))
  }

  ghost predicate OnTime(s: State)
    requires Known(s)
  {
    && (forall i :: 0 <= i < |s.fired| ==>
          s.tickets[s.fired[i].id].deadline <= s.fired[i].at <= s.clock)
    && (forall i, j :: 0 <= i < j < |s.fired| ==> s.fired[i].at <= s.fired[j].at)
  }

  ghost predicate Accounted(s: State) {
    && (forall id :: id in s.tickets <==> IsQueued(s, id) || HasFired(s, id) || id in s.removed)
    && (forall id :: IsQueued(s, id) || HasFired(s, id) ==> id !in s.removed)
    && (forall id :: id in s.tickets ==> s.tickets[id].order < s.inserts)
  }

  ghost predicate Inv(s: State) {
    Conserved(s) && Known(s) && Faithful(s) && Ordered(s) && OnTime(s) && Accounted(s)
  }

  lemma InitInv(now: Timeval)
    ensures Inv(Init(now))
  {
  }

  /** In a state of the invariant the queue is in the form the operations rely on. */
  lemma InvQueueValid(s: State)
    requires Inv(s)
    ensures Valid(s.queue)
  {
    var items := s.queue.items;
    forall i, j | 0 <= i < j < |items|
      ensures items[i].due <= items[j].due
    {
      assert Before(s.tickets[items[i].id], s.tickets[items[j].id]);
    }
  }

  lemma SyncInv(s: State, now: Timeval)
    requires Inv(s) && Readable(s, now)
    ensures Inv(Sync(s, now))
    ensures forall id :: IsQueued(Sync(s, now), id) <==> IsQueued(s, id)
  {
    var t := Sync(s, now);
    assert forall i :: 0 <= i < |s.queue.items| ==> t.queue.items[i].id == s.queue.items[i].id;
    assert forall id :: HasFired(t, id) <==> HasFired(s, id);
  }

  /** What taking out position `k` does to the items, index by index. */
  lemma DropItems(q: Queue, k: nat)
    requires k < |q.items|
    ensures forall i :: 0 <= i < k ==> Drop(q, k).items[i] == q.items[i]
    ensures forall i :: k <= i < |q.items| - 1 ==> Drop(q, k).items[i] == q.items[i + 1]
    ensures forall i :: k < i < |q.items| ==> q.items[i] == Drop(q, k).items[i - 1]
  {
  }

  /** Taking out position `k` keeps what is said of the queue's items. */
  lemma DropOrdered(s: State, k: nat)
    requires Known(s) && Faithful(s) && Ordered(s) && k < |s.queue.items|
    ensures var t := s.(queue := Drop(s.queue, k)); Known(t) && Faithful(t) && Ordered(t)
  {
    hide Before, Left;
    DropItems(s.queue, k);
  }

  lemma TakeOutAccounted(s: State, id: nat)
    requires Known(s) && Ordered(s) && Accounted(s)
    requires id in s.tickets && !HasFired(s, id)
    ensures Accounted(TakeOut(s, id))
    ensures !IsQueued(TakeOut(s, id), id)
  {
    hide Before;
    var t := TakeOut(s, id);
    var k := IndexOf(s.queue.items, id);
    forall x
      ensures HasFired(t, x) <==> HasFired(s, x)
      ensures IsQueued(t, x) <==> x != id && IsQueued(s, x)
    {
      if k < |s.queue.items| {
        DropMembers(s, k, x);
        assert IsQueued(s.(queue := Drop(s.queue, k)), x) <==> IsQueued(t, x);
      }
    }
  }

  lemma TakeOutInv(s: State, id: nat)
    requires Inv(s)
    requires id in s.tickets && !HasFired(s, id)
    ensures Inv(TakeOut(s, id))
    ensures !IsQueued(TakeOut(s, id), id)
  {
    hide Before, Left, Accounted;
    TakeOutAccounted(s, id);
    var k := IndexOf(s.queue.items, id);
    if k < |s.queue.items| {
      DropOrdered(s, k);
    }
  }

  lemma DropMembers(s: State, k: nat, x: nat)
    requires Known(s) && Ordered(s) && k < |s.queue.items|
    ensures var t := s.(queue := Drop(s.queue, k));
            && (IsQueued(s, x) <==> x == s.queue.items[k].id || IsQueued(t, x))
            && (IsQueued(t, x) ==> x != s.queue.items[k].id)
  {
    var items := s.queue.items;
    var t := s.(queue := Drop(s.queue, k));
    DropItems(s.queue, k);
    if IsQueued(t, x) {
      var i :| 0 <= i < |t.queue.items| && t.queue.items[i].id == x;
      var j := if i < k then i else i + 1;
      assert items[j].id == x;
      assert Before(s.tickets[items[if j < k then j else k].id], s.tickets[items[if j < k then k else j].id]);
    }
    if IsQueued(s, x) && x != items[k].id {
      var j :| 0 <= j < |items| && items[j].id == x;
      assert t.queue.items[if j < k then j else j - 1].id == x;
    }
  }

  /** The queue compares remaining times, some of them cut off at zero; this finds
      the same place as comparing the deadlines would. */
  lemma PositionByDeadline(s: State, d: nat, i: nat)
    requires Inv(s) && i < |s.queue.items|
    ensures var ticket := Ticket(s.clock + d, s.inserts);
            if i < Position(s.queue.items, d)
            then Before(s.tickets[s.queue.items[i].id], ticket)
            else Before(ticket, s.tickets[s.queue.items[i].id])
  {
    var k := Position(s.queue.items, d);
    assert s.queue.items[i].id in s.tickets;
    if i >= k {
      InvQueueValid(s);
      assert s.queue.items[k].due <= s.queue.items[i].due;
    }
  }

  lemma AddMembers(s: State, id: nat, d: nat, x: nat)
    ensures IsQueued(Add(s, id, d), x) <==> x == id || IsQueued(s, x)
    ensures HasFired(Add(s, id, d), x) <==> HasFired(s, x)
  {
    var t, k := Add(s, id, d), Position(s.queue.items, d);
    EnqueueItems(s.queue, id, d);
    assert t.queue.items[k].id == id;
    if IsQueued(s, x) {
      var j :| 0 <= j < |s.queue.items| && s.queue.items[j].id == x;
      assert t.queue.items[if j < k then j else j + 1].id == x;
    }
  }

  lemma AddFaithful(s: State, id: nat, d: nat)
    requires Conserved(s) && Known(s) && Faithful(s) && !IsQueued(s, id) && d < s.queue.horizon
    ensures Known(Add(s, id, d)) && Faithful(Add(s, id, d))
  {
    EnqueueItems(s.queue, id, d);
    assert forall i :: 0 <= i < |s.queue.items| ==> IsQueued(s, s.queue.items[i].id);
  }

  lemma AddOnTime(s: State, id: nat, d: nat)
    requires Known(s) && OnTime(s) && !HasFired(s, id)
    requires Known(Add(s, id, d))
    ensures OnTime(Add(s, id, d))
  {
    assert forall i :: 0 <= i < |s.fired| ==> HasFired(s, s.fired[i].id);
  }

  lemma AddAccounted(s: State, id: nat, d: nat)
    requires Accounted(s)
    ensures Accounted(Add(s, id, d))
  {
    forall x
      ensures IsQueued(Add(s, id, d), x) <==> x == id || IsQueued(s, x)
      ensures HasFired(Add(s, id, d), x) <==> HasFired(s, x)
    {
      AddMembers(s, id, d, x);
    }
  }

  lemma AddInv(s: State, id: nat, d: nat)
    requires Inv(s) && !IsQueued(s, id) && !HasFired(s, id) && d < s.queue.horizon
    ensures Inv(Add(s, id, d))
  {
    AddFaithful(s, id, d);
    AddOnTime(s, id, d);
    AddAccounted(s, id, d);
    AddOrdered(s, id, d);
  }

  lemma AddOrdered(s: State, id: nat, d: nat)
    requires Inv(s) && !IsQueued(s, id) && !HasFired(s, id)
    ensures Known(Add(s, id, d)) && Ordered(Add(s, id, d))
  {
    var ticket := Ticket(s.clock + d, s.inserts);
    forall i | 0 <= i < |s.queue.items|
      ensures s.queue.items[i].id != id
      ensures if i < Position(s.queue.items, d) then Before(s.tickets[s.queue.items[i].id], ticket)
              else Before(ticket, s.tickets[s.queue.items[i].id])
    {
      assert IsQueued(s, s.queue.items[i].id);
      PositionByDeadline(s, d, i);
    }
    forall i | 0 <= i < |s.fired|
      ensures s.fired[i].id != id
      ensures Before(s.tickets[s.fired[i].id], ticket)
    {
      assert HasFired(s, s.fired[i].id);
    }
    InsertOrdered(s, id, d, ticket);
  }

  lemma InsertOrdered(s: State, id: nat, d: nat, ticket: Ticket)
    requires Known(s) && Ordered(s) && ticket == Ticket(s.clock + d, s.inserts)
    requires forall i :: 0 <= i < |s.queue.items| ==>
               && s.queue.items[i].id != id
               && if i < Position(s.queue.items, d) then Before(s.tickets[s.queue.items[i].id], ticket)
                  else Before(ticket, s.tickets[s.queue.items[i].id])
    requires forall i :: 0 <= i < |s.fired| ==>
               s.fired[i].id != id && Before(s.tickets[s.fired[i].id], ticket)
    ensures Known(Add(s, id, d)) && Ordered(Add(s, id, d))
  {
    hide Before, Position, Enqueue;
    EnqueueItems(s.queue, id, d);
  }

  lemma FireMembers(s: State, x: nat)
    requires Known(s) && Ordered(s) && Enabled(s, Fire)
    ensures IsQueued(s, x) || HasFired(s, x) <==> IsQueued(Step(s, Fire), x) || HasFired(Step(s, Fire), x)
  {
    var t := Step(s, Fire);
    DropMembers(s, 0, x);
    assert IsQueued(s.(queue := Drop(s.queue, 0)), x) <==> IsQueued(t, x);
    assert t.fired[|s.fired|].id == s.queue.items[0].id;
    if HasFired(s, x) {
      var i :| 0 <= i < |s.fired| && s.fired[i].id == x;
      assert t.fired[i].id == x;
    }
  }

  lemma FireOrdered(s: State)
    requires Known(s) && Ordered(s) && Enabled(s, Fire)
    ensures Known(Step(s, Fire)) && Ordered(Step(s, Fire))
  {
    DropItems(s.queue, 0);
  }

  lemma FireFaithful(s: State)
    requires Known(s) && Faithful(s) && Enabled(s, Fire)
    ensures Known(Step(s, Fire)) && Faithful(Step(s, Fire))
  {
    DropItems(s.queue, 0);
  }

  lemma FireOnTime(s: State)
    requires Known(s) && Faithful(s) && OnTime(s) && Enabled(s, Fire)
    ensures Known(Step(s, Fire)) && OnTime(Step(s, Fire))
  {
    hide Drop;
    FireFaithful(s);
  }

  lemma FireAccounted(s: State)
    requires Known(s) && Ordered(s) && Accounted(s) && Enabled(s, Fire)
    ensures Accounted(Step(s, Fire))
  {
    hide Known, Ordered, IsQueued, HasFired, Before;
    forall x
      ensures IsQueued(s, x) || HasFired(s, x) <==> IsQueued(Step(s, Fire), x) || HasFired(Step(s, Fire), x)
    {
      FireMembers(s, x);
    }
  }

  lemma FireInv(s: State)
    requires Inv(s) && Enabled(s, Fire)
    ensures Inv(Step(s, Fire))
  {
    hide Known, Faithful, Ordered, OnTime, Accounted, Enabled;
    FireOrdered(s);
    FireFaithful(s);
    FireOnTime(s);
    FireAccounted(s);
  }

  lemma StepInv(s: State, ev: Event)
    requires Inv(s) && Enabled(s, ev)
    ensures Inv(Step(s, ev))
  {
    match ev
    case Schedule(id, delay, now) =>
      var t := Sync(s, now);
      SyncInv(s, now);
      AddInv(t, id, Waited(delay.Micros(), t.queue.horizon));
    case Update(id, delay, now) =>
      TakeOutInv(s, id);
      var t := Sync(TakeOut(s, id), now);
      SyncInv(TakeOut(s, id), now);
      AddInv(t, id, Waited(delay.Micros(), t.queue.horizon));
    case Remove(id) =>
      TakeOutInv(s, id);
    case Synchronize(now) =>
      SyncInv(s, now);
    case Fire =>
      FireInv(s);
  }

  lemma {:induction false} RunInv(s: State, evs: seq<Event>)
    requires Inv(s) && CanRun(s, evs)
    ensures Inv(Run(s, evs)) && Run(s, evs).span == s.span
    decreases |evs|
  {
    if evs != [] {
      StepInv(s, evs[0]);
      RunInv(Step(s, evs[0]), evs[1..]);
    }
  }

  // ---------- what each event does ----------

  /** The effect of every event on tickets, queue, firings and removals, task by task. */
  lemma StepExact(s: State, ev: Event)
    requires Inv(s) && Enabled(s, ev)
    ensures var t := Step(s, ev);
            match ev
            case Schedule(id, delay, _) =>
              && t.tickets == s.tickets[id := Ticket(t.clock + Waited(delay.Micros(), t.queue.horizon), s.inserts)]
              && (forall x :: IsQueued(t, x) <==> x == id || IsQueued(s, x))
              && t.fired == s.fired && t.removed == s.removed && t.inserts == s.inserts + 1
            case Update(id, delay, _) =>
              && t.tickets == s.tickets[id := Ticket(t.clock + Waited(delay.Micros(), t.queue.horizon), s.inserts)]
              && (forall x :: IsQueued(t, x) <==> x == id || IsQueued(s, x))
              && t.fired == s.fired && t.removed == s.removed - {id} && t.inserts == s.inserts + 1
            case Remove(id) =>
              && (forall x :: IsQueued(t, x) <==> x != id && IsQueued(s, x))
              && t == s.(queue := t.queue, removed := s.removed + {id})
            case Synchronize(now) =>
              && (forall x :: IsQueued(t, x) <==> IsQueued(s, x))
              && t == s.(queue := t.queue, clock := t.clock, lastSync := now)
            case Fire =>
              var f := s.queue.items[0].id;
              && (forall x :: IsQueued(t, x) <==> x != f && IsQueued(s, x))
              && (forall x :: IsQueued(t, x) ==> Before(s.tickets[f], s.tickets[x]))
              && t == s.(queue := t.queue, fired := s.fired + [Firing(f, s.clock)])
  {
    hide Before, Enqueue, Position, Lapse, Elapsed, Timeval.Micros, Waited, IsQueued, HasFired, IndexOf;
    match ev
    case Schedule(id, delay, now) => AddExact(s, Sync(s, now), id, delay, now);
    case Update(id, delay, now) =>
      TakeOutExact(s, id);
      TakeOutInv(s, id);
      AddExact(TakeOut(s, id), Sync(TakeOut(s, id), now), id, delay, now);
    case Remove(id) => TakeOutExact(s, id);
    case Synchronize(now) => SyncExact(s, now);
    case Fire => FireExact(s);
  }

  lemma SyncExact(s: State, now: Timeval)
    requires Readable(s, now)
    ensures forall x :: IsQueued(Sync(s, now), x) <==> IsQueued(s, x)
  {
    var t := Sync(s, now);
    assert forall i :: 0 <= i < |s.queue.items| ==> t.queue.items[i].id == s.queue.items[i].id;
  }

  lemma AddExact(s: State, t: State, id: nat, delay: Timeval, now: Timeval)
    requires Readable(s, now) && t == Sync(s, now) && delay.Normal()
    ensures delay.Micros() >= 0
    ensures var u := Add(t, id, Waited(delay.Micros(), t.queue.horizon));
            && u.queue.horizon == t.queue.horizon
            && forall x :: IsQueued(u, x) <==> x == id || IsQueued(s, x)
  {
    hide IsQueued, Lapse, Elapsed, Waited;
    SyncExact(s, now);
    NormalMicros(delay);
    forall x
      ensures IsQueued(Add(t, id, Waited(delay.Micros(), t.queue.horizon)), x) <==> x == id || IsQueued(t, x)
    {
      AddMembers(t, id, Waited(delay.Micros(), t.queue.horizon), x);
    }
  }

  lemma TakeOutExact(s: State, id: nat)
    requires Inv(s)
    ensures forall x :: IsQueued(TakeOut(s, id), x) <==> x != id && IsQueued(s, x)
  {
    hide Before;
    var k := IndexOf(s.queue.items, id);
    forall x
      ensures IsQueued(TakeOut(s, id), x) <==> x != id && IsQueued(s, x)
    {
      if k < |s.queue.items| {
        DropMembers(s, k, x);
        assert IsQueued(s.(queue := Drop(s.queue, k)), x) <==> IsQueued(TakeOut(s, id), x);
      }
    }
  }

  lemma FireExact(s: State)
    requires Inv(s) && Enabled(s, Fire)
    ensures var f := s.queue.items[0].id;
            forall x :: IsQueued(Step(s, Fire), x) ==> x in s.tickets && f in s.tickets && Before(s.tickets[f], s.tickets[x])
    ensures var f := s.queue.items[0].id;
            forall x :: IsQueued(Step(s, Fire), x) <==> x != f && IsQueued(s, x)
  {
    hide Before;
    var f, t := s.queue.items[0].id, Step(s, Fire);
    DropItems(s.queue, 0);
    forall x
      ensures IsQueued(t, x) <==> x != f && IsQueued(s, x)
    {
      DropMembers(s, 0, x);
      assert IsQueued(s.(queue := Drop(s.queue, 0)), x) <==> IsQueued(t, x);
    }
  }

  /** The tasks that a sequence of events schedules, and how often it fires. */
  function Scheduled(evs: seq<Event>): set<nat> {
    set ev | ev in evs && ev.Schedule? :: ev.id
  }

  function FireCount(evs: seq<Event>): nat {
    if evs == [] then 0 else (if evs[0].Fire? then 1 else 0) + FireCount(evs[1..])
  }

  lemma {:induction false} RunRecords(s: State, evs: seq<Event>)
    requires Inv(s) && CanRun(s, evs)
    ensures Run(s, evs).tickets.Keys == s.tickets.Keys + Scheduled(evs)
    ensures |Run(s, evs).fired| == |s.fired| + FireCount(evs)
    decreases |evs|
  {
    hide Inv, Step, Before, Waited, Timeval.Micros;
    if evs != [] {
      StepExact(s, evs[0]);
      StepInv(s, evs[0]);
      RunRecords(Step(s, evs[0]), evs[1..]);
      ScheduledFirst(evs);
      EnabledKnown(s, evs[0]);
    }
  }

  lemma EnabledKnown(s: State, ev: Event)
    requires Enabled(s, ev)
    ensures ev.Update? ==> ev.id in s.tickets
  {
  }

  lemma ScheduledFirst(evs: seq<Event>)
    requires evs != []
    ensures Scheduled(evs) == (if evs[0].Schedule? then {evs[0].id} else {}) + Scheduled(evs[1..])
  {
    assert evs == [evs[0]] + evs[1..];
  }

  // ---------- what holds of every run ----------

  /** The clock reading that an event makes, or the one before it. */
  function Reading(last: Timeval, ev: Event): Timeval {
    match ev
    case Schedule(_, _, now) => now
    case Update(_, _, now) => now
    case Synchronize(now) => now
    case _ => last
  }

  function LastReading(last: Timeval, evs: seq<Event>): Timeval
    decreases |evs|
  {
    if evs == [] then last else LastReading(Reading(last, evs[0]), evs[1..])
  }

  /** No reading goes back, and none comes 2^31 seconds or more after the one before. */
  ghost predicate Steady(last: Timeval, evs: seq<Event>)
    decreases |evs|
  {
    evs == [] || (ShortlyAfter(Reading(last, evs[0]), last) && Steady(Reading(last, evs[0]), evs[1..]))
  }

  lemma StepReading(s: State, ev: Event)
    requires Enabled(s, ev)
    ensures Step(s, ev).lastSync == Reading(s.lastSync, ev)
    ensures ShortlyAfter(Reading(s.lastSync, ev), s.lastSync) ==>
              Step(s, ev).clock == s.clock + (Reading(s.lastSync, ev).Micros() - s.lastSync.Micros())
  {
    hide Timeval.Micros, Elapsed, ShortlyAfter;
    match ev
    case Schedule(_, _, now) => ElapsedExact(now, s.lastSync);
    case Update(_, _, now) => ElapsedExact(now, s.lastSync);
    case Synchronize(now) => ElapsedExact(now, s.lastSync);
    case _ =>
  }

  /** The queue's clock is the time that has passed: the last reading made, less the first,
      to the microsecond. */
  lemma {:induction false} ClockIsTime(s: State, evs: seq<Event>)
    requires CanRun(s, evs)
    ensures Run(s, evs).lastSync == LastReading(s.lastSync, evs)
    ensures Steady(s.lastSync, evs) ==>
              Run(s, evs).clock == s.clock + (LastReading(s.lastSync, evs).Micros() - s.lastSync.Micros())
    decreases |evs|
  {
    hide Timeval.Micros, ShortlyAfter, Enabled, Step;
    if evs != [] {
      StepReading(s, evs[0]);
      ClockIsTime(Step(s, evs[0]), evs[1..]);
    }
  }

  /** In real time: with steady readings no task fires before the moment it was to wait
      for, counted from the first reading. */
  lemma FiresInTime(start: Timeval, evs: seq<Event>)
    requires CanRun(Init(start), evs) && Steady(start, evs)
    ensures var s := Run(Init(start), evs);
            Enabled(s, Fire) ==>
              var id := s.queue.items[0].id;
              id in s.tickets && start.Micros() + s.tickets[id].deadline <= LastReading(start, evs).Micros()
  {
    hide Timeval.Micros, Steady;
    InitInv(start);
    RunInv(Init(start), evs);
    ClockIsTime(Init(start), evs);
  }

  /** In every run no task fires twice, none fires before its deadline, and the
      tasks fire in order of deadline, those of equal deadline in order of
      insertion.  For the deadlines see `DeadlineAsAsked`. */
  lemma FiringDiscipline(start: Timeval, evs: seq<Event>)
    requires CanRun(Init(start), evs)
    ensures var s := Run(Init(start), evs);
            forall i :: 0 <= i < |s.fired| ==>
              && s.fired[i].id in s.tickets
              && s.tickets[s.fired[i].id].deadline <= s.fired[i].at <= s.clock
    ensures var s := Run(Init(start), evs);
            forall i, j :: 0 <= i < j < |s.fired| ==>
              && s.fired[i].id != s.fired[j].id
              && s.fired[i].at <= s.fired[j].at
              && Before(s.tickets[s.fired[i].id], s.tickets[s.fired[j].id])
  {
    InitInv(start);
    RunInv(Init(start), evs);
    var s := Run(Init(start), evs);
    forall i, j | 0 <= i < j < |s.fired|
      ensures s.fired[i].id != s.fired[j].id
    {
      assert Before(s.tickets[s.fired[i].id], s.tickets[s.fired[j].id]);
    }
  }

  function IdSet(ids: seq<nat>): set<nat> {
    set id | id in ids
  }

  lemma {:induction false} DistinctCount(ids: seq<nat>)
    requires forall i, j :: 0 <= i < j < |ids| ==> ids[i] != ids[j]
    ensures |IdSet(ids)| == |ids|
  {
    if ids != [] {
      var n := |ids| - 1;
      DistinctCount(ids[..n]);
      assert IdSet(ids) == IdSet(ids[..n]) + {ids[n]};
      assert ids[n] !in IdSet(ids[..n]);
    }
  }

  /** Every task that fired, in firing order, then every task still queued. */
  function Timeline(s: State): (ids: seq<nat>)
    ensures |ids| == |s.fired| + |s.queue.items|
    ensures forall i :: 0 <= i < |s.fired| ==> ids[i] == s.fired[i].id
    ensures forall i :: 0 <= i < |s.queue.items| ==> ids[|s.fired| + i] == s.queue.items[i].id
  {
    seq(|s.fired|, i requires 0 <= i < |s.fired| => s.fired[i].id) +
    seq(|s.queue.items|, i requires 0 <= i < |s.queue.items| => s.queue.items[i].id)
  }

  lemma TimelineDistinct(s: State, i: nat, j: nat)
    requires Known(s) && Ordered(s)
    requires i < j < |Timeline(s)|
    ensures Timeline(s)[i] != Timeline(s)[j]
  {
    var f := |s.fired|;
    if j < f {
      assert Before(s.tickets[s.fired[i].id], s.tickets[s.fired[j].id]);
    } else if i < f {
      assert Before(s.tickets[s.fired[i].id], s.tickets[s.queue.items[j - f].id]);
    } else {
      assert Before(s.tickets[s.queue.items[i - f].id], s.tickets[s.queue.items[j - f].id]);
    }
  }

  lemma TimelineMembers(s: State, id: nat)
    ensures id in Timeline(s) <==> IsQueued(s, id) || HasFired(s, id)
  {
    var ids, f := Timeline(s), |s.fired|;
    if id in ids {
      var i :| 0 <= i < |ids| && ids[i] == id;
      assert if i < f then s.fired[i].id == id else s.queue.items[i - f].id == id;
    }
  }

  lemma InvCounts(s: State)
    requires Inv(s)
    ensures |s.tickets| == |s.fired| + |s.queue.items| + |s.removed|
  {
    hide Timeline, Before, IsQueued, HasFired;
    var live := IdSet(Timeline(s));
    forall i, j | 0 <= i < j < |Timeline(s)|
      ensures Timeline(s)[i] != Timeline(s)[j]
    {
      TimelineDistinct(s, i, j);
    }
    forall id
      ensures id in Timeline(s) <==> IsQueued(s, id) || HasFired(s, id)
    {
      TimelineMembers(s, id);
    }
    DistinctCount(Timeline(s));
    assert s.tickets.Keys == live + s.removed;
    assert live !! s.removed;
  }

  /** In every run each task scheduled so far has either fired, or is queued, or
      was removed, and only one of these; and the sum of all deltas is what is
      left of the queue's horizon. */
  lemma TasksConserved(start: Timeval, evs: seq<Event>)
    requires CanRun(Init(start), evs)
    ensures var s := Run(Init(start), evs);
            && |s.tickets| == |s.fired| + |s.queue.items| + |s.removed|
            && (forall id :: id in s.tickets <==> IsQueued(s, id) || HasFired(s, id) || id in s.removed)
            && (forall id :: IsQueued(s, id) || HasFired(s, id) ==> id !in s.removed)
            && s.queue.horizon + s.clock == ETERNITY.Micros()
            && Valid(s.queue)
    ensures var s := Run(Init(start), evs);
            s.tickets.Keys == Scheduled(evs) && |s.fired| == FireCount(evs)
  {
    InitInv(start);
    RunInv(Init(start), evs);
    RunRecords(Init(start), evs);
    InvQueueValid(Run(Init(start), evs));
    InvCounts(Run(Init(start), evs));
  }

  /** The deadline of a task is the one asked for exactly when the delay is below what is
      left of the horizon at that moment. */
  lemma DeadlineAsAsked(start: Timeval, evs: seq<Event>, id: nat, delay: Timeval, now: Timeval)
    requires CanRun(Init(start), evs) && Enabled(Run(Init(start), evs), Schedule(id, delay, now))
    ensures var s := Run(Init(start), evs);
            var e := Elapsed(now, s.lastSync);
            var t := Step(s, Schedule(id, delay, now));
            t.tickets[id].deadline == s.clock + e + delay.Micros() <==> delay.Micros() < s.queue.horizon - e
  {
    InitInv(start);
    RunInv(Init(start), evs);
  }

  // ---------- the alarm loop as events ----------

  function Fires(n: nat): seq<Event> {
    if n == 0 then [] else [Fire] + Fires(n - 1)
  }

  /** The records that firing these tasks leaves. */
  function Records(items: seq<Item>, at: nat): (fs: seq<Firing>)
    ensures |fs| == |items|
    ensures forall i :: 0 <= i < |fs| ==> fs[i] == Firing(items[i].id, at)
  {
    seq(|items|, i requires 0 <= i < |items| => Firing(items[i].id, at))
  }

  lemma RunFirst(s: State, evs: seq<Event>)
    requires Enabled(s, Fire) && CanRun(Step(s, Fire), evs)
    ensures CanRun(s, [Fire] + evs)
    ensures Run(s, [Fire] + evs) == Run(Step(s, Fire), evs)
  {
    assert ([Fire] + evs)[1..] == evs;
  }

  /** The alarm loop is the event `Fire` repeated: in any state as many firings are
      possible in a row as tasks are due, and they leave the queue that
      `TaskQueue.Expire` gives. */
  lemma {:induction false} AlarmPass(s: State)
    ensures CanRun(s, Fires(|DueNow(s.queue)|))
    ensures Run(s, Fires(|DueNow(s.queue)|)).queue == Expire(s.queue)
    ensures Run(s, Fires(|DueNow(s.queue)|)).fired == s.fired + Records(DueNow(s.queue), s.clock)
    decreases |s.queue.items|
  {
    hide DueNow, Expire;
    if |s.queue.items| > 0 && s.queue.items[0].due == 0 {
      var t := Step(s, Fire);
      DueNowHead(s.queue);
      AlarmPass(t);
      RunFirst(s, Fires(|DueNow(t.queue)|));
      assert s.fired + Records(DueNow(s.queue), s.clock) == t.fired + Records(DueNow(t.queue), t.clock);
    } else {
      DueNowNone(s.queue);
      assert s.fired + Records([], s.clock) == s.fired;
    }
  }
}
