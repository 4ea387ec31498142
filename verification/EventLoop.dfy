/** The event loop around the delay queue: scheduling in microseconds, the timeout
    handed to `select`, and the order of one step. */
module EventLoop {
  import opened Timevals
  import opened TaskQueue
  import opened DelayQueues
  import TaskRuns
  import opened Arithmetic

  const TWO_TO_64: int := 0x1_0000_0000_0000_0000

  /** The conversion of an argument to the unsigned 64-bit parameter type. */
  function AsUnsigned(m: int): (r: nat)
    requires -TWO_TO_64 <= m < TWO_TO_64
    ensures r < TWO_TO_64 && (r - m) % TWO_TO_64 == 0
  {
    if m < 0 then m + TWO_TO_64 else m
  }

  /** The delay the header promises: none for a negative number. */
  function PromisedDelay(m: int): nat {
    if m < 0 then 0 else m
  }

  /** The delay is the promised one exactly for arguments that are not negative. */
  lemma DelayAsPromised(m: int)
    requires -TWO_TO_64 < m < TWO_TO_64
    ensures AsUnsigned(m) == PromisedDelay(m) <==> 0 <= m
  {
  }

  /** The split of a number of microseconds into a normalised interval. */
  method ToInterval(microseconds: nat) returns (t: Timeval)
    requires microseconds < TWO_TO_64
    ensures t.Normal() && t.Micros() == microseconds
  {
    t := Timeval((microseconds / 1_000_000) as long, (microseconds % 1_000_000) as long);
  }

  lemma {:induction false} LastSyncNormal(s: TaskRuns.State, evs: seq<TaskRuns.Event>)
    requires s.lastSync.Normal() && TaskRuns.CanRun(s, evs)
    ensures TaskRuns.Run(s, evs).lastSync.Normal()
    decreases |evs|
  {
    if evs != [] {
      LastSyncNormal(TaskRuns.Step(s, evs[0]), evs[1..]);
    }
  }

  /** Whatever has happened before, every delay that `ToInterval` can deliver is given the
      deadline asked for, until the queue's clock comes within 2^64 microseconds of
      `ETERNITY`. */
  lemma AlwaysSchedulable(start: Timeval, evs: seq<TaskRuns.Event>, id: nat, delay: Timeval, now: Timeval)
    requires start.Normal() && now.Normal() && TaskRuns.CanRun(TaskRuns.Init(start), evs)
    requires var s := TaskRuns.Run(TaskRuns.Init(start), evs);
             && id !in s.tickets
             && (s.lastSync.Normal() ==> s.clock + Elapsed(now, s.lastSync) + TWO_TO_64 <= ETERNITY.Micros())
    requires delay.Normal() && delay.Micros() < TWO_TO_64
    ensures var s, ev := TaskRuns.Run(TaskRuns.Init(start), evs), TaskRuns.Schedule(id, delay, now);
            && TaskRuns.Enabled(s, ev)
            && TaskRuns.Step(s, ev).tickets[id].deadline ==
               s.clock + Elapsed(now, s.lastSync) + delay.Micros()
  {
    LastSyncNormal(TaskRuns.Init(start), evs);
    TaskRuns.TasksConserved(start, evs);
    TaskRuns.DeadlineAsAsked(start, evs, id, delay, now);
  }

  method ScheduleDelayTask(queue: DelayQueue, microseconds: int, id: nat, now: Timeval) returns (entry: Entry)
    requires queue.Valid() && now.Normal()
    requires -TWO_TO_64 <= microseconds < TWO_TO_64
    requires Elapsed(now, queue.lastSync) < queue.View().horizon
    modifies queue, queue.ring
    ensures queue.Valid() && queue.lastSync == now && fresh(entry) && entry.id == id
    ensures queue.clock == old(queue.clock) + Elapsed(now, old(queue.lastSync))
    ensures queue.View() == Enqueue(Lapse(old(queue.View()), Elapsed(now, old(queue.lastSync))), id,
                                    Waited(AsUnsigned(microseconds),
                                           old(queue.View()).horizon - Elapsed(now, old(queue.lastSync))))
  {
    hide Timeval.Micros, Elapsed, AsUnsigned, Waited, Enqueue, Lapse, DelayQueue.Valid, DelayQueue.View;
    var timeToDelay := ToInterval(AsUnsigned(microseconds));
    entry := new Entry(id, timeToDelay);
    queue.AddEntry(entry, now);
  }

  /** The timeout handed to `select`: the time to the next alarm, its seconds cut
      down to a million.  It never reaches past the first task. */
  method SelectTimeout(queue: DelayQueue, now: Timeval) returns (tv: Timeval)
    requires queue.Valid() && now.Normal()
    requires Elapsed(now, queue.lastSync) < queue.View().horizon
    modifies queue, queue.ring`delta
    ensures queue.Valid() && queue.ring == old(queue.ring)
    ensures queue.View() ==
            if |old(queue.View()).items| > 0 && old(queue.View()).items[0].due == 0 then old(queue.View())
            else Lapse(old(queue.View()), Elapsed(now, old(queue.lastSync)))
    ensures queue.lastSync ==
            if |old(queue.View()).items| > 0 && old(queue.View()).items[0].due == 0 then old(queue.lastSync) else now
    ensures tv.Normal() && tv.sec <= MILLION
    ensures forall item :: item in queue.View().items ==> tv.Micros() <= item.due
    ensures IsTimeout(tv, ToFirst(queue.View()))
    ensures Lesser(1_000_000_000_000, ToFirst(queue.View())) <= tv.Micros() <= ToFirst(queue.View())
  {
    hide Elapsed, DelayQueue.Valid, DelayQueue.View, Lapse, Timeval.Micros, Timeval.Normal, IsTimeout, Lesser;
    var timeToDelay := queue.TimeToNextAlarm(now);
    tv := timeToDelay;
    if tv.sec > MILLION {
      tv := tv.(sec := MILLION);
    }
    CapShortens(timeToDelay, tv);
  }

  /** The time to the next alarm: the first task's, or the whole horizon. */
  function ToFirst(q: Queue): nat {
    if |q.items| > 0 then q.items[0].due else q.horizon
  }

  function Lesser(a: int, b: int): int {
    if a < b then a else b
  }

  /** The seconds of `t` microseconds, a million at most, and what is left of a second. */
  predicate IsTimeout(tv: Timeval, t: nat) {
    tv.sec as int == Lesser(t / 1_000_000, 1_000_000) && tv.usec as int == t % 1_000_000
  }

  lemma CapShortens(t: Timeval, tv: Timeval)
    requires t.Normal()
    requires tv == if t.sec > MILLION then t.(sec := MILLION) else t
    ensures tv.Normal() && tv.sec <= MILLION
    ensures 0 <= t.Micros() && IsTimeout(tv, t.Micros())
    ensures Lesser(1_000_000_000_000, t.Micros()) <= tv.Micros() <= t.Micros()
  {
    DivModUnique(t.Micros(), 1_000_000, t.sec as int, t.usec as int);
    TimeoutIsLong(tv, t.Micros());
  }

  /** `select` never wakes much too early either: a timeout is the whole time to the next
      alarm, or at least a million seconds. */
  lemma TimeoutIsLong(tv: Timeval, t: nat)
    requires IsTimeout(tv, t)
    ensures Lesser(1_000_000_000_000, t) <= tv.Micros() <= t
    ensures t < 1_000_001_000_000 ==> tv.Micros() == t
  {
  }

  /** One step of the loop, without the descriptors: `before` is the clock when the
      timeout is computed and `after` the clock once `select` has returned. */
  method SingleStep(queue: DelayQueue, before: Timeval, after: Timeval) returns (tv: Timeval, fired: seq<nat>)
    requires queue.Valid() && queue.span <= ETERNITY.Micros() && before.Normal() && after.Normal()
    requires Elapsed(before, queue.lastSync) < queue.View().horizon
    requires Elapsed(after, before) < queue.View().horizon - Elapsed(before, queue.lastSync)
    requires Elapsed(after, queue.lastSync) < queue.View().horizon
    modifies queue, queue.ring
    ensures queue.Valid() && tv.Normal() && tv.sec <= MILLION
    ensures var q := old(queue.View());
            var overdue := |q.items| > 0 && q.items[0].due == 0;
            var asked := if overdue then q else Lapse(q, Elapsed(before, old(queue.lastSync)));
            var woken := if |asked.items| > 0 && asked.items[0].due == 0 then asked
                         else Lapse(asked, Elapsed(after, before));
            && (forall item :: item in asked.items ==> tv.Micros() <= item.due)
            && IsTimeout(tv, ToFirst(asked))
            && Lesser(1_000_000_000_000, ToFirst(asked)) <= tv.Micros() <= ToFirst(asked)
            && queue.View() == Expire(woken)
            && |fired| == |DueNow(woken)|
            && (forall i :: 0 <= i < |fired| ==> fired[i] == DueNow(woken)[i].id)
  {
    hide Elapsed, DelayQueue.Valid, DelayQueue.View, Timeval.Micros, Timeval.Normal, Expire, DueNow, ToFirst;
    hide IsTimeout, Lesser;
    tv := SelectTimeout(queue, before);
    fired := queue.HandleAlarm(after);
  }

  // ---------- a step with handlers, triggers and callbacks ----------

  predicate HeadDue(q: Queue) {
    |q.items| > 0 && q.items[0].due == 0
  }

  /** The look at the first task that begins `TimeToNextAlarm` and `HandleAlarm`: the
      queue is synchronised unless a task is known to be due. */
  ghost predicate CanPoll(s: TaskRuns.State, now: Timeval) {
    HeadDue(s.queue) || TaskRuns.Readable(s, now)
  }

  ghost function Poll(s: TaskRuns.State, now: Timeval): TaskRuns.State
    requires CanPoll(s, now)
  {
    if HeadDue(s.queue) then s else TaskRuns.Sync(s, now)
  }

  lemma PollInv(s: TaskRuns.State, now: Timeval)
    requires TaskRuns.Inv(s) && CanPoll(s, now)
    ensures TaskRuns.Inv(Poll(s, now))
  {
    if !HeadDue(s.queue) {
      TaskRuns.SyncInv(s, now);
    }
  }

  /** One step in which anything may happen to the queue: `mid` is what handlers and
      triggers do between `select` and the alarms, `late` the firings with what their
      callbacks do.  When the alarm loop has ended, every task ever scheduled whose
      deadline the queue's clock has reached has fired or was removed, tasks of the
      handlers and callbacks included, and every queued task is still ahead. */
  lemma StepServesAll(start: Timeval, evs: seq<TaskRuns.Event>, before: Timeval, mid: seq<TaskRuns.Event>,
                      after: Timeval, late: seq<TaskRuns.Event>)
    requires TaskRuns.CanRun(TaskRuns.Init(start), evs)
    requires var s := TaskRuns.Run(TaskRuns.Init(start), evs);
             CanPoll(s, before) && TaskRuns.CanRun(Poll(s, before), mid) &&
             var m := TaskRuns.Run(Poll(s, before), mid);
             CanPoll(m, after) && TaskRuns.CanRun(Poll(m, after), late)
    ensures var m := TaskRuns.Run(Poll(TaskRuns.Run(TaskRuns.Init(start), evs), before), mid);
            var u := TaskRuns.Run(Poll(m, after), late);
            !HeadDue(u.queue) ==>
            && (forall id :: id in u.tickets && u.tickets[id].deadline <= u.clock ==>
                  TaskRuns.HasFired(u, id) || id in u.removed)
            && (forall id :: TaskRuns.IsQueued(u, id) ==> id in u.tickets && u.clock < u.tickets[id].deadline)
  {
    hide TaskRuns.Inv;
    var s := TaskRuns.Run(TaskRuns.Init(start), evs);
    TaskRuns.InitInv(start);
    TaskRuns.RunInv(TaskRuns.Init(start), evs);
    PollInv(s, before);
    TaskRuns.RunInv(Poll(s, before), mid);
    var m := TaskRuns.Run(Poll(s, before), mid);
    PollInv(m, after);
    TaskRuns.RunInv(Poll(m, after), late);
    if !HeadDue(TaskRuns.Run(Poll(m, after), late).queue) {
      LoopEnd(TaskRuns.Run(Poll(m, after), late));
    }
  }

  lemma LoopEnd(u: TaskRuns.State)
    requires TaskRuns.Inv(u) && !HeadDue(u.queue)
    ensures forall id :: id in u.tickets && u.tickets[id].deadline <= u.clock ==>
              TaskRuns.HasFired(u, id) || id in u.removed
    ensures forall id :: TaskRuns.IsQueued(u, id) ==> id in u.tickets && u.clock < u.tickets[id].deadline
  {
    TaskRuns.InvQueueValid(u);
    forall i | 0 <= i < |u.queue.items|
      ensures u.queue.items[i].id in u.tickets && u.clock < u.tickets[u.queue.items[i].id].deadline
    {
      assert u.queue.items[0].due <= u.queue.items[i].due;
    }
  }

  /** A task whose waiting time is over when `select` returns does fire in the same
      step: the whole prefix of due tasks is taken out, the first one included. */
  lemma SleptTaskFires(q: Queue, e: nat)
    requires TaskQueue.Valid(q) && e < q.horizon && |q.items| > 0 && q.items[0].due <= e
    ensures |DueNow(Lapse(q, e))| > 0
    ensures DueNow(Lapse(q, e))[0].id == q.items[0].id
    ensures forall i :: 0 <= i < |q.items| ==>
              (q.items[i].due <= e <==> i < |DueNow(Lapse(q, e))|)
  {
    LapseValid(q, e);
    var k := Position(Lapse(q, e).items, 0);
    forall i | 0 <= i < |q.items|
      ensures q.items[i].due <= e <==> i < k
    {
      if i < k {
        assert Lapse(q, e).items[i].due <= 0;
      } else {
        assert Lapse(q, e).items[k].due <= Lapse(q, e).items[i].due;
      }
    }
  }
}
