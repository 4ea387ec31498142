/** The worker pool: threads that take jobs off a queue guarded by a mutex and a
    condition variable, with one signal per push and shutdown by poison jobs.  Each
    event is one critical section, or one signal, or one end of a job. */
module WorkerPool {

  /** `Poison` is the job whose execution ends its thread; a null pointer in the queue
      ends it as well. */
  datatype Job = Work(id: nat) | Poison | Null

  predicate Ends(j: Job) {
    j.Poison? || j.Null?
  }

  /** `Seeking` threads are about to look at the queue; `Waiting` ones sleep on the
      condition variable. */
  datatype Worker = Seeking | Waiting | Running(index: nat) | Exited

  /** `pushed` is the history of all pushes, `taken` how many of them were popped, and
      `finished` the positions of the jobs that ran to their end. */
  datatype State = State(
    workers: seq<Worker>,
    queue: seq<Job>,
    owed: nat,
    pushed: seq<Job>,
    taken: nat,
    started: seq<nat>,
    finished: seq<nat>)

  datatype Event =
    | Push(job: Job)        // a critical section of `PushJob`
    | SignalNone            // its signal, when nobody is waiting
    | SignalOne(w: nat)     // its signal, received by a waiting thread
    | Spurious(w: nat)      // a wakeup nobody asked for
    | Sleep(w: nat)         // the queue is seen empty
    | Take(w: nat)          // the front of the queue is popped
    | Finish(w: nat)        // a job returns
    | Exit(w: nat)          // a poison job ends the thread

  ghost predicate AnyWaiting(s: State) {
    exists w :: 0 <= w < |s.workers| && s.workers[w] == Waiting
  }

  ghost predicate Enabled(s: State, ev: Event) {
    match ev
    case Push(_) => true
    case SignalNone => s.owed > 0 && !AnyWaiting(s)
    case SignalOne(w) => s.owed > 0 && w < |s.workers| && s.workers[w] == Waiting
    case Spurious(w) => w < |s.workers| && s.workers[w] == Waiting
    case Sleep(w) => w < |s.workers| && s.workers[w] == Seeking && s.queue == []
    case Take(w) => w < |s.workers| && s.workers[w] == Seeking && s.queue != []
    case Finish(w) =>
      w < |s.workers| && s.workers[w].Running? && s.workers[w].index < |s.pushed| && !Ends(s.pushed[s.workers[w].index])
    case Exit(w) =>
      w < |s.workers| && s.workers[w].Running? && s.workers[w].index < |s.pushed| && Ends(s.pushed[s.workers[w].index])
  }

  function Step(s: State, ev: Event): State
    requires Enabled(s, ev)
  {
    match ev
    case Push(job) => s.(queue := s.queue + [job], pushed := s.pushed + [job], owed := s.owed + 1)
    case SignalNone => s.(owed := s.owed - 1)
    case SignalOne(w) => s.(owed := s.owed - 1, workers := s.workers[w := Seeking])
    case Spurious(w) => s.(workers := s.workers[w := Seeking])
    case Sleep(w) => s.(workers := s.workers[w := Waiting])
    case Take(w) =>
      s.(queue := s.queue[1..], workers := s.workers[w := Running(s.taken)],
         taken := s.taken + 1, started := s.started + [s.taken])
    case Finish(w) => s.(workers := s.workers[w := Seeking], finished := s.finished + [s.workers[w].index])
    case Exit(w) => s.(workers := s.workers[w := Exited], finished := s.finished + [s.workers[w].index])
  }

  function Init(n: nat): State {
    State(seq(n, _ => Seeking), [], 0, [], 0, [], [])
  }

  // ---------- counting workers and jobs ----------

  function Count(ws: seq<Worker>, x: Worker): nat {
    if ws == [] then 0 else Count(ws[..|ws| - 1], x) + (if ws[|ws| - 1] == x then 1 else 0)
  }

  lemma {:induction false} CountUpdate(ws: seq<Worker>, w: nat, x: Worker, y: Worker)
    requires w < |ws|
    ensures Count(ws[w := x], y) ==
            Count(ws, y) - (if ws[w] == y then 1 else 0) + (if x == y then 1 else 0)
    ensures ws[w] == y ==> Count(ws, y) > 0
  {
    var n := |ws| - 1;
    if w < n {
      CountUpdate(ws[..n], w, x, y);
      assert ws[w := x][..n] == ws[..n][w := x];
    } else {
      assert ws[w := x][..n] == ws[..n];
    }
  }

  lemma {:induction false} CountAll(ws: seq<Worker>, x: Worker)
    ensures Count(ws, x) <= |ws|
    ensures Count(ws, x) == |ws| <==> forall w :: 0 <= w < |ws| ==> ws[w] == x
    ensures Count(ws, x) == 0 <==> forall w :: 0 <= w < |ws| ==> ws[w] != x
  {
    if ws != [] {
      CountAll(ws[..|ws| - 1], x);
    }
  }

  /** The number of jobs among the first `n` pushed that end a thread. */
  function Endings(jobs: seq<Job>, n: nat): nat
    requires n <= |jobs|
  {
    if n == 0 then 0 else Endings(jobs, n - 1) + (if Ends(jobs[n - 1]) then 1 else 0)
  }

  lemma {:induction false} EndingsPrefix(jobs: seq<Job>, more: seq<Job>, n: nat)
    requires n <= |jobs|
    ensures Endings(jobs + more, n) == Endings(jobs, n)
  {
    if n > 0 {
      EndingsPrefix(jobs, more, n - 1);
    }
  }

  lemma {:induction false} EndingsMonotone(jobs: seq<Job>, m: nat, n: nat)
    requires m <= n <= |jobs|
    ensures Endings(jobs, m) <= Endings(jobs, n) <= Endings(jobs, m) + (n - m)
  {
    if m < n {
      EndingsMonotone(jobs, m, n - 1);
    }
  }

  // ---------- what every step keeps ----------

  /** The queue is what was pushed and not taken yet, in order; jobs are started in
      the order they were pushed. */
  ghost predicate Fifo(s: State) {
    && s.taken <= |s.pushed|
    && s.queue == s.pushed[s.taken..]
    && |s.started| == s.taken
    && forall i :: 0 <= i < s.taken ==> s.started[i] == i
  }

  ghost predicate IsRunning(s: State, i: nat) {
    exists w :: 0 <= w < |s.workers| && s.workers[w] == Running(i)
  }

  /** Every job taken is either with exactly one worker or finished exactly once. */
  ghost predicate Executed(s: State) {
    && (forall w :: 0 <= w < |s.workers| && s.workers[w].Running? ==> s.workers[w].index < s.taken)
    && (forall v, w :: 0 <= v < w < |s.workers| && s.workers[v].Running? && s.workers[w].Running? ==>
          s.workers[v].index != s.workers[w].index)
    && (forall i, j :: 0 <= i < j < |s.finished| ==> s.finished[i] != s.finished[j])
    && (forall i :: 0 <= i < |s.finished| ==> s.finished[i] < s.taken && !IsRunning(s, s.finished[i]))
    && (forall i :: 0 <= i < s.taken ==> IsRunning(s, i) || i in s.finished)
  }

  /** Each thread that ended took one ending job off the queue: the ended threads and
      the ending jobs being run are the ending jobs taken. */
  ghost predicate EndingsBalance(s: State)
    requires s.taken <= |s.pushed|
  {
    Count(s.workers, Exited) + EndingRuns(s.workers, s.pushed) == Endings(s.pushed, s.taken)
  }

  /** The number of workers that are running an ending job. */
  function EndingRuns(ws: seq<Worker>, jobs: seq<Job>): nat {
    if ws == [] then 0
    else EndingRuns(ws[..|ws| - 1], jobs) + (if EndingRun(ws[|ws| - 1], jobs) then 1 else 0)
  }

  predicate EndingRun(w: Worker, jobs: seq<Job>) {
    w.Running? && w.index < |jobs| && Ends(jobs[w.index])
  }

  lemma {:induction false} EndingRunsUpdate(ws: seq<Worker>, w: nat, x: Worker, jobs: seq<Job>)
    requires w < |ws|
    ensures EndingRuns(ws[w := x], jobs) == EndingRuns(ws, jobs)
            - (if EndingRun(ws[w], jobs) then 1 else 0) + (if EndingRun(x, jobs) then 1 else 0)
    ensures EndingRun(ws[w], jobs) ==> EndingRuns(ws, jobs) > 0
  {
    var n := |ws| - 1;
    if w < n {
      EndingRunsUpdate(ws[..n], w, x, jobs);
      assert ws[w := x][..n] == ws[..n][w := x];
    } else {
      assert ws[w := x][..n] == ws[..n];
    }
  }

  lemma {:induction false} EndingRunsPush(ws: seq<Worker>, jobs: seq<Job>, job: Job)
    requires forall w :: 0 <= w < |ws| && ws[w].Running? ==> ws[w].index < |jobs|
    ensures EndingRuns(ws, jobs + [job]) == EndingRuns(ws, jobs)
  {
    if ws != [] {
      EndingRunsPush(ws[..|ws| - 1], jobs, job);
    }
  }

  lemma {:induction false} EndingRunsZero(ws: seq<Worker>, jobs: seq<Job>)
    requires forall w :: 0 <= w < |ws| ==> !ws[w].Running?
    ensures EndingRuns(ws, jobs) == 0
  {
    if ws != [] {
      EndingRunsZero(ws[..|ws| - 1], jobs);
    }
  }

  /** No wakeup is lost: while a thread waits, every queued job has an awake thread on
      its way to the queue or a signal still to come. */
  ghost predicate NoLostWakeup(s: State) {
    AnyWaiting(s) ==> |s.queue| <= Count(s.workers, Seeking) + s.owed
  }

  /** As many ending jobs as threads: the last one taken is the last job taken. */
  ghost predicate StopsAtLast(s: State)
    requires s.taken <= |s.pushed|
  {
    Endings(s.pushed, s.taken) == |s.workers| && s.taken > 0 ==> Ends(s.pushed[s.taken - 1])
  }

  ghost predicate Inv(s: State) {
    Fifo(s) && Executed(s) && EndingsBalance(s) && StopsAtLast(s) && NoLostWakeup(s)
  }

  lemma {:induction false} InitCounts(n: nat)
    ensures Count(Init(n).workers, Exited) == 0
    ensures EndingRuns(Init(n).workers, []) == 0
  {
    CountAll(Init(n).workers, Exited);
    EndingRunsZero(Init(n).workers, []);
  }

  lemma InitInv(n: nat)
    ensures Inv(Init(n))
  {
    InitCounts(n);
  }

  lemma StepWakeup(s: State, ev: Event)
    requires Fifo(s) && NoLostWakeup(s) && Enabled(s, ev)
    ensures NoLostWakeup(Step(s, ev))
  {
    var t := Step(s, ev);
    match ev
    case Push(_) =>
    case SignalNone =>
    case SignalOne(w) =>
      CountUpdate(s.workers, w, Seeking, Seeking);
    case Spurious(w) =>
      CountUpdate(s.workers, w, Seeking, Seeking);
    case Sleep(w) =>
    case Take(w) =>
      CountUpdate(s.workers, w, Running(s.taken), Seeking);
      StillWaiting(s, t, w);
    case Finish(w) =>
      CountUpdate(s.workers, w, Seeking, Seeking);
      StillWaiting(s, t, w);
    case Exit(w) =>
      CountUpdate(s.workers, w, Exited, Seeking);
      StillWaiting(s, t, w);
  }

  lemma StillWaiting(s: State, t: State, w: nat)
    requires w < |s.workers| && |t.workers| == |s.workers| && t.workers == s.workers[w := t.workers[w]]
    requires t.workers[w] != Waiting
    ensures AnyWaiting(t) ==> AnyWaiting(s)
  {
    if AnyWaiting(t) {
      var v :| 0 <= v < |t.workers| && t.workers[v] == Waiting;
      assert s.workers[v] == Waiting;
    }
  }

  lemma PushBalance(s: State, job: Job)
    requires Fifo(s) && Executed(s) && EndingsBalance(s)
    ensures EndingsBalance(Step(s, Push(job)))
  {
    hide Count, EndingRuns, Endings, Ends;
    EndingsPrefix(s.pushed, [job], s.taken);
    EndingRunsPush(s.workers, s.pushed, job);
  }

  /** A worker changes from one state to another. */
  lemma WorkerBalance(s: State, w: nat, x: Worker)
    requires w < |s.workers|
    ensures var ws := s.workers[w := x];
            Count(ws, Exited) + EndingRuns(ws, s.pushed) ==
            Count(s.workers, Exited) + EndingRuns(s.workers, s.pushed)
            - (if s.workers[w] == Exited || EndingRun(s.workers[w], s.pushed) then 1 else 0)
            + (if x == Exited || EndingRun(x, s.pushed) then 1 else 0)
  {
    hide Count, EndingRuns;
    CountUpdate(s.workers, w, x, Exited);
    EndingRunsUpdate(s.workers, w, x, s.pushed);
  }

  lemma EndingsNext(jobs: seq<Job>, n: nat)
    requires n < |jobs|
    ensures Endings(jobs, n + 1) == Endings(jobs, n) + (if Ends(jobs[n]) then 1 else 0)
  {
  }

  lemma StepBalance(s: State, ev: Event)
    requires Fifo(s) && Executed(s) && EndingsBalance(s) && Enabled(s, ev)
    ensures Step(s, ev).taken <= |Step(s, ev).pushed| && EndingsBalance(Step(s, ev))
  {
    hide Count, EndingRuns, Endings, Ends, Executed;
    match ev
    case Push(job) => PushBalance(s, job);
    case SignalNone =>
    case SignalOne(w) => WorkerBalance(s, w, Seeking);
    case Spurious(w) => WorkerBalance(s, w, Seeking);
    case Sleep(w) => WorkerBalance(s, w, Waiting);
    case Take(w) =>
      WorkerBalance(s, w, Running(s.taken));
      EndingsNext(s.pushed, s.taken);
    case Finish(w) => WorkerBalance(s, w, Seeking);
    case Exit(w) => WorkerBalance(s, w, Exited);
  }

  /** A worker that changes between states other than `Running` runs nothing new. */
  lemma RunningSame(s: State, t: State, w: nat, i: nat)
    requires w < |s.workers| && |t.workers| == |s.workers| && t.workers == s.workers[w := t.workers[w]]
    requires s.workers[w] != Running(i) && t.workers[w] != Running(i)
    ensures IsRunning(t, i) <==> IsRunning(s, i)
  {
    if IsRunning(s, i) {
      var v :| 0 <= v < |s.workers| && s.workers[v] == Running(i);
      assert t.workers[v] == Running(i);
    }
    if IsRunning(t, i) {
      var v :| 0 <= v < |t.workers| && t.workers[v] == Running(i);
      assert s.workers[v] == Running(i);
    }
  }

  lemma TakeExecuted(s: State, w: nat)
    requires Fifo(s) && Executed(s) && Enabled(s, Take(w))
    ensures Executed(Step(s, Take(w)))
  {
    var t := Step(s, Take(w));
    assert t.workers[w] == Running(s.taken);
    assert IsRunning(t, s.taken);
    forall i | 0 <= i < s.taken
      ensures IsRunning(t, i) <==> IsRunning(s, i)
    {
      RunningSame(s, t, w, i);
    }
  }

  /** A job that ends goes from the running ones to the finished ones. */
  lemma EndExecuted(s: State, ev: Event, w: nat)
    requires Executed(s) && Enabled(s, ev) && (ev == Finish(w) || ev == Exit(w))
    ensures Executed(Step(s, ev))
  {
    var t, k := Step(s, ev), s.workers[w].index;
    assert s.workers[w] == Running(k);
    assert IsRunning(s, k);
    assert !IsRunning(t, k);
    forall i: nat | i != k
      ensures IsRunning(t, i) <==> IsRunning(s, i)
    {
      RunningSame(s, t, w, i);
    }
    assert t.finished[|s.finished|] == k;
  }

  lemma QuietExecuted(s: State, t: State, w: nat)
    requires Executed(s)
    requires w < |s.workers| && t == s.(workers := t.workers, owed := t.owed)
    requires |t.workers| == |s.workers| && t.workers == s.workers[w := t.workers[w]]
    requires !s.workers[w].Running? && !t.workers[w].Running?
    ensures Executed(t)
  {
    forall i: nat
      ensures IsRunning(t, i) <==> IsRunning(s, i)
    {
      RunningSame(s, t, w, i);
    }
  }

  lemma StepExecuted(s: State, ev: Event)
    requires Fifo(s) && Executed(s) && Enabled(s, ev)
    ensures Executed(Step(s, ev))
  {
    var t := Step(s, ev);
    match ev
    case Push(_) =>
      assert forall i: nat :: IsRunning(t, i) <==> IsRunning(s, i);
    case SignalNone =>
      assert forall i: nat :: IsRunning(t, i) <==> IsRunning(s, i);
    case SignalOne(w) => QuietExecuted(s, t, w);
    case Spurious(w) => QuietExecuted(s, t, w);
    case Sleep(w) => QuietExecuted(s, t, w);
    case Take(w) => TakeExecuted(s, w);
    case Finish(w) => EndExecuted(s, ev, w);
    case Exit(w) => EndExecuted(s, ev, w);
  }

  lemma {:induction false} EndedOrEnding(ws: seq<Worker>, jobs: seq<Job>)
    ensures Count(ws, Exited) + EndingRuns(ws, jobs) <= |ws|
    ensures Count(ws, Exited) + EndingRuns(ws, jobs) == |ws| ==>
              forall w :: 0 <= w < |ws| ==> ws[w] == Exited || EndingRun(ws[w], jobs)
  {
    if ws != [] {
      EndedOrEnding(ws[..|ws| - 1], jobs);
    }
  }

  lemma StepStops(s: State, ev: Event)
    requires Fifo(s) && EndingsBalance(s) && StopsAtLast(s) && Enabled(s, ev)
    ensures Step(s, ev).taken <= |Step(s, ev).pushed| && StopsAtLast(Step(s, ev))
  {
    match ev
    case Push(job) =>
      EndingsPrefix(s.pushed, [job], s.taken);
    case Take(w) =>
      EndedOrEnding(s.workers, s.pushed);
      assert Endings(s.pushed, s.taken) < |s.workers|;
    case _ =>
  }

  lemma StepInv(s: State, ev: Event)
    requires Inv(s) && Enabled(s, ev)
    ensures Inv(Step(s, ev)) && |Step(s, ev).workers| == |s.workers|
  {
    hide Executed, EndingsBalance, NoLostWakeup, StopsAtLast;
    StepStops(s, ev);
    StepExecuted(s, ev);
    StepBalance(s, ev);
    StepWakeup(s, ev);
  }

  ghost predicate CanRun(s: State, evs: seq<Event>)
    decreases |evs|
  {
    evs == [] || (Enabled(s, evs[0]) && CanRun(Step(s, evs[0]), evs[1..]))
  }

  ghost function Run(s: State, evs: seq<Event>): State
    requires CanRun(s, evs)
    decreases |evs|
  {
    if evs == [] then s else Run(Step(s, evs[0]), evs[1..])
  }

  lemma {:induction false} RunInv(s: State, evs: seq<Event>)
    requires Inv(s) && CanRun(s, evs)
    ensures Inv(Run(s, evs)) && |Run(s, evs).workers| == |s.workers|
    decreases |evs|
  {
    hide Inv, Enabled;
    if evs != [] {
      StepInv(s, evs[0]);
      RunInv(Step(s, evs[0]), evs[1..]);
    }
  }

  // ---------- the history is what happened ----------

  /** The jobs that a sequence of events pushes, in order. */
  function Jobs(evs: seq<Event>): seq<Job> {
    if evs == [] then [] else (if evs[0].Push? then [evs[0].job] else []) + Jobs(evs[1..])
  }

  /** The signals of pushes that were sent, whether a thread received them or not. */
  function Signals(evs: seq<Event>): nat {
    if evs == [] then 0 else (if evs[0].SignalNone? || evs[0].SignalOne? then 1 else 0) + Signals(evs[1..])
  }

  /** The threads that took a job, and the jobs that came to an end, in order. */
  function Takers(evs: seq<Event>): seq<nat> {
    if evs == [] then [] else (if evs[0].Take? then [evs[0].w] else []) + Takers(evs[1..])
  }

  function Endpoints(evs: seq<Event>): nat {
    if evs == [] then 0 else (if evs[0].Finish? || evs[0].Exit? then 1 else 0) + Endpoints(evs[1..])
  }

  lemma HistoryNext(s: State, ev: Event)
    requires Fifo(s) && Enabled(s, ev)
    ensures var t := Step(s, ev);
            && t.pushed == s.pushed + (if ev.Push? then [ev.job] else [])
            && t.owed == s.owed + (if ev.Push? then 1 else 0) - (if ev.SignalNone? || ev.SignalOne? then 1 else 0)
            && t.taken == s.taken + (if ev.Take? then 1 else 0)
            && |t.finished| == |s.finished| + (if ev.Finish? || ev.Exit? then 1 else 0)
            && (ev.Take? ==> t.workers[ev.w] == Running(s.taken) && s.taken < |s.pushed| && s.queue[0] == s.pushed[s.taken])
            && (ev.Finish? || ev.Exit? ==> t.finished == s.finished + [s.workers[ev.w].index])
  {
  }

  /** What a state records is what the events of its run did: the jobs pushed are those of
      the pushes, in order; every push has its signal sent or still to come; as many jobs
      were taken and ended as events say. */
  lemma {:induction false} RunHistory(s: State, evs: seq<Event>)
    requires Inv(s) && CanRun(s, evs)
    ensures var t := Run(s, evs);
            && t.pushed == s.pushed + Jobs(evs)
            && t.owed + Signals(evs) == s.owed + |Jobs(evs)|
            && t.taken == s.taken + |Takers(evs)|
            && |t.finished| == |s.finished| + Endpoints(evs)
    decreases |evs|
  {
    hide Enabled, Step, Executed, EndingsBalance, StopsAtLast, NoLostWakeup;
    if evs != [] {
      StepInv(s, evs[0]);
      HistoryNext(s, evs[0]);
      RunHistory(Step(s, evs[0]), evs[1..]);
      var more: seq<Job> := if evs[0].Push? then [evs[0].job] else [];
      assert (s.pushed + more) + Jobs(evs[1..]) == s.pushed + (more + Jobs(evs[1..]));
    }
  }

  lemma FromStart(n: nat, evs: seq<Event>)
    requires CanRun(Init(n), evs)
    ensures var t := Run(Init(n), evs);
            && t.pushed == Jobs(evs) && t.owed + Signals(evs) == |Jobs(evs)|
            && t.taken == |Takers(evs)| && |t.finished| == Endpoints(evs)
  {
    hide Inv, Enabled, Step, Init, CanRun, Run, Jobs, Signals, Takers, Endpoints;
    InitInv(n);
    InitHistory(n);
    RunHistory(Init(n), evs);
    assert [] + Jobs(evs) == Jobs(evs);
  }

  lemma InitHistory(n: nat)
    ensures var s := Init(n); s.pushed == [] && s.owed == 0 && s.taken == 0 && s.finished == []
  {
  }

  // ---------- what holds of every run ----------

  /** Nothing can happen any more, unless a job is pushed or a wakeup comes unasked. */
  ghost predicate Quiet(s: State) {
    forall ev :: Enabled(s, ev) ==> ev.Push? || ev.Spurious?
  }

  /** In every run, while a thread waits, each queued job has an awake thread or a
      signal coming. */
  lemma WakeupsNotLost(n: nat, evs: seq<Event>)
    requires CanRun(Init(n), evs)
    ensures var s := Run(Init(n), evs);
            && s.owed == |Jobs(evs)| - Signals(evs)
            && (AnyWaiting(s) ==> |s.queue| <= Count(s.workers, Seeking) + s.owed)
  {
    InitInv(n);
    RunInv(Init(n), evs);
    FromStart(n, evs);
  }

  lemma QuietWorkers(s: State)
    requires Inv(s) && Quiet(s)
    ensures forall w :: 0 <= w < |s.workers| ==> !s.workers[w].Running?
    ensures s.queue != [] ==> forall w :: 0 <= w < |s.workers| ==> s.workers[w] == Exited
  {
    forall w | 0 <= w < |s.workers|
      ensures !s.workers[w].Running?
      ensures s.queue != [] ==> s.workers[w] != Seeking
    {
      assert !Enabled(s, Take(w));
      assert !Enabled(s, Finish(w)) && !Enabled(s, Exit(w));
    }
    if AnyWaiting(s) {
      var w :| 0 <= w < |s.workers| && s.workers[w] == Waiting;
      assert !Enabled(s, SignalOne(w));
      CountAll(s.workers, Seeking);
    }
    forall w | 0 <= w < |s.workers| && s.queue != []
      ensures s.workers[w] == Exited
    {
      assert s.workers[w] == Waiting ==> AnyWaiting(s);
    }
  }

  /** The pool never gets stuck: where nothing can happen any more, the queue is empty
      or every thread has ended. */
  lemma NeverStuck(n: nat, evs: seq<Event>)
    requires CanRun(Init(n), evs) && Quiet(Run(Init(n), evs))
    ensures var s := Run(Init(n), evs);
            s.queue == [] || forall w :: 0 <= w < |s.workers| ==> s.workers[w] == Exited
  {
    InitInv(n);
    RunInv(Init(n), evs);
    QuietWorkers(Run(Init(n), evs));
  }

  lemma QuietShutdown(s: State)
    requires Inv(s) && Quiet(s) && Endings(s.pushed, |s.pushed|) == |s.workers|
    ensures forall w :: 0 <= w < |s.workers| ==> s.workers[w] == Exited
  {
    hide Quiet, Executed, NoLostWakeup, StopsAtLast, Count, EndingRuns, Endings;
    QuietWorkers(s);
    if s.queue == [] {
      EndingRunsZero(s.workers, s.pushed);
      CountAll(s.workers, Exited);
    }
  }

  /** `ExitWork` gets every thread to end: once as many ending jobs as threads were
      pushed, a pool in which nothing can happen any more has no thread left. */
  lemma ShutdownReached(n: nat, evs: seq<Event>)
    requires CanRun(Init(n), evs) && Quiet(Run(Init(n), evs))
    requires Endings(Jobs(evs), |Jobs(evs)|) == n
    ensures var s := Run(Init(n), evs); forall w :: 0 <= w < |s.workers| ==> s.workers[w] == Exited
  {
    hide Inv, Quiet;
    InitInv(n);
    RunInv(Init(n), evs);
    FromStart(n, evs);
    QuietShutdown(Run(Init(n), evs));
  }

  /** When all threads have ended and the ending jobs were those of `ExitWork`, the
      jobs executed are exactly those pushed up to the last ending job: started in the order
      they were pushed, each finished once, and none of them an ending job left over. */
  lemma ShutdownComplete(n: nat, evs: seq<Event>)
    requires n > 0 && CanRun(Init(n), evs)
    requires Endings(Jobs(evs), |Jobs(evs)|) == n
    requires var s := Run(Init(n), evs); forall w :: 0 <= w < |s.workers| ==> s.workers[w] == Exited
    ensures var s := Run(Init(n), evs);
            && s.taken == |Takers(evs)| && |s.finished| == Endpoints(evs)
            && 0 < s.taken <= |Jobs(evs)| && Ends(Jobs(evs)[s.taken - 1])
            && (forall i :: s.taken <= i < |Jobs(evs)| ==> !Ends(Jobs(evs)[i]))
            && |s.started| == s.taken && (forall i :: 0 <= i < s.taken ==> s.started[i] == i)
            && (forall i :: 0 <= i < |s.finished| ==> s.finished[i] < s.taken)
            && (forall i :: 0 <= i < s.taken ==> i in s.finished)
            && (forall i, j :: 0 <= i < j < |s.finished| ==> s.finished[i] != s.finished[j])
  {
    hide Inv;
    InitInv(n);
    RunInv(Init(n), evs);
    FromStart(n, evs);
    AllExited(Run(Init(n), evs));
  }

  lemma AllExited(s: State)
    requires Inv(s) && |s.workers| > 0 && Endings(s.pushed, |s.pushed|) == |s.workers|
    requires forall w :: 0 <= w < |s.workers| ==> s.workers[w] == Exited
    ensures 0 < s.taken <= |s.pushed| && Ends(s.pushed[s.taken - 1])
    ensures forall i :: s.taken <= i < |s.pushed| ==> !Ends(s.pushed[i])
    ensures |s.started| == s.taken && forall i :: 0 <= i < s.taken ==> s.started[i] == i
    ensures forall i :: 0 <= i < |s.finished| ==> s.finished[i] < s.taken
    ensures forall i :: 0 <= i < s.taken ==> i in s.finished
    ensures forall i, j :: 0 <= i < j < |s.finished| ==> s.finished[i] != s.finished[j]
  {
    hide Ends, NoLostWakeup, Count, EndingRuns, Endings;
    CountAll(s.workers, Exited);
    EndingRunsZero(s.workers, s.pushed);
    NoEndings(s.pushed);
    forall i | s.taken <= i < |s.pushed|
      ensures !Ends(s.pushed[i])
    {
      EndingsMonotone(s.pushed, s.taken, i);
      EndingsNext(s.pushed, i);
      EndingsMonotone(s.pushed, i + 1, |s.pushed|);
    }
    forall i | 0 <= i < s.taken
      ensures i in s.finished
    {
      assert !IsRunning(s, i);
    }
  }

  lemma NoEndings(jobs: seq<Job>)
    ensures Endings(jobs, 0) == 0
  {
  }

  // ---------- progress ----------

  function Weight(w: Worker): nat {
    match w
    case Seeking => 1
    case Running(_) => 3
    case _ => 0
  }

  function Load(ws: seq<Worker>): nat {
    if ws == [] then 0 else Load(ws[..|ws| - 1]) + Weight(ws[|ws| - 1])
  }

  lemma {:induction false} LoadUpdate(ws: seq<Worker>, w: nat, x: Worker)
    requires w < |ws|
    ensures Load(ws[w := x]) == Load(ws) - Weight(ws[w]) + Weight(x)
  {
    var n := |ws| - 1;
    if w < n {
      LoadUpdate(ws[..n], w, x);
      assert ws[w := x][..n] == ws[..n][w := x];
    } else {
      assert ws[w := x][..n] == ws[..n];
    }
  }

  /** What the pool still has to do. */
  function Ahead(s: State): nat {
    5 * |s.queue| + 2 * s.owed + Load(s.workers)
  }

  lemma StepAhead(s: State, ev: Event)
    requires Enabled(s, ev) && !ev.Push? && !ev.Spurious?
    ensures Ahead(Step(s, ev)) < Ahead(s)
  {
    match ev
    case SignalNone =>
    case SignalOne(w) => LoadUpdate(s.workers, w, Seeking);
    case Sleep(w) => LoadUpdate(s.workers, w, Waiting);
    case Take(w) => LoadUpdate(s.workers, w, Running(s.taken));
    case Finish(w) => LoadUpdate(s.workers, w, Seeking);
    case Exit(w) => LoadUpdate(s.workers, w, Exited);
  }

  /** Without further pushes and unasked wakeups every run comes to rest, within a
      number of steps known in advance. */
  lemma {:induction false} RunsEnd(s: State, evs: seq<Event>)
    requires CanRun(s, evs)
    requires forall ev :: ev in evs ==> !ev.Push? && !ev.Spurious?
    ensures |evs| <= Ahead(s)
    decreases |evs|
  {
    if evs != [] {
      StepAhead(s, evs[0]);
      RunsEnd(Step(s, evs[0]), evs[1..]);
    }
  }
}
