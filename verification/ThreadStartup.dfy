/** The start-up of thread pools: a parent hands each child a slot of a temporary
    array, waits for the child's word that it has copied the slot, and frees the array
    once all have.  The word is a flag that all pools of the program share. */
module ThreadStartup {

  datatype Phase =
    | Before     // `Init` not called yet
    | Filling    // about to fill a slot and create a child, or to free the array
    | Testing    // about to look at the flag, holding the lock
    | Asleep     // waiting on the condition variable
    | Freed      // the array is freed, `Init` has returned

  /** A child before it runs; about to read its slot; with its copy; with its copy and
      its word given. */
  datatype Child = Unborn | Born | Copied(pool: nat, index: nat) | Told(pool: nat, index: nat)

  datatype Slot = Zeroed | Arg(pool: nat, index: nat)

  datatype Pool = Pool(phase: Phase, next: nat, args: seq<Slot>, children: seq<Child>)

  /** `misread` records that a child read its slot after the array was freed. */
  datatype State = State(flag: bool, pools: seq<Pool>, misread: bool)

  datatype Event =
    | Start(p: nat)
    | Create(p: nat)
    | Free(p: nat)
    | Test(p: nat)
    | Wake(p: nat)              // a wakeup, asked for or not
    | Copy(p: nat, c: nat)
    | Tell(p: nat, c: nat, woken: nat)   // `woken` is the waiting parent that is signalled

  function NewPool(n: nat): Pool {
    Pool(Before, 0, seq(n, _ => Zeroed), seq(n, _ => Unborn))
  }

  predicate Init(s: State) {
    !s.flag && !s.misread && forall p :: 0 <= p < |s.pools| ==> s.pools[p] == NewPool(|s.pools[p].children|)
  }

  predicate SomeAsleep(s: State) {
    exists q :: 0 <= q < |s.pools| && s.pools[q].phase.Asleep?
  }

  predicate Enabled(s: State, ev: Event) {
    ev.p < |s.pools| &&
    var pool := s.pools[ev.p];
    |pool.args| == |pool.children| &&
    match ev
    case Start(_) => pool.phase.Before?
    case Create(_) => pool.phase.Filling? && pool.next < |pool.children|
    case Free(_) => pool.phase.Filling? && pool.next >= |pool.children|
    case Test(_) => pool.phase.Testing?
    case Wake(_) => pool.phase.Asleep?
    case Copy(_, c) => c < |pool.children| && pool.children[c].Born?
    case Tell(_, c, woken) =>
      && c < |pool.children| && pool.children[c].Copied?
      && (SomeAsleep(s) ==> woken < |s.pools| && s.pools[woken].phase.Asleep?)
  }

  function Step(s: State, ev: Event): State
    requires Enabled(s, ev)
  {
    var pool := s.pools[ev.p];
    match ev
    case Start(p) => s.(pools := s.pools[p := pool.(phase := Filling, next := 0)])
    case Create(p) =>
      var i := pool.next;
      s.(pools := s.pools[p := pool.(phase := Testing, args := pool.args[i := Arg(p, i)],
                                     children := pool.children[i := Born])])
    case Free(p) => s.(pools := s.pools[p := pool.(phase := Freed)])
    case Test(p) =>
      if s.flag then s.(flag := false, pools := s.pools[p := pool.(phase := Filling, next := pool.next + 1)])
      else s.(pools := s.pools[p := pool.(phase := Asleep)])
    case Wake(p) => s.(pools := s.pools[p := pool.(phase := Testing)])
    case Copy(p, c) =>
      var slot := pool.args[c];
      if pool.phase.Freed? || slot.Zeroed? then
        s.(pools := s.pools[p := pool.(children := pool.children[c := Copied(0, 0)])],
           misread := s.misread || pool.phase.Freed?)
      else
        s.(pools := s.pools[p := pool.(children := pool.children[c := Copied(slot.pool, slot.index)])])
    case Tell(p, c, woken) =>
      var told := Told(pool.children[c].pool, pool.children[c].index);
      var pools := s.pools[p := pool.(children := pool.children[c := told])];
      s.(flag := true,
         pools := if SomeAsleep(s) then pools[woken := pools[woken].(phase := Testing)] else pools)
  }

  predicate Active(pool: Pool) {
    pool.phase.Filling? || pool.phase.Testing? || pool.phase.Asleep?
  }

  /** `Init` has yet to hear from a child of this pool. */
  predicate Busy(pool: Pool) {
    Active(pool) && pool.next < |pool.children|
  }

  ghost predicate NoneBusy(s: State) {
    forall q :: 0 <= q < |s.pools| ==> !Busy(s.pools[q])
  }

  /** A pool with children starts only while no other pool is to hear from a child. */
  ghost predicate Alone(s: State, ev: Event) {
    ev.Start? && ev.p < |s.pools| && s.pools[ev.p].children != [] ==> NoneBusy(s)
  }

  ghost predicate CanRun(s: State, evs: seq<Event>)
    decreases |evs|
  {
    evs == [] || (Enabled(s, evs[0]) && CanRun(Step(s, evs[0]), evs[1..]))
  }

  ghost function Run(s: State, evs: seq<Event>): State
    requires CanRun(s, evs)
    decreases |evs|
  {
    if evs == [] then s else Run(Step(s, evs[0]), evs[1..])
  }

  ghost predicate Serial(s: State, evs: seq<Event>)
    requires CanRun(s, evs)
    decreases |evs|
  {
    evs == [] || (Alone(s, evs[0]) && Serial(Step(s, evs[0]), evs[1..]))
  }

  // ---------- what every step keeps, when starts do not overlap ----------

  /** Child `c` of pool `p` holds what it was meant to get. */
  predicate HasOwn(child: Child, p: nat, c: nat) {
    match child
    case Copied(pool, index) => pool == p && index == c
    case Told(pool, index) => pool == p && index == c
    case _ => true
  }

  /** The state of one pool; `flag` is what it has to be while the pool is busy. */
  ghost predicate PoolOk(pool: Pool, p: nat, flag: bool) {
    && |pool.args| == |pool.children|
    && pool.next <= |pool.children|
    && (forall c :: 0 <= c < |pool.children| ==> HasOwn(pool.children[c], p, c))
    && match pool.phase
       case Before => forall c :: 0 <= c < |pool.children| ==> pool.children[c].Unborn?
       case Filling =>
         && (pool.next < |pool.children| ==> !flag)
         && (forall c :: 0 <= c < pool.next ==> pool.children[c].Told?)
         && (forall c :: pool.next <= c < |pool.children| ==> pool.children[c].Unborn?)
       case Freed => forall c :: 0 <= c < |pool.children| ==> pool.children[c].Told?
       case _ =>
         && pool.next < |pool.children|
         && pool.args[pool.next] == Arg(p, pool.next)
         && (forall c :: 0 <= c < pool.next ==> pool.children[c].Told?)
         && !pool.children[pool.next].Unborn?
         && (forall c :: pool.next < c < |pool.children| ==> pool.children[c].Unborn?)
         && (flag <==> pool.children[pool.next].Told?)
         && (pool.phase.Asleep? ==> !flag)
  }

  ghost predicate Inv(s: State) {
    && !s.misread
    && (forall p :: 0 <= p < |s.pools| ==> PoolOk(s.pools[p], p, s.flag))
    && (forall p, q :: 0 <= p < q < |s.pools| ==> !Busy(s.pools[p]) || !Busy(s.pools[q]))
    && (NoneBusy(s) ==> !s.flag)
  }

  lemma InitInv(s: State)
    requires Init(s)
    ensures Inv(s)
  {
  }

  /** A pool that is not busy does not depend on the flag. */
  lemma IdleOk(pool: Pool, p: nat, flag: bool, flag': bool)
    requires PoolOk(pool, p, flag) && !Busy(pool)
    ensures PoolOk(pool, p, flag')
  {
  }

  /** Replacing the busy pool (or any one while none is busy) keeps the invariant of the
      whole, and so does replacing a pool by one that is not busy, the flag untouched. */
  lemma ReplaceInv(s: State, p: nat, pool: Pool, flag: bool)
    requires Inv(s) && p < |s.pools|
    requires PoolOk(pool, p, flag)
    requires || ((Busy(s.pools[p]) || NoneBusy(s)) && (Busy(pool) || !flag))
             || (!Busy(s.pools[p]) && !Busy(pool) && flag == s.flag)
    ensures Inv(State(flag, s.pools[p := pool], false))
  {
    hide PoolOk, Busy;
    var t := State(flag, s.pools[p := pool], false);
    forall q | 0 <= q < |t.pools|
      ensures PoolOk(t.pools[q], q, flag)
    {
      if q != p && flag != s.flag {
        IdleOk(s.pools[q], q, s.flag, flag);
      }
    }
    assert t.pools[p] == pool;
    if NoneBusy(t) && !NoneBusy(s) {
      var q :| 0 <= q < |s.pools| && Busy(s.pools[q]);
      assert q != p ==> t.pools[q] == s.pools[q];
    }
  }

  lemma StepInv(s: State, ev: Event)
    requires Inv(s) && Enabled(s, ev) && Alone(s, ev)
    ensures Inv(Step(s, ev))
  {
    var pool := s.pools[ev.p];
    assert PoolOk(pool, ev.p, s.flag);
    match ev
    case Copy(p, c) =>
      CopyInv(s, p, c);
    case Tell(p, c, woken) =>
      TellInv(s, p, c, woken);
    case _ =>
      var t := Step(s, ev);
      ReplaceInv(s, ev.p, t.pools[ev.p], t.flag);
  }

  lemma CopyInv(s: State, p: nat, c: nat)
    requires Inv(s) && Enabled(s, Copy(p, c))
    ensures Inv(Step(s, Copy(p, c)))
  {
    var pool := s.pools[p];
    assert PoolOk(pool, p, s.flag);
    assert Busy(pool) && c == pool.next;
    ReplaceInv(s, p, pool.(children := pool.children[c := Copied(p, c)]), s.flag);
  }

  lemma TellInv(s: State, p: nat, c: nat, woken: nat)
    requires Inv(s) && Enabled(s, Tell(p, c, woken))
    ensures Inv(Step(s, Tell(p, c, woken)))
  {
    var pool := s.pools[p];
    assert PoolOk(pool, p, s.flag);
    assert Busy(pool) && c == pool.next;
    var awake := pool.(children := pool.children[c := Told(p, c)], phase := Testing);
    ReplaceInv(s, p, awake, true);
    if SomeAsleep(s) {
      assert PoolOk(s.pools[woken], woken, s.flag);
      assert Busy(s.pools[woken]);
      assert woken == p;
      assert Step(s, Tell(p, c, woken)).pools == s.pools[p := awake];
    } else {
      assert !pool.phase.Asleep?;
      assert Step(s, Tell(p, c, woken)).pools == s.pools[p := awake];
    }
  }

  lemma {:induction false} RunInv(s: State, evs: seq<Event>)
    requires Inv(s) && CanRun(s, evs) && Serial(s, evs)
    ensures Inv(Run(s, evs))
    decreases |evs|
  {
    if evs != [] {
      StepInv(s, evs[0]);
      RunInv(Step(s, evs[0]), evs[1..]);
    }
  }

  // ---------- what holds of every interleaving ----------

  /** When no start overlaps a busy pool, no child ever reads a freed array, every child that
      has read its slot holds its own pool and index, and where the array is freed all
      children have. */
  lemma SlotsAreSafe(s: State, evs: seq<Event>)
    requires Init(s) && CanRun(s, evs) && Serial(s, evs)
    ensures var t := Run(s, evs);
            && !t.misread
            && forall p :: 0 <= p < |t.pools| ==>
                 && (forall c :: 0 <= c < |t.pools[p].children| ==> HasOwn(t.pools[p].children[c], p, c))
                 && (t.pools[p].phase.Freed? ==>
                       forall c :: 0 <= c < |t.pools[p].children| ==> t.pools[p].children[c] == Told(p, c))
  {
    InitInv(s);
    RunInv(s, evs);
    var t := Run(s, evs);
    forall p | 0 <= p < |t.pools|
      ensures forall c :: 0 <= c < |t.pools[p].children| ==> HasOwn(t.pools[p].children[c], p, c)
      ensures t.pools[p].phase.Freed? ==>
                forall c :: 0 <= c < |t.pools[p].children| ==> t.pools[p].children[c] == Told(p, c)
    {
      assert PoolOk(t.pools[p], p, t.flag);
    }
  }

  /** The number of children that have given their word. */
  function Words(children: seq<Child>): nat {
    if children == [] then 0 else Words(children[..|children| - 1]) + (if children[|children| - 1].Told? then 1 else 0)
  }

  lemma {:induction false} WordsUpTo(children: seq<Child>, n: nat)
    requires n <= |children|
    requires forall c :: 0 <= c < n ==> children[c].Told?
    requires forall c :: n <= c < |children| ==> !children[c].Told?
    ensures Words(children) == n
  {
    if children != [] {
      var last := |children| - 1;
      WordsUpTo(children[..last], if n > last then last else n);
    }
  }

  /** No word is lost or taken twice: the parent has consumed `next` of them, and the
      flag is up exactly while a busy pool has one more. */
  lemma WordsCounted(s: State, evs: seq<Event>, p: nat)
    requires Init(s) && CanRun(s, evs) && Serial(s, evs)
    requires p < |Run(s, evs).pools| && Active(Run(s, evs).pools[p])
    ensures var t := Run(s, evs);
            Words(t.pools[p].children) == t.pools[p].next + (if Busy(t.pools[p]) && t.flag then 1 else 0)
  {
    InitInv(s);
    RunInv(s, evs);
    var t := Run(s, evs);
    assert PoolOk(t.pools[p], p, t.flag);
    WordsUpTo(t.pools[p].children, t.pools[p].next + (if Busy(t.pools[p]) && t.flag then 1 else 0));
  }

  /** A sleeping parent is never forgotten: the child it waits for has its word still
      to give, and can go on. */
  lemma SleeperWillWake(s: State, evs: seq<Event>, p: nat)
    requires Init(s) && CanRun(s, evs) && Serial(s, evs)
    requires p < |Run(s, evs).pools| && Run(s, evs).pools[p].phase.Asleep?
    ensures var t := Run(s, evs);
            var c := t.pools[p].next;
            Enabled(t, Copy(p, c)) || Enabled(t, Tell(p, c, p))
  {
    InitInv(s);
    RunInv(s, evs);
    assert PoolOk(Run(s, evs).pools[p], p, Run(s, evs).flag);
  }

  // ---------- when starts overlap ----------

  predicate NoStarts(evs: seq<Event>) {
    forall i :: 0 <= i < |evs| ==> !evs[i].Start?
  }

  /** What a parent at slot `j` and its children can do in turn, up to freeing the array;
      then child `k` reads its slot. */
  function Onward(r: nat, j: nat, n: nat, k: nat): seq<Event>
    decreases n - j
  {
    if j >= n then [Free(r), Copy(r, k)]
    else [Create(r), Copy(r, j), Tell(r, j, 0), Test(r)] + Onward(r, j + 1, n, k)
  }

  /** The parent went past child `k`, which has not read its slot. */
  ghost predicate Passed(s: State, r: nat, k: nat) {
    && r < |s.pools| && !s.flag && !SomeAsleep(s)
    && |s.pools[r].args| == |s.pools[r].children|
    && s.pools[r].phase.Filling? && k < s.pools[r].next <= |s.pools[r].children|
    && s.pools[r].children[k].Born?
    && forall c :: s.pools[r].next <= c < |s.pools[r].children| ==> s.pools[r].children[c].Unborn?
  }

  /** One child of pool `r` is created, reads, tells, and is heard. */
  lemma NextChild(s: State, r: nat, k: nat) returns (t: State)
    requires Passed(s, r, k) && s.pools[r].next < |s.pools[r].children|
    ensures var j := s.pools[r].next;
            && Passed(t, r, k) && t.pools[r].next == j + 1
            && |t.pools[r].children| == |s.pools[r].children|
            && CanRun(s, [Create(r), Copy(r, j), Tell(r, j, 0), Test(r)])
            && Run(s, [Create(r), Copy(r, j), Tell(r, j, 0), Test(r)]) == t
  {
    var j := s.pools[r].next;
    var s1 := Step(s, Create(r));
    StaysAwake(s, s1, r);
    var s2 := Step(s1, Copy(r, j));
    StaysAwake(s1, s2, r);
    var s3 := Step(s2, Tell(r, j, 0));
    StaysAwake(s2, s3, r);
    t := Step(s3, Test(r));
    StaysAwake(s3, t, r);
    RunFour(s, s1, s2, s3, t, Create(r), Copy(r, j), Tell(r, j, 0), Test(r));
  }

  lemma StaysAwake(s: State, t: State, r: nat)
    requires !SomeAsleep(s) && r < |s.pools| == |t.pools| && t.pools == s.pools[r := t.pools[r]]
    requires !t.pools[r].phase.Asleep?
    ensures !SomeAsleep(t)
  {
  }

  lemma RunFour(s: State, s1: State, s2: State, s3: State, t: State, a: Event, b: Event, c: Event, d: Event)
    requires Enabled(s, a) && s1 == Step(s, a) && Enabled(s1, b) && s2 == Step(s1, b)
    requires Enabled(s2, c) && s3 == Step(s2, c) && Enabled(s3, d) && t == Step(s3, d)
    ensures CanRun(s, [a, b, c, d]) && Run(s, [a, b, c, d]) == t
  {
    hide Enabled, Step;
    RunCons(t, [], s3, d);
    RunCons(s3, [d], s2, c);
    assert [c] + [d] == [c, d];
    RunCons(s2, [c, d], s1, b);
    assert [b] + [c, d] == [b, c, d];
    RunCons(s1, [b, c, d], s, a);
    assert [a] + [b, c, d] == [a, b, c, d];
  }

  lemma {:induction false} PassedMisreads(s: State, r: nat, k: nat)
    requires Passed(s, r, k)
    ensures var evs := Onward(r, s.pools[r].next, |s.pools[r].children|, k);
            NoStarts(evs) && CanRun(s, evs) && Run(s, evs).misread
    decreases |s.pools[r].children| - s.pools[r].next
  {
    var j, n := s.pools[r].next, |s.pools[r].children|;
    if j < n {
      var t := NextChild(s, r, k);
      PassedMisreads(t, r, k);
      RunConcat(s, [Create(r), Copy(r, j), Tell(r, j, 0), Test(r)], Onward(r, j + 1, n, k));
    } else {
      var s1 := Step(s, Free(r));
      var s2 := Step(s1, Copy(r, k));
      RunCons(s2, [], s1, Copy(r, k));
      RunCons(s1, [Copy(r, k)], s, Free(r));
      assert [Free(r)] + [Copy(r, k)] == [Free(r), Copy(r, k)];
    }
  }

  /** The flag is up, and the parent of pool `r` is about to take it for the word of its
      child, which has not read its slot. */
  ghost predicate Misled(s: State, r: nat) {
    && r < |s.pools| && s.flag && !SomeAsleep(s)
    && |s.pools[r].args| == |s.pools[r].children|
    && s.pools[r].phase.Testing? && s.pools[r].next < |s.pools[r].children|
    && s.pools[r].children[s.pools[r].next].Born?
    && forall c :: s.pools[r].next < c < |s.pools[r].children| ==> s.pools[r].children[c].Unborn?
  }

  lemma MisledMisreads(s: State, r: nat) returns (evs: seq<Event>)
    requires Misled(s, r)
    ensures NoStarts(evs) && CanRun(s, evs) && Run(s, evs).misread
  {
    var t, k := Step(s, Test(r)), s.pools[r].next;
    StaysAwake(s, t, r);
    PassedMisreads(t, r, k);
    var more := Onward(r, t.pools[r].next, |t.pools[r].children|, k);
    RunCons(t, more, s, Test(r));
    evs := [Test(r)] + more;
  }

  /** Pool `q` has just created its first child; pool `p` waits for a child of its own. */
  ghost predicate Overlap(s: State, p: nat, q: nat) {
    && p < |s.pools| && q < |s.pools| && p != q
    && |s.pools[p].args| == |s.pools[p].children| && |s.pools[q].args| == |s.pools[q].children|
    && (s.pools[p].phase.Testing? || s.pools[p].phase.Asleep?)
    && s.pools[p].next < |s.pools[p].children|
    && (forall c :: s.pools[p].next < c < |s.pools[p].children| ==> s.pools[p].children[c].Unborn?)
    && !s.pools[p].children[s.pools[p].next].Unborn?
    && (s.pools[p].children[s.pools[p].next].Told? ==> s.flag && s.pools[p].phase.Testing?)
    && (forall r :: 0 <= r < |s.pools| && r != p ==> !s.pools[r].phase.Asleep?)
    && s.pools[q].phase.Testing? && s.pools[q].next == 0 < |s.pools[q].children|
    && s.pools[q].children[0].Born? && s.pools[q].args[0] == Arg(q, 0)
    && (forall c :: 0 < c < |s.pools[q].children| ==> s.pools[q].children[c].Unborn?)
  }

  /** If the child of `p` has not read its slot, the word of the child of `q` misleads
      `p`; if it has, its word misleads `q`. */
  lemma OverlapMisleads(s: State, p: nat, q: nat) returns (evs: seq<Event>, r: nat)
    requires Overlap(s, p, q)
    ensures NoStarts(evs) && CanRun(s, evs) && Misled(Run(s, evs), r)
  {
    var i := s.pools[p].next;
    match s.pools[p].children[i]
    case Born =>
      var s1 := Step(s, Copy(q, 0));
      WordMisleads(s1, q, 0, p, p);
      RunCons(Step(s1, Tell(q, 0, p)), [], s1, Tell(q, 0, p));
      RunCons(s1, [Tell(q, 0, p)], s, Copy(q, 0));
      evs, r := [Copy(q, 0)] + [Tell(q, 0, p)], p;
    case Copied(_, _) =>
      WordMisleads(s, p, i, p, q);
      RunCons(Step(s, Tell(p, i, p)), [], s, Tell(p, i, p));
      evs, r := [Tell(p, i, p)], q;
    case Told(_, _) =>
      evs, r := [], q;
  }

  /** Child `c` of pool `w` gives its word, which wakes `p` if it sleeps; the parent of
      `r` is the one it misleads. */
  lemma WordMisleads(s: State, w: nat, c: nat, p: nat, r: nat)
    requires w < |s.pools| && p < |s.pools| && r < |s.pools| && r != w
    requires |s.pools[w].args| == |s.pools[w].children| && |s.pools[r].args| == |s.pools[r].children|
    requires c < |s.pools[w].children| && s.pools[w].children[c].Copied?
    requires forall x :: 0 <= x < |s.pools| && x != p ==> !s.pools[x].phase.Asleep?
    requires s.pools[r].phase.Testing? || (r == p && s.pools[r].phase.Asleep?)
    requires s.pools[r].next < |s.pools[r].children| && s.pools[r].children[s.pools[r].next].Born?
    requires forall x :: s.pools[r].next < x < |s.pools[r].children| ==> s.pools[r].children[x].Unborn?
    ensures Enabled(s, Tell(w, c, p)) && Misled(Step(s, Tell(w, c, p)), r)
  {
  }

  lemma {:induction false} RunConcat(s: State, evs: seq<Event>, more: seq<Event>)
    requires CanRun(s, evs) && CanRun(Run(s, evs), more)
    ensures CanRun(s, evs + more) && Run(s, evs + more) == Run(Run(s, evs), more)
    decreases |evs|
  {
    hide Enabled, Step;
    if evs == [] {
      assert evs + more == more;
    } else {
      RunConcat(Step(s, evs[0]), evs[1..], more);
      assert (evs + more)[1..] == evs[1..] + more;
    }
  }

  lemma RunCons(t: State, evs: seq<Event>, s: State, ev: Event)
    requires Enabled(s, ev) && t == Step(s, ev) && CanRun(t, evs)
    ensures CanRun(s, [ev] + evs) && Run(s, [ev] + evs) == Run(t, evs)
  {
    hide Enabled, Step;
    assert ([ev] + evs)[1..] == evs;
  }

  /** Up to the moment at which both pools have created a child. */
  lemma OverlapReached(s: State, p: nat, q: nat) returns (evs: seq<Event>)
    requires Inv(s) && p < |s.pools| && Busy(s.pools[p])
    requires Enabled(s, Start(q)) && s.pools[q].children != []
    ensures NoStarts(evs) && CanRun(Step(s, Start(q)), evs) && Overlap(Run(Step(s, Start(q)), evs), p, q)
  {
    assert PoolOk(s.pools[p], p, s.flag) && PoolOk(s.pools[q], q, s.flag);
    forall r | 0 <= r < |s.pools| && r != p
      ensures !s.pools[r].phase.Asleep?
    {
      assert PoolOk(s.pools[r], r, s.flag);
    }
    var s1 := Step(s, Start(q));
    var s2 := Step(s1, Create(q));
    RunCons(s2, [], s1, Create(q));
    evs := [Create(q)];
    if s.pools[p].phase.Filling? {
      var s3 := Step(s2, Create(p));
      RunCons(s3, [], s2, Create(p));
      RunConcat(s1, [Create(q)], [Create(p)]);
      evs := [Create(q)] + [Create(p)];
    }
  }

  /** Every start that overlaps a busy pool can go wrong, without any further start. */
  lemma OverlapMisreads(s: State, p: nat, q: nat) returns (evs: seq<Event>)
    requires Inv(s) && p < |s.pools| && Busy(s.pools[p])
    requires Enabled(s, Start(q)) && s.pools[q].children != []
    ensures NoStarts(evs) && CanRun(Step(s, Start(q)), evs) && Run(Step(s, Start(q)), evs).misread
  {
    hide Enabled, Step, Inv, Overlap, Misled, Busy;
    var s1 := Step(s, Start(q));
    var a := OverlapReached(s, p, q);
    var b, r := OverlapMisleads(Run(s1, a), p, q);
    var c := MisledMisreads(Run(Run(s1, a), b), r);
    RunConcat(Run(s1, a), b, c);
    RunConcat(s1, a, b + c);
    evs := a + (b + c);
  }

  lemma {:induction false} NoStartsSerial(s: State, evs: seq<Event>)
    requires CanRun(s, evs) && NoStarts(evs)
    ensures Serial(s, evs)
    decreases |evs|
  {
    if evs != [] {
      NoStartsSerial(Step(s, evs[0]), evs[1..]);
    }
  }

  /** The condition on starts is exact: after any run that kept it, starting a pool can
      lead to a read of a freed array, with no further start, if and only if the pool has
      children and another pool is still to hear from a child of its own. */
  lemma OverlapExact(s: State, evs: seq<Event>, q: nat)
    requires Init(s) && CanRun(s, evs) && Serial(s, evs)
    requires Enabled(Run(s, evs), Start(q))
    ensures var t := Run(s, evs);
            (exists more :: NoStarts(more) && CanRun(Step(t, Start(q)), more) && Run(Step(t, Start(q)), more).misread)
            <==> t.pools[q].children != [] && exists p :: 0 <= p < |t.pools| && Busy(t.pools[p])
  {
    InitInv(s);
    RunInv(s, evs);
    var t := Run(s, evs);
    hide Busy, Init, Inv;
    if t.pools[q].children != [] && exists p :: 0 <= p < |t.pools| && Busy(t.pools[p]) {
      var p :| 0 <= p < |t.pools| && Busy(t.pools[p]);
      var more := OverlapMisreads(t, p, q);
    } else {
      StepInv(t, Start(q));
      forall more | NoStarts(more) && CanRun(Step(t, Start(q)), more)
        ensures !Run(Step(t, Start(q)), more).misread
      {
        QuietRunIsSafe(Step(t, Start(q)), more);
      }
    }
  }

  lemma QuietRunIsSafe(s: State, evs: seq<Event>)
    requires Inv(s) && CanRun(s, evs) && NoStarts(evs)
    ensures !Run(s, evs).misread
  {
    NoStartsSerial(s, evs);
    RunInv(s, evs);
  }
}
