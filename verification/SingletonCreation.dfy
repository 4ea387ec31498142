/** Creation of global objects.  Every module has its own cache of a pointer; the
    caches of one key share an entry, which is created under the entry's lock after a
    second look.  Pointers are numbers; zero is the null pointer. */
module SingletonCreation {

  /** A call of the creation function, by the cache it goes through. */
  datatype Thread =
    | Idle
    | Missed(cache: nat)               // the cache was null
    | Entered(cache: nat)              // the key's entry exists in the map now
    | Locking(cache: nat)              // the entry's pointer was null; waiting for its lock
    | Locked(cache: nat)               // inside the lock
    | Making(cache: nat)               // the second look saw null too
    | Made(cache: nat, ptr: nat)       // `make` has returned
    | Stored(cache: nat, ptr: nat)     // the pointer is in the entry, the lock still held
    | Leaving(cache: nat, ptr: nat)    // a pointer is in hand, the lock is not
    | Done(cache: nat, ptr: nat)       // the call has returned `ptr`

  /** `makes` counts the objects made. */
  datatype Entry = Entry(ptr: nat, owner: int, makes: nat)

  const NOBODY := -1

  /** `keyOf` says which key a cache belongs to; `next` is the next pointer that `make`
      will allocate. */
  datatype State = State(
    keyOf: seq<nat>,
    caches: seq<nat>,
    entries: map<nat, Entry>,
    threads: seq<Thread>,
    next: nat)

  datatype Event =
    | Call(t: nat, cache: nat)   // the cache is loaded
    | Enter(t: nat)              // the map is searched under the map's lock
    | Look(t: nat)               // the entry's pointer is loaded
    | Lock(t: nat)
    | LookAgain(t: nat)          // the second load, inside the lock
    | Make(t: nat)               // `make` returns a new object
    | Throw(t: nat)              // `make` throws: the lock is released, the call abandoned
    | Store(t: nat)              // the pointer is stored into the entry
    | Unlock(t: nat)
    | Fill(t: nat)               // the pointer is stored into the cache, the call returns
    | Forget(t: nat)             // the thread goes on to other things

  predicate HasCache(th: Thread) {
    !th.Idle?
  }

  predicate Init(s: State) {
    && |s.caches| == |s.keyOf| && s.entries == map[] && 0 < s.next
    && (forall c :: 0 <= c < |s.caches| ==> s.caches[c] == 0)
    && (forall t :: 0 <= t < |s.threads| ==> s.threads[t] == Idle)
  }

  predicate Enabled(s: State, ev: Event) {
    ev.t < |s.threads| &&
    var th := s.threads[ev.t];
    if ev.Call? then th.Idle? && ev.cache < |s.caches| && |s.caches| == |s.keyOf|
    else
      HasCache(th) && th.cache < |s.caches| && th.cache < |s.keyOf| &&
      var key := s.keyOf[th.cache];
      match ev
      case Call(_, _) => false
      case Enter(_) => th.Missed?
      case Look(_) => th.Entered? && key in s.entries
      case Lock(_) => th.Locking? && key in s.entries && s.entries[key].owner == NOBODY
      case LookAgain(_) => th.Locked? && key in s.entries
      case Make(_) => th.Making? && key in s.entries
      case Throw(_) => th.Making? && key in s.entries
      case Store(_) => th.Made? && key in s.entries
      case Unlock(_) => th.Stored? && key in s.entries
      case Fill(_) => th.Leaving?
      case Forget(_) => th.Done?
  }

  function Step(s: State, ev: Event): State
    requires Enabled(s, ev)
  {
    var t := ev.t;
    var th := s.threads[t];
    if ev.Call? then
      var p := s.caches[ev.cache];
      s.(threads := s.threads[t := if p != 0 then Done(ev.cache, p) else Missed(ev.cache)])
    else
      var c := th.cache;
      var key := s.keyOf[c];
      match ev
      case Call(_, _) => s
      case Enter(_) =>
        s.(threads := s.threads[t := Entered(c)],
           entries := if key in s.entries then s.entries else s.entries[key := Entry(0, NOBODY, 0)])
      case Look(_) =>
        var p := s.entries[key].ptr;
        s.(threads := s.threads[t := if p != 0 then Leaving(c, p) else Locking(c)])
      case Lock(_) =>
        s.(threads := s.threads[t := Locked(c)], entries := s.entries[key := s.entries[key].(owner := t)])
      case LookAgain(_) =>
        var p := s.entries[key].ptr;
        s.(threads := s.threads[t := if p != 0 then Stored(c, p) else Making(c)])
      case Make(_) =>
        s.(threads := s.threads[t := Made(c, s.next)], next := s.next + 1,
           entries := s.entries[key := s.entries[key].(makes := s.entries[key].makes + 1)])
      case Throw(_) =>
        s.(threads := s.threads[t := Idle], entries := s.entries[key := s.entries[key].(owner := NOBODY)])
      case Store(_) =>
        s.(threads := s.threads[t := Stored(c, th.ptr)], entries := s.entries[key := s.entries[key].(ptr := th.ptr)])
      case Unlock(_) =>
        s.(threads := s.threads[t := Leaving(c, th.ptr)], entries := s.entries[key := s.entries[key].(owner := NOBODY)])
      case Fill(_) => s.(threads := s.threads[t := Done(c, th.ptr)], caches := s.caches[c := th.ptr])
      case Forget(_) => s.(threads := s.threads[t := Idle])
  }

  // ---------- what every step keeps ----------

  predicate Holds(th: Thread) {
    th.Locked? || th.Making? || th.Made? || th.Stored?
  }

  /** What a thread in a call knows of its key's entry. */
  ghost predicate ThreadOk(s: State, t: nat)
    requires t < |s.threads|
  {
    var th := s.threads[t];
    HasCache(th) ==>
      && th.cache < |s.caches| && th.cache < |s.keyOf|
      && var key := s.keyOf[th.cache];
         && (!th.Missed? ==> key in s.entries)
         && (Holds(th) ==> s.entries[key].owner == t)
         && (th.Making? ==> s.entries[key].ptr == 0 && s.entries[key].makes == 0)
         && (th.Made? ==> s.entries[key].ptr == 0 && s.entries[key].makes == 1 && th.ptr != 0)
         && (th.Stored? || th.Leaving? || th.Done? ==> th.ptr != 0 && th.ptr == s.entries[key].ptr)
         && (th.Done? ==> s.caches[th.cache] == th.ptr)
  }

  /** An entry has been made at most once, and only while its maker holds the lock is
      it made but not stored. */
  ghost predicate EntryOk(s: State, key: nat)
    requires key in s.entries
  {
    var e := s.entries[key];
    && e.makes <= 1
    && (e.ptr != 0 ==> e.makes == 1)
    && (e.owner == NOBODY && e.ptr == 0 ==> e.makes == 0)
    && (e.owner != NOBODY ==>
          && 0 <= e.owner < |s.threads|
          && Holds(s.threads[e.owner]) && s.threads[e.owner].cache < |s.keyOf|
          && s.keyOf[s.threads[e.owner].cache] == key
          && (s.threads[e.owner].Locked? && e.ptr == 0 ==> e.makes == 0))
  }

  ghost predicate CacheOk(s: State, c: nat)
    requires c < |s.caches| == |s.keyOf|
  {
    s.caches[c] != 0 ==> s.keyOf[c] in s.entries && s.caches[c] == s.entries[s.keyOf[c]].ptr
  }

  ghost predicate Inv(s: State) {
    && |s.caches| == |s.keyOf| && 0 < s.next
    && (forall t :: 0 <= t < |s.threads| ==> ThreadOk(s, t))
    && (forall key :: key in s.entries ==> EntryOk(s, key))
    && (forall c :: 0 <= c < |s.caches| ==> CacheOk(s, c))
  }

  lemma InitInv(s: State)
    requires Init(s)
    ensures Inv(s)
  {
  }

  lemma StepInv(s: State, ev: Event)
    requires Inv(s) && Enabled(s, ev)
    ensures Inv(Step(s, ev))
  {
    var t := Step(s, ev);
    assert ThreadOk(s, ev.t);
    forall x | 0 <= x < |t.threads|
      ensures ThreadOk(t, x)
    {
      StepThread(s, ev, x);
    }
    forall key | key in t.entries
      ensures EntryOk(t, key)
    {
      StepEntry(s, ev, key);
    }
    forall c | 0 <= c < |t.caches|
      ensures CacheOk(t, c)
    {
      assert CacheOk(s, c);
    }
  }

  lemma StepThread(s: State, ev: Event, x: nat)
    requires Inv(s) && Enabled(s, ev) && x < |s.threads|
    ensures ThreadOk(Step(s, ev), x)
  {
    assert ThreadOk(s, ev.t) && ThreadOk(s, x);
    if ev.Call? {
      assert CacheOk(s, ev.cache);
    } else {
      var key := s.keyOf[s.threads[ev.t].cache];
      if key in s.entries {
        assert EntryOk(s, key);
      }
    }
  }

  lemma StepEntry(s: State, ev: Event, key: nat)
    requires Inv(s) && Enabled(s, ev) && key in Step(s, ev).entries
    ensures EntryOk(Step(s, ev), key)
  {
    assert ThreadOk(s, ev.t);
    if key in s.entries {
      assert EntryOk(s, key);
    }
  }

  ghost predicate CanRun(s: State, evs: seq<Event>)
    decreases |evs|
  {
    evs == [] || (Enabled(s, evs[0]) && CanRun(Step(s, evs[0]), evs[1..]))
  }

  ghost function Run(s: State, evs: seq<Event>): State
    requires CanRun(s, evs)
    decreases |evs|
  {
    if evs == [] then s else Run(Step(s, evs[0]), evs[1..])
  }

  lemma {:induction false} RunInv(s: State, evs: seq<Event>)
    requires Inv(s) && CanRun(s, evs)
    ensures Inv(Run(s, evs)) && Run(s, evs).keyOf == s.keyOf
    decreases |evs|
  {
    if evs != [] {
      StepInv(s, evs[0]);
      RunInv(Step(s, evs[0]), evs[1..]);
    }
  }

  /** A pointer once in an entry stays there for ever. */
  lemma {:induction false} PointerStays(s: State, evs: seq<Event>, key: nat)
    requires Inv(s) && CanRun(s, evs)
    requires key in s.entries && s.entries[key].ptr != 0
    ensures key in Run(s, evs).entries && Run(s, evs).entries[key].ptr == s.entries[key].ptr
    decreases |evs|
  {
    if evs != [] {
      StepInv(s, evs[0]);
      assert ThreadOk(s, evs[0].t);
      PointerStays(Step(s, evs[0]), evs[1..], key);
    }
  }

  // ---------- what holds of every interleaving ----------

  /** For any number of threads, caches and keys: two calls that return for the same key,
      at any two moments, return the same pointer. */
  lemma OneObjectPerKey(s: State, evs: seq<Event>, later: seq<Event>, t: nat, u: nat)
    requires Init(s) && CanRun(s, evs) && CanRun(Run(s, evs), later)
    requires t < |Run(s, evs).threads| && Run(s, evs).threads[t].Done?
    requires u < |Run(Run(s, evs), later).threads| && Run(Run(s, evs), later).threads[u].Done?
    ensures var a, b := Run(s, evs).threads[t], Run(Run(s, evs), later).threads[u];
            && a.cache < |s.keyOf| && b.cache < |s.keyOf|
            && a.ptr != 0
            && (s.keyOf[a.cache] == s.keyOf[b.cache] ==> a.ptr == b.ptr)
  {
    InitInv(s);
    RunInv(s, evs);
    var m := Run(s, evs);
    RunInv(m, later);
    var f := Run(m, later);
    assert ThreadOk(m, t) && ThreadOk(f, u);
    PointerStays(m, later, s.keyOf[m.threads[t].cache]);
  }

  /** However often `make` throws, it makes at most one object for a key. */
  lemma MadeAtMostOnce(s: State, evs: seq<Event>, key: nat)
    requires Init(s) && CanRun(s, evs) && key in Run(s, evs).entries
    ensures Makes(s, evs, key) <= 1
    ensures Run(s, evs).entries[key].ptr != 0 ==> Makes(s, evs, key) == 1
  {
    InitInv(s);
    RunInv(s, evs);
    MakesCounted(s, evs, key);
    assert EntryOk(Run(s, evs), key);
  }

  /** A call that has returned has left its pointer in the cache it went through. */
  lemma DoneIsCached(s: State, evs: seq<Event>, t: nat)
    requires Init(s) && CanRun(s, evs) && t < |Run(s, evs).threads| && Run(s, evs).threads[t].Done?
    ensures var r := Run(s, evs);
            r.threads[t].cache < |r.caches| && r.caches[r.threads[t].cache] == r.threads[t].ptr
  {
    InitInv(s);
    RunInv(s, evs);
    assert ThreadOk(Run(s, evs), t);
  }

  /** The calls of `make` for a key that return. */
  ghost function Makes(s: State, evs: seq<Event>, key: nat): nat
    requires CanRun(s, evs)
    decreases |evs|
  {
    if evs == [] then 0
    else
      (if evs[0].Make? && s.keyOf[s.threads[evs[0].t].cache] == key then 1 else 0) + Makes(Step(s, evs[0]), evs[1..], key)
  }

  ghost function MadeFor(s: State, key: nat): nat {
    if key in s.entries then s.entries[key].makes else 0
  }

  lemma {:induction false} MakesCounted(s: State, evs: seq<Event>, key: nat)
    requires CanRun(s, evs)
    ensures MadeFor(Run(s, evs), key) == MadeFor(s, key) + Makes(s, evs, key)
    decreases |evs|
  {
    if evs != [] {
      MakesCounted(Step(s, evs[0]), evs[1..], key);
    }
  }

  lemma CacheHoldsEntry(s: State, evs: seq<Event>, c: nat)
    requires Init(s) && CanRun(s, evs) && c < |Run(s, evs).caches|
    ensures var t := Run(s, evs);
            && |t.caches| == |t.keyOf|
            && (t.caches[c] != 0 ==> t.keyOf[c] in t.entries && t.caches[c] == t.entries[t.keyOf[c]].ptr)
  {
    InitInv(s);
    RunInv(s, evs);
    assert CacheOk(Run(s, evs), c);
  }
}

/** The holder of one lazily created instance: a state that turns from dead to living
    after the instance is in place, and a lock for the threads that saw it dead. */
module InstanceHolder {

  datatype Thread =
    | Idle
    | Locking            // the state was dead
    | Locked             // inside the lock
    | Making             // still dead at the second look
    | Placed             // the instance pointer is in place, the state still dead
    | Leaving            // about to leave the lock
    | Returning          // about to read the instance pointer
    | Done(ptr: nat)

  datatype State = State(living: bool, instance: nat, owner: int, makes: nat, next: nat, threads: seq<Thread>)

  const NOBODY := -1

  datatype Event = Get(t: nat) | Lock(t: nat) | LookAgain(t: nat) | Make(t: nat) | Throw(t: nat)
                 | Announce(t: nat) | Unlock(t: nat) | Return(t: nat) | Forget(t: nat)

  predicate Init(s: State) {
    !s.living && s.instance == 0 && s.owner == NOBODY && s.makes == 0 && 0 < s.next &&
    forall t :: 0 <= t < |s.threads| ==> s.threads[t] == Idle
  }

  predicate Enabled(s: State, ev: Event) {
    ev.t < |s.threads| &&
    var th := s.threads[ev.t];
    match ev
    case Get(_) => th.Idle?
    case Lock(_) => th.Locking? && s.owner == NOBODY
    case LookAgain(_) => th.Locked?
    case Make(_) => th.Making?
    case Throw(_) => th.Making?
    case Announce(_) => th.Placed?
    case Unlock(_) => th.Leaving?
    case Return(_) => th.Returning?
    case Forget(_) => th.Done?
  }

  function Step(s: State, ev: Event): State
    requires Enabled(s, ev)
  {
    var t := ev.t;
    match ev
    case Get(_) => s.(threads := s.threads[t := if s.living then Returning else Locking])
    case Lock(_) => s.(owner := t, threads := s.threads[t := Locked])
    case LookAgain(_) => s.(threads := s.threads[t := if s.living then Leaving else Making])
    case Make(_) => s.(instance := s.next, next := s.next + 1, makes := s.makes + 1, threads := s.threads[t := Placed])
    case Throw(_) => s.(owner := NOBODY, threads := s.threads[t := Idle])
    case Announce(_) => s.(living := true, threads := s.threads[t := Leaving])
    case Unlock(_) => s.(owner := NOBODY, threads := s.threads[t := Returning])
    case Return(_) => s.(threads := s.threads[t := Done(s.instance)])
    case Forget(_) => s.(threads := s.threads[t := Idle])
  }

  predicate Holds(th: Thread) {
    th.Locked? || th.Making? || th.Placed? || th.Leaving?
  }

  ghost predicate ThreadOk(s: State, t: nat)
    requires t < |s.threads|
  {
    var th := s.threads[t];
    && (Holds(th) <==> s.owner == t)
    && (th.Making? ==> !s.living && s.makes == 0)
    && (th.Placed? ==> !s.living && s.makes == 1)
    && (th.Leaving? || th.Returning? ==> s.living)
    && (th.Done? ==> s.living && th.ptr == s.instance)
  }

  ghost predicate Inv(s: State) {
    && 0 < s.next
    && (forall t :: 0 <= t < |s.threads| ==> ThreadOk(s, t))
    && s.makes <= 1
    && (s.makes == 1 <==> s.instance != 0)
    && (s.living ==> s.makes == 1)
    && (!s.living && s.makes == 1 ==> 0 <= s.owner < |s.threads| && s.threads[s.owner].Placed?)
  }

  lemma StepInv(s: State, ev: Event)
    requires Inv(s) && Enabled(s, ev)
    ensures Inv(Step(s, ev))
    ensures s.living ==> Step(s, ev).living && Step(s, ev).instance == s.instance
  {
    var t := Step(s, ev);
    assert ThreadOk(s, ev.t);
    forall x | 0 <= x < |t.threads|
      ensures ThreadOk(t, x)
    {
      assert ThreadOk(s, x);
    }
  }

  ghost predicate CanRun(s: State, evs: seq<Event>)
    decreases |evs|
  {
    evs == [] || (Enabled(s, evs[0]) && CanRun(Step(s, evs[0]), evs[1..]))
  }

  ghost function Run(s: State, evs: seq<Event>): State
    requires CanRun(s, evs)
    decreases |evs|
  {
    if evs == [] then s else Run(Step(s, evs[0]), evs[1..])
  }

  lemma {:induction false} RunInv(s: State, evs: seq<Event>)
    requires Inv(s) && CanRun(s, evs)
    ensures Inv(Run(s, evs))
    ensures s.living ==> Run(s, evs).living && Run(s, evs).instance == s.instance
    decreases |evs|
  {
    if evs != [] {
      StepInv(s, evs[0]);
      RunInv(Step(s, evs[0]), evs[1..]);
    }
  }

  function Makes(evs: seq<Event>): nat {
    if evs == [] then 0 else (if evs[0].Make? then 1 else 0) + Makes(evs[1..])
  }

  lemma {:induction false} MakesCounted(s: State, evs: seq<Event>)
    requires CanRun(s, evs)
    ensures Run(s, evs).makes == s.makes + Makes(evs)
    decreases |evs|
  {
    if evs != [] {
      MakesCounted(Step(s, evs[0]), evs[1..]);
    }
  }

  /** However the threads interleave, and whatever constructors throw, one instance is made
      at most, and all calls of `Get` that return, at any two moments, return that one. */
  lemma OneInstance(s: State, evs: seq<Event>, later: seq<Event>, t: nat, u: nat)
    requires Init(s) && CanRun(s, evs) && CanRun(Run(s, evs), later)
    requires t < |Run(s, evs).threads| && Run(s, evs).threads[t].Done?
    requires u < |Run(Run(s, evs), later).threads| && Run(Run(s, evs), later).threads[u].Done?
    ensures Makes(evs) + Makes(later) == 1
    ensures Run(s, evs).threads[t].ptr != 0
    ensures Run(Run(s, evs), later).threads[u].ptr == Run(s, evs).threads[t].ptr
  {
    RunInv(s, evs);
    RunInv(Run(s, evs), later);
    MakesCounted(s, evs);
    MakesCounted(Run(s, evs), later);
    assert ThreadOk(Run(s, evs), t) && ThreadOk(Run(Run(s, evs), later), u);
  }

  /** A thread that finds the state living finds the instance in place. */
  lemma LivingHasInstance(s: State, evs: seq<Event>)
    requires Init(s) && CanRun(s, evs)
    ensures Makes(evs) <= 1
    ensures Run(s, evs).living ==> Run(s, evs).instance != 0 && Makes(evs) == 1
  {
    RunInv(s, evs);
    MakesCounted(s, evs);
  }
}
