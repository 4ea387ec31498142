/** The descriptors the event loop watches, as a list of (fd, flags, procedure) in the
    order an iterator returns them, newest first. */
module HandlerTable {

  const HIT_READ: bv32 := 1
  const HIT_WRITE: bv32 := 2
  const HIT_EXCEP: bv32 := 4
  const HIT_TEST: bv32 := 7

  /** Procedure zero is the empty function. */
  datatype Handler = Handler(fd: int, flags: bv32, proc: nat)

  /** The first position with this descriptor, or the length of the list. */
  function Lookup(hs: seq<Handler>, fd: int): (k: nat)
    ensures k <= |hs|
    ensures k < |hs| ==> hs[k].fd == fd
    ensures forall i :: 0 <= i < k ==> hs[i].fd != fd
  {
    if hs == [] || hs[0].fd == fd then 0 else 1 + Lookup(hs[1..], fd)
  }

  function Assign(hs: seq<Handler>, fd: int, flags: bv32, proc: nat): seq<Handler> {
    var k := Lookup(hs, fd);
    if fd <= 0 then hs
    else if k < |hs| then hs[k := Handler(fd, flags, proc)]
    else [Handler(fd, flags, proc)] + hs
  }

  function Remove(hs: seq<Handler>, fd: int): seq<Handler> {
    var k := Lookup(hs, fd);
    if k < |hs| then hs[..k] + hs[k + 1..] else hs
  }

  /** One handler for a descriptor, and only for positive ones. */
  ghost predicate Unique(hs: seq<Handler>) {
    && (forall i :: 0 <= i < |hs| ==> hs[i].fd > 0)
    && (forall i, j :: 0 <= i < j < |hs| ==> hs[i].fd != hs[j].fd)
  }

  /** The list as a map. */
  function AsMap(hs: seq<Handler>): map<int, (bv32, nat)> {
    map i: int | i in Fds(hs) && Lookup(hs, i) < |hs| ::
      var h := hs[Lookup(hs, i)]; (h.flags, h.proc)
  }

  function Fds(hs: seq<Handler>): set<int> {
    set i | 0 <= i < |hs| :: hs[i].fd
  }

  lemma LookupAt(hs: seq<Handler>, i: nat)
    requires Unique(hs) && i < |hs|
    ensures Lookup(hs, hs[i].fd) == i
  {
  }

  lemma InMap(hs: seq<Handler>, fd: int)
    requires Unique(hs)
    ensures fd in AsMap(hs) <==> Lookup(hs, fd) < |hs|
    ensures fd in AsMap(hs) ==> AsMap(hs)[fd] == (hs[Lookup(hs, fd)].flags, hs[Lookup(hs, fd)].proc)
  {
    var k := Lookup(hs, fd);
    if k < |hs| {
      assert hs[k].fd in Fds(hs);
    }
  }

  /** Assigning a positive descriptor keeps one handler for each and updates the map
      there and nowhere else; any other descriptor is ignored. */
  lemma AssignUpdates(hs: seq<Handler>, fd: int, flags: bv32, proc: nat)
    requires Unique(hs)
    ensures Unique(Assign(hs, fd, flags, proc))
    ensures AsMap(Assign(hs, fd, flags, proc)) ==
            if fd <= 0 then AsMap(hs) else AsMap(hs)[fd := (flags, proc)]
  {
    if fd > 0 {
      hide Lookup, Assign, Unique, AsMap;
      AssignLookup(hs, fd, flags, proc, fd);
      var after, goal := Assign(hs, fd, flags, proc), AsMap(hs)[fd := (flags, proc)];
      forall x: int
        ensures x in AsMap(after) <==> x in goal
        ensures x in AsMap(after) ==> AsMap(after)[x] == goal[x]
      {
        AssignLookup(hs, fd, flags, proc, x);
        InMap(hs, x);
        InMap(after, x);
      }
      assert AsMap(after) == goal;
    }
  }

  lemma AssignLookup(hs: seq<Handler>, fd: int, flags: bv32, proc: nat, x: int)
    requires Unique(hs) && fd > 0
    ensures var after := Assign(hs, fd, flags, proc);
            && Unique(after)
            && (Lookup(after, x) < |after| <==> x == fd || Lookup(hs, x) < |hs|)
            && (Lookup(after, x) < |after| ==>
                  after[Lookup(after, x)] == if x == fd then Handler(fd, flags, proc) else hs[Lookup(hs, x)])
  {
    hide Lookup, Assign, Unique;
    AssignUnique(hs, fd, flags, proc);
    var after, k := Assign(hs, fd, flags, proc), Lookup(hs, fd);
    var j := Lookup(hs, x);
    if x == fd {
      LookupAt(after, if k < |hs| then k else 0);
    } else if j < |hs| {
      LookupAt(after, if k < |hs| then j else j + 1);
    } else {
      AssignAbsent(hs, fd, flags, proc, x);
    }
  }

  lemma AssignAbsent(hs: seq<Handler>, fd: int, flags: bv32, proc: nat, x: int)
    requires fd > 0 && x != fd && Lookup(hs, x) == |hs|
    ensures Lookup(Assign(hs, fd, flags, proc), x) == |Assign(hs, fd, flags, proc)|
  {
    hide Lookup;
    var after, k := Assign(hs, fd, flags, proc), Lookup(hs, fd);
    forall i | 0 <= i < |after|
      ensures after[i].fd != x
    {
      assert after[i].fd == fd || after[i] == hs[if k < |hs| then i else i - 1];
    }
  }

  lemma AssignUnique(hs: seq<Handler>, fd: int, flags: bv32, proc: nat)
    requires Unique(hs) && fd > 0
    ensures Unique(Assign(hs, fd, flags, proc))
    ensures var k, after := Lookup(hs, fd), Assign(hs, fd, flags, proc);
            && |after| == (if k < |hs| then |hs| else |hs| + 1)
            && (forall i :: 0 <= i < |hs| && i != k ==> after[if k < |hs| then i else i + 1] == hs[i])
            && after[if k < |hs| then k else 0] == Handler(fd, flags, proc)
  {
    hide Lookup;
    var k := Lookup(hs, fd);
    if k < |hs| {
      LookupAt(hs, k);
    } else {
      var after := [Handler(fd, flags, proc)] + hs;
      assert forall i :: 1 <= i < |after| ==> after[i] == hs[i - 1];
    }
  }

  lemma RemoveUnique(hs: seq<Handler>, fd: int)
    requires Unique(hs)
    ensures Unique(Remove(hs, fd))
    ensures var k, after := Lookup(hs, fd), Remove(hs, fd);
            && |after| == (if k < |hs| then |hs| - 1 else |hs|)
            && (forall i :: 0 <= i < |after| ==> after[i] == hs[if i < k then i else i + 1])
  {
    hide Lookup;
  }

  lemma RemoveLookup(hs: seq<Handler>, fd: int, x: int)
    requires Unique(hs)
    ensures var after := Remove(hs, fd);
            && Unique(after)
            && (Lookup(after, x) < |after| <==> x != fd && Lookup(hs, x) < |hs|)
            && (Lookup(after, x) < |after| ==> after[Lookup(after, x)] == hs[Lookup(hs, x)])
  {
    hide Lookup, Remove;
    RemoveUnique(hs, fd);
    var after, k, j := Remove(hs, fd), Lookup(hs, fd), Lookup(hs, x);
    if x != fd && j < |hs| {
      LookupAt(after, if j < k then j else j - 1);
    } else {
      forall i | 0 <= i < |after|
        ensures after[i].fd != x
      {
        assert after[i] == hs[if i < k then i else i + 1];
      }
    }
  }

  /** Removing takes exactly that descriptor out of the map. */
  lemma RemoveDeletes(hs: seq<Handler>, fd: int)
    requires Unique(hs)
    ensures Unique(Remove(hs, fd))
    ensures AsMap(Remove(hs, fd)) == AsMap(hs) - {fd}
  {
    hide Lookup, Remove, Unique, AsMap;
    var after, goal := Remove(hs, fd), AsMap(hs) - {fd};
    RemoveLookup(hs, fd, fd);
    forall x: int
      ensures x in AsMap(after) <==> x in goal
      ensures x in AsMap(after) ==> AsMap(after)[x] == goal[x]
    {
      RemoveLookup(hs, fd, x);
      InMap(hs, x);
      InMap(after, x);
    }
    assert AsMap(after) == goal;
  }

  // ---------- select ----------

  /** What `select` reported for a descriptor. */
  function Events(fd: int, r: set<int>, w: set<int>, e: set<int>): bv32 {
    (if fd in r then HIT_READ else 0) | (if fd in w then HIT_WRITE else 0) | (if fd in e then HIT_EXCEP else 0)
  }

  predicate Hits(events: bv32, flags: bv32) {
    events & flags != 0
  }

  predicate Wanted(h: Handler, r: set<int>, w: set<int>, e: set<int>) {
    Hits(Events(h.fd, r, w, e), h.flags)
  }

  /** A handler is called exactly when something it asked for has happened. */
  lemma WantedIff(h: Handler, r: set<int>, w: set<int>, e: set<int>)
    ensures Wanted(h, r, w, e) <==>
            || (h.fd in r && h.flags & HIT_READ != 0)
            || (h.fd in w && h.flags & HIT_WRITE != 0)
            || (h.fd in e && h.flags & HIT_EXCEP != 0)
  {
    BitsApart(h.flags, h.fd in r, h.fd in w, h.fd in e);
  }

  lemma BitsApart(f: bv32, r: bool, w: bool, e: bool)
    ensures (((if r then 1 else 0) | (if w then 2 else 0) | (if e then 4 else 0)) & f) != (0 as bv32) <==>
            (r && f & 1 != 0) || (w && f & 2 != 0) || (e && f & 4 != 0)
  {
  }
}

/** A pass of an iterator over the linked list while the procedures it leads to change
    the list.  The nodes are told apart by identity; the sentinel is the last one. */
module IteratorPass {
  import opened DistinctSeqs

  /** `ring` is the list, `next` the node the iterator will return, `visited` those it
      has returned; `original` is the list at the start, `seen` every node there ever
      was, and `skipped` the nodes deleted before they were returned. */
  datatype Pass<!T> = Pass(ring: seq<T>, next: T, visited: seq<T>, original: seq<T>, seen: set<T>, skipped: set<T>)

  datatype Event<T> = Next | Delete(node: T) | Add(node: T)

  ghost predicate Start<T>(p: Pass<T>) {
    && Distinct(p.ring) && |p.ring| > 0 && p.next == p.ring[0]
    && p.visited == [] && p.original == p.ring && p.skipped == {}
    && (forall x :: x in p.ring ==> x in p.seen)
  }

  predicate AtEnd<T(==)>(p: Pass<T>) {
    |p.ring| > 0 && p.next == p.ring[|p.ring| - 1]
  }

  function Place<T(==)>(xs: seq<T>, x: T): (k: nat)
    ensures k <= |xs|
    ensures k < |xs| ==> xs[k] == x
    ensures k == |xs| ==> x !in xs
    ensures forall i :: 0 <= i < k ==> xs[i] != x
  {
    if xs == [] || xs[0] == x then 0 else 1 + Place(xs[1..], x)
  }

  /** A procedure may delete any descriptor but the one the iterator stands on. */
  ghost predicate Enabled<T>(p: Pass<T>, ev: Event<T>) {
    match ev
    case Next => p.next in p.ring && !AtEnd(p)
    case Delete(x) => |p.ring| > 0 && x in p.ring && x != p.ring[|p.ring| - 1] && x != p.next
    case Add(x) => x !in p.seen
  }

  ghost function Step<T>(p: Pass<T>, ev: Event<T>): Pass<T>
    requires Enabled(p, ev)
  {
    match ev
    case Next =>
      var k := Place(p.ring, p.next);
      p.(next := p.ring[k + 1], visited := p.visited + [p.next])
    case Delete(x) =>
      var k := Place(p.ring, x);
      p.(ring := p.ring[..k] + p.ring[k + 1..],
         skipped := if x in p.visited || x !in p.original then p.skipped else p.skipped + {x})
    case Add(x) => p.(ring := [x] + p.ring, seen := p.seen + {x})
  }

  /** The nodes that are not in `gone`. */
  ghost function Kept<T>(xs: seq<T>, gone: set<T>): seq<T> {
    if xs == [] then []
    else if xs[|xs| - 1] in gone then Kept(xs[..|xs| - 1], gone)
    else Kept(xs[..|xs| - 1], gone) + [xs[|xs| - 1]]
  }

  lemma {:induction false} KeptMembers<T>(xs: seq<T>, gone: set<T>)
    ensures forall x :: x in Kept(xs, gone) <==> x in xs && x !in gone
    ensures Distinct(xs) ==> Distinct(Kept(xs, gone))
  {
    if xs != [] {
      var n := |xs| - 1;
      KeptMembers(xs[..n], gone);
      assert xs == xs[..n] + [xs[n]];
      if xs[n] !in gone {
        assert Kept(xs, gone)[..|Kept(xs, gone)| - 1] == Kept(xs[..n], gone);
      }
    }
  }

  lemma {:induction false} KeptAll<T>(xs: seq<T>)
    ensures Kept(xs, {}) == xs
  {
    if xs != [] {
      KeptAll(xs[..|xs| - 1]);
    }
  }

  /** Taking one more node out of the kept ones. */
  lemma {:induction false} KeptWithout<T>(xs: seq<T>, gone: set<T>, k: nat)
    requires Distinct(xs) && k < |Kept(xs, gone)|
    ensures Kept(xs, gone + {Kept(xs, gone)[k]}) == Kept(xs, gone)[..k] + Kept(xs, gone)[k + 1..]
  {
    var n := |xs| - 1;
    var front, last, x := Kept(xs[..n], gone), xs[n], Kept(xs, gone)[k];
    KeptMembers(xs[..n], gone);
    if k < |front| {
      KeptWithout(xs[..n], gone, k);
      assert x == front[k] && x in front && x != last;
      if last !in gone {
        assert (front + [last])[..k] + (front + [last])[k + 1..] == (front[..k] + front[k + 1..]) + [last];
      }
    } else {
      assert x == last && last !in gone;
      KeptUnaffected(xs[..n], gone, last);
      assert (front + [last])[..k] + (front + [last])[k + 1..] == front;
    }
  }

  lemma {:induction false} KeptUnaffected<T>(xs: seq<T>, gone: set<T>, x: T)
    requires x !in xs
    ensures Kept(xs, gone + {x}) == Kept(xs, gone)
  {
    if xs != [] {
      KeptUnaffected(xs[..|xs| - 1], gone, x);
    }
  }

  /** What was returned, followed by the list from `next` on, is the original list
      without the nodes deleted before their turn. */
  ghost predicate Inv<T>(p: Pass<T>) {
    && |p.ring| > 0 && Distinct(p.ring) && Distinct(p.original) && p.next in p.ring
    && (forall x :: x in p.ring ==> x in p.seen)
    && (forall x :: x in p.original ==> x in p.seen)
    && p.visited + p.ring[Place(p.ring, p.next)..] == Kept(p.original, p.skipped)
  }

  lemma StartInv<T>(p: Pass<T>)
    requires Start(p)
    ensures Inv(p)
  {
    KeptAll(p.original);
    assert p.ring[Place(p.ring, p.next)..] == p.ring;
  }

  lemma PlaceIs<T>(xs: seq<T>, k: nat)
    requires Distinct(xs) && k < |xs|
    ensures Place(xs, xs[k]) == k
  {
    DistinctAt(xs, k);
  }

  lemma NextInv<T>(p: Pass<T>)
    requires Inv(p) && Enabled(p, Next)
    ensures Inv(Step(p, Next))
    ensures Place(p.ring, Step(p, Next).next) == Place(p.ring, p.next) + 1
  {
    hide Place, Distinct, Kept;
    var k := Place(p.ring, p.next);
    PlaceIs(p.ring, k + 1);
    assert p.ring[k..] == [p.next] + p.ring[k + 1..];
    assert p.visited + ([p.next] + p.ring[k + 1..]) == (p.visited + [p.next]) + p.ring[k + 1..];
  }

  lemma AddInv<T>(p: Pass<T>, x: T)
    requires Inv(p) && Enabled(p, Add(x))
    ensures Inv(Step(p, Add(x)))
    ensures Place(Step(p, Add(x)).ring, p.next) == Place(p.ring, p.next) + 1
  {
    var t, k := Step(p, Add(x)), Place(p.ring, p.next);
    DistinctInsert(p.ring, 0, x);
    assert p.ring[..0] + [x] + p.ring[0..] == t.ring;
    assert t.ring[k + 1] == p.next;
    PlaceIs(t.ring, k + 1);
    assert t.ring[k + 1..] == p.ring[k..];
  }

  /** Deleting a node the iterator has passed. */
  lemma DeletePassedInv<T>(p: Pass<T>, x: T)
    requires Inv(p) && Enabled(p, Delete(x)) && Place(p.ring, x) < Place(p.ring, p.next)
    ensures Inv(Step(p, Delete(x)))
    ensures Place(Step(p, Delete(x)).ring, p.next) == Place(p.ring, p.next) - 1
  {
    hide Kept, Place, Distinct;
    var k, d := Place(p.ring, p.next), Place(p.ring, x);
    var ring := p.ring[..d] + p.ring[d + 1..];
    DistinctRemove(p.ring, d);
    PassedNode(p, d);
    RemovedAt(p.ring, d, k - 1);
    PlaceIs(ring, k - 1);
    assert ring[k - 1..] == p.ring[k..];
    assert x in p.skipped ==> p.skipped + {x} == p.skipped;
    RemovedMembers(p.ring, d);
  }

  lemma RemovedMembers<T>(xs: seq<T>, d: nat)
    requires d < |xs|
    ensures forall x :: x in xs[..d] + xs[d + 1..] ==> x in xs
  {
  }

  /** Deleting a node whose turn has not come. */
  lemma DeleteAheadInv<T>(p: Pass<T>, x: T)
    requires Inv(p) && Enabled(p, Delete(x)) && Place(p.ring, x) > Place(p.ring, p.next)
    ensures Inv(Step(p, Delete(x)))
    ensures Place(Step(p, Delete(x)).ring, p.next) == Place(p.ring, p.next)
  {
    hide Kept, Place, Distinct;
    var k, d := Place(p.ring, p.next), Place(p.ring, x);
    var ring := p.ring[..d] + p.ring[d + 1..];
    var all, n := p.visited + p.ring[k..], |p.visited| + (d - k);
    DistinctRemove(p.ring, d);
    RemovedAt(p.ring, d, k);
    PlaceIs(ring, k);
    RemovedMembers(p.ring, d);
    assert all[n] == x;
    AheadNotVisited(p, all, n);
    KeptWithout(p.original, p.skipped, n);
    assert p.visited + ring[k..] == all[..n] + all[n + 1..];
  }

  /** A node ahead is an original one and was not returned yet. */
  lemma AheadNotVisited<T>(p: Pass<T>, all: seq<T>, n: nat)
    requires Inv(p) && all == Kept(p.original, p.skipped) && |p.visited| <= n < |all|
    requires all == p.visited + p.ring[Place(p.ring, p.next)..]
    ensures all[n] !in p.visited && all[n] in p.original
  {
    hide Kept, Place;
    KeptMembers(p.original, p.skipped);
    DistinctAt(all, n);
    assert all[n] in all;
    assert forall i :: 0 <= i < |p.visited| ==> p.visited[i] == all[i];
  }

  lemma DeleteInv<T>(p: Pass<T>, x: T)
    requires Inv(p) && Enabled(p, Delete(x))
    ensures Inv(Step(p, Delete(x)))
  {
    if Place(p.ring, x) < Place(p.ring, p.next) {
      DeletePassedInv(p, x);
    } else {
      DeleteAheadInv(p, x);
    }
  }

  /** A node in front of the iterator's was returned already, or is not an original. */
  lemma PassedNode<T>(p: Pass<T>, d: nat)
    requires Inv(p) && d < Place(p.ring, p.next)
    ensures p.ring[d] in p.visited || p.ring[d] !in p.original || p.ring[d] in p.skipped
  {
    var k, x := Place(p.ring, p.next), p.ring[d];
    KeptMembers(p.original, p.skipped);
    if x in p.original && x !in p.skipped {
      assert x in p.visited + p.ring[k..];
      if x in p.ring[k..] {
        var i :| k <= i < |p.ring| && p.ring[i] == x;
        DistinctAt(p.ring, i);
      }
    }
  }

  lemma StepInv<T>(p: Pass<T>, ev: Event<T>)
    requires Inv(p) && Enabled(p, ev)
    ensures Inv(Step(p, ev))
  {
    match ev
    case Next => NextInv(p);
    case Delete(x) => DeleteInv(p, x);
    case Add(x) => AddInv(p, x);
  }

  ghost predicate CanRun<T>(p: Pass<T>, evs: seq<Event<T>>)
    decreases |evs|
  {
    evs == [] || (Enabled(p, evs[0]) && CanRun(Step(p, evs[0]), evs[1..]))
  }

  ghost function Run<T>(p: Pass<T>, evs: seq<Event<T>>): Pass<T>
    requires CanRun(p, evs)
    decreases |evs|
  {
    if evs == [] then p else Run(Step(p, evs[0]), evs[1..])
  }

  lemma {:induction false} RunInv<T>(p: Pass<T>, evs: seq<Event<T>>)
    requires Inv(p) && CanRun(p, evs)
    ensures Inv(Run(p, evs)) && Run(p, evs).original == p.original
    decreases |evs|
  {
    if evs != [] {
      StepInv(p, evs[0]);
      RunInv(Step(p, evs[0]), evs[1..]);
    }
  }

  function Visits<T>(evs: seq<Event<T>>): nat {
    if evs == [] then 0 else (if evs[0].Next? then 1 else 0) + Visits(evs[1..])
  }

  /** Only deleted nodes are skipped, and every return is a visit. */
  lemma {:induction false} RunRecords<T>(p: Pass<T>, evs: seq<Event<T>>)
    requires CanRun(p, evs)
    ensures forall x :: x in Run(p, evs).skipped ==> x in p.skipped || Delete(x) in evs
    ensures |Run(p, evs).visited| == |p.visited| + Visits(evs)
    decreases |evs|
  {
    hide Place;
    if evs != [] {
      RunRecords(Step(p, evs[0]), evs[1..]);
      assert evs == [evs[0]] + evs[1..];
    }
  }

  /** The node is in the list no more, and was not returned. */
  ghost predicate Gone<T>(p: Pass<T>, x: T) {
    x !in p.ring && x in p.seen && x !in p.visited
  }

  lemma {:induction false} StaysGone<T>(p: Pass<T>, evs: seq<Event<T>>, x: T)
    requires Inv(p) && CanRun(p, evs) && Gone(p, x)
    ensures x !in Run(p, evs).visited
    decreases |evs|
  {
    if evs != [] {
      StepInv(p, evs[0]);
      StaysGone(Step(p, evs[0]), evs[1..], x);
    }
  }

  /** A node deleted before its turn is not returned later. */
  lemma DeletedIsNotVisited<T>(p: Pass<T>, evs: seq<Event<T>>, x: T, more: seq<Event<T>>)
    requires Start(p) && CanRun(p, evs) && Enabled(Run(p, evs), Delete(x))
    requires CanRun(Step(Run(p, evs), Delete(x)), more)
    requires x !in Run(p, evs).visited
    ensures x !in Run(Step(Run(p, evs), Delete(x)), more).visited
  {
    hide Kept;
    StartInv(p);
    RunInv(p, evs);
    var q := Run(p, evs);
    StepInv(q, Delete(x));
    RemovedGone(q, x);
    StaysGone(Step(q, Delete(x)), more, x);
  }

  lemma RemovedGone<T>(p: Pass<T>, x: T)
    requires Inv(p) && Enabled(p, Delete(x))
    ensures x !in Step(p, Delete(x)).ring
  {
    DistinctAt(p.ring, Place(p.ring, x));
  }

  /** However procedures delete descriptors other than the one the iterator stands on,
      and add new ones, a pass that has come to its end has returned exactly the
      original descriptors not deleted before their turn: each once, in order, and no
      added one.  (The sentinel closes both lists.) */
  lemma PassVisitsOriginals<T>(p: Pass<T>, evs: seq<Event<T>>)
    requires Start(p) && CanRun(p, evs) && AtEnd(Run(p, evs))
    ensures var t := Run(p, evs);
            && t.visited + [t.next] == Kept(p.original, t.skipped)
            && Distinct(t.visited)
            && (forall x :: x in t.visited ==> x in p.original && x !in t.skipped)
            && (forall x :: x in t.skipped ==> Delete(x) in evs)
            && |t.visited| == Visits(evs)
  {
    StartInv(p);
    RunInv(p, evs);
    RunRecords(p, evs);
    AtEndVisited(Run(p, evs));
  }

  lemma AtEndVisited<T>(t: Pass<T>)
    requires Inv(t) && AtEnd(t)
    ensures t.visited + [t.next] == Kept(t.original, t.skipped)
    ensures Distinct(t.visited)
    ensures forall x :: x in t.visited ==> x in t.original && x !in t.skipped
  {
    KeptMembers(t.original, t.skipped);
    PlaceIs(t.ring, |t.ring| - 1);
    var all := t.visited + [t.next];
    assert t.ring[|t.ring| - 1..] == [t.next];
    assert all[..|all| - 1] == t.visited;
    assert Distinct(all);
    assert forall x :: x in t.visited ==> x in all;
  }

  /** Every pass ends: the iterator returns no more descriptors than there are from its
      own position on. */
  lemma {:induction false} PassEnds<T>(p: Pass<T>, evs: seq<Event<T>>)
    requires Inv(p) && CanRun(p, evs)
    ensures Visits(evs) + Place(p.ring, p.next) < |p.ring|
    decreases |evs|
  {
    if evs != [] {
      StepInv(p, evs[0]);
      PassEnds(Step(p, evs[0]), evs[1..]);
      StepDistance(p, evs[0]);
    }
  }

  /** Only returning a descriptor brings the iterator nearer to the end; nothing takes
      it away. */
  lemma StepDistance<T>(p: Pass<T>, ev: Event<T>)
    requires Inv(p) && Enabled(p, ev)
    ensures var t := Step(p, ev);
            |t.ring| - Place(t.ring, t.next) + (if ev.Next? then 1 else 0) <= |p.ring| - Place(p.ring, p.next)
  {
    hide Kept, Place, Inv, Distinct;
    match ev
    case Next => NextInv(p);
    case Delete(x) =>
      if Place(p.ring, x) < Place(p.ring, p.next) {
        DeletePassedInv(p, x);
      } else {
        DeleteAheadInv(p, x);
      }
    case Add(x) => AddInv(p, x);
  }

  /** The list without a node, whichever it is. */
  ghost function Unlinked<T>(p: Pass<T>, x: T): Pass<T>
    requires x in p.ring
  {
    var k := Place(p.ring, x);
    p.(ring := p.ring[..k] + p.ring[k + 1..])
  }

  /** The condition on deletions is exact: what a deletion leaves has the node that the
      iterator will return next if and only if that was not the node deleted.  Otherwise
      the iterator goes on from a node that is in the list no more. */
  lemma CursorStaysIff<T>(p: Pass<T>, x: T)
    requires Inv(p) && x in p.ring
    ensures p.next in Unlinked(p, x).ring <==> x != p.next
    ensures Enabled(p, Delete(x)) ==> Unlinked(p, x).ring == Step(p, Delete(x)).ring
  {
    hide Place, Distinct, Kept, Inv;
    var d := Place(p.ring, x);
    InvDistinct(p);
    DistinctAt(p.ring, d);
    if x != p.next {
      var k := Place(p.ring, p.next);
      RemovedAt(p.ring, d, if k < d then k else k - 1);
    } else {
      ElementGone(p.ring, d);
    }
  }

  lemma InvDistinct<T>(p: Pass<T>)
    requires Inv(p)
    ensures Distinct(p.ring) && p.next in p.ring
  {
  }

  lemma ElementGone<T>(xs: seq<T>, d: nat)
    requires d < |xs| && forall i :: 0 <= i < |xs| && i != d ==> xs[i] != xs[d]
    ensures xs[d] !in xs[..d] + xs[d + 1..]
  {
  }
}
