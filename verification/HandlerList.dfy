/** The descriptors as they are kept: a circular doubly-linked list through a sentinel,
    an iterator over it, and the two loops of the event loop that use one. */
module HandlerLists {
  import opened HandlerTable
  import opened DistinctSeqs

  class Descriptor {
    var fd: int
    var flags: bv32
    var proc: nat
    var next: Descriptor
    var prev: Descriptor

    /** The sentinel of a new list. */
    constructor Alone()
      ensures next == this && prev == this
    {
      fd, flags, proc := -1, 0, 0;
      next, prev := this, this;
    }

    /** A new descriptor, linked in just before the head of the list. */
    constructor Before(nextHandler: Descriptor, ghost nodes: seq<Descriptor>)
      requires Linked(nodes) && nodes[0] == nextHandler
      modifies nodes`next, nodes`prev
      ensures Linked([this] + nodes)
      ensures fd == -1 && flags == 0 && proc == 0
    {
      fd, flags, proc := -1, 0, 0;
      next := nextHandler;
      prev := nextHandler.prev;
      new;
      DistinctAt(nodes, 0);
      DistinctAt(nodes, |nodes| - 1);
      nextHandler.prev := this;
      prev.next := this;
      FrontLinks(nodes, this);
    }
  }

  ghost predicate Linked(nodes: seq<Descriptor>)
    reads nodes
  {
    && 0 < |nodes|
    && Distinct(nodes)
    && nodes[|nodes| - 1].next == nodes[0]
    && nodes[0].prev == nodes[|nodes| - 1]
    && (forall i {:trigger nodes[i].next} :: 0 <= i < |nodes| - 1 ==> nodes[i].next == nodes[i + 1])
    && (forall i {:trigger nodes[i].prev} :: 1 <= i < |nodes| ==> nodes[i].prev == nodes[i - 1])
  }

  /** The links that make `first` the head. */
  lemma FrontLinks(nodes: seq<Descriptor>, first: Descriptor)
    requires Distinct(nodes) && 0 < |nodes| && first !in nodes
    requires first.next == nodes[0] && nodes[0].prev == first
    requires first.prev == nodes[|nodes| - 1] && nodes[|nodes| - 1].next == first
    requires forall i {:trigger nodes[i].next} :: 0 <= i < |nodes| - 1 ==> nodes[i].next == nodes[i + 1]
    requires forall i {:trigger nodes[i].prev} :: 1 <= i < |nodes| ==> nodes[i].prev == nodes[i - 1]
    ensures Linked([first] + nodes)
  {
    hide Distinct;
    DistinctInsert(nodes, 0, first);
    var more := [first] + nodes;
    assert nodes[..0] + [first] + nodes[0..] == more;
    forall i | 0 <= i < |nodes|
      ensures more[i].next == more[i + 1] && more[i + 1].prev == more[i]
    {
      assert more[i + 1] == nodes[i];
      assert i > 0 ==> more[i] == nodes[i - 1];
    }
  }

  /** The links that bridge position `k`. */
  lemma BridgedLinks(nodes: seq<Descriptor>, k: nat)
    requires Distinct(nodes) && k < |nodes| - 1
    requires var p := if k == 0 then |nodes| - 1 else k - 1;
             nodes[p].next == nodes[k + 1] && nodes[k + 1].prev == nodes[p]
    requires k > 0 ==> nodes[|nodes| - 1].next == nodes[0] && nodes[0].prev == nodes[|nodes| - 1]
    requires forall i {:trigger nodes[i].next} :: 0 <= i < |nodes| - 1 && i + 1 != k && i != k ==>
      nodes[i].next == nodes[i + 1]
    requires forall i {:trigger nodes[i].prev} :: 1 <= i < |nodes| && i != k + 1 && i != k ==>
      nodes[i].prev == nodes[i - 1]
    ensures Linked(nodes[..k] + nodes[k + 1..])
  {
    hide Distinct;
    DistinctRemove(nodes, k);
    var n, rest := |nodes|, nodes[..k] + nodes[k + 1..];
    assert |rest| == n - 1;
    RemovedAt(nodes, k, n - 2);
    RemovedAt(nodes, k, 0);
    forall i | 0 <= i < n - 2
      ensures rest[i].next == rest[i + 1] && rest[i + 1].prev == rest[i]
    {
      RemovedAt(nodes, k, i);
      RemovedAt(nodes, k, i + 1);
    }
  }

  /** What the destructor does. */
  method Unlink(d: Descriptor, ghost nodes: seq<Descriptor>, ghost k: nat)
    requires Linked(nodes) && k < |nodes| - 1 && nodes[k] == d
    modifies nodes`next, nodes`prev
    ensures Linked(nodes[..k] + nodes[k + 1..])
  {
    hide Distinct;
    ghost var p := if k == 0 then |nodes| - 1 else k - 1;
    assert d.prev == nodes[p] && d.next == nodes[k + 1];
    DistinctAt(nodes, p);
    DistinctAt(nodes, k);
    DistinctAt(nodes, k + 1);
    d.next.prev := d.prev;
    d.prev.next := d.next;
    BridgedLinks(nodes, k);
  }

  /** The nodes before the sentinel show these handlers. */
  ghost predicate Shows(nodes: seq<Descriptor>, hs: seq<Handler>)
    reads nodes
  {
    |nodes| == |hs| + 1 &&
    forall i :: 0 <= i < |hs| ==> hs[i] == Handler(nodes[i].fd, nodes[i].flags, nodes[i].proc)
  }

  lemma ShowsRest(nodes: seq<Descriptor>, hs: seq<Handler>, k: nat)
    requires Shows(nodes, hs) && k < |hs|
    ensures Shows(nodes[..k] + nodes[k + 1..], hs[..k] + hs[k + 1..])
  {
  }

  /** A descriptor for `socketNum`, linked in before the head. */
  method LinkFront(head: Descriptor, socketNum: int, ghost nodes: seq<Descriptor>, ghost hs: seq<Handler>)
    returns (handler: Descriptor)
    requires Linked(nodes) && nodes[0] == head && Shows(nodes, hs)
    modifies nodes`next, nodes`prev
    ensures fresh(handler) && Linked([handler] + nodes)
    ensures Shows([handler] + nodes, [Handler(socketNum, 0, 0)] + hs)
  {
    hide Distinct;
    handler := new Descriptor.Before(head, nodes);
    handler.fd := socketNum;
  }

  /** The descriptor at `k` is deleted. */
  method UnlinkShown(d: Descriptor, ghost nodes: seq<Descriptor>, ghost hs: seq<Handler>, ghost k: nat)
    requires Linked(nodes) && Shows(nodes, hs) && k < |hs| && nodes[k] == d
    modifies nodes`next, nodes`prev
    ensures Linked(nodes[..k] + nodes[k + 1..])
    ensures var rest := nodes[..k] + nodes[k + 1..];
            Shows(rest, hs[..k] + hs[k + 1..]) && rest[|rest| - 1] == nodes[|nodes| - 1]
  {
    hide Distinct, Linked;
    Unlink(d, nodes, k);
    ShowsRest(nodes, hs, k);
  }

  lemma FrontUnique(hs: seq<Handler>, fd: int)
    requires Unique(hs) && fd > 0 && Lookup(hs, fd) == |hs|
    ensures Unique([Handler(fd, 0, 0)] + hs)
  {
    hide Lookup;
    AssignUnique(hs, fd, 0, 0);
  }

  lemma UpdateUnique(hs: seq<Handler>, k: nat, flags: bv32, proc: nat)
    requires Unique(hs) && k < |hs|
    ensures Unique(hs[k := Handler(hs[k].fd, flags, proc)])
  {
  }

  class HandlerSet {
    const handlers: Descriptor
    ghost var ring: seq<Descriptor>   // the descriptors in list order, the sentinel last
    ghost var hs: seq<Handler>        // what they hold

    /** A ring through the sentinel, with at most one descriptor for a socket. */
    ghost predicate Valid()
      reads this, ring
    {
      Linked(ring) && ring[|ring| - 1] == handlers && Shows(ring, hs) && Unique(hs)
    }

    constructor ()
      ensures Valid() && hs == [] && fresh(handlers)
    {
      handlers := new Descriptor.Alone();
      new;
      ring, hs := [handlers], [];
    }

    method LookupHandler(socketNum: int) returns (handler: Descriptor?)
      requires Valid()
      ensures var k := Lookup(hs, socketNum);
              if k < |hs| then handler == ring[k] else handler == null
    {
      hide Distinct, Lookup, Unique;
      var iter := new HandlerIterator(this);
      ghost var k := 0;
      handler := iter.Next(k);
      while handler != null && handler.fd != socketNum
        invariant Valid() && iter.ourSet == this && fresh(iter)
        invariant handler == null <==> k == |hs|
        invariant handler != null ==> k < |hs| && handler == ring[k] && iter.nextPtr == ring[k + 1]
        invariant k <= |hs| && forall i :: 0 <= i < k ==> hs[i].fd != socketNum
        decreases |hs| - k
        modifies iter
      {
        k := k + 1;
        handler := iter.Next(k);
      }
      FirstIsLookup(hs, socketNum, k);
    }

    /** A descriptor for a socket that has none, linked in as the head. */
    method AddDescriptor(socketNum: int) returns (handler: Descriptor)
      requires Valid() && socketNum > 0 && Lookup(hs, socketNum) == |hs|
      modifies this`ring, this`hs, ring
      ensures Valid() && fresh(handler) && handler !in old(ring) && ring == [handler] + old(ring)
      ensures hs == [Handler(socketNum, 0, 0)] + old(hs)
    {
      hide Distinct, Unique, Lookup, Shows;
      FrontUnique(hs, socketNum);
      handler := LinkFront(handlers.next, socketNum, ring, hs);
      ring := [handler] + ring;
      hs := [Handler(socketNum, 0, 0)] + hs;
    }

    /** The flags and the procedure of the descriptor at place `k`. */
    method SetFlagsAndProc(handler: Descriptor, conditionSet: bv32, handlerProc: nat, ghost k: nat)
      requires Valid() && k < |hs| && handler == ring[k]
      modifies this`hs, handler`flags, handler`proc
      ensures Valid() && hs == old(hs)[k := Handler(old(hs)[k].fd, conditionSet, handlerProc)]
    {
      hide Distinct, Unique;
      DistinctAt(ring, k);
      UpdateUnique(hs, k, conditionSet, handlerProc);
      handler.flags := conditionSet;
      handler.proc := handlerProc;
      hs := hs[k := Handler(handler.fd, conditionSet, handlerProc)];
    }

    method AssignHandler(socketNum: int, conditionSet: bv32, handlerProc: nat)
      requires Valid()
      modifies this`ring, this`hs, ring
      ensures Valid() && hs == Assign(old(hs), socketNum, conditionSet, handlerProc)
      ensures ring == old(ring) || (|ring| > 0 && ring[0] !in old(ring) && ring == [ring[0]] + old(ring))
    {
      hide Distinct, Lookup, Linked, Unique;
      if socketNum <= 0 {
        return;
      }
      var handler := LookupHandler(socketNum);
      ghost var k := Lookup(hs, socketNum);
      if handler == null {
        handler := AddDescriptor(socketNum);
        k := 0;
      } else {
        assert handler == ring[k];
      }
      SetFlagsAndProc(handler, conditionSet, handlerProc, k);
    }

    method RemoveHandler(socketNum: int)
      requires Valid()
      modifies this`ring, this`hs, ring
      ensures Valid() && hs == Remove(old(hs), socketNum)
      ensures var k := Lookup(old(hs), socketNum);
              ring == if k < |old(hs)| then old(ring)[..k] + old(ring)[k + 1..] else old(ring)
    {
      hide Distinct, Lookup, Unique, Linked;
      var handler := LookupHandler(socketNum);
      RemoveUnique(hs, socketNum);
      if handler != null {
        ghost var k := Lookup(hs, socketNum);
        UnlinkShown(handler, ring, hs, k);
        ring, hs := ring[..k] + ring[k + 1..], hs[..k] + hs[k + 1..];
      }
    }
  }

  lemma FirstIsLookup(hs: seq<Handler>, fd: int, k: nat)
    requires k <= |hs| && forall i :: 0 <= i < k ==> hs[i].fd != fd
    requires k < |hs| ==> hs[k].fd == fd
    ensures Lookup(hs, fd) == k
  {
  }

  class HandlerIterator {
    const ourSet: HandlerSet
    var nextPtr: Descriptor

    constructor (handlerSet: HandlerSet)
      requires handlerSet.Valid()
      ensures ourSet == handlerSet && nextPtr == handlerSet.ring[0]
    {
      ourSet := handlerSet;
      nextPtr := handlerSet.handlers.next;
    }

    /** `k` is where the iterator stands. */
    method Next(ghost k: nat) returns (result: Descriptor?)
      requires ourSet.Valid() && k < |ourSet.ring| && nextPtr == ourSet.ring[k]
      modifies this
      ensures result == if k < |ourSet.hs| then ourSet.ring[k] else null
      ensures nextPtr == if k < |ourSet.hs| then ourSet.ring[k + 1] else old(nextPtr)
    {
      DistinctAt(ourSet.ring, k);
      result := nextPtr;
      if result == ourSet.handlers {
        result := null;
      } else {
        nextPtr := nextPtr.next;
      }
    }
  }

  // ---------- the loops around select ----------

  /** The descriptors with one of the given flags among the first `n` handlers. */
  function Asking(hs: seq<Handler>, flag: bv32, n: nat): set<int>
    requires n <= |hs|
  {
    set i | 0 <= i < n && hs[i].flags & flag != 0 :: hs[i].fd
  }

  lemma AskingNext(hs: seq<Handler>, flag: bv32, n: nat)
    requires n < |hs|
    ensures Asking(hs, flag, n + 1) ==
            Asking(hs, flag, n) + (if hs[n].flags & flag != 0 then {hs[n].fd} else {})
  {
  }

  lemma EmptyAsking(hs: seq<Handler>)
    ensures Asking(hs, HIT_READ, 0) == Asking(hs, HIT_WRITE, 0) == Asking(hs, HIT_EXCEP, 0) == {}
    ensures Largest(0, {}, {}, {})
  {
  }

  /** The combined flag is set when one of the three is. */
  lemma TestIsAny(f: bv32)
    ensures f & HIT_TEST == 0 <==> f & HIT_READ == 0 && f & HIT_WRITE == 0 && f & HIT_EXCEP == 0
  {
  }

  /** `res` is no smaller than any member of the three sets, and one of them unless they
      are empty. */
  ghost predicate Largest(res: int, r: set<int>, w: set<int>, e: set<int>) {
    (forall fd :: fd in r || fd in w || fd in e ==> fd <= res) &&
    (res == 0 || res in r || res in w || res in e)
  }

  lemma LargestNext(res: int, r: set<int>, w: set<int>, e: set<int>, h: Handler)
    requires Largest(res, r, w, e)
    ensures
      var one := {h.fd};
      Largest(if h.flags & HIT_TEST != 0 && res < h.fd then h.fd else res,
              r + (if h.flags & HIT_READ != 0 then one else {}),
              w + (if h.flags & HIT_WRITE != 0 then one else {}),
              e + (if h.flags & HIT_EXCEP != 0 then one else {}))
  {
    TestIsAny(h.flags);
  }

  /** The descriptor sets handed to `select`, and the largest descriptor in them. */
  method SetupHandleSet(set_: HandlerSet) returns (res: int, rfds: set<int>, wfds: set<int>, efds: set<int>)
    requires set_.Valid()
    ensures var n := |set_.hs|;
            && rfds == Asking(set_.hs, HIT_READ, n)
            && wfds == Asking(set_.hs, HIT_WRITE, n)
            && efds == Asking(set_.hs, HIT_EXCEP, n)
    ensures Largest(res, rfds, wfds, efds)
  {
    hide Distinct, Linked, Unique, Largest, Asking;
    EmptyAsking(set_.hs);
    rfds, wfds, efds := {}, {}, {};
    res := 0;
    var iter := new HandlerIterator(set_);
    ghost var k := 0;
    var dec := iter.Next(k);
    while dec != null
      invariant set_.Valid() && iter.ourSet == set_ && fresh(iter)
      invariant dec == null <==> k == |set_.hs|
      invariant dec != null ==> k < |set_.hs| && dec == set_.ring[k] && iter.nextPtr == set_.ring[k + 1]
      invariant k <= |set_.hs|
      invariant rfds == Asking(set_.hs, HIT_READ, k)
      invariant wfds == Asking(set_.hs, HIT_WRITE, k)
      invariant efds == Asking(set_.hs, HIT_EXCEP, k)
      invariant Largest(res, rfds, wfds, efds)
      decreases |set_.hs| - k
      modifies iter
    {
      AskingNext(set_.hs, HIT_READ, k);
      AskingNext(set_.hs, HIT_WRITE, k);
      AskingNext(set_.hs, HIT_EXCEP, k);
      LargestNext(res, rfds, wfds, efds, set_.hs[k]);
      TestIsAny(dec.flags);
      if dec.flags & HIT_TEST != 0 {
        if res < dec.fd {
          res := dec.fd;
        }
        if dec.flags & HIT_READ != 0 {
          rfds := rfds + {dec.fd};
        }
        if dec.flags & HIT_WRITE != 0 {
          wfds := wfds + {dec.fd};
        }
        if dec.flags & HIT_EXCEP != 0 {
          efds := efds + {dec.fd};
        }
      }
      k := k + 1;
      dec := iter.Next(k);
    }
  }

  /** The procedures called, with the events they are told, in list order. */
  function Calls(hs: seq<Handler>, r: set<int>, w: set<int>, e: set<int>): seq<(nat, bv32)> {
    if hs == [] then []
    else
      var h := hs[|hs| - 1];
      Calls(hs[..|hs| - 1], r, w, e) + (if Wanted(h, r, w, e) then [(h.proc, Events(h.fd, r, w, e))] else [])
  }

  lemma CallsNone(r: set<int>, w: set<int>, e: set<int>)
    ensures Calls([], r, w, e) == []
  {
  }

  lemma CallsNext(hs: seq<Handler>, k: nat, r: set<int>, w: set<int>, e: set<int>, events: bv32)
    requires k < |hs| && events == Events(hs[k].fd, r, w, e)
    ensures Calls(hs[..k + 1], r, w, e) ==
            Calls(hs[..k], r, w, e) + (if Hits(events, hs[k].flags) then [(hs[k].proc, events)] else [])
  {
    hide Events, Hits;
    assert hs[..k + 1][..k] == hs[..k];
  }

  /** The events gathered one flag at a time. */
  lemma EventsAre(fd: int, r: set<int>, w: set<int>, e: set<int>)
    ensures var a: bv32 := if fd in r then 0 | HIT_READ else 0;
            var b := if fd in w then a | HIT_WRITE else a;
            Events(fd, r, w, e) == if fd in e then b | HIT_EXCEP else b
  {
    OneByOne(fd in r, fd in w, fd in e);
  }

  lemma OneByOne(r: bool, w: bool, e: bool)
    ensures var a: bv32 := if r then 0 | 1 else 0;
            var b := if w then a | 2 else a;
            (if r then 1 else 0) | (if w then 2 else 0) | (if e then 4 else 0) == if e then b | 4 else b
  {
  }

  method GatherEvents(fd: int, r: set<int>, w: set<int>, e: set<int>) returns (resultEvents: bv32)
    ensures resultEvents == Events(fd, r, w, e)
  {
    hide Events;
    resultEvents := 0;
    if fd in r {
      resultEvents := resultEvents | HIT_READ;
    }
    if fd in w {
      resultEvents := resultEvents | HIT_WRITE;
    }
    if fd in e {
      resultEvents := resultEvents | HIT_EXCEP;
    }
    EventsAre(fd, r, w, e);
  }

  /** A pass whose procedures leave the list alone. */
  method CallHandlers(set_: HandlerSet, r: set<int>, w: set<int>, e: set<int>) returns (calls: seq<(nat, bv32)>)
    requires set_.Valid()
    ensures calls == Calls(set_.hs, r, w, e)
  {
    hide Distinct, Linked, Unique, Events, Calls, Wanted, Hits;
    CallsNone(r, w, e);
    calls := [];
    var iter := new HandlerIterator(set_);
    ghost var k := 0;
    var dec := iter.Next(k);
    while dec != null
      invariant set_.Valid() && iter.ourSet == set_ && fresh(iter)
      invariant dec == null <==> k == |set_.hs|
      invariant dec != null ==> k < |set_.hs| && dec == set_.ring[k] && iter.nextPtr == set_.ring[k + 1]
      invariant k <= |set_.hs| && calls == Calls(set_.hs[..k], r, w, e)
      decreases |set_.hs| - k
      modifies iter
    {
      var resultEvents := GatherEvents(dec.fd, r, w, e);
      if Hits(resultEvents, dec.flags) {
        calls := calls + [(dec.proc, resultEvents)];
      }
      CallsNext(set_.hs, k, r, w, e, resultEvents);
      k := k + 1;
      dec := iter.Next(k);
    }
    assert set_.hs[..k] == set_.hs;
  }

  /** The places of the handlers called. */
  function Called(hs: seq<Handler>, r: set<int>, w: set<int>, e: set<int>): seq<nat> {
    if hs == [] then []
    else Called(hs[..|hs| - 1], r, w, e) + (if Wanted(hs[|hs| - 1], r, w, e) then [|hs| - 1] else [])
  }

  lemma {:induction false} CalledAscending(hs: seq<Handler>, r: set<int>, w: set<int>, e: set<int>)
    ensures forall i :: 0 <= i < |Called(hs, r, w, e)| ==>
              Called(hs, r, w, e)[i] < |hs| && Wanted(hs[Called(hs, r, w, e)[i]], r, w, e)
    ensures forall i, j :: 0 <= i < j < |Called(hs, r, w, e)| ==> Called(hs, r, w, e)[i] < Called(hs, r, w, e)[j]
  {
    hide Wanted;
    if hs != [] {
      CalledAscending(hs[..|hs| - 1], r, w, e);
    }
  }

  lemma {:induction false} CalledAll(hs: seq<Handler>, r: set<int>, w: set<int>, e: set<int>, k: nat)
    requires k < |hs| && Wanted(hs[k], r, w, e)
    ensures k in Called(hs, r, w, e)
  {
    hide Wanted;
    if k < |hs| - 1 {
      CalledAll(hs[..|hs| - 1], r, w, e, k);
    }
  }

  lemma {:induction false} CallsAt(hs: seq<Handler>, r: set<int>, w: set<int>, e: set<int>)
    ensures var places, calls := Called(hs, r, w, e), Calls(hs, r, w, e);
            && |calls| == |places|
            && (forall i :: 0 <= i < |places| ==>
                  places[i] < |hs| && calls[i] == (hs[places[i]].proc, Events(hs[places[i]].fd, r, w, e)))
  {
    hide Wanted, Events;
    if hs != [] {
      CallsAt(hs[..|hs| - 1], r, w, e);
    }
  }

  /** The calls a pass makes are one for each handler that asked for something that
      happened, with all that happened, in the order of the list. */
  lemma CallsExactly(hs: seq<Handler>, r: set<int>, w: set<int>, e: set<int>)
    ensures var places, calls := Called(hs, r, w, e), Calls(hs, r, w, e);
            && |calls| == |places|
            && (forall i, j :: 0 <= i < j < |places| ==> places[i] < places[j])
            && (forall k :: k in places <==> 0 <= k < |hs| && Wanted(hs[k], r, w, e))
            && (forall i :: 0 <= i < |places| ==>
                  places[i] < |hs| && calls[i] == (hs[places[i]].proc, Events(hs[places[i]].fd, r, w, e)))
  {
    hide Wanted, Events, Called, Calls;
    CalledAscending(hs, r, w, e);
    CallsAt(hs, r, w, e);
    forall k: nat | k < |hs| && Wanted(hs[k], r, w, e)
      ensures k in Called(hs, r, w, e)
    {
      CalledAll(hs, r, w, e, k);
    }
  }
}
