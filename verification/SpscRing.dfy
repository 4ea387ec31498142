/** The ring shared by one producer thread and one consumer thread.  Values live in
    the slots after `read`, up to and including `write`, cyclically. */
module SpscRing {

  datatype Ring<T> = Ring(data: seq<T>, read: nat, write: nat) {

    predicate Fits() {
      2 <= |data| && read < |data| && write < |data|
    }

    /** The number of live slots. */
    function Count(): (n: nat)
      requires Fits()
      ensures n < |data|
    {
      if read <= write then write - read else write + |data| - read
    }

    /** The slot `i` places after `read`. */
    function Slot(i: nat): (k: nat)
      requires Fits() && i <= |data|
      ensures k < |data|
    {
      if read + i < |data| then read + i else read + i - |data|
    }

    /** The live values, oldest first. */
    function Live(): (vs: seq<T>)
      requires Fits()
      ensures |vs| == Count()
      ensures forall i :: 0 <= i < |vs| ==> vs[i] == data[Slot(i + 1)]
    {
      seq(Count(), i requires 0 <= i < Count() => data[Slot(i + 1)])
    }
  }

  function Succ(i: nat, size: nat): nat {
    if i + 1 == size then 0 else i + 1
  }

  /** The producer inside a call of `Push`. */
  datatype Producer<T> =
    | Outside
    | Loaded(item: T, own: nat)                // own index loaded
    | Admitted(item: T, next: nat)             // the other index left room
    | Stored(item: T, next: nat)               // the slot is written

  /** The consumer inside a call of `Get` or `popFront`. */
  datatype Consumer<T> =
    | Away
    | Looking(own: nat)                        // own index loaded
    | Holding(own: nat, next: nat)             // the other index showed a value
    | Took(own: nat, next: nat, value: T)      // the value is moved out
    | Passed(own: nat, next: nat)              // `popFront`: the value is left where it is
    | Cleared(own: nat, next: nat, value: T)   // the old slot is destroyed

  /** Both threads, the ring, and the history: all values published and consumed. */
  datatype State<T> = State(ring: Ring<T>, prod: Producer<T>, cons: Consumer<T>, pushed: seq<T>, got: seq<T>)

  datatype Action<T> =
    | PushLoad(item: T) | PushCheck | PushStore | PushPublish
    | GetLoad | GetCheck | GetTake | PopSkip | GetDestroy | GetPublish

  predicate Init<T(==)>(s: State<T>) {
    s.ring.Fits() && s.ring.read == s.ring.write == 0 &&
    s.prod == Outside && s.cons == Away && s.pushed == [] && s.got == []
  }

  predicate Enabled<T>(s: State<T>, a: Action<T>) {
    match a
    case PushLoad(_) => s.prod.Outside?
    case PushCheck => s.prod.Loaded?
    case PushStore => s.prod.Admitted? && s.prod.next < |s.ring.data|
    case PushPublish => s.prod.Stored?
    case GetLoad => s.cons.Away?
    case GetCheck => s.cons.Looking?
    case GetTake => s.cons.Holding? && s.cons.next < |s.ring.data|
    case PopSkip => s.cons.Holding?
    case GetDestroy => s.cons.Took? || (s.cons.Passed? && s.cons.next < |s.ring.data|)
    case GetPublish => s.cons.Cleared?
  }

  /** One atomic step.  A failed check ends the call with the result `false`. */
  function Step<T>(s: State<T>, a: Action<T>): State<T>
    requires Enabled(s, a)
  {
    var size := |s.ring.data|;
    match a
    case PushLoad(item) => s.(prod := Loaded(item, s.ring.write))
    case PushCheck =>
      var next := Succ(s.prod.own, size);
      if next != s.ring.read then s.(prod := Admitted(s.prod.item, next)) else s.(prod := Outside)
    case PushStore =>
      s.(ring := s.ring.(data := s.ring.data[s.prod.next := s.prod.item]),
         prod := Stored(s.prod.item, s.prod.next))
    case PushPublish =>
      s.(ring := s.ring.(write := s.prod.next), prod := Outside, pushed := s.pushed + [s.prod.item])
    case GetLoad => s.(cons := Looking(s.ring.read))
    case GetCheck =>
      if s.cons.own == s.ring.write then s.(cons := Away)
      else s.(cons := Holding(s.cons.own, Succ(s.cons.own, size)))
    case GetTake => s.(cons := Took(s.cons.own, s.cons.next, s.ring.data[s.cons.next]))
    case PopSkip => s.(cons := Passed(s.cons.own, s.cons.next))
    case GetDestroy =>
      s.(cons := Cleared(s.cons.own, s.cons.next,
                         if s.cons.Took? then s.cons.value else s.ring.data[s.cons.next]))
    case GetPublish =>
      s.(ring := s.ring.(read := s.cons.next), cons := Away, got := s.got + [s.cons.value])
  }

  // ---------- what every step keeps ----------

  ghost predicate ProducerOk<T>(s: State<T>)
    requires s.ring.Fits()
  {
    match s.prod
    case Outside => true
    case Loaded(_, own) => own == s.ring.write
    case Admitted(_, next) => next == Succ(s.ring.write, |s.ring.data|) && next != s.ring.read
    case Stored(item, next) =>
      next == Succ(s.ring.write, |s.ring.data|) && next != s.ring.read && s.ring.data[next] == item
  }

  ghost predicate ConsumerOk<T>(s: State<T>)
    requires s.ring.Fits()
  {
    match s.cons
    case Away => true
    case Looking(own) => own == s.ring.read
    case Holding(own, next) => AtFront(s.ring, own, next)
    case Took(own, next, value) => AtFront(s.ring, own, next) && value == s.ring.data[next]
    case Passed(own, next) => AtFront(s.ring, own, next)
    case Cleared(own, next, value) => AtFront(s.ring, own, next) && value == s.ring.data[next]
  }

  /** The ring is not empty, and its oldest value is in slot `next`. */
  predicate AtFront<T>(r: Ring<T>, own: nat, next: nat)
    requires r.Fits()
  {
    own == r.read && r.read != r.write && next == Succ(r.read, |r.data|)
  }

  /** The consumed values followed by the live slots are the published values. */
  ghost predicate Fifo<T>(s: State<T>)
    requires s.ring.Fits()
  {
    s.got + s.ring.Live() == s.pushed
  }

  ghost predicate Inv<T>(s: State<T>) {
    s.ring.Fits() && ProducerOk(s) && ConsumerOk(s) && Fifo(s)
  }

  lemma InitInv<T>(s: State<T>)
    requires Init(s)
    ensures Inv(s)
  {
  }

  /** Publishing the next slot puts its value at the end of the live values. */
  lemma LiveGrows<T>(r: Ring<T>)
    requires r.Fits() && Succ(r.write, |r.data|) != r.read
    ensures var t := r.(write := Succ(r.write, |r.data|));
            t.Fits() && t.Live() == r.Live() + [r.data[Succ(r.write, |r.data|)]]
  {
    var t := r.(write := Succ(r.write, |r.data|));
    assert t.Count() == r.Count() + 1;
    assert forall i :: 0 <= i <= |r.data| ==> t.Slot(i) == r.Slot(i);
    assert r.Slot(r.Count() + 1) == Succ(r.write, |r.data|);
  }

  /** Advancing `read` takes the oldest value off the live ones. */
  lemma LiveShrinks<T>(r: Ring<T>)
    requires r.Fits() && r.read != r.write
    ensures var t := r.(read := Succ(r.read, |r.data|));
            t.Fits() && |r.Live()| > 0 && t.Live() == r.Live()[1..] && r.Live()[0] == r.data[Succ(r.read, |r.data|)]
  {
    var t := r.(read := Succ(r.read, |r.data|));
    assert t.Count() == r.Count() - 1;
    assert forall i :: 0 <= i < |r.data| ==> t.Slot(i) == r.Slot(i + 1);
  }

  /** Writing the slot after `write` touches no live slot. */
  lemma LiveUntouched<T>(r: Ring<T>, v: T)
    requires r.Fits() && Succ(r.write, |r.data|) != r.read
    ensures var t := r.(data := r.data[Succ(r.write, |r.data|) := v]);
            t.Fits() && t.Live() == r.Live()
  {
    var t := r.(data := r.data[Succ(r.write, |r.data|) := v]);
    assert forall i :: 1 <= i <= r.Count() ==> t.Slot(i) == r.Slot(i) != Succ(r.write, |r.data|);
  }

  lemma ProducerStepInv<T>(s: State<T>, a: Action<T>)
    requires Inv(s) && Enabled(s, a) && ByProducer(a)
    ensures Inv(Step(s, a))
  {
    hide Ring.Live;
    match a
    case PushStore => LiveUntouched(s.ring, s.prod.item);
    case PushPublish => LiveGrows(s.ring);
    case _ =>
  }

  lemma ConsumerStepInv<T>(s: State<T>, a: Action<T>)
    requires Inv(s) && Enabled(s, a) && !ByProducer(a)
    ensures Inv(Step(s, a))
  {
    hide Ring.Live;
    match a
    case GetPublish =>
      LiveShrinks(s.ring);
      assert s.got + s.ring.Live() == (s.got + [s.ring.Live()[0]]) + s.ring.Live()[1..];
    case _ =>
  }

  lemma StepInv<T>(s: State<T>, a: Action<T>)
    requires Inv(s) && Enabled(s, a)
    ensures Inv(Step(s, a))
  {
    hide Inv, Enabled, Step;
    if ByProducer(a) {
      ProducerStepInv(s, a);
    } else {
      ConsumerStepInv(s, a);
    }
  }

  predicate CanRun<T>(s: State<T>, trace: seq<Action<T>>)
    decreases |trace|
  {
    trace == [] || (Enabled(s, trace[0]) && CanRun(Step(s, trace[0]), trace[1..]))
  }

  function Run<T>(s: State<T>, trace: seq<Action<T>>): State<T>
    requires CanRun(s, trace)
    decreases |trace|
  {
    if trace == [] then s else Run(Step(s, trace[0]), trace[1..])
  }

  lemma {:induction false} RunInv<T>(s: State<T>, trace: seq<Action<T>>)
    requires Inv(s) && CanRun(s, trace)
    ensures Inv(Run(s, trace))
    decreases |trace|
  {
    if trace != [] {
      StepInv(s, trace[0]);
      RunInv(Step(s, trace[0]), trace[1..]);
    }
  }

  // ---------- what holds of every interleaving ----------

  /** The values passed to those calls of `Push` that come to publish; `hand` is what the
      call in progress was given. */
  function Published<T>(hand: seq<T>, trace: seq<Action<T>>): seq<T>
    decreases |trace|
  {
    if trace == [] then []
    else if trace[0].PushLoad? then Published([trace[0].item], trace[1..])
    else if trace[0].PushPublish? then hand + Published([], trace[1..])
    else Published(hand, trace[1..])
  }

  /** How many calls of `Get` and `popFront` came to publish. */
  function Freed<T>(trace: seq<Action<T>>): nat {
    if trace == [] then 0 else (if trace[0].GetPublish? then 1 else 0) + Freed(trace[1..])
  }

  ghost predicate InHand<T>(p: Producer<T>, hand: seq<T>) {
    p != Outside ==> hand == [p.item]
  }

  /** The history is what the calls did: what was published is what was passed to `Push`,
      in order. */
  lemma {:induction false} RunHistory<T>(s: State<T>, hand: seq<T>, trace: seq<Action<T>>)
    requires CanRun(s, trace) && InHand(s.prod, hand)
    ensures Run(s, trace).pushed == s.pushed + Published(hand, trace)
    ensures |Run(s, trace).got| == |s.got| + Freed(trace)
    decreases |trace|
  {
    if trace != [] {
      var a, t := trace[0], Step(s, trace[0]);
      var next := if a.PushLoad? then [a.item] else if a.PushPublish? then [] else hand;
      RunHistory(t, next, trace[1..]);
      if a.PushPublish? {
        assert s.pushed + (hand + Published([], trace[1..])) == (s.pushed + hand) + Published([], trace[1..]);
      }
    }
  }

  /** In every interleaving, what was consumed so far followed by what is in the ring
      is exactly what was published so far: nothing is lost, doubled or reordered. */
  lemma FirstInFirstOut<T>(s: State<T>, trace: seq<Action<T>>)
    requires Init(s) && CanRun(s, trace)
    ensures var t := Run(s, trace);
            t.ring.Fits() && t.got + t.ring.Live() == t.pushed == Published([], trace) && |t.got| == Freed(trace)
  {
    InitInv(s);
    RunInv(s, trace);
    RunHistory(s, [], trace);
  }

  ghost predicate Writing<T>(s: State<T>, slot: nat) {
    (s.prod.Admitted? || s.prod.Stored?) && s.prod.next == slot
  }

  /** The consumer may still read or destroy this slot in the call it is in. */
  ghost predicate Touching<T>(s: State<T>, slot: nat) {
    !s.cons.Away? && !s.cons.Looking? && (s.cons.own == slot || s.cons.next == slot)
  }

  /** In every interleaving the slot the producer writes before it publishes is
      neither live nor one the consumer reads or destroys. */
  lemma NoSlotShared<T>(s: State<T>, trace: seq<Action<T>>, slot: nat)
    requires Init(s) && CanRun(s, trace)
    requires Writing(Run(s, trace), slot)
    ensures var t := Run(s, trace);
            && t.ring.Fits() && slot < |t.ring.data|
            && !Touching(t, slot)
            && forall i :: 0 <= i <= t.ring.Count() ==> t.ring.Slot(i) != slot
  {
    InitInv(s);
    RunInv(s, trace);
    var r := Run(s, trace).ring;
    if r.read != r.write {
      assert Succ(r.read, |r.data|) == r.Slot(1);
    }
  }

  /** `Push` answers false exactly when size - 1 values are live at its look at `read`. */
  lemma PushFailsIffFull<T>(s: State<T>, trace: seq<Action<T>>)
    requires Init(s) && CanRun(s, trace)
    requires Run(s, trace).prod.Loaded?
    ensures var t := Run(s, trace);
            t.ring.Fits() && (Step(t, PushCheck).prod.Outside? <==> |t.ring.Live()| == |t.ring.data| - 1)
  {
    InitInv(s);
    RunInv(s, trace);
  }

  /** `Get` answers false exactly when no value is live at its look at `write`. */
  lemma GetFailsIffEmpty<T>(s: State<T>, trace: seq<Action<T>>)
    requires Init(s) && CanRun(s, trace)
    requires Run(s, trace).cons.Looking?
    ensures var t := Run(s, trace);
            t.ring.Fits() && (Step(t, GetCheck).cons.Away? <==> t.ring.Live() == [])
  {
    InitInv(s);
    RunInv(s, trace);
  }

  // ---------- the size estimate ----------

  const TWO_TO_32: int := 0x1_0000_0000
  const TWO_TO_31: int := 0x8000_0000
  const TWO_TO_64: int := 0x1_0000_0000_0000_0000

  function ToUnsigned(x: int): int
    requires -TWO_TO_32 <= x < 2 * TWO_TO_32
  {
    if x < 0 then x + TWO_TO_32 else if x >= TWO_TO_32 then x - TWO_TO_32 else x
  }

  function ToSigned(u: int): int
    requires 0 <= u < TWO_TO_32
  {
    if u < TWO_TO_31 then u else u - TWO_TO_32
  }

  /** `GuestSize`: unsigned subtraction, a signed test, an unsigned addition, and the
      widening of the signed result to the 64-bit return type. */
  function GuestSize(read: nat, write: nat, size: nat): int
    requires read < size && write < size < TWO_TO_32
  {
    var res := ToSigned(ToUnsigned(write - read));
    var res' := if res < 0 then ToSigned(ToUnsigned(res + size)) else res;
    if res' < 0 then res' + TWO_TO_64 else res'
  }

  /** The estimate is the number of live slots exactly when that number fits a signed
      32-bit integer and `read` is not more than 2^31 ahead of `write`. */
  lemma GuestSizeExact<T>(r: Ring<T>)
    requires r.Fits() && |r.data| < TWO_TO_32
    ensures GuestSize(r.read, r.write, |r.data|) == r.Count() <==>
            r.Count() < TWO_TO_31 && r.read - r.write <= TWO_TO_31
  {
  }

  /** Rings of at most 2^31 slots are always measured right. */
  lemma GuestSizeSmallRing<T>(r: Ring<T>)
    requires r.Fits() && |r.data| <= TWO_TO_31
    ensures GuestSize(r.read, r.write, |r.data|) == r.Count()
  {
    GuestSizeExact(r);
  }

  predicate ByProducer<T>(a: Action<T>) {
    a.PushLoad? || a.PushCheck? || a.PushStore? || a.PushPublish?
  }

  lemma StepCount<T>(s: State<T>, a: Action<T>)
    requires Inv(s) && Enabled(s, a)
    ensures var t := Step(s, a);
            && t.ring.Fits() && |t.ring.data| == |s.ring.data|
            && if ByProducer(a) then t.ring.read == s.ring.read && s.ring.Count() <= t.ring.Count()
               else t.ring.write == s.ring.write && t.ring.Count() <= s.ring.Count()
  {
  }

  /** The consumer's estimate, made of `write` as it was and its own `read`, is at
      most the true size: while it looks, only the producer can move. */
  lemma {:induction false} ConsumerEstimate<T>(s: State<T>, trace: seq<Action<T>>)
    requires Inv(s) && CanRun(s, trace) && |s.ring.data| <= TWO_TO_31
    requires forall a :: a in trace ==> ByProducer(a)
    ensures var t := Run(s, trace);
            && t.ring.Fits() && |t.ring.data| == |s.ring.data| && t.ring.read == s.ring.read
            && GuestSize(t.ring.read, s.ring.write, |s.ring.data|) <= t.ring.Count()
    decreases |trace|
  {
    if trace == [] {
      GuestSizeSmallRing(s.ring);
    } else {
      var m := Step(s, trace[0]);
      StepInv(s, trace[0]);
      StepCount(s, trace[0]);
      ConsumerEstimate(m, trace[1..]);
      GuestSizeSmallRing(s.ring);
      GuestSizeSmallRing(m.ring);
    }
  }

  /** The producer's estimate, made of its own `write` and `read` as it was, is at
      least the true size. */
  lemma {:induction false} ProducerEstimate<T>(s: State<T>, trace: seq<Action<T>>)
    requires Inv(s) && CanRun(s, trace) && |s.ring.data| <= TWO_TO_31
    requires forall a :: a in trace ==> !ByProducer(a)
    ensures var t := Run(s, trace);
            && t.ring.Fits() && |t.ring.data| == |s.ring.data| && t.ring.write == s.ring.write
            && GuestSize(s.ring.read, t.ring.write, |s.ring.data|) >= t.ring.Count()
    decreases |trace|
  {
    if trace == [] {
      GuestSizeSmallRing(s.ring);
    } else {
      var m := Step(s, trace[0]);
      StepInv(s, trace[0]);
      StepCount(s, trace[0]);
      ProducerEstimate(m, trace[1..]);
      GuestSizeSmallRing(s.ring);
      GuestSizeSmallRing(m.ring);
    }
  }

  // ---------- calls that are not interrupted ----------

  function Quiet<T>(r: Ring<T>): State<T> {
    State(r, Outside, Away, [], [])
  }

  /** The steps of one call of `Push` with nothing in between. */
  function PushAlone<T>(r: Ring<T>, item: T): State<T>
    requires r.Fits()
  {
    var s := Step(Step(Quiet(r), PushLoad(item)), PushCheck);
    if s.prod.Outside? then s else Step(Step(s, PushStore), PushPublish)
  }

  /** The steps of one call of `Get` (or, with `keep` false, `popFront`) with nothing
      in between. */
  function GetAlone<T>(r: Ring<T>, keep: bool): State<T>
    requires r.Fits()
  {
    var s := Step(Step(Quiet(r), GetLoad), GetCheck);
    if s.cons.Away? then s
    else Step(Step(Step(s, if keep then GetTake else PopSkip), GetDestroy), GetPublish)
  }

  class FastQueue<T(0)> {
    const data: array<T>
    var readIndex: nat
    var writeIndex: nat

    ghost predicate Valid()
      reads this, data
    {
      View().Fits()
    }

    ghost function View(): Ring<T>
      reads this, data
    {
      Ring(data[..], readIndex, writeIndex)
    }

    constructor (size: nat)
      requires 2 <= size
      ensures Valid() && fresh(data) && data.Length == size && View().Live() == []
    {
      data := new T[size];
      readIndex, writeIndex := 0, 0;
    }

    method Push(value: T) returns (ok: bool)
      requires Valid()
      modifies this`writeIndex, data
      ensures Valid() && readIndex == old(readIndex)
      ensures ok <==> |old(View().Live())| < data.Length - 1
      ensures View().Live() == if ok then old(View().Live()) + [value] else old(View().Live())
      ensures View() == PushAlone(old(View()), value).ring
    {
      var nextPos := writeIndex + 1;
      if nextPos == data.Length {
        nextPos := 0;
      }
      if nextPos != readIndex {
        LiveUntouched(View(), value);
        data[nextPos] := value;
        LiveGrows(View());
        writeIndex := nextPos;
        return true;
      }
      return false;
    }

    method Get(value: T) returns (ok: bool, out: T)
      requires Valid()
      modifies this`readIndex
      ensures Valid() && writeIndex == old(writeIndex)
      ensures ok <==> old(View().Live()) != []
      ensures ok ==> out == old(View().Live())[0] && View().Live() == old(View().Live())[1..]
      ensures !ok ==> out == value && View() == old(View())
      ensures View() == GetAlone(old(View()), true).ring
    {
      if readIndex == writeIndex {
        return false, value;
      }
      var nextPos := readIndex + 1;
      if nextPos == data.Length {
        nextPos := 0;
      }
      LiveShrinks(View());
      out := data[nextPos];
      readIndex := nextPos;
      return true, out;
    }

    method PopFront()
      requires Valid() && View().Live() != []
      modifies this`readIndex
      ensures Valid() && writeIndex == old(writeIndex)
      ensures View().Live() == old(View().Live())[1..]
      ensures View() == GetAlone(old(View()), false).ring
    {
      var nextPos := readIndex + 1;
      if nextPos == data.Length {
        nextPos := 0;
      }
      LiveShrinks(View());
      readIndex := nextPos;
    }

    method IsEmpty() returns (empty: bool)
      requires Valid()
      ensures empty <==> View().Live() == []
    {
      empty := readIndex == writeIndex;
    }

    method IsFull() returns (full: bool)
      requires Valid()
      ensures full <==> |View().Live()| == data.Length - 1
    {
      var nextPos := writeIndex + 1;
      if nextPos == data.Length {
        nextPos := 0;
      }
      full := nextPos == readIndex;
    }
  }
}
