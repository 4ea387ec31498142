/** The abstract delay queue: tasks with the time each still has to wait, in
    firing order.  Each operation of the delta list (module DelayQueues) is
    proved to be one of the functions below. */
module TaskQueue {

  datatype Item = Item(id: nat, due: nat)

  /** `horizon` is the sum of all deltas, the sentinel's included: the time left
      until the end of the queue's clock. */
  datatype Queue = Queue(items: seq<Item>, horizon: nat)

  ghost predicate Sorted(items: seq<Item>) {
    forall i, j :: 0 <= i < j < |items| ==> items[i].due <= items[j].due
  }

  ghost predicate Valid(q: Queue) {
    && Sorted(q.items)
    && 0 < q.horizon
    && forall i :: 0 <= i < |q.items| ==> q.items[i].due < q.horizon
  }

  /** What is left of a waiting time after `e` has passed. */
  function Left(due: nat, e: nat): nat {
    if due <= e then 0 else due - e
  }

  function Lapse(q: Queue, e: nat): Queue
    requires e < q.horizon
  {
    Queue(seq(|q.items|, i requires 0 <= i < |q.items| => Item(q.items[i].id, Left(q.items[i].due, e))),
          q.horizon - e)
  }

  /** The number of leading items due at `d` or sooner. */
  function Position(items: seq<Item>, d: nat): (k: nat)
    ensures k <= |items|
    ensures forall i :: 0 <= i < k ==> items[i].due <= d
    ensures k < |items| ==> items[k].due > d
  {
    if items == [] || items[0].due > d then 0 else 1 + Position(items[1..], d)
  }

  function Enqueue(q: Queue, id: nat, d: nat): Queue {
    var k := Position(q.items, d);
    q.(items := q.items[..k] + [Item(id, d)] + q.items[k..])
  }

  /** What is waited of a delay when the walk for its place goes round the whole list:
      full rounds do not count. */
  function Waited(d: nat, horizon: nat): (w: nat)
    ensures horizon > 0 ==> w < horizon
    ensures d < horizon ==> w == d
  {
    if horizon > 0 then d % horizon else d
  }

  function Drop(q: Queue, i: nat): Queue
    requires i < |q.items|
  {
    q.(items := q.items[..i] + q.items[i + 1..])
  }

  /** The tasks a pass of the alarm loop takes out, and the queue it leaves. */
  function DueNow(q: Queue): seq<Item> {
    q.items[..Position(q.items, 0)]
  }

  function Expire(q: Queue): Queue {
    q.(items := q.items[Position(q.items, 0)..])
  }

  /** `Position` is the only split of the items around `d` in a sorted queue. */
  lemma {:induction false} PositionUnique(items: seq<Item>, d: nat, k: nat)
    requires k <= |items|
    requires forall i :: 0 <= i < k ==> items[i].due <= d
    requires k < |items| ==> items[k].due > d
    ensures k == Position(items, d)
  {
    if k > 0 {
      PositionUnique(items[1..], d, k - 1);
    }
  }

  lemma LapseValid(q: Queue, e: nat)
    requires Valid(q) && e < q.horizon
    ensures Valid(Lapse(q, e))
  {
  }

  lemma LapseNone(q: Queue)
    requires 0 < q.horizon
    ensures Lapse(q, 0) == q
  {
    assert Lapse(q, 0).items == q.items;
  }

  /** Letting time pass twice is letting the whole time pass once. */
  lemma LapseTwice(q: Queue, e: nat, f: nat)
    requires e + f < q.horizon
    ensures Lapse(Lapse(q, e), f) == Lapse(q, e + f)
  {
    assert Lapse(Lapse(q, e), f).items == Lapse(q, e + f).items;
  }

  lemma EnqueueValid(q: Queue, id: nat, d: nat)
    requires Valid(q) && d < q.horizon
    ensures Valid(Enqueue(q, id, d))
  {
    var k := Position(q.items, d);
    var items := Enqueue(q, id, d).items;
    forall i, j | 0 <= i < j < |items|
      ensures items[i].due <= items[j].due
    {
      if i < k {
        assert items[i] == q.items[i];
      }
      if j > k {
        assert items[j] == q.items[j - 1];
        assert q.items[k].due <= q.items[j - 1].due;
      }
    }
  }

  lemma EnqueueItems(q: Queue, id: nat, d: nat)
    ensures var k, items := Position(q.items, d), Enqueue(q, id, d).items;
            && |items| == |q.items| + 1
            && Enqueue(q, id, d).horizon == q.horizon
            && items[k] == Item(id, d)
            && (forall i :: 0 <= i < k ==> items[i] == q.items[i])
            && (forall i :: k < i < |items| ==> items[i] == q.items[i - 1])
            && (forall i :: k <= i < |q.items| ==> q.items[i] == items[i + 1])
  {
  }

  /** Taking out the task just added gives the queue back. */
  lemma DropUndoesEnqueue(q: Queue, id: nat, d: nat)
    ensures Drop(Enqueue(q, id, d), Position(q.items, d)) == q
  {
    var k := Position(q.items, d);
    assert q.items == q.items[..k] + q.items[k..];
  }

  /** A task is queued with the delay asked for exactly when it is below the horizon. */
  lemma WaitedAsAsked(q: Queue, id: nat, d: nat)
    requires Valid(q)
    ensures Enqueue(q, id, Waited(d, q.horizon)) == Enqueue(q, id, d) <==> d < q.horizon
  {
    if d >= q.horizon {
      assert Enqueue(q, id, d).items[Position(q.items, d)].due == d;
      EnqueueValid(q, id, Waited(d, q.horizon));
    }
  }

  /** After a pass nothing that is due is left, and nothing else was taken. */
  lemma ExpireIsExact(q: Queue)
    requires Valid(q)
    ensures Valid(Expire(q))
    ensures DueNow(q) + Expire(q).items == q.items
    ensures forall item :: item in DueNow(q) ==> item.due == 0
    ensures forall item :: item in Expire(q).items ==> item.due > 0
  {
    var k := Position(q.items, 0);
    forall item | item in Expire(q).items
      ensures item.due > 0
    {
      var i :| 0 <= i < |Expire(q).items| && Expire(q).items[i] == item;
      assert q.items[k].due <= q.items[k + i].due;
    }
  }

  lemma DueNowHead(q: Queue)
    requires |q.items| > 0 && q.items[0].due == 0
    ensures DueNow(q) == [q.items[0]] + DueNow(Drop(q, 0))
    ensures Expire(q) == Expire(Drop(q, 0))
  {
    assert Drop(q, 0).items == q.items[1..];
  }

  lemma DueNowNone(q: Queue)
    requires |q.items| == 0 || q.items[0].due > 0
    ensures DueNow(q) == [] && Expire(q) == q
  {
  }
}
