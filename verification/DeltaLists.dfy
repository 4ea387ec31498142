/** The arithmetic of the delta list, on the sequence of stored deltas: prefix sums
    are remaining times, and what the walks of `synchronize`, `AddEntry` and
    `RemoveEntry` do to the deltas is what the operations of module TaskQueue do to
    the remaining times. */
module DeltaLists {
  import opened Timevals
  import opened TaskQueue
  import opened Arithmetic

  /** The sum of the first `n` deltas. */
  ghost function Prefix(ds: seq<nat>, n: nat): nat
    requires n <= |ds|
  {
    if n == 0 then 0 else Prefix(ds, n - 1) + ds[n - 1]
  }

  /** The abstract queue of a list of deltas, the sentinel's coming last. */
  ghost function Abstract(ids: seq<nat>, ds: seq<nat>): Queue
    requires |ds| == |ids| + 1
  {
    Queue(seq(|ids|, i requires 0 <= i < |ids| => Item(ids[i], Prefix(ds, i + 1))), Prefix(ds, |ds|))
  }

  lemma {:induction false} PrefixMonotone(ds: seq<nat>, m: nat, n: nat)
    requires m <= n <= |ds|
    ensures Prefix(ds, m) <= Prefix(ds, n)
  {
    if m < n {
      PrefixMonotone(ds, m, n - 1);
    }
  }

  // ---------- synchronize ----------

  /** Deltas after `synchronize`: the first `k` are used up and the next one pays
      what is left of the elapsed time. */
  ghost function Paid(ds: seq<nat>, k: nat, e: nat): seq<nat>
    requires k < |ds| && Prefix(ds, k) <= e < Prefix(ds, k + 1)
  {
    seq(|ds|, i requires 0 <= i < |ds| =>
      if i < k then 0 else if i == k then Prefix(ds, k + 1) - e else ds[i])
  }

  lemma {:induction false} PaidPrefix(ds: seq<nat>, k: nat, e: nat, n: nat)
    requires k < |ds| && Prefix(ds, k) <= e < Prefix(ds, k + 1)
    requires n <= |ds|
    ensures Prefix(Paid(ds, k, e), n) == Left(Prefix(ds, n), e)
  {
    if n > 0 {
      PaidPrefix(ds, k, e, n - 1);
      if n - 1 < k {
        PrefixMonotone(ds, n, k);
      } else if n - 1 > k {
        PrefixMonotone(ds, k + 1, n - 1);
      }
    }
  }

  /** Paying off `e` along the list is letting `e` pass for every task. */
  lemma PaidIsLapse(ids: seq<nat>, ds: seq<nat>, k: nat, e: nat)
    requires |ds| == |ids| + 1
    requires k < |ds| && Prefix(ds, k) <= e < Prefix(ds, k + 1)
    ensures e < Prefix(ds, |ds|)
    ensures Abstract(ids, Paid(ds, k, e)) == Lapse(Abstract(ids, ds), e)
  {
    PrefixMonotone(ds, k + 1, |ds|);
    forall n | 0 <= n <= |ds|
      ensures Prefix(Paid(ds, k, e), n) == Left(Prefix(ds, n), e)
    {
      PaidPrefix(ds, k, e, n);
    }
  }

  // ---------- adding ----------

  /** Deltas after a node due after `d` is put in before position `k`. */
  ghost function Split(ds: seq<nat>, k: nat, d: nat): (es: seq<nat>)
    requires k < |ds| && Prefix(ds, k) <= d < Prefix(ds, k + 1)
    ensures |es| == |ds| + 1
    ensures forall i :: 0 <= i < k ==> es[i] == ds[i]
    ensures es[k] == d - Prefix(ds, k) && es[k + 1] == Prefix(ds, k + 1) - d
    ensures forall i :: k + 1 < i < |es| ==> es[i] == ds[i - 1]
  {
    ds[..k] + [d - Prefix(ds, k), Prefix(ds, k + 1) - d] + ds[k + 1..]
  }

  lemma {:induction false} SplitPrefix(ds: seq<nat>, k: nat, d: nat, n: nat)
    requires k < |ds| && Prefix(ds, k) <= d < Prefix(ds, k + 1)
    requires n <= |ds| + 1
    ensures Prefix(Split(ds, k, d), n) ==
            if n <= k then Prefix(ds, n) else if n == k + 1 then d else Prefix(ds, n - 1)
  {
    if n > 0 {
      SplitPrefix(ds, k, d, n - 1);
    }
  }

  lemma SplitPosition(ids: seq<nat>, ds: seq<nat>, k: nat, d: nat)
    requires |ds| == |ids| + 1 && k < |ds|
    requires Prefix(ds, k) <= d < Prefix(ds, k + 1)
    ensures Position(Abstract(ids, ds).items, d) == k
  {
    var items := Abstract(ids, ds).items;
    forall i | 0 <= i < k
      ensures items[i].due <= d
    {
      PrefixMonotone(ds, i + 1, k);
    }
    PositionUnique(items, d, k);
  }

  /** Splitting the delta at the place the walk stops is `Enqueue`. */
  lemma SplitIsEnqueue(ids: seq<nat>, ds: seq<nat>, k: nat, id: nat, d: nat)
    requires |ds| == |ids| + 1
    requires k < |ds| && Prefix(ds, k) <= d < Prefix(ds, k + 1)
    ensures Abstract(ids[..k] + [id] + ids[k..], Split(ds, k, d)) == Enqueue(Abstract(ids, ds), id, d)
  {
    hide Prefix, Position, Enqueue, Split;
    SplitPosition(ids, ds, k, d);
    var q, more := Abstract(ids, ds), ids[..k] + [id] + ids[k..];
    EnqueueItems(q, id, d);
    var items, goal := Abstract(more, Split(ds, k, d)).items, Enqueue(q, id, d).items;
    forall i | 0 <= i < |items|
      ensures items[i] == goal[i]
    {
      SplitPrefix(ds, k, d, i + 1);
    }
    SplitPrefix(ds, k, d, |ds| + 1);
  }

  // ---------- removing ----------

  /** Deltas after the node at position `k` is taken out. */
  ghost function Merge(ds: seq<nat>, k: nat): seq<nat>
    requires k + 1 < |ds|
  {
    ds[..k] + [ds[k] + ds[k + 1]] + ds[k + 2..]
  }

  lemma {:induction false} MergePrefix(ds: seq<nat>, k: nat, n: nat)
    requires k + 1 < |ds| && n < |ds|
    ensures Prefix(Merge(ds, k), n) == if n <= k then Prefix(ds, n) else Prefix(ds, n + 1)
  {
    if n > 0 {
      MergePrefix(ds, k, n - 1);
    }
  }

  lemma MergeIsDrop(ids: seq<nat>, ds: seq<nat>, k: nat)
    requires |ds| == |ids| + 1 && k < |ids|
    ensures Abstract(ids[..k] + ids[k + 1..], Merge(ds, k)) == Drop(Abstract(ids, ds), k)
  {
    var items := Abstract(ids[..k] + ids[k + 1..], Merge(ds, k)).items;
    var goal := Drop(Abstract(ids, ds), k).items;
    assert |items| == |goal|;
    forall i | 0 <= i < |items|
      ensures items[i] == goal[i]
    {
      MergePrefix(ds, k, i + 1);
    }
    MergePrefix(ds, k, |ds| - 1);
  }

  lemma DropShorter(q: Queue, i: nat)
    requires i < |q.items|
    ensures |Drop(q, i).items| == |q.items| - 1
  {
  }

  // ---------- stored deltas ----------

  ghost predicate AllNormal(ts: seq<Timeval>) {
    forall i :: 0 <= i < |ts| ==> ts[i].Normal()
  }

  /** The stored deltas in microseconds. */
  ghost function Micro(ts: seq<Timeval>): (ds: seq<nat>)
    requires AllNormal(ts)
    ensures |ds| == |ts|
    ensures forall i :: 0 <= i < |ts| ==> ds[i] == ts[i].Micros()
  {
    seq(|ts|, i requires 0 <= i < |ts| => ts[i].Micros())
  }

  /** The invariant of the stored deltas: all normalised, they add up to `total`,
      and the sentinel's is not zero. */
  ghost predicate Sound(ids: seq<nat>, ts: seq<Timeval>, total: nat) {
    && |ts| == |ids| + 1
    && AllNormal(ts)
    && Prefix(Micro(ts), |ts|) == total
    && 0 < Micro(ts)[|ids|]
  }

  ghost function ViewOf(ids: seq<nat>, ts: seq<Timeval>): Queue
    requires |ts| == |ids| + 1 && AllNormal(ts)
  {
    Abstract(ids, Micro(ts))
  }

  lemma HorizonIsTotal(ids: seq<nat>, ts: seq<Timeval>)
    requires |ts| == |ids| + 1 && AllNormal(ts)
    ensures ViewOf(ids, ts).horizon == Prefix(Micro(ts), |ts|)
  {
  }

  /** A walk that set out with `e` microseconds stands before node `k` with `rest` left. */
  ghost predicate Walked(ts: seq<Timeval>, k: nat, rest: Timeval, e: nat) {
    && AllNormal(ts) && k < |ts| && rest.Normal()
    && Prefix(Micro(ts), k) + rest.Micros() == e
  }

  lemma WalkStart(ts: seq<Timeval>, rest: Timeval)
    requires AllNormal(ts) && 0 < |ts| && rest.Normal()
    ensures 0 <= rest.Micros() && Walked(ts, 0, rest, rest.Micros())
  {
  }

  /** A step of the walk stays inside the list, which holds more than `e` in all. */
  lemma WalkStep(ts: seq<Timeval>, k: nat, rest: Timeval, e: nat, rest': Timeval)
    requires Walked(ts, k, rest, e) && e < Prefix(Micro(ts), |ts|)
    requires rest.Geq(ts[k])
    requires rest'.Normal()
    requires rest'.Micros() == if rest.Micros() <= ts[k].Micros() then 0 else rest.Micros() - ts[k].Micros()
    ensures Walked(ts, k + 1, rest', e)
  {
    GeqIsMicros(rest, ts[k]);
  }

  lemma WalkStop(ts: seq<Timeval>, k: nat, rest: Timeval, e: nat)
    requires Walked(ts, k, rest, e) && !rest.Geq(ts[k])
    ensures Prefix(Micro(ts), k) <= e < Prefix(Micro(ts), k + 1)
    ensures Prefix(Micro(ts), k + 1) - e == ts[k].Micros() - rest.Micros()
  {
    GeqIsMicros(rest, ts[k]);
  }

  /** A walk that set out with `e` microseconds and may have gone round the list stands
      before node `k` with `rest` left. */
  ghost predicate Circled(ts: seq<Timeval>, k: nat, rest: Timeval, e: nat, laps: nat) {
    && AllNormal(ts) && k < |ts| && rest.Normal()
    && laps * Prefix(Micro(ts), |ts|) + Prefix(Micro(ts), k) + rest.Micros() == e
  }

  lemma CircleStart(ts: seq<Timeval>, rest: Timeval)
    requires AllNormal(ts) && 0 < |ts| && rest.Normal()
    ensures 0 <= rest.Micros() && Circled(ts, 0, rest, rest.Micros(), 0)
  {
  }

  /** A step of such a walk, from the last node to the first one too; it uses up time or
      comes nearer to the last node, whose delta is not zero. */
  lemma CircleStep(ts: seq<Timeval>, k: nat, rest: Timeval, e: nat, laps: nat, rest': Timeval)
    requires Circled(ts, k, rest, e, laps) && 0 < Micro(ts)[|ts| - 1]
    requires rest.Geq(ts[k])
    requires rest'.Normal()
    requires rest'.Micros() == if rest.Micros() <= ts[k].Micros() then 0 else rest.Micros() - ts[k].Micros()
    ensures if k + 1 < |ts| then Circled(ts, k + 1, rest', e, laps) else Circled(ts, 0, rest', e, laps + 1)
    ensures 0 <= rest'.Micros() <= rest.Micros()
    ensures k + 1 == |ts| ==> rest'.Micros() < rest.Micros()
  {
    hide Timeval.Normal, Timeval.Micros, Timeval.Geq, Prefix;
    GeqIsMicros(rest, ts[k]);
    NormalMicros(ts[k]);
    NormalMicros(rest');
    PrefixNext(Micro(ts), k);
    OneLapMore(laps, Prefix(Micro(ts), |ts|));
  }

  lemma PrefixNext(ds: seq<nat>, k: nat)
    requires k < |ds|
    ensures Prefix(ds, 0) == 0 && Prefix(ds, k + 1) == Prefix(ds, k) + ds[k]
  {
  }

  lemma OneLapMore(laps: nat, total: nat)
    ensures (laps + 1) * total == laps * total + total
  {
  }

  /** Where it stops: the place of what is left after whole rounds. */
  lemma CircleStop(ts: seq<Timeval>, k: nat, rest: Timeval, e: nat, laps: nat)
    requires Circled(ts, k, rest, e, laps) && !rest.Geq(ts[k])
    ensures Walked(ts, k, rest, Waited(e, Prefix(Micro(ts), |ts|)))
    ensures Waited(e, Prefix(Micro(ts), |ts|)) < Prefix(Micro(ts), |ts|)
  {
    hide Timeval.Micros, Waited;
    var total, w := Prefix(Micro(ts), |ts|), Prefix(Micro(ts), k) + rest.Micros();
    GeqIsMicros(rest, ts[k]);
    NormalMicros(rest);
    PrefixMonotone(Micro(ts), k + 1, |ts|);
    WaitedRounds(laps, total, w);
  }

  lemma WaitedRounds(laps: nat, total: nat, w: nat)
    requires w < total
    ensures Waited(laps * total + w, total) == w
  {
    DivModUnique(laps * total + w, total, laps, w);
  }

  /** A task that is to wait for ever, put into a queue that has just begun, is due at
      once. */
  lemma EternityIsNow(id: nat)
    ensures ETERNITY.Normal() && ETERNITY.Micros() > 0
    ensures Enqueue(Queue([], ETERNITY.Micros()), id, Waited(ETERNITY.Micros(), ETERNITY.Micros())) ==
            Queue([Item(id, 0)], ETERNITY.Micros())
  {
  }

  /** What the list holds once a walk of `synchronize` is over. */
  lemma SyncDone(ids: seq<nat>, ts: seq<Timeval>, us: seq<Timeval>, total: nat, k: nat, rest: Timeval, e: nat)
    requires Sound(ids, ts, total) && Walked(ts, k, rest, e) && !rest.Geq(ts[k])
    requires |us| == |ts|
    requires forall i :: 0 <= i < k ==> us[i] == DELAY_ZERO
    requires us[k].Normal() && us[k].Micros() == ts[k].Micros() - rest.Micros()
    requires forall i :: k < i < |ts| ==> us[i] == ts[i]
    ensures e < total && Sound(ids, us, total - e)
    ensures ViewOf(ids, us) == Lapse(ViewOf(ids, ts), e)
  {
    hide Timeval.Micros;
    var ds := Micro(ts);
    WalkStop(ts, k, rest, e);
    ZeroMicros();
    assert Micro(us) == Paid(ds, k, e);
    PaidIsLapse(ids, ds, k, e);
    PaidPrefix(ds, k, e, |ds|);
  }

  lemma AddDone(ids: seq<nat>, ts: seq<Timeval>, us: seq<Timeval>, total: nat, k: nat, rest: Timeval,
                id: nat, d: nat)
    requires Sound(ids, ts, total) && Walked(ts, k, rest, d) && !rest.Geq(ts[k])
    requires |us| == |ts| + 1
    requires forall i :: 0 <= i < k ==> us[i] == ts[i]
    requires us[k] == rest
    requires us[k + 1].Normal() && us[k + 1].Micros() == ts[k].Micros() - rest.Micros()
    requires forall i :: k + 1 < i < |us| ==> us[i] == ts[i - 1]
    ensures Sound(ids[..k] + [id] + ids[k..], us, total)
    ensures ViewOf(ids[..k] + [id] + ids[k..], us) == Enqueue(ViewOf(ids, ts), id, d)
  {
    hide Timeval.Micros;
    var ds := Micro(ts);
    WalkStop(ts, k, rest, d);
    assert Micro(us) == Split(ds, k, d);
    SplitIsEnqueue(ids, ds, k, id, d);
    SplitPrefix(ds, k, d, |ds| + 1);
  }

  /** Two neighbouring deltas can be added without leaving the 64-bit range. */
  lemma NeighboursFit(ids: seq<nat>, ts: seq<Timeval>, total: nat, k: nat)
    requires Sound(ids, ts, total) && k < |ids|
    ensures ts[k].Micros() + ts[k + 1].Micros() <= total
  {
    var ds := Micro(ts);
    assert Prefix(ds, k + 2) == Prefix(ds, k) + ds[k] + ds[k + 1];
    PrefixMonotone(ds, k + 2, |ds|);
  }

  lemma RemoveDone(ids: seq<nat>, ts: seq<Timeval>, us: seq<Timeval>, total: nat, k: nat)
    requires Sound(ids, ts, total) && k < |ids|
    requires |us| + 1 == |ts|
    requires forall i :: 0 <= i < k ==> us[i] == ts[i]
    requires us[k].Normal() && us[k].Micros() == ts[k].Micros() + ts[k + 1].Micros()
    requires forall i :: k < i < |us| ==> us[i] == ts[i + 1]
    ensures Sound(ids[..k] + ids[k + 1..], us, total)
    ensures ViewOf(ids[..k] + ids[k + 1..], us) == Drop(ViewOf(ids, ts), k)
  {
    hide Timeval.Micros;
    var ds := Micro(ts);
    assert Micro(us) == Merge(ds, k);
    MergeIsDrop(ids, ds, k);
    MergePrefix(ds, k, |us|);
  }

  /** The abstract queue of sound deltas is well-formed. */
  lemma ViewValid(ids: seq<nat>, ts: seq<Timeval>, total: nat)
    requires Sound(ids, ts, total)
    ensures TaskQueue.Valid(ViewOf(ids, ts))
  {
    hide Timeval.Micros;
    var ds, n, q := Micro(ts), |ids|, ViewOf(ids, ts);
    assert Prefix(ds, n + 1) == Prefix(ds, n) + ds[n];
    forall i | 0 <= i < n
      ensures q.items[i].due < q.horizon
    {
      PrefixMonotone(ds, i + 1, n);
    }
    forall i, j | 0 <= i < j < n
      ensures q.items[i].due <= q.items[j].due
    {
      PrefixMonotone(ds, i + 1, j + 1);
    }
  }

  /** The head is an alarm that is due exactly when a task is due; the sentinel is
      never taken for one. */
  lemma HeadDue(ids: seq<nat>, ts: seq<Timeval>, total: nat)
    requires Sound(ids, ts, total)
    ensures var q := ViewOf(ids, ts);
            && (ts[0].Eq(DELAY_ZERO) <==> |q.items| > 0 && q.items[0].due == 0)
            && ts[0].Micros() == if |q.items| == 0 then q.horizon else q.items[0].due
  {
    var ds := Micro(ts);
    assert Prefix(ds, 1) == Prefix(ds, 0) + ds[0];
    ZeroIsMicros(ts[0]);
  }

  // ---------- when the walk of synchronize ends ----------

  /** The loop of `synchronize` in the middle of a run, free to go round the ring. */
  datatype Walk = Walk(ds: seq<nat>, at: nat, rest: nat)

  ghost predicate Goes(w: Walk)
    requires w.at < |w.ds|
  {
    w.rest >= w.ds[w.at]
  }

  ghost function Turn(w: Walk): (w': Walk)
    requires w.at < |w.ds|
    ensures w'.at < |w'.ds| == |w.ds|
  {
    Walk(w.ds[w.at := 0], if w.at + 1 == |w.ds| then 0 else w.at + 1, Left(w.rest, w.ds[w.at]))
  }

  ghost function Turns(w: Walk, n: nat): (w': Walk)
    requires w.at < |w.ds|
    ensures w'.at < |w'.ds| == |w.ds|
  {
    if n == 0 then w else Turn(Turns(w, n - 1))
  }

  lemma {:induction false} PrefixZeroed(ds: seq<nat>, k: nat, n: nat)
    requires k < |ds| && n <= |ds|
    ensures Prefix(ds[k := 0], n) == if n <= k then Prefix(ds, n) else Prefix(ds, n) - ds[k]
  {
    if n > 0 {
      PrefixZeroed(ds, k, n - 1);
    }
  }

  lemma {:induction false} KeepsGoing(w: Walk, n: nat)
    requires w.at < |w.ds| && w.rest >= Prefix(w.ds, |w.ds|)
    ensures Turns(w, n).rest >= Prefix(Turns(w, n).ds, |w.ds|)
    ensures Goes(Turns(w, n))
  {
    if n > 0 {
      KeepsGoing(w, n - 1);
      var v := Turns(w, n - 1);
      PrefixZeroed(v.ds, v.at, |v.ds|);
    }
    var v := Turns(w, n);
    PrefixMonotone(v.ds, 0, v.at);
    PrefixMonotone(v.ds, v.at + 1, |v.ds|);
  }

  lemma {:induction false} FirstLap(ds: seq<nat>, e: nat, n: nat)
    requires n < |ds| && Prefix(ds, n) <= e
    ensures Turns(Walk(ds, 0, e), n).at == n
    ensures Turns(Walk(ds, 0, e), n).rest == e - Prefix(ds, n)
    ensures forall i :: n <= i < |ds| ==> Turns(Walk(ds, 0, e), n).ds[i] == ds[i]
  {
    if n > 0 {
      PrefixMonotone(ds, n - 1, n);
      FirstLap(ds, e, n - 1);
    }
  }

  lemma {:induction false} StopPlace(ds: seq<nat>, e: nat, n: nat) returns (k: nat)
    requires n <= |ds| && e < Prefix(ds, n)
    ensures k < n && Prefix(ds, k) <= e < Prefix(ds, k + 1)
  {
    if Prefix(ds, n - 1) <= e {
      k := n - 1;
    } else {
      k := StopPlace(ds, e, n - 1);
    }
  }

  /** The loop of `synchronize` ends exactly when the elapsed time is less than the
      sum of all deltas; otherwise it goes round the ring for ever. */
  lemma SynchronizeEnds(ds: seq<nat>, e: nat)
    requires 0 < |ds|
    ensures (exists n: nat :: !Goes(Turns(Walk(ds, 0, e), n))) <==> e < Prefix(ds, |ds|)
  {
    if e < Prefix(ds, |ds|) {
      var k := StopPlace(ds, e, |ds|);
      FirstLap(ds, e, k);
      assert !Goes(Turns(Walk(ds, 0, e), k));
    } else {
      forall n: nat
        ensures Goes(Turns(Walk(ds, 0, e), n))
      {
        KeepsGoing(Walk(ds, 0, e), n);
      }
    }
  }
}
