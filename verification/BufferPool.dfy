/** A block of memory cut into groups of items of one size.  Items are handed out from
    and given back to the queue of their own group. */
module BufferPool {
  import opened Arithmetic
  import opened Bytes

  datatype Ref = Ref(group: nat, index: nat)

  /** The shape of the pool: groups, items in a group, bytes in an item. */
  datatype Shape = Shape(groups: nat, items: nat, size: nat) {

    predicate Has(r: Ref) {
      r.group < groups && r.index < items
    }

    function Total(): nat {
      groups * items * size
    }

    /** Where the item starts in the block. */
    function Start(r: Ref): nat {
      r.group * items * size + r.index * size
    }
  }

  // ---------- regions ----------

  /** The number of an item, counting through all groups. */
  function Number(s: Shape, r: Ref): nat {
    r.group * s.items + r.index
  }

  lemma StartIsNumber(s: Shape, r: Ref)
    ensures s.Start(r) == Number(s, r) * s.size
  {
  }

  lemma NumberBound(s: Shape, r: Ref)
    requires s.Has(r)
    ensures Number(s, r) + 1 <= s.groups * s.items
  {
    MulMonotone(r.group + 1, s.groups, s.items);
    assert (r.group + 1) * s.items == r.group * s.items + s.items;
  }

  lemma NumberInjective(s: Shape, r: Ref, q: Ref)
    requires s.Has(r) && s.Has(q) && r != q
    ensures Number(s, r) != Number(s, q)
  {
    if r.group < q.group {
      MulMonotone(r.group + 1, q.group, s.items);
      assert (r.group + 1) * s.items == r.group * s.items + s.items;
    } else if q.group < r.group {
      MulMonotone(q.group + 1, r.group, s.items);
      assert (q.group + 1) * s.items == q.group * s.items + s.items;
    }
  }

  /** The items stand one behind the other, group by group. */
  lemma NextItem(s: Shape, g: nat, i: nat)
    ensures s.Start(Ref(0, 0)) == 0
    ensures s.Start(Ref(g, i + 1)) == s.Start(Ref(g, i)) + s.size
    ensures s.Start(Ref(g + 1, 0)) == s.Start(Ref(g, s.items))
  {
    StartIsNumber(s, Ref(g, i));
    StartIsNumber(s, Ref(g, i + 1));
    StartIsNumber(s, Ref(g + 1, 0));
    StartIsNumber(s, Ref(g, s.items));
    assert (g + 1) * s.items == g * s.items + s.items;
    assert (Number(s, Ref(g, i)) + 1) * s.size == Number(s, Ref(g, i)) * s.size + s.size;
  }

  /** Every item lies inside the block. */
  lemma RegionInBlock(s: Shape, r: Ref)
    requires s.Has(r)
    ensures s.Start(r) + s.size <= s.Total()
  {
    StartIsNumber(s, r);
    NumberBound(s, r);
    MulMonotone(Number(s, r) + 1, s.groups * s.items, s.size);
    assert (Number(s, r) + 1) * s.size == Number(s, r) * s.size + s.size;
  }

  /** No two items share a byte. */
  lemma RegionsDisjoint(s: Shape, r: Ref, q: Ref)
    requires s.Has(r) && s.Has(q) && r != q
    ensures s.Start(r) + s.size <= s.Start(q) || s.Start(q) + s.size <= s.Start(r)
  {
    StartIsNumber(s, r);
    StartIsNumber(s, q);
    NumberInjective(s, r, q);
    var m, n := Number(s, r), Number(s, q);
    if m < n {
      MulMonotone(m + 1, n, s.size);
      assert (m + 1) * s.size == m * s.size + s.size;
    } else {
      MulMonotone(n + 1, m, s.size);
      assert (n + 1) * s.size == n * s.size + s.size;
    }
  }

  // ---------- queues and holders ----------

  /** The queues of free items, and who holds each item that is out. */
  datatype Pool = Pool(queues: seq<seq<Ref>>, out: map<Ref, nat>)

  datatype Event = Take(group: nat, holder: nat) | Return(r: Ref, holder: nat)

  function Row(group: nat, n: nat): (row: seq<Ref>)
    ensures |row| == n && forall j :: 0 <= j < n ==> row[j] == Ref(group, j)
  {
    seq(n, j requires 0 <= j < n => Ref(group, j))
  }

  function Rows(groups: nat, n: nat): (rows: seq<seq<Ref>>)
    ensures |rows| == groups && forall g :: 0 <= g < groups ==> rows[g] == Row(g, n)
  {
    seq(groups, g requires 0 <= g < groups => Row(g, n))
  }

  function Full(s: Shape): Pool {
    Pool(Rows(s.groups, s.items), map[])
  }

  /** `Pop` returns only once its group's queue is not empty. */
  predicate Enabled(p: Pool, ev: Event) {
    match ev
    case Take(g, _) => g < |p.queues| && p.queues[g] != []
    case Return(r, h) => r in p.out && p.out[r] == h && r.group < |p.queues|
  }

  function Step(p: Pool, ev: Event): Pool
    requires Enabled(p, ev)
  {
    match ev
    case Take(g, h) => Pool(p.queues[g := p.queues[g][1..]], p.out[p.queues[g][0] := h])
    case Return(r, _) => Pool(p.queues[r.group := p.queues[r.group] + [r]], p.out - {r})
  }

  ghost predicate NoRepeat(q: seq<Ref>) {
    forall i, j :: 0 <= i < j < |q| ==> q[i] != q[j]
  }

  /** Every item is either in its own group's queue, once, or out with one holder. */
  ghost predicate Conserved(s: Shape, p: Pool) {
    && |p.queues| == s.groups
    && (forall g :: 0 <= g < s.groups ==> NoRepeat(p.queues[g]))
    && (forall g, i :: 0 <= g < s.groups && 0 <= i < |p.queues[g]| ==>
          s.Has(p.queues[g][i]) && p.queues[g][i].group == g && p.queues[g][i] !in p.out)
    && (forall r :: r in p.out ==> s.Has(r))
    && (forall r :: s.Has(r) ==> r in p.queues[r.group] || r in p.out)
  }

  lemma FullConserved(s: Shape)
    ensures Conserved(s, Full(s))
  {
    forall r | s.Has(r)
      ensures r in Full(s).queues[r.group]
    {
      assert Row(r.group, s.items)[r.index] == r;
    }
  }

  lemma StepConserved(s: Shape, p: Pool, ev: Event)
    requires Conserved(s, p) && Enabled(p, ev)
    ensures Conserved(s, Step(p, ev))
  {
    match ev
    case Take(g, h) => TakeConserved(s, p, g, h);
    case Return(r, h) => ReturnConserved(s, p, r, h);
  }

  lemma TakeConserved(s: Shape, p: Pool, g: nat, h: nat)
    requires Conserved(s, p) && Enabled(p, Take(g, h))
    ensures Conserved(s, Step(p, Take(g, h)))
  {
    var t, x := Step(p, Take(g, h)), p.queues[g][0];
    assert NoRepeat(p.queues[g]);
    forall r | s.Has(r)
      ensures r in t.queues[r.group] || r in t.out
    {
      if r.group == g && r != x && r in p.queues[g] {
        var i :| 0 <= i < |p.queues[g]| && p.queues[g][i] == r;
        assert t.queues[g][i - 1] == r;
      }
    }
  }

  lemma ReturnConserved(s: Shape, p: Pool, r: Ref, h: nat)
    requires Conserved(s, p) && Enabled(p, Return(r, h))
    ensures Conserved(s, Step(p, Return(r, h)))
  {
    var t := Step(p, Return(r, h));
    assert t.queues[r.group][|p.queues[r.group]|] == r;
    forall q | s.Has(q)
      ensures q in t.queues[q.group] || q in t.out
    {
      if q.group == r.group && q in p.queues[q.group] {
        var i :| 0 <= i < |p.queues[q.group]| && p.queues[q.group][i] == q;
        assert t.queues[q.group][i] == q;
      }
    }
  }

  predicate CanRun(p: Pool, evs: seq<Event>)
    decreases |evs|
  {
    evs == [] || (Enabled(p, evs[0]) && CanRun(Step(p, evs[0]), evs[1..]))
  }

  function Run(p: Pool, evs: seq<Event>): Pool
    requires CanRun(p, evs)
    decreases |evs|
  {
    if evs == [] then p else Run(Step(p, evs[0]), evs[1..])
  }

  lemma {:induction false} RunConserved(s: Shape, p: Pool, evs: seq<Event>)
    requires Conserved(s, p) && CanRun(p, evs)
    ensures Conserved(s, Run(p, evs))
    decreases |evs|
  {
    if evs != [] {
      StepConserved(s, p, evs[0]);
      RunConserved(s, Step(p, evs[0]), evs[1..]);
    }
  }

  function Elements(q: seq<Ref>): set<Ref> {
    set r | r in q
  }

  lemma {:induction false} ElementsCount(q: seq<Ref>)
    requires NoRepeat(q)
    ensures |Elements(q)| == |q|
  {
    if q != [] {
      var n := |q| - 1;
      ElementsCount(q[..n]);
      assert Elements(q) == Elements(q[..n]) + {q[n]};
      assert q[n] !in Elements(q[..n]);
    }
  }

  function OutOf(p: Pool, g: nat): set<Ref> {
    set r | r in p.out && r.group == g
  }

  lemma RowSplit(s: Shape, p: Pool, g: nat, r: Ref)
    requires Conserved(s, p) && g < s.groups
    ensures r in Elements(Row(g, s.items)) <==> r in Elements(p.queues[g]) || r in OutOf(p, g)
    ensures !(r in Elements(p.queues[g]) && r in OutOf(p, g))
  {
    var row := Row(g, s.items);
    if s.Has(r) && r.group == g {
      assert row[r.index] == r;
    }
  }

  lemma GroupCount(s: Shape, p: Pool, g: nat)
    requires Conserved(s, p) && g < s.groups
    ensures |p.queues[g]| + |OutOf(p, g)| == s.items
  {
    hide Elements, OutOf;
    var row, free, held := Elements(Row(g, s.items)), Elements(p.queues[g]), OutOf(p, g);
    ElementsCount(Row(g, s.items));
    ElementsCount(p.queues[g]);
    forall r
      ensures r in row <==> r in free || r in held
      ensures !(r in free && r in held)
    {
      RowSplit(s, p, g, r);
    }
    assert row == free + held && free !! held;
  }

  /** In every run in which holders give back only what they hold, each group's items
      are all accounted for: those in its queue and those out make up the group. */
  lemma GroupComplete(s: Shape, evs: seq<Event>, g: nat)
    requires CanRun(Full(s), evs) && g < s.groups
    ensures var p := Run(Full(s), evs);
            Conserved(s, p) && |p.queues[g]| + |OutOf(p, g)| == s.items
  {
    FullConserved(s);
    RunConserved(s, Full(s), evs);
    GroupCount(s, Run(Full(s), evs), g);
  }

  // ---------- the pool in memory ----------

  datatype Result<T> = Ok(value: T) | InvalidParameter

  class RollFixBuffer {
    const shape: Shape
    const data: array<Byte>
    var queues: seq<seq<Ref>>
    var lens: map<Ref, nat>
    ghost var out: map<Ref, nat>

    ghost predicate Valid()
      reads this
    {
      data.Length == shape.Total() && Conserved(shape, View())
    }

    ghost function View(): Pool
      reads this
    {
      Pool(queues, out)
    }

    /** The product of the sizes has to fit the 32-bit arithmetic that computes it. */
    constructor (groups: nat, items: nat, size: nat)
      requires groups * items * size < 0x8000_0000
      ensures Valid() && fresh(data) && shape == Shape(groups, items, size)
      ensures View() == Full(shape)
    {
      shape := Shape(groups, items, size);
      data := new Byte[groups * items * size](_ => 0);
      lens := map[];
      out := map[];
      queues := [];
      new;
      var i := 0;
      while i < groups
        invariant 0 <= i <= groups
        invariant queues == Rows(i, items)
        invariant out == map[]
      {
        var refQ := [];
        var j := 0;
        while j < items
          invariant 0 <= j <= items
          invariant refQ == Row(i, j)
        {
          refQ := refQ + [Ref(i, j)];
          j := j + 1;
        }
        queues := queues + [refQ];
        i := i + 1;
      }
      FullConserved(shape);
    }

    /** The step of `Pop` that ends its wait, if it has waited. */
    method Pop(group: nat, ghost holder: nat) returns (res: Result<Ref>)
      requires Valid() && (group < shape.groups ==> queues[group] != [])
      modifies this`queues, this`out
      ensures Valid()
      ensures group >= shape.groups ==> res.InvalidParameter? && View() == old(View())
      ensures group < shape.groups ==>
        && res == Ok(old(queues)[group][0])
        && Enabled(old(View()), Take(group, holder))
        && View() == Step(old(View()), Take(group, holder))
        && queues == old(queues)[group := old(queues)[group][1..]]
        && out == old(out)[old(queues)[group][0] := holder]
    {
      if group >= shape.groups {
        return InvalidParameter;
      }
      StepConserved(shape, View(), Take(group, holder));
      var first := queues[group][0];
      queues := queues[group := queues[group][1..]];
      out := out[first := holder];
      return Ok(first);
    }

    method PullBack(r: Ref, ghost holder: nat)
      requires Valid() && r in out && out[r] == holder
      modifies this`queues, this`out
      ensures Valid() && Enabled(old(View()), Return(r, holder))
      ensures View() == Step(old(View()), Return(r, holder))
      ensures r.group < |old(queues)| && queues == old(queues)[r.group := old(queues)[r.group] + [r]]
      ensures out == old(out) - {r}
    {
      StepConserved(shape, View(), Return(r, holder));
      queues := queues[r.group := queues[r.group] + [r]];
      out := out - {r};
    }

    /** The address of an item, as an offset into the block. */
    method GetMemItem(group: nat, index: nat) returns (pos: Result<nat>)
      requires Valid()
      ensures pos == if shape.Has(Ref(group, index)) then Ok(shape.Start(Ref(group, index))) else InvalidParameter
      ensures pos.Ok? ==> pos.value + shape.size <= data.Length
    {
      if group >= shape.groups || index >= shape.items {
        return InvalidParameter;
      }
      RegionInBlock(shape, Ref(group, index));
      pos := Ok(group * shape.items * shape.size + index * shape.size);
    }

    ghost function Region(r: Ref): (bytes: seq<Byte>)
      requires Valid() && shape.Has(r)
      reads this, data
      ensures |bytes| == shape.size
    {
      RegionInBlock(shape, r);
      data[shape.Start(r)..shape.Start(r) + shape.size]
    }

    /** Writing into an item; data as long as the item is refused too. */
    method Write(r: Ref, pdata: seq<Byte>) returns (res: Result<nat>)
      requires Valid() && shape.Has(r)
      modifies data, this`lens
      ensures Valid()
      ensures |pdata| >= shape.size ==> res.InvalidParameter? && data[..] == old(data[..]) && lens == old(lens)
      ensures |pdata| < shape.size ==>
        && res == Ok(|pdata|) && lens == old(lens)[r := |pdata|]
        && Region(r) == pdata + old(Region(r))[|pdata|..]
      ensures forall q :: shape.Has(q) && q != r ==> Region(q) == old(Region(q))
    {
      hide Shape.Start, Shape.Total, Conserved, Patched;
      if |pdata| >= shape.size {
        return InvalidParameter;
      }
      ghost var was := data[..];
      RegionInBlock(shape, r);
      CopyInto(data, shape.Start(r), pdata);
      lens := lens[r := |pdata|];
      ghost var now := data[..];
      PatchInside(was, now, shape.Start(r), pdata, shape.size);
      forall q | shape.Has(q) && q != r
        ensures Region(q) == old(Region(q))
      {
        RegionInBlock(shape, q);
        RegionsDisjoint(shape, r, q);
        PatchOutside(was, now, shape.Start(r), pdata, shape.Start(q), shape.size);
        assert now[shape.Start(q)..shape.Start(q) + shape.size] == Region(q);
      }
      return Ok(|pdata|);
    }
  }

  /** `now` is `was` with `pdata` written over it from `start` on. */
  ghost predicate Patched(was: seq<Byte>, now: seq<Byte>, start: nat, pdata: seq<Byte>) {
    && |now| == |was| && start + |pdata| <= |was|
    && now[start..start + |pdata|] == pdata
    && forall k :: 0 <= k < |was| && !(start <= k < start + |pdata|) ==> now[k] == was[k]
  }

  lemma PatchInside(was: seq<Byte>, now: seq<Byte>, start: nat, pdata: seq<Byte>, n: nat)
    requires Patched(was, now, start, pdata) && |pdata| <= n && start + n <= |was|
    ensures now[start..start + n] == pdata + was[start..start + n][|pdata|..]
  {
    assert now[start..start + n][..|pdata|] == pdata;
    assert now[start..start + n][|pdata|..] == was[start..start + n][|pdata|..];
  }

  lemma PatchOutside(was: seq<Byte>, now: seq<Byte>, start: nat, pdata: seq<Byte>, at: nat, n: nat)
    requires Patched(was, now, start, pdata) && at + n <= |was|
    requires at + n <= start || start + |pdata| <= at
    ensures now[at..at + n] == was[at..at + n]
  {
  }

  /** `memcpy` of `pdata` to the offset `start`. */
  method CopyInto(data: array<Byte>, start: nat, pdata: seq<Byte>)
    requires start + |pdata| <= data.Length
    modifies data
    ensures Patched(old(data[..]), data[..], start, pdata)
  {
    var i := 0;
    while i < |pdata|
      invariant 0 <= i <= |pdata|
      invariant data[start..start + i] == pdata[..i]
      invariant forall k :: 0 <= k < data.Length && !(start <= k < start + i) ==> data[k] == old(data[k])
    {
      data[start + i] := pdata[i];
      i := i + 1;
    }
  }
}
