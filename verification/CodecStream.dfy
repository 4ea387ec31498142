/** The codecs at work on a stream: each loop and branch is proved to compute what
    module Codec specifies. */
module CodecStream {
  import opened Bytes
  import opened DataStreams
  import opened Codec
  import CompactSize
  import opened VectorGrowth

  // ---------- compact sizes ----------

  method WriteCompactSize(os: CDataStream, nSize: nat)
    requires os.Valid() && nSize < TWO_TO_64
    modifies os`vch
    ensures os.Valid() && os.View() == old(os.View()) + CompactSize.Write(nSize)
  {
    hide ToLE;
    ghost var v := os.View();
    if nSize < 253 {
      os.Write([nSize]);
    } else if nSize <= 0xFFFF {
      os.Write([253]);
      os.Write(ToLE(nSize, 2));
      assert v + [253] + ToLE(nSize, 2) == v + ([253] + ToLE(nSize, 2));
    } else if nSize <= 0xFFFF_FFFF {
      os.Write([254]);
      os.Write(ToLE(nSize, 4));
      assert v + [254] + ToLE(nSize, 4) == v + ([254] + ToLE(nSize, 4));
    } else {
      os.Write([255]);
      os.Write(ToLE(nSize, 8));
      assert v + [255] + ToLE(nSize, 8) == v + ([255] + ToLE(nSize, 8));
    }
  }

  method ReadCompactSize(is_: CDataStream) returns (nSizeRet: nat)
    requires is_.Valid() && is_.nReadPos + CompactSize.Taking(is_.View()) < TWO_TO_32
    modifies is_
    ensures is_.Valid() && nSizeRet == CompactSize.Read(old(is_.View()))
    ensures is_.View() == Behind(old(is_.View()))
    ensures is_.nReadPos <= old(is_.nReadPos) + CompactSize.Taking(old(is_.View()))
  {
    ghost var b := is_.View();
    var chSize := is_.Read(1);
    TakenSplit(b, 1, CompactSize.Tail(chSize[0]));
    if chSize[0] < 253 {
      nSizeRet := chSize[0];
    } else {
      var width := if chSize[0] == 253 then 2 else if chSize[0] == 254 then 4 else 8;
      var xSize := is_.Read(width);
      nSizeRet := FromLE(xSize);
    }
  }

  // ---------- writing ----------

  lemma EncodeAllNext(s: Schema, vs: seq<Value>, i: nat)
    requires i < |vs|
    ensures EncodeAll(s, vs[..i + 1]) == EncodeAll(s, vs[..i]) + Encode(s, vs[i])
  {
    EncodeAllSnoc(s, vs[..i + 1]);
    assert vs[..i + 1][..i] == vs[..i];
  }

  method Serialize(os: CDataStream, s: Schema, v: Value, ghost less: Less)
    requires os.Valid() && HasType(s, v, less)
    modifies os`vch
    ensures os.Valid() && os.View() == old(os.View()) + Encode(s, v)
    decreases Rank(s), 0
  {
    hide CompactSize.Write, EncodeAll, ToLE, Ascending, AllHaveType;
    ghost var was := os.View();
    match s {
      case SInt(w) =>
        os.Write(ToLE(v.n, w));
      case SBool =>
        os.Write([if v.b then 1 else 0]);
      case SStr =>
        WriteCompactSize(os, |v.chars|);
        if v.chars != [] {
          os.Write(v.chars);
        }
        assert was + CompactSize.Write(|v.chars|) + v.chars == was + (CompactSize.Write(|v.chars|) + v.chars);
      case SVec(e) =>
        if e.SInt? {
          SerializeInts(os, e, v.elems);
        } else {
          SerializeAll(os, e, v.elems, less);
        }
      case SPair(a, b) =>
        Serialize(os, a, v.fst, less);
        Serialize(os, b, v.snd, less);
        assert was + Encode(a, v.fst) + Encode(b, v.snd) == was + (Encode(a, v.fst) + Encode(b, v.snd));
      case SMap(k, x) =>
        SerializeAll(os, SPair(k, x), v.entries, less);
      case SSet(k) =>
        SerializeAll(os, k, v.keys, less);
    }
  }

  /** Vectors of numbers are one block of memory. */
  method SerializeInts(os: CDataStream, e: Schema, vs: seq<Value>)
    requires os.Valid() && |vs| < TWO_TO_32
    modifies os`vch
    ensures os.Valid() && os.View() == old(os.View()) + (CompactSize.Write(|vs|) + EncodeAll(e, vs))
  {
    hide CompactSize.Write;
    ghost var was := os.View();
    WriteCompactSize(os, |vs|);
    if vs != [] {
      os.Write(EncodeAll(e, vs));
    }
    assert was + CompactSize.Write(|vs|) + EncodeAll(e, vs) == was + (CompactSize.Write(|vs|) + EncodeAll(e, vs));
  }

  method SerializeAll(os: CDataStream, s: Schema, vs: seq<Value>, ghost less: Less)
    requires os.Valid() && AllHaveType(s, vs, less) && |vs| < TWO_TO_32
    modifies os`vch
    ensures os.Valid() && os.View() == old(os.View()) + (CompactSize.Write(|vs|) + EncodeAll(s, vs))
    decreases Rank(s), 1
  {
    hide CompactSize.Write, HasType, Encode;
    ghost var head := os.View() + CompactSize.Write(|vs|);
    WriteCompactSize(os, |vs|);
    var i := 0;
    while i < |vs|
      invariant 0 <= i <= |vs|
      invariant os.Valid() && os.View() == head + EncodeAll(s, vs[..i])
    {
      EncodeAllNext(s, vs, i);
      assert head + (EncodeAll(s, vs[..i]) + Encode(s, vs[i])) == (head + EncodeAll(s, vs[..i])) + Encode(s, vs[i]);
      Serialize(os, s, vs[i], less);
      i := i + 1;
    }
    assert vs[..|vs|] == vs;
    assert head + EncodeAll(s, vs) == old(os.View()) + (CompactSize.Write(|vs|) + EncodeAll(s, vs));
  }

  // ---------- reading ----------

  /** Reading `m + n` elements is reading `m` and then `n`. */
  lemma {:induction false} DecodeManySplit(s: Schema, m: nat, n: nat, b: seq<Byte>, less: Less)
    ensures var d := DecodeMany(s, m, b, less);
            var f := DecodeMany(s, n, d.rest, less);
            DecodeMany(s, m + n, b, less) == Decoded(d.value + f.value, f.rest, d.need + f.need)
    decreases n
  {
    hide Decode;
    var d := DecodeMany(s, m, b, less);
    if n > 0 {
      DecodeManySplit(s, m, n - 1, b, less);
      var f := DecodeMany(s, n - 1, d.rest, less);
      var x := Decode(s, f.rest, less).value;
      assert (d.value + f.value) + [x] == d.value + (f.value + [x]);
    } else {
      assert d.value + [] == d.value;
    }
  }

  /** The numbers in a block of memory. */
  function Ints(b: seq<Byte>, w: nat, n: nat): (vs: seq<Value>)
    requires |b| == n * w
    ensures |vs| == n
  {
    if n == 0 then [] else
    assert n * w == w + (n - 1) * w;
    [VInt(FromLE(b[..w]))] + Ints(b[w..], w, n - 1)
  }

  /** One read of `n` numbers of `w` bytes delivers what `n` reads of one number do,
      short reads included. */
  lemma {:induction false} BlockIsMany(w: nat, n: nat, b: seq<Byte>, less: Less)
    ensures n * w >= 0
    ensures DecodeMany(SInt(w), n, b, less) == Decoded(Ints(Taken(b, n * w), w, n), Rest(b, n * w), n * w)
    decreases n
  {
    hide Decode, DecodeMany, Ints, Taken, Rest;
    if n > 0 {
      assert n * w == w + (n - 1) * w;
      DecodeManySplit(SInt(w), 1, n - 1, b, less);
      BlockIsMany(w, n - 1, Rest(b, w), less);
      TakenSplit(b, w, (n - 1) * w);
      OneInt(w, b, less);
      IntsCons(Taken(b, w), Taken(Rest(b, w), (n - 1) * w), w, n);
    } else {
      NoInts(w, b, less);
    }
  }

  lemma IntsCons(first: seq<Byte>, more: seq<Byte>, w: nat, n: nat)
    requires n > 0 && |first| == w && |more| == (n - 1) * w
    ensures |first + more| == n * w
    ensures Ints(first + more, w, n) == [VInt(FromLE(first))] + Ints(more, w, n - 1)
  {
    assert n * w == w + (n - 1) * w;
    assert (first + more)[..w] == first && (first + more)[w..] == more;
  }

  lemma NoInts(w: nat, b: seq<Byte>, less: Less)
    ensures 0 * w == 0 && DecodeMany(SInt(w), 0, b, less) == Decoded(Ints(Taken(b, 0), w, 0), Rest(b, 0), 0)
  {
  }

  lemma OneInt(w: nat, b: seq<Byte>, less: Less)
    ensures DecodeMany(SInt(w), 1, b, less) == Decoded([VInt(FromLE(Taken(b, w)))], Rest(b, w), w)
  {
    assert DecodeMany(SInt(w), 0, b, less) == Decoded([], b, 0);
    assert [] + [VInt(FromLE(Taken(b, w)))] == [VInt(FromLE(Taken(b, w)))];
  }

  /** Every type takes at least one byte, as the types of the language do. */
  predicate Proper(s: Schema) {
    match s
    case SInt(w) => w > 0
    case SVec(e) => Proper(e)
    case SPair(a, b) => Proper(a) && Proper(b)
    case SMap(k, x) => Proper(k) && Proper(x)
    case SSet(k) => Proper(k)
    case _ => true
  }

  lemma {:induction false} NeedGrows(s: Schema, m: nat, n: nat, b: seq<Byte>, less: Less)
    requires m <= n
    ensures DecodeMany(s, m, b, less).need <= DecodeMany(s, n, b, less).need
  {
    hide Decode, DecodeMany;
    DecodeManySplit(s, m, n - m, b, less);
  }

  /** One turn of the block-wise reader. */
  lemma BlockTurn(w: nat, i: nat, blk: nat, n: nat, b: seq<Byte>, less: Less)
    requires i + blk <= n
    ensures var d := DecodeMany(SInt(w), i, b, less);
            && blk * w >= 0
            && DecodeMany(SInt(w), i + blk, b, less) ==
               Decoded(d.value + Ints(Taken(d.rest, blk * w), w, blk), Rest(d.rest, blk * w), d.need + blk * w)
            && d.need + blk * w <= DecodeMany(SInt(w), n, b, less).need
  {
    hide Decode, Ints, DecodeMany;
    DecodeManySplit(SInt(w), i, blk, b, less);
    BlockIsMany(w, blk, DecodeMany(SInt(w), i, b, less).rest, less);
    NeedGrows(SInt(w), i + blk, n, b, less);
  }

  /** One turn of an element-wise reader. */
  lemma ElemTurn(s: Schema, i: nat, n: nat, b: seq<Byte>, less: Less)
    requires i < n
    ensures var d := DecodeMany(s, i, b, less);
            var f := Decode(s, d.rest, less);
            && DecodeMany(s, i + 1, b, less) == Decoded(d.value + [f.value], f.rest, d.need + f.need)
            && d.need + f.need <= DecodeMany(s, n, b, less).need
  {
    hide Decode;
    NeedGrows(s, i + 1, n, b, less);
  }

  lemma NoElems(s: Schema, b: seq<Byte>, less: Less)
    ensures DecodeMany(s, 0, b, less) == Decoded([], b, 0)
  {
  }

  /** `resize`: new elements are placeholders until they are read. */
  function Resize(vs: seq<Value>, n: nat): (r: seq<Value>)
    ensures |r| == n
  {
    if n <= |vs| then vs[..n] else vs + seq(n - |vs|, _ => VInt(0))
  }

  /** Every vector that a reader meets announces a size that can be reached; `sizeOf` is
      the size in memory of an element type. */
  ghost predicate Reachable(s: Schema, b: seq<Byte>, less: Less, sizeOf: Schema -> nat)
    decreases Rank(s), 0
  {
    match s
    case SVec(e) =>
      && (e.SInt? || InReach(Announced(b), sizeOf(e)))
      && ManyReachable(e, Announced(b), Behind(b), less, sizeOf)
    case SPair(x, y) => Reachable(x, b, less, sizeOf) && Reachable(y, Decode(x, b, less).rest, less, sizeOf)
    case SMap(k, x) => ManyReachable(SPair(k, x), Announced(b), Behind(b), less, sizeOf)
    case SSet(k) => ManyReachable(k, Announced(b), Behind(b), less, sizeOf)
    case _ => true
  }

  ghost predicate ManyReachable(s: Schema, n: nat, b: seq<Byte>, less: Less, sizeOf: Schema -> nat)
    decreases Rank(s), 1 + n
  {
    n > 0 ==>
      && ManyReachable(s, n - 1, b, less, sizeOf)
      && Reachable(s, DecodeMany(s, n - 1, b, less).rest, less, sizeOf)
  }

  lemma {:induction false} ElemReachable(s: Schema, i: nat, n: nat, b: seq<Byte>, less: Less, sizeOf: Schema -> nat)
    requires i < n && ManyReachable(s, n, b, less, sizeOf)
    ensures Reachable(s, DecodeMany(s, i, b, less).rest, less, sizeOf)
    decreases n
  {
    if i < n - 1 {
      ElemReachable(s, i, n - 1, b, less, sizeOf);
    }
  }

  /** Vectors of numbers: blocks of whole numbers, each read at once. */
  method UnserializeInts(is_: CDataStream, w: nat, ghost less: Less) returns (v: seq<Value>)
    requires is_.Valid() && w > 0
    requires is_.nReadPos + CompactSize.Taking(is_.View()) +
             DecodeMany(SInt(w), Announced(is_.View()), Behind(is_.View()), less).need < TWO_TO_32
    modifies is_
    ensures is_.Valid()
    ensures var b := old(is_.View());
            var d := DecodeMany(SInt(w), Announced(b), Behind(b), less);
            v == d.value && is_.View() == d.rest && is_.nReadPos <= old(is_.nReadPos) + CompactSize.Taking(b) + d.need
  {
    hide CompactSize.Taking, CompactSize.Read, Ints, DecodeMany, Taken, Rest, Behind;
    v := [];
    var nSizeRet := ReadCompactSize(is_);
    var nSize := nSizeRet % TWO_TO_32;
    ghost var b := is_.View();
    ghost var start := is_.nReadPos;
    NoElems(SInt(w), b, less);
    var i := 0;
    while i < nSize
      invariant i <= nSize && is_.Valid()
      invariant v == DecodeMany(SInt(w), i, b, less).value
      invariant is_.View() == DecodeMany(SInt(w), i, b, less).rest
      invariant is_.nReadPos <= start + DecodeMany(SInt(w), i, b, less).need
    {
      var room := 1 + 4_999_999 / w;
      var blk := if nSize - i < room then nSize - i else room;
      BlockTurn(w, i, blk, nSize, b, less);
      var bytes := is_.Read(blk * w);
      v := v + Ints(bytes, w, blk);
      i := i + blk;
    }
  }

  /** The elements of one block. */
  method UnserializeBlock(is_: CDataStream, e: Schema, v: seq<Value>, from: nat, nMid: nat, less: Less,
                          sizeOf: Schema -> nat, ghost b: seq<Byte>, ghost start: nat, ghost nSize: nat)
    returns (v': seq<Value>)
    requires is_.Valid() && Proper(e) && ManyReachable(e, nSize, b, less, sizeOf)
    requires from <= nMid <= nSize && |v| == nMid
    requires v[..from] == DecodeMany(e, from, b, less).value
    requires is_.View() == DecodeMany(e, from, b, less).rest
    requires is_.nReadPos <= start + DecodeMany(e, from, b, less).need
    requires start + DecodeMany(e, nSize, b, less).need < TWO_TO_32
    modifies is_
    ensures is_.Valid() && v' == DecodeMany(e, nMid, b, less).value
    ensures is_.View() == DecodeMany(e, nMid, b, less).rest
    ensures is_.nReadPos <= start + DecodeMany(e, nMid, b, less).need
    decreases Rank(e), 1
  {
    hide Decode, DecodeMany, Proper, Reachable, ManyReachable;
    v' := v;
    var i := from;
    while i < nMid
      invariant from <= i <= nMid && |v'| == nMid && is_.Valid()
      invariant v'[..i] == DecodeMany(e, i, b, less).value
      invariant is_.View() == DecodeMany(e, i, b, less).rest
      invariant is_.nReadPos <= start + DecodeMany(e, i, b, less).need
    {
      ElemTurn(e, i, nSize, b, less);
      ElemReachable(e, i, nSize, b, less, sizeOf);
      var x := Unserialize(is_, e, less, sizeOf);
      ghost var front := v'[..i];
      v' := v'[i := x];
      assert v'[..i + 1] == front + [x];
      i := i + 1;
    }
    assert v'[..nMid] == v';
  }

  /** Other vectors: the vector grows by blocks, and the elements of a block are read
      one by one. */
  method UnserializeElems(is_: CDataStream, e: Schema, less: Less, sizeOf: Schema -> nat) returns (v: seq<Value>)
    requires is_.Valid() && Proper(e) && InReach(Announced(is_.View()), sizeOf(e))
    requires ManyReachable(e, Announced(is_.View()), Behind(is_.View()), less, sizeOf)
    requires is_.nReadPos + CompactSize.Taking(is_.View()) +
             DecodeMany(e, Announced(is_.View()), Behind(is_.View()), less).need < TWO_TO_32
    modifies is_
    ensures is_.Valid()
    ensures var b := old(is_.View());
            var d := DecodeMany(e, Announced(b), Behind(b), less);
            v == d.value && is_.View() == d.rest && is_.nReadPos <= old(is_.nReadPos) + CompactSize.Taking(b) + d.need
    decreases Rank(e), 2
  {
    hide CompactSize.Taking, CompactSize.Read, Decode, DecodeMany, Resize, Behind, Proper, ManyReachable, NextMid, Nth, Strides;
    v := [];
    var nSizeRet := ReadCompactSize(is_);
    var nSize := nSizeRet % TWO_TO_32;
    ghost var b := is_.View();
    ghost var start := is_.nReadPos;
    NoElems(e, b, less);
    var nMid := 0;
    ghost var k := 0;
    StartOfStrides(nSize, sizeOf(e));
    while nMid < nSize
      invariant nMid <= nSize && is_.Valid()
      invariant nSize > 0 ==>
                  nMid == if Nth(Stride(sizeOf(e)), k) > nSize then nSize else Nth(Stride(sizeOf(e)), k)
      invariant v == DecodeMany(e, nMid, b, less).value
      invariant is_.View() == DecodeMany(e, nMid, b, less).rest
      invariant is_.nReadPos <= start + DecodeMany(e, nMid, b, less).need
      decreases nSize - nMid
    {
      var i := nMid;
      NextInReach(nSize, Stride(sizeOf(e)), k);
      nMid := NextMid(nMid, nSize, Stride(sizeOf(e)));
      k := k + 1;
      ResizeKeeps(v, nMid);
      v := Resize(v, nMid);
      v := UnserializeBlock(is_, e, v, i, nMid, less, sizeOf, b, start, nSize);
    }
  }

  lemma StartOfStrides(nSize: nat, size: nat)
    requires InReach(nSize, size)
    ensures nSize > 0 ==> size > 0 && Nth(Stride(size), 0) == 0
  {
    if nSize > 0 {
      NthNext(Stride(size), 0);
    }
  }

  lemma ResizeKeeps(vs: seq<Value>, n: nat)
    requires |vs| <= n
    ensures Resize(vs, n)[..|vs|] == vs
  {
  }

  /** Maps and sets: element by element, each inserted where it belongs. */
  method UnserializeSorted(is_: CDataStream, e: Schema, keyOf: Value -> Value, less: Less, sizeOf: Schema -> nat)
    returns (m: seq<Value>)
    requires is_.Valid() && Proper(e)
    requires ManyReachable(e, Announced(is_.View()), Behind(is_.View()), less, sizeOf)
    requires is_.nReadPos + CompactSize.Taking(is_.View()) +
             DecodeMany(e, Announced(is_.View()), Behind(is_.View()), less).need < TWO_TO_32
    modifies is_
    ensures is_.Valid()
    ensures var b := old(is_.View());
            var d := DecodeMany(e, Announced(b), Behind(b), less);
            && m == InsertAll(d.value, keyOf, less) && is_.View() == d.rest
            && is_.nReadPos <= old(is_.nReadPos) + CompactSize.Taking(b) + d.need
    decreases Rank(e), 1
  {
    hide CompactSize.Taking, CompactSize.Read, Decode, DecodeMany, Behind, Proper, Insert, ManyReachable;
    m := [];
    var nSizeRet := ReadCompactSize(is_);
    var nSize := nSizeRet % TWO_TO_32;
    ghost var b := is_.View();
    ghost var start := is_.nReadPos;
    NoElems(e, b, less);
    var i := 0;
    while i < nSize
      invariant i <= nSize && is_.Valid()
      invariant m == InsertAll(DecodeMany(e, i, b, less).value, keyOf, less)
      invariant is_.View() == DecodeMany(e, i, b, less).rest
      invariant is_.nReadPos <= start + DecodeMany(e, i, b, less).need
    {
      ElemTurn(e, i, nSize, b, less);
      ElemReachable(e, i, nSize, b, less, sizeOf);
      ghost var d := DecodeMany(e, i, b, less);
      var item := Unserialize(is_, e, less, sizeOf);
      InsertNext(d.value, item, keyOf, less);
      m := Insert(m, item, keyOf, less);
      i := i + 1;
    }
  }

  lemma InsertNext(vs: seq<Value>, x: Value, keyOf: Value -> Value, less: Less)
    ensures InsertAll(vs + [x], keyOf, less) == Insert(InsertAll(vs, keyOf, less), x, keyOf, less)
  {
    assert (vs + [x])[..|vs|] == vs;
  }

  /** Reading a value. */
  method Unserialize(is_: CDataStream, s: Schema, less: Less, sizeOf: Schema -> nat) returns (v: Value)
    requires is_.Valid() && Proper(s) && Reachable(s, is_.View(), less, sizeOf)
    requires is_.nReadPos + Decode(s, is_.View(), less).need < TWO_TO_32
    modifies is_
    ensures is_.Valid()
    ensures v == Decode(s, old(is_.View()), less).value
    ensures is_.View() == Decode(s, old(is_.View()), less).rest
    ensures is_.nReadPos <= old(is_.nReadPos) + Decode(s, old(is_.View()), less).need
    decreases Rank(s), 0
  {
    hide CompactSize.Taking, CompactSize.Read, InsertAll, DecodeMany, ManyReachable, InReach;
    match s {
      case SInt(w) =>
        var x := is_.Read(w);
        v := VInt(FromLE(x));
      case SBool =>
        var f := is_.Read(1);
        v := VBool(f[0] != 0);
      case SStr =>
        var nSizeRet := ReadCompactSize(is_);
        var nSize := nSizeRet % TWO_TO_32;
        var chars: seq<Byte> := [];
        if nSize != 0 {
          chars := is_.Read(nSize);
        }
        v := VStr(chars);
      case SVec(e) =>
        var elems;
        if e.SInt? {
          elems := UnserializeInts(is_, e.width, less);
        } else {
          elems := UnserializeElems(is_, e, less, sizeOf);
        }
        v := VVec(elems);
      case SPair(a, b) =>
        var x := Unserialize(is_, a, less, sizeOf);
        var y := Unserialize(is_, b, less, sizeOf);
        v := VPair(x, y);
      case SMap(k, x) =>
        var entries := UnserializeSorted(is_, SPair(k, x), Key, less, sizeOf);
        v := VMap(entries);
      case SSet(k) =>
        var keys := UnserializeSorted(is_, k, Whole, less, sizeOf);
        v := VSet(keys);
    }
  }
}
