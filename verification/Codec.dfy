/** The recursive container codecs: what a value of each schema is written as, and
    what a reader makes of any bytes.  `less` is the comparison the maps and sets are
    ordered by. */
module Codec {
  import opened Bytes
  import CompactSize

  datatype Schema =
    | SInt(width: nat)
    | SBool
    | SStr
    | SVec(elem: Schema)
    | SPair(fst: Schema, snd: Schema)
    | SMap(key: Schema, val: Schema)
    | SSet(key: Schema)

  /** Integers are their bit patterns; a map is the list of its entries (pairs) and a
      set the list of its keys, in ascending order. */
  datatype Value =
    | VInt(n: nat)
    | VBool(b: bool)
    | VStr(chars: seq<Byte>)
    | VVec(elems: seq<Value>)
    | VPair(fst: Value, snd: Value)
    | VMap(entries: seq<Value>)
    | VSet(keys: seq<Value>)

  type Less = (Value, Value) -> bool

  ghost predicate StrictOrder(less: Less) {
    && (forall x :: !less(x, x))
    && (forall x, y, z :: less(x, y) && less(y, z) ==> less(x, z))
  }

  /** Neither comes before the other: to a map or set they are one key. */
  ghost predicate Same(x: Value, y: Value, less: Less) {
    !less(x, y) && !less(y, x)
  }

  /** What the comparison of a map or set has to be: being the same key is transitive, too. */
  ghost predicate WeakOrder(less: Less) {
    StrictOrder(less) && forall x, y, z :: Same(x, y, less) && Same(y, z, less) ==> Same(x, z, less)
  }

  /** The key an element is ordered by: an entry of a map by its first component. */
  function Key(v: Value): Value {
    if v.VPair? then v.fst else v
  }

  ghost predicate Ascending(vs: seq<Value>, keyOf: Value -> Value, less: Less) {
    forall i, j :: 0 <= i < j < |vs| ==> less(keyOf(vs[i]), keyOf(vs[j]))
  }

  function Whole(v: Value): Value {
    v
  }

  function Rank(s: Schema): nat {
    match s
    case SVec(e) => 1 + Rank(e)
    case SPair(a, b) => 1 + Rank(a) + Rank(b)
    case SMap(k, v) => 2 + Rank(k) + Rank(v)
    case SSet(k) => 1 + Rank(k)
    case _ => 0
  }

  ghost predicate HasType(s: Schema, v: Value, less: Less)
    decreases Rank(s), 0
  {
    match s
    case SInt(w) => v.VInt? && v.n < Power(256, w)
    case SBool => v.VBool?
    case SStr => v.VStr? && |v.chars| < TWO_TO_32
    case SVec(e) => v.VVec? && |v.elems| < TWO_TO_32 && AllHaveType(e, v.elems, less)
    case SPair(a, b) => v.VPair? && HasType(a, v.fst, less) && HasType(b, v.snd, less)
    case SMap(k, x) =>
      && v.VMap? && |v.entries| < TWO_TO_32 && AllHaveType(SPair(k, x), v.entries, less)
      && Ascending(v.entries, Key, less)
    case SSet(k) =>
      && v.VSet? && |v.keys| < TWO_TO_32 && AllHaveType(k, v.keys, less)
      && Ascending(v.keys, Whole, less)
  }

  ghost predicate AllHaveType(s: Schema, vs: seq<Value>, less: Less)
    decreases Rank(s), 1
  {
    forall i :: 0 <= i < |vs| ==> HasType(s, vs[i], less)
  }

  // ---------- writing ----------

  function Encode(s: Schema, v: Value): seq<Byte>
    decreases Rank(s), 0
  {
    match (s, v)
    case (SInt(w), VInt(n)) => ToLE(n, w)
    case (SBool, VBool(b)) => [if b then 1 else 0]
    case (SStr, VStr(chars)) => CompactSize.Write(|chars|) + chars
    case (SVec(e), VVec(vs)) => CompactSize.Write(|vs|) + EncodeAll(e, vs)
    case (SPair(a, b), VPair(x, y)) => Encode(a, x) + Encode(b, y)
    case (SMap(k, x), VMap(es)) => CompactSize.Write(|es|) + EncodeAll(SPair(k, x), es)
    case (SSet(k), VSet(ks)) => CompactSize.Write(|ks|) + EncodeAll(k, ks)
    case _ => []
  }

  function EncodeAll(s: Schema, vs: seq<Value>): seq<Byte>
    decreases Rank(s), 1 + |vs|
  {
    if vs == [] then [] else Encode(s, vs[0]) + EncodeAll(s, vs[1..])
  }

  // ---------- reading ----------

  /** A value, the bytes behind it, and the number of bytes asked for. */
  datatype Decoded<T> = Decoded(value: T, rest: seq<Byte>, need: nat)

  /** The number of elements announced, cut down to the 32-bit loop bound. */
  function Announced(b: seq<Byte>): (n: nat)
    ensures n < TWO_TO_32
  {
    CompactSize.Read(b) % TWO_TO_32
  }

  lemma AnnouncedCut(b: seq<Byte>)
    ensures (CompactSize.Read(b) - Announced(b)) % TWO_TO_32 == 0
  {
  }

  function Behind(b: seq<Byte>): seq<Byte> {
    Rest(b, CompactSize.Taking(b))
  }

  /** Insertion into an ascending list; an element whose key is there already is
      dropped. */
  function Insert(vs: seq<Value>, x: Value, keyOf: Value -> Value, less: Less): seq<Value>
    decreases |vs|
  {
    if vs == [] then [x]
    else if less(keyOf(vs[0]), keyOf(x)) then [vs[0]] + Insert(vs[1..], x, keyOf, less)
    else if less(keyOf(x), keyOf(vs[0])) then [x] + vs
    else vs
  }

  function InsertAll(vs: seq<Value>, keyOf: Value -> Value, less: Less): seq<Value>
    decreases |vs|
  {
    if vs == [] then []
    else Insert(InsertAll(vs[..|vs| - 1], keyOf, less), vs[|vs| - 1], keyOf, less)
  }

  function Decode(s: Schema, b: seq<Byte>, less: Less): Decoded<Value>
    decreases Rank(s), 0
  {
    match s
    case SInt(w) => Decoded(VInt(FromLE(Taken(b, w))), Rest(b, w), w)
    case SBool => Decoded(VBool(Taken(b, 1)[0] != 0), Rest(b, 1), 1)
    case SStr =>
      var n := Announced(b);
      Decoded(VStr(Taken(Behind(b), n)), Rest(Behind(b), n), CompactSize.Taking(b) + n)
    case SVec(e) =>
      var d := DecodeMany(e, Announced(b), Behind(b), less);
      Decoded(VVec(d.value), d.rest, CompactSize.Taking(b) + d.need)
    case SPair(x, y) =>
      var d := Decode(x, b, less);
      var f := Decode(y, d.rest, less);
      Decoded(VPair(d.value, f.value), f.rest, d.need + f.need)
    case SMap(k, x) =>
      var d := DecodeMany(SPair(k, x), Announced(b), Behind(b), less);
      Decoded(VMap(InsertAll(d.value, Key, less)), d.rest, CompactSize.Taking(b) + d.need)
    case SSet(k) =>
      var d := DecodeMany(k, Announced(b), Behind(b), less);
      Decoded(VSet(InsertAll(d.value, Whole, less)), d.rest, CompactSize.Taking(b) + d.need)
  }

  /** `n` elements, one after the other. */
  function DecodeMany(s: Schema, n: nat, b: seq<Byte>, less: Less): (d: Decoded<seq<Value>>)
    ensures |d.value| == n
    decreases Rank(s), 1 + n
  {
    if n == 0 then Decoded([], b, 0)
    else
      var d := DecodeMany(s, n - 1, b, less);
      var f := Decode(s, d.rest, less);
      Decoded(d.value + [f.value], f.rest, d.need + f.need)
  }

  // ---------- ordered containers ----------

  lemma {:induction false} InsertLast(vs: seq<Value>, x: Value, keyOf: Value -> Value, less: Less)
    requires forall i :: 0 <= i < |vs| ==> less(keyOf(vs[i]), keyOf(x))
    ensures Insert(vs, x, keyOf, less) == vs + [x]
    decreases |vs|
  {
    if vs != [] {
      InsertLast(vs[1..], x, keyOf, less);
      assert [vs[0]] + (vs[1..] + [x]) == vs + [x];
    }
  }

  /** Elements that come in ascending order are all kept, in that order. */
  lemma {:induction false} InsertAscending(vs: seq<Value>, keyOf: Value -> Value, less: Less)
    requires Ascending(vs, keyOf, less)
    ensures InsertAll(vs, keyOf, less) == vs
    decreases |vs|
  {
    if vs != [] {
      var front := vs[..|vs| - 1];
      InsertAscending(front, keyOf, less);
      InsertLast(front, vs[|vs| - 1], keyOf, less);
    }
  }

  /** Insertion keeps the list ascending and adds nothing but the new element. */
  lemma {:induction false} InsertKeepsAscending(vs: seq<Value>, x: Value, keyOf: Value -> Value, less: Less)
    requires StrictOrder(less) && Ascending(vs, keyOf, less)
    ensures var r := Insert(vs, x, keyOf, less);
            && Ascending(r, keyOf, less)
            && |r| <= |vs| + 1
            && forall y :: y in r ==> y == x || y in vs
    decreases |vs|
  {
    if vs != [] && less(keyOf(vs[0]), keyOf(x)) {
      InsertKeepsAscending(vs[1..], x, keyOf, less);
      var r := Insert(vs[1..], x, keyOf, less);
      assert forall i :: 0 <= i < |r| ==> r[i] in r;
    }
  }

  lemma {:induction false} InsertAllAscending(vs: seq<Value>, keyOf: Value -> Value, less: Less)
    requires StrictOrder(less)
    ensures var r := InsertAll(vs, keyOf, less);
            && Ascending(r, keyOf, less)
            && |r| <= |vs|
            && forall y :: y in r ==> y in vs
    decreases |vs|
  {
    if vs != [] {
      var front := vs[..|vs| - 1];
      InsertAllAscending(front, keyOf, less);
      InsertKeepsAscending(InsertAll(front, keyOf, less), vs[|vs| - 1], keyOf, less);
    }
  }

  // ---------- what maps and sets keep ----------

  ghost predicate Holds(vs: seq<Value>, key: Value, keyOf: Value -> Value, less: Less) {
    exists i :: 0 <= i < |vs| && Same(keyOf(vs[i]), key, less)
  }

  /** A list whose key is there already stays as it is; otherwise the new element is put
      into it, and all of it stays, in order. */
  lemma {:induction false} InsertExact(vs: seq<Value>, x: Value, keyOf: Value -> Value, less: Less)
    requires StrictOrder(less) && Ascending(vs, keyOf, less)
    ensures var r := Insert(vs, x, keyOf, less);
            if Holds(vs, keyOf(x), keyOf, less) then r == vs
            else exists k :: 0 <= k <= |vs| && r == vs[..k] + [x] + vs[k..]
    decreases |vs|
  {
    var r := Insert(vs, x, keyOf, less);
    if vs == [] {
      assert r == vs[..0] + [x] + vs[0..];
    } else if less(keyOf(vs[0]), keyOf(x)) {
      InsertExact(vs[1..], x, keyOf, less);
      HoldsRest(vs, keyOf(x), keyOf, less);
      if !Holds(vs, keyOf(x), keyOf, less) {
        var k :| 0 <= k <= |vs| - 1 && Insert(vs[1..], x, keyOf, less) == vs[1..][..k] + [x] + vs[1..][k..];
        assert r == vs[..k + 1] + [x] + vs[k + 1..];
      }
    } else if less(keyOf(x), keyOf(vs[0])) {
      assert r == vs[..0] + [x] + vs[0..];
      forall i | 0 <= i < |vs|
        ensures less(keyOf(x), keyOf(vs[i]))
      {
      }
    } else {
      assert Same(keyOf(vs[0]), keyOf(x), less);
    }
  }

  lemma HoldsRest(vs: seq<Value>, key: Value, keyOf: Value -> Value, less: Less)
    requires vs != [] && !Same(keyOf(vs[0]), key, less)
    ensures Holds(vs, key, keyOf, less) <==> Holds(vs[1..], key, keyOf, less)
  {
    if Holds(vs, key, keyOf, less) {
      var i :| 0 <= i < |vs| && Same(keyOf(vs[i]), key, less);
      assert Same(keyOf(vs[1..][i - 1]), key, less);
    }
    if Holds(vs[1..], key, keyOf, less) {
      var i :| 0 <= i < |vs[1..]| && Same(keyOf(vs[1..][i]), key, less);
      assert Same(keyOf(vs[i + 1]), key, less);
    }
  }

  /** No element before place `i` has the same key. */
  ghost predicate First(vs: seq<Value>, i: nat, keyOf: Value -> Value, less: Less)
    requires i < |vs|
  {
    !Holds(vs[..i], keyOf(vs[i]), keyOf, less)
  }

  /** What is read into a map or set: of all elements, exactly those that are the first
      with their key. */
  lemma {:induction false} InsertAllExact(vs: seq<Value>, keyOf: Value -> Value, less: Less)
    requires WeakOrder(less)
    ensures var r := InsertAll(vs, keyOf, less);
            && Ascending(r, keyOf, less)
            && (forall y :: y in r <==> exists i :: 0 <= i < |vs| && First(vs, i, keyOf, less) && vs[i] == y)
    ensures forall key :: Holds(vs, key, keyOf, less) <==> Holds(InsertAll(vs, keyOf, less), key, keyOf, less)
    decreases |vs|
  {
    InsertAllAscending(vs, keyOf, less);
    if vs != [] {
      var n := |vs| - 1;
      InsertAllExact(vs[..n], keyOf, less);
      OneMore(vs, keyOf, less);
      forall key
        ensures Holds(vs, key, keyOf, less) <==> Holds(InsertAll(vs, keyOf, less), key, keyOf, less)
      {
        OneMoreKey(vs, key, keyOf, less);
      }
    }
  }

  /** The last element arrives exactly when it is the first with its key. */
  lemma LastArrives(vs: seq<Value>, keyOf: Value -> Value, less: Less)
    requires vs != [] && StrictOrder(less)
    requires var n := |vs| - 1;
             Holds(vs[..n], keyOf(vs[n]), keyOf, less) <==>
             Holds(InsertAll(vs[..n], keyOf, less), keyOf(vs[n]), keyOf, less)
    ensures var n := |vs| - 1;
            var front := InsertAll(vs[..n], keyOf, less);
            var r := InsertAll(vs, keyOf, less);
            if First(vs, n, keyOf, less) then forall y :: y in r <==> y == vs[n] || y in front
            else r == front
  {
    hide Holds, Insert, StrictOrder, Ascending;
    var n := |vs| - 1;
    var front := InsertAll(vs[..n], keyOf, less);
    InsertAllAscending(vs[..n], keyOf, less);
    InsertExact(front, vs[n], keyOf, less);
    if First(vs, n, keyOf, less) {
      var k :| 0 <= k <= |front| && InsertAll(vs, keyOf, less) == front[..k] + [vs[n]] + front[k..];
      PutIn(front, k, vs[n]);
    }
  }

  lemma PutIn(vs: seq<Value>, k: nat, x: Value)
    requires k <= |vs|
    ensures forall y :: y in vs[..k] + [x] + vs[k..] <==> y == x || y in vs
  {
    assert vs == vs[..k] + vs[k..];
  }

  lemma OneMore(vs: seq<Value>, keyOf: Value -> Value, less: Less)
    requires vs != [] && StrictOrder(less)
    requires var n := |vs| - 1;
             && (forall key :: Holds(vs[..n], key, keyOf, less) <==> Holds(InsertAll(vs[..n], keyOf, less), key, keyOf, less))
             && (forall y :: y in InsertAll(vs[..n], keyOf, less) <==>
                   exists i :: 0 <= i < n && First(vs[..n], i, keyOf, less) && vs[..n][i] == y)
    ensures forall y :: y in InsertAll(vs, keyOf, less) <==>
              exists i :: 0 <= i < |vs| && First(vs, i, keyOf, less) && vs[i] == y
  {
    hide Holds, InsertAll;
    var n := |vs| - 1;
    LastArrives(vs, keyOf, less);
    forall i | 0 <= i < n
      ensures First(vs[..n], i, keyOf, less) <==> First(vs, i, keyOf, less)
      ensures vs[..n][i] == vs[i]
    {
      assert vs[..n][..i] == vs[..i];
    }
  }

  lemma HoldsMember(vs: seq<Value>, key: Value, keyOf: Value -> Value, less: Less)
    ensures Holds(vs, key, keyOf, less) <==> exists y :: y in vs && Same(keyOf(y), key, less)
  {
    if y :| y in vs && Same(keyOf(y), key, less) {
      var i :| 0 <= i < |vs| && vs[i] == y;
    }
    if i :| 0 <= i < |vs| && Same(keyOf(vs[i]), key, less) {
      assert vs[i] in vs;
    }
  }

  lemma OneMoreKey(vs: seq<Value>, key: Value, keyOf: Value -> Value, less: Less)
    requires vs != [] && WeakOrder(less)
    requires var n := |vs| - 1;
             forall k :: Holds(vs[..n], k, keyOf, less) <==> Holds(InsertAll(vs[..n], keyOf, less), k, keyOf, less)
    ensures Holds(vs, key, keyOf, less) <==> Holds(InsertAll(vs, keyOf, less), key, keyOf, less)
  {
    hide Holds, InsertAll;
    var n := |vs| - 1;
    var front, r := InsertAll(vs[..n], keyOf, less), InsertAll(vs, keyOf, less);
    LastArrives(vs, keyOf, less);
    HoldsMember(vs, key, keyOf, less);
    HoldsMember(vs[..n], key, keyOf, less);
    HoldsMember(front, key, keyOf, less);
    HoldsMember(r, key, keyOf, less);
    HoldsMember(vs[..n], keyOf(vs[n]), keyOf, less);
    assert vs == vs[..n] + [vs[n]];
    if !First(vs, n, keyOf, less) && Same(keyOf(vs[n]), key, less) {
      var y :| y in vs[..n] && Same(keyOf(y), keyOf(vs[n]), less);
      assert Same(keyOf(y), key, less);
    }
  }

  // ---------- round trip ----------

  lemma ReadSize(n: nat, rest: seq<Byte>)
    requires n < TWO_TO_32
    ensures var b := CompactSize.Write(n) + rest;
            Announced(b) == n && Behind(b) == rest && CompactSize.Taking(b) == |CompactSize.Write(n)|
  {
    CompactSize.ReadWritten(n, rest);
  }

  /** Decoding what was encoded gives the value back, leaves exactly what stood behind
      it, and asks for no byte more. */
  lemma {:induction false} RoundTrip(s: Schema, v: Value, rest: seq<Byte>, less: Less)
    requires HasType(s, v, less)
    ensures Decode(s, Encode(s, v) + rest, less) == Decoded(v, rest, |Encode(s, v)|)
    decreases Rank(s), 1
  {
    hide CompactSize.Write, CompactSize.Taking, Announced, Behind, Ascending, AllHaveType, InsertAll, DecodeMany;
    match s
    case SInt(w) =>
      FromToLE(v.n, w);
      TakenWhole(ToLE(v.n, w), rest);
    case SBool =>
      TakenWhole(Encode(s, v), rest);
    case SStr =>
      RoundTripStr(v.chars, rest, less);
    case SVec(e) =>
      RoundTripCounted(e, v.elems, rest, less);
    case SPair(a, b) =>
      RoundTripPair(a, b, v, rest, less);
    case SMap(k, x) =>
      RoundTripCounted(SPair(k, x), v.entries, rest, less);
      InsertAscending(v.entries, Key, less);
    case SSet(k) =>
      RoundTripCounted(k, v.keys, rest, less);
      InsertAscending(v.keys, Whole, less);
  }

  lemma RoundTripStr(chars: seq<Byte>, rest: seq<Byte>, less: Less)
    requires |chars| < TWO_TO_32
    ensures Decode(SStr, Encode(SStr, VStr(chars)) + rest, less) ==
            Decoded(VStr(chars), rest, |Encode(SStr, VStr(chars))|)
  {
    hide CompactSize.Write, CompactSize.Taking, Announced, Behind;
    assert Encode(SStr, VStr(chars)) + rest == CompactSize.Write(|chars|) + (chars + rest);
    ReadSize(|chars|, chars + rest);
    TakenWhole(chars, rest);
  }

  lemma {:induction false} RoundTripPair(a: Schema, b: Schema, v: Value, rest: seq<Byte>, less: Less)
    requires HasType(SPair(a, b), v, less)
    ensures Decode(SPair(a, b), Encode(SPair(a, b), v) + rest, less) ==
            Decoded(v, rest, |Encode(SPair(a, b), v)|)
    decreases Rank(SPair(a, b)), 0
  {
    var s := SPair(a, b);
    assert Encode(s, v) + rest == Encode(a, v.fst) + (Encode(b, v.snd) + rest);
    RoundTrip(a, v.fst, Encode(b, v.snd) + rest, less);
    RoundTrip(b, v.snd, rest, less);
  }

  /** The number of elements, then the elements. */
  lemma {:induction false} RoundTripCounted(s: Schema, vs: seq<Value>, rest: seq<Byte>, less: Less)
    requires AllHaveType(s, vs, less) && |vs| < TWO_TO_32
    ensures var b := CompactSize.Write(|vs|) + EncodeAll(s, vs) + rest;
            && Announced(b) == |vs| && CompactSize.Taking(b) == |CompactSize.Write(|vs|)|
            && DecodeMany(s, |vs|, Behind(b), less) == Decoded(vs, rest, |EncodeAll(s, vs)|)
    decreases Rank(s), 2 + |vs|
  {
    hide CompactSize.Write, CompactSize.Taking, Announced, Behind, Encode, Decode;
    RoundTripAll(s, vs, rest, less);
    assert CompactSize.Write(|vs|) + EncodeAll(s, vs) + rest == CompactSize.Write(|vs|) + (EncodeAll(s, vs) + rest);
    ReadSize(|vs|, EncodeAll(s, vs) + rest);
  }

  lemma {:induction false} EncodeAllSnoc(s: Schema, vs: seq<Value>)
    requires vs != []
    ensures var n := |vs| - 1; EncodeAll(s, vs) == EncodeAll(s, vs[..n]) + Encode(s, vs[n])
    decreases |vs|
  {
    if |vs| > 1 {
      EncodeAllSnoc(s, vs[1..]);
      assert vs[1..][..|vs| - 2] == vs[..|vs| - 1][1..];
      assert vs[..|vs| - 1][0] == vs[0];
    }
  }

  lemma {:induction false} RoundTripAll(s: Schema, vs: seq<Value>, rest: seq<Byte>, less: Less)
    requires AllHaveType(s, vs, less)
    ensures DecodeMany(s, |vs|, EncodeAll(s, vs) + rest, less) == Decoded(vs, rest, |EncodeAll(s, vs)|)
    decreases Rank(s), 1 + |vs|
  {
    hide Encode, Decode, HasType;
    if vs == [] {
      assert EncodeAll(s, vs) + rest == rest;
    } else {
      var n := |vs| - 1;
      EncodeAllSnoc(s, vs);
      assert EncodeAll(s, vs) + rest == EncodeAll(s, vs[..n]) + (Encode(s, vs[n]) + rest);
      RoundTripAll(s, vs[..n], Encode(s, vs[n]) + rest, less);
      RoundTrip(s, vs[n], rest, less);
      assert vs == vs[..n] + [vs[n]];
    }
  }

  lemma {:induction false} DecodeManyPrefix(s: Schema, i: nat, n: nat, b: seq<Byte>, less: Less)
    requires i <= n
    ensures DecodeMany(s, i, b, less).value == DecodeMany(s, n, b, less).value[..i]
    decreases n
  {
    hide Decode;
    if i < n {
      DecodeManyPrefix(s, i, n - 1, b, less);
    }
  }

  /** A number, the announced one, and behind it the elements in their order. */
  ghost predicate Counted(b: seq<Byte>, s: Schema, vs: seq<Value>, less: Less) {
    && Announced(b) == |vs|
    && forall i :: 0 <= i <= |vs| ==> DecodeMany(s, i, Behind(b), less).value == vs[..i]
  }

  lemma CountedLayout(s: Schema, vs: seq<Value>, less: Less)
    requires AllHaveType(s, vs, less) && |vs| < TWO_TO_32
    ensures Counted(CompactSize.Write(|vs|) + EncodeAll(s, vs), s, vs, less)
  {
    hide CompactSize.Write, Announced, Behind, DecodeMany, EncodeAll;
    RoundTripCounted(s, vs, [], less);
    var b := CompactSize.Write(|vs|) + EncodeAll(s, vs);
    assert b + [] == b;
    forall i | 0 <= i <= |vs|
      ensures DecodeMany(s, i, Behind(b), less).value == vs[..i]
    {
      DecodeManyPrefix(s, i, |vs|, Behind(b), less);
    }
  }

  /** Where the bytes of a value are: a number has its digits least significant first, truth
      is one byte, a string stands behind its length, the first component of a pair is
      read before the second, and elements, entries and keys follow their number in
      order. */
  ghost predicate LaidOut(s: Schema, v: Value, b: seq<Byte>, less: Less)
    requires HasType(s, v, less)
  {
    match s
    case SInt(w) =>
      |b| == w && forall i :: 0 <= i < w ==> Power(256, i) > 0 && b[i] == v.n / Power(256, i) % 256
    case SBool => b == [if v.b then 1 else 0]
    case SStr => Announced(b) == |v.chars| && Behind(b) == v.chars
    case SVec(e) => Counted(b, e, v.elems, less)
    case SPair(x, y) =>
      && Decode(x, b, less).value == v.fst
      && Decode(y, Decode(x, b, less).rest, less).value == v.snd
    case SMap(k, x) => Counted(b, SPair(k, x), v.entries, less)
    case SSet(k) => Counted(b, k, v.keys, less)
  }

  lemma Layout(s: Schema, v: Value, less: Less)
    requires HasType(s, v, less)
    ensures LaidOut(s, v, Encode(s, v), less)
  {
    hide CompactSize.Write, Announced, Behind, Counted, AllHaveType, Ascending, EncodeAll, DecodeMany;
    match s
    case SInt(w) =>
      forall i | 0 <= i < w
        ensures Power(256, i) > 0 && ToLE(v.n, w)[i] == v.n / Power(256, i) % 256
      {
        ToLEAt(v.n, w, i);
      }
    case SBool =>
    case SStr =>
      ReadSize(|v.chars|, v.chars);
    case SVec(e) => CountedLayout(e, v.elems, less);
    case SPair(x, y) =>
      RoundTrip(x, v.fst, Encode(y, v.snd), less);
      RoundTrip(y, v.snd, [], less);
      assert Encode(y, v.snd) + [] == Encode(y, v.snd);
    case SMap(k, x) => CountedLayout(SPair(k, x), v.entries, less);
    case SSet(k) => CountedLayout(k, v.keys, less);
  }

  /** Any byte but zero is read as true. */
  lemma AnyByteIsTrue(b: seq<Byte>, less: Less)
    requires b != []
    ensures Decode(SBool, b, less).value == VBool(b[0] != 0)
  {
  }

  /** Two values written one after another with other bytes cannot be confused. */
  lemma Unambiguous(s: Schema, v: Value, v': Value, rest: seq<Byte>, rest': seq<Byte>, less: Less)
    requires HasType(s, v, less) && HasType(s, v', less)
    requires Encode(s, v) + rest == Encode(s, v') + rest'
    ensures v == v' && rest == rest'
  {
    RoundTrip(s, v, rest, less);
    RoundTrip(s, v', rest', less);
  }

  // ---------- arbitrary input ----------

  /** Whatever the bytes, the reader delivers a value of the schema: in range, and its
      maps and sets ascending without repetition. */
  lemma {:induction false} DecodeHasType(s: Schema, b: seq<Byte>, less: Less)
    requires StrictOrder(less)
    ensures HasType(s, Decode(s, b, less).value, less)
    decreases Rank(s), 0
  {
    match s
    case SInt(w) =>
      FromLEBound(Taken(b, w));
    case SBool =>
    case SStr =>
    case SVec(e) =>
      DecodeManyHasType(e, Announced(b), Behind(b), less);
    case SPair(x, y) =>
      DecodeHasType(x, b, less);
      DecodeHasType(y, Decode(x, b, less).rest, less);
    case SMap(k, x) =>
      var d := DecodeMany(SPair(k, x), Announced(b), Behind(b), less);
      DecodeManyHasType(SPair(k, x), Announced(b), Behind(b), less);
      KeptHasType(SPair(k, x), d.value, Key, less);
    case SSet(k) =>
      var d := DecodeMany(k, Announced(b), Behind(b), less);
      DecodeManyHasType(k, Announced(b), Behind(b), less);
      KeptHasType(k, d.value, Whole, less);
  }

  lemma KeptHasType(s: Schema, vs: seq<Value>, keyOf: Value -> Value, less: Less)
    requires StrictOrder(less) && AllHaveType(s, vs, less)
    ensures var r := InsertAll(vs, keyOf, less);
            |r| <= |vs| && AllHaveType(s, r, less) && Ascending(r, keyOf, less)
  {
    InsertAllAscending(vs, keyOf, less);
    var r := InsertAll(vs, keyOf, less);
    forall i | 0 <= i < |r|
      ensures HasType(s, r[i], less)
    {
      assert r[i] in vs;
    }
  }

  lemma {:induction false} DecodeManyHasType(s: Schema, n: nat, b: seq<Byte>, less: Less)
    requires StrictOrder(less)
    ensures AllHaveType(s, DecodeMany(s, n, b, less).value, less)
    decreases Rank(s), 1 + n
  {
    if n > 0 {
      DecodeManyHasType(s, n - 1, b, less);
      DecodeHasType(s, DecodeMany(s, n - 1, b, less).rest, less);
    }
  }

  /** Reading, writing and reading again changes nothing, whatever was read first. */
  lemma Normalises(s: Schema, b: seq<Byte>, rest: seq<Byte>, less: Less)
    requires StrictOrder(less)
    ensures var v := Decode(s, b, less).value;
            Decode(s, Encode(s, v) + rest, less) == Decoded(v, rest, |Encode(s, v)|)
  {
    DecodeHasType(s, b, less);
    RoundTrip(s, Decode(s, b, less).value, rest, less);
  }

  /** A reader leaves what is behind the bytes it asked for. */
  lemma {:induction false} DecodeRest(s: Schema, b: seq<Byte>, less: Less)
    ensures Decode(s, b, less).rest == Rest(b, Decode(s, b, less).need)
    decreases Rank(s), 0
  {
    hide CompactSize.Taking, Announced, Rest, Taken, FromLE, InsertAll;
    match s
    case SInt(w) =>
    case SBool =>
    case SStr =>
      TakenSplit(b, CompactSize.Taking(b), Announced(b));
    case SVec(e) =>
      DecodeManyRest(e, Announced(b), Behind(b), less);
      TakenSplit(b, CompactSize.Taking(b), DecodeMany(e, Announced(b), Behind(b), less).need);
    case SPair(x, y) =>
      var d := Decode(x, b, less);
      DecodeRest(x, b, less);
      DecodeRest(y, d.rest, less);
      TakenSplit(b, d.need, Decode(y, d.rest, less).need);
    case SMap(k, x) =>
      DecodeManyRest(SPair(k, x), Announced(b), Behind(b), less);
      TakenSplit(b, CompactSize.Taking(b), DecodeMany(SPair(k, x), Announced(b), Behind(b), less).need);
    case SSet(k) =>
      DecodeManyRest(k, Announced(b), Behind(b), less);
      TakenSplit(b, CompactSize.Taking(b), DecodeMany(k, Announced(b), Behind(b), less).need);
  }

  lemma {:induction false} DecodeManyRest(s: Schema, n: nat, b: seq<Byte>, less: Less)
    ensures DecodeMany(s, n, b, less).rest == Rest(b, DecodeMany(s, n, b, less).need)
    decreases Rank(s), 1 + n
  {
    hide Decode;
    if n > 0 {
      var d := DecodeMany(s, n - 1, b, less);
      DecodeManyRest(s, n - 1, b, less);
      DecodeRest(s, d.rest, less);
      TakenSplit(b, d.need, Decode(s, d.rest, less).need);
    }
  }

  // ---------- sizes ----------

  function SizeOf(s: Schema, v: Value): nat
    decreases Rank(s), 0
  {
    match (s, v)
    case (SInt(w), VInt(n)) => w
    case (SBool, VBool(b)) => 1
    case (SStr, VStr(chars)) => CompactSize.SizeOf(|chars|) + |chars|
    case (SVec(e), VVec(vs)) =>
      if e.SInt? then CompactSize.SizeOf(|vs|) + |vs| * e.width
      else SizeOfAll(e, vs, CompactSize.SizeOf(|vs|))
    case (SPair(a, b), VPair(x, y)) => SizeOf(a, x) + SizeOf(b, y)
    case (SMap(k, x), VMap(es)) => SizeOfAll(SPair(k, x), es, CompactSize.SizeOf(|es|))
    case (SSet(k), VSet(ks)) => SizeOfAll(k, ks, CompactSize.SizeOf(|ks|))
    case _ => 0
  }

  /** The running sum over the elements. */
  function SizeOfAll(s: Schema, vs: seq<Value>, sum: nat): nat
    decreases Rank(s), 1 + |vs|
  {
    if vs == [] then sum else SizeOfAll(s, vs[1..], sum + SizeOf(s, vs[0]))
  }

  /** The size announced before writing is the number of bytes written. */
  lemma {:induction false} SizeIsExact(s: Schema, v: Value, less: Less)
    requires HasType(s, v, less)
    ensures SizeOf(s, v) == |Encode(s, v)|
    decreases Rank(s), 0
  {
    match s
    case SInt(w) =>
    case SBool =>
    case SStr =>
      CompactSize.ReadWritten(|v.chars|, []);
    case SVec(e) =>
      CompactSize.ReadWritten(|v.elems|, []);
      if e.SInt? {
        IntsLength(e.width, v.elems, less);
      } else {
        SizeIsExactAll(e, v.elems, CompactSize.SizeOf(|v.elems|), less);
      }
    case SPair(a, b) =>
      SizeIsExact(a, v.fst, less);
      SizeIsExact(b, v.snd, less);
    case SMap(k, x) =>
      CompactSize.ReadWritten(|v.entries|, []);
      SizeIsExactAll(SPair(k, x), v.entries, CompactSize.SizeOf(|v.entries|), less);
    case SSet(k) =>
      CompactSize.ReadWritten(|v.keys|, []);
      SizeIsExactAll(k, v.keys, CompactSize.SizeOf(|v.keys|), less);
  }

  lemma {:induction false} SizeIsExactAll(s: Schema, vs: seq<Value>, sum: nat, less: Less)
    requires AllHaveType(s, vs, less)
    ensures SizeOfAll(s, vs, sum) == sum + |EncodeAll(s, vs)|
    decreases Rank(s), 1 + |vs|
  {
    if vs != [] {
      SizeIsExact(s, vs[0], less);
      SizeIsExactAll(s, vs[1..], sum + SizeOf(s, vs[0]), less);
    }
  }

  lemma {:induction false} IntsLength(w: nat, vs: seq<Value>, less: Less)
    requires AllHaveType(SInt(w), vs, less)
    ensures |EncodeAll(SInt(w), vs)| == |vs| * w
    decreases |vs|
  {
    if vs != [] {
      IntsLength(w, vs[1..], less);
      assert HasType(SInt(w), vs[0], less);
      assert |vs| * w == w + |vs[1..]| * w;
    }
  }
}
