/** Variable-length integers: base-128 digits, most significant first, with one
    taken off every digit but the last so that every number has one encoding. */
module VarInt {
  import opened Arithmetic
  import opened Bytes
  import opened DataStreams

  // ---------- the code ----------

  /** The bytes of `n`; `flag` is the top bit of the last one. */
  function Digits(n: nat, flag: nat): (b: seq<Byte>)
    requires flag == 0 || flag == 128
    ensures |b| > 0
  {
    if n <= 127 then [n + flag] else Digits(n / 128 - 1, 128) + [n % 128 + flag]
  }

  function Encode(n: nat): seq<Byte> {
    Digits(n, 0)
  }

  /** Every byte but the last has its top bit set; the last has not. */
  predicate WellFormed(b: seq<Byte>) {
    |b| > 0 && b[|b| - 1] < 128 && forall i :: 0 <= i < |b| - 1 ==> b[i] >= 128
  }

  function Value(b: seq<Byte>): nat
    requires |b| > 0
  {
    var n := |b| - 1;
    if n == 0 then b[0] % 128 else (Value(b[..n]) + 1) * 128 + b[n] % 128
  }

  /** The last digit of a number and the number in front of it. */
  lemma DigitsNext(m: nat, d: nat, flag: nat)
    requires d < 128 && (flag == 0 || flag == 128)
    ensures Digits((m + 1) * 128 + d, flag) == Digits(m, 128) + [d + flag]
  {
  }

  lemma DigitsOne(d: nat, flag: nat)
    requires d < 128 && (flag == 0 || flag == 128)
    ensures Digits(d, flag) == [d + flag]
  {
  }

  lemma ValueNext(b: seq<Byte>, x: Byte)
    requires |b| > 0
    ensures Value(b + [x]) == (Value(b) + 1) * 128 + x % 128
  {
    assert (b + [x])[..|b|] == b;
  }

  lemma ValueOne(x: Byte)
    ensures Value([x]) == x % 128
  {
  }

  lemma SplitNumber(n: nat) returns (m: nat, d: nat)
    requires n > 127
    ensures d < 128 && n == (m + 1) * 128 + d && m < n
  {
    m, d := n / 128 - 1, n % 128;
  }

  lemma {:induction false} DigitsFlags(n: nat, flag: nat)
    requires flag == 0 || flag == 128
    ensures var b := Digits(n, flag);
            && (forall i :: 0 <= i < |b| - 1 ==> b[i] >= 128)
            && (b[|b| - 1] >= 128 <==> flag == 128)
            && Value(b) == n
    decreases n
  {
    hide Digits, Value;
    if n > 127 {
      var m, d := SplitNumber(n);
      DigitsFlags(m, 128);
      DigitsNext(m, d, flag);
      ValueNext(Digits(m, 128), d + flag);
    } else {
      DigitsOne(n, flag);
      ValueOne(n + flag);
    }
  }

  lemma {:induction false} DigitsOfValue(b: seq<Byte>, flag: nat)
    requires |b| > 0 && (flag == 0 || flag == 128)
    requires forall i :: 0 <= i < |b| - 1 ==> b[i] >= 128
    requires b[|b| - 1] >= 128 <==> flag == 128
    ensures Digits(Value(b), flag) == b
    decreases |b|
  {
    hide Digits, Value;
    var n := |b| - 1;
    var x := b[n];
    assert x == x % 128 + flag;
    if n > 0 {
      DigitsOfValue(b[..n], 128);
      ValueNext(b[..n], x);
      DigitsNext(Value(b[..n]), x % 128, flag);
      assert b == b[..n] + [x];
    } else {
      assert b == [x];
      ValueOne(x);
      DigitsOne(x % 128, flag);
    }
  }

  /** The code is a bijection between the numbers and the well-formed strings. */
  lemma Bijection(n: nat, b: seq<Byte>)
    ensures WellFormed(Encode(n)) && Value(Encode(n)) == n
    ensures WellFormed(b) ==> Encode(Value(b)) == b
    ensures WellFormed(b) ==> (Encode(n) == b <==> n == Value(b))
  {
    DigitsFlags(n, 0);
    if WellFormed(b) {
      DigitsOfValue(b, 0);
    }
  }

  // ---------- the closed sum ----------

  /** The numbers listed beside the code; for 16511 and 65535 it lists other bytes. */
  lemma CommentExamples()
    ensures Encode(0) == [0x00] && Encode(127) == [0x7F]
    ensures Encode(128) == [0x80, 0x00] && Encode(255) == [0x80, 0x7F] && Encode(256) == [0x81, 0x00]
    ensures Encode(16383) == [0xFE, 0x7F] && Encode(16384) == [0xFF, 0x00]
    ensures Encode(0x1_0000_0000) == [0x8E, 0xFE, 0xFE, 0xFF, 0x00]
    ensures Encode(16511) == [0xFF, 0x7F] != [0x80, 0xFF, 0x7F]
    ensures Encode(65535) == [0x82, 0xFE, 0x7F] != [0x82, 0xFD, 0x7F]
  {
    hide Digits;
    OneDigit(0);
    OneDigit(127);
    TwoDigits(0, 0);
    TwoDigits(0, 127);
    TwoDigits(1, 0);
    TwoDigits(126, 127);
    TwoDigits(127, 0);
    TwoDigits(127, 127);
    DigitsNext(510, 127, 0);
    DigitsNext(2, 126, 128);
    DigitsOne(2, 128);
    DigitsNext(33_554_431, 0, 0);
    DigitsNext(262_142, 127, 128);
    DigitsNext(2046, 126, 128);
    DigitsNext(14, 126, 128);
    DigitsOne(14, 128);
  }

  lemma OneDigit(d: nat)
    requires d < 128
    ensures Encode(d) == [d]
  {
    DigitsOne(d, 0);
  }

  lemma TwoDigits(m: nat, d: nat)
    requires m < 128 && d < 128
    ensures Encode((m + 1) * 128 + d) == [m + 128, d]
  {
    DigitsNext(m, d, 0);
    DigitsOne(m, 128);
  }

  /** The sum over the digits `1..k` counted from the end, each raised by one. */
  function RaisedSum(b: seq<Byte>, k: nat): nat
    requires k < |b|
  {
    if k == 0 then 0 else RaisedSum(b, k - 1) + Power(128, k) * (b[|b| - 1 - k] % 128 + 1)
  }

  lemma {:induction false} RaisedSumShift(b: seq<Byte>, k: nat)
    requires k + 1 < |b|
    ensures RaisedSum(b, k + 1) == 128 * (RaisedSum(b[..|b| - 1], k) + (b[|b| - 2] % 128 + 1))
  {
    var front := b[..|b| - 1];
    if k > 0 {
      RaisedSumShift(b, k - 1);
      RaisedTerm(b, k);
      assert RaisedSum(b, k + 1) == RaisedSum(b, k) + Power(128, k + 1) * (b[|b| - 2 - k] % 128 + 1);
    } else {
      assert RaisedSum(b, 1) == RaisedSum(b, 0) + Power(128, 1) * (b[|b| - 2] % 128 + 1);
      assert Power(128, 1) == 128 * Power(128, 0);
    }
  }

  /** A term of the sum is 128 times its neighbour's in the string without the last byte. */
  lemma RaisedTerm(b: seq<Byte>, k: nat)
    requires 0 < k && k + 1 < |b|
    ensures Power(128, k + 1) * (b[|b| - 2 - k] % 128 + 1) ==
            128 * (RaisedSum(b[..|b| - 1], k) - RaisedSum(b[..|b| - 1], k - 1))
  {
    var front, x, p := b[..|b| - 1], b[|b| - 2 - k] % 128 + 1, Power(128, k);
    assert front[|front| - 1 - k] == b[|b| - 2 - k];
    assert RaisedSum(front, k) == RaisedSum(front, k - 1) + p * x;
    assert Power(128, k + 1) == 128 * p;
    assert (128 * p) * x == 128 * (p * x);
  }

  /** The value is the closed sum over the digits. */
  lemma {:induction false} ClosedSum(b: seq<Byte>)
    requires |b| > 0
    ensures Value(b) == b[|b| - 1] % 128 + RaisedSum(b, |b| - 1)
    decreases |b|
  {
    if |b| > 1 {
      var n := |b| - 1;
      ClosedSum(b[..n]);
      RaisedSumShift(b, n - 1);
    }
  }

  // ---------- length ----------

  /** The first number that needs more than `k` bytes. */
  function Limit(k: nat): nat {
    if k == 0 then 0 else 128 * Limit(k - 1) + 128
  }

  lemma {:induction false} LengthLimit(n: nat, flag: nat, k: nat)
    requires flag == 0 || flag == 128
    ensures |Digits(n, flag)| <= k <==> n < Limit(k)
    decreases n
  {
    if k > 0 {
      if n > 127 {
        LengthLimit(n / 128 - 1, 128, k - 1);
      }
    }
  }

  lemma PowerNext(base: nat, n: nat)
    ensures Power(base, n + 1) == base * Power(base, n)
  {
  }

  lemma PowerSeven(p: nat)
    ensures Power(2, p + 7) == 128 * Power(2, p)
  {
    hide Power;
    PowerNext(2, p);
    PowerNext(2, p + 1);
    PowerNext(2, p + 2);
    PowerNext(2, p + 3);
    PowerNext(2, p + 4);
    PowerNext(2, p + 5);
    PowerNext(2, p + 6);
  }

  lemma {:induction false} LimitAbovePower(k: nat)
    requires k > 0
    ensures Limit(k) >= Power(2, 7 * k)
  {
    var p := 7 * (k - 1);
    PowerSeven(p);
    if k > 1 {
      LimitAbovePower(k - 1);
    }
  }

  lemma {:induction false} PowerGrows(base: nat, m: nat, n: nat)
    requires base > 0 && m <= n
    ensures Power(base, m) <= Power(base, n)
  {
    hide Power;
    if m < n {
      PowerGrows(base, m, n - 1);
      PowerNext(base, n - 1);
      MulMonotone(1, base, Power(base, n - 1));
    }
  }

  /** The room of the temporary array for an integer of `size` bytes. */
  function TmpLength(size: nat): nat {
    (size * 8 + 6) / 7
  }

  /** Every integer of `size` bytes fits the temporary array. */
  lemma FitsTmp(n: nat, size: nat)
    requires size > 0 && n < Power(256, size)
    ensures 0 < |Encode(n)| <= (8 * size + 6) / 7 == TmpLength(size)
  {
    hide Power, Encode;
    var k := TmpLength(size);
    WidthIs(size);
    LimitAbovePower(k);
    PowerGrows(2, 8 * size, 7 * k);
    EncodeLength(n, k);
  }

  lemma EncodeLength(n: nat, k: nat)
    ensures |Encode(n)| <= k <==> n < Limit(k)
    ensures |Encode(n)| > 0
  {
    LengthLimit(n, 0, k);
  }

  /** The values of an integer type of `size` bytes are the numbers of `size` digits to the
      base 256. */
  lemma {:induction false} WidthIs(size: nat)
    ensures Width(size) == Power(2, 8 * size) == Power(256, size)
  {
    hide Power;
    if size == 0 {
      PowerNone(2);
      PowerNone(256);
    } else {
      WidthIs(size - 1);
      PowerSeven(8 * size - 8);
      PowerNext(2, 8 * size - 1);
      PowerNext(256, size - 1);
    }
  }

  lemma PowerNone(base: nat)
    ensures Power(base, 0) == 1
  {
  }

  /** Eight, sixteen, thirty-two and sixty-four bits. */
  lemma WidthValues()
    ensures Width(1) == 0x100 && Width(2) == 0x1_0000 && Width(4) == 0x1_0000_0000
    ensures Width(8) == 0x1_0000_0000_0000_0000
  {
    hide Power;
    WidthIs(1);
    WidthIs(2);
    WidthIs(4);
    WidthIs(8);
    PowerNone(256);
    PowerNext(256, 0);
    PowerNext(256, 1);
    PowerNext(256, 2);
    PowerNext(256, 3);
    PowerNext(256, 4);
    PowerNext(256, 5);
    PowerNext(256, 6);
    PowerNext(256, 7);
  }

  // ---------- arithmetic in a fixed width ----------

  /** One turn of the reading loop in an integer type with `m` values: a shift by
      seven, the digit put into the free bits, one more if another digit follows. */
  function Turn(n: nat, byte: Byte, m: nat): nat
    requires m > 0
  {
    var shifted := (n * 128) % m + byte % 128;
    if byte >= 128 then (shifted + 1) % m else shifted
  }

  /** Cutting down at every turn is cutting down once at the end. */
  lemma TurnIsExact(x: nat, byte: Byte, m: nat)
    requires m > 0 && m % 128 == 0
    ensures Turn(x % m, byte, m) == (x * 128 + byte % 128 + (if byte >= 128 then 1 else 0)) % m
  {
    var low, y, q := byte % 128, x % m, x / m;
    var s := (y * 128) % m;
    ShiftCut(x, m);
    RoomForDigit(y, m);
    var j := (x * 128) / m;
    assert x * 128 == m * j + s;
    ModEqual(m, x * 128 + low, s + low, j);
    ModEqual(m, x * 128 + low + 1, s + low + 1, j);
    ModSmall(s + low, m);
  }

  lemma ShiftCut(x: nat, m: nat)
    requires m > 0
    ensures ((x % m) * 128) % m == (x * 128) % m
  {
    var y, q := x % m, x / m;
    assert x == m * q + y;
    assert (m * q) * 128 == m * (q * 128);
    ModEqual(m, x * 128, y * 128, q * 128);
  }

  /** After the shift the low seven bits are free. */
  lemma RoomForDigit(x: nat, m: nat)
    requires m > 0 && m % 128 == 0
    ensures (x * 128) % m <= m - 128
    ensures ((x * 128) % m) % 128 == 0
  {
    var j, c := (x * 128) / m, m / 128;
    assert x * 128 == m * j + (x * 128) % m;
    assert m == 128 * c;
    assert m * j == 128 * (c * j);
    assert (x * 128) % m == 128 * (x - c * j);
  }

  lemma WidthIsDivisible(size: nat)
    requires size > 0
    ensures Width(size) % 128 == 0
  {
    hide Power;
    PowerSeven(8 * size - 7);
    DivModUnique(Width(size), 128, Power(2, 8 * size - 7), 0);
  }

  // ---------- what a stream holds ----------

  /** The first code in a stream; past the end a stream delivers zeros. */
  function Code(b: seq<Byte>): (c: seq<Byte>)
    ensures |c| > 0
  {
    if b == [] then [0] else if b[0] < 128 then [b[0]] else [b[0]] + Code(b[1..])
  }

  lemma {:induction false} CodeWellFormed(b: seq<Byte>)
    ensures WellFormed(Code(b))
  {
    if b != [] && b[0] >= 128 {
      CodeWellFormed(b[1..]);
    }
  }

  /** A well-formed string followed by anything is read as itself. */
  lemma {:induction false} CodeOfWellFormed(c: seq<Byte>, rest: seq<Byte>)
    requires WellFormed(c)
    ensures Code(c + rest) == c
  {
    if |c| > 1 {
      assert (c + rest)[1..] == c[1..] + rest;
      CodeOfWellFormed(c[1..], rest);
    }
  }

  /** The number of values of an integer type of `size` bytes. */
  function Width(size: nat): (m: nat)
    ensures m > 0
  {
    PowerPositive(2, 8 * size);
    Power(2, 8 * size)
  }

  /** What `ReadVarInt` returns in an integer type of `size` bytes. */
  function ReadValue(b: seq<Byte>, size: nat): nat {
    Value(Code(b)) % Width(size)
  }

  /** Reading what was written gives the number back. */
  lemma ReadWritten(n: nat, rest: seq<Byte>, size: nat)
    requires n < Width(size)
    ensures ReadValue(Encode(n) + rest, size) == n && Code(Encode(n) + rest) == Encode(n)
  {
    hide Width, Code, Value, Encode, WellFormed;
    Bijection(n, []);
    CodeOfWellFormed(Encode(n), rest);
    ModSmall(n, Width(size));
  }

  /** Reading a code never goes above its value on the way: each shift of what was
      read so far stays at or below it, so none is cut down when the value fits. */
  lemma {:induction false} NoOverflow(b: seq<Byte>, k: nat)
    requires 0 < k < |b|
    ensures (Value(b[..k]) + 1) * 128 <= Value(b)
    decreases |b|
  {
    var front := b[..|b| - 1];
    if k < |front| {
      NoOverflow(front, k);
      assert front[..k] == b[..k];
    }
  }

  /** Writing what was read gives the bytes back exactly when their value fits the
      integer type; otherwise it was cut down. */
  lemma WriteRead(b: seq<Byte>, size: nat)
    ensures Encode(ReadValue(b, size)) == Code(b) <==> Value(Code(b)) < Width(size)
  {
    hide Width, Code, Value, Encode, WellFormed;
    CodeWellFormed(b);
    Bijection(ReadValue(b, size), Code(b));
    ModSmall(Value(Code(b)), Width(size));
  }

  // ---------- the loops ----------

  method GetSizeOfVarInt(n: nat) returns (size: nat)
    ensures size == |Encode(n)|
  {
    var m := n;
    size := 1;
    ghost var flag := 0;
    while m > 127
      invariant flag == 0 || flag == 128
      invariant size - 1 + |Digits(m, flag)| == |Encode(n)|
      decreases m
    {
      m := m / 128 - 1;
      size := size + 1;
      flag := 128;
    }
  }

  function Reverse(b: seq<Byte>): (r: seq<Byte>)
    ensures |r| == |b|
  {
    if b == [] then [] else Reverse(b[1..]) + [b[0]]
  }

  lemma {:induction false} ReverseSnoc(b: seq<Byte>, x: Byte)
    ensures Reverse(b + [x]) == [x] + Reverse(b)
  {
    if b == [] {
    } else {
      assert (b + [x])[1..] == b[1..] + [x];
      ReverseSnoc(b[1..], x);
    }
  }

  lemma NothingReversed()
    ensures Reverse([]) == []
  {
  }

  /** A digit goes from the number to the array. */
  lemma DigitOut(m: nat, flag: nat, before: seq<Byte>)
    requires m > 127 && (flag == 0 || flag == 128)
    ensures |Digits(m, flag)| >= 2
    ensures Digits(m, flag) + Reverse(before) == Digits(m / 128 - 1, 128) + Reverse(before + [m % 128 + flag])
  {
    hide Digits, Reverse;
    var x := m % 128 + flag;
    DigitsNext(m / 128 - 1, m % 128, flag);
    ReverseSnoc(before, x);
    assert (Digits(m / 128 - 1, 128) + [x]) + Reverse(before) == Digits(m / 128 - 1, 128) + ([x] + Reverse(before));
  }

  /** The first loop of `WriteVarInt`: the digits go into the temporary array, the
      last one first. */
  method FillTmp(n: nat, size: nat) returns (tmp: array<Byte>, len: nat)
    requires size > 0 && n < Width(size)
    ensures fresh(tmp) && tmp.Length == TmpLength(size) && len < tmp.Length
    ensures Encode(n) == Reverse(tmp[..len + 1])
  {
    hide Width, Digits, Reverse;
    WidthIs(size);
    FitsTmp(n, size);
    NothingReversed();
    tmp := new Byte[TmpLength(size)](_ => 0);
    var m := n;
    len := 0;
    while m > 127
      invariant 0 <= len < tmp.Length && fresh(tmp)
      invariant Encode(n) == Digits(m, if len == 0 then 0 else 128) + Reverse(tmp[..len])
      decreases m
    {
      ghost var flag := if len == 0 then 0 else 128;
      ghost var before := tmp[..len];
      DigitOut(m, flag, before);
      tmp[len] := m % 128 + (if len == 0 then 0 else 128);
      assert tmp[..len + 1] == before + [m % 128 + flag];
      m := m / 128 - 1;
      len := len + 1;
    }
    ghost var tail := tmp[..len];
    DigitsOne(m, if len == 0 then 0 else 128);
    tmp[len] := m % 128 + (if len == 0 then 0 else 128);
    assert tmp[..len + 1] == tail + [tmp[len]];
    ReverseSnoc(tail, tmp[len]);
  }

  method WriteVarInt(os: CDataStream, n: nat, size: nat)
    requires os.Valid() && size > 0 && n < Width(size)
    modifies os`vch
    ensures os.Valid() && os.View() == old(os.View()) + Encode(n)
  {
    hide Width, Encode;
    var tmp, len := FillTmp(n, size);
    var i := len + 1;
    while i > 0
      invariant 0 <= i <= len + 1
      invariant os.Valid() && os.View() + Reverse(tmp[..i]) == old(os.View()) + Encode(n)
    {
      ghost var v := os.View();
      assert tmp[..i] == tmp[..i - 1] + [tmp[i - 1]];
      ReverseSnoc(tmp[..i - 1], tmp[i - 1]);
      assert v + Reverse(tmp[..i]) == (v + [tmp[i - 1]]) + Reverse(tmp[..i - 1]);
      os.Write([tmp[i - 1]]);
      i := i - 1;
    }
  }

  /** The value of the digits read so far, raised by the digits still to come. */
  function Pending(c: seq<Byte>): nat {
    if c == [] then 0 else Value(c) + 1
  }

  lemma PendingStep(c: seq<Byte>, x: Byte)
    ensures x >= 128 ==> Pending(c + [x]) == Pending(c) * 128 + x % 128 + 1
    ensures Value(c + [x]) == Pending(c) * 128 + x % 128
  {
    assert (c + [x])[..|c|] == c;
  }

  lemma CodeStep(c: seq<Byte>, b: seq<Byte>)
    ensures b == [] ==> Code(b) == [0]
    ensures b != [] && b[0] < 128 ==> Code(b) == [b[0]]
    ensures b != [] && b[0] >= 128 ==>
              |Code(b)| == 1 + |Code(b[1..])| && c + Code(b) == (c + [b[0]]) + Code(b[1..])
  {
    if b != [] && b[0] >= 128 {
      assert c + ([b[0]] + Code(b[1..])) == (c + [b[0]]) + Code(b[1..]);
    }
  }

  lemma TakenOne(b: seq<Byte>)
    ensures Taken(b, 1) == [if b == [] then 0 else b[0]]
  {
  }

  /** One turn of the reading loop: the digit read, and whether the loop ends. */
  method ReadDigit(is_: CDataStream, n: nat, width: nat, ghost c: seq<Byte>, ghost all: seq<Byte>)
    returns (n': nat, more: bool, ghost c': seq<Byte>)
    requires is_.Valid() && width > 0 && width % 128 == 0
    requires n == Pending(c) % width && c + Code(is_.View()) == Code(all)
    requires is_.View() == Rest(all, |c|) && is_.nReadPos + |Code(is_.View())| < TWO_TO_32
    modifies is_
    ensures is_.Valid()
    ensures more ==>
      && n' == Pending(c') % width && c' + Code(is_.View()) == Code(all)
      && is_.View() == Rest(all, |c'|) && is_.nReadPos + |Code(is_.View())| < TWO_TO_32
      && |is_.View()| < |old(is_.View())|
    ensures !more ==> n' == Value(Code(all)) % width && is_.View() == Rest(all, |Code(all)|)
  {
    hide Code, Value, Pending, Taken, Rest;
    TakenOne(is_.View());
    ghost var v := is_.View();
    CodeStep(c, v);
    RestStep(all, |c|);
    var chData := is_.Read(1);
    var byte := chData[0];
    n' := Shifted(n, byte, width);
    DigitTurn(c, byte, width);
    if byte >= 128 {
      n' := Raised(n', width);
      c' := c + [byte];
      return n', true, c';
    }
    return n', false, c;
  }

  function Shifted(n: nat, byte: Byte, m: nat): nat
    requires m > 0
  {
    (n * 128) % m + byte % 128
  }

  function Raised(n: nat, m: nat): nat
    requires m > 0
  {
    (n + 1) % m
  }

  lemma RestStep(all: seq<Byte>, n: nat)
    ensures Rest(all, n + 1) == Rest(Rest(all, n), 1)
    ensures Rest(all, n) == [] ==> Rest(all, n + 1) == []
    ensures Rest(all, n) != [] ==> Rest(all, n + 1) == Rest(all, n)[1..]
  {
    TakenSplit(all, n, 1);
  }

  lemma DigitTurn(c: seq<Byte>, byte: Byte, width: nat)
    requires width > 0 && width % 128 == 0
    ensures var s := Shifted(Pending(c) % width, byte, width);
            if byte >= 128 then Raised(s, width) == Pending(c + [byte]) % width
            else s == Value(c + [byte]) % width
  {
    hide Value, Pending;
    PendingStep(c, byte);
    TurnIsExact(Pending(c), byte, width);
  }

  method ReadVarInt(is_: CDataStream, size: nat) returns (n: nat)
    requires is_.Valid() && size > 0
    requires is_.nReadPos + |Code(is_.View())| < TWO_TO_32
    modifies is_
    ensures is_.Valid()
    ensures n == ReadValue(old(is_.View()), size) == Value(Code(old(is_.View()))) % Width(size)
    ensures is_.View() == Rest(old(is_.View()), |Code(old(is_.View()))|)
  {
    hide Code, Value, Width;
    ghost var all := is_.View();
    var width := Width(size);
    WidthIsDivisible(size);
    ModSmall(0, width);
    n := 0;
    ghost var c: seq<Byte> := [];
    assert c + Code(all) == Code(all);
    var more := true;
    while more
      invariant is_.Valid()
      invariant more ==> n == Pending(c) % width && c + Code(is_.View()) == Code(all)
      invariant more ==> is_.View() == Rest(all, |c|) && is_.nReadPos + |Code(is_.View())| < TWO_TO_32
      invariant !more ==> n == Value(Code(all)) % width && is_.View() == Rest(all, |Code(all)|)
      decreases if more then 1 else 0, |is_.View()|
    {
      n, more, c := ReadDigit(is_, n, width, c, all);
    }
  }
}
