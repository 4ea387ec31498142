/** Sizes in one, three, five or nine bytes. */
module CompactSize {
  import opened Bytes

  function SizeOf(n: nat): nat {
    if n < 253 then 1 else if n <= 0xFFFF then 3 else if n <= 0xFFFF_FFFF then 5 else 9
  }

  function Write(n: nat): seq<Byte> {
    if n < 253 then [n]
    else if n <= 0xFFFF then [253] + ToLE(n, 2)
    else if n <= 0xFFFF_FFFF then [254] + ToLE(n, 4)
    else [255] + ToLE(n, 8)
  }

  /** The number of bytes that follow the first one. */
  function Tail(first: Byte): nat {
    if first < 253 then 0 else if first == 253 then 2 else if first == 254 then 4 else 8
  }

  /** What a reader takes off the stream. */
  function Taking(b: seq<Byte>): nat {
    1 + Tail(Taken(b, 1)[0])
  }

  function Read(b: seq<Byte>): nat {
    var first := Taken(b, 1)[0];
    if first < 253 then first else FromLE(Taken(Rest(b, 1), Tail(first)))
  }

  lemma WideEnough()
    ensures Power(256, 2) == 0x1_0000 && Power(256, 4) == 0x1_0000_0000 && Power(256, 8) == TWO_TO_64
  {
    assert Power(256, 1) == 256 * Power(256, 0);
    assert Power(256, 2) == 256 * Power(256, 1);
    assert Power(256, 3) == 256 * Power(256, 2);
    assert Power(256, 4) == 256 * Power(256, 3);
    assert Power(256, 5) == 256 * Power(256, 4);
    assert Power(256, 6) == 256 * Power(256, 5);
    assert Power(256, 7) == 256 * Power(256, 6);
    assert Power(256, 8) == 256 * Power(256, 7);
  }

  /** Reading what was written gives the size back and stops right behind it. */
  lemma ReadWritten(n: nat, rest: seq<Byte>)
    requires n < TWO_TO_64
    ensures Read(Write(n) + rest) == n
    ensures Taking(Write(n) + rest) == |Write(n)| == SizeOf(n)
    ensures Rest(Write(n) + rest, |Write(n)|) == rest
  {
    hide ToLE, FromLE, Power;
    WideEnough();
    var b := Write(n) + rest;
    TakenWhole(Write(n), rest);
    if n >= 253 {
      var width := Tail(Write(n)[0]);
      FromToLE(n, width);
      assert Rest(b, 1) == ToLE(n, width) + rest;
      TakenWhole(ToLE(n, width), rest);
    }
  }

  /** The shortest of the forms was used. */
  predicate Shortest(b: seq<Byte>) {
    Taking(b) == SizeOf(Read(b))
  }

  /** Every size has other, longer forms that are read just as well; the bytes read
      are the ones that would be written exactly when they are the shortest form. */
  lemma WriteRead(b: seq<Byte>)
    requires Taking(b) <= |b|
    ensures Read(b) < TWO_TO_64
    ensures Write(Read(b)) == b[..Taking(b)] <==> Shortest(b)
  {
    hide ToLE, FromLE, Power;
    WideEnough();
    var n, width := Read(b), Tail(b[0]);
    if b[0] >= 253 {
      var body := b[1..1 + width];
      assert Taken(Rest(b, 1), width) == body;
      FromLEBound(body);
      ToFromLE(body);
      assert b[..1 + width] == [b[0]] + body;
    }
    ReadWritten(n, []);
  }

  /** The bytes of a size: itself below 253; otherwise a marker for its range, and the size
      least significant byte first. */
  lemma Form(n: nat, i: nat)
    requires n < TWO_TO_64 && 0 < i < SizeOf(n)
    ensures |Write(n)| == SizeOf(n)
    ensures Write(n)[0] == if n <= 0xFFFF then 253 else if n <= 0xFFFF_FFFF then 254 else 255
    ensures Power(256, i - 1) > 0 && Write(n)[i] == n / Power(256, i - 1) % 256
  {
    hide ToLE, Power;
    ToLEAt(n, SizeOf(n) - 1, i - 1);
  }

  lemma SmallForm(n: nat)
    requires n < 253
    ensures Write(n) == [n]
  {
  }

  /** Any form is read as the number its bytes spell, the shortest or not. */
  lemma ReadForm(b: seq<Byte>)
    requires Taking(b) <= |b|
    ensures b[0] < 253 ==> Taking(b) == 1 && Read(b) == b[0]
    ensures b[0] >= 253 ==>
              && Taking(b) == (if b[0] == 253 then 3 else if b[0] == 254 then 5 else 9)
              && ToLE(Read(b), Taking(b) - 1) == b[1..Taking(b)]
  {
    hide ToLE, FromLE;
    if b[0] >= 253 {
      ToFromLE(b[1..Taking(b)]);
      assert b[1..][..Taking(b) - 1] == b[1..Taking(b)];
    }
  }
}
