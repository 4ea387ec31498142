/** Bytes, short reads, and fixed-width integers in little-endian order. */
module Bytes {
  import opened Arithmetic

  type Byte = b: int | 0 <= b < 256

  const TWO_TO_32: int := 0x1_0000_0000
  const TWO_TO_64: int := 0x1_0000_0000_0000_0000

  function Zeros(n: nat): seq<Byte> {
    seq(n, _ => 0)
  }

  /** What a read of `n` bytes delivers: a short read is padded with zeros. */
  function Taken(b: seq<Byte>, n: nat): (r: seq<Byte>)
    ensures |r| == n
  {
    if n <= |b| then b[..n] else b + Zeros(n - |b|)
  }

  /** What such a read leaves. */
  function Rest(b: seq<Byte>, n: nat): seq<Byte> {
    if n <= |b| then b[n..] else []
  }

  /** One long read is two shorter ones. */
  lemma TakenSplit(b: seq<Byte>, m: nat, n: nat)
    ensures Taken(b, m + n) == Taken(b, m) + Taken(Rest(b, m), n)
    ensures Rest(b, m + n) == Rest(Rest(b, m), n)
  {
  }

  /** A short read is padded with zeros, and nothing else. */
  lemma TakenAt(b: seq<Byte>, n: nat)
    ensures forall i :: 0 <= i < n ==> Taken(b, n)[i] == if i < |b| then b[i] else 0
    ensures Rest(b, n) == if n <= |b| then b[n..] else []
  {
  }

  lemma TakenWhole(b: seq<Byte>, rest: seq<Byte>)
    ensures Taken(b + rest, |b|) == b && Rest(b + rest, |b|) == rest
  {
  }

  function Power(base: nat, n: nat): nat {
    if n == 0 then 1 else base * Power(base, n - 1)
  }

  lemma {:induction false} PowerPositive(base: nat, n: nat)
    requires base > 0
    ensures Power(base, n) > 0
  {
    if n > 0 {
      PowerPositive(base, n - 1);
    }
  }

  /** The low `width` bytes of `n`, least significant first. */
  function ToLE(n: nat, width: nat): (b: seq<Byte>)
    ensures |b| == width
    decreases width
  {
    if width == 0 then [] else [n % 256] + ToLE(n / 256, width - 1)
  }

  function FromLE(b: seq<Byte>): nat {
    if b == [] then 0 else b[0] + 256 * FromLE(b[1..])
  }

  lemma DivDiv(n: nat, b: nat)
    requires b > 0
    ensures (n / 256) / b == n / (256 * b)
  {
    var q := n / 256;
    var p, r := q / b, q % b;
    assert q == b * p + r;
    assert (256 * b) * p == 256 * (b * p);
    DivModUnique(n, 256 * b, p, 256 * r + n % 256);
  }

  /** Byte `i` holds the digit for 256 to the power of `i`. */
  lemma {:induction false} ToLEAt(n: nat, width: nat, i: nat)
    requires i < width
    ensures Power(256, i) > 0 && ToLE(n, width)[i] == n / Power(256, i) % 256
    decreases width
  {
    PowerPositive(256, i);
    if i > 0 {
      ToLEAt(n / 256, width - 1, i - 1);
      DivDiv(n, Power(256, i - 1));
    }
  }

  lemma {:induction false} FromLEBound(b: seq<Byte>)
    ensures FromLE(b) < Power(256, |b|)
  {
    if b != [] {
      FromLEBound(b[1..]);
    }
  }

  lemma {:induction false} FromToLE(n: nat, width: nat)
    requires n < Power(256, width)
    ensures FromLE(ToLE(n, width)) == n
    decreases width
  {
    if width > 0 {
      FromToLE(n / 256, width - 1);
      assert ToLE(n, width)[1..] == ToLE(n / 256, width - 1);
    }
  }

  lemma {:induction false} ToFromLE(b: seq<Byte>)
    ensures ToLE(FromLE(b), |b|) == b
  {
    if b != [] {
      ToFromLE(b[1..]);
      assert FromLE(b) % 256 == b[0] && FromLE(b) / 256 == FromLE(b[1..]);
    }
  }
}
