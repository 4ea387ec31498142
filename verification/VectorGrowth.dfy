/** How the reader of a vector grows it, in 32-bit arithmetic.  The announced number of
    elements and the size of an element decide whether it ends, and whether it delivers
    what it read. */
module VectorGrowth {
  import opened Bytes

  const BLOCK: nat := 5_000_000

  /** The number of elements by which a vector grows; none when an element is larger
      than a block. */
  function Stride(size: nat): (step: nat)
    requires size > 0
    ensures step <= BLOCK
    ensures step > 0 <==> size <= BLOCK
  {
    BLOCK / size
  }

  /** One growth step. */
  function NextMid(nMid: nat, nSize: nat, step: nat): nat {
    var m := (nMid + step) % TWO_TO_32;
    if m > nSize then nSize else m
  }

  /** The reader between two turns: the length of the vector, the elements read, and how
      many leading elements of the vector hold what was read into them. */
  datatype Reader = Reader(mid: nat, read: nat, held: nat)

  /** A shorter vector loses elements; those that come back when it grows again are not
      read again. */
  function Turn(r: Reader, nSize: nat, step: nat): Reader {
    var mid := NextMid(r.mid, nSize, step);
    var held := if r.held < mid then r.held else mid;
    if r.read < mid then Reader(mid, mid, if held == r.read then mid else held)
    else Reader(mid, r.read, held)
  }

  /** The reader after `n` turns, or when it has ended. */
  function Turns(nSize: nat, step: nat, n: nat): Reader {
    if n == 0 then Reader(0, 0, 0)
    else
      var r := Turns(nSize, step, n - 1);
      if r.mid < nSize then Turn(r, nSize, step) else r
  }

  predicate Ended(nSize: nat, step: nat, n: nat) {
    Turns(nSize, step, n).mid >= nSize
  }

  // ---------- delivering everything ----------

  function Nth(step: nat, k: nat): nat {
    k * step
  }

  lemma NthNext(step: nat, k: nat)
    ensures Nth(step, 0) == 0 && Nth(step, k + 1) == Nth(step, k) + step
  {
  }

  lemma {:induction false} NthMonotone(step: nat, j: nat, k: nat)
    requires j <= k
    ensures Nth(step, j) <= Nth(step, k)
  {
    hide Nth;
    if j < k {
      NthMonotone(step, j, k - 1);
      NthNext(step, k - 1);
    }
  }

  /** The number of strides that the announced size takes. */
  function Strides(nSize: nat, step: nat): nat
    requires step > 0
  {
    (nSize + step - 1) / step
  }

  /** `Nth(step, Strides(nSize, step))` is the least multiple of `step` from `nSize` on. */
  lemma StridesAreLeast(nSize: nat, step: nat, k: nat)
    requires step > 0
    ensures Nth(step, k) < nSize <==> k < Strides(nSize, step)
  {
    var c := Strides(nSize, step);
    assert Nth(step, c) + (nSize + step - 1) % step == nSize + step - 1;
    if k < c {
      NthMonotone(step, k + 1, c);
      NthNext(step, k);
    } else {
      NthMonotone(step, c, k);
    }
  }

  lemma NextMidPlain(nMid: nat, nSize: nat, step: nat)
    requires nMid + step < TWO_TO_32
    ensures NextMid(nMid, nSize, step) == if nMid + step > nSize then nSize else nMid + step
  {
  }

  lemma NextMidBound(nMid: nat, nSize: nat, step: nat)
    ensures NextMid(nMid, nSize, step) <= nSize
  {
  }

  /** As long as it only grows, the vector holds all that was read. */
  lemma {:induction false} Growing(nSize: nat, step: nat, n: nat)
    requires 0 < nSize < TWO_TO_32 && forall k: nat :: k < n ==> Nth(step, k) < nSize
    ensures Nth(step, n) < TWO_TO_32 ==>
              var m := if Nth(step, n) > nSize then nSize else Nth(step, n);
              Turns(nSize, step, n) == Reader(m, m, m)
  {
    hide Nth, NextMid;
    if n > 0 {
      Growing(nSize, step, n - 1);
      NthNext(step, n - 1);
      if Nth(step, n) < TWO_TO_32 {
        NextMidPlain(Nth(step, n - 1), nSize, step);
      }
    } else {
      NthNext(step, 0);
    }
  }

  /** Once a vector has lost an element it never holds all of them. */
  lemma {:induction false} LostForGood(nSize: nat, step: nat, n: nat, more: nat)
    requires Turns(nSize, step, n).held < Turns(nSize, step, n).read <= nSize
    ensures Turns(nSize, step, n + more).held < Turns(nSize, step, n + more).read <= nSize
  {
    hide NextMid;
    if more > 0 {
      LostForGood(nSize, step, n, more - 1);
      NextMidBound(Turns(nSize, step, n + more - 1).mid, nSize, step);
    }
  }

  /** The turn whose sum wraps around loses elements. */
  lemma WrapLoses(nSize: nat, step: nat)
    requires 0 < nSize < TWO_TO_32 && 0 < step <= BLOCK
    requires Nth(step, Strides(nSize, step)) >= TWO_TO_32
    ensures var r := Turns(nSize, step, Strides(nSize, step)); r.held < r.read <= nSize
  {
    hide Nth, Strides;
    var c := Strides(nSize, step);
    NthNext(step, 0);
    StridesAreLeast(nSize, step, c - 1);
    forall k: nat | k < c - 1
      ensures Nth(step, k) < nSize
    {
      StridesAreLeast(nSize, step, k);
    }
    Growing(nSize, step, c - 1);
    NthNext(step, c - 1);
    assert (Nth(step, c - 1) + step) % TWO_TO_32 == Nth(step, c - 1) + step - TWO_TO_32;
  }

  /** Before the last stride the reader goes on, and the vector may yet grow. */
  lemma GoesOn(nSize: nat, step: nat, n: nat)
    requires 0 < nSize < TWO_TO_32 && 0 < step && n < Strides(nSize, step)
    ensures !Ended(nSize, step, n)
  {
    hide Nth, Strides;
    forall k: nat | k <= n
      ensures Nth(step, k) < nSize
    {
      StridesAreLeast(nSize, step, k);
    }
    Growing(nSize, step, n);
  }

  lemma {:induction false} StandsStill(nSize: nat, n: nat)
    requires nSize < TWO_TO_32
    ensures Turns(nSize, 0, n).mid == 0
  {
    if n > 0 {
      StandsStill(nSize, n - 1);
    }
  }

  /** Whether the reader ends with a vector that holds every element as it was read. */
  ghost predicate Delivers(nSize: nat, step: nat) {
    exists n: nat :: Ended(nSize, step, n) && Turns(nSize, step, n).held == nSize
  }

  /** The announced size can be reached by strides. */
  predicate InReach(nSize: nat, size: nat) {
    nSize == 0 ||
    (0 < size <= BLOCK && Nth(Stride(size), Strides(nSize, Stride(size))) < TWO_TO_32)
  }

  /** A size that leaves room for one more stride is in reach. */
  lemma SmallInReach(nSize: nat, size: nat)
    requires 0 < size <= BLOCK && nSize + Stride(size) <= TWO_TO_32
    ensures InReach(nSize, size)
  {
    hide Nth, Strides;
    if nSize > 0 {
      var step := Stride(size);
      var c := Strides(nSize, step);
      NthNext(step, 0);
      StridesAreLeast(nSize, step, 0);
      StridesAreLeast(nSize, step, c - 1);
      NthNext(step, c - 1);
    }
  }

  /** A turn on the way to a size in reach. */
  lemma NextInReach(nSize: nat, step: nat, k: nat)
    requires nSize < TWO_TO_32 && step > 0 && Nth(step, k) < nSize
    requires Nth(step, Strides(nSize, step)) < TWO_TO_32
    ensures NextMid(Nth(step, k), nSize, step) ==
            if Nth(step, k + 1) > nSize then nSize else Nth(step, k + 1)
    ensures Nth(step, k) < Nth(step, k + 1)
  {
    hide Nth, Strides;
    StridesAreLeast(nSize, step, k);
    NthNext(step, k);
    NthMonotone(step, k + 1, Strides(nSize, step));
    NextMidPlain(Nth(step, k), nSize, step);
  }

  /** The reader of `nSize` announced elements of `size` bytes delivers all of them if and
      only if there are none, or an element is no larger than a block and the least
      multiple of the stride from `nSize` on is below 2^32. */
  lemma DeliversIff(nSize: nat, size: nat)
    requires nSize < TWO_TO_32 && size > 0
    ensures Delivers(nSize, Stride(size)) <==> InReach(nSize, size)
  {
    hide Nth, Strides, Stride;
    var step := Stride(size);
    if nSize == 0 {
      assert Ended(nSize, step, 0) && Turns(nSize, step, 0).held == nSize;
    } else if step == 0 {
      forall n: nat
        ensures !Ended(nSize, step, n)
      {
        StandsStill(nSize, n);
      }
    } else {
      DeliversAfter(nSize, step);
    }
  }

  lemma DeliversAfter(nSize: nat, step: nat)
    requires 0 < nSize < TWO_TO_32 && 0 < step <= BLOCK
    ensures Delivers(nSize, step) <==> Nth(step, Strides(nSize, step)) < TWO_TO_32
  {
    hide Nth, Strides;
    var c := Strides(nSize, step);
    if Nth(step, c) < TWO_TO_32 {
      forall k: nat | k <= c
        ensures Nth(step, k) < nSize <==> k < c
      {
        StridesAreLeast(nSize, step, k);
      }
      Growing(nSize, step, c);
      assert Ended(nSize, step, c);
    } else {
      WrapLoses(nSize, step);
      forall n: nat | Ended(nSize, step, n)
        ensures Turns(nSize, step, n).held != nSize
      {
        if n < c {
          GoesOn(nSize, step, n);
        } else {
          LostForGood(nSize, step, c, n - c);
        }
      }
    }
  }

  // ---------- ending at all ----------

  /** Until it ends, the reader stands at the multiples of its stride modulo 2^32. */
  lemma {:induction false} Orbit(nSize: nat, step: nat, n: nat)
    requires nSize < TWO_TO_32
    requires forall k: nat :: k < n ==> Nth(step, k) % TWO_TO_32 < nSize
    ensures Turns(nSize, step, n).mid ==
            if Nth(step, n) % TWO_TO_32 > nSize then nSize else Nth(step, n) % TWO_TO_32
  {
    hide Nth, NextMid;
    if n > 0 {
      Orbit(nSize, step, n - 1);
      NthNext(step, n - 1);
      NextMidWraps(Nth(step, n - 1), nSize, step);
    } else {
      NthNext(step, 0);
    }
  }

  lemma NextMidWraps(x: nat, nSize: nat, step: nat)
    ensures var m := (x + step) % TWO_TO_32;
            NextMid(x % TWO_TO_32, nSize, step) == if m > nSize then nSize else m
  {
  }

  lemma {:induction false} FirstReach(nSize: nat, step: nat, n: nat) returns (k: nat)
    requires Nth(step, n) % TWO_TO_32 >= nSize
    ensures Nth(step, k) % TWO_TO_32 >= nSize && k <= n
    ensures forall j: nat :: j < k ==> Nth(step, j) % TWO_TO_32 < nSize
  {
    hide Nth;
    if j: nat :| j < n && Nth(step, j) % TWO_TO_32 >= nSize {
      k := FirstReach(nSize, step, j);
    } else {
      k := n;
    }
  }

  lemma EndsIffReached(nSize: nat, step: nat)
    requires nSize < TWO_TO_32
    ensures (exists n: nat :: Ended(nSize, step, n)) <==> (exists n: nat :: Nth(step, n) % TWO_TO_32 >= nSize)
  {
    hide Nth, Turns;
    if n: nat :| Nth(step, n) % TWO_TO_32 >= nSize {
      var k := FirstReach(nSize, step, n);
      Orbit(nSize, step, k);
      assert Ended(nSize, step, k);
    } else {
      forall n: nat
        ensures !Ended(nSize, step, n)
      {
        Orbit(nSize, step, n);
      }
    }
  }

  /** The largest power of two that divides `n`. */
  function LowBit(n: nat): (g: nat)
    requires n > 0
    ensures 0 < g <= n
  {
    if n % 2 == 1 then 1 else 2 * LowBit(n / 2)
  }

  lemma {:induction false} OddPart(n: nat) returns (u: nat)
    requires n > 0
    ensures u % 2 == 1 && n == LowBit(n) * u
  {
    if n % 2 == 1 {
      u := n;
    } else {
      u := OddPart(n / 2);
    }
  }

  lemma {:induction false} LowBitDivides(n: nat, k: nat) returns (c: nat)
    requires 0 < n < Power(2, k)
    ensures Power(2, k) == LowBit(n) * c
  {
    if n % 2 == 1 {
      c := Power(2, k);
    } else {
      c := LowBitDivides(n / 2, k - 1);
    }
  }

  /** An odd number has a multiple one below a multiple of any power of two. */
  lemma {:induction false} OddReaches(u: nat, k: nat) returns (t: nat, q: nat)
    requires u % 2 == 1
    ensures q > 0 && t * u == Power(2, k) * q - 1
  {
    if k == 0 {
      t, q := 0, 1;
    } else {
      var p := Power(2, k - 1);
      t, q := OddReaches(u, k - 1);
      if q % 2 == 1 {
        assert (t + p) * u == p * (q + u) - 1;
        t, q := t + p, q + u;
      }
      HalfOut(p, q);
      q := q / 2;
    }
  }

  lemma HalfOut(p: nat, q: nat)
    requires q % 2 == 0
    ensures p * q == 2 * p * (q / 2)
  {
    var h := q / 2;
    assert q == 2 * h;
  }

  lemma WordIsPower()
    ensures Power(2, 32) == TWO_TO_32
  {
    assert Power(2, 8) == 256;
    assert Power(2, 16) == 65536;
    assert Power(2, 24) == 0x100_0000;
  }

  /** No multiple of the stride comes closer to 2^32 from below than its lowest bit. */
  lemma OrbitBound(step: nat, n: nat)
    requires 0 < step < TWO_TO_32
    ensures Nth(step, n) % TWO_TO_32 <= TWO_TO_32 - LowBit(step)
  {
    hide LowBit;
    var g := LowBit(step);
    var u := OddPart(step);
    WordIsPower();
    var c := LowBitDivides(step, 32);
    MultipleBelow(g, n * u, c);
    assert n * (g * u) == g * (n * u);
  }

  lemma MultipleBelow(g: nat, x: nat, c: nat)
    requires g > 0 && g * c == TWO_TO_32
    ensures (g * x) % TWO_TO_32 <= TWO_TO_32 - g
  {
    var q, a := (g * x) / TWO_TO_32, (g * x) % TWO_TO_32;
    assert a == g * x - g * c * q;
    var y := x - c * q;
    assert g * c * q == g * (c * q);
    assert a == g * y;
    assert y >= c ==> g * y >= g * c;
    assert g * y <= g * (c - 1);
  }

  /** And one comes as close. */
  lemma OrbitReaches(step: nat) returns (n: nat)
    requires 0 < step < TWO_TO_32
    ensures Nth(step, n) % TWO_TO_32 == TWO_TO_32 - LowBit(step)
  {
    hide LowBit;
    var g := LowBit(step);
    var u := OddPart(step);
    var q;
    WordIsPower();
    n, q := OddReaches(u, 32);
    assert n * (g * u) == g * (n * u);
    assert g * (TWO_TO_32 * q - 1) == TWO_TO_32 * (g * q) - g;
    JustBelow(g * q, g);
  }

  lemma JustBelow(x: nat, g: nat)
    requires x > 0 && 0 < g < TWO_TO_32
    ensures (TWO_TO_32 * x - g) % TWO_TO_32 == TWO_TO_32 - g
  {
    assert TWO_TO_32 * x - g == TWO_TO_32 * (x - 1) + (TWO_TO_32 - g);
  }

  /** The reader of `nSize` announced elements of `size` bytes ends if and only if there
      are none, or an element is no larger than a block and `nSize` leaves room below
      2^32 for the lowest bit of the stride. */
  lemma EndsIff(nSize: nat, size: nat)
    requires nSize < TWO_TO_32 && size > 0
    ensures (exists n: nat :: Ended(nSize, Stride(size), n)) <==>
            nSize == 0 || (size <= BLOCK && nSize + LowBit(Stride(size)) <= TWO_TO_32)
  {
    hide Nth, Stride, LowBit, Ended;
    var step := Stride(size);
    EndsIffReached(nSize, step);
    if step == 0 {
      StandsStill(nSize, 0);
      ZeroOrbit(nSize);
    } else {
      var n := OrbitReaches(step);
      forall k: nat
        ensures Nth(step, k) % TWO_TO_32 <= TWO_TO_32 - LowBit(step)
      {
        OrbitBound(step, k);
      }
      if nSize == 0 {
        assert Nth(step, 0) % TWO_TO_32 >= nSize;
      }
    }
  }

  lemma ZeroOrbit(nSize: nat)
    ensures (exists n: nat :: Nth(0, n) % TWO_TO_32 >= nSize) <==> nSize == 0
  {
    assert Nth(0, 0) % TWO_TO_32 >= 0;
  }

  /** A reader of one-byte elements that never ends, and one that ends with elements
      lost. */
  lemma LargeVectors()
    ensures !exists n: nat :: Ended(0xFFFF_FFFF, Stride(1), n)
    ensures exists n: nat :: Ended(0xFFFF_FFC0, Stride(1), n)
    ensures !Delivers(0xFFFF_FFC0, Stride(1))
  {
    EndsIff(0xFFFF_FFFF, 1);
    EndsIff(0xFFFF_FFC0, 1);
    DeliversIff(0xFFFF_FFC0, 1);
    assert LowBit(BLOCK) == 64;
    assert Strides(0xFFFF_FFC0, BLOCK) == 859;
  }
}
