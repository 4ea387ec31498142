/** Rounding a 64-bit size up to a power of two, by smearing the highest bit of its
    predecessor over the bits below. */
module CeilPow2 {

  const TOP: bv64 := 0x8000_0000_0000_0000

  function PowerOfTwo(k: bv64): bv64
    requires k < 64
  {
    1 << k
  }

  /** No power wraps around. */
  lemma PowersDouble(k: bv64)
    requires k < 63
    ensures PowerOfTwo(0) == 1
    ensures PowerOfTwo(k + 1) as int == 2 * (PowerOfTwo(k) as int)
  {
    var p := PowerOfTwo(k);
    assert p < TOP;
    assert PowerOfTwo(k + 1) == p << 1;
  }

  ghost predicate IsPower(r: bv64) {
    exists k: bv64 :: k < 64 && r == PowerOfTwo(k)
  }

  /** No power of two from `x` on is smaller than `r`. */
  ghost predicate NoneSmaller(r: bv64, x: bv64) {
    forall k: bv64 :: k < 64 && x <= PowerOfTwo(k) ==> r <= PowerOfTwo(k)
  }

  ghost predicate LeastPower(r: bv64, x: bv64) {
    IsPower(r) && x <= r && NoneSmaller(r, x)
  }

  /** A size with exactly one bit set. */
  predicate OneBit(p: bv64) {
    p != 0 && p & (p - 1) == 0
  }

  /** Which bit it is: each mask gives one digit of its place. */
  function Place(p: bv64): bv64 {
    (if p & 0xAAAA_AAAA_AAAA_AAAA != 0 then 1 else 0) |
    (if p & 0xCCCC_CCCC_CCCC_CCCC != 0 then 2 else 0) |
    (if p & 0xF0F0_F0F0_F0F0_F0F0 != 0 then 4 else 0) |
    (if p & 0xFF00_FF00_FF00_FF00 != 0 then 8 else 0) |
    (if p & 0xFFFF_0000_FFFF_0000 != 0 then 16 else 0) |
    (if p & 0xFFFF_FFFF_0000_0000 != 0 then 32 else 0)
  }

  /** The powers of two are the sizes with one bit. */
  lemma OneBitIsPower(p: bv64)
    requires OneBit(p)
    ensures IsPower(p)
  {
    assert Place(p) < 64 && p == PowerOfTwo(Place(p));
  }

  lemma PowerHasOneBit(k: bv64)
    requires k < 64
    ensures OneBit(PowerOfTwo(k))
  {
  }

  function Half(x: bv64): bv64 {
    x >> 1
  }

  /** `x` lies between a power of two and its half. */
  predicate Tight(r: bv64, x: bv64) {
    OneBit(r) && Half(r) < x && x <= r
  }

  /** Two powers of two are at least a factor of two apart. */
  lemma PowersApart(r: bv64, q: bv64, x: bv64)
    requires OneBit(r) && OneBit(q) && Half(r) < x <= q
    ensures r <= q
  {
  }

  lemma TightApart(r: bv64, q: bv64, x: bv64)
    requires Tight(r, x) && OneBit(q) && x <= q
    ensures r <= q
  {
    hide OneBit, Half;
    PowersApart(r, q, x);
  }

  function Smear(m: bv64, n: bv64): bv64
    requires n < 64
  {
    m | (m >> n)
  }

  /** The six steps. */
  function Smeared(m: bv64): bv64 {
    Smear(Smear(Smear(Smear(Smear(Smear(m, 1), 2), 4), 8), 16), 32)
  }

  /** No bit below a set bit is clear. */
  predicate Full(y: bv64) {
    y & (y + 1) == 0
  }

  /** `y` is `m` with its highest bit spread over all the bits below. */
  predicate Filled(y: bv64, m: bv64) {
    Full(y) && m <= y && (y == 0 || Half(y) < m)
  }

  lemma SmearedIsFull(m: bv64)
    ensures Full(Smeared(m))
  {
  }

  lemma SmearedKeepsTop(m: bv64)
    ensures m <= Smeared(m)
    ensures Smeared(m) == 0 || Half(Smeared(m)) < m
  {
  }

  lemma SmearedFills(m: bv64)
    ensures Filled(Smeared(m), m)
  {
    hide Smeared, Full, Half;
    SmearedIsFull(m);
    SmearedKeepsTop(m);
  }

  lemma NextFits(y: bv64, m: bv64)
    requires Filled(y, m) && m < TOP
    ensures y + 1 != 0
  {
  }

  lemma NextIsOneBit(y: bv64)
    requires Full(y) && y + 1 != 0
    ensures OneBit(y + 1)
  {
  }

  lemma NextIsAbove(y: bv64, m: bv64)
    requires Full(y) && m <= y && y + 1 != 0
    ensures m + 1 <= y + 1
  {
  }

  lemma HalfOfNext(y: bv64, m: bv64)
    requires Filled(y, m) && m < TOP
    ensures Half(y + 1) < m + 1
  {
  }

  lemma NextIsTight(y: bv64, m: bv64)
    requires Filled(y, m) && m < TOP
    ensures Tight(y + 1, m + 1)
  {
    hide OneBit, Half, Full;
    NextFits(y, m);
    NextIsOneBit(y);
    NextIsAbove(y, m);
    HalfOfNext(y, m);
  }

  lemma NextIsZero(y: bv64, m: bv64)
    requires Filled(y, m) && TOP <= m
    ensures y + 1 == 0
  {
  }

  lemma NotSmaller(r: bv64, x: bv64, k: bv64)
    requires Tight(r, x) && k < 64 && x <= PowerOfTwo(k)
    ensures r <= PowerOfTwo(k)
  {
    hide OneBit, PowerOfTwo, Tight;
    PowerHasOneBit(k);
    TightApart(r, PowerOfTwo(k), x);
  }

  lemma TightNoneSmaller(r: bv64, x: bv64)
    requires Tight(r, x)
    ensures NoneSmaller(r, x)
  {
    hide PowerOfTwo, Tight;
    forall k: bv64 | k < 64 && x <= PowerOfTwo(k)
      ensures r <= PowerOfTwo(k)
    {
      NotSmaller(r, x, k);
    }
  }

  lemma TightIsInOrder(r: bv64, x: bv64)
    requires Tight(r, x)
    ensures IsPower(r) && x <= r
  {
    hide OneBit, IsPower;
    OneBitIsPower(r);
  }

  lemma TightIsLeast(r: bv64, x: bv64)
    requires Tight(r, x)
    ensures LeastPower(r, x)
  {
    hide IsPower, NoneSmaller, Tight;
    TightIsInOrder(r, x);
    TightNoneSmaller(r, x);
  }

  lemma NextIsLeast(y: bv64, m: bv64)
    requires Filled(y, m) && m < TOP
    ensures LeastPower(y + 1, m + 1)
  {
    hide Filled, Tight, LeastPower;
    NextIsTight(y, m);
    TightIsLeast(y + 1, m + 1);
  }

  lemma SmearedIsLeast(m: bv64)
    ensures if m < TOP then LeastPower(Smeared(m) + 1, m + 1) else Smeared(m) + 1 == 0
  {
    hide Smeared, Filled, LeastPower;
    SmearedFills(m);
    if m < TOP {
      NextIsLeast(Smeared(m), m);
    } else {
      NextIsZero(Smeared(m), m);
    }
  }

  /** The least power of two that is not below `size`; zero when none fits, and for
      zero. */
  method Ceil2Pow2(size: bv64) returns (x: bv64)
    ensures if 1 <= size <= TOP then LeastPower(x, size) else x == 0
  {
    hide LeastPower, Smear;
    x := size - 1;
    ghost var m := x;
    x := Smear(x, 1);
    x := Smear(x, 2);
    x := Smear(x, 4);
    ghost var c := x;
    var i: bv64 := 1;
    while i < 8
      invariant i == 1 || i == 2 || i == 4 || i == 8
      invariant i == 1 ==> x == c
      invariant i == 2 ==> x == Smear(c, 8)
      invariant i == 4 ==> x == Smear(Smear(c, 8), 16)
      invariant i == 8 ==> x == Smear(Smear(Smear(c, 8), 16), 32)
      decreases 8 - i
    {
      x := Smear(x, i << 3);
      i := i << 1;
    }
    SmearedIsLeast(m);
    x := x + 1;
  }
}
