/** Time values and time intervals as the scheduler stores them: a pair of
    64-bit counters, seconds and microseconds.  Every intermediate result below
    has type `long`, so Dafny proves for each addition and subtraction that it
    stays inside the 64-bit range. */
module Timevals {

  newtype long = x: int | -0x8000_0000_0000_0000 <= x < 0x8000_0000_0000_0000

  const LONG_MAX: long := 0x7FFF_FFFF_FFFF_FFFF
  const MILLION: long := 1_000_000

  const DELAY_ZERO := Timeval(0, 0)
  const ETERNITY := Timeval(LONG_MAX, MILLION - 1)

  datatype Timeval = Timeval(sec: long, usec: long) {

    /** A normalised, non-negative interval. */
    predicate Normal() {
      0 <= sec && 0 <= usec < MILLION
    }

    /** The length of the interval in microseconds. */
    ghost function Micros(): int {
      sec as int * 1_000_000 + usec as int
    }

    predicate Geq(other: Timeval) {
      sec > other.sec || (sec == other.sec && usec >= other.usec)
    }

    predicate Less(other: Timeval) {
      !Geq(other)
    }

    predicate Eq(other: Timeval) {
      Geq(other) && other.Geq(this)
    }
  }

  /** `operator+=`.  The precondition is what keeps signed arithmetic defined. */
  method AddAssign(a: Timeval, b: Timeval) returns (r: Timeval)
    requires a.Normal() && b.Normal()
    requires a.Micros() + b.Micros() <= ETERNITY.Micros()
    ensures r.Normal()
    ensures r.Micros() == a.Micros() + b.Micros()
  {
    var sec := a.sec + b.sec;
    var usec := a.usec + b.usec;
    if usec >= MILLION {
      usec := usec - MILLION;
      sec := sec + 1;
    }
    r := Timeval(sec, usec);
  }

  /** `operator-=`: subtraction that saturates at zero. */
  method SubAssign(a: Timeval, b: Timeval) returns (r: Timeval)
    requires a.Normal() && b.Normal()
    ensures r.Normal()
    ensures r.Micros() == if a.Micros() <= b.Micros() then 0 else a.Micros() - b.Micros()
  {
    var sec := a.sec - b.sec;
    var usec := a.usec - b.usec;
    if usec < 0 {
      usec := usec + MILLION;
      sec := sec - 1;
    }
    if sec < 0 {
      sec, usec := 0, 0;
    }
    r := Timeval(sec, usec);
  }

  /** The comparison on pairs is the comparison of lengths. */
  lemma GeqIsMicros(a: Timeval, b: Timeval)
    requires a.Normal() && b.Normal()
    ensures a.Geq(b) <==> a.Micros() >= b.Micros()
  {
  }

  lemma NormalMicros(a: Timeval)
    requires a.Normal()
    ensures 0 <= a.Micros()
  {
  }

  lemma ZeroMicros()
    ensures DELAY_ZERO.Normal() && DELAY_ZERO.Micros() == 0
  {
  }

  lemma ZeroIsMicros(a: Timeval)
    requires a.Normal()
    ensures a.Eq(DELAY_ZERO) <==> a.Micros() == 0
  {
  }

  /** The conversion of a 64-bit value to a 32-bit `int`, which keeps the value up
      to multiples of 2^32. */
  function CastToInt(x: int): (r: int)
    ensures -0x8000_0000 <= r < 0x8000_0000
    ensures -0x8000_0000 <= x < 0x8000_0000 ==> r == x
    decreases if x < 0 then -x * 2 else x * 2 + 1
  {
    if x >= 0x8000_0000 then CastToInt(x - 0x1_0000_0000)
    else if x < -0x8000_0000 then CastToInt(x + 0x1_0000_0000)
    else x
  }

  lemma {:induction false} CastKeepsLowBits(x: int)
    ensures (x - CastToInt(x)) % 0x1_0000_0000 == 0
    decreases if x < 0 then -x * 2 else x * 2 + 1
  {
    if x >= 0x8000_0000 {
      CastKeepsLowBits(x - 0x1_0000_0000);
    } else if x < -0x8000_0000 {
      CastKeepsLowBits(x + 0x1_0000_0000);
    }
  }

  /** Whole seconds of `a - b`, after the borrow from the microseconds. */
  function WholeSeconds(a: Timeval, b: Timeval): long
    requires a.Normal() && b.Normal()
  {
    if a.usec < b.usec then a.sec - b.sec - 1 else a.sec - b.sec
  }

  /** Binary `operator-`.  The sign test is made on the seconds cut down to 32 bits. */
  function Minus(a: Timeval, b: Timeval): (r: Timeval)
    requires a.Normal() && b.Normal()
    ensures a.Geq(b) ==> r.Normal()
  {
    var s := a.sec - b.sec;
    var u := a.usec - b.usec;
    var t := if u < 0 then Timeval(s - 1, u + MILLION) else Timeval(s, u);
    if CastToInt(t.sec as int) < 0 then DELAY_ZERO else t
  }

  /** What binary `operator-` is documented to return: the difference, or zero
      when there is none. */
  ghost predicate IsDifference(r: Timeval, a: Timeval, b: Timeval) {
    r.Normal() && r.Micros() == if a.Micros() <= b.Micros() then 0 else a.Micros() - b.Micros()
  }

  /** Binary `operator-` meets its documentation exactly when cutting the whole
      seconds down to 32 bits does not change their sign. */
  lemma MinusExact(a: Timeval, b: Timeval)
    requires a.Normal() && b.Normal()
    ensures IsDifference(Minus(a, b), a, b) <==>
            (CastToInt(WholeSeconds(a, b) as int) < 0 <==> WholeSeconds(a, b) < 0)
  {
    var cut := CastToInt(WholeSeconds(a, b) as int);
    BorrowKeepsDifference(a, b);
    MinusCases(a, b, cut);
  }

  /** The two outcomes of binary `operator-`, by the sign of the cut-down seconds. */
  lemma MinusCases(a: Timeval, b: Timeval, cut: int)
    requires a.Normal() && b.Normal()
    requires cut == CastToInt(WholeSeconds(a, b) as int)
    ensures cut < 0 ==> Minus(a, b) == DELAY_ZERO
    ensures cut >= 0 ==> Minus(a, b).sec == WholeSeconds(a, b) && 0 <= Minus(a, b).usec < MILLION
    ensures cut >= 0 ==> Minus(a, b).Micros() == a.Micros() - b.Micros()
    ensures WholeSeconds(a, b) == 0 ==> cut == 0
  {
    hide CastToInt;
  }

  /** The sign of the difference is the sign of the whole seconds. */
  lemma BorrowKeepsDifference(a: Timeval, b: Timeval)
    requires a.Normal() && b.Normal()
    ensures WholeSeconds(a, b) >= 0 <==> a.Micros() >= b.Micros()
    ensures a.Micros() == b.Micros() ==> WholeSeconds(a, b) == 0
  {
  }

  /** For a clock that moved forward by less than 2^31 seconds the difference is right. */
  lemma MinusShortSpan(a: Timeval, b: Timeval)
    requires a.Normal() && b.Normal()
    requires a.sec as int - b.sec as int < 0x8000_0000
    requires a.Geq(b)
    ensures IsDifference(Minus(a, b), a, b)
  {
    BorrowKeepsDifference(a, b);
    MinusCases(a, b, WholeSeconds(a, b) as int);
  }

  /** A span of 2^31 seconds (68 years) is reported as no time at all. */
  lemma MinusLosesLongSpan()
    ensures Minus(Timeval(0x8000_0000, 0), DELAY_ZERO) == DELAY_ZERO
    ensures !IsDifference(Minus(Timeval(0x8000_0000, 0), DELAY_ZERO), Timeval(0x8000_0000, 0), DELAY_ZERO)
  {
    assert CastToInt(0x8000_0000) == -0x8000_0000;
  }

  /** The microseconds by which one `synchronize` moves the queue's clock: none
      when the system clock went backwards. */
  ghost function Elapsed(now: Timeval, last: Timeval): (e: nat)
    requires now.Normal() && last.Normal()
  {
    if now.Less(last) then 0 else Minus(now, last).Micros()
  }

  /** A forward span short enough for the sign test. */
  ghost predicate ShortlyAfter(now: Timeval, last: Timeval) {
    now.Normal() && last.Normal() && now.Geq(last) && now.sec as int - last.sec as int < 0x8000_0000
  }

  /** The time that passes for the queue, for any two readings: none when the clock went
      back; the difference, to the microsecond, when it went forward, unless the cut-down
      seconds come out negative, and then none again. */
  lemma ElapsedExact(now: Timeval, last: Timeval)
    requires now.Normal() && last.Normal()
    ensures now.Less(last) ==> Elapsed(now, last) == 0
    ensures now.Geq(last) ==>
              Elapsed(now, last) == if CastToInt(WholeSeconds(now, last) as int) < 0 then 0
                                    else now.Micros() - last.Micros()
    ensures ShortlyAfter(now, last) ==> Elapsed(now, last) == now.Micros() - last.Micros()
  {
    hide CastToInt, WholeSeconds, Minus, Timeval.Micros, Timeval.Normal, ShortlyAfter;
    var cut := CastToInt(WholeSeconds(now, last) as int);
    ZeroMicros();
    MinusCases(now, last, cut);
    if ShortlyAfter(now, last) {
      ShortIsNotCut(now, last);
    }
  }

  lemma ShortIsNotCut(now: Timeval, last: Timeval)
    requires ShortlyAfter(now, last)
    ensures now.Normal() && last.Normal() && now.Geq(last) && CastToInt(WholeSeconds(now, last) as int) >= 0
  {
    BorrowKeepsDifference(now, last);
    assert 0 <= WholeSeconds(now, last) as int < 0x8000_0000;
  }
}
