/** The time of day: settimeofday stores the time of tick 0, gettimeofday adds the ticks since. */
module TimeOfDay {
  import opened Arithmetic
  import opened Errno

  datatype TimeVal = TimeVal(sec: int, usec: int)

  datatype TimeZone = TimeZone(minutesWest: int, dstTime: int)

  /** A 32-bit signed integer from the sum or difference of 32-bit words. */
  function Signed(x: int): (r: int)
    ensures -0x8000_0000 <= r < 0x8000_0000 && (r - x) % 0x1_0000_0000 == 0
  {
    (x + 0x8000_0000) % 0x1_0000_0000 - 0x8000_0000
  }

  function Total(t: TimeVal): int
  {
    t.sec * 1_000_000 + t.usec
  }

  predicate Normal(t: TimeVal)
  {
    0 <= t.usec < 1_000_000
  }

  /** The whole microseconds of one tick. */
  function TickLength(rate: Word): nat
    requires 0 < rate
  {
    1_000_000 / rate
  }

  function Product(n: Word, rate: Word): nat
    requires 0 < rate
  {
    Times(n, TickLength(rate))
  }

  /** The microseconds of tick n as settimeofday computes them, in 32 bits. */
  function FractionSet(n: Word, rate: Word): (r: nat)
    requires 0 < rate
    ensures r < 1_000_000
  {
    (Product(n, rate) % 0x1_0000_0000) % 1_000_000
  }

  /** The microseconds of tick n as gettimeofday computes them, in 64 bits. */
  function FractionGet(n: Word, rate: Word): (r: nat)
    requires 0 < rate
    ensures r < 1_000_000
  {
    Product(n, rate) % 1_000_000
  }

  /** The time that settimeofday stores. */
  function Stored(t: TimeVal, n: Word, rate: Word): TimeVal
    requires 0 < rate
  {
    TimeVal(Signed(t.sec - n / rate), Signed(t.usec - FractionSet(n, rate)))
  }

  /** What gettimeofday adds up, before it normalises. */
  function Sum(reset: TimeVal, n: Word, rate: Word): TimeVal
    requires 0 < rate
  {
    TimeVal(Signed(reset.sec + n / rate), Signed(reset.usec + FractionGet(n, rate)))
  }

  /** gettimeofday gives up on a time before 0 whose microseconds are negative. */
  predicate Clamped(t: TimeVal)
  {
    t.usec < 0 && Total(t) < 0
  }

  /** The normal form of a time, which is 0 for one that is given up. */
  function Normalised(t: TimeVal): TimeVal
  {
    if Clamped(t) then TimeVal(0, 0)
    else TimeVal(Total(t) / 1_000_000, Total(t) % 1_000_000)
  }

  lemma NormalisedIs(t: TimeVal)
    ensures Normal(Normalised(t))
    ensures Total(Normalised(t)) == if Clamped(t) then 0 else Total(t)
  {
  }

  lemma ClampedIsZero(t: TimeVal)
    ensures Clamped(t) ==> t.usec < 0 && Total(t) < 0 && Normalised(t) == TimeVal(0, 0)
  {
  }

  lemma NormalIsUnique(s: TimeVal, t: TimeVal)
    requires Normal(s) && Normal(t) && Total(s) == Total(t)
    ensures s == t
  {
  }

  lemma TotalMoves(t: TimeVal, d: int)
    ensures Total(TimeVal(t.sec, t.usec + d)) == Total(t) + d
  {
  }

  lemma ZeroMovesBack(d: int)
    requires d < 0
    ensures Clamped(TimeVal(0, d))
  {
  }

  lemma CutByMultiple(k: nat, r: nat)
    requires k % 15_625 == 0
    ensures (k * 0x1_0000_0000 + r) % 1_000_000 == r % 1_000_000
  {
    var m := k / 15_625;
    assert k * 0x1_0000_0000 + r == r + 1_000_000 * (0x400_0000 * m);
  }

  lemma CutOnlyByMultiple(k: nat, r: nat)
    requires (k * 0x1_0000_0000 + r) % 1_000_000 == r % 1_000_000
    ensures k % 15_625 == 0
  {
    var m := (k * 0x1_0000_0000 + r) / 1_000_000 - r / 1_000_000;
    assert k * 0x400_0000 == 15_625 * m;
    assert k == 15_625 * (12_659 * m - 54_369_991 * k);
  }

  /** 32 bits are enough for a product exactly when 5^6 divides what is cut off. */
  lemma CutProduct(p: nat)
    ensures (p % 0x1_0000_0000) % 1_000_000 == p % 1_000_000 <==> (p / 0x1_0000_0000) % 15_625 == 0
  {
    var k, r := p / 0x1_0000_0000, p % 0x1_0000_0000;
    if k % 15_625 == 0 {
      CutByMultiple(k, r);
    }
    if r % 1_000_000 == p % 1_000_000 {
      CutOnlyByMultiple(k, r);
    }
  }

  /** settimeofday and gettimeofday agree on the fraction of tick n. */
  predicate Agrees(n: Word, rate: Word)
    requires 0 < rate
  {
    (Product(n, rate) / 0x1_0000_0000) % 15_625 == 0
  }

  lemma AgreesOnFraction(n: Word, rate: Word)
    requires 0 < rate
    ensures Agrees(n, rate) <==> FractionSet(n, rate) == FractionGet(n, rate)
  {
    CutProduct(Product(n, rate));
  }

  /** What is read at tick n after t was set at tick n0. */
  function Reading(t: TimeVal, n0: Word, n: Word, rate: Word): TimeVal
    requires 0 < rate
  {
    Normalised(Sum(Stored(t, n0, rate), n, rate))
  }

  lemma SignedInverse(x: int, y: int, z: int)
    ensures Signed(Signed(x - y) + z) == Signed(x - y + z)
  {
  }

  lemma SignedInRange(x: int)
    requires -0x8000_0000 <= x < 0x8000_0000
    ensures Signed(x) == x
  {
  }

  lemma SumOfStored(t: TimeVal, n0: Word, n: Word, rate: Word)
    requires 0 < rate && Normal(t) && -0x8000_0000 <= t.sec - n0 / rate + n / rate < 0x8000_0000
    ensures (Sum(Stored(t, n0, rate), n, rate)
             == TimeVal(t.sec - n0 / rate + n / rate, t.usec - FractionSet(n0, rate) + FractionGet(n, rate)))
  {
    var s, g := FractionSet(n0, rate), FractionGet(n, rate);
    SignedInverse(t.sec, n0 / rate, n / rate);
    SignedInRange(t.sec - n0 / rate + n / rate);
    SignedInRange(t.usec - s);
    SignedInRange(t.usec - s + g);
  }

  /** Moved by less than a second, a time is itself again exactly when it has not moved, or it is 0
      and has moved back. */
  lemma Moved(t: TimeVal, d: int)
    requires Normal(t) && -1_000_000 < d < 1_000_000
    ensures Normalised(TimeVal(t.sec, t.usec + d)) == t <==> d == 0 || (t == TimeVal(0, 0) && d < 0)
  {
    hide Total, Clamped, Normalised;
    var s := TimeVal(t.sec, t.usec + d);
    ClampedIsZero(s);
    NormalisedIs(s);
    TotalMoves(t, d);
    if Clamped(s) {
    } else if d == 0 {
      NormalIsUnique(Normalised(s), t);
    } else if d < 0 {
      ZeroMovesBack(d);
    }
  }

  /** A time that is read back at once is the one that was set exactly when the two agree on the
      fraction of the tick, or the time is 0 and what is read falls short of it. */
  lemma ReadBack(t: TimeVal, n: Word, rate: Word)
    requires 0 < rate && Normal(t) && -0x8000_0000 <= t.sec < 0x8000_0000
    ensures (Reading(t, n, n, rate) == t
             <==> Agrees(n, rate) || (t == TimeVal(0, 0) && FractionGet(n, rate) < FractionSet(n, rate)))
  {
    hide FractionSet, FractionGet, Sum, Stored, Normalised, Agrees;
    AgreesOnFraction(n, rate);
    SumOfStored(t, n, n, rate);
    Moved(t, FractionGet(n, rate) - FractionSet(n, rate));
  }

  lemma ProductIsCut()
    ensures !Agrees(4_294_968, 1000)
  {
    assert TickLength(1000) == 1000;
    assert Product(4_294_968, 1000) == 4_294_968_000;
  }

  /** At 1000 ticks a second the product loses 2^32 at tick 4294968: a time set there is read back off. */
  lemma ReadBackExample(t: TimeVal)
    requires t == TimeVal(5, 0)
    ensures Reading(t, 4_294_968, 4_294_968, 1000) != t
  {
    hide *;
    ProductIsCut();
    FiveSeconds(t);
    ReadBack(t, 4_294_968, 1000);
  }

  lemma FiveSeconds(t: TimeVal)
    requires t == TimeVal(5, 0)
    ensures Normal(t) && t != TimeVal(0, 0)
  {
  }

  lemma WholeAndRest(n: Word, rate: Word)
    requires 0 < rate && TickLength(rate) * rate == 1_000_000
    ensures Product(n, rate) == (n / rate) * 1_000_000 + FractionGet(n, rate)
  {
    var q, w, r := TickLength(rate), n / rate, n % rate;
    assert n == w * rate + r;
    calc {
      Product(n, rate);
      n * q;
      (w * rate + r) * q;
      w * (q * rate) + r * q;
    }
    assert r * q < rate * q;
  }

  lemma TimesDifference(n0: nat, n: nat, q: nat)
    requires n0 <= n
    ensures Times(n, q) - Times(n0, q) == Times(n - n0, q)
  {
  }

  lemma TimesIsZero(k: nat, q: nat)
    requires 0 < q
    ensures Times(k, q) == 0 <==> k == 0
  {
  }

  /** For a rate that divides a million, what gettimeofday adds up at a later tick is the time that
      was set plus the ticks since, but for the disagreement on the fraction of the tick of the set. */
  lemma SumLater(t: TimeVal, n0: Word, n: Word, rate: Word)
    requires 0 < rate && TickLength(rate) * rate == 1_000_000 && n0 <= n && Normal(t)
    requires -0x8000_0000 <= t.sec - n0 / rate + n / rate < 0x8000_0000
    ensures (Total(Sum(Stored(t, n0, rate), n, rate))
             == Total(t) + Times(n - n0, TickLength(rate)) + FractionGet(n0, rate) - FractionSet(n0, rate))
  {
    SumOfStored(t, n0, n, rate);
    WholeAndRest(n0, rate);
    WholeAndRest(n, rate);
    TimesDifference(n0, n, TickLength(rate));
    hide FractionSet, FractionGet, Sum, Stored, TickLength, Times;
  }

  lemma Quotients(n0: nat, n: nat, rate: nat)
    requires 0 < rate && n0 <= n
    ensures n0 / rate <= n / rate
  {
    if n / rate < n0 / rate {
      Ordered(n / rate + 1, n0 / rate, rate);
      assert false;
    }
  }

  /** So the reading is exact at every later tick, before the counter wraps, if the two agree on the
      fraction at the set; and if they do not, it is wrong at every one, but for a reading of time 0 on
      the tick of the set. */
  lemma ReadLater(t: TimeVal, n0: Word, n: Word, rate: Word)
    requires 0 < rate && TickLength(rate) * rate == 1_000_000 && n0 <= n
    requires Normal(t) && 0 <= t.sec && t.sec - n0 / rate + n / rate < 0x8000_0000
    ensures (Total(Reading(t, n0, n, rate)) == Total(t) + Times(n - n0, TickLength(rate))
             <==> (Agrees(n0, rate)
                   || (t == TimeVal(0, 0) && n == n0 && FractionGet(n0, rate) < FractionSet(n0, rate))))
  {
    hide FractionSet, FractionGet, Sum, Stored, Normalised, Agrees, Times, TickLength, Total, Clamped;
    AgreesOnFraction(n0, rate);
    Quotients(n0, n, rate);
    SumLater(t, n0, n, rate);
    var sum, later := Sum(Stored(t, n0, rate), n, rate), Times(n - n0, TickLength(rate));
    NormalisedIs(sum);
    ClampedIsZero(sum);
    TotalIsZero(t);
    TickIsPositive(rate);
    TimesIsZero(n - n0, TickLength(rate));
    if t == TimeVal(0, 0) && n == n0 && FractionGet(n0, rate) < FractionSet(n0, rate) {
      SumOfStored(t, n0, n, rate);
      ZeroMovesBack(FractionGet(n0, rate) - FractionSet(n0, rate));
    }
  }

  lemma TotalIsZero(t: TimeVal)
    requires Normal(t) && 0 <= t.sec
    ensures 0 <= Total(t) && (Total(t) == 0 <==> t == TimeVal(0, 0))
  {
  }

  lemma TickIsPositive(rate: Word)
    requires 0 < rate && TickLength(rate) * rate == 1_000_000
    ensures 0 < TickLength(rate)
  {
  }

  /** A reading of an agreed time is never given up. */
  lemma NeverClamped(t: TimeVal, n0: Word, n: Word, rate: Word)
    requires 0 < rate && TickLength(rate) * rate == 1_000_000 && n0 <= n
    requires Normal(t) && 0 <= t.sec && t.sec - n0 / rate + n / rate < 0x8000_0000 && Agrees(n0, rate)
    ensures !Clamped(Sum(Stored(t, n0, rate), n, rate))
  {
    hide FractionSet, FractionGet, Sum, Stored, Agrees, Times, TickLength, Total;
    AgreesOnFraction(n0, rate);
    Quotients(n0, n, rate);
    SumLater(t, n0, n, rate);
    TotalIsZero(t);
  }

  class Clock {
    var nticks: Word
    const tickRate: Word
    var resetTime: TimeVal
    var zone: TimeZone
    var errno: int

    constructor (tickRate: Word)
      ensures this.tickRate == tickRate && nticks == 0 && resetTime == TimeVal(0, 0)
      ensures zone == TimeZone(0, 0) && errno == 0
    {
      this.tickRate, nticks, errno := tickRate, 0, 0;
      resetTime, zone := TimeVal(0, 0), TimeZone(0, 0);
    }

    /** ALT_SETTIMEOFDAY. */
    method Set(t: TimeVal, tz: TimeZone) returns (rc: int)
      modifies `resetTime, `zone, `errno
      ensures rc == if tickRate == 0 then -1 else 0
      ensures tickRate == 0 ==> errno == ENOSYS && resetTime == old(resetTime) && zone == old(zone)
      ensures (tickRate != 0 ==>
                 errno == old(errno) && resetTime == Stored(t, nticks, tickRate) && zone == tz)
    {
      if tickRate != 0 {
        var product := (nticks * (1_000_000 / tickRate)) % 0x1_0000_0000;
        resetTime := TimeVal(Signed(t.sec - nticks / tickRate), Signed(t.usec - product % 1_000_000));
        zone := tz;
        return 0;
      }
      errno := ENOSYS;
      return -1;
    }

    /** ALT_GETTIMEOFDAY. */
    method Get(t0: TimeVal, tz0: Option<TimeZone>) returns (t: TimeVal, tz: Option<TimeZone>, rc: int)
      ensures rc == if tickRate == 0 then -ENOTSUP else 0
      ensures tickRate == 0 ==> t == t0 && tz == tz0
      ensures (tickRate != 0 ==>
                 && t == Normalised(Sum(resetTime, nticks, tickRate))
                 && tz == if tz0.None? then None else Some(zone))
    {
      t, tz := t0, tz0;
      if tickRate != 0 {
        var fraction := (nticks * (1_000_000 / tickRate)) % 1_000_000;
        t := TimeVal(Signed(resetTime.sec + nticks / tickRate), Signed(resetTime.usec + fraction));
        t := Normalise(t);
        if tz0.Some? {
          tz := Some(zone);
        }
        return t, tz, 0;
      }
      return t, tz, -ENOTSUP;
    }

    /** The loops of ALT_GETTIMEOFDAY that bring the microseconds into range. */
    static method Normalise(s: TimeVal) returns (t: TimeVal)
      ensures t == Normalised(s)
    {
      hide Normalised;
      t := s;
      ghost var zeroed := false;
      while t.usec < 0
        invariant if zeroed then Clamped(s) && t == TimeVal(0, 0) else Total(t) == Total(s)
        invariant t.usec < 0 ==> s.usec < 0
        invariant s.usec < 0 ==> t.usec < 1_000_000
        invariant s.usec < 0 && !zeroed && t != s ==> 0 <= t.sec
        decreases -t.usec
      {
        if t.sec <= 0 {
          t := TimeVal(0, 0);
          zeroed := true;
          break;
        } else {
          t := TimeVal(t.sec - 1, t.usec + 1_000_000);
        }
      }
      while t.usec >= 1_000_000
        invariant 0 <= t.usec
        invariant if zeroed then Clamped(s) && t == TimeVal(0, 0) else Total(t) == Total(s) && !Clamped(s)
        decreases t.usec
      {
        t := TimeVal(t.sec + 1, t.usec - 1_000_000);
      }
      NormalisedIs(s);
      NormalIsUnique(t, Normalised(s));
    }
  }
}
