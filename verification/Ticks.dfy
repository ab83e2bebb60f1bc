/** Conversion between times and hardware timer ticks, and its error against the true rate. */
module Ticks {
  import opened Basics
  import opened Time

  const MAX_U32: nat := 0xFFFF_FFFF

  /** Ticks per unit of time. */
  datatype Rates = Rates(sec: nat, ms: nat, us: nat, ns: nat)

  function Calibrate(tms: nat): (r: Rates)
    ensures tms > 0 ==> r.sec > 0 && r.ms > 0 && r.us > 0 && r.ns > 0
  {
    var us := Max(tms / 1000, 1);
    Rates(SatMul(tms, 1000), tms, us, Max(us / 1000, 1))
  }

  function TimeToTicks(r: Rates, t: Time): nat {
    var ts := ToTs(t);
    match ts.unit
    case Seconds => SatMul(ts.ts, r.sec)
    case Milliseconds => SatMul(ts.ts, r.ms)
    case Microseconds => SatMul(ts.ts, r.us)
    case Nanoseconds => SatMul(ts.ts, r.ns)
  }

  /** Carries what exceeds a thousand into the next field. */
  function Carried(secs: nat, ms: nat, us: nat, ns: nat): Time {
    var us1 := if ns >= 1000 then SatAdd(us, ns / 1000) else us;
    var ms1 := if us1 >= 1000 then SatAdd(ms, us1 / 1000) else ms;
    var secs1 := if ms1 >= 1000 then SatAdd(secs, ms1 / 1000) else secs;
    Time(secs1, ms1 % 1000, us1 % 1000, ns % 1000)
  }

  function TicksToTime(r: Rates, ticks: nat): Time
    requires r.sec > 0 && r.ms > 0 && r.us > 0 && r.ns > 0
  {
    var msTicks := ticks % r.sec;
    var usTicks := msTicks % r.ms;
    var nsTicks := usTicks % r.us;
    Carried(ticks / r.sec, msTicks / r.ms, usTicks / r.us, nsTicks / r.ns)
  }

  /** Elapsed nanoseconds, and ticks in so many nanoseconds, at the true rate. */
  function TrueNs(ticks: nat, tms: nat): nat
    requires tms > 0
  {
    Quotient(ticks * 1_000_000, tms)
  }

  function TrueTicks(ns: nat, tms: nat): nat {
    Quotient(ns * tms, 1_000_000)
  }

  // --- small facts about quotients ---

  lemma {:induction false} Divide(a: nat, d: nat)
    requires d > 0
    ensures a == (a / d) * d + a % d && a % d < d
  {
  }

  lemma {:induction false} QuotientBelow(a: nat, d: nat, k: nat)
    requires d > 0
    ensures a < k * d <==> Quotient(a, d) < k
  {
    Divide(a, d);
    var q := a / d;
    if q < k {
      assert (q + 1) * d <= k * d;
    } else {
      assert k * d <= q * d;
    }
  }

  lemma {:induction false} MulMono(a: nat, b: nat, c: nat)
    requires a <= b
    ensures a * c <= b * c
  {
  }

  lemma {:induction false} SameProduct(ts: nat, a: nat, b: nat)
    requires ts > 0
    ensures ts * a == ts * b <==> a == b
    ensures a < b ==> ts * a < ts * b
  {
    if a < b {
      assert ts * b == ts * a + ts * (b - a);
    } else if b < a {
      assert ts * a == ts * b + ts * (a - b);
    }
  }

  lemma {:induction false} Shares(tms: nat)
    requires tms >= 1
    ensures var r := Calibrate(tms);
      && r.sec <= 1000 * tms && tms < 2000 * r.us && r.us < 2000 * r.ns
      && (tms >= 1000 ==> 1000 * r.us <= tms < 1000 * r.us + 1000)
      && (tms >= 1_000_000 ==> 1000 * r.ns <= r.us)
      && (tms < 1_000_000 ==> r.ns == 1)
  {
  }

  /** The digits of a conversion and what they add up to. */
  lemma {:induction false} Digits(tms: nat, ticks: nat) returns (s: nat, m: nat, u: nat, x: nat, n: nat)
    requires tms >= 1 && ticks <= MAX_U64
    ensures var r := Calibrate(tms);
      && ticks == s * r.sec + m * tms + u * r.us + x && x < r.us && u * r.us + x < tms
      && s < MAX_U64 && m < 1000 && u < 2000 && n < 2000 && n * r.ns <= x < (n + 1) * r.ns
      && TicksToTime(r, ticks) == Carried(s, m, u, n)
  {
    var r := Calibrate(tms);
    Shares(tms);
    SecondsFit(tms, ticks);
    var msTicks, usTicks;
    s, msTicks := Digit(ticks, r.sec, MAX_U64);
    m, usTicks := Digit(msTicks, tms, 1000);
    u, x := Digit(usTicks, r.us, 2000);
    var rest;
    n, rest := Digit(x, r.ns, 2000);
  }

  lemma {:induction false} Digit(a: nat, d: nat, bound: nat) returns (q: nat, rest: nat)
    requires d > 0 && a < bound * d
    ensures q == a / d < bound && rest == a % d < d && a == q * d + rest
  {
    q, rest := a / d, a % d;
    Divide(a, d);
    QuotientBelow(a, d, bound);
  }

  function Total(s: nat, m: nat, u: nat, n: nat): nat {
    s * NS_PER_SEC + m * 1_000_000 + u * 1000 + n
  }

  lemma {:induction false} CarriedIsExact(s: nat, m: nat, u: nat, n: nat)
    requires s < MAX_U64 && m < 1000 && u < 2000 && n < 2000
    ensures Normal(Carried(s, m, u, n))
    ensures Ns(Carried(s, m, u, n)) == Total(s, m, u, n)
  {
  }

  lemma {:induction false} SecondsFit(tms: nat, ticks: nat)
    requires tms >= 1 && ticks <= MAX_U64
    ensures ticks < MAX_U64 * Calibrate(tms).sec
  {
    assert Calibrate(tms).sec >= 1000;
    MulMono(1000, Calibrate(tms).sec, MAX_U64);
  }

  /** The conversion in digits: what they count, and what they are taken to mean. */
  lemma {:induction false} Decompose(tms: nat, ticks: nat) returns (s: nat, m: nat, u: nat, x: nat, n: nat)
    requires tms >= 1 && ticks <= MAX_U64
    ensures var r := Calibrate(tms);
      && ticks == s * r.sec + m * tms + u * r.us + x && x < r.us && u * r.us + x < tms
      && u < 2000 && n < 2000 && n * r.ns <= x < (n + 1) * r.ns
      && Normal(TicksToTime(r, ticks))
      && Ns(TicksToTime(r, ticks)) == Total(s, m, u, n)
  {
    s, m, u, x, n := Digits(tms, ticks);
    CarriedIsExact(s, m, u, n);
  }

  /** The conversion always yields a normalised time. */
  lemma {:induction false} TicksToTimeNormal(tms: nat, ticks: nat)
    requires tms >= 1 && ticks <= MAX_U64
    ensures Normal(TicksToTime(Calibrate(tms), ticks))
  {
    var s, m, u, x, n := Decompose(tms, ticks);
  }

  // --- ticks to time never runs slow ---

  /** No tick count is converted to less than the true time, in whole nanoseconds. */
  ghost predicate NeverSlow(tms: nat)
    requires tms >= 1
  {
    forall ticks: nat | ticks <= MAX_U64 :: Ns(TicksToTime(Calibrate(tms), ticks)) >= TrueNs(ticks, tms)
  }

  /** Rates whose rounding never loses a nanosecond. */
  predicate Generous(tms: nat) {
    || tms == 1
    || tms >= 1_000_000
    || (tms >= 1000 && (tms / 1000 - 1) * (1_000_000 - tms) < tms)
  }

  lemma {:induction false} RemainderNotSlow(tms: nat, us: nat, ns: nat, x: nat, n: nat)
    requires tms >= 1000 && Generous(tms) && us == tms / 1000 && x < us && x < (n + 1) * ns
    requires if tms >= 1_000_000 then 1000 * ns <= us else ns == 1
    ensures x * 1_000_000 < (n + 1) * tms
  {
    if tms >= 1_000_000 {
      ManyPerNano(tms, us, ns, x, n);
    } else {
      OnePerNano(tms, us, x, n);
    }
  }

  lemma {:induction false} ManyPerNano(tms: nat, us: nat, ns: nat, x: nat, n: nat)
    requires 1000 * us <= tms && 1000 * ns <= us && x < (n + 1) * ns
    ensures x * 1_000_000 < (n + 1) * tms
  {
    MulMono(ns * 1_000_000, tms, n + 1);
    assert ((n + 1) * ns) * 1_000_000 == (ns * 1_000_000) * (n + 1);
  }

  lemma {:induction false} OnePerNano(tms: nat, us: nat, x: nat, n: nat)
    requires tms < 1_000_000 && x < us && (us - 1) * (1_000_000 - tms) < tms && x < n + 1
    ensures x * 1_000_000 < (n + 1) * tms
  {
    MulMono(x, us - 1, 1_000_000 - tms);
    assert x * (1_000_000 - tms) == x * 1_000_000 - x * tms;
    MulMono(x + 1, n + 1, tms);
    assert (x + 1) * tms == x * tms + tms;
  }

  lemma {:induction false} MicrosNotSlow(tms: nat, us: nat, u: nat, x: nat, n: nat)
    requires 1000 * us <= tms && x * 1_000_000 < (n + 1) * tms
    ensures (u * us + x) * 1_000_000 < (u * 1000 + n + 1) * tms
  {
    MulMono(1000 * us, tms, u * 1000);
    assert (u * us) * 1_000_000 == (1000 * us) * (u * 1000);
    assert (u * 1000 + (n + 1)) * tms == tms * (u * 1000) + (n + 1) * tms;
  }

  lemma {:induction false} Assemble(tms: nat, s: nat, m: nat, v: nat, u: nat, n: nat)
    requires v * 1_000_000 < (u * 1000 + n + 1) * tms
    ensures (s * (tms * 1000) + m * tms + v) * 1_000_000 < (Total(s, m, u, n) + 1) * tms
  {
    var w := u * 1000 + n + 1;
    assert (s * (tms * 1000)) * 1_000_000 == (s * tms) * NS_PER_SEC;
    assert (s * NS_PER_SEC + m * 1_000_000 + w) * tms == (s * tms) * NS_PER_SEC + (m * tms) * 1_000_000 + w * tms;
    assert Total(s, m, u, n) + 1 == s * NS_PER_SEC + m * 1_000_000 + w;
  }

  lemma {:induction false} RestNotSlow(tms: nat, us: nat, ns: nat, u: nat, x: nat, n: nat)
    requires tms >= 1 && Generous(tms) && us == Calibrate(tms).us && ns == Calibrate(tms).ns
    requires x < us && u * us + x < tms && x < (n + 1) * ns
    ensures (u * us + x) * 1_000_000 < (u * 1000 + n + 1) * tms
  {
    if tms > 1 {
      Shares(tms);
      RemainderNotSlow(tms, us, ns, x, n);
      MicrosNotSlow(tms, us, u, x, n);
    }
  }

  lemma {:induction false} DigitsNotSlow(tms: nat, ticks: nat, s: nat, m: nat, v: nat, u: nat, n: nat)
    requires tms * 1000 <= MAX_U64 && ticks == s * Calibrate(tms).sec + m * tms + v
    requires v * 1_000_000 < (u * 1000 + n + 1) * tms
    ensures ticks * 1_000_000 < (Total(s, m, u, n) + 1) * tms
  {
    assert Calibrate(tms).sec == tms * 1000;
    Assemble(tms, s, m, v, u, n);
  }

  lemma {:induction false} GenerousNotSlow(tms: nat, ticks: nat)
    requires tms >= 1 && tms * 1000 <= MAX_U64 && ticks <= MAX_U64 && Generous(tms)
    ensures Ns(TicksToTime(Calibrate(tms), ticks)) >= TrueNs(ticks, tms)
  {
    var s, m, u, x, n := Decompose(tms, ticks);
    var r := Calibrate(tms);
    RestNotSlow(tms, r.us, r.ns, u, x, n);
    DigitsNotSlow(tms, ticks, s, m, u * r.us + x, u, n);
    QuotientBelow(ticks * 1_000_000, tms, Total(s, m, u, n) + 1);
  }

  /** Of a count below one millisecond the digits are determined. */
  lemma {:induction false} SmallConversion(tms: nat, ticks: nat) returns (u: nat, x: nat)
    requires 1 <= tms < 1_000_000 && ticks < tms
    ensures ticks == u * Calibrate(tms).us + x && x < Calibrate(tms).us
    ensures Ns(TicksToTime(Calibrate(tms), ticks)) == u * 1000 + x
  {
    var s, m, n;
    s, m, u, x, n := Decompose(tms, ticks);
    NoHigherDigits(tms, ticks, Calibrate(tms).sec, s, m, u * Calibrate(tms).us + x);
  }

  lemma {:induction false} NoHigherDigits(tms: nat, ticks: nat, sec: nat, s: nat, m: nat, rest: nat)
    requires ticks < tms <= sec && ticks == s * sec + m * tms + rest
    ensures s == 0 && m == 0
  {
    if s > 0 {
      MulMono(1, s, sec);
    }
    if m > 0 {
      MulMono(1, m, tms);
    }
  }

  lemma {:induction false} FewMicros(us: nat, u: nat, x: nat)
    requires us > 0 && u * us + x < us
    ensures u == 0
  {
    if u > 0 {
      MulMono(1, u, us);
    }
  }

  /** A tick count that is converted to less than the true time: all but one tick of the smallest unit that is cut
      short. */
  lemma {:induction false} SlowTicks(tms: nat) returns (ticks: nat)
    requires tms >= 1 && !Generous(tms)
    ensures ticks <= MAX_U64 && Ns(TicksToTime(Calibrate(tms), ticks)) < TrueNs(ticks, tms)
  {
    Shares(tms);
    if tms < 1000 {
      ticks := tms - 1;
      var u, x := SmallConversion(tms, ticks);
      SlowBelowMicros(tms, ticks);
    } else {
      ticks := Calibrate(tms).us - 1;
      var u, x := SmallConversion(tms, ticks);
      FewMicros(Calibrate(tms).us, u, x);
      SlowAboveMicros(tms, ticks);
    }
  }

  lemma {:induction false} SlowBelowMicros(tms: nat, ticks: nat)
    requires 1 < tms < 1000 && ticks == tms - 1
    ensures ticks * 1000 < TrueNs(ticks, tms)
  {
    assert 1_000_000 - 1000 * tms >= 1000;
    MulMono(1000, 1_000_000 - 1000 * tms, ticks);
    assert ticks * 1_000_000 == ticks * (1_000_000 - 1000 * tms) + (ticks * 1000) * tms;
    QuotientBelow(ticks * 1_000_000, tms, ticks * 1000 + 1);
  }

  lemma {:induction false} SlowAboveMicros(tms: nat, ticks: nat)
    requires 1000 <= tms < 1_000_000 && ticks == tms / 1000 - 1 && ticks * (1_000_000 - tms) >= tms
    ensures ticks < TrueNs(ticks, tms)
  {
    assert ticks * 1_000_000 == ticks * (1_000_000 - tms) + ticks * tms;
    QuotientBelow(ticks * 1_000_000, tms, ticks + 1);
  }

  /** Conversion never runs slow exactly at the generous rates. */
  lemma {:induction false} NeverSlowExactly(tms: nat)
    requires tms >= 1 && tms * 1000 <= MAX_U64
    ensures NeverSlow(tms) <==> Generous(tms)
  {
    if Generous(tms) {
      forall ticks: nat | ticks <= MAX_U64 ensures Ns(TicksToTime(Calibrate(tms), ticks)) >= TrueNs(ticks, tms) {
        GenerousNotSlow(tms, ticks);
      }
    } else {
      var ticks := SlowTicks(tms);
    }
  }

  // --- ticks to time is never far off ---

  /** Less than a millisecond short of the true time of so many ticks, and less than 2.001 milliseconds over it. */
  predicate Near(ns: nat, ticks: nat, tms: nat) {
    ticks * 1_000_000 < (ns + 1_000_000) * tms && ns * tms < ticks * 1_000_000 + 2_001_000 * tms
  }

  /** Whatever the rate, the conversion is off by no more than that. */
  lemma {:induction false} TimeIsNear(tms: nat, ticks: nat)
    requires tms >= 1 && tms * 1000 <= MAX_U64 && ticks <= MAX_U64
    ensures Near(Ns(TicksToTime(Calibrate(tms), ticks)), ticks, tms)
  {
    var s, m, u, x, n := Decompose(tms, ticks);
    NearTotal(tms, s, m, u, n, u * Calibrate(tms).us + x, ticks);
  }

  lemma {:induction false} NearTotal(tms: nat, s: nat, m: nat, u: nat, n: nat, rest: nat, ticks: nat)
    requires ticks == s * (tms * 1000) + m * tms + rest && rest < tms && u < 2000 && n < 2000
    ensures Near(Total(s, m, u, n), ticks, tms)
  {
    NearDigits(tms, s * 1000 + m, rest, u * 1000 + n);
    Regroup(s, m, u, n, 1, tms);
  }

  lemma {:induction false} NearDigits(tms: nat, whole: nat, rest: nat, below: nat)
    requires rest < tms && below < 2_001_000
    ensures Near(whole * 1_000_000 + below, whole * tms + rest, tms)
  {
    var ns, ticks := whole * 1_000_000 + below, whole * tms + rest;
    assert ns * tms == (whole * tms) * 1_000_000 + below * tms;
    MulMono(below + 1, 2_001_000, tms);
  }

  // --- time to ticks never waits too long ---

  /** No time is converted to more ticks than it truly has. */
  ghost predicate NeverLong(tms: nat) {
    forall t: Time | Normal(t) :: TimeToTicks(Calibrate(tms), t) <= TrueTicks(Ns(t), tms)
  }

  function Rate(r: Rates, unit: Unit): nat {
    match unit
    case Seconds => r.sec
    case Milliseconds => r.ms
    case Microseconds => r.us
    case Nanoseconds => r.ns
  }

  lemma {:induction false} ByRate(r: Rates, t: Time)
    ensures TimeToTicks(r, t) == SatMul(ToTs(t).ts, Rate(r, ToTs(t).unit))
  {
  }

  lemma {:induction false} RateNotLong(tms: nat, unit: Unit)
    requires tms >= 1_000_000
    ensures Rate(Calibrate(tms), unit) * 1_000_000 <= tms * NsPer(unit)
  {
    Shares(tms);
  }

  lemma {:induction false} ProductNotLong(ts: nat, rate: nat, unit: nat, ns: nat, tms: nat)
    requires rate * 1_000_000 <= tms * unit && ts * unit <= ns
    ensures ts * rate <= TrueTicks(ns, tms)
  {
    MulMono(rate * 1_000_000, tms * unit, ts);
    MulMono(ts * unit, ns, tms);
    assert (ts * rate) * 1_000_000 == (rate * 1_000_000) * ts;
    assert (tms * unit) * ts == (ts * unit) * tms;
    QuotientBelow(ns * tms, 1_000_000, ts * rate);
  }

  lemma {:induction false} NotLong(tms: nat, t: Time)
    requires tms >= 1_000_000 && Normal(t)
    ensures TimeToTicks(Calibrate(tms), t) <= TrueTicks(Ns(t), tms)
  {
    var ts := ToTs(t);
    ByRate(Calibrate(tms), t);
    ToTsIsExact(t);
    RateNotLong(tms, ts.unit);
    ProductNotLong(ts.ts, Rate(Calibrate(tms), ts.unit), NsPer(ts.unit), Ns(t), tms);
  }

  lemma {:induction false} NeverLongExactly(tms: nat)
    ensures NeverLong(tms) <==> tms >= 1_000_000
  {
    if tms >= 1_000_000 {
      forall t: Time | Normal(t) ensures TimeToTicks(Calibrate(tms), t) <= TrueTicks(Ns(t), tms) {
        NotLong(tms, t);
      }
    } else {
      var t := Time(0, 0, 0, 1);
      TimestampsAreExact(t);
      assert TimeToTicks(Calibrate(tms), t) >= 1;
      assert TrueTicks(Ns(t), tms) == 0;
    }
  }

  /** And never much shorter, at any rate: a unit of time counts for less than one tick too little. Where that makes it
      longer than the true time, every unit counts for one tick. */
  lemma {:induction false} TicksAreNear(tms: nat, t: Time)
    requires tms >= 1 && tms * 1000 <= MAX_U64 && Normal(t) && 0 < Ns(t) <= MAX_U64
    ensures var ticks := TimeToTicks(Calibrate(tms), t);
      && ticks <= MAX_U64
      && (ticks < MAX_U64 ==> Ns(t) * tms < (ticks + ToTs(t).ts) * 1_000_000)
      && (ticks * 1_000_000 <= Ns(t) * tms || ticks == ToTs(t).ts)
  {
    var ts, unit := ToTs(t).ts, ToTs(t).unit;
    ByRate(Calibrate(tms), t);
    ToTsIsExact(t);
    RateIsNear(tms, unit);
    ProductIsNear(ts, Rate(Calibrate(tms), unit), NsPer(unit), tms, Ns(t));
  }

  lemma {:induction false} RateIsNear(tms: nat, unit: Unit)
    requires tms >= 1 && tms * 1000 <= MAX_U64
    ensures tms * NsPer(unit) < (Rate(Calibrate(tms), unit) + 1) * 1_000_000
    ensures Rate(Calibrate(tms), unit) * 1_000_000 <= tms * NsPer(unit) || Rate(Calibrate(tms), unit) == 1
  {
  }

  lemma {:induction false} ProductIsNear(ts: nat, rate: nat, per: nat, tms: nat, ns: nat)
    requires 0 < ts <= MAX_U64 && ts * per == ns && tms * per < (rate + 1) * 1_000_000
    requires rate * 1_000_000 <= tms * per || rate == 1
    ensures SatMul(ts, rate) < MAX_U64 ==> ns * tms < (SatMul(ts, rate) + ts) * 1_000_000
    ensures SatMul(ts, rate) * 1_000_000 <= ns * tms || SatMul(ts, rate) == ts
  {
    assert ns * tms == ts * (tms * per) by {
      assert (ts * per) * tms == ts * (tms * per);
    }
    SameProduct(ts, tms * per, (rate + 1) * 1_000_000);
    assert ts * ((rate + 1) * 1_000_000) == (ts * rate + ts) * 1_000_000;
    if rate != 1 {
      MulMono(rate * 1_000_000, tms * per, ts);
      assert ts * (rate * 1_000_000) == (ts * rate) * 1_000_000;
    }
  }

  // --- there and back ---

  /** The exact tick count stays within 64 bits. */
  predicate Fits(t: Time, tms: nat) {
    Ns(t) <= MAX_U64 && Ns(t) * tms <= MAX_U64 * 1_000_000
  }

  ghost predicate RoundTrips(tms: nat)
    requires tms >= 1
  {
    forall t: Time | Normal(t) && Fits(t, tms) :: TicksToTime(Calibrate(tms), TimeToTicks(Calibrate(tms), t)) == t
  }

  lemma {:induction false} ExactRates(q: nat)
    requires q >= 1 && q * 1_000_000 * 1000 <= MAX_U64
    ensures Calibrate(q * 1_000_000) == Rates(q * NS_PER_SEC, q * 1_000_000, q * 1000, q)
  {
  }

  lemma {:induction false} ExactTicks(q: nat, t: Time)
    requires q >= 1 && q * 1_000_000 * 1000 <= MAX_U64 && Normal(t) && Fits(t, q * 1_000_000)
    ensures TimeToTicks(Calibrate(q * 1_000_000), t) == Ns(t) * q <= MAX_U64
  {
    var ts := ToTs(t);
    ByRate(Calibrate(q * 1_000_000), t);
    ToTsIsExact(t);
    ExactRate(q, ts.unit);
    ExactProduct(ts.ts, q, NsPer(ts.unit), Ns(t));
  }

  lemma {:induction false} ExactRate(q: nat, unit: Unit)
    requires q >= 1 && q * 1_000_000 * 1000 <= MAX_U64
    ensures Rate(Calibrate(q * 1_000_000), unit) == q * NsPer(unit)
  {
    ExactRates(q);
  }

  lemma {:induction false} ExactProduct(ts: nat, q: nat, unit: nat, ns: nat)
    requires ts * unit == ns && ns * (q * 1_000_000) <= MAX_U64 * 1_000_000
    ensures ts * (q * unit) == ns * q <= MAX_U64
  {
    assert ns * (q * 1_000_000) == (ns * q) * 1_000_000;
    assert ts * (q * unit) == (ts * unit) * q;
  }

  lemma {:induction false} ExactRoundTrip(q: nat, t: Time)
    requires q >= 1 && q * 1_000_000 * 1000 <= MAX_U64 && Normal(t) && Fits(t, q * 1_000_000)
    ensures TicksToTime(Calibrate(q * 1_000_000), TimeToTicks(Calibrate(q * 1_000_000), t)) == t
  {
    ExactTicks(q, t);
    var s, m, u, x, n := Decompose(q * 1_000_000, Ns(t) * q);
    ExactRates(q);
    SameQuotient(q, Ns(t), s, m, u, x, n);
    OrderIsNumeric(TicksToTime(Calibrate(q * 1_000_000), Ns(t) * q), t);
  }

  lemma {:induction false} SameQuotient(q: nat, total: nat, s: nat, m: nat, u: nat, x: nat, n: nat)
    requires q >= 1 && total * q == s * (q * NS_PER_SEC) + m * (q * 1_000_000) + u * (q * 1000) + x
    requires n * q <= x < (n + 1) * q
    ensures total == Total(s, m, u, n)
  {
    var k := Total(s, m, u, n);
    assert k * q == s * (q * NS_PER_SEC) + m * (q * 1_000_000) + u * (q * 1000) + n * q;
    assert k * q <= total * q < k * q + q;
    if total > k {
      MulMono(k + 1, total, q);
    }
  }

  /** At any other rate some time does not come back. */
  lemma {:induction false} Inexact(tms: nat) returns (t: Time)
    requires tms >= 1 && tms * 1000 <= MAX_U64 && tms % 1_000_000 != 0
    ensures Normal(t) && Fits(t, tms) && TicksToTime(Calibrate(tms), TimeToTicks(Calibrate(tms), t)) != t
  {
    if tms < 1_000_000 {
      t := InexactSmall(tms);
    } else {
      t := Time(0, 3, 0, 1);
      InexactLarge(tms, t);
    }
  }

  lemma {:induction false} InexactSmall(tms: nat) returns (t: Time)
    requires 1 <= tms < 1_000_000
    ensures Normal(t) && Fits(t, tms) && TicksToTime(Calibrate(tms), TimeToTicks(Calibrate(tms), t)) != t
  {
    t := Time(0, 0, 0, if tms < 1000 then 1 else 999);
    FewNanoseconds(tms, t);
    TooLong(tms, t.ns);
    Differ(tms, t, t.ns);
  }

  lemma {:induction false} Differ(tms: nat, t: Time, ticks: nat)
    requires tms >= 1 && TimeToTicks(Calibrate(tms), t) == ticks && Ns(TicksToTime(Calibrate(tms), ticks)) != Ns(t)
    ensures TicksToTime(Calibrate(tms), TimeToTicks(Calibrate(tms), t)) != t
  {
  }

  lemma {:induction false} OneTick()
    ensures TicksToTime(Calibrate(1), 1) == Time(0, 1, 0, 0)
  {
  }

  lemma {:induction false} TooLong(tms: nat, ticks: nat)
    requires 1 <= tms < 1_000_000 && ticks == if tms < 1000 then 1 else 999
    ensures Ns(TicksToTime(Calibrate(tms), ticks)) >= 1000
  {
    if tms == 1 {
      OneTick();
    } else {
      var u, x := SmallConversion(tms, ticks);
      Shares(tms);
      assert x < ticks;
    }
  }

  lemma {:induction false} FewNanoseconds(tms: nat, t: Time)
    requires 1 <= tms < 1_000_000 && t == Time(0, 0, 0, t.ns) && 0 < t.ns < 1000
    ensures TimeToTicks(Calibrate(tms), t) == t.ns && Normal(t) && Fits(t, tms) && Ns(t) < 1000
  {
    TimestampsAreExact(t);
    Shares(tms);
    ByRate(Calibrate(tms), t);
    assert ToTs(t) == Timestamp(t.ns, Nanoseconds);
    MulMono(t.ns, 1000, tms);
  }

  lemma {:induction false} InexactLarge(tms: nat, t: Time)
    requires tms >= 1_000_000 && tms * 1000 <= MAX_U64 && tms % 1_000_000 != 0 && t == Time(0, 3, 0, 1)
    ensures Normal(t) && Fits(t, tms) && TicksToTime(Calibrate(tms), TimeToTicks(Calibrate(tms), t)) != t
  {
    var r := Calibrate(tms);
    OddRate(tms, r.ns, r.us, t);
    var s, m, u, x, n := Decompose(tms, 3_000_001 * r.ns);
    if s == 0 && m == 0 {
      assert u * 1000 + n < 3_000_001;
    } else {
      LongUnits(tms, r.ns, r.us, 3_000_001 * r.ns, s, m, u, x, n);
    }
  }

  lemma {:induction false} OddRate(tms: nat, q: nat, us: nat, t: Time)
    requires tms >= 1_000_000 && tms * 1000 <= MAX_U64 && tms % 1_000_000 != 0 && t == Time(0, 3, 0, 1)
    requires q == Calibrate(tms).ns && us == Calibrate(tms).us
    ensures q * 1_000_000 < tms && q * 1000 <= us
    ensures TimeToTicks(Calibrate(tms), t) == 3_000_001 * q <= MAX_U64
  {
    Shares(tms);
    TimestampsAreExact(t);
    ByRate(Calibrate(tms), t);
  }

  lemma {:induction false} Regroup(s: nat, m: nat, u: nat, n: nat, q: nat, tms: nat)
    ensures Total(s, m, u, n) * q == (s * 1000 + m) * (q * 1_000_000) + u * (q * 1000) + n * q
    ensures s * (tms * 1000) + m * tms == (s * 1000 + m) * tms
  {
  }

  /** When a millisecond has more ticks than its nanoseconds do, whole milliseconds use up too many. */
  lemma {:induction false} LongUnits(tms: nat, q: nat, us: nat, ticks: nat, s: nat, m: nat, u: nat, x: nat, n: nat)
    requires q * 1_000_000 < tms && q * 1000 <= us && n * q <= x && s + m > 0
    requires ticks == s * (tms * 1000) + m * tms + u * us + x
    ensures Total(s, m, u, n) * q < ticks
  {
    var big := s * 1000 + m;
    Regroup(s, m, u, n, q, tms);
    SameProduct(big, q * 1_000_000, tms);
    MulMono(q * 1000, us, u);
  }

  /** Times come back unchanged exactly when the rate is a whole number of ticks per nanosecond. */
  lemma {:induction false} RoundTripsExactly(tms: nat)
    requires tms >= 1 && tms * 1000 <= MAX_U64
    ensures RoundTrips(tms) <==> tms % 1_000_000 == 0
  {
    if tms % 1_000_000 == 0 {
      var q := tms / 1_000_000;
      forall t: Time | Normal(t) && Fits(t, tms)
        ensures TicksToTime(Calibrate(tms), TimeToTicks(Calibrate(tms), t)) == t
      {
        ExactRoundTrip(q, t);
      }
    } else {
      var t := Inexact(tms);
    }
  }

  // --- the timer is never armed with zero ---

  /** The count the local APIC is started with. */
  function LapicCount(r: Rates, t: Time): nat {
    Min(MAX_U32, TimeToTicks(r, t))
  }

  function TscDeadline(tsc: nat, cycles: nat): nat {
    SatAdd(tsc, cycles)
  }

  /** The deadline is so many cycles ahead, as far as 64 bits go. */
  lemma {:induction false} DeadlineExactly(tsc: nat, cycles: nat)
    requires tsc <= MAX_U64
    ensures tsc + cycles <= MAX_U64 ==> TscDeadline(tsc, cycles) - tsc == cycles
    ensures tsc + cycles > MAX_U64 ==> TscDeadline(tsc, cycles) == 0xFFFF_FFFF_FFFF_FFFF
  {
  }

  lemma {:induction false} ArmedNonZero(tms: nat, t: Time, tsc: nat)
    requires tms >= 1 && Normal(t) && Ns(t) > 0
    ensures 1 <= LapicCount(Calibrate(tms), t) <= MAX_U32
    ensures 1 <= TscDeadline(tsc, TimeToTicks(Calibrate(tms), t)) <= MAX_U64
  {
    ToTsIsExact(t);
    ByRate(Calibrate(tms), t);
    MulMono(1, Rate(Calibrate(tms), ToTs(t).unit), ToTs(t).ts);
  }

  // --- the time credited to the runtime ---

  /** When the local APIC has counted down what it was armed with, the time it was armed for has passed, exactly. */
  predicate CreditsExactly(tms: nat, t: Time) {
    LapicCount(Calibrate(tms), t) * 1_000_000 == Ns(t) * tms
  }

  /** The rate has whole ticks in the unit: seconds and milliseconds always do. */
  predicate WholeTicks(tms: nat, unit: Unit) {
    match unit
    case Seconds => true
    case Milliseconds => true
    case Microseconds => tms % 1000 == 0
    case Nanoseconds => tms % 1_000_000 == 0
  }

  lemma {:induction false} WholeTicksExactly(tms: nat, unit: Unit)
    requires 1 <= tms <= MAX_U32
    ensures Rate(Calibrate(tms), unit) * 1_000_000 == tms * NsPer(unit) <==> WholeTicks(tms, unit)
    ensures Rate(Calibrate(tms), unit) * 1_000_000 <= tms * NsPer(unit) || Rate(Calibrate(tms), unit) == 1
  {
  }

  /** The runtime keeps true time exactly if the count fits the 32-bit register and the rate has whole ticks in the unit
      that the interval is counted in. Every interval is at most a second. */
  lemma {:induction false} CreditExactly(tms: nat, t: Time)
    requires 1 <= tms <= MAX_U32 && Normal(t) && 0 < Ns(t) <= NS_PER_SEC
    ensures CreditsExactly(tms, t) <==>
      TimeToTicks(Calibrate(tms), t) <= MAX_U32 && WholeTicks(tms, ToTs(t).unit)
  {
    var ts, unit := ToTs(t).ts, ToTs(t).unit;
    ByRate(Calibrate(tms), t);
    ToTsIsExact(t);
    WholeTicksExactly(tms, unit);
    CountIsTrue(ts, Rate(Calibrate(tms), unit), NsPer(unit), tms, Ns(t));
  }

  /** The same for `ts` units of `per` nanoseconds, counted at `rate`. */
  lemma {:induction false} CountIsTrue(ts: nat, rate: nat, per: nat, tms: nat, ns: nat)
    requires ts > 0 && per > 0 && ts * per == ns <= NS_PER_SEC
    requires rate * 1_000_000 <= tms * per || rate == 1
    ensures Min(MAX_U32, SatMul(ts, rate)) * 1_000_000 == ns * tms <==>
      SatMul(ts, rate) <= MAX_U32 && rate * 1_000_000 == tms * per
  {
    assert ns * tms == ts * (tms * per) by {
      assert (ts * per) * tms == ts * (tms * per);
    }
    if SatMul(ts, rate) <= MAX_U32 {
      assert SatMul(ts, rate) * 1_000_000 == ts * (rate * 1_000_000);
      SameProduct(ts, rate * 1_000_000, tms * per);
    } else {
      ClampedShort(ts, rate, per, tms, ns);
    }
  }

  lemma {:induction false} ClampedShort(ts: nat, rate: nat, per: nat, tms: nat, ns: nat)
    requires ts * rate > MAX_U32 && per > 0 && ts * per == ns <= NS_PER_SEC
    requires rate * 1_000_000 <= tms * per || rate == 1
    ensures MAX_U32 * 1_000_000 < ns * tms
  {
    MulMono(1, per, ts);
    assert rate != 1;
    MulMono(rate * 1_000_000, tms * per, ts);
    assert (tms * per) * ts == ns * tms by {
      assert (ts * per) * tms == (tms * per) * ts;
    }
    assert (rate * 1_000_000) * ts == (ts * rate) * 1_000_000;
  }
}
