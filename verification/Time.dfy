/** Times as seconds, milliseconds, microseconds and nanoseconds, and their agreement with plain nanosecond counts. */
module Time {
  import opened Basics

  const MAX_U64: nat := 0xFFFF_FFFF_FFFF_FFFF
  const NS_PER_SEC: nat := 1_000_000_000

  datatype Time = Time(secs: nat, ms: nat, us: nat, ns: nat)

  predicate Normal(t: Time) {
    t.secs <= MAX_U64 && t.ms < 1000 && t.us < 1000 && t.ns < 1000
  }

  /** The nanoseconds within the second, and in all. */
  function SubSecond(t: Time): nat {
    (t.ms * 1000 + t.us) * 1000 + t.ns
  }

  function Ns(t: Time): nat {
    t.secs * NS_PER_SEC + SubSecond(t)
  }

  function Min(a: int, b: int): int {
    if a < b then a else b
  }

  function SatAdd(a: nat, b: nat): nat {
    Min(a + b, MAX_U64)
  }

  function SatMul(a: nat, b: nat): nat {
    Min(a * b, MAX_U64)
  }

  function Quotient(a: nat, b: nat): nat
    requires b > 0
  {
    a / b
  }

  function SatSub(a: nat, b: nat): nat {
    if a >= b then a - b else 0
  }

  function FromMs(ms: nat): Time {
    Time(ms / 1000, ms % 1000, 0, 0)
  }

  function FromUs(us: nat): Time {
    FromMs(us / 1000).(us := us % 1000)
  }

  function FromNs(ns: nat): Time {
    FromUs(ns / 1000).(ns := ns % 1000)
  }

  /** The derived order: field by field. */
  predicate Less(a: Time, b: Time) {
    || a.secs < b.secs
    || (a.secs == b.secs && a.ms < b.ms)
    || (a.secs == b.secs && a.ms == b.ms && a.us < b.us)
    || (a.secs == b.secs && a.ms == b.ms && a.us == b.us && a.ns < b.ns)
  }

  function Add(a: Time, b: Time): Time {
    var ns := a.ns + b.ns;
    var us := a.us + b.us + ns / 1000;
    var ms := a.ms + b.ms + us / 1000;
    Time(SatAdd(SatAdd(a.secs, b.secs), ms / 1000), ms % 1000, us % 1000, ns % 1000)
  }

  /** One digit of a subtraction: the digit, and what is borrowed from the next. */
  function SubDigit(a: nat, b: nat): (nat, nat)
    requires b <= a + 1000
  {
    if b > a then (1000 - SatSub(b, a), 1) else (SatSub(a, b), 0)
  }

  /** None when the seconds to take away, with the borrow, overflow. */
  function Sub(a: Time, b: Time): Option<Time>
    requires Normal(a) && Normal(b)
  {
    var (ns, usBorrow) := SubDigit(a.ns, b.ns);
    var (us, msBorrow) := SubDigit(a.us, b.us + usBorrow);
    var (ms, borrow) := SubDigit(a.ms, b.ms + msBorrow);
    if b.secs + borrow > MAX_U64 then None
    else Some(Time(SatSub(a.secs, b.secs + borrow), ms, us, ns))
  }

  // --- timestamps ---

  datatype Unit = Seconds | Milliseconds | Microseconds | Nanoseconds

  datatype Timestamp = Timestamp(ts: nat, unit: Unit)

  function Rank(u: Unit): nat {
    match u
    case Seconds => 0
    case Milliseconds => 1
    case Microseconds => 2
    case Nanoseconds => 3
  }

  function Thousands(n: nat): (r: nat)
    ensures r > 0
  {
    if n == 0 then 1 else 1000 * Thousands(n - 1)
  }

  function ToUnit(t: Timestamp, unit: Unit): Timestamp {
    if Rank(unit) < Rank(t.unit) then Timestamp(Quotient(t.ts, Thousands(Rank(t.unit) - Rank(unit))), unit)
    else Timestamp(SatMul(t.ts, Thousands(Rank(unit) - Rank(t.unit))), unit)
  }

  function ToSecs(t: Time): Timestamp {
    Timestamp(t.secs, Seconds)
  }

  function ToMs(t: Time): Timestamp {
    var ts := ToUnit(ToSecs(t), Milliseconds);
    ts.(ts := SatAdd(ts.ts, t.ms))
  }

  function ToUs(t: Time): Timestamp {
    var ts := ToUnit(ToMs(t), Microseconds);
    ts.(ts := SatAdd(ts.ts, t.us))
  }

  function ToNs(t: Time): Timestamp {
    var ts := ToUnit(ToUs(t), Nanoseconds);
    ts.(ts := SatAdd(ts.ts, t.ns))
  }

  /** The coarsest unit that loses nothing. */
  function ToTs(t: Time): Timestamp {
    if t.ns > 0 then ToNs(t)
    else if t.us > 0 then ToUs(t)
    else if t.ms > 0 then ToMs(t)
    else ToSecs(t)
  }

  // --- agreement with nanoseconds ---

  lemma {:induction false} OrderIsNumeric(a: Time, b: Time)
    requires Normal(a) && Normal(b)
    ensures Less(a, b) <==> Ns(a) < Ns(b)
    ensures a == b <==> Ns(a) == Ns(b)
  {
  }

  lemma {:induction false} AddCarries(a: Time, b: Time, carry: nat)
    requires Normal(a) && Normal(b)
    requires carry == (a.ms + b.ms + (a.us + b.us + (a.ns + b.ns) / 1000) / 1000) / 1000
    ensures Normal(Add(a, b)) && Add(a, b).secs == Min(a.secs + b.secs + carry, MAX_U64)
    ensures SubSecond(Add(a, b)) == SubSecond(a) + SubSecond(b) - carry * NS_PER_SEC
    ensures 0 <= SubSecond(Add(a, b)) < NS_PER_SEC
  {
  }

  /** Addition is exact precisely when the sum is representable; otherwise the seconds stick at their maximum. */
  lemma {:induction false} AddIsExact(a: Time, b: Time)
    requires Normal(a) && Normal(b)
    ensures Normal(Add(a, b))
    ensures Ns(Add(a, b)) == Ns(a) + Ns(b) <==> Ns(a) + Ns(b) < (MAX_U64 + 1) * NS_PER_SEC
    ensures Ns(a) + Ns(b) >= (MAX_U64 + 1) * NS_PER_SEC ==>
      Add(a, b).secs == MAX_U64 && SubSecond(Add(a, b)) == (SubSecond(a) + SubSecond(b)) % NS_PER_SEC
  {
    var carry := (a.ms + b.ms + (a.us + b.us + (a.ns + b.ns) / 1000) / 1000) / 1000;
    AddCarries(a, b, carry);
    SumOf(a.secs + b.secs + carry, Add(a, b), Ns(a) + Ns(b));
    ModUnique(SubSecond(a) + SubSecond(b), carry, SubSecond(Add(a, b)));
  }

  lemma {:induction false} SumOf(secs: nat, r: Time, total: nat)
    requires r.secs == Min(secs, MAX_U64) && total == secs * NS_PER_SEC + SubSecond(r) && SubSecond(r) < NS_PER_SEC
    ensures Ns(r) == total <==> total < (MAX_U64 + 1) * NS_PER_SEC
    ensures total >= (MAX_U64 + 1) * NS_PER_SEC ==> r.secs == MAX_U64
  {
  }

  lemma {:induction false} SubBorrows(a: Time, b: Time) returns (borrow: nat, sub: nat)
    requires Normal(a) && Normal(b)
    ensures borrow <= 1 && sub < NS_PER_SEC && sub == SubSecond(a) - SubSecond(b) + borrow * NS_PER_SEC
    ensures Sub(a, b).None? <==> b.secs + borrow > MAX_U64
    ensures Sub(a, b).Some? ==>
      && Normal(Sub(a, b).value) && SubSecond(Sub(a, b).value) == sub
      && Sub(a, b).value.secs == SatSub(a.secs, b.secs + borrow)
  {
    var (ns, usBorrow) := SubDigit(a.ns, b.ns);
    var (us, msBorrow) := SubDigit(a.us, b.us + usBorrow);
    var (ms, borrow') := SubDigit(a.ms, b.ms + msBorrow);
    borrow, sub := borrow', (ms * 1000 + us) * 1000 + ns;
  }

  /** Subtraction is exact whenever the difference is not negative; otherwise the seconds are lost but not the rest, so
      the result is the difference within its second. It overflows only when the larger time is in its last second. */
  lemma {:induction false} SubIsExact(a: Time, b: Time)
    requires Normal(a) && Normal(b)
    ensures Sub(a, b).None? <==> b.secs == MAX_U64 && SubSecond(a) < SubSecond(b)
    ensures Ns(a) >= Ns(b) ==> Sub(a, b).Some?
    ensures Sub(a, b).Some? ==>
      && Normal(Sub(a, b).value)
      && Ns(Sub(a, b).value) == if Ns(a) >= Ns(b) then Ns(a) - Ns(b) else (Ns(a) - Ns(b)) % NS_PER_SEC
  {
    var borrow, sub := SubBorrows(a, b);
    DifferenceOf(a.secs, b.secs + borrow, sub, Ns(a), Ns(b));
  }

  lemma {:induction false} DifferenceOf(x: nat, y: nat, sub: nat, a: nat, b: nat)
    requires sub < NS_PER_SEC && a - b == (x - y) * NS_PER_SEC + sub
    ensures a >= b <==> x >= y
    ensures SatSub(x, y) * NS_PER_SEC + sub == if a >= b then a - b else (a - b) % NS_PER_SEC
  {
    ModUnique(a - b, x - y, sub);
  }

  lemma {:induction false} ModUnique(x: int, q: int, r: int)
    requires x == q * NS_PER_SEC + r && 0 <= r < NS_PER_SEC
    ensures x % NS_PER_SEC == r
  {
  }

  /** What was added can be taken away again. */
  lemma {:induction false} SubUndoesAdd(a: Time, b: Time)
    requires Normal(a) && Normal(b) && Ns(a) + Ns(b) < (MAX_U64 + 1) * NS_PER_SEC
    ensures Sub(Add(a, b), b) == Some(a)
  {
    AddIsExact(a, b);
    SubIsExact(Add(a, b), b);
    OrderIsNumeric(Sub(Add(a, b), b).value, a);
  }

  /** Each timestamp is the time in its unit, capped at 64 bits. */
  lemma {:induction false} TimestampsAreExact(t: Time)
    requires Normal(t)
    ensures ToMs(t) == Timestamp(Min(Ns(t) / 1_000_000, MAX_U64), Milliseconds)
    ensures ToUs(t) == Timestamp(Min(Ns(t) / 1000, MAX_U64), Microseconds)
    ensures ToNs(t) == Timestamp(Min(Ns(t), MAX_U64), Nanoseconds)
  {
    assert Thousands(1) == 1000;
    assert Ns(t) / 1_000_000 == t.secs * 1000 + t.ms;
    assert Ns(t) / 1000 == (t.secs * 1000 + t.ms) * 1000 + t.us;
  }

  function NsPer(u: Unit): nat {
    match u
    case Seconds => 1_000_000_000
    case Milliseconds => 1_000_000
    case Microseconds => 1000
    case Nanoseconds => 1
  }

  lemma {:induction false} Remainders(t: Time)
    requires Normal(t)
    ensures Ns(t) % 1000 == t.ns
    ensures Ns(t) % 1_000_000 == t.us * 1000 + t.ns
    ensures Ns(t) % NS_PER_SEC == SubSecond(t)
  {
    ModUnique(Ns(t), t.secs, SubSecond(t));
    var ms, us := t.secs * 1000 + t.ms, (t.secs * 1000 + t.ms) * 1000 + t.us;
    assert Ns(t) == us * 1000 + t.ns;
    assert Ns(t) == ms * 1_000_000 + (t.us * 1000 + t.ns);
    SmallMods(us, t.ns, ms, t.us * 1000 + t.ns);
  }

  lemma {:induction false} SmallMods(us: nat, ns: nat, ms: nat, rest: nat)
    requires ns < 1000 && rest < 1_000_000
    ensures (us * 1000 + ns) % 1000 == ns && (ms * 1_000_000 + rest) % 1_000_000 == rest
  {
  }

  /** Below saturation a timestamp stands for exactly the time, and a coarser unit would not. */
  lemma {:induction false} ToTsIsExact(t: Time)
    requires Normal(t)
    ensures ToTs(t).ts <= MAX_U64 && ToTs(t).ts * NsPer(ToTs(t).unit) <= Ns(t)
    ensures Ns(t) <= MAX_U64 ==> ToTs(t).ts * NsPer(ToTs(t).unit) == Ns(t)
    ensures Ns(t) > 0 ==> ToTs(t).ts > 0
    ensures forall u: Unit | Rank(u) < Rank(ToTs(t).unit) :: Ns(t) % NsPer(u) != 0
  {
    TimestampsAreExact(t);
    Remainders(t);
    ToTsCases(t);
  }

  lemma {:induction false} ToTsCases(t: Time)
    requires Normal(t)
    ensures ToTs(t).ts <= MAX_U64 && ToTs(t).ts * NsPer(ToTs(t).unit) <= Ns(t)
    ensures Ns(t) <= MAX_U64 ==> ToTs(t).ts * NsPer(ToTs(t).unit) == Ns(t)
  {
    TimestampsAreExact(t);
    Remainders(t);
    Divisible(Ns(t));
  }

  lemma {:induction false} Divisible(n: nat)
    ensures n % 1000 == 0 ==> n / 1000 * 1000 == n
    ensures n % 1_000_000 == 0 ==> n / 1_000_000 * 1_000_000 == n
  {
  }

  lemma {:induction false} NanosecondRoundTrip(n: nat)
    requires n <= MAX_U64
    ensures Normal(FromNs(n)) && Ns(FromNs(n)) == n && ToNs(FromNs(n)).ts == n
  {
    TimestampsAreExact(FromNs(n));
  }

  lemma {:induction false} TimeRoundTrip(t: Time)
    requires Normal(t) && Ns(t) <= MAX_U64
    ensures FromNs(ToNs(t).ts) == t
  {
    TimestampsAreExact(t);
    NanosecondRoundTrip(Ns(t));
    OrderIsNumeric(FromNs(Ns(t)), t);
  }
}
