/** I2C bus timing from a clock period (sw/device/lib/dif/dif_i2c.c). */
module I2cTiming {
  import opened Words

  datatype Speed = Standard | Fast | FastPlus | OtherSpeed

  datatype TimingConfig = TimingConfig(
    lowestTargetDeviceSpeed: Speed,
    clockPeriodNanos: u32,
    sdaRiseNanos: u32,
    sdaFallNanos: u32,
    sclPeriodNanos: u32)

  datatype Config = Config(
    sclTimeHighCycles: u16,
    sclTimeLowCycles: u16,
    riseCycles: u16,
    fallCycles: u16,
    startSignalSetupCycles: u16,
    startSignalHoldCycles: u16,
    dataSignalSetupCycles: u16,
    dataSignalHoldCycles: u16,
    stopSignalSetupCycles: u16,
    stopSignalHoldCycles: u16)

  datatype TimingResult = Ok(config: Config) | BadArg | OutOfRange

  /** Minimum times in nanoseconds, Table 10 of section 6.1 of NXP UM10204. */
  datatype Minima = Minima(high: u32, low: u32, startSetup: u32, startHold: u32, dataSetup: u32, stopSetup: u32,
      busFree: u32)

  function Table10(speed: Speed): (m: Minima)
    requires speed != OtherSpeed
  {
    match speed
    case Standard => Minima(4000, 4700, 4700, 4000, 250, 4000, 4700)
    case Fast => Minima(600, 1300, 600, 600, 100, 600, 1300)
    case FastPlus => Minima(260, 500, 260, 260, 50, 260, 500)
  }

  function SpeedKhz(speed: Speed): (khz: nat)
    requires speed != OtherSpeed
    ensures khz > 0
  {
    match speed
    case Standard => 100
    case Fast => 400
    case FastPlus => 1000
  }

  /** `((a - 1) / b) + 1` before the result is cut to 16 bits; `a - 1` wraps at 32 bits. */
  function Quotient(a: u32, b: u32): (n: nat)
    requires b > 0
  {
    (a + TWO_32 - 1) % TWO_32 / b + 1
  }

  /** `round_up_divide` */
  function RoundUpDivide(a: u32, b: u32): (r: u16)
    requires b > 0
  {
    Quotient(a, b) % 0x1_0000
  }

  /** n is the least number of periods of length b that last at least a. */
  predicate IsCeiling(a: nat, b: nat, n: nat) {
    n * b >= a && (n > 0 ==> (n - 1) * b < a)
  }

  /** A positive time whose rounded-up count of periods fits in 16 bits. */
  predicate Fits(a: u32, b: u32)
    requires b > 0
  {
    a > 0 && Quotient(a, b) < 0x1_0000
  }

  lemma {:induction false} QuotientIsCeiling(a: u32, b: u32)
    requires b > 0
    ensures IsCeiling(if a > 0 then a else TWO_32, b, Quotient(a, b))
  {
    var x: int := if a > 0 then a - 1 else TWO_32 - 1;
    assert (a + TWO_32 - 1) % TWO_32 == x;
    DivideBounds(x, b);
  }

  lemma {:induction false} DivideBounds(x: nat, b: nat)
    requires b > 0
    ensures x / b * b <= x < (x / b + 1) * b
  {
    assert x == x / b * b + x % b;
  }

  lemma {:induction false} MulMono(x: nat, y: nat, b: nat)
    requires x <= y
    ensures x * b <= y * b
  {
  }

  /** For a positive time the count returned is long enough exactly when it fits in 16 bits. */
  lemma {:induction false} RoundUpDivideExact(a: u32, b: u32)
    requires a > 0 && b > 0
    ensures Fits(a, b) <==> RoundUpDivide(a, b) * b >= a
    ensures Fits(a, b) ==> IsCeiling(a, b, RoundUpDivide(a, b))
  {
    QuotientIsCeiling(a, b);
    var n := Quotient(a, b);
    hide Quotient;
    if n >= 0x1_0000 {
      MulMono(RoundUpDivide(a, b), n - 1, b);
    }
  }

  /** A zero time wraps: it is rounded as if it were 2^32 nanoseconds. */
  lemma {:induction false} RoundUpDivideZero(b: u32, n: nat)
    requires b > 0 && IsCeiling(TWO_32, b, n)
    ensures RoundUpDivide(0, b) == n % 0x1_0000
  {
    QuotientIsCeiling(0, b);
    var q := Quotient(0, b);
    hide Quotient;
    if n < q {
      MulMono(n, q - 1, b);
    } else if q < n {
      MulMono(q, n - 1, b);
    }
  }

  /** `default_timing_for_speed` */
  function DefaultTimingForSpeed(speed: Speed, clock: u32): (c: Config)
    requires clock > 0 && speed != OtherSpeed
  {
    match speed
    case Standard => Config(
      RoundUpDivide(4000, clock), RoundUpDivide(4700, clock), 0, 0,
      RoundUpDivide(4700, clock), RoundUpDivide(4000, clock), RoundUpDivide(250, clock), 1,
      RoundUpDivide(4000, clock), RoundUpDivide(4700, clock))
    case Fast => Config(
      RoundUpDivide(600, clock), RoundUpDivide(1300, clock), 0, 0,
      RoundUpDivide(600, clock), RoundUpDivide(600, clock), RoundUpDivide(100, clock), 1,
      RoundUpDivide(600, clock), RoundUpDivide(1300, clock))
    case FastPlus => Config(
      RoundUpDivide(260, clock), RoundUpDivide(500, clock), 0, 0,
      RoundUpDivide(260, clock), RoundUpDivide(260, clock), RoundUpDivide(50, clock), 1,
      RoundUpDivide(260, clock), RoundUpDivide(500, clock))
  }

  predicate FitsTable(speed: Speed, b: u32)
    requires b > 0 && speed != OtherSpeed
  {
    var m := Table10(speed);
    && Fits(m.high, b) && Fits(m.low, b) && Fits(m.startSetup, b) && Fits(m.startHold, b)
    && Fits(m.dataSetup, b) && Fits(m.stopSetup, b) && Fits(m.busFree, b)
  }

  /** No count the calculation makes is cut off at 16 bits; a rise or fall time of zero needs no count. */
  predicate NothingTruncated(t: TimingConfig)
    requires t.clockPeriodNanos > 0 && t.lowestTargetDeviceSpeed != OtherSpeed
  {
    var b := t.clockPeriodNanos;
    && FitsTable(t.lowestTargetDeviceSpeed, b)
    && (t.sdaRiseNanos == 0 || Fits(t.sdaRiseNanos, b)) && (t.sdaFallNanos == 0 || Fits(t.sdaFallNanos, b))
    && Fits(SclPeriod(t), b)
  }

  /** The period aimed at: the one requested, but no shorter than one at the target's speed. */
  function SclPeriod(t: TimingConfig): (n: u32)
    requires t.lowestTargetDeviceSpeed != OtherSpeed
    ensures n >= t.sclPeriodNanos
    ensures t.lowestTargetDeviceSpeed == Standard ==> n >= 10_000 && (n == 10_000 || n == t.sclPeriodNanos)
    ensures t.lowestTargetDeviceSpeed == Fast ==> n >= 2_500 && (n == 2_500 || n == t.sclPeriodNanos)
    ensures t.lowestTargetDeviceSpeed == FastPlus ==> n >= 1_000 && (n == 1_000 || n == t.sclPeriodNanos)
  {
    var slowest := 1_000_000 / SpeedKhz(t.lowestTargetDeviceSpeed);
    if t.sclPeriodNanos < slowest then slowest else t.sclPeriodNanos
  }

  /** Every interval of a configuration lasts at least its minimum. */
  predicate MeetsMinima(c: Config, t: TimingConfig)
    requires t.lowestTargetDeviceSpeed != OtherSpeed
  {
    && MeetsTable(c, t.lowestTargetDeviceSpeed, t.clockPeriodNanos)
    && c.riseCycles * t.clockPeriodNanos >= t.sdaRiseNanos
    && c.fallCycles * t.clockPeriodNanos >= t.sdaFallNanos
  }

  predicate MeetsTable(c: Config, speed: Speed, b: u32)
    requires speed != OtherSpeed
  {
    var m := Table10(speed);
    && c.sclTimeHighCycles * b >= m.high
    && c.sclTimeLowCycles * b >= m.low
    && c.startSignalSetupCycles * b >= m.startSetup
    && c.startSignalHoldCycles * b >= m.startHold
    && c.dataSignalSetupCycles * b >= m.dataSetup
    && c.stopSignalSetupCycles * b >= m.stopSetup
    && c.stopSignalHoldCycles * b >= m.busFree
  }

  /** The minima hold and a whole SCL cycle lasts at least the period aimed at. */
  predicate Meets(c: Config, t: TimingConfig)
    requires t.lowestTargetDeviceSpeed != OtherSpeed
  {
    MeetsMinima(c, t) && Cycles(c) * t.clockPeriodNanos >= SclPeriod(t)
  }

  function Cycles(c: Config): (n: nat) {
    var high: int, low: int, rise: int, fall: int :=
      c.sclTimeHighCycles, c.sclTimeLowCycles, c.riseCycles, c.fallCycles;
    high + low + rise + fall
  }

  /** A time rounded up to whole periods and cut to 16 bits; a time of zero counts as 2^32. */
  ghost predicate Rounded(a: u32, b: u32, count: nat)
    requires b > 0
  {
    exists n: nat :: IsCeiling(if a > 0 then a else TWO_32, b, n) && count == n % 0x1_0000
  }

  /** Everything but the SCL high and low times is its own time, rounded. */
  ghost predicate TimesRounded(c: Config, t: TimingConfig)
    requires t.clockPeriodNanos > 0 && t.lowestTargetDeviceSpeed != OtherSpeed
  {
    var m, b := Table10(t.lowestTargetDeviceSpeed), t.clockPeriodNanos;
    && Rounded(t.sdaRiseNanos, b, c.riseCycles) && Rounded(t.sdaFallNanos, b, c.fallCycles)
    && Rounded(m.startSetup, b, c.startSignalSetupCycles) && Rounded(m.startHold, b, c.startSignalHoldCycles)
    && Rounded(m.dataSetup, b, c.dataSignalSetupCycles) && c.dataSignalHoldCycles == 1
    && Rounded(m.stopSetup, b, c.stopSignalSetupCycles) && Rounded(m.busFree, b, c.stopSignalHoldCycles)
  }

  /** The low time is rounded too, but at least four cycles. The high time is the least of at least four cycles that
      is no shorter than its own time, rounded, and lets low, rise and fall fill a period of the length aimed at. */
  ghost predicate SclExact(c: Config, t: TimingConfig, high: nat, low: nat, period: nat)
    requires t.clockPeriodNanos > 0 && t.lowestTargetDeviceSpeed != OtherSpeed
  {
    var m, b, rest: int := Table10(t.lowestTargetDeviceSpeed), t.clockPeriodNanos, low + c.riseCycles + c.fallCycles;
    && Rounded(m.high, b, high) && Rounded(m.low, b, low) && Rounded(SclPeriod(t), b, period)
    && c.sclTimeLowCycles >= 4 && c.sclTimeLowCycles >= low && c.sclTimeLowCycles in {4, low}
    && c.sclTimeHighCycles >= 4 && c.sclTimeHighCycles >= high && c.sclTimeHighCycles + rest >= period
    && (c.sclTimeHighCycles in {4, high} || c.sclTimeHighCycles + rest == period)
  }

  ghost predicate SclTimes(c: Config, t: TimingConfig)
    requires t.clockPeriodNanos > 0 && t.lowestTargetDeviceSpeed != OtherSpeed
  {
    exists high: nat, low: nat, period: nat :: SclExact(c, t, high, low, period)
  }

  lemma {:induction false} RoundUpIsRounded(a: u32, b: u32)
    requires b > 0
    ensures Rounded(a, b, RoundUpDivide(a, b))
  {
    QuotientIsCeiling(a, b);
    hide Quotient, IsCeiling;
  }

  lemma {:induction false} CeilingIsUnique(a: nat, b: nat, m: nat, n: nat)
    requires IsCeiling(a, b, m) && IsCeiling(a, b, n)
    ensures m == n
  {
    if m < n {
      MulMono(m, n - 1, b);
    } else if n < m {
      MulMono(n, m - 1, b);
    }
  }

  lemma {:induction false} RoundedFits(a: u32, b: u32, n: nat)
    requires b > 0 && Fits(a, b) && Rounded(a, b, n)
    ensures IsCeiling(a, b, n)
  {
    var q: nat :| IsCeiling(a, b, q) && n == q % 0x1_0000;
    QuotientIsCeiling(a, b);
    CeilingIsUnique(a, b, q, Quotient(a, b));
    hide Quotient, IsCeiling;
  }

  /** Unless four cycles or the minimum of the high time are longer, an SCL cycle lasts exactly the period aimed at,
      rounded up. */
  lemma {:induction false} PeriodExact(t: TimingConfig, c: Config, high: nat, low: nat, period: nat)
    requires t.clockPeriodNanos > 0 && t.lowestTargetDeviceSpeed != OtherSpeed && NothingTruncated(t)
    requires SclExact(c, t, high, low, period) && c.sclTimeLowCycles > 4 && c.sclTimeHighCycles > 4
    requires (c.sclTimeHighCycles - 1) * t.clockPeriodNanos >= Table10(t.lowestTargetDeviceSpeed).high
    ensures IsCeiling(SclPeriod(t), t.clockPeriodNanos, Cycles(c))
  {
    hide Fits, Rounded, SclPeriod, SpeedKhz, Table10;
    RoundedFits(SclPeriod(t), t.clockPeriodNanos, period);
    RoundedFits(Table10(t.lowestTargetDeviceSpeed).high, t.clockPeriodNanos, high);
  }

  /** `dif_i2c_compute_timing`. */
  method ComputeTiming(t: TimingConfig) returns (r: TimingResult)
    requires t.clockPeriodNanos > 0
    ensures r != OutOfRange
    ensures r == BadArg <==> t.lowestTargetDeviceSpeed == OtherSpeed
    ensures r.Ok? ==> TimesRounded(r.config, t) && SclTimes(r.config, t)
    ensures r.Ok? ==> r.config.sclTimeHighCycles >= 4 && r.config.sclTimeLowCycles >= 4
    ensures r.Ok? && NothingTruncated(t) ==> Meets(r.config, t)
  {
    if t.lowestTargetDeviceSpeed == OtherSpeed {
      return BadArg;
    }
    hide TimesRounded, SclTimes, DefaultTimingForSpeed, RoundUpDivide, NothingTruncated, Meets, SclPeriod;
    var b := t.clockPeriodNanos;
    var config := DefaultTimingForSpeed(t.lowestTargetDeviceSpeed, b);
    config := config.(riseCycles := RoundUpDivide(t.sdaRiseNanos, b));
    config := config.(fallCycles := RoundUpDivide(t.sdaFallNanos, b));
    var sclPeriodCycles: int := RoundUpDivide(SclPeriod(t), b);
    ghost var rounded := config;
    var high: int, low: int, rise: int, fall: int :=
      config.sclTimeHighCycles, config.sclTimeLowCycles, config.riseCycles, config.fallCycles;
    var lengthened: int := sclPeriodCycles - low - rise - fall;
    var outOfRange := false;
    if lengthened > high {
      outOfRange := lengthened < 0 || lengthened > 0xffff;
      config := config.(sclTimeHighCycles := lengthened);
    }
    if config.sclTimeHighCycles < 4 {
      config := config.(sclTimeHighCycles := 4);
    }
    if config.sclTimeLowCycles < 4 {
      config := config.(sclTimeLowCycles := 4);
    }
    Lengthened(t, rounded, config, sclPeriodCycles);
    r := if outOfRange then OutOfRange else Ok(config);
  }

  lemma {:induction false} Lengthened(t: TimingConfig, rounded: Config, c: Config, period: nat)
    requires t.clockPeriodNanos > 0 && t.lowestTargetDeviceSpeed != OtherSpeed
    requires rounded == DefaultTimingForSpeed(t.lowestTargetDeviceSpeed, t.clockPeriodNanos).(
      riseCycles := RoundUpDivide(t.sdaRiseNanos, t.clockPeriodNanos),
      fallCycles := RoundUpDivide(t.sdaFallNanos, t.clockPeriodNanos))
    requires period == RoundUpDivide(SclPeriod(t), t.clockPeriodNanos)
    requires c == rounded.(sclTimeHighCycles := c.sclTimeHighCycles, sclTimeLowCycles := c.sclTimeLowCycles)
    requires c.sclTimeLowCycles == if rounded.sclTimeLowCycles < 4 then 4 else rounded.sclTimeLowCycles
    requires var high: int, low: int, rise: int, fall: int :=
        rounded.sclTimeHighCycles, rounded.sclTimeLowCycles, rounded.riseCycles, rounded.fallCycles;
      var longer := if period - low - rise - fall > high then period - low - rise - fall else high;
      c.sclTimeHighCycles == if longer < 4 then 4 else longer
    ensures TimesRounded(c, t) && SclTimes(c, t) && (NothingTruncated(t) ==> Meets(c, t))
  {
    EachRounded(t, rounded);
    RoundUpIsRounded(SclPeriod(t), t.clockPeriodNanos);
    hide Rounded, RoundUpDivide, SclPeriod, Table10, DefaultTimingForSpeed, NothingTruncated, Meets, MeetsMinima;
    assert SclExact(c, t, rounded.sclTimeHighCycles, rounded.sclTimeLowCycles, period);
    if NothingTruncated(t) {
      RoundedMeets(t, rounded, period);
      LongerMeets(t, rounded, c, period);
    }
  }

  lemma {:induction false} EachRounded(t: TimingConfig, c: Config)
    requires t.clockPeriodNanos > 0 && t.lowestTargetDeviceSpeed != OtherSpeed
    requires c == DefaultTimingForSpeed(t.lowestTargetDeviceSpeed, t.clockPeriodNanos).(
      riseCycles := RoundUpDivide(t.sdaRiseNanos, t.clockPeriodNanos),
      fallCycles := RoundUpDivide(t.sdaFallNanos, t.clockPeriodNanos))
    ensures TimesRounded(c, t)
    ensures var m := Table10(t.lowestTargetDeviceSpeed);
      && Rounded(m.high, t.clockPeriodNanos, c.sclTimeHighCycles)
      && Rounded(m.low, t.clockPeriodNanos, c.sclTimeLowCycles)
  {
    hide Rounded, RoundUpDivide;
    var m, b := Table10(t.lowestTargetDeviceSpeed), t.clockPeriodNanos;
    RoundUpIsRounded(t.sdaRiseNanos, b);
    RoundUpIsRounded(t.sdaFallNanos, b);
    RoundUpIsRounded(m.high, b);
    RoundUpIsRounded(m.low, b);
    RoundUpIsRounded(m.startSetup, b);
    RoundUpIsRounded(m.startHold, b);
    RoundUpIsRounded(m.dataSetup, b);
    RoundUpIsRounded(m.stopSetup, b);
    RoundUpIsRounded(m.busFree, b);
  }

  /** Every interval in a has at least as many cycles as in c. */
  predicate AtLeast(a: Config, c: Config) {
    && a.sclTimeHighCycles >= c.sclTimeHighCycles && a.sclTimeLowCycles >= c.sclTimeLowCycles
    && a.(sclTimeHighCycles := c.sclTimeHighCycles, sclTimeLowCycles := c.sclTimeLowCycles) == c
  }

  lemma {:induction false} RoundedMeets(t: TimingConfig, c: Config, sclPeriodCycles: nat)
    requires t.clockPeriodNanos > 0 && t.lowestTargetDeviceSpeed != OtherSpeed && NothingTruncated(t)
    requires c == DefaultTimingForSpeed(t.lowestTargetDeviceSpeed, t.clockPeriodNanos).(
      riseCycles := RoundUpDivide(t.sdaRiseNanos, t.clockPeriodNanos),
      fallCycles := RoundUpDivide(t.sdaFallNanos, t.clockPeriodNanos))
    requires sclPeriodCycles == RoundUpDivide(SclPeriod(t), t.clockPeriodNanos)
    ensures MeetsMinima(c, t) && sclPeriodCycles * t.clockPeriodNanos >= SclPeriod(t)
  {
    hide Fits, FitsTable, RoundUpDivide, SpeedKhz, Table10;
    var b := t.clockPeriodNanos;
    DefaultMeets(t.lowestTargetDeviceSpeed, b);
    if t.sdaRiseNanos != 0 {
      LongEnough(t.sdaRiseNanos, b);
    }
    if t.sdaFallNanos != 0 {
      LongEnough(t.sdaFallNanos, b);
    }
    LongEnough(SclPeriod(t), b);
    hide DefaultTimingForSpeed, SclPeriod;
  }

  lemma {:induction false} DefaultMeets(speed: Speed, b: u32)
    requires b > 0 && speed != OtherSpeed && FitsTable(speed, b)
    ensures MeetsTable(DefaultTimingForSpeed(speed, b), speed, b)
  {
    hide Fits, RoundUpDivide;
    var m := Table10(speed);
    LongEnough(m.high, b);
    LongEnough(m.low, b);
    LongEnough(m.startSetup, b);
    LongEnough(m.startHold, b);
    LongEnough(m.dataSetup, b);
    LongEnough(m.stopSetup, b);
    LongEnough(m.busFree, b);
  }

  lemma {:induction false} LongEnough(a: u32, b: u32)
    requires b > 0 && Fits(a, b)
    ensures RoundUpDivide(a, b) * b >= a
  {
    RoundUpDivideExact(a, b);
  }

  lemma {:induction false} LongerMeets(t: TimingConfig, c: Config, longer: Config, sclPeriodCycles: nat)
    requires t.lowestTargetDeviceSpeed != OtherSpeed
    requires MeetsMinima(c, t) && AtLeast(longer, c) && Cycles(longer) >= sclPeriodCycles
    requires sclPeriodCycles * t.clockPeriodNanos >= SclPeriod(t)
    ensures Meets(longer, t)
  {
    var b := t.clockPeriodNanos;
    MulMono(c.sclTimeHighCycles, longer.sclTimeHighCycles, b);
    MulMono(c.sclTimeLowCycles, longer.sclTimeLowCycles, b);
    MulMono(sclPeriodCycles, Cycles(longer), b);
  }
}
