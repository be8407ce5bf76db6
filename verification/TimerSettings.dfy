/** Settings of the timer that triggers camera and IR LEDs: the two setters that validate a frame rate
    and an LED on-time, and the timer values derived from them. Doubles are exact numbers here. */
module TimerSettings {
  import opened Errors

  const U16_SIZE: nat := 0x1_0000 // also the range of the 16-bit timer counter
  const U32_SIZE: nat := 0x1_0000_0000
  const MAX_FPS: nat := 60
  const MARGIN_US: nat := 50

  type u16 = x: int | 0 <= x < 0x1_0000
  type u32 = x: int | 0 <= x < 0x1_0000_0000

  datatype Board = Pearl | Diamond

  function MaxOnTime(b: Board): u16 { if b.Diamond? then 7500 else 5000 }

  function DutyCycle(b: Board): real { if b.Diamond? then 0.25 else 0.15 }

  /** The last two timer values exist on Diamond only. */
  datatype Settings = Settings(fps: u16, psc: u16, arr: u16, onTime: u16, initialCounter: u16, maxTicks: u32)

  // ---- the arithmetic of the setters, wrapping as the MCU's integers do

  function Prescaler(clock: nat, fps: nat): u16
    requires 0 < fps
  {
    (clock / (U16_SIZE * fps)) % U16_SIZE
  }

  /** Clock cycles of one tick of the prescaled timer, times the frame rate. */
  function Cycles(psc: nat, fps: nat): (n: nat)
    ensures 0 < fps ==> 0 < n
  {
    (psc + 1) * fps
  }

  function Reload(clock: nat, psc: nat, fps: nat): u16
    requires 0 < fps
  {
    (clock / Cycles(psc, fps)) % U16_SIZE
  }

  /** Unsigned 32-bit arithmetic. */
  function Wrap(n: int): (r: u32)
    ensures 0 <= n < U32_SIZE ==> r == n
  {
    n % U32_SIZE
  }

  function DelayUs(fps: nat, onTime: nat): u32
    requires 0 < fps
  {
    Wrap(1000000 / fps - onTime - MARGIN_US)
  }

  /** Ticks per second, rounded down. */
  function TickRate(clock: nat, psc: nat): nat { clock / (psc + 1) }

  /** A duration in ticks. */
  function Ticks(clock: nat, psc: nat, us: nat): u32 {
    Wrap(TickRate(clock, psc) * (us / 100)) / 10000
  }

  /** `compute_master_timer_durations`. */
  function WithDurations(clock: nat, s: Settings): Settings {
    if s.fps == 0 then s
    else
      var delay := Ticks(clock, s.psc, DelayUs(s.fps, s.onTime));
      s.(initialCounter := if delay < s.arr then s.arr - delay else (s.arr - 1) % U16_SIZE,
         maxTicks := Ticks(clock, s.psc, MaxOnTime(Diamond)))
  }

  /** `1e6 / fps * IR_CAMERA_SYSTEM_MAX_IR_LED_DUTY_CYCLE`. */
  function DutyLimit(b: Board, fps: nat): real
    requires 0 < fps
  {
    1000000.0 / fps as real * DutyCycle(b)
  }

  function Completed(b: Board, clock: nat, s: Settings): Settings {
    if b.Diamond? then WithDurations(clock, s) else s
  }

  /** `timer_settings_from_on_time_us`. */
  function FromOnTime(b: Board, clock: nat, s: Settings, onTime: u16): (Settings, Ret) {
    if onTime > MaxOnTime(b) then (s, InvalidParam)
    else if s.fps != 0 && DutyLimit(b, s.fps) < onTime as real then (s, InvalidParam)
    else (Completed(b, clock, s.(onTime := onTime)), Success)
  }

  /** The longest on-time for a frame rate, converted to `uint16_t`. */
  function LongestOnTime(b: Board, fps: nat): int
    requires 0 < fps
  {
    var limit, most := DutyLimit(b, fps), MaxOnTime(b) as real;
    (if limit < most then limit else most).Floor
  }

  /** `timer_settings_from_fps`. */
  function FromFps(b: Board, clock: nat, s: Settings, fps: u16): (Settings, Ret) {
    if fps == 0 then (s.(fps := 0, psc := 0, arr := 0), Success)
    else if fps > MAX_FPS then (s, InvalidParam)
    else if s.onTime != 0 && LongestOnTime(b, fps) < s.onTime then (s, InvalidParam)
    else
      var psc := Prescaler(clock, fps);
      (Completed(b, clock, s.(fps := fps, psc := psc, arr := Reload(clock, psc, fps))), Success)
  }

  // ---- the two validators

  /** Microseconds of LED light per second that the duty cycle allows. */
  function LightPerSecond(b: Board): nat { if b.Diamond? then 250000 else 150000 }

  /** Eye safety: neither a single pulse nor the light per second exceeds its limit. */
  ghost predicate EyeSafe(b: Board, fps: nat, onTime: nat) {
    && onTime <= (if b.Diamond? then 7500 else 5000)
    && onTime * fps <= (if b.Diamond? then 250000 else 150000)
  }

  lemma DutyIsLightPerSecond(b: Board, fps: nat, onTime: nat)
    requires 0 < fps
    ensures DutyLimit(b, fps) < onTime as real <==> onTime * fps > LightPerSecond(b)
    ensures DutyLimit(b, fps) * fps as real == LightPerSecond(b) as real
  {
    var f, l := fps as real, LightPerSecond(b) as real;
    var period := 1000000.0 / f;
    assert period * f == 1000000.0;
    assert DutyLimit(b, fps) * f == (period * f) * DutyCycle(b) == l;
    RealProduct(DutyLimit(b, fps), onTime as real, f);
    assert onTime as real * f == (onTime * fps) as real;
  }

  lemma RealProduct(x: real, y: real, f: real)
    requires 0.0 < f
    ensures x < y <==> x * f < y * f
  {
  }

  /** The limit the frame rate setter compares with is the longest eye-safe pulse; it fits 16 bits. */
  lemma LongestIsEyeSafe(b: Board, fps: nat, onTime: nat)
    requires 0 < fps
    ensures onTime <= LongestOnTime(b, fps) <==> EyeSafe(b, fps, onTime)
    ensures LongestOnTime(b, fps) < U16_SIZE
  {
    hide DutyLimit;
    DutyIsLightPerSecond(b, fps, onTime);
    FloorAtLeast(onTime, if DutyLimit(b, fps) < MaxOnTime(b) as real then DutyLimit(b, fps) else MaxOnTime(b) as real);
  }

  lemma FloorAtLeast(n: nat, x: real)
    ensures n <= x.Floor <==> n as real <= x
  {
  }

  /** Both setters accept exactly what is eye-safe, although one compares a truncated limit and the
      other a fraction. */
  lemma AcceptedIffEyeSafe(b: Board, clock: nat, s: Settings, fps: u16, onTime: u16)
    requires EyeSafe(b, s.fps, s.onTime)
    ensures FromOnTime(b, clock, s, onTime).1 == Success <==> EyeSafe(b, s.fps, onTime)
    ensures FromFps(b, clock, s, fps).1 == Success <==> fps <= 60 && EyeSafe(b, fps, s.onTime)
    ensures FromOnTime(b, clock, s, onTime).1 in {Success, InvalidParam}
    ensures FromFps(b, clock, s, fps).1 in {Success, InvalidParam}
  {
    hide DutyLimit, Completed, Prescaler, Reload;
    if s.fps != 0 {
      DutyIsLightPerSecond(b, s.fps, onTime);
    }
    if fps != 0 {
      DutyIsLightPerSecond(b, fps, s.onTime);
    }
  }

  // ---- prescaler

  lemma Quotient(n: nat, d: nat)
    requires 0 < d
    ensures n / d * d <= n < (n / d + 1) * d
  {
  }

  lemma QuotientAtLeast(n: nat, d: nat, q: nat)
    requires 0 < d && q * d <= n
    ensures q <= n / d
  {
    Quotient(n, d);
    if n / d < q {
      MulLe(n / d + 1, q, d);
    }
  }

  lemma QuotientBelow(n: nat, d: nat, q: nat)
    requires 0 < d && n < q * d
    ensures n / d < q
  {
    Quotient(n, d);
    if q <= n / d {
      MulLe(q, n / d, d);
    }
  }

  lemma MulLe(a: int, b: int, c: nat)
    requires a <= b
    ensures a * c <= b * c
  {
  }

  /** The period register counts whole frames of the prescaled clock, nothing is truncated, and the
      prescaler is no larger than the 16 bits require. */
  ghost predicate Prescaled(clock: nat, fps: nat, psc: nat, arr: nat) {
    && psc < U16_SIZE && arr < U16_SIZE
    && arr * Cycles(psc, fps) <= clock < (arr + 1) * Cycles(psc, fps)
    && (psc >= 1 ==> arr >= 0x8000)
  }

  lemma PrescalerFits(clock: u32, fps: nat)
    requires 0 < fps
    ensures Prescaler(clock, fps) == clock / (U16_SIZE * fps)
  {
    QuotientBelow(clock, U16_SIZE * fps, U16_SIZE);
  }

  /** With `psc` the quotient, the period fits 16 bits and, if prescaled, uses at least half of
      their range. */
  lemma ReloadFits(clock: u32, fps: nat, psc: nat)
    requires 0 < fps && psc == clock / (U16_SIZE * fps)
    ensures clock / Cycles(psc, fps) < U16_SIZE
    ensures psc >= 1 ==> clock / Cycles(psc, fps) >= 0x8000
  {
    Quotient(clock, U16_SIZE * fps);
    Regroup(psc, fps);
    hide Cycles;
    QuotientBelow(clock, Cycles(psc, fps), U16_SIZE);
    if psc >= 1 {
      QuotientAtLeast(clock, Cycles(psc, fps), 0x8000);
    }
  }

  lemma Regroup(psc: nat, fps: nat)
    ensures (psc + 1) * (U16_SIZE * fps) == U16_SIZE * Cycles(psc, fps)
    ensures psc >= 1 ==> psc * (U16_SIZE * fps) >= 0x8000 * Cycles(psc, fps)
  {
    var x, y := psc * fps, Cycles(psc, fps);
    assert y == x + fps;
    assert psc * (U16_SIZE * fps) == U16_SIZE * x;
    if psc >= 1 {
      MulLe(1, psc, fps);
    }
  }

  lemma PrescalerIsCorrect(clock: u32, fps: nat)
    requires 0 < fps
    ensures var psc := Prescaler(clock, fps); Prescaled(clock, fps, psc, Reload(clock, psc, fps))
  {
    var psc := Prescaler(clock, fps);
    PrescalerFits(clock, fps);
    ReloadFits(clock, fps, psc);
    hide Prescaler, Cycles;
    Quotient(clock, Cycles(psc, fps));
  }

  // ---- schedule of a pulse within the period (Diamond)

  /** Microseconds of one tick, exactly. */
  function TickUs(clock: nat, psc: nat): real
    requires 0 < clock
  {
    (psc + 1) as real * 1000000.0 / clock as real
  }

  /** Counting from the initial value, the update event comes within the period, the pulse it starts
      ends at least 50 us before the next strobe does, and not much earlier than that; a pulse of
      maximum length is shorter than the period and loses less than 100 us and two ticks. */
  ghost predicate Scheduled(clock: nat, s: Settings)
    requires 0 < clock && 0 < s.fps
  {
    var delay, tick, period := s.arr - s.initialCounter, TickUs(clock, s.psc), 1000000.0 / s.fps as real;
    && 0 < s.initialCounter <= s.arr
    && delay as real * tick + s.onTime as real + 50.0 <= period
    && period < delay as real * tick + s.onTime as real + 151.0 + 2.0 * tick
    && s.maxTicks < s.arr
    && IsLongestPulse(clock, s.psc, s.maxTicks)
  }

  /** 7500 us in ticks, less than 100 us and two ticks short. */
  ghost predicate IsLongestPulse(clock: nat, psc: nat, ticks: nat)
    requires 0 < clock
  {
    ticks as real * TickUs(clock, psc) <= 7500 as real && 7401 as real < (ticks + 2) as real * TickUs(clock, psc)
  }

  /** The period register is the tick rate divided by the frame rate. */
  lemma RateAndReload(clock: nat, fps: nat, psc: nat, arr: nat)
    requires Prescaled(clock, fps, psc, arr)
    ensures var rate := TickRate(clock, psc);
            && arr * fps <= rate < (arr + 1) * fps
            && rate * (psc + 1) <= clock < (rate + 1) * (psc + 1)
            && (20000 <= clock && 0 < fps ==> 20000 <= rate)
  {
    Quotient(clock, psc + 1);
    Turn(arr, psc + 1, fps);
    Turn(arr + 1, psc + 1, fps);
    QuotientAtLeast(clock, psc + 1, arr * fps);
    QuotientBelow(clock, psc + 1, (arr + 1) * fps);
    if psc >= 1 && 0 < fps {
      MulLe(1, fps, arr);
    }
  }

  lemma Turn(a: nat, b: nat, c: nat)
    ensures a * (b * c) == a * c * b
  {
  }

  /** Up to 10000/fps units of 100 us the product does not overflow, and the quotient is the number
      of whole ticks. */
  lemma TicksAreExact(clock: nat, fps: nat, psc: nat, arr: nat, us: nat)
    requires Prescaled(clock, fps, psc, arr) && us / 100 * fps <= 10000
    ensures var rate, d := TickRate(clock, psc), us / 100;
            Ticks(clock, psc, us) == rate * d / 10000 && rate * d < U32_SIZE
  {
    hide TickRate, Wrap, Prescaled;
    RateLimit(clock, fps, psc, arr, us / 100);
  }

  lemma RateLimit(clock: nat, fps: nat, psc: nat, arr: nat, d: nat)
    requires Prescaled(clock, fps, psc, arr) && d * fps <= 10000
    ensures TickRate(clock, psc) * d < U32_SIZE
  {
    RateAndReload(clock, fps, psc, arr);
    hide TickRate, Cycles;
    NoOverflow(TickRate(clock, psc), fps, arr, d);
  }

  lemma NoOverflow(rate: nat, fps: nat, arr: nat, d: nat)
    requires rate < (arr + 1) * fps && arr < U16_SIZE && d * fps <= 10000
    ensures rate * d < U32_SIZE
  {
    MulLe(arr + 1, U16_SIZE, fps);
    MulLe(rate, U16_SIZE * fps, d);
    assert U16_SIZE * fps * d == U16_SIZE * (d * fps);
  }

  lemma DelayBounds(fps: nat, onTime: nat)
    requires 0 < fps <= MAX_FPS && onTime <= MaxOnTime(Diamond)
    ensures var us := DelayUs(fps, onTime);
            && us == 1000000 / fps - onTime - MARGIN_US && us >= 9116
            && (us + onTime + MARGIN_US) * fps <= 1000000 < (us + onTime + MARGIN_US + 1) * fps
            && us / 100 * fps <= 10000
            && 100 * (us / 100 * fps) + 50 * fps <= 1000000
  {
    Quotient(1000000, fps);
    QuotientAtLeast(1000000, fps, 16666);
    var period := 1000000 / fps;
    MulLe(1, fps, period);
    var us := DelayUs(fps, onTime);
    assert us + onTime + MARGIN_US == period;
    Hundreds(us / 100, us, period, fps);
  }

  lemma Hundreds(d: nat, us: nat, period: nat, fps: nat)
    requires 100 * d <= us && us + MARGIN_US <= period && period * fps <= 1000000
    ensures 100 * (d * fps) + 50 * fps <= 1000000
    ensures d * fps <= 10000
  {
    MulLe(100 * d + MARGIN_US, period, fps);
    assert (100 * d + MARGIN_US) * fps == 100 * (d * fps) + 50 * fps;
  }

  /** The margin of 50 us makes up for the rounding of the period register, so the fallback branch
      of the code is dead. */
  lemma DelayBelowReload(rate: nat, fps: nat, arr: nat, d: nat)
    requires 0 < fps && 20000 <= rate < (arr + 1) * fps
    requires 100 * (d * fps) + 50 * fps <= 1000000
    ensures rate * d / 10000 < arr
  {
    var room := 1000000 - 100 * (d * fps);
    assert rate * room >= 20000 * (50 * fps) by {
      MulLe(20000, rate, room);
      MulLe(50 * fps, room, 20000);
    }
    assert rate * room == 1000000 * rate - 100 * (rate * (d * fps));
    assert rate * (d * fps) == rate * d * fps;
    assert (arr + 1) * fps == arr * fps + fps;
    assert rate * d * fps < 10000 * arr * fps;
    if rate * d >= 10000 * arr {
      MulLe(10000 * arr, rate * d, fps);
    }
    QuotientBelow(rate * d, 10000, arr);
  }

  /** Whole numbers stand for durations: `k` ticks against `us` microseconds. */
  lemma TickScale(clock: nat, psc: nat, k: nat, us: nat)
    requires 0 < clock
    ensures k as real * TickUs(clock, psc) <= us as real <==> k * (psc + 1) * 1000000 <= us * clock
    ensures us as real < k as real * TickUs(clock, psc) <==> us * clock < k * (psc + 1) * 1000000
  {
    var c, tick, p := clock as real, TickUs(clock, psc), (psc + 1) as real * 1000000.0;
    assert tick * c == p;
    assert k as real * tick * c == k as real * p == (k * (psc + 1) * 1000000) as real by {
      assert (k * (psc + 1)) as real == k as real * (psc + 1) as real;
    }
    assert us as real * c == (us * clock) as real;
    RealProduct(us as real, k as real * tick, c);
  }

  /** Rounding loses less than 100 us and two ticks of a duration, and adds nothing. */
  lemma TicksAsTime(clock: nat, psc: nat, us: nat)
    requires 0 < clock && 99 <= us <= 1000000
    ensures var n := TickRate(clock, psc) * (us / 100) / 10000;
            && n as real * TickUs(clock, psc) <= us as real
            && (us - 99) as real < (n + 2) as real * TickUs(clock, psc)
  {
    hide TickUs;
    var rate, d, p := TickRate(clock, psc), us / 100, psc + 1;
    var n := rate * d / 10000;
    Quotient(clock, p);
    Quotient(rate * d, 10000);
    TickScale(clock, psc, n, us);
    TickScale(clock, psc, n + 2, us - 99);
    MulLe(100 * d, us, clock);
    RoundedUp(n, p, rate, d, clock);
    RoundedDown(n, p, rate, d, clock, us);
  }

  lemma RoundedUp(n: nat, p: nat, rate: nat, d: nat, clock: nat)
    requires n * 10000 <= rate * d && rate * p <= clock
    ensures n * p * 1000000 <= 100 * d * clock
  {
    MulLe(n * 10000, rate * d, p);
    MulLe(rate * p, clock, d);
    assert rate * d * p == rate * p * d;
  }

  lemma RoundedDown(n: nat, p: nat, rate: nat, d: nat, clock: nat, us: nat)
    requires rate * d < (n + 1) * 10000 && clock < (rate + 1) * p && d == us / 100 && 99 <= us <= 1000000
    ensures (us - 99) * clock < (n + 2) * p * 1000000
  {
    var u := us - 99;
    assert u <= 100 * d;
    MulLe(u, 100 * d, rate);
    assert (rate + 1) * u < (n + 2) * 1000000;
    assert u * clock <= u * ((rate + 1) * p);
    assert u * ((rate + 1) * p) == (rate + 1) * u * p;
    assert 0 < p;
    assert (rate + 1) * u * p < (n + 2) * 1000000 * p;
  }

  lemma DelayIsExact(clock: nat, fps: nat, psc: nat, arr: nat, onTime: nat)
    requires 20000 <= clock && 0 < fps <= MAX_FPS && onTime <= MaxOnTime(Diamond) && Prescaled(clock, fps, psc, arr)
    ensures var us := DelayUs(fps, onTime);
            var delay := Ticks(clock, psc, us);
            && delay == TickRate(clock, psc) * (us / 100) / 10000
            && delay < arr
            && delay as real * TickUs(clock, psc) <= us as real
            && (us - 99) as real < (delay + 2) as real * TickUs(clock, psc)
  {
    hide Prescaled, DelayUs, Ticks, TickRate, TickUs;
    var us := DelayUs(fps, onTime);
    DelayBounds(fps, onTime);
    RateAndReload(clock, fps, psc, arr);
    TicksAreExact(clock, fps, psc, arr, us);
    DelayBelowReload(TickRate(clock, psc), fps, arr, us / 100);
    TicksAsTime(clock, psc, us);
  }

  lemma LongestPulse(clock: nat, fps: nat, psc: nat, arr: nat)
    requires 20000 <= clock && 0 < fps <= MAX_FPS && Prescaled(clock, fps, psc, arr)
    ensures var n := Ticks(clock, psc, MaxOnTime(Diamond));
            n < arr && IsLongestPulse(clock, psc, n)
  {
    hide Prescaled, Ticks, TickRate, TickUs;
    TicksAreExact(clock, fps, psc, arr, 7500);
    TicksAsTime(clock, psc, 7500);
    RateBelow(clock, fps, psc, arr);
    QuotientBelow(TickRate(clock, psc) * 75, 10000, arr);
  }

  lemma RateBelow(clock: nat, fps: nat, psc: nat, arr: nat)
    requires 20000 <= clock && 0 < fps <= MAX_FPS && Prescaled(clock, fps, psc, arr)
    ensures 75 * TickRate(clock, psc) < 10000 * arr
  {
    hide Prescaled, TickRate;
    RateAndReload(clock, fps, psc, arr);
    MulLe(fps, MAX_FPS, arr + 1);
  }

  /** For every accepted frame rate and on-time: no intermediate value wraps, and the pulse is where
      it has to be in the period. */
  lemma ScheduleHolds(clock: nat, s: Settings)
    requires 20000 <= clock && 0 < s.fps <= MAX_FPS && s.onTime <= MaxOnTime(Diamond)
    requires Prescaled(clock, s.fps, s.psc, s.arr)
    ensures Scheduled(clock, WithDurations(clock, s))
  {
    hide Prescaled, DelayUs, Ticks, TickRate, TickUs, IsLongestPulse;
    var us, tick, period := DelayUs(s.fps, s.onTime), TickUs(clock, s.psc), 1000000.0 / s.fps as real;
    DelayBounds(s.fps, s.onTime);
    DelayIsExact(clock, s.fps, s.psc, s.arr, s.onTime);
    LongestPulse(clock, s.fps, s.psc, s.arr);
    PeriodBounds(s.fps, us + s.onTime + MARGIN_US);
    PulseEnds(Ticks(clock, s.psc, us), tick, us, s.onTime, period);
  }

  lemma PulseEnds(delay: nat, tick: real, us: nat, onTime: nat, period: real)
    requires delay as real * tick <= us as real && (us - 99) as real < (delay + 2) as real * tick
    requires (us + onTime + 50) as real <= period < (us + onTime + 50) as real + 1.0
    ensures delay as real * tick + onTime as real + 50.0 <= period
    ensures period < delay as real * tick + onTime as real + 151.0 + 2.0 * tick
  {
    assert (delay + 2) as real * tick == delay as real * tick + 2.0 * tick;
  }

  lemma PeriodBounds(fps: nat, us: nat)
    requires 0 < fps && us * fps <= 1000000 < (us + 1) * fps
    ensures us as real <= 1000000.0 / fps as real < us as real + 1.0
  {
    Scaled(us, fps);
    Scaled(us + 1, fps);
    assert (us + 1) as real == us as real + 1.0;
    Between(us as real, fps as real);
  }

  lemma Scaled(n: nat, f: nat)
    ensures n as real * f as real == (n * f) as real
  {
  }

  lemma Between(u: real, f: real)
    requires 0.0 < f && u * f <= 1000000.0 < (u + 1.0) * f
    ensures u <= 1000000.0 / f < u + 1.0
  {
    var period := 1000000.0 / f;
    assert period * f == 1000000.0;
    RealProduct(period, u, f);
    RealProduct(period, u + 1.0, f);
  }

  /** With a slower clock the fallback branch is reached. */
  lemma SlowClockFallsBack()
    ensures var s := FromFps(Diamond, 10000, Settings(0, 0, 0, 0, 0, 0), 60).0;
            && Prescaled(10000, 60, s.psc, s.arr)
            && Ticks(10000, s.psc, DelayUs(60, 0)) >= s.arr && s.initialCounter == s.arr - 1
            && !Scheduled(10000, s)
  {
    assert Prescaler(10000, 60) == 0 && Reload(10000, 0, 60) == 166;
    assert DelayUs(60, 0) == 16616;
    assert Ticks(10000, 0, 16616) == 166;
    assert TickUs(10000, 0) == 100.0;
    assert Ticks(10000, 0, 7500) == 75;
  }

  // ---- runs of the setters

  datatype Op = SetFps(fps: u16) | SetOnTime(onTime: u16)

  function Step(b: Board, clock: nat, s: Settings, op: Op): Settings {
    match op
    case SetFps(fps) => FromFps(b, clock, s, fps).0
    case SetOnTime(onTime) => FromOnTime(b, clock, s, onTime).0
  }

  function Run(b: Board, clock: nat, s: Settings, ops: seq<Op>): Settings
    decreases |ops|
  {
    if ops == [] then s else Step(b, clock, Run(b, clock, s, ops[..|ops| - 1]), ops[|ops| - 1])
  }

  const OFF: Settings := Settings(0, 0, 0, 0, 0, 0)

  /** What holds of the settings at any time. */
  ghost predicate Good(b: Board, clock: nat, s: Settings) {
    && s.fps <= 60 && EyeSafe(b, s.fps, s.onTime)
    && (s.fps == 0 ==> s.psc == 0 && s.arr == 0)
    && (s.fps != 0 ==> Prescaled(clock, s.fps, s.psc, s.arr))
    && (s.fps != 0 && b.Diamond? && 20000 <= clock ==> Scheduled(clock, s))
  }

  lemma CompletedIsGood(b: Board, clock: nat, s: Settings)
    requires s.fps <= 60 && EyeSafe(b, s.fps, s.onTime) && (s.fps == 0 ==> s.psc == 0 && s.arr == 0)
    requires s.fps != 0 ==> Prescaled(clock, s.fps, s.psc, s.arr)
    ensures Good(b, clock, Completed(b, clock, s))
  {
    hide Prescaled, Scheduled, Ticks, DelayUs, LightPerSecond;
    if b.Diamond? && s.fps != 0 && 20000 <= clock {
      ScheduleHolds(clock, s);
    }
  }

  lemma StepIsGood(b: Board, clock: u32, s: Settings, op: Op)
    requires Good(b, clock, s)
    ensures Good(b, clock, Step(b, clock, s, op))
  {
    hide Prescaled, Scheduled, Completed, Prescaler, Reload, DutyLimit, LightPerSecond, LongestOnTime;
    match op
    case SetFps(fps) =>
      AcceptedIffEyeSafe(b, clock, s, fps, 0);
      if fps != 0 {
        var psc := Prescaler(clock, fps);
        PrescalerIsCorrect(clock, fps);
        if FromFps(b, clock, s, fps).1 == Success {
          CompletedIsGood(b, clock, s.(fps := fps, psc := psc, arr := Reload(clock, psc, fps)));
        }
      } else {
        assert s.onTime * 0 == 0;
      }
    case SetOnTime(onTime) =>
      AcceptedIffEyeSafe(b, clock, s, 0, onTime);
      if FromOnTime(b, clock, s, onTime).1 == Success {
        CompletedIsGood(b, clock, s.(onTime := onTime));
      }
  }

  /** After any sequence of accepted and rejected settings the light is eye-safe, and camera and
      LEDs are timed correctly. */
  lemma {:induction false} RunsAreGood(b: Board, clock: u32, ops: seq<Op>)
    ensures Good(b, clock, Run(b, clock, OFF, ops))
    decreases |ops|
  {
    hide Step, Prescaled, Scheduled;
    if ops != [] {
      RunsAreGood(b, clock, ops[..|ops| - 1]);
      StepIsGood(b, clock, Run(b, clock, OFF, ops[..|ops| - 1]), ops[|ops| - 1]);
    }
  }

  /** In numbers: over any sequence of settings, at most 60 frames per second, pulses of at most 5 ms and 150 ms
      of light per second on Pearl, 7.5 ms and 250 ms on Diamond. */
  lemma RunsInNumbers(b: Board, clock: u32, ops: seq<Op>)
    ensures var s := Run(b, clock, OFF, ops);
            && s.fps <= 60
            && s.onTime <= (if b.Diamond? then 7500 else 5000)
            && s.onTime * s.fps <= (if b.Diamond? then 250000 else 150000)
  {
    hide Prescaled, Scheduled, Run;
    RunsAreGood(b, clock, ops);
  }

  /** An accepted setting changes its own value and no other; a rejected one changes nothing. */
  lemma SettingsAreKept(b: Board, clock: nat, s: Settings, fps: u16, onTime: u16)
    ensures var (t, ret) := FromFps(b, clock, s, fps);
            if ret == Success then t.fps == fps && t.onTime == s.onTime else t == s
    ensures var (t, ret) := FromOnTime(b, clock, s, onTime);
            if ret == Success then t.onTime == onTime && t.fps == s.fps && t.psc == s.psc && t.arr == s.arr else t == s
  {
    hide Ticks, DelayUs, Prescaler, Reload, DutyLimit, LongestOnTime;
  }

  /** The order of the two settings does not matter: both are accepted one way round exactly when
      they are the other way round, and then the timer is set the same. */
  lemma OrderDoesNotMatter(b: Board, clock: u32, s: Settings, fps: u16, onTime: u16)
    requires s.fps == 0 && s.onTime == 0 && 0 < fps
    ensures var (s1, r1) := FromFps(b, clock, s, fps);
            var (s2, r2) := FromOnTime(b, clock, s1, onTime);
            var (t1, q1) := FromOnTime(b, clock, s, onTime);
            var (t2, q2) := FromFps(b, clock, t1, fps);
            && (r1 == Success && r2 == Success <==> q1 == Success && q2 == Success)
            && (r1 == Success && r2 == Success ==> s2 == t2 && s2.fps == fps && s2.onTime == onTime)
  {
    hide DutyLimit, LongestOnTime, Prescaler, Reload, Ticks, DelayUs, LightPerSecond;
    var (s1, r1) := FromFps(b, clock, s, fps);
    var (t1, q1) := FromOnTime(b, clock, s, onTime);
    AcceptedIffEyeSafe(b, clock, s, fps, onTime);
    AcceptedIffEyeSafe(b, clock, s1, 0, onTime);
    AcceptedIffEyeSafe(b, clock, t1, fps, 0);
  }

  /** The settings that the camera system keeps and hands to the timers. */
  class CameraTimer {
    const board: Board
    const clock: u32 // TIMER_CLOCK_FREQ_HZ
    var settings: Settings

    constructor (board: Board, clock: u32)
      ensures this.board == board && this.clock == clock && settings == OFF
    {
      this.board, this.clock, settings := board, clock, OFF;
    }

    method SetFps(fps: u16) returns (ret: Ret)
      modifies this
      ensures (settings, ret) == FromFps(board, clock, old(settings), fps)
      ensures Good(board, clock, old(settings)) ==> Good(board, clock, settings)
      ensures ret != Success ==> settings == old(settings)
    {
      StepIsGoodIf(board, clock, settings, Op.SetFps(fps));
      hide Good, Prescaler, Reload, DutyLimit, WithDurations;
      var ts := settings;
      ret := Success;
      if fps == 0 {
        ts := ts.(fps := 0, psc := 0, arr := 0);
      } else if fps > MAX_FPS {
        ret := InvalidParam;
      } else {
        var psc := Prescaler(clock, fps);
        ts := ts.(fps := fps, psc := psc, arr := Reload(clock, psc, fps));
        if settings.onTime != 0 && LongestOnTime(board, fps) < settings.onTime {
          ret := InvalidParam;
        }
        if board.Diamond? && ret == Success {
          ts := WithDurations(clock, ts);
        }
      }
      if ret == Success {
        settings := ts;
      }
    }

    method SetOnTime(onTime: u16) returns (ret: Ret)
      modifies this
      ensures (settings, ret) == FromOnTime(board, clock, old(settings), onTime)
      ensures Good(board, clock, old(settings)) ==> Good(board, clock, settings)
      ensures ret != Success ==> settings == old(settings)
    {
      StepIsGoodIf(board, clock, settings, Op.SetOnTime(onTime));
      hide Good, DutyLimit, Ticks, DelayUs;
      var ts := settings;
      if onTime > MaxOnTime(board) {
        ret := InvalidParam;
      } else if settings.fps != 0 && DutyLimit(board, settings.fps) < onTime as real {
        ret := InvalidParam;
      } else {
        ret := Success;
        ts := ts.(onTime := onTime);
      }
      if board.Diamond? && ret == Success && ts.fps != 0 {
        ts := WithDurations(clock, ts);
      }
      if ret == Success {
        settings := ts;
      }
    }
  }

  lemma StepIsGoodIf(b: Board, clock: u32, s: Settings, op: Op)
    ensures Good(b, clock, s) ==> Good(b, clock, Step(b, clock, s, op))
  {
    hide Good;
    if Good(b, clock, s) {
      StepIsGood(b, clock, s, op);
    }
  }
}
