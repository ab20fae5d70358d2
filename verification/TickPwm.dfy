/** The LED dimmer driven by timer ticks: a hundred ticks make a period, and the duty
    cycle is the number of them the LED is on. */
module TickPwm {

  datatype Event = Tick | K1 | K2 | K3

  const MAX_PERIOD_MS := 60000
  const DEFAULT_PERIOD_MS := 250

  datatype State = State(count: int, k: int, lit: bool, periodMs: int)

  function Initial(periodMs: int): State { State(0, 0, true, periodMs) }

  function Toggle(s: State): State
  {
    var k := (s.k + 1) % 2;
    s.(k := k, lit := k == 0)
  }

  function Step(duty: int, s: State, e: Event): State
  {
    match e
    case Tick =>
      var counted := s.(count := s.count + 1);
      var atDuty := if counted.count == duty then Toggle(counted) else counted;
      if atDuty.count >= 100 then Toggle(atDuty).(count := 0) else atDuty
    case K1 => if s.periodMs < MAX_PERIOD_MS then s.(periodMs := s.periodMs + 100) else s
    case K2 => s.(periodMs := DEFAULT_PERIOD_MS)
    case K3 => if s.periodMs > 100 then s.(periodMs := s.periodMs - 100) else s
  }

  function Run(duty: int, s: State, es: seq<Event>): State
  {
    if es == [] then s else Step(duty, Run(duty, s, es[..|es| - 1]), es[|es| - 1])
  }

  // ----- the program -----

  class Dimmer {
    const duty: int
    var count: int               // handleTimer_1's static variable
    var k: int                   // toggleLed's static variable
    var lit: bool
    var periodMs: int
    var sec: int                 // the interval programmed into the timer
    var nsec: int

    ghost function View(): State
      reads this
    {
      State(count, k, lit, periodMs)
    }

    /** A hundred programmed intervals are exactly the period, in nanoseconds. */
    predicate Programmed()
      reads this
    {
      0 <= nsec < 1_000_000_000 && 100 * (sec * 1_000_000_000 + nsec) == periodMs * 1_000_000
    }

    constructor (duty: int, periodMs: int)
      requires periodMs >= 0
      ensures this.duty == duty && View() == Initial(periodMs) && Programmed()
    {
      this.duty, this.periodMs := duty, periodMs;
      count, k, lit := 0, 0, true;
      new;
      SetupTimer();
    }

    method SetupTimer()
      requires periodMs >= 0
      modifies this`sec, this`nsec
      ensures Programmed()
    {
      var periodNs := periodMs * 1_000_000;
      periodNs := periodNs / 100;
      assert periodNs == periodMs * 10_000;
      sec := periodNs / 1_000_000_000;
      nsec := periodNs % 1_000_000_000;
    }

    method ToggleLed()
      modifies this`k, this`lit
      ensures View() == Toggle(old(View()))
    {
      k := (k + 1) % 2;
      if k == 0 {
        lit := true;
      } else {
        lit := false;
      }
    }

    method HandleTimer()
      modifies this`count, this`k, this`lit
      ensures View() == Step(duty, old(View()), Tick)
    {
      count := count + 1;
      if count == duty {
        ToggleLed();
      }
      if count >= 100 {
        ToggleLed();
        count := 0;
      }
    }

    method HandleK1()
      requires periodMs >= 0
      modifies this`periodMs, this`sec, this`nsec
      ensures View() == Step(duty, old(View()), K1) && Programmed()
    {
      if periodMs < 60000 {
        periodMs := periodMs + 100;
      }
      SetupTimer();
    }

    method HandleK2()
      modifies this`periodMs, this`sec, this`nsec
      ensures View() == Step(duty, old(View()), K2) && Programmed()
    {
      periodMs := 250;
      SetupTimer();
    }

    method HandleK3()
      requires periodMs >= 0
      modifies this`periodMs, this`sec, this`nsec
      ensures View() == Step(duty, old(View()), K3) && Programmed()
    {
      if periodMs > 100 {
        periodMs := periodMs - 100;
      }
      SetupTimer();
    }

    /** The event loop over any events, in any order. */
    method HandleEvents(es: seq<Event>)
      requires periodMs >= 0 && Programmed()
      modifies this
      ensures View() == Run(duty, old(View()), es) && Programmed()
    {
      for i := 0 to |es|
        invariant View() == Run(duty, old(View()), es[..i]) && Programmed() && periodMs >= 0
      {
        assert es[..i + 1][..i] == es[..i];
        match es[i] {
          case Tick => HandleTimer();
          case K1 => HandleK1();
          case K2 => HandleK2();
          case K3 => HandleK3();
        }
      }
      assert es[..|es|] == es;
    }
  }

  // ----- the duty cycle -----

  function Ticks(es: seq<Event>): nat
  {
    if es == [] then 0 else Ticks(es[..|es| - 1]) + if es[|es| - 1] == Tick then 1 else 0
  }

  predicate LitBelowDuty(duty: int, s: State) { s.lit <==> s.count < duty }

  predicate InPhase(duty: int, s: State, ticks: nat)
  {
    && s.count == ticks % 100
    && LitBelowDuty(duty, s)
    && s.k == if s.lit then 0 else 1
  }

  lemma PhaseStep(duty: int, s: State, e: Event, ticks: nat)
    requires 1 <= duty <= 100 && InPhase(duty, s, ticks)
    ensures InPhase(duty, Step(duty, s, e), ticks + if e == Tick then 1 else 0)
  {
  }

  /** With a duty of 1 to 100, whatever buttons are pressed, the LED is lit exactly while
      the tick count of the period is below the duty. */
  lemma {:induction false} LitWhileBelowDuty(duty: int, periodMs: int, es: seq<Event>)
    requires 1 <= duty <= 100
    ensures InPhase(duty, Run(duty, Initial(periodMs), es), Ticks(es))
  {
    if es != [] {
      LitWhileBelowDuty(duty, periodMs, es[..|es| - 1]);
      PhaseStep(duty, Run(duty, Initial(periodMs), es[..|es| - 1]), es[|es| - 1], Ticks(es[..|es| - 1]));
    }
  }

  /** The tick intervals in which the LED was lit: those whose closing tick found it lit. */
  function LitIntervals(duty: int, s: State, es: seq<Event>): nat
  {
    if es == [] then 0
    else
      var before := es[..|es| - 1];
      LitIntervals(duty, s, before) + if es[|es| - 1] == Tick && Run(duty, s, before).lit then 1 else 0
  }

  function Min(a: int, b: int): int { if a < b then a else b }

  function DutyShare(duty: int, ticks: nat): int
  {
    ticks / 100 * duty + Min(ticks % 100, duty)
  }

  lemma ShareStep(duty: int, ticks: nat)
    requires 1 <= duty <= 100
    ensures DutyShare(duty, ticks + 1) == DutyShare(duty, ticks) + if ticks % 100 < duty then 1 else 0
  {
    if ticks % 100 == 99 {
      assert (ticks + 1) / 100 == ticks / 100 + 1;
      assert (ticks / 100 + 1) * duty == ticks / 100 * duty + duty;
    } else {
      assert (ticks + 1) / 100 == ticks / 100;
    }
  }

  /** Exact duty cycle: of the first N tick intervals the LED is lit in exactly duty of
      every full hundred, and first of all in the last, incomplete one. */
  lemma {:induction false} ExactDutyCycle(duty: int, periodMs: int, es: seq<Event>)
    requires 1 <= duty <= 100
    ensures LitIntervals(duty, Initial(periodMs), es) == DutyShare(duty, Ticks(es))
  {
    if es != [] {
      var before := es[..|es| - 1];
      ExactDutyCycle(duty, periodMs, before);
      LitWhileBelowDuty(duty, periodMs, before);
      ShareStep(duty, Ticks(before));
    }
  }

  function TicksOnly(n: nat): seq<Event> { if n == 0 then [] else TicksOnly(n - 1) + [Tick] }

  /** With a duty above 100 the LED is lit for a whole period and dark for the next. */
  lemma {:induction false} TooHighDuty(duty: int, periodMs: int, n: nat)
    requires duty > 100 && n <= 100
    ensures Run(duty, Initial(periodMs), TicksOnly(n))
         == if n < 100 then State(n, 0, true, periodMs) else State(0, 1, false, periodMs)
  {
    if n > 0 {
      TooHighDuty(duty, periodMs, n - 1);
      assert TicksOnly(n)[..|TicksOnly(n)| - 1] == TicksOnly(n - 1);
    }
  }

  /** A duty of 1 to 100 is exactly what the program keeps in every run. */
  lemma DutyRange(duty: int, periodMs: int)
    ensures (forall es :: LitBelowDuty(duty, Run(duty, Initial(periodMs), es))) <==> 1 <= duty <= 100
  {
    if 1 <= duty <= 100 {
      forall es ensures LitBelowDuty(duty, Run(duty, Initial(periodMs), es)) {
        LitWhileBelowDuty(duty, periodMs, es);
      }
    } else if duty > 100 {
      TooHighDuty(duty, periodMs, 100);
      assert !LitBelowDuty(duty, Run(duty, Initial(periodMs), TicksOnly(100)));
    } else {
      assert !LitBelowDuty(duty, Run(duty, Initial(periodMs), []));
    }
  }

  // ----- the period -----

  predicate PeriodKept(start: int, p: int)
  {
    && 0 < p && (p <= start || p < MAX_PERIOD_MS + 100)
    && (p % 100 == start % 100 || p % 100 == 50)
  }

  lemma PeriodStep(duty: int, s: State, e: Event, start: int)
    requires PeriodKept(start, s.periodMs)
    ensures PeriodKept(start, Step(duty, s, e).periodMs)
  {
    var p := s.periodMs;
    assert (p + 100) % 100 == p % 100 == (p - 100) % 100;
  }

  /** Buttons keep a positive period positive and do not push it beyond 60.1 seconds. */
  lemma {:induction false} PeriodBounds(duty: int, periodMs: int, es: seq<Event>)
    requires periodMs > 0
    ensures PeriodKept(periodMs, Run(duty, Initial(periodMs), es).periodMs)
  {
    if es != [] {
      PeriodBounds(duty, periodMs, es[..|es| - 1]);
      PeriodStep(duty, Run(duty, Initial(periodMs), es[..|es| - 1]), es[|es| - 1], periodMs);
    }
  }

  /** From the default of 250 ms it is always 50 ms away from a hundred, in 50..60050. */
  lemma DefaultPeriod(duty: int, es: seq<Event>)
    ensures var p := Run(duty, Initial(DEFAULT_PERIOD_MS), es).periodMs;
      p % 100 == 50 && 50 <= p <= 60050
  {
    PeriodBounds(duty, DEFAULT_PERIOD_MS, es);
  }

  function Count(es: seq<Event>, e: Event): nat
  {
    if es == [] then 0 else Count(es[..|es| - 1], e) + if es[|es| - 1] == e then 1 else 0
  }

  /** A period with a hundred milliseconds more for every K1 and less for every K3. */
  function Pressed(periodMs: int, es: seq<Event>): int
  {
    periodMs + 100 * Count(es, K1) - 100 * Count(es, K3)
  }

  /** That period stays positive and below 60.1 seconds all the way. */
  predicate WithinBounds(periodMs: int, es: seq<Event>)
  {
    forall j :: 0 <= j <= |es| ==> 0 < Pressed(periodMs, es[..j]) < 60100
  }

  lemma WithinBefore(periodMs: int, es: seq<Event>)
    requires WithinBounds(periodMs, es) && es != []
    ensures WithinBounds(periodMs, es[..|es| - 1]) && 0 < Pressed(periodMs, es) < 60100
  {
    var before := es[..|es| - 1];
    assert es[..|es|] == es;
    forall j | 0 <= j <= |before| ensures 0 < Pressed(periodMs, before[..j]) < 60100 {
      assert before[..j] == es[..j];
    }
  }

  lemma PressStep(duty: int, s: State, e: Event)
    requires e != K2
    requires var p := s.periodMs + (if e == K1 then 100 else if e == K3 then -100 else 0); 0 < p < 60100
    ensures Step(duty, s, e).periodMs == s.periodMs + if e == K1 then 100 else if e == K3 then -100 else 0
  {
  }

  /** As long as the bounds are not met, K1 lengthens the period by 100 ms and K3 shortens
      it by as much. */
  lemma {:induction false} PeriodCounts(duty: int, s: State, es: seq<Event>)
    requires K2 !in es && WithinBounds(s.periodMs, es)
    ensures Run(duty, s, es).periodMs == Pressed(s.periodMs, es)
  {
    if es != [] {
      WithinBefore(s.periodMs, es);
      PeriodCounts(duty, s, es[..|es| - 1]);
      assert es[|es| - 1] in es;
      PressStep(duty, Run(duty, s, es[..|es| - 1]), es[|es| - 1]);
    }
  }

  /** And only so long: every press so far had its effect if and only if the bounds were
      never met. */
  lemma PeriodCountsExactly(duty: int, periodMs: int, es: seq<Event>)
    requires K2 !in es && 0 < periodMs < 60100
    ensures WithinBounds(periodMs, es)
       <==> forall j :: 0 <= j <= |es| ==> Run(duty, Initial(periodMs), es[..j]).periodMs == Pressed(periodMs, es[..j])
  {
    if WithinBounds(periodMs, es) {
      forall j | 0 <= j <= |es| ensures Run(duty, Initial(periodMs), es[..j]).periodMs == Pressed(periodMs, es[..j]) {
        assert forall i :: 0 <= i <= j ==> es[..j][..i] == es[..i];
        PeriodCounts(duty, Initial(periodMs), es[..j]);
      }
    }
    forall j | 0 <= j <= |es| ensures 0 < Run(duty, Initial(periodMs), es[..j]).periodMs < 60100 {
      PeriodBounds(duty, periodMs, es[..j]);
    }
  }

  lemma {:induction false} RunConcat(duty: int, s: State, xs: seq<Event>, ys: seq<Event>)
    ensures Run(duty, s, xs + ys) == Run(duty, Run(duty, s, xs), ys)
    decreases |ys|
  {
    if ys == [] {
      assert xs + ys == xs;
    } else {
      assert (xs + ys)[..|xs + ys| - 1] == xs + ys[..|ys| - 1];
      RunConcat(duty, s, xs, ys[..|ys| - 1]);
    }
  }

  /** K2 returns to 250 ms, from where K1 and K3 count again. */
  lemma PeriodSinceK2(duty: int, s: State, before: seq<Event>, since: seq<Event>)
    requires K2 !in since && WithinBounds(250, since)
    ensures Run(duty, s, before + [K2] + since).periodMs == 250 + 100 * Count(since, K1) - 100 * Count(since, K3)
  {
    assert (before + [K2])[..|before|] == before;
    RunConcat(duty, s, before + [K2], since);
    PeriodCounts(duty, Run(duty, s, before + [K2]), since);
  }
}
