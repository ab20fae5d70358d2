/** The LED dimmer that polls a clock: it toggles when a phase has lasted long enough. */
module PollingPwm {

  const NS_PER_SEC := 1_000_000_000
  const DUTY := 2                 // percent

  type Nanos = n: int | 0 <= n < NS_PER_SEC

  datatype Timespec = Timespec(sec: int, nsec: Nanos)

  function Ns(t: Timespec): int { t.sec * NS_PER_SEC + t.nsec }

  /** The two phases of a period given in milliseconds, in nanoseconds. */
  datatype Phases = Phases(on: int, off: int)

  function PhasesOf(periodMs: nat): (p: Phases)
    ensures p.on >= 0 && p.off >= 0 && p.on + p.off == periodMs * 1_000_000
  {
    var period := periodMs * 1_000_000;
    var on := period / 100 * DUTY;
    Phases(on, period - on)
  }

  /** The length the phase after an even or odd number of toggles should have. */
  function Target(p: Phases, toggles: nat): int
  {
    if toggles % 2 == 0 then p.on else p.off
  }

  class Poller {
    const phases: Phases
    var t1: Timespec               // when the current phase began
    var k: int
    var lit: bool
    ghost var marks: seq<int>      // when each phase began, the current one last
    ghost var now: int             // the latest clock sample

    ghost predicate Valid()
      reads this
    {
      && marks != [] && marks[|marks| - 1] == Ns(t1)
      && k == (|marks| - 1) % 2 && (lit <==> k == 0)
      && phases.on >= 0 && phases.off >= 0
    }

    constructor (periodMs: nat, start: Timespec)
      ensures Valid() && phases == PhasesOf(periodMs) && marks == [Ns(start)] && now == Ns(start)
    {
      phases := PhasesOf(periodMs);
      t1, k, lit := start, 0, true;
      marks, now := [Ns(start)], Ns(start);
    }

    /** One turn of the loop, with the clock read as t2: a phase ends exactly when its
        target has been reached. The seconds and nanoseconds give the true difference. */
    method Sample(t2: Timespec)
      requires Valid()
      modifies this
      ensures Valid() && now == Ns(t2)
      ensures var elapsed := Ns(t2) - old(marks[|marks| - 1]);
        marks == if elapsed >= Target(phases, |old(marks)| - 1) then old(marks) + [Ns(t2)] else old(marks)
    {
      var delta := (t2.sec - t1.sec) * 1_000_000_000 + (t2.nsec - t1.nsec);
      var toggle := (k == 0 && delta >= phases.on) || (k == 1 && delta >= phases.off);
      if toggle {
        t1 := t2;
        k := (k + 1) % 2;
        if k == 0 {
          lit := true;
        } else {
          lit := false;
        }
        marks := marks + [Ns(t2)];
      }
      now := Ns(t2);
    }

    /** Every finished phase lasted at least its target and at most the poll gap longer,
        and the current one is not overdue. */
    ghost predicate OnTime(gap: nat)
      requires marks != []
      reads this
    {
      InTime(phases, marks, gap) && NotOverdue(phases, marks, now)
    }

    method TimedSample(t2: Timespec, gap: nat)
      requires Valid() && OnTime(gap) && now <= Ns(t2) <= now + gap
      modifies this
      ensures Valid() && OnTime(gap) && now == Ns(t2) && old(marks) <= marks
    {
      ghost var t, last := Ns(t2), |marks| - 1;
      if t - marks[last] >= Target(phases, last) {
        InTimeExtends(phases, marks, gap, t);
      }
      Sample(t2);
    }

    /** The endless loop, for as many turns as there are samples. */
    method Poll(samples: seq<Timespec>, gap: nat)
      requires Valid() && OnTime(gap)
      requires ReadOften(now, samples, gap)
      modifies this
      ensures Valid() && OnTime(gap) && old(marks) <= marks
      ensures samples != [] ==> now == Ns(samples[|samples| - 1])
    {
      ghost var start := now;
      for i := 0 to |samples|
        invariant Valid() && OnTime(gap) && old(marks) <= marks
        invariant now == SampleBefore(start, samples, i)
      {
        assert SampleBefore(start, samples, i) <= Ns(samples[i]) <= SampleBefore(start, samples, i) + gap;
        TimedSample(samples[i], gap);
      }
    }
  }

  /** The clock value before the i-th of these samples. */
  function SampleBefore(start: int, samples: seq<Timespec>, i: nat): int
    requires i <= |samples|
  {
    if i == 0 then start else Ns(samples[i - 1])
  }

  /** The clock never runs backwards and is read at least every gap nanoseconds. */
  predicate ReadOften(start: int, samples: seq<Timespec>, gap: nat)
  {
    forall i :: 0 <= i < |samples| ==>
      SampleBefore(start, samples, i) <= Ns(samples[i]) <= SampleBefore(start, samples, i) + gap
  }

  predicate InTime(p: Phases, marks: seq<int>, gap: nat)
  {
    forall i :: 0 <= i < |marks| - 1 ==>
      Target(p, i) <= marks[i + 1] - marks[i] <= Target(p, i) + gap
  }

  predicate NotOverdue(p: Phases, marks: seq<int>, now: int)
    requires marks != []
  {
    var elapsed := now - marks[|marks| - 1];
    elapsed == 0 || 0 < elapsed < Target(p, |marks| - 1)
  }

  lemma InTimeExtends(p: Phases, marks: seq<int>, gap: nat, t: int)
    requires marks != [] && InTime(p, marks, gap)
    requires Target(p, |marks| - 1) <= t - marks[|marks| - 1] <= Target(p, |marks| - 1) + gap
    ensures InTime(p, marks + [t], gap)
  {
  }

  /** n full cycles, from any phase on, take between n periods and n periods with two poll
      gaps each. */
  lemma {:induction false} CyclesOnTime(p: Phases, marks: seq<int>, gap: nat, from: nat, n: nat)
    requires InTime(p, marks, gap) && from + 2 * n < |marks|
    ensures n * (p.on + p.off) <= marks[from + 2 * n] - marks[from] <= n * (p.on + p.off + 2 * gap)
  {
    if n > 0 {
      CyclesOnTime(p, marks, gap, from, n - 1);
      var last := from + 2 * (n - 1);
      assert marks[last + 1] - marks[last] >= Target(p, last);
      assert marks[last + 2] - marks[last + 1] >= Target(p, last + 1);
      assert Target(p, last) + Target(p, last + 1) == p.on + p.off;
      OneMore(n, p.on + p.off);
      OneMore(n, p.on + p.off + 2 * gap);
    }
  }

  /** The time the LED is lit in the first n cycles: their even phases. */
  function LitTime(marks: seq<int>, n: nat): int
    requires 2 * n <= |marks|
  {
    if n == 0 then 0 else LitTime(marks, n - 1) + marks[2 * n - 1] - marks[2 * n - 2]
  }

  /** Two percent: in n cycles of a period given in milliseconds the LED is lit for at least
      20000 ns of each millisecond, and at most a poll gap longer in each cycle. */
  lemma {:induction false} LitTwoPercent(periodMs: nat, marks: seq<int>, gap: nat, n: nat)
    requires InTime(PhasesOf(periodMs), marks, gap) && 2 * n <= |marks|
    ensures n * (periodMs * 20_000) <= LitTime(marks, n) <= n * (periodMs * 20_000 + gap)
  {
    if n > 0 {
      LitTwoPercent(periodMs, marks, gap, n - 1);
      LitOnce(periodMs, marks, gap, n);
      OneMore(n, periodMs * 20_000);
      OneMore(n, periodMs * 20_000 + gap);
    }
  }

  lemma LitOnce(periodMs: nat, marks: seq<int>, gap: nat, n: nat)
    requires InTime(PhasesOf(periodMs), marks, gap) && 0 < 2 * n <= |marks|
    ensures periodMs * 20_000 <= marks[2 * n - 1] - marks[2 * n - 2] <= periodMs * 20_000 + gap
  {
    var i := 2 * n - 2;
    assert Target(PhasesOf(periodMs), i) == PhasesOf(periodMs).on == periodMs * 20_000;
    assert Target(PhasesOf(periodMs), i) <= marks[i + 1] - marks[i] <= Target(PhasesOf(periodMs), i) + gap;
  }

  lemma OneMore(n: nat, x: int)
    ensures n * x == (n - 1) * x + x
  {
  }
}
