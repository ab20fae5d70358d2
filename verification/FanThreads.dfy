/** The two daemon threads and the kernel's timer callback, interleaved between their single
    accesses to the shared variables, the attributes and the LCD mutex. */
module FanThreads {
  import opened Wrappers
  import opened Commands
  import opened FanSpec
  import opened FanRuns

  datatype Thread = Events | Main | Kernel

  /** Where a thread stands between two accesses. */
  datatype Pc =
    | Idle
    | HoldsFreq(read: int)              // freq_handler read the attribute, cache not stored yet
    | HoldsTemp(read: int)
    | Pressed1 | Pressed2 | Pressed3    // power LED and its timer are set, cur_mode not looked at yet
    | SawTemp(reading: Option<int>)     // the callback saw automatic mode and asks the sensor
    | WritesFreq(freq: int)             // a frequency is chosen, not written yet
    | SawMode(seen: int)                // k3_handler looked at cur_mode
    | Stored                            // cur_mode is stored, not passed to set_mode yet
    | WritesMode(mode: int)             // set_mode holds its argument, attribute not written yet
    | WantsLcd(line: LcdLine)
    | HasLcd(line: LcdLine)                // holds the mutex, argument of lcd_write_* not loaded yet
    | Shows(call: LcdCall)

  datatype Shared = Shared(fan: Fan, events: Pc, main: Pc, kernel: Pc, lock: Option<Thread>)

  /** A handler begins with its first access and continues with one at a time. */
  datatype Step = Begin(event: Event) | Continue(who: Thread)

  function At(s: Shared, who: Thread): Pc
  {
    match who case Events => s.events case Main => s.main case Kernel => s.kernel
  }

  function Place(s: Shared, who: Thread, pc: Pc): Shared
  {
    match who
    case Events => s.(events := pc)
    case Main => s.(main := pc)
    case Kernel => s.(kernel := pc)
  }

  /** The thread that runs the handler. */
  function Doer(e: Event): Thread
  {
    match e case Message(_) => Main case Tick(_) => Kernel case _ => Events
  }

  /** What the first access of a handler changes. */
  function FirstEffect(f: Fan, e: Event): Fan
  {
    match e
    case TimerReady => f.(armed := false, expired := false, lit := false)
    case Key1(pressed) => if pressed then PressLed(f) else f
    case Key2(pressed) => if pressed then PressLed(f) else f
    case Key3(pressed) => if pressed then PressLed(f) else f
    case Message(SetMode(mode)) => f.(curMode := mode)
    case Message(Stop) => f.(stopped := true)
    case Expire => if f.armed then f.(armed := false, expired := true) else f
    case _ => f
  }

  /** Where it leaves its thread. */
  function FirstPc(f: Fan, e: Event): Pc
  {
    match e
    case FreqReady => HoldsFreq(f.freq)
    case TempReady(temp) => HoldsTemp(if temp.Some? then temp.value else 0)
    case Key1(pressed) => if pressed then Pressed1 else Idle
    case Key2(pressed) => if pressed then Pressed2 else Idle
    case Key3(pressed) => if pressed then Pressed3 else Idle
    case Message(SetFreq(freq)) => if f.curMode == 1 then WritesFreq(freq) else Idle
    case Message(SetMode(mode)) => Stored
    case Tick(reading) => if f.mode then Idle else SawTemp(reading)
    case _ => Idle
  }

  /** What a later access changes. */
  function Effect(f: Fan, pc: Pc): Fan
  {
    match pc
    case HoldsFreq(read) => f.(curFreq := read)
    case HoldsTemp(read) => f.(curTemp := read)
    case WritesFreq(freq) => f.(freq := freq)
    case SawMode(seen) => f.(curMode := if seen == 0 then 1 else 0)
    case WritesMode(mode) => f.(mode := mode != 0)
    case Shows(call) => f.(lcd := f.lcd + [call])
    case _ => f
  }

  /** Where it leaves its thread, which stays where it is while the mutex is taken. */
  function NextPc(f: Fan, free: bool, pc: Pc): Pc
  {
    match pc
    case HoldsFreq(_) => WantsLcd(FreqLine)
    case HoldsTemp(_) => WantsLcd(TempLine)
    case Pressed1 => if f.curMode == 1 then WritesFreq(Increment(f.curFreq)) else Idle
    case Pressed2 => if f.curMode == 1 && f.curFreq > 0 then WritesFreq(Decrement(f.curFreq)) else Idle
    case SawTemp(reading) => if reading.Some? then WritesFreq(Band(reading.value)) else Idle
    case Pressed3 => SawMode(f.curMode)
    case SawMode(_) => Stored
    case Stored => WritesMode(f.curMode)
    case WritesMode(_) => WantsLcd(ModeLine)
    case WantsLcd(line) => if free then HasLcd(line) else pc
    case HasLcd(line) => Shows(CallFor(f, line))
    case _ => Idle
  }

  function NextLock(lock: Option<Thread>, who: Thread, pc: Pc): Option<Thread>
  {
    if pc.WantsLcd? && lock.None? then Some(who) else if pc.Shows? then None else lock
  }

  /** One step. A thread begins a handler only when idle; the LED timer needs no thread to
      run out. */
  function Next(s: Shared, a: Step): Shared
  {
    match a
    case Begin(e) =>
      if e.Expire? then s.(fan := FirstEffect(s.fan, e))
      else if At(s, Doer(e)).Idle? then Place(s, Doer(e), FirstPc(s.fan, e)).(fan := FirstEffect(s.fan, e))
      else s
    case Continue(who) =>
      var pc := At(s, who);
      Place(s, who, NextPc(s.fan, s.lock.None?, pc)).(fan := Effect(s.fan, pc), lock := NextLock(s.lock, who, pc))
  }

  /** The thread that a step may move. */
  function Mover(a: Step): Thread { match a case Begin(e) => Doer(e) case Continue(who) => who }

  /** Only the mover moves. */
  lemma OthersStay(s: Shared, a: Step)
    ensures forall x :: x != Mover(a) ==> At(Next(s, a), x) == At(s, x)
  {
  }

  function Interleave(s: Shared, steps: seq<Step>): Shared
  {
    if steps == [] then s else Next(Interleave(s, steps[..|steps| - 1]), steps[|steps| - 1])
  }

  lemma InterleaveStep(s: Shared, steps: seq<Step>, a: Step)
    ensures Interleave(s, steps + [a]) == Next(Interleave(s, steps), a)
  {
    assert (steps + [a])[..|steps|] == steps;
  }

  lemma {:induction false} InterleaveConcat(s: Shared, xs: seq<Step>, ys: seq<Step>)
    ensures Interleave(s, xs + ys) == Interleave(Interleave(s, xs), ys)
    decreases |ys|
  {
    if ys == [] {
      assert xs + ys == xs;
    } else {
      assert (xs + ys)[..|xs + ys| - 1] == xs + ys[..|ys| - 1];
      InterleaveConcat(s, xs, ys[..|ys| - 1]);
    }
  }

  predicate Quiet(s: Shared) { s.events.Idle? && s.main.Idle? && s.kernel.Idle? && s.lock.None? }

  // ----- handlers without interruption -----

  function Times(who: Thread, n: nat): (steps: seq<Step>)
    ensures |steps| == n
  {
    if n == 0 then [] else [Continue(who)] + Times(who, n - 1)
  }

  lemma TimesStep(s: Shared, who: Thread, n: nat)
    ensures Interleave(s, Times(who, n + 1)) == Interleave(Next(s, Continue(who)), Times(who, n))
  {
    InterleaveConcat(s, [Continue(who)], Times(who, n));
    InterleaveStep(s, [], Continue(who));
    assert [] + [Continue(who)] == [Continue(who)];
  }

  /** How many accesses the handler still has at most. */
  function Left(pc: Pc): nat
  {
    match pc
    case Idle => 0
    case Shows(_) => 1
    case WritesFreq(_) => 1
    case Pressed1 => 2
    case Pressed2 => 2
    case SawTemp(_) => 2
    case HasLcd(_) => 2
    case WantsLcd(_) => 3
    case HoldsFreq(_) => 4
    case HoldsTemp(_) => 4
    case WritesMode(_) => 4
    case Stored => 5
    case SawMode(_) => 6
    case Pressed3 => 7
  }

  /** What the rest of a handler does when nobody interferes. */
  function Finished(f: Fan, pc: Pc): Fan
    decreases Left(pc)
  {
    if pc.Idle? then f else Finished(Effect(f, pc), NextPc(f, true, pc))
  }

  predicate HoldsLcd(pc: Pc) { pc.HasLcd? || pc.Shows? }

  /** The thread holds the mutex if it should and otherwise nobody does. */
  predicate Undisturbed(s: Shared, who: Thread)
  {
    s.lock == if HoldsLcd(At(s, who)) then Some(who) else None
  }

  lemma UndisturbedStep(s: Shared, who: Thread)
    requires Undisturbed(s, who)
    ensures var u := Next(s, Continue(who));
      && Undisturbed(u, who) && At(u, who) == NextPc(s.fan, true, At(s, who)) && u.fan == Effect(s.fan, At(s, who))
      && Place(u, who, Idle).(fan := s.fan, lock := None) == Place(s, who, Idle).(lock := None)
      && (At(s, who).Idle? || Left(At(u, who)) < Left(At(s, who)))
  {
  }

  /** A thread alone finishes its handler. */
  lemma {:induction false} FinishAlone(s: Shared, who: Thread, n: nat)
    requires Undisturbed(s, who) && Left(At(s, who)) <= n
    ensures Interleave(s, Times(who, n)) == Place(s, who, Idle).(fan := Finished(s.fan, At(s, who)), lock := None)
    decreases n
  {
    if n > 0 {
      var u := Next(s, Continue(who));
      TimesStep(s, who, n - 1);
      UndisturbedStep(s, who);
      FinishAlone(u, who, n - 1);
      assert Finished(s.fan, At(s, who)) == Finished(u.fan, At(u, who));
    }
  }

  lemma ShowFinished(f: Fan, line: LcdLine)
    ensures Finished(f, WantsLcd(line)) == f.(lcd := f.lcd + [CallFor(f, line)])
  {
    assert Finished(f, HasLcd(line)) == Finished(f, Shows(CallFor(f, line)));
  }

  lemma WriteFinished(f: Fan, freq: int)
    ensures Finished(f, WritesFreq(freq)) == f.(freq := freq)
  {
  }

  lemma StoredFinished(f: Fan)
    ensures Finished(f, Stored) == ChangeMode(f, f.curMode)
  {
    ShowFinished(f.(mode := f.curMode != 0), ModeLine);
    assert Finished(f, WritesMode(f.curMode)) == Finished(f.(mode := f.curMode != 0), WantsLcd(ModeLine));
  }

  lemma KeyIsHandle(f: Fan, e: Event)
    requires e.Key1? || e.Key2? || e.Key3?
    ensures Finished(FirstEffect(f, e), FirstPc(f, e)) == Handle(f, e)
  {
    if e.pressed {
      var g := PressLed(f);
      match e
      case Key1(_) => WriteFinished(g, Increment(f.curFreq));
      case Key2(_) => if f.curFreq > 0 { WriteFinished(g, Decrement(f.curFreq)); }
      case Key3(_) =>
        assert Finished(g, Pressed3) == Finished(g, SawMode(f.curMode));
        StoredFinished(g.(curMode := if f.curMode == 0 then 1 else 0));
    }
  }

  /** A handler left to itself does what its event does. */
  lemma FinishedIsHandle(f: Fan, e: Event)
    ensures Finished(FirstEffect(f, e), FirstPc(f, e)) == Handle(f, e)
  {
    match e
    case FreqReady => ShowFinished(f.(curFreq := f.freq), FreqLine);
    case TempReady(temp) => ShowFinished(f.(curTemp := FirstPc(f, e).read), TempLine);
    case Key1(_) => KeyIsHandle(f, e);
    case Key2(_) => KeyIsHandle(f, e);
    case Key3(_) => KeyIsHandle(f, e);
    case Message(SetMode(mode)) => StoredFinished(f.(curMode := mode));
    case Message(SetFreq(freq)) => WriteFinished(f, freq);
    case Tick(reading) => if reading.Some? { WriteFinished(f, Band(reading.value)); }
    case _ =>
  }

  lemma BeginUndisturbed(s: Shared, e: Event)
    requires At(s, Doer(e)).Idle? && s.lock.None?
    ensures var u := Next(s, Begin(e));
      && Undisturbed(u, Doer(e)) && At(u, Doer(e)) == FirstPc(s.fan, e) && u.fan == FirstEffect(s.fan, e)
      && Place(u, Doer(e), Idle).(fan := s.fan, lock := None) == s
      && Left(FirstPc(s.fan, e)) <= 7
  {
  }

  /** All steps of one handler in a row; no handler has more. */
  function Alone(e: Event): seq<Step> { [Begin(e)] + Times(Doer(e), 7) }

  /** A handler that is not interrupted while the mutex is free is the step of its event,
      whatever the other threads are in the middle of. */
  lemma AloneIsHandle(s: Shared, e: Event)
    requires At(s, Doer(e)).Idle? && s.lock.None?
    ensures Interleave(s, Alone(e)) == s.(fan := Handle(s.fan, e))
  {
    InterleaveConcat(s, [Begin(e)], Times(Doer(e), 7));
    InterleaveStep(s, [], Begin(e));
    assert [] + [Begin(e)] == [Begin(e)];
    BeginUndisturbed(s, e);
    FinishAlone(Next(s, Begin(e)), Doer(e), 7);
    FinishedIsHandle(s.fan, e);
  }

  function OneByOne(es: seq<Event>): seq<Step>
  {
    if es == [] then [] else OneByOne(es[..|es| - 1]) + Alone(es[|es| - 1])
  }

  /** So the histories of completed handlers are the interleavings in which no handler is
      interrupted, also while another thread stands still between two accesses. */
  lemma {:induction false} OneByOneIsRun(s: Shared, es: seq<Event>)
    requires s.lock.None? && forall i :: 0 <= i < |es| ==> At(s, Doer(es[i])).Idle?
    ensures Interleave(s, OneByOne(es)) == s.(fan := Run(s.fan, es))
  {
    if es != [] {
      var before, last := es[..|es| - 1], es[|es| - 1];
      OneByOneIsRun(s, before);
      InterleaveConcat(s, OneByOne(before), Alone(last));
      AloneIsHandle(s.(fan := Run(s.fan, before)), last);
    }
  }

  // ----- frequencies, however stale the cache -----

  predicate FreqsIn(ok: int -> bool, pc: Pc)
  {
    (pc.HoldsFreq? ==> ok(pc.read)) && (pc.WritesFreq? ==> ok(pc.freq))
  }

  /** Every frequency in the system, also those on their way, satisfies ok. */
  predicate Everywhere(ok: int -> bool, s: Shared)
  {
    && ok(s.fan.freq) && ok(s.fan.curFreq)
    && FreqsIn(ok, s.events) && FreqsIn(ok, s.main) && FreqsIn(ok, s.kernel)
  }

  /** From this frequency the buttons stay within ok. */
  predicate ButtonsStay(ok: int -> bool, freq: int)
  {
    ok(freq) ==> ok(Increment(freq)) && (freq > 0 ==> ok(Decrement(freq)))
  }

  /** The buttons and automatic mode stay within ok. */
  ghost predicate ClosedUnderSteps(ok: int -> bool)
  {
    (forall freq :: ButtonsStay(ok, freq)) && (forall temp :: ok(Band(temp)))
  }

  /** A set-freq message begins, with this frequency. */
  predicate Asks(a: Step, freq: int) { a == Begin(Message(SetFreq(freq))) }

  lemma FirstFreqs(ok: int -> bool, f: Fan, e: Event)
    requires ok(f.freq) && ok(f.curFreq) && (e.Message? && e.cmd.SetFreq? ==> ok(e.cmd.freq))
    ensures ok(FirstEffect(f, e).freq) && ok(FirstEffect(f, e).curFreq) && FreqsIn(ok, FirstPc(f, e))
  {
  }

  lemma LaterFreqs(ok: int -> bool, f: Fan, free: bool, pc: Pc)
    requires ButtonsStay(ok, f.curFreq) && (forall temp :: ok(Band(temp)))
    requires ok(f.freq) && ok(f.curFreq) && FreqsIn(ok, pc)
    ensures ok(Effect(f, pc).freq) && ok(Effect(f, pc).curFreq) && FreqsIn(ok, NextPc(f, free, pc))
  {
  }

  lemma FrequencyStep(ok: int -> bool, s: Shared, a: Step)
    requires ClosedUnderSteps(ok) && Everywhere(ok, s)
    requires forall freq :: Asks(a, freq) ==> ok(freq)
    ensures Everywhere(ok, Next(s, a))
  {
    match a
    case Begin(e) =>
      if e.Message? && e.cmd.SetFreq? { assert Asks(a, e.cmd.freq); }
      FirstFreqs(ok, s.fan, e);
    case Continue(who) =>
      assert ButtonsStay(ok, s.fan.curFreq);
      LaterFreqs(ok, s.fan, s.lock.None?, At(s, who));
  }

  lemma {:induction false} FrequencySafety(ok: int -> bool, s: Shared, steps: seq<Step>)
    requires ClosedUnderSteps(ok) && Everywhere(ok, s)
    requires forall i, freq :: 0 <= i < |steps| && Asks(steps[i], freq) ==> ok(freq)
    ensures Everywhere(ok, Interleave(s, steps))
  {
    if steps != [] {
      FrequencySafety(ok, s, steps[..|steps| - 1]);
      FrequencyStep(ok, Interleave(s, steps[..|steps| - 1]), steps[|steps| - 1]);
    }
  }

  /** Set-freq values on the ladder keep driver and cache on the ladder. */
  lemma LadderSafety(s: Shared, steps: seq<Step>)
    requires Quiet(s) && OnLadder(s.fan.freq) && OnLadder(s.fan.curFreq)
    requires forall i, freq :: 0 <= i < |steps| && Asks(steps[i], freq) ==> OnLadder(freq)
    ensures OnLadder(Interleave(s, steps).fan.freq) && OnLadder(Interleave(s, steps).fan.curFreq)
  {
    forall freq ensures ButtonsStay(OnLadder, freq) {
      if OnLadder(freq) { ButtonsUndoEachOther(freq); }
    }
    FrequencySafety(OnLadder, s, steps);
  }

  /** Non-negative set-freq values keep driver and cache non-negative. */
  lemma NonNegativeFrequencies(s: Shared, steps: seq<Step>)
    requires Quiet(s) && s.fan.freq >= 0 && s.fan.curFreq >= 0
    requires forall i, freq :: 0 <= i < |steps| && Asks(steps[i], freq) ==> freq >= 0
    ensures Interleave(s, steps).fan.freq >= 0 && Interleave(s, steps).fan.curFreq >= 0
  {
    FrequencySafety(freq => freq >= 0, s, steps);
  }

  // ----- when daemon and driver agree on the mode -----

  /** The thread's step passes cur_mode to set_mode. */
  predicate Passes(s: Shared, a: Step, who: Thread) { a == Continue(who) && At(s, who).Stored? }

  /** The step completes a write of the mode attribute. */
  predicate Completes(s: Shared, a: Step) { a.Continue? && At(s, a.who).WritesMode? }

  /** How many steps had been taken when the thread last passed cur_mode to set_mode. */
  function LastPass(s: Shared, steps: seq<Step>, who: Thread): (n: nat)
    ensures n <= |steps|
  {
    if steps == [] then 0
    else
      var before, last := steps[..|steps| - 1], steps[|steps| - 1];
      if Passes(Interleave(s, before), last, who) then |before| else LastPass(s, before, who)
  }

  /** How many steps had been taken when the argument of the latest completed write of the
      mode attribute was passed; 0 while none has completed. */
  function WrittenPass(s: Shared, steps: seq<Step>): (n: nat)
    ensures n <= |steps|
  {
    if steps == [] then 0
    else
      var before, last := steps[..|steps| - 1], steps[|steps| - 1];
      if Completes(Interleave(s, before), last) then LastPass(s, before, last.who) else WrittenPass(s, before)
  }

  /** The daemon's mode after the first n steps. */
  function ModeAfter(s: Shared, steps: seq<Step>, n: nat): int
    requires n <= |steps|
  {
    Interleave(s, steps[..n]).fan.curMode
  }

  predicate ModesAgree(s: Shared) { Agrees(s.fan) }

  lemma EarlierMode(s: Shared, steps: seq<Step>, a: Step, n: nat)
    requires n <= |steps|
    ensures ModeAfter(s, steps + [a], n) == ModeAfter(s, steps, n)
  {
    assert (steps + [a])[..n] == steps[..n];
  }

  /** Arguments under way and the driver's mode are what the daemon's mode was when they
      were passed. */
  predicate ModesArePassed(s: Shared, steps: seq<Step>)
  {
    var t := Interleave(s, steps);
    && (t.fan.mode <==> ModeAfter(s, steps, WrittenPass(s, steps)) != 0)
    && (forall who :: At(t, who).WritesMode? ==> At(t, who).mode == ModeAfter(s, steps, LastPass(s, steps, who)))
  }

  lemma ModeStepEffect(t: Shared, a: Step)
    ensures var u := Next(t, a);
      && u.fan.mode == (if Completes(t, a) then At(t, a.who).mode != 0 else t.fan.mode)
      && forall who :: At(u, who).WritesMode? ==>
           At(u, who) == if Passes(t, a, who) then WritesMode(t.fan.curMode) else At(t, who)
  {
    OthersStay(t, a);
    match a
    case Begin(e) => assert !FirstPc(t.fan, e).WritesMode? && FirstEffect(t.fan, e).mode == t.fan.mode;
    case Continue(who) => assert At(Next(t, a), who) == NextPc(t.fan, t.lock.None?, At(t, who));
  }

  lemma PassedStep(s: Shared, steps: seq<Step>, a: Step)
    requires ModesArePassed(s, steps)
    ensures ModesArePassed(s, steps + [a])
  {
    var t := Interleave(s, steps);
    assert (steps + [a])[..|steps|] == steps;
    ModeStepEffect(t, a);
    EarlierMode(s, steps, a, |steps|);
    assert steps[..|steps|] == steps;
    EarlierMode(s, steps, a, WrittenPass(s, steps));
    forall who
      ensures ModeAfter(s, steps + [a], LastPass(s, steps, who)) == ModeAfter(s, steps, LastPass(s, steps, who))
    {
      EarlierMode(s, steps, a, LastPass(s, steps, who));
    }
  }

  lemma {:induction false} AlwaysPassed(s: Shared, steps: seq<Step>)
    requires ModesAgree(s) && forall who :: !At(s, who).WritesMode?
    ensures ModesArePassed(s, steps)
  {
    if steps != [] {
      AlwaysPassed(s, steps[..|steps| - 1]);
      PassedStep(s, steps[..|steps| - 1], steps[|steps| - 1]);
      assert steps[..|steps| - 1] + [steps[|steps| - 1]] == steps;
    }
  }

  /** In every interleaving daemon and driver agree on the mode if and only if the daemon's
      mode is zero now exactly when it was zero as the argument of the latest completed
      write of the attribute was passed. */
  lemma ModesAgreeExactly(s: Shared, steps: seq<Step>)
    requires Quiet(s) && ModesAgree(s)
    ensures ModesAgree(Interleave(s, steps))
       <==> (ModeAfter(s, steps, WrittenPass(s, steps)) == 0 <==> Interleave(s, steps).fan.curMode == 0)
  {
    AlwaysPassed(s, steps);
  }

  predicate ChangesMode(pc: Pc) { pc.SawMode? || pc.Stored? || pc.WritesMode? }

  /** Two threads are in the middle of a mode change. */
  predicate Overlap(s: Shared)
  {
    exists x, y :: x != y && ChangesMode(At(s, x)) && ChangesMode(At(s, y))
  }

  predicate NoOverlap(s: Shared, steps: seq<Step>)
  {
    forall i :: 0 <= i <= |steps| ==> !Overlap(Interleave(s, steps[..i]))
  }

  predicate MustWrite(pc: Pc) { pc.Stored? || pc.WritesMode? }

  /** Nobody has stored a mode since the one that was written was passed, or the thread that
      did has yet to write. */
  predicate Current(s: Shared, steps: seq<Step>)
  {
    var t := Interleave(s, steps);
    && (forall who :: At(t, who).WritesMode? ==> At(t, who).mode == t.fan.curMode)
    && (ModeAfter(s, steps, WrittenPass(s, steps)) == t.fan.curMode
        || exists who :: MustWrite(At(t, who)))
  }

  lemma CurrentStep(s: Shared, steps: seq<Step>, a: Step)
    requires Current(s, steps) && ModesArePassed(s, steps)
    requires !Overlap(Interleave(s, steps)) && !Overlap(Interleave(s, steps + [a]))
    ensures Current(s, steps + [a])
  {
    var t := Interleave(s, steps);
    var u := Next(t, a);
    InterleaveStep(s, steps, a);
    assert (steps + [a])[..|steps|] == steps;
    EarlierMode(s, steps, a, WrittenPass(s, steps));
    if Completes(t, a) {
      EarlierMode(s, steps, a, LastPass(s, steps, a.who));
    }
    CurrentStepEffect(t, a);
    if u.fan.curMode != t.fan.curMode {
      assert MustWrite(At(u, Mover(a)));
    } else if !Completes(t, a) && exists who :: MustWrite(At(t, who)) {
      YetToWrite(t, a);
    }
  }

  lemma CurrentStepEffect(t: Shared, a: Step)
    requires !Overlap(t) && !Overlap(Next(t, a))
    requires forall who :: At(t, who).WritesMode? ==> At(t, who).mode == t.fan.curMode
    ensures var u := Next(t, a);
      && (forall who :: At(u, who).WritesMode? ==> At(u, who).mode == u.fan.curMode)
      && (Completes(t, a) ==> u.fan.curMode == t.fan.curMode == At(t, a.who).mode)
      && (u.fan.curMode != t.fan.curMode ==> At(u, Mover(a)).Stored?)
  {
    var u, w := Next(t, a), Mover(a);
    OthersStay(t, a);
    StoresMode(t, a);
    forall x | At(u, x).WritesMode? ensures At(u, x).mode == u.fan.curMode {
      if x != w {
        assert At(u, x) == At(t, x);
        assert ChangesMode(At(u, x)) && (At(u, w).Stored? ==> ChangesMode(At(u, w)));
      }
    }
  }

  lemma StoresMode(t: Shared, a: Step)
    ensures var u := Next(t, a);
      && (u.fan.curMode != t.fan.curMode ==> At(u, Mover(a)).Stored? && !Completes(t, a))
      && (At(u, Mover(a)).WritesMode? && At(u, Mover(a)) != At(t, Mover(a)) ==> At(u, Mover(a)).mode == u.fan.curMode)
  {
    match a
    case Begin(e) =>
      assert !FirstPc(t.fan, e).WritesMode?;
      assert FirstEffect(t.fan, e).curMode != t.fan.curMode ==> FirstPc(t.fan, e).Stored?;
    case Continue(who) =>
      assert At(Next(t, a), who) == NextPc(t.fan, t.lock.None?, At(t, who));
  }

  /** A thread that has yet to write stays so until it completes its write. */
  lemma YetToWrite(t: Shared, a: Step)
    requires exists who :: MustWrite(At(t, who))
    requires !Completes(t, a)
    ensures exists who :: MustWrite(At(Next(t, a), who))
  {
    var who :| MustWrite(At(t, who));
    OthersStay(t, a);
    assert MustWrite(At(Next(t, a), who));
  }

  lemma {:induction false} AlwaysCurrent(s: Shared, steps: seq<Step>)
    requires Quiet(s) && ModesAgree(s) && NoOverlap(s, steps)
    ensures Current(s, steps)
  {
    if steps != [] {
      var before, last := steps[..|steps| - 1], steps[|steps| - 1];
      assert forall i :: 0 <= i <= |before| ==> before[..i] == steps[..i];
      AlwaysCurrent(s, before);
      AlwaysPassed(s, before);
      assert before + [last] == steps && steps[..|steps|] == steps;
      CurrentStep(s, before, last);
    }
  }

  /** Mode changes that do not overlap leave daemon and driver in agreement. */
  lemma ModesAgreeWithoutOverlap(s: Shared, steps: seq<Step>)
    requires Quiet(s) && ModesAgree(s) && NoOverlap(s, steps) && Quiet(Interleave(s, steps))
    ensures ModesAgree(Interleave(s, steps))
  {
    AlwaysCurrent(s, steps);
    ModesAgreeExactly(s, steps);
    assert forall who :: At(Interleave(s, steps), who).Idle?;
  }

  /** A set-mode command that other handlers interrupt after its argument was passed. */
  function Interrupted(mode: int, es: seq<Event>): seq<Step>
  {
    Alone(Message(SetMode(mode)))[..2] + OneByOne(es) + Times(Main, 4)
  }

  lemma Opening(s: Shared, mode: int)
    requires Quiet(s)
    ensures Interleave(s, Alone(Message(SetMode(mode)))[..2])
         == s.(fan := s.fan.(curMode := mode), main := WritesMode(mode))
  {
    var begin := Begin(Message(SetMode(mode)));
    assert Alone(Message(SetMode(mode)))[..2] == [] + [begin] + [Continue(Main)];
    InterleaveStep(s, [], begin);
    InterleaveStep(s, [] + [begin], Continue(Main));
  }

  lemma Closing(s: Shared, mode: int)
    requires s.main == WritesMode(mode) && s.lock.None?
    ensures Interleave(s, Times(Main, 4))
         == s.(main := Idle, fan := s.fan.(mode := mode != 0, lcd := s.fan.lcd + [WriteMode(s.fan.curMode)]))
  {
    FinishAlone(s, Main, 4);
    ShowFinished(s.fan.(mode := mode != 0), ModeLine);
  }

  lemma ToggleStep(f: Fan, e: Event)
    requires !e.Message?
    ensures (Handle(f, e).curMode == 0 <==> f.curMode == 0) <==> e != Key3(true)
  {
  }

  lemma {:induction false} PressesToggle(f: Fan, es: seq<Event>)
    requires forall i :: 0 <= i < |es| ==> !es[i].Message?
    ensures (Run(f, es).curMode == 0 <==> f.curMode == 0) <==> Presses(es) % 2 == 0
  {
    if es != [] {
      PressesToggle(f, es[..|es| - 1]);
      ToggleStep(Run(f, es[..|es| - 1]), es[|es| - 1]);
    }
  }

  /** Whatever the buttons, timers and the kernel do meanwhile: it ends in agreement if and
      only if K3 is pressed an even number of times. */
  lemma InterruptedCommand(s: Shared, mode: int, es: seq<Event>)
    requires Quiet(s) && forall i :: 0 <= i < |es| ==> !es[i].Message?
    ensures var t := Interleave(s, Interrupted(mode, es));
      && Quiet(t) && (ModesAgree(t) <==> Presses(es) % 2 == 0)
      && t.fan.curMode == Run(s.fan.(curMode := mode), es).curMode
      && (0 <= mode <= 1 ==> t.fan.curMode == (mode + Presses(es)) % 2)
  {
    var opening := Alone(Message(SetMode(mode)))[..2];
    Opening(s, mode);
    var t := Interleave(s, opening);
    OneByOneIsRun(t, es);
    InterleaveConcat(s, opening, OneByOne(es));
    InterleaveConcat(s, opening + OneByOne(es), Times(Main, 4));
    Closing(t.(fan := Run(t.fan, es)), mode);
    PressesToggle(t.fan, es);
    if 0 <= mode <= 1 { K3Alternates(t.fan, es); }
  }

  /** So one press of K3 inside a command for manual mode makes them disagree, until the next
      mode command. */
  lemma OverlapBreaksAgreement(s: Shared)
    requires Quiet(s)
    ensures var t := Interleave(s, Interrupted(1, [Key3(true)])); Quiet(t) && !ModesAgree(t)
  {
    InterruptedCommand(s, 1, [Key3(true)]);
    assert [Key3(true)][..0] == [] && Presses([Key3(true)][..0]) == 0;
  }

  // ----- automatic mode under interleaving -----

  /** The thread writes the driver's frequency with its next access. */
  predicate AboutToWrite(s: Shared, who: Thread) { At(s, who).WritesFreq? }

  /** The thread will write a frequency without looking at cur_mode again. */
  predicate FreqUnderWay(pc: Pc) { pc.WritesFreq? || pc.SawTemp? }

  /** The daemon's own threads have no frequency under way and may not choose one. */
  predicate HandsOff(s: Shared)
  {
    s.fan.curMode != 1 && !FreqUnderWay(s.events) && !FreqUnderWay(s.main)
  }

  /** The latest reading the callback asked for in automatic mode. */
  function LatestAsked(s: Shared, steps: seq<Step>): Option<int>
  {
    if steps == [] then None
    else
      var before, last := steps[..|steps| - 1], steps[|steps| - 1];
      var t := Interleave(s, before);
      if last.Begin? && last.event.Tick? && t.kernel.Idle? && !t.fan.mode then last.event.reading
      else LatestAsked(s, before)
  }

  /** The frequency of the latest completed write of the callback: the band of the reading
      it asked for; before any, the frequency at first. */
  function LatestBand(s: Shared, steps: seq<Step>): int
  {
    if steps == [] then s.fan.freq
    else
      var before, last := steps[..|steps| - 1], steps[|steps| - 1];
      if last == Continue(Kernel) && AboutToWrite(Interleave(s, before), Kernel) && LatestAsked(s, before).Some?
      then Band(LatestAsked(s, before).value)
      else LatestBand(s, before)
  }

  /** The callback works on the reading it asked for last. */
  predicate CallbackKeeps(s: Shared, asked: Option<int>)
  {
    && (s.kernel.Idle? || s.kernel.SawTemp? || s.kernel.WritesFreq?)
    && (s.kernel.SawTemp? ==> s.kernel.reading == asked)
    && (s.kernel.WritesFreq? ==> asked.Some? && s.kernel.freq == Band(asked.value))
  }

  lemma CallbackStep(t: Shared, a: Step, asked: Option<int>)
    requires CallbackKeeps(t, asked)
    ensures var now := if a.Begin? && a.event.Tick? && t.kernel.Idle? && !t.fan.mode then a.event.reading else asked;
      CallbackKeeps(Next(t, a), now)
  {
  }

  lemma HandsOffStep(t: Shared, a: Step)
    requires HandsOff(t) && Next(t, a).fan.curMode != 1
    ensures HandsOff(Next(t, a))
    ensures Next(t, a).fan.freq == if a == Continue(Kernel) && AboutToWrite(t, Kernel) then t.kernel.freq else t.fan.freq
  {
  }

  /** The daemon's mode is not manual at any moment. */
  predicate StaysAutomatic(s: Shared, steps: seq<Step>)
  {
    forall i :: 0 <= i <= |steps| ==> Interleave(s, steps[..i]).fan.curMode != 1
  }

  lemma {:induction false} BandInvariant(s: Shared, steps: seq<Step>)
    requires HandsOff(s) && s.kernel.Idle? && StaysAutomatic(s, steps)
    ensures var t := Interleave(s, steps);
      HandsOff(t) && CallbackKeeps(t, LatestAsked(s, steps)) && t.fan.freq == LatestBand(s, steps)
  {
    if steps != [] {
      var before, last := steps[..|steps| - 1], steps[|steps| - 1];
      assert forall i :: 0 <= i <= |before| ==> before[..i] == steps[..i];
      BandInvariant(s, before);
      assert steps[..|steps|] == steps;
      CallbackStep(Interleave(s, before), last, LatestAsked(s, before));
      HandsOffStep(Interleave(s, before), last);
    }
  }

  /** In every interleaving without manual mode, from a moment when no button and no message
      has a frequency under way, the frequency is the band of the callback's latest
      completed reading, whatever is pressed and sent. */
  lemma BandSurvives(s: Shared, steps: seq<Step>)
    requires HandsOff(s) && s.kernel.Idle? && StaysAutomatic(s, steps)
    ensures Interleave(s, steps).fan.freq == LatestBand(s, steps)
  {
    BandInvariant(s, steps);
  }

  /** A set-freq that saw manual mode, with other handlers before it writes. */
  function Late(freq: int, es: seq<Event>): seq<Step>
  {
    [Begin(Message(SetFreq(freq)))] + OneByOne(es) + [Continue(Main)]
  }

  /** With one under way that is not so: the set-freq overwrites what they left, also the
      band that automatic mode chose meanwhile. */
  lemma LateSetFreq(s: Shared, freq: int, es: seq<Event>)
    requires Quiet(s) && s.fan.curMode == 1 && forall i :: 0 <= i < |es| ==> !es[i].Message?
    ensures var t := Interleave(s, Late(freq, es));
      Quiet(t) && t.fan == Run(s.fan, es).(freq := freq)
  {
    var begin := Begin(Message(SetFreq(freq)));
    var t := Next(s, begin);
    InterleaveStep(s, [], begin);
    assert [] + [begin] == [begin];
    OneByOneIsRun(t, es);
    InterleaveConcat(s, [begin], OneByOne(es));
    InterleaveStep(s, [begin] + OneByOne(es), Continue(Main));
  }

  /** So the band of a reading after K3 turned the mode survives a late set-freq if and only
      if it is the same frequency. */
  lemma LateSetFreqBreaksBand(s: Shared, freq: int, temp: int)
    requires Quiet(s) && s.fan.curMode == 1
    ensures var t := Interleave(s, Late(freq, [Key3(true)] + [Tick(Some(temp))]));
      Quiet(t) && !t.fan.mode && ModesAgree(t) && (t.fan.freq == Band(temp) <==> freq == Band(temp))
  {
    LateSetFreq(s, freq, [Key3(true)] + [Tick(Some(temp))]);
    RunStep(s.fan, [Key3(true)], Tick(Some(temp)));
    RunStep(s.fan, [], Key3(true));
    assert [] + [Key3(true)] == [Key3(true)];
  }

  // ----- what the display shows -----

  /** The mutex belongs to the one thread between lock and unlock. */
  predicate LockHeld(s: Shared)
  {
    forall who :: HoldsLcd(At(s, who)) <==> s.lock == Some(who)
  }

  /** The thread has changed what the line shows, or is going to, and not yet loaded it for
      the display. */
  predicate WillShow(pc: Pc, line: LcdLine)
  {
    || pc == WantsLcd(line) || pc == HasLcd(line)
    || match line
       case FreqLine => pc.HoldsFreq?
       case TempLine => pc.HoldsTemp?
       case ModeLine => pc.Pressed3? || pc.SawMode? || pc.Stored? || pc.WritesMode?
  }

  /** Some thread will write the line, or the last that writes it is or was up to date. */
  predicate LineShown(s: Shared, line: LcdLine)
  {
    || (exists who :: WillShow(At(s, who), line))
    || ((forall who :: At(s, who).Shows? && LineOf(At(s, who).call) == Some(line) ==>
           At(s, who).call == CallFor(s.fan, line))
        && (LastCall(s.fan.lcd, line) == Some(CallFor(s.fan, line))
            || exists who :: At(s, who) == Shows(CallFor(s.fan, line))))
  }

  lemma LockStep(s: Shared, a: Step)
    requires LockHeld(s)
    ensures LockHeld(Next(s, a))
  {
    OthersStay(s, a);
  }

  lemma FirstOfLine(f: Fan, e: Event, line: LcdLine)
    ensures FirstEffect(f, e).lcd == f.lcd && !FirstPc(f, e).Shows?
    ensures CallFor(FirstEffect(f, e), line) != CallFor(f, line) ==> e.Message? && WillShow(FirstPc(f, e), line)
  {
  }

  lemma BeginShown(s: Shared, e: Event, line: LcdLine)
    requires LineShown(s, line)
    ensures LineShown(Next(s, Begin(e)), line)
  {
    var u := Next(s, Begin(e));
    OthersStay(s, Begin(e));
    FirstOfLine(s.fan, e, line);
    if CallFor(u.fan, line) != CallFor(s.fan, line) {
      assert WillShow(At(u, Doer(e)), line);
    }
    forall who | !At(s, who).Idle? ensures At(u, who) == At(s, who) {}
  }

  lemma PutShown(s: Shared, who: Thread, line: LcdLine)
    requires LockHeld(s) && LineShown(s, line) && At(s, who).Shows?
    ensures LineShown(Next(s, Continue(who)), line)
  {
    OthersStay(s, Continue(who));
    LastCallAppend(s.fan.lcd, At(s, who).call, line);
  }

  lemma NextOfLine(f: Fan, free: bool, pc: Pc, line: LcdLine)
    requires !pc.Shows?
    ensures Effect(f, pc).lcd == f.lcd
    ensures var g, next := Effect(f, pc), NextPc(f, free, pc);
      && (CallFor(g, line) != CallFor(f, line) || WillShow(pc, line) ==>
            WillShow(next, line) || next == Shows(CallFor(g, line)))
      && (next.Shows? && LineOf(next.call) == Some(line) ==> next.call == CallFor(g, line))
      && (next.Shows? ==> pc.HasLcd? && g == f)
  {
  }

  lemma ContinueShown(s: Shared, who: Thread, line: LcdLine)
    requires LockHeld(s) && LineShown(s, line)
    ensures LineShown(Next(s, Continue(who)), line)
  {
    var u := Next(s, Continue(who));
    if At(s, who).Shows? {
      PutShown(s, who, line);
    } else {
      OthersStay(s, Continue(who));
      NextOfLine(s.fan, s.lock.None?, At(s, who), line);
      assert At(u, who) == NextPc(s.fan, s.lock.None?, At(s, who)) && u.fan == Effect(s.fan, At(s, who));
      StillShown(s, u, who, line);
    }
  }

  /** A thread that has not put its call yet keeps the line as it is or takes it on. */
  lemma StillShown(s: Shared, u: Shared, who: Thread, line: LcdLine)
    requires LockHeld(s) && LineShown(s, line) && !At(s, who).Shows? && u.fan.lcd == s.fan.lcd
    requires forall x :: x != who ==> At(u, x) == At(s, x)
    requires CallFor(u.fan, line) != CallFor(s.fan, line) || WillShow(At(s, who), line) ==>
      WillShow(At(u, who), line) || At(u, who) == Shows(CallFor(u.fan, line))
    requires At(u, who).Shows? ==> At(s, who).HasLcd? && u.fan == s.fan
    requires At(u, who).Shows? && LineOf(At(u, who).call) == Some(line) ==> At(u, who).call == CallFor(u.fan, line)
    ensures LineShown(u, line)
  {
  }

  lemma {:induction false} AlwaysShown(s: Shared, steps: seq<Step>, line: LcdLine)
    requires LockHeld(s) && LineShown(s, line)
    ensures LockHeld(Interleave(s, steps)) && LineShown(Interleave(s, steps), line)
  {
    if steps != [] {
      var t := Interleave(s, steps[..|steps| - 1]);
      AlwaysShown(s, steps[..|steps| - 1], line);
      LockStep(t, steps[|steps| - 1]);
      match steps[|steps| - 1]
      case Begin(e) => BeginShown(t, e, line);
      case Continue(who) => ContinueShown(t, who, line);
    }
  }

  lemma {:induction false} AlwaysLocked(s: Shared, steps: seq<Step>)
    requires LockHeld(s)
    ensures LockHeld(Interleave(s, steps))
  {
    if steps != [] {
      AlwaysLocked(s, steps[..|steps| - 1]);
      LockStep(Interleave(s, steps[..|steps| - 1]), steps[|steps| - 1]);
    }
  }

  /** A handler that writes the line begins at the i-th step. */
  predicate BeginsLine(s: Shared, steps: seq<Step>, i: nat, line: LcdLine)
  {
    && i < |steps| && steps[i].Begin? && Writes(steps[i].event, line)
    && At(Interleave(s, steps[..i]), Doer(steps[i].event)).Idle?
  }

  /** In every interleaving, whenever the threads rest: a line that was up to date or that a
      handler began to write shows what the daemon holds. */
  lemma LineFollowsThreads(s: Shared, steps: seq<Step>, line: LcdLine)
    requires Quiet(s) && Quiet(Interleave(s, steps))
    requires LastCall(s.fan.lcd, line) == Some(CallFor(s.fan, line)) || exists i :: BeginsLine(s, steps, i, line)
    ensures var f := Interleave(s, steps).fan; LastCall(f.lcd, line) == Some(CallFor(f, line))
  {
    assert forall who :: At(s, who).Idle?;
    if LastCall(s.fan.lcd, line) == Some(CallFor(s.fan, line)) {
      AlwaysShown(s, steps, line);
    } else {
      var i :| BeginsLine(s, steps, i, line);
      ShownFrom(s, steps, i, line);
    }
    assert forall who :: At(Interleave(s, steps), who).Idle?;
  }

  lemma ShownFrom(s: Shared, steps: seq<Step>, i: nat, line: LcdLine)
    requires Quiet(s) && BeginsLine(s, steps, i, line)
    ensures LineShown(Interleave(s, steps), line)
  {
    var t := Interleave(s, steps[..i]);
    assert forall who :: At(s, who).Idle?;
    AlwaysLocked(s, steps[..i]);
    LockStep(t, steps[i]);
    OthersStay(t, steps[i]);
    assert WillShow(At(Next(t, steps[i]), Doer(steps[i].event)), line);
    InterleaveStep(s, steps[..i], steps[i]);
    assert steps[..i] + [steps[i]] == steps[..i + 1];
    AlwaysShown(Next(t, steps[i]), steps[i + 1..], line);
    InterleaveConcat(s, steps[..i + 1], steps[i + 1..]);
    assert steps[..i + 1] + steps[i + 1..] == steps;
  }

  /** The thread is about to write the line or to put its text there. */
  predicate InLine(pc: Pc, line: LcdLine)
  {
    WillShow(pc, line) || (pc.Shows? && LineOf(pc.call) == Some(line))
  }

  predicate Untouched(s: Shared, line: LcdLine)
  {
    forall who :: !InLine(At(s, who), line)
  }

  lemma FirstElsewhere(f: Fan, e: Event, line: LcdLine)
    requires !Writes(e, line)
    ensures !InLine(FirstPc(f, e), line) && CallFor(FirstEffect(f, e), line) == CallFor(f, line)
    ensures FirstEffect(f, e).lcd == f.lcd
  {
  }

  lemma NextElsewhere(f: Fan, free: bool, pc: Pc, line: LcdLine)
    requires !InLine(pc, line)
    ensures !InLine(NextPc(f, free, pc), line) && CallFor(Effect(f, pc), line) == CallFor(f, line)
    ensures LastCall(Effect(f, pc).lcd, line) == LastCall(f.lcd, line)
  {
    if pc.Shows? { LastCallAppend(f.lcd, pc.call, line); }
  }

  lemma UntouchedStep(s: Shared, a: Step, line: LcdLine)
    requires Untouched(s, line) && !(a.Begin? && Writes(a.event, line) && At(s, Doer(a.event)).Idle?)
    ensures var u := Next(s, a);
      && Untouched(u, line) && CallFor(u.fan, line) == CallFor(s.fan, line)
      && LastCall(u.fan.lcd, line) == LastCall(s.fan.lcd, line)
  {
    var u, w := Next(s, a), Mover(a);
    OthersStay(s, a);
    match a
    case Begin(e) => if !Writes(e, line) { FirstElsewhere(s.fan, e, line); }
    case Continue(who) => NextElsewhere(s.fan, s.lock.None?, At(s, who), line);
    assert !InLine(At(s, w), line);
    assert !InLine(At(u, w), line);
    forall who ensures !InLine(At(u, who), line) {
      assert !InLine(At(s, who), line);
    }
  }

  lemma {:induction false} UntouchedRun(s: Shared, steps: seq<Step>, line: LcdLine)
    requires Untouched(s, line) && forall i :: !BeginsLine(s, steps, i, line)
    ensures var t := Interleave(s, steps);
      && Untouched(t, line) && CallFor(t.fan, line) == CallFor(s.fan, line)
      && LastCall(t.fan.lcd, line) == LastCall(s.fan.lcd, line)
  {
    if steps != [] {
      var before, n := steps[..|steps| - 1], |steps| - 1;
      forall i: nat ensures !BeginsLine(s, before, i, line) {
        assert !BeginsLine(s, steps, i, line);
        assert i < |before| ==> before[..i] == steps[..i];
      }
      UntouchedRun(s, before, line);
      assert !BeginsLine(s, steps, n, line);
      UntouchedStep(Interleave(s, before), steps[n], line);
    }
  }

  /** In every interleaving, whenever the threads rest, no line is stale. */
  lemma UpToDateInterleaved(s: Shared, steps: seq<Step>)
    requires Quiet(s) && UpToDate(s.fan) && Quiet(Interleave(s, steps))
    ensures UpToDate(Interleave(s, steps).fan)
  {
    var f := Interleave(s, steps).fan;
    assert forall who :: At(s, who).Idle?;
    forall line ensures LastCall(f.lcd, line) in {None, Some(CallFor(f, line))} {
      assert LastCall(s.fan.lcd, line) in {None, Some(CallFor(s.fan, line))};
      if LastCall(s.fan.lcd, line).Some? || exists i :: BeginsLine(s, steps, i, line) {
        LineFollowsThreads(s, steps, line);
      } else {
        UntouchedRun(s, steps, line);
      }
    }
  }

  /** The last mode written is the daemon's own, even where the driver has another one. */
  lemma DisplayedModeInterleaved(s: Shared, steps: seq<Step>)
    requires Quiet(s) && LastMode(s.fan.lcd) == Some(s.fan.curMode) && Quiet(Interleave(s, steps))
    ensures LastMode(Interleave(s, steps).fan.lcd) == Some(Interleave(s, steps).fan.curMode)
  {
    LineFollowsThreads(s, steps, ModeLine);
  }

  /** Once a frequency handler has begun, the last frequency written is the daemon's, and
      likewise for the temperature. */
  lemma DisplayedNumbersInterleaved(s: Shared, steps: seq<Step>, i: nat)
    requires Quiet(s) && Quiet(Interleave(s, steps))
    ensures var f := Interleave(s, steps).fan;
      && (BeginsLine(s, steps, i, FreqLine) ==> LastCall(f.lcd, FreqLine) == Some(WriteFreq(f.curFreq)))
      && (BeginsLine(s, steps, i, TempLine) ==> LastCall(f.lcd, TempLine) == Some(WriteTemp(f.curTemp)))
  {
    if BeginsLine(s, steps, i, FreqLine) { LineFollowsThreads(s, steps, FreqLine); }
    if BeginsLine(s, steps, i, TempLine) { LineFollowsThreads(s, steps, TempLine); }
  }

  /** Nothing written on the display is ever forgotten from the history. */
  lemma {:induction false} LcdKept(s: Shared, steps: seq<Step>)
    ensures s.fan.lcd <= Interleave(s, steps).fan.lcd
  {
    if steps != [] {
      LcdKept(s, steps[..|steps| - 1]);
      LcdKeptStep(Interleave(s, steps[..|steps| - 1]), steps[|steps| - 1]);
    }
  }

  lemma LcdKeptStep(s: Shared, a: Step)
    ensures s.fan.lcd <= Next(s, a).fan.lcd
  {
    match a
    case Begin(e) => assert FirstEffect(s.fan, e).lcd == s.fan.lcd;
    case Continue(who) => assert s.fan.lcd <= Effect(s.fan, At(s, who)).lcd;
  }
}
