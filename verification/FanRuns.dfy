/** What holds over every history of completed handlers. */
module FanRuns {
  import opened Wrappers
  import opened Numerals
  import opened Commands
  import opened FanSpec

  // ----- mode agreement -----

  /** The daemon's copy of the mode and the driver's mode say the same. */
  predicate Agrees(s: Fan) { s.mode <==> s.curMode != 0 }

  predicate IsModeCommand(e: Event)
  {
    e == Key3(true) || (e.Message? && e.cmd.SetMode?)
  }

  predicate HasModeCommand(es: seq<Event>) { exists i :: 0 <= i < |es| && IsModeCommand(es[i]) }

  lemma ModeStep(s: Fan, e: Event)
    ensures Agrees(Handle(s, e)) <==> Agrees(s) || IsModeCommand(e)
  {
  }

  /** Completed mode commands bring daemon and driver together, nothing drives them apart. */
  lemma {:induction false} ModeAgreement(s: Fan, es: seq<Event>)
    ensures Agrees(Run(s, es)) <==> Agrees(s) || HasModeCommand(es)
  {
    if es != [] {
      var before, last := es[..|es| - 1], es[|es| - 1];
      ModeAgreement(s, before);
      ModeStep(Run(s, before), last);
      if HasModeCommand(before) {
        var i :| 0 <= i < |before| && IsModeCommand(before[i]);
        assert IsModeCommand(es[i]);
      }
      assert IsModeCommand(last) ==> HasModeCommand(es);
    }
  }

  /** From start-up, daemon and driver agree on the mode exactly when the mode could be read,
      was automatic anyway, or has been commanded since. */
  lemma ModeAgreementFromStart(freq: int, mode: bool, modeReadable: bool, es: seq<Event>)
    ensures Agrees(Run(Start(freq, mode, modeReadable), es))
       <==> modeReadable || !mode || HasModeCommand(es)
  {
    ModeAgreement(Start(freq, mode, modeReadable), es);
  }

  lemma CurModeStep(s: Fan, e: Event)
    ensures e.Message? && e.cmd.SetMode? ==>
      Handle(s, e).curMode == e.cmd.mode && Handle(s, e).mode == (e.cmd.mode != 0)
    ensures !IsModeCommand(e) ==> Handle(s, e).curMode == s.curMode && Handle(s, e).mode == s.mode
  {
  }

  /** Read your writes: after set-mode v and no later mode command, the mode in force is v,
      and the reply to get-mode reads back as v. */
  lemma {:induction false} ReadYourWrites(s: Fan, es: seq<Event>, i: nat, v: int)
    requires i < |es| && es[i] == Message(SetMode(v))
    requires forall j :: i < j < |es| ==> !IsModeCommand(es[j])
    ensures Run(s, es).curMode == v && Run(s, es).mode == (v != 0)
    ensures 0 <= v <= 1 ==> ScanInt(Reply(Run(s, es), GetMode).value) == Some(v)
    decreases |es|
  {
    if i < |es| - 1 {
      ReadYourWrites(s, es[..|es| - 1], i, v);
    }
    CurModeStep(Run(s, es[..|es| - 1]), es[|es| - 1]);
    if 0 <= v <= 1 { ScanPrinted(v); }
  }

  // ----- which mode -----

  /** How often K3 is pressed. */
  function Presses(es: seq<Event>): nat
  {
    if es == [] then 0 else Presses(es[..|es| - 1]) + if es[|es| - 1] == Key3(true) then 1 else 0
  }

  predicate IsSetMode(e: Event) { e.Message? && e.cmd.SetMode? }

  /** Without a set-mode, K3 alternates between the modes 0 and 1. */
  lemma {:induction false} K3Alternates(s: Fan, es: seq<Event>)
    requires 0 <= s.curMode <= 1 && forall i :: 0 <= i < |es| ==> !IsSetMode(es[i])
    ensures Run(s, es).curMode == (s.curMode + Presses(es)) % 2
  {
    if es != [] {
      K3Alternates(s, es[..|es| - 1]);
      K3Step(Run(s, es[..|es| - 1]), es[|es| - 1]);
    }
  }

  lemma K3Step(s: Fan, e: Event)
    ensures !IsModeCommand(e) ==> Handle(s, e).curMode == s.curMode
    ensures e == Key3(true) ==> Handle(s, e).curMode == (if s.curMode == 0 then 1 else 0)
    ensures IsSetMode(e) ==> Handle(s, e).curMode == e.cmd.mode
  {
  }

  /** After the last set-mode the mode is its value or the other one, by the parity of the
      K3 presses since. */
  lemma ModeSinceSetMode(s: Fan, before: seq<Event>, v: int, since: seq<Event>)
    requires 0 <= v <= 1 && forall i :: 0 <= i < |since| ==> !IsSetMode(since[i])
    ensures Run(s, before + [Message(SetMode(v))] + since).curMode == (v + Presses(since)) % 2
  {
    RunConcat(s, before + [Message(SetMode(v))], since);
    RunStep(s, before, Message(SetMode(v)));
    K3Alternates(Run(s, before + [Message(SetMode(v))]), since);
  }

  /** As long as only the modes 0 and 1 are commanded, there are no others: every K3 press
      leads from automatic to manual mode or back. */
  lemma {:induction false} ModesFromStart(freq: int, mode: bool, modeReadable: bool, es: seq<Event>)
    requires forall i :: 0 <= i < |es| && IsSetMode(es[i]) ==> 0 <= es[i].cmd.mode <= 1
    ensures 0 <= Run(Start(freq, mode, modeReadable), es).curMode <= 1
    ensures (forall i :: 0 <= i < |es| ==> !IsSetMode(es[i])) ==>
      Run(Start(freq, mode, modeReadable), es).curMode == ((if modeReadable && mode then 1 else 0) + Presses(es)) % 2
  {
    if es != [] {
      var before, last := es[..|es| - 1], es[|es| - 1];
      assert forall i :: 0 <= i < |before| ==> before[i] == es[i];
      ModesFromStart(freq, mode, modeReadable, before);
      K3Step(Run(Start(freq, mode, modeReadable), before), last);
    }
  }

  /** K3 in automatic mode gives the buttons their effect: the fresh presses that follow
      move along the ladder from where automatic mode left the frequency. */
  lemma K3ThenLadder(s: Fan, es: seq<Event>, n: nat)
    requires s.curMode == 0 && s.freq == Rung(n)
    requires FreshPresses(es) && forall i :: 0 <= i < |es| ==> IsManualTraffic(es[i])
    ensures Run(Handle(s, Key3(true)), es).freq == Rung(Counter(n, es))
  {
    K3Step(s, Key3(true));
    ModeStep(s, Key3(true));
    LadderCounts(Handle(s, Key3(true)), es, n);
  }

  /** And set-freq is accepted and read back, where it was refused before. */
  lemma K3ThenSetFreq(s: Fan, freq: int, es: seq<Event>, j: nat)
    requires s.curMode == 0
    requires j < |es| && es[j] == FreqReady && forall k :: j < k < |es| ==> es[k] != FreqReady
    requires forall k :: 0 <= k < |es| ==> LeavesFreq(es[k])
    ensures Reply(s, SetFreq(freq)) == Some("AUTO") && Reply(Handle(s, Key3(true)), SetFreq(freq)) == Some("OK")
    ensures ScanInt(Reply(Run(Handle(Handle(s, Key3(true)), Message(SetFreq(freq))), es), GetFreq).value) == Some(freq)
  {
    K3Step(s, Key3(true));
    ModeStep(s, Key3(true));
    RefusedSetFreq(s, freq);
    RefusedSetFreq(Handle(s, Key3(true)), freq);
    SetFreqReadsBack(Handle(s, Key3(true)), freq, es, j);
  }

  /** In any other mode, which only a message not from the client can set, nothing moves the
      frequency: no button, no set-freq, no reading. */
  lemma {:induction false} OtherModesFreeze(s: Fan, es: seq<Event>)
    requires s.curMode != 0 && s.curMode != 1 && s.mode && forall i :: 0 <= i < |es| ==> !IsModeCommand(es[i])
    ensures var t := Run(s, es); t.freq == s.freq && t.curMode == s.curMode && t.mode
  {
    if es != [] {
      OtherModesFreeze(s, es[..|es| - 1]);
      OtherModeStep(Run(s, es[..|es| - 1]), es[|es| - 1]);
    }
  }

  lemma OtherModeStep(s: Fan, e: Event)
    requires s.curMode != 0 && s.curMode != 1 && s.mode && !IsModeCommand(e)
    ensures var t := Handle(s, e); t.freq == s.freq && t.curMode == s.curMode && t.mode
  {
  }

  // ----- what the other replies mean -----

  /** get-freq reads as the driver's frequency at the last cache refresh, however stale. */
  lemma {:induction false} GetFreqReadsLastRefresh(s: Fan, es: seq<Event>, i: nat)
    requires i < |es| && es[i] == FreqReady
    requires forall j :: i < j < |es| ==> es[j] != FreqReady
    ensures ScanInt(Reply(Run(s, es), GetFreq).value) == Some(Run(s, es[..i]).freq)
    decreases |es|
  {
    var before, last := es[..|es| - 1], es[|es| - 1];
    if i < |before| {
      GetFreqReadsLastRefresh(s, before, i);
      assert before[..i] == es[..i];
    }
    CacheStep(Run(s, before), last);
    ScanPrinted(Run(s, es).curFreq);
    ScanPrinted(Run(s, before).curFreq);
  }

  /** get-temp reads as the last reading, 0 if that failed. */
  lemma {:induction false} GetTempReadsLastReading(s: Fan, es: seq<Event>, i: nat)
    requires i < |es| && es[i].TempReady?
    requires forall j :: i < j < |es| ==> !es[j].TempReady?
    ensures ScanInt(Reply(Run(s, es), GetTemp).value)
         == Some(if es[i].temp.Some? then es[i].temp.value else 0)
    decreases |es|
  {
    var before, last := es[..|es| - 1], es[|es| - 1];
    if i < |before| {
      GetTempReadsLastReading(s, before, i);
    }
    CacheStep(Run(s, before), last);
    ScanPrinted(Run(s, es).curTemp);
    ScanPrinted(Run(s, before).curTemp);
  }

  lemma CacheStep(s: Fan, e: Event)
    ensures Handle(s, e).curFreq == if e == FreqReady then s.freq else s.curFreq
    ensures Handle(s, e).curTemp
         == if e.TempReady? then (if e.temp.Some? then e.temp.value else 0) else s.curTemp
  {
  }

  lemma ScanPrinted(n: int)
    ensures ScanInt(Decimal(n)) == Some(n)
  {
    ScanIntOfDecimal(n, "");
    assert "" + Decimal(n) == Decimal(n);
  }

  /** Events in manual mode that leave the driver's frequency alone. */
  predicate LeavesFreq(e: Event)
  {
    IsManualTraffic(e) && !IsFreqPress(e)
  }

  /** A set-freq answered OK while daemon and driver agree is what get-freq reads after the
      next refresh, if nothing else sets the frequency or changes the mode. */
  lemma SetFreqReadsBack(s: Fan, freq: int, es: seq<Event>, j: nat)
    requires Agrees(s) && Reply(s, SetFreq(freq)) == Some("OK")
    requires j < |es| && es[j] == FreqReady && forall k :: j < k < |es| ==> es[k] != FreqReady
    requires forall k :: 0 <= k < |es| ==> LeavesFreq(es[k])
    ensures ScanInt(Reply(Run(Handle(s, Message(SetFreq(freq))), es), GetFreq).value) == Some(freq)
  {
    var t := Handle(s, Message(SetFreq(freq)));
    RefusedSetFreq(s, freq);
    FreqLeft(t, es[..j]);
    GetFreqReadsLastRefresh(t, es, j);
  }

  lemma {:induction false} FreqLeft(s: Fan, es: seq<Event>)
    requires s.mode && forall k :: 0 <= k < |es| ==> LeavesFreq(es[k])
    ensures Run(s, es).mode && Run(s, es).freq == s.freq
  {
    if es != [] {
      FreqLeft(s, es[..|es| - 1]);
      FreqLeftStep(Run(s, es[..|es| - 1]), es[|es| - 1]);
    }
  }

  lemma FreqLeftStep(s: Fan, e: Event)
    requires s.mode && LeavesFreq(e)
    ensures Handle(s, e).mode && Handle(s, e).freq == s.freq
  {
  }

  /** A set-freq answered AUTO changes nothing at all. */
  lemma RefusedSetFreq(s: Fan, freq: int)
    ensures Reply(s, SetFreq(freq)) == Some("AUTO") <==> s.curMode != 1
    ensures Reply(s, SetFreq(freq)) == Some("OK") <==> s.curMode == 1
    ensures Reply(s, SetFreq(freq)) == Some("AUTO") ==> Handle(s, Message(SetFreq(freq))) == s
  {
    assert |"OK"| != |"AUTO"|;
  }

  // ----- what the display was told -----

  /** The rows of the display that follow a variable of the daemon. */
  datatype LcdLine = FreqLine | TempLine | ModeLine

  function LineOf(call: LcdCall): Option<LcdLine>
  {
    match call
    case WriteHeader => None
    case WriteMode(_) => Some(ModeLine)
    case WriteFreq(_) => Some(FreqLine)
    case WriteTemp(_) => Some(TempLine)
  }

  /** The call that brings a line up to date. */
  function CallFor(f: Fan, line: LcdLine): (call: LcdCall)
    ensures LineOf(call) == Some(line)
  {
    match line
    case FreqLine => WriteFreq(f.curFreq)
    case TempLine => WriteTemp(f.curTemp)
    case ModeLine => WriteMode(f.curMode)
  }

  /** The last call that wrote a line. */
  function LastCall(lcd: seq<LcdCall>, line: LcdLine): (r: Option<LcdCall>)
    ensures r.Some? ==> LineOf(r.value) == Some(line)
  {
    if lcd == [] then None
    else if LineOf(lcd[|lcd| - 1]) == Some(line) then Some(lcd[|lcd| - 1])
    else LastCall(lcd[..|lcd| - 1], line)
  }

  lemma LastCallAppend(lcd: seq<LcdCall>, call: LcdCall, line: LcdLine)
    ensures LastCall(lcd + [call], line) == if LineOf(call) == Some(line) then Some(call) else LastCall(lcd, line)
  {
    assert (lcd + [call])[..|lcd|] == lcd;
  }

  /** The last mode written on the display. */
  function LastMode(lcd: seq<LcdCall>): Option<int>
  {
    var call := LastCall(lcd, ModeLine);
    if call.Some? then Some(call.value.mode) else None
  }

  /** The event writes the line. */
  predicate Writes(e: Event, line: LcdLine)
  {
    match line
    case FreqLine => e.FreqReady?
    case TempLine => e.TempReady?
    case ModeLine => IsModeCommand(e)
  }

  /** An event writes the line it changes, from the new value. */
  lemma LcdStep(s: Fan, e: Event, line: LcdLine)
    ensures var t := Handle(s, e);
      && (Writes(e, line) ==> t.lcd == s.lcd + [CallFor(t, line)])
      && (!Writes(e, line) ==> CallFor(t, line) == CallFor(s, line))
  {
  }

  lemma LcdLeft(s: Fan, e: Event)
    requires !Writes(e, FreqLine) && !Writes(e, TempLine) && !Writes(e, ModeLine)
    ensures Handle(s, e).lcd == s.lcd
  {
  }

  lemma WrittenStep(s: Fan, e: Event, line: LcdLine)
    ensures var t := Handle(s, e);
      if Writes(e, line) then LastCall(t.lcd, line) == Some(CallFor(t, line))
      else LastCall(t.lcd, line) == LastCall(s.lcd, line) && CallFor(t, line) == CallFor(s, line)
  {
    var t := Handle(s, e);
    LcdStep(s, e, line);
    if other :| Writes(e, other) {
      LcdStep(s, e, other);
      LastCallAppend(s.lcd, CallFor(t, other), line);
    } else {
      LcdLeft(s, e);
    }
  }

  predicate AnyWrites(es: seq<Event>, line: LcdLine)
  {
    exists i :: 0 <= i < |es| && Writes(es[i], line)
  }

  lemma WritesBefore(es: seq<Event>, line: LcdLine)
    requires AnyWrites(es, line) && !Writes(es[|es| - 1], line)
    ensures AnyWrites(es[..|es| - 1], line)
  {
    var i :| 0 <= i < |es| && Writes(es[i], line);
    assert es[..|es| - 1][i] == es[i];
  }

  /** A line that was up to date stays so, and its first event brings it up to date. */
  lemma {:induction false} LineFollows(s: Fan, es: seq<Event>, line: LcdLine)
    requires LastCall(s.lcd, line) == Some(CallFor(s, line)) || AnyWrites(es, line)
    ensures LastCall(Run(s, es).lcd, line) == Some(CallFor(Run(s, es), line))
    decreases |es|
  {
    if es != [] {
      var before, last := es[..|es| - 1], es[|es| - 1];
      WrittenStep(Run(s, before), last, line);
      if !Writes(last, line) {
        if AnyWrites(es, line) { WritesBefore(es, line); }
        LineFollows(s, before, line);
      }
    }
  }

  /** Every line that was ever written shows what the daemon holds. */
  predicate UpToDate(f: Fan)
  {
    forall line :: LastCall(f.lcd, line) in {None, Some(CallFor(f, line))}
  }

  lemma UpToDateStep(s: Fan, e: Event)
    requires UpToDate(s)
    ensures UpToDate(Handle(s, e))
  {
    forall line ensures LastCall(Handle(s, e).lcd, line) in {None, Some(CallFor(Handle(s, e), line))} {
      WrittenStep(s, e, line);
    }
  }

  /** No history makes a line stale. */
  lemma {:induction false} AlwaysUpToDate(s: Fan, es: seq<Event>)
    requires UpToDate(s)
    ensures UpToDate(Run(s, es))
  {
    if es != [] {
      AlwaysUpToDate(s, es[..|es| - 1]);
      UpToDateStep(Run(s, es[..|es| - 1]), es[|es| - 1]);
    }
  }

  lemma StartUpToDate(freq: int, mode: bool, modeReadable: bool)
    ensures UpToDate(Start(freq, mode, modeReadable))
    ensures LastMode(Start(freq, mode, modeReadable).lcd) == Some(Start(freq, mode, modeReadable).curMode)
  {
    var s := Start(freq, mode, modeReadable);
    forall line ensures LastCall(s.lcd, line) == if line == ModeLine then Some(CallFor(s, line)) else None {
      LastCallAppend([], WriteHeader, line);
      LastCallAppend([WriteHeader], WriteMode(s.curMode), line);
      assert [] + [WriteHeader] == [WriteHeader] && [WriteHeader] + [WriteMode(s.curMode)] == s.lcd;
    }
  }

  /** After any history with a frequency event the last frequency written on the display is
      the daemon's, and after any with a temperature event the last temperature. */
  lemma DisplayedNumbers(s: Fan, es: seq<Event>, i: nat)
    requires i < |es|
    ensures es[i] == FreqReady ==> LastCall(Run(s, es).lcd, FreqLine) == Some(WriteFreq(Run(s, es).curFreq))
    ensures es[i].TempReady? ==> LastCall(Run(s, es).lcd, TempLine) == Some(WriteTemp(Run(s, es).curTemp))
  {
    if Writes(es[i], FreqLine) { LineFollows(s, es, FreqLine); }
    if Writes(es[i], TempLine) { LineFollows(s, es, TempLine); }
  }

  /** The last mode written on the display is always the daemon's mode. */
  lemma DisplayedMode(s: Fan, es: seq<Event>)
    requires LastMode(s.lcd) == Some(s.curMode)
    ensures LastMode(Run(s, es).lcd) == Some(Run(s, es).curMode)
  {
    LineFollows(s, es, ModeLine);
  }

  lemma LcdGrowsStep(s: Fan, e: Event)
    ensures s.lcd <= Handle(s, e).lcd
  {
  }

  /** Nothing written on the display is ever forgotten from the history. */
  lemma {:induction false} LcdGrows(s: Fan, es: seq<Event>)
    ensures s.lcd <= Run(s, es).lcd
  {
    if es != [] {
      LcdGrows(s, es[..|es| - 1]);
      LcdGrowsStep(Run(s, es[..|es| - 1]), es[|es| - 1]);
    }
  }

  // ----- automatic mode -----

  predicate IsReading(e: Event) { e.Tick? && e.reading.Some? }

  predicate AutoSince(s: Fan, es: seq<Event>, i: nat)
    requires i <= |es|
  {
    forall j :: i <= j <= |es| ==> !Run(s, es[..j]).mode
  }

  lemma AutoModeStep(s: Fan, e: Event)
    requires Agrees(s) && !s.mode && !IsReading(e)
    ensures Handle(s, e).freq == s.freq
  {
  }

  /** What the bands mean: the frequency in Hz for a temperature in thousandths of a degree. */
  lemma BandMeaning(temp: int)
    ensures Band(temp) in {2, 5, 10, 20}
    ensures Band(temp) == 2 <==> temp < 35000
    ensures Band(temp) <= 5 <==> temp < 40000
    ensures Band(temp) <= 10 <==> temp < 45000
  {
  }

  /** In automatic mode no command and no button changes the frequency. */
  lemma {:induction false} AutoModeFreezes(s: Fan, es: seq<Event>, i: nat)
    requires i <= |es| && Agrees(Run(s, es[..i])) && AutoSince(s, es, i)
    requires forall j :: i <= j < |es| ==> !IsReading(es[j])
    ensures Run(s, es).freq == Run(s, es[..i]).freq
    decreases |es|
  {
    if i == |es| {
      assert es[..i] == es;
    } else {
      var before := es[..|es| - 1];
      assert before[..i] == es[..i] && before == es[..|es| - 1];
      assert forall j :: i <= j <= |before| ==> before[..j] == es[..j];
      AutoModeFreezes(s, before, i);
      RunSplit(s, before, i);
      ModeAgreement(Run(s, es[..i]), before[i..]);
      AutoModeStep(Run(s, before), es[|es| - 1]);
    }
  }

  lemma RunSplit(s: Fan, es: seq<Event>, i: nat)
    requires i <= |es|
    ensures Run(s, es) == Run(Run(s, es[..i]), es[i..])
  {
    RunConcat(s, es[..i], es[i..]);
    assert es[..i] + es[i..] == es;
  }

  /** After a successful reading at i in automatic mode, as long as the mode stays and
      readings only fail, the frequency is that reading's band. */
  lemma AutoModeHistory(s: Fan, es: seq<Event>, i: nat, temp: int)
    requires Agrees(s)
    requires i < |es| && es[i] == Tick(Some(temp)) && AutoSince(s, es, i)
    requires forall j :: i < j < |es| ==> !IsReading(es[j])
    ensures Run(s, es).freq == Band(temp)
    ensures Run(s, es).freq == 2 <==> temp < 35000
    ensures Run(s, es).freq == 5 <==> 35000 <= temp < 40000
    ensures Run(s, es).freq == 10 <==> 40000 <= temp < 45000
    ensures Run(s, es).freq == 20 <==> 45000 <= temp
  {
    ModeAgreement(s, es[..i + 1]);
    AutoModeFreezes(s, es, i + 1);
    ReadingTakes(s, es, i, temp);
    BandMeaning(temp);
  }

  /** The event after which the frequency is the band. */
  lemma ReadingTakes(s: Fan, es: seq<Event>, i: nat, temp: int)
    requires i < |es| && es[i] == Tick(Some(temp)) && !Run(s, es[..i]).mode
    ensures Run(s, es[..i + 1]).freq == Band(temp)
  {
    RunStep(s, es[..i], es[i]);
    assert es[..i] + [es[i]] == es[..i + 1];
  }

  // ----- power LED -----

  predicate IsPress(e: Event) { e == Key1(true) || e == Key2(true) || e == Key3(true) }

  predicate PressedSince(es: seq<Event>)
  {
    exists i :: 0 <= i < |es| && IsPress(es[i]) && TimerReady !in es[i..]
  }

  predicate LedSafe(s: Fan) { s.lit <==> s.armed || s.expired }

  lemma LedStep(s: Fan, e: Event)
    requires LedSafe(s)
    ensures LedSafe(Handle(s, e))
    ensures Handle(s, e).lit <==> IsPress(e) || (s.lit && e != TimerReady)
  {
  }

  lemma PressedSinceStep(es: seq<Event>, e: Event)
    ensures PressedSince(es + [e]) <==> IsPress(e) || (PressedSince(es) && e != TimerReady)
  {
    var all := es + [e];
    if IsPress(e) {
      assert all[|es|] == e && TimerReady !in all[|es|..];
    } else if PressedSince(es) && e != TimerReady {
      var i :| 0 <= i < |es| && IsPress(es[i]) && TimerReady !in es[i..];
      assert IsPress(all[i]) && all[i..] == es[i..] + [e];
    }
    if PressedSince(all) && !IsPress(e) {
      var i :| 0 <= i < |all| && IsPress(all[i]) && TimerReady !in all[i..];
      assert all[i..] == es[i..] + [e];
      assert IsPress(es[i]) && TimerReady !in es[i..];
      assert e in all[i..];
    }
  }

  /** From an unlit start, the power LED is lit exactly when a press came after the last
      timer event, and then its timer is running or has an expiry for the events loop to
      handle: until that loop ends it is never left on with nothing to turn it off. */
  lemma {:induction false} PowerLed(s: Fan, es: seq<Event>)
    requires !s.lit && !s.armed && !s.expired
    ensures LedSafe(Run(s, es))
    ensures Run(s, es).lit <==> PressedSince(es)
  {
    if es != [] {
      var before, last := es[..|es| - 1], es[|es| - 1];
      PowerLed(s, before);
      LedStep(Run(s, before), last);
      PressedSinceStep(before, last);
      assert before + [last] == es;
    }
  }

  // ----- the ladder -----

  /** The n-th frequency of the ladder 0..10, 15..30, 40..100, 150, 200, ... */
  function Rung(n: nat): (freq: nat)
  {
    if n <= 10 then n
    else if n <= 14 then 10 + 5 * (n - 10)
    else if n <= 21 then 30 + 10 * (n - 14)
    else 100 + 50 * (n - 21)
  }

  predicate OnLadder(freq: int)
  {
    || 0 <= freq <= 10
    || (10 < freq <= 30 && freq % 5 == 0)
    || (30 < freq <= 100 && freq % 10 == 0)
    || (100 < freq && freq % 50 == 0)
  }

  /** The rung a ladder frequency stands on. */
  function RungOf(freq: int): (n: nat)
    requires OnLadder(freq)
    ensures Rung(n) == freq
  {
    if freq <= 10 then freq
    else if freq <= 30 then 10 + (freq - 10) / 5
    else if freq <= 100 then 14 + (freq - 30) / 10
    else 21 + (freq - 100) / 50
  }

  lemma RungOnLadder(n: nat)
    ensures OnLadder(Rung(n))
  {
    if n <= 10 {
    } else if n <= 14 {
      assert Rung(n) == 5 * (n - 8);
    } else if n <= 21 {
      assert Rung(n) == 10 * (n - 11);
    } else {
      assert Rung(n) == 50 * (n - 19);
    }
  }

  /** The ladder is in bijection with the naturals and the buttons move one rung. */
  lemma LadderBijection(n: nat)
    ensures OnLadder(Rung(n)) && RungOf(Rung(n)) == n
    ensures Increment(Rung(n)) == Rung(n + 1)
    ensures n > 0 ==> Rung(n) > 0 && Decrement(Rung(n)) == Rung(n - 1)
  {
    RungOnLadder(n);
    RungsDiffer(RungOf(Rung(n)), n);
    RungsDiffer(0, n);
  }

  lemma RungsDiffer(m: nat, n: nat)
    ensures Rung(m) == Rung(n) ==> m == n
    ensures m < n ==> Rung(m) < Rung(n)
  {
  }

  /** On the ladder the two buttons undo each other, except that nothing goes below 0. */
  lemma ButtonsUndoEachOther(freq: int)
    requires OnLadder(freq)
    ensures OnLadder(Increment(freq)) && Decrement(Increment(freq)) == freq
    ensures freq > 0 ==> OnLadder(Decrement(freq)) && Increment(Decrement(freq)) == freq
  {
    LadderBijection(RungOf(freq));
    LadderBijection(RungOf(freq) + 1);
    if freq > 0 { LadderBijection(RungOf(freq) - 1); }
  }

  /** Off the ladder a button moves by the width of the gap between the two rungs around,
      below it K1 moves by one. */
  lemma StepWidth(freq: int, n: nat)
    ensures Rung(n) <= freq < Rung(n + 1) ==> Increment(freq) - freq == Rung(n + 1) - Rung(n)
    ensures Rung(n) < freq <= Rung(n + 1) ==> freq > 0 && freq - Decrement(freq) == Rung(n + 1) - Rung(n)
    ensures freq < 0 ==> Increment(freq) == freq + 1
  {
    RungsDiffer(0, n);
    RungsDiffer(10, n);
    RungsDiffer(14, n);
    RungsDiffer(21, n);
  }

  predicate IsFreqPress(e: Event) { e == Key1(true) || e == Key2(true) }

  /** Events that neither set the frequency outright nor touch the mode. */
  predicate IsManualTraffic(e: Event)
  {
    !IsModeCommand(e) && !(e.Message? && e.cmd.SetFreq?)
  }

  /** A counter that K1 raises and K2 lowers, stopping at 0. */
  function Counter(n: nat, es: seq<Event>): nat
  {
    if es == [] then n
    else CounterStep(Counter(n, es[..|es| - 1]), es[|es| - 1])
  }

  function CounterStep(c: nat, e: Event): nat
  {
    if e == Key1(true) then c + 1
    else if e == Key2(true) && c > 0 then c - 1
    else c
  }

  /** The cache was refreshed after the last frequency press. */
  predicate Refreshed(es: seq<Event>)
  {
    exists j :: 0 <= j < |es| && es[j] == FreqReady && forall k :: j < k < |es| ==> !IsFreqPress(es[k])
  }

  /** Every frequency press finds a refreshed cache. */
  predicate FreshPresses(es: seq<Event>)
  {
    forall i :: 0 <= i < |es| && IsFreqPress(es[i]) ==> Refreshed(es[..i])
  }

  lemma RefreshedStep(es: seq<Event>, e: Event)
    ensures Refreshed(es + [e]) <==> e == FreqReady || (Refreshed(es) && !IsFreqPress(e))
  {
    var all := es + [e];
    if e == FreqReady {
      assert all[|es|] == FreqReady;
    } else if Refreshed(es) && !IsFreqPress(e) {
      var j :| 0 <= j < |es| && es[j] == FreqReady && forall k :: j < k < |es| ==> !IsFreqPress(es[k]);
      assert all[j] == FreqReady;
    }
    if Refreshed(all) && e != FreqReady {
      var j :| 0 <= j < |all| && all[j] == FreqReady && forall k :: j < k < |all| ==> !IsFreqPress(all[k]);
      assert es[j] == FreqReady && !IsFreqPress(all[|es|]);
      assert forall k :: j < k < |es| ==> es[k] == all[k];
    }
  }

  /** One event on the ladder, from a state that stands on rung c. */
  lemma LadderStep(s: Fan, e: Event, c: nat)
    requires s.mode && s.curMode == 1 && s.freq == Rung(c)
    requires IsManualTraffic(e) && (IsFreqPress(e) ==> s.curFreq == s.freq)
    ensures var t := Handle(s, e);
      && t.mode && t.curMode == 1
      && t.freq == Rung(CounterStep(c, e))
      && (e == FreqReady || (s.curFreq == s.freq && !IsFreqPress(e)) ==> t.curFreq == t.freq)
  {
    LadderBijection(c);
  }

  /** In manual mode, whatever else happens between fresh presses, the driver's frequency
      is the rung that the saturating counter of presses points at. */
  lemma {:induction false} LadderCounts(s: Fan, es: seq<Event>, n: nat)
    requires s.mode && s.curMode == 1 && s.freq == Rung(n)
    requires FreshPresses(es) && forall i :: 0 <= i < |es| ==> IsManualTraffic(es[i])
    ensures var t := Run(s, es);
      && t.mode && t.curMode == 1
      && t.freq == Rung(Counter(n, es))
      && (Refreshed(es) ==> t.curFreq == t.freq)
  {
    if es != [] {
      var before, last := es[..|es| - 1], es[|es| - 1];
      assert forall i :: 0 <= i < |before| ==> before[..i] == es[..i] && before[i] == es[i];
      LadderCounts(s, before, n);
      assert before + [last] == es;
      RefreshedStep(before, last);
      assert IsFreqPress(last) ==> Refreshed(es[..|es| - 1]);
      LadderStep(Run(s, before), last, Counter(n, before));
    }
  }

  function Repeat(block: seq<Event>, k: nat): seq<Event>
  {
    if k == 0 then [] else Repeat(block, k - 1) + block
  }

  /** From any non-negative frequency, each fresh K2 press lowers it strictly until 0,
      where it stays: after k presses it is 0 or at most freq - k. */
  lemma {:induction false} FreshK2ReachesZero(s: Fan, k: nat)
    requires s.mode && s.curMode == 1 && s.freq >= 0
    ensures var t := Run(s, Repeat([FreqReady, Key2(true)], k));
      && t.mode && t.curMode == 1
      && 0 <= t.freq && (t.freq == 0 || t.freq <= s.freq - k)
  {
    if k > 0 {
      FreshK2ReachesZero(s, k - 1);
      var earlier := Repeat([FreqReady, Key2(true)], k - 1);
      assert earlier + [FreqReady, Key2(true)] == (earlier + [FreqReady]) + [Key2(true)];
      RunStep(s, earlier, FreqReady);
      RunStep(s, earlier + [FreqReady], Key2(true));
    }
  }

  // ----- frequency zero -----

  /** The event sets the driver's frequency in this state. */
  predicate SetsFreq(s: Fan, e: Event)
  {
    || (s.curMode == 1 && ((e.Message? && e.cmd.SetFreq?) || e == Key1(true) || (e == Key2(true) && s.curFreq > 0)))
    || (!s.mode && IsReading(e))
  }

  /** It sets it to zero: set-freq 0, or a press at the cached value next to 0. */
  predicate SetsZero(s: Fan, e: Event)
  {
    && s.curMode == 1
    && (e == Message(SetFreq(0)) || (e == Key1(true) && s.curFreq == -1) || (e == Key2(true) && s.curFreq == 1))
  }

  lemma ZeroStep(s: Fan, e: Event)
    ensures Handle(s, e).freq == 0 <==> SetsZero(s, e) || (s.freq == 0 && !SetsFreq(s, e))
  {
  }

  predicate SetsFreqAt(s: Fan, es: seq<Event>, i: nat)
    requires i < |es|
  {
    SetsFreq(Run(s, es[..i]), es[i])
  }

  predicate SetsZeroAt(s: Fan, es: seq<Event>, i: nat)
    requires i < |es|
  {
    SetsZero(Run(s, es[..i]), es[i])
  }

  /** Event i sets the frequency to zero and no later event sets it again. */
  predicate LeavesZero(s: Fan, es: seq<Event>, i: nat)
    requires i < |es|
  {
    SetsZeroAt(s, es, i) && forall j :: i < j < |es| ==> !SetsFreqAt(s, es, j)
  }

  predicate ZeroLeft(s: Fan, es: seq<Event>) { exists i :: 0 <= i < |es| && LeavesZero(s, es, i) }

  predicate NeverSetsFreq(s: Fan, es: seq<Event>) { forall i :: 0 <= i < |es| ==> !SetsFreqAt(s, es, i) }

  lemma SetsAppend(s: Fan, es: seq<Event>, e: Event)
    ensures forall i :: 0 <= i < |es| ==>
      (SetsFreqAt(s, es + [e], i) <==> SetsFreqAt(s, es, i)) && (SetsZeroAt(s, es + [e], i) <==> SetsZeroAt(s, es, i))
    ensures SetsFreqAt(s, es + [e], |es|) <==> SetsFreq(Run(s, es), e)
    ensures SetsZeroAt(s, es + [e], |es|) <==> SetsZero(Run(s, es), e)
  {
    assert forall i :: 0 <= i <= |es| ==> (es + [e])[..i] == es[..i];
    assert es[..|es|] == es;
  }

  lemma ZeroLeftAppend(s: Fan, es: seq<Event>, e: Event)
    ensures ZeroLeft(s, es + [e]) <==> SetsZero(Run(s, es), e) || (ZeroLeft(s, es) && !SetsFreq(Run(s, es), e))
    ensures NeverSetsFreq(s, es + [e]) <==> NeverSetsFreq(s, es) && !SetsFreq(Run(s, es), e)
  {
    var all := es + [e];
    SetsAppend(s, es, e);
    if SetsZero(Run(s, es), e) {
      assert LeavesZero(s, all, |es|);
    } else if ZeroLeft(s, es) && !SetsFreq(Run(s, es), e) {
      var i :| 0 <= i < |es| && LeavesZero(s, es, i);
      assert LeavesZero(s, all, i);
    }
    if ZeroLeft(s, all) && !SetsZero(Run(s, es), e) {
      var i :| 0 <= i < |all| && LeavesZero(s, all, i);
      assert !SetsFreqAt(s, all, |es|);
      assert LeavesZero(s, es, i);
    }
  }

  /** The driver's frequency is zero after a history if and only if an event of it set it to
      zero and none set it later, or it was zero at first and none set it at all. */
  lemma {:induction false} ZeroFreqExactly(s: Fan, es: seq<Event>)
    ensures Run(s, es).freq == 0 <==> ZeroLeft(s, es) || (s.freq == 0 && NeverSetsFreq(s, es))
  {
    if es != [] {
      var before, last := es[..|es| - 1], es[|es| - 1];
      ZeroFreqExactly(s, before);
      ZeroStep(Run(s, before), last);
      ZeroLeftAppend(s, before, last);
      assert before + [last] == es;
    }
  }

  /** So, from a frequency other than zero, the timer callback divides by zero after exactly
      the histories that leave zero behind. */
  lemma TickDefinedExactly(s: Fan, es: seq<Event>, reading: Option<int>)
    requires s.freq != 0
    ensures Defined(Run(s, es), Tick(reading)) <==> !ZeroLeft(s, es)
  {
    ZeroFreqExactly(s, es);
  }

  /** In manual mode as many fresh K2 presses as the frequency bring that about. */
  lemma K2MakesTickUndefined(s: Fan, reading: Option<int>)
    requires s.mode && s.curMode == 1 && s.freq > 0
    ensures var es := Repeat([FreqReady, Key2(true)], s.freq);
      ZeroLeft(s, es) && !Defined(Run(s, es), Tick(reading))
  {
    FreshK2ReachesZero(s, s.freq);
    TickDefinedExactly(s, Repeat([FreqReady, Key2(true)], s.freq), reading);
  }
}
