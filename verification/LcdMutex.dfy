/** Any number of threads writing on the display, interleaved between single bus
    transfers, each call between lock and unlock of the LCD mutex. */
module LcdMutex {
  import opened Wrappers
  import opened FanSpec
  import opened OledPanel
  import opened Ssd1306
  import opened Display
  import FanRuns
  import FanThreads

  type ThreadId = nat

  /** A thread inside lcd_write_*, with the number of bytes it has sent. */
  datatype Activity = Outside | Writing(call: LcdCall, sent: nat)

  /** The bytes each call sends. */
  type Coding = LcdCall -> seq<BusByte>

  datatype Threads = Threads(
    coding: Coding,
    activity: map<ThreadId, Activity>,
    mutex: Option<ThreadId>,
    panel: Panel,
    locked: seq<LcdCall>)          // history: calls in the order their locks were taken

  datatype Action =
    | Lock(thread: ThreadId, call: LcdCall)
    | SendByte(thread: ThreadId)
    | Unlock(thread: ThreadId)

  function Doing(s: Threads, t: ThreadId): Activity
  {
    if t in s.activity then s.activity[t] else Outside
  }

  /** The mutex guards the entry only; sending asks no permission. */
  predicate Enabled(s: Threads, a: Action)
  {
    var doing := Doing(s, a.thread);
    match a
    case Lock(_, _) => doing.Outside? && s.mutex.None?
    case SendByte(_) => doing.Writing? && doing.sent < |s.coding(doing.call)|
    case Unlock(_) => doing.Writing? && doing.sent == |s.coding(doing.call)|
  }

  /** One step. A step that is not enabled changes nothing. */
  function Do(s: Threads, a: Action): Threads
  {
    if !Enabled(s, a) then s else
    match a
    case Lock(t, call) =>
      s.(activity := s.activity[t := Writing(call, 0)], mutex := Some(t), locked := s.locked + [call])
    case SendByte(t) =>
      var doing := Doing(s, t);
      s.(panel := Step(s.panel, s.coding(doing.call)[doing.sent]),
         activity := s.activity[t := doing.(sent := doing.sent + 1)])
    case Unlock(t) => s.(activity := s.activity[t := Outside], mutex := None)
  }

  function Play(s: Threads, actions: seq<Action>): Threads
  {
    if actions == [] then s
    else Do(Play(s, actions[..|actions| - 1]), actions[|actions| - 1])
  }

  function Start(coding: Coding, panel: Panel): Threads
  {
    Threads(coding, map[], None, panel, [])
  }

  function WholeCalls(coding: Coding, calls: seq<LcdCall>): seq<BusByte>
  {
    if calls == [] then [] else WholeCalls(coding, calls[..|calls| - 1]) + coding(calls[|calls| - 1])
  }

  /** At most the holder of the mutex is writing, and the panel is where the earlier calls,
      whole, and the first bytes of the holder's call lead. */
  ghost predicate Serial(start: Panel, s: Threads)
  {
    match s.mutex
    case None =>
      && (forall t :: Doing(s, t).Outside?)
      && s.panel == Decode(start, WholeCalls(s.coding, s.locked))
    case Some(holder) =>
      && (forall t :: t != holder ==> Doing(s, t).Outside?)
      && Doing(s, holder).Writing? && s.locked != []
      && var before, call, sent := s.locked[..|s.locked| - 1], s.locked[|s.locked| - 1], Doing(s, holder).sent;
      && Doing(s, holder).call == call
      && sent <= |s.coding(call)|
      && s.panel == Decode(Decode(start, WholeCalls(s.coding, before)), s.coding(call)[..sent])
  }

  lemma SerialLock(start: Panel, s: Threads, t: ThreadId, call: LcdCall)
    requires Serial(start, s) && Enabled(s, Lock(t, call))
    ensures Serial(start, Do(s, Lock(t, call)))
  {
    var u := Do(s, Lock(t, call));
    assert u.locked[..|u.locked| - 1] == s.locked;
    assert s.coding(call)[..0] == [];
    forall other | other != t ensures Doing(u, other).Outside? { assert Doing(s, other).Outside?; }
  }

  lemma SerialSend(start: Panel, s: Threads, t: ThreadId)
    requires Serial(start, s) && Enabled(s, SendByte(t))
    ensures Serial(start, Do(s, SendByte(t)))
  {
    var doing := Doing(s, t);
    assert s.mutex == Some(t);
    var bytes := s.coding(doing.call);
    assert bytes[..doing.sent + 1] == bytes[..doing.sent] + [bytes[doing.sent]];
    var before := Decode(start, WholeCalls(s.coding, s.locked[..|s.locked| - 1]));
    DecodeSnoc(before, bytes[..doing.sent], bytes[doing.sent]);
    forall other | other != t ensures Doing(Do(s, SendByte(t)), other).Outside? { assert Doing(s, other).Outside?; }
  }

  lemma SerialUnlock(start: Panel, s: Threads, t: ThreadId)
    requires Serial(start, s) && Enabled(s, Unlock(t))
    ensures Serial(start, Do(s, Unlock(t)))
  {
    assert s.mutex == Some(t);
    var bytes := s.coding(Doing(s, t).call);
    assert bytes[..|bytes|] == bytes;
    DecodeConcat(start, WholeCalls(s.coding, s.locked[..|s.locked| - 1]), bytes);
    forall other ensures Doing(Do(s, Unlock(t)), other).Outside? {
      if other != t { assert Doing(s, other).Outside?; }
    }
  }

  lemma {:induction false} AlwaysSerial(coding: Coding, start: Panel, actions: seq<Action>)
    ensures Serial(start, Play(Start(coding, start), actions))
    ensures Play(Start(coding, start), actions).coding == coding
    decreases |actions|
  {
    if actions != [] {
      var s := Play(Start(coding, start), actions[..|actions| - 1]);
      AlwaysSerial(coding, start, actions[..|actions| - 1]);
      match actions[|actions| - 1]
      case Lock(t, call) => if Enabled(s, Lock(t, call)) { SerialLock(start, s, t, call); }
      case SendByte(t) => if Enabled(s, SendByte(t)) { SerialSend(start, s, t); }
      case Unlock(t) => if Enabled(s, Unlock(t)) { SerialUnlock(start, s, t); }
    }
  }

  /** Serialisability: in every interleaving, whenever the mutex is free the panel is as if
      the calls had run whole, one after another, in the order of their locks. */
  lemma Serialisable(coding: Coding, start: Panel, actions: seq<Action>)
    ensures var s := Play(Start(coding, start), actions);
      s.mutex.None? ==> s.panel == Decode(start, WholeCalls(coding, s.locked))
  {
    AlwaysSerial(coding, start, actions);
  }

  function LcdCoding(font: Font): Coding
  {
    call => CallBytes(font, call)
  }

  lemma {:induction false} WholeCallsAreLines(font: Font, calls: seq<LcdCall>)
    ensures WholeCalls(LcdCoding(font), calls) == LinesBytes(font, AllLines(calls))
    decreases |calls|
  {
    if calls != [] {
      WholeCallsAreLines(font, calls[..|calls| - 1]);
      LinesBytesConcat(font, AllLines(calls[..|calls| - 1]), Lines(calls[|calls| - 1]));
    }
  }

  lemma {:induction false} AllLinesConcat(xs: seq<LcdCall>, ys: seq<LcdCall>)
    ensures AllLines(xs + ys) == AllLines(xs) + AllLines(ys)
    decreases |ys|
  {
    if ys == [] {
      assert xs + ys == xs;
    } else {
      var before, last := ys[..|ys| - 1], Lines(ys[|ys| - 1]);
      assert (xs + ys)[..|xs + ys| - 1] == xs + before;
      AllLinesConcat(xs, before);
      assert AllLines(xs) + (AllLines(before) + last) == AllLines(xs) + AllLines(before) + last;
    }
  }

  /** So, over a blank display with the start-up calls on it, every interleaving leaves
      each cell with its latest character, the header in place and the last mode in row 3. */
  lemma InterleavedDisplay(font: Font, blank: Panel, startup: seq<LcdCall>, actions: seq<Action>, mode: int)
    requires blank.pendingArgs == 0 && RowsBlank(blank.ram, PAGES) && WriteHeader in startup
    requires var s := Play(Start(LcdCoding(font), Decode(blank, AllBytes(font, startup))), actions);
      && s.mutex.None?
      && FanRuns.LastMode(startup + s.locked) == Some(mode)
    ensures var s := Play(Start(LcdCoding(font), Decode(blank, AllBytes(font, startup))), actions);
      && Shows(font, s.panel.ram, AllLines(startup + s.locked))
      && RowReads(font, s.panel.ram, 3, ModeText(mode))
      && forall row :: 0 <= row < 3 ==> RowReads(font, s.panel.ram, row, HEADER[row])
  {
    var start := Decode(blank, AllBytes(font, startup));
    var s := Play(Start(LcdCoding(font), start), actions);
    Serialisable(LcdCoding(font), start, actions);
    AllBytesAreLines(font, startup);
    WholeCallsAreLines(font, s.locked);
    AllLinesConcat(startup, s.locked);
    LinesBytesConcat(font, AllLines(startup), AllLines(s.locked));
    DecodeConcat(blank, LinesBytes(font, AllLines(startup)), LinesBytes(font, AllLines(s.locked)));
    RowsOfCalls(startup + s.locked);
    LinesShow(font, blank, AllLines(startup + s.locked));
    ModeRow(font, s.panel.ram, startup + s.locked, mode);
    forall row | 0 <= row < 3 ensures RowReads(font, s.panel.ram, row, HEADER[row]) {
      HeaderStays(font, s.panel.ram, startup + s.locked, row);
    }
  }

  /** Where no interleaving starts stale, none ends stale, so with the calls of the daemon's
      threads on a dark panel, once they rest, the panel reads the header, the daemon's mode,
      whatever the driver's is, and its numbers. */
  lemma PanelAfterThreads(font: Font, blank: Panel, s: FanThreads.Shared, steps: seq<FanThreads.Step>)
    requires blank.pendingArgs == 0 && RowsBlank(blank.ram, PAGES)
    requires FanThreads.Quiet(s) && WriteHeader in s.fan.lcd && FanRuns.LastMode(s.fan.lcd) == Some(s.fan.curMode)
    requires FanRuns.UpToDate(s.fan) && FanThreads.Quiet(FanThreads.Interleave(s, steps))
    ensures var f := FanThreads.Interleave(s, steps).fan;
      Tells(font, Decode(blank, AllBytes(font, f.lcd)).ram, f)
  {
    var f := FanThreads.Interleave(s, steps).fan;
    FanThreads.LcdKept(s, steps);
    FanThreads.DisplayedModeInterleaved(s, steps);
    FanThreads.UpToDateInterleaved(s, steps);
    CallsShow(font, blank, f.lcd);
    CallsTell(font, Decode(blank, AllBytes(font, f.lcd)).ram, f);
  }

  /** The daemon's threads and the bus together: after any interleaving of their accesses,
      and any interleaving of the bytes of the calls they made since start-up, once all rest
      the panel itself reads the header, the daemon's mode and its numbers. */
  lemma PanelFollowsThreads(font: Font, blank: Panel, s: FanThreads.Shared, steps: seq<FanThreads.Step>,
    actions: seq<Action>)
    requires blank.pendingArgs == 0 && RowsBlank(blank.ram, PAGES)
    requires FanThreads.Quiet(s) && WriteHeader in s.fan.lcd && FanRuns.LastMode(s.fan.lcd) == Some(s.fan.curMode)
    requires FanRuns.UpToDate(s.fan)
    requires var t := FanThreads.Interleave(s, steps);
      var bus := Play(Start(LcdCoding(font), Decode(blank, AllBytes(font, s.fan.lcd))), actions);
      FanThreads.Quiet(t) && bus.mutex.None? && s.fan.lcd + bus.locked == t.fan.lcd
    ensures var t := FanThreads.Interleave(s, steps);
      var bus := Play(Start(LcdCoding(font), Decode(blank, AllBytes(font, s.fan.lcd))), actions);
      && (RowReads(font, bus.panel.ram, 3, "Auto mode   ") <==> t.fan.curMode == 0)
      && (RowReads(font, bus.panel.ram, 3, "Manual mode ") <==> t.fan.curMode != 0)
      && Tells(font, bus.panel.ram, t.fan)
  {
    var t := FanThreads.Interleave(s, steps);
    var bus := Play(Start(LcdCoding(font), Decode(blank, AllBytes(font, s.fan.lcd))), actions);
    FanThreads.DisplayedModeInterleaved(s, steps);
    FanThreads.UpToDateInterleaved(s, steps);
    InterleavedDisplay(font, blank, s.fan.lcd, actions, t.fan.curMode);
    CallsTell(font, bus.panel.ram, t.fan);
  }
}
