/** The fan daemon: its event handlers and its message loop, working on the driver
    through attribute text. */
module FanDaemon {
  import opened Wrappers
  import opened Numerals
  import opened Commands
  import opened FanSpec
  import opened FanPwmDriver
  import opened OledPanel
  import opened Ssd1306
  import opened Display

  const FREQ_WINDOW := 11
  const TEMP_WINDOW := 7
  const MODE_WINDOW := 5

  /** A frequency crosses to the driver and back intact exactly in FitsFreq's range: it
      must print, with its NUL, into 11 bytes, and its digits must end inside 11 bytes. */
  lemma FreqTextRoundTrip(freq: int)
    requires INT32_MIN <= freq <= INT32_MAX
    ensures FitsFreq(freq) <==> |Decimal(freq)| + 1 <= FREQ_WINDOW
    ensures Kstrtol(Decimal(freq)) == Parsed(freq) && ToInt32(freq) == freq
    ensures Atoi(Window(Decimal(freq) + "\n", FREQ_WINDOW))
         == if FitsFreq(freq) then Some(freq) else None
  {
    KstrtolOfDecimal(freq);
    AttributeRoundTrip(freq, FREQ_WINDOW);
    DecimalLength(freq, FREQ_WINDOW);
    assert Pow10(9) == 1_000_000_000;
  }

  lemma TempTextRoundTrip(temp: int)
    ensures Atoi(Window(Decimal(temp) + "\n", TEMP_WINDOW))
         == if FitsTemp(temp) then Some(temp) else None
  {
    AttributeRoundTrip(temp, TEMP_WINDOW);
    DecimalLength(temp, TEMP_WINDOW);
    assert Pow10(5) == 100_000 && Pow10(6) == 1_000_000;
  }

  /** The one-digit mode attribute read through the daemon's 5 zeroed bytes. */
  lemma ModeTextRoundTrip(mode: bool)
    ensures Atoi(Window(Decimal(if mode then 1 else 0), MODE_WINDOW)) == Some(if mode then 1 else 0)
  {
    var text := Decimal(if mode then 1 else 0);
    var w := Window(text, MODE_WINDOW);
    assert w == text + w[1..];
    AtoiOfDecimal(if mode then 1 else 0, w[1..]);
  }

  /** A received message: the handlers of the other thread, the timers and the kernel that
      completed before it, its text, and what the daemon's buffers held. */
  datatype Received = Received(meanwhile: seq<Event>, text: string, leftover: Leftover)

  function CommandOf(r: Received): Command { Parse(r.text, r.leftover) }

  /** Everything that happens up to the last of these messages. */
  function History(inbox: seq<Received>): seq<Event>
  {
    if inbox == [] then []
    else
      var last := inbox[|inbox| - 1];
      History(inbox[..|inbox| - 1]) + last.meanwhile + [Message(CommandOf(last))]
  }

  /** The replies to these messages, in order. */
  function Replies(s: Fan, inbox: seq<Received>): seq<string>
  {
    if inbox == [] then []
    else
      var before, last := inbox[..|inbox| - 1], inbox[|inbox| - 1];
      var reply := Reply(Run(s, History(before) + last.meanwhile), CommandOf(last));
      Replies(s, before) + if reply.Some? then [reply.value] else []
  }

  lemma OneMoreMessage(s: Fan, inbox: seq<Received>, n: nat)
    requires n < |inbox|
    ensures var cmd, t := CommandOf(inbox[n]), Run(Run(s, History(inbox[..n])), inbox[n].meanwhile);
      && Run(s, History(inbox[..n + 1])) == Handle(t, Message(cmd))
      && Replies(s, inbox[..n + 1])
         == Replies(s, inbox[..n]) + if Reply(t, cmd).Some? then [Reply(t, cmd).value] else []
  {
    assert inbox[..n + 1][..n] == inbox[..n];
    RunConcat(s, History(inbox[..n]), inbox[n].meanwhile);
    RunStep(s, History(inbox[..n]) + inbox[n].meanwhile, Message(CommandOf(inbox[n])));
  }

  /** The C code is defined for every event when its turn comes. */
  predicate AllDefined(s: Fan, es: seq<Event>)
  {
    forall i :: 0 <= i < |es| ==> Defined(Run(s, es[..i]), es[i])
  }

  /** When the n-th message comes, what happened before it and the message are defined. */
  predicate DefinedMessage(s: Fan, inbox: seq<Received>, n: nat)
    requires n < |inbox|
  {
    var t := Run(s, History(inbox[..n]));
    && (forall i :: 0 <= i < |inbox[n].meanwhile| ==> !inbox[n].meanwhile[i].Message?)
    && AllDefined(t, inbox[n].meanwhile)
    && WordFits(inbox[n].text) && Defined(Run(t, inbox[n].meanwhile), Message(CommandOf(inbox[n])))
  }

  predicate StoppedAfter(s: Fan, inbox: seq<Received>, n: nat)
    requires n <= |inbox|
  {
    Run(s, History(inbox[..n])).stopped
  }

  /** Only a message stops the daemon. */
  lemma {:induction false} NoStopMeanwhile(s: Fan, es: seq<Event>)
    requires forall i :: 0 <= i < |es| ==> !es[i].Message?
    ensures Run(s, es).stopped == s.stopped
  {
    if es != [] {
      NoStopMeanwhile(s, es[..|es| - 1]);
      NoStopStep(Run(s, es[..|es| - 1]), es[|es| - 1]);
    }
  }

  lemma NoStopStep(s: Fan, e: Event)
    requires !e.Message?
    ensures Handle(s, e).stopped == s.stopped
  {
  }

  class Daemon {
    const driver: FanDriver
    var curFreq: int
    var curMode: int
    var curTemp: int
    var armed: bool
    var expired: bool
    var lit: bool
    var stopRequest: bool
    const oled: Oled
    ghost var dark: Panel        // the panel after its initialisation
    ghost var lcd: seq<LcdCall>  // the calls written on it since

    ghost function View(): Fan
      reads this, driver
    {
      Fan(driver.freq, driver.mode, curFreq, curMode, curTemp, armed, expired, lit, lcd, stopRequest)
    }

    /** The panel is where the calls written since its initialisation lead. */
    ghost predicate InSync()
      reads this`dark, this`lcd, oled
    {
      && dark.pendingArgs == 0 && RowsBlank(dark.ram, PAGES)
      && dark.on
      && oled.panel == Decode(dark, AllBytes(oled.font, lcd))
    }

    /** Start-up: display, header, then the driver's mode; 0 when the attribute cannot be
        opened. */
    constructor (driver: FanDriver, oled: Oled, modeReadable: bool)
      requires oled.panel.pendingArgs == 0
      modifies oled
      ensures this.driver == driver && driver.freq == old(driver.freq) && driver.mode == old(driver.mode)
      ensures this.oled == oled && InSync()
      ensures View() == Start(driver.freq, driver.mode, modeReadable)
    {
      this.driver, this.oled := driver, oled;
      curFreq, curTemp, armed, expired, lit, stopRequest := 0, 0, false, false, false, false;
      curMode := 0;
      new;
      var status := oled.Init(true, true);
      dark, lcd := oled.panel, [];
      assert lcd == [] && AllBytes(oled.font, lcd) == [];
      ShowStart(modeReadable);
    }

    /** The header and the driver's mode. */
    method ShowStart(modeReadable: bool)
      requires InSync() && lcd == []
      modifies this`curMode, this`lcd, oled
      ensures InSync()
      ensures curMode == if modeReadable then (if driver.mode then 1 else 0) else old(curMode)
      ensures lcd == [WriteHeader, WriteMode(curMode)]
    {
      ShowHeader();
      if modeReadable {
        curMode := GetMode();
      }
      ShowMode(curMode);
    }

    // ----- access to the display -----

    method ShowHeader()
      requires InSync()
      modifies this`lcd, oled
      ensures InSync() && lcd == old(lcd) + [WriteHeader]
    {
      AllBytesAppend(oled.font, dark, lcd, WriteHeader);
      LcdWriteHeader(oled);
      lcd := lcd + [WriteHeader];
    }

    method ShowFreq(freq: int)
      requires InSync()
      modifies this`lcd, oled
      ensures InSync() && lcd == old(lcd) + [WriteFreq(freq)]
    {
      AllBytesAppend(oled.font, dark, lcd, WriteFreq(freq));
      LcdWriteFreq(oled, freq);
      lcd := lcd + [WriteFreq(freq)];
    }

    method ShowTemp(temp: int)
      requires InSync()
      modifies this`lcd, oled
      ensures InSync() && lcd == old(lcd) + [WriteTemp(temp)]
    {
      AllBytesAppend(oled.font, dark, lcd, WriteTemp(temp));
      LcdWriteTemp(oled, temp);
      lcd := lcd + [WriteTemp(temp)];
    }

    method ShowMode(mode: int)
      requires InSync()
      modifies this`lcd, oled
      ensures InSync() && lcd == old(lcd) + [WriteMode(mode)]
    {
      AllBytesAppend(oled.font, dark, lcd, WriteMode(mode));
      LcdWriteMode(oled, mode);
      lcd := lcd + [WriteMode(mode)];
    }

    // ----- access to the driver -----

    method SetFreq(freq: int)
      requires FitsFreq(freq)
      modifies driver
      ensures View() == old(View()).(freq := freq)
    {
      FreqTextRoundTrip(freq);
      var text := Decimal(freq);
      var count := driver.FreqStore(text);
    }

    method SetMode(mode: int)
      requires FitsFreq(mode)
      modifies driver
      ensures View() == old(View()).(mode := mode != 0)
    {
      KstrtolOfDecimal(mode);
      var text := Decimal(mode);
      var count := driver.ModeStore(text);
    }

    method GetMode() returns (mode: int)
      ensures mode == if driver.mode then 1 else 0
    {
      ModeTextRoundTrip(driver.mode);
      var text := driver.ModeShow();
      mode := Atoi(Window(text, MODE_WINDOW)).value;
    }

    /** The kernel's timer callback, as the daemon's world sees it. */
    method KernelTick(reading: Option<int>)
      requires Defined(View(), Tick(reading))
      modifies driver
      ensures View() == Handle(old(View()), Tick(reading))
    {
      driver.TimerCallback(reading);
    }

    /** What K3 and set-mode have in common: own copy, driver, display. */
    method TakeMode(mode: int)
      requires FitsFreq(mode) && InSync()
      modifies this`curMode, this`lcd, driver, oled
      ensures InSync()
      ensures View() == ChangeMode(old(View()), mode)
    {
      curMode := mode;
      SetMode(curMode);
      ShowMode(curMode);
    }

    /** After any events since start-up the panel itself is on and shows the header, the
        daemon's mode, and its frequency and temperature once an event brought them. */
    lemma PanelTellsMode(freq: int, mode: bool, readable: bool, es: seq<Event>)
      requires InSync() && View() == Run(Start(freq, mode, readable), es)
      ensures RowReads(oled.font, oled.panel.ram, 3, "Auto mode   ") <==> curMode == 0
      ensures RowReads(oled.font, oled.panel.ram, 3, "Manual mode ") <==> curMode != 0
      ensures Tells(oled.font, oled.panel.ram, View()) && oled.panel.on
      ensures FreqReady in es ==> FreqWritten(lcd)
      ensures (exists temp :: TempReady(temp) in es) ==> TempWritten(lcd)
    {
      DisplayFollowsDaemon(oled.font, dark, freq, mode, readable, es);
    }

    // ----- power LED -----

    /** timerfd_settime with one second: counting down anew, no expiry pending. */
    method SetTimer()
      modifies this`armed, this`expired
      ensures armed && !expired
    {
      armed, expired := true, false;
    }

    method ResetTimer()
      modifies this`armed, this`expired
      ensures !armed && !expired
    {
      armed, expired := false, false;
    }

    /** What every press does first. */
    method LightLed()
      modifies this`armed, this`expired, this`lit
      ensures View() == PressLed(old(View()))
    {
      SetTimer();
      lit := true;
    }

    method TimerHandler()
      requires InSync()
      modifies this
      ensures InSync()
      ensures View() == Handle(old(View()), TimerReady)
    {
      ResetTimer();
      lit := false;
    }

    // ----- cache refresh -----

    method FreqHandler()
      requires Defined(View(), FreqReady)
      requires InSync()
      modifies this, oled
      ensures InSync()
      ensures View() == Handle(old(View()), FreqReady)
    {
      FreqTextRoundTrip(driver.freq);
      var text := driver.FreqShow();
      curFreq := Atoi(Window(text, FREQ_WINDOW)).value;
      ShowFreq(curFreq);
    }

    /** A failed read leaves the zeroed buffer, which reads as 0. */
    method CpuTempHandler(reading: Option<int>)
      requires Defined(View(), TempReady(reading))
      requires InSync()
      modifies this, oled
      ensures InSync()
      ensures View() == Handle(old(View()), TempReady(reading))
    {
      var text := driver.TempCpuShow(reading);
      if text.Some? {
        TempTextRoundTrip(reading.value);
        curTemp := Atoi(Window(text.value, TEMP_WINDOW)).value;
      } else {
        AtoiOfZeros();
        curTemp := Atoi(Window("", TEMP_WINDOW)).value;
      }
      ShowTemp(curTemp);
    }

    static lemma AtoiOfZeros()
      ensures Atoi(Window("", TEMP_WINDOW)) == Some(0)
    {
      var w := Window("", TEMP_WINDOW);
      assert SkipSpaces(w, 0) == 0 && DigitRun(w, 0) == 0;
    }

    // ----- buttons -----

    method IncrementFreq()
      requires curMode == 1 ==> FitsFreq(Increment(curFreq))
      modifies driver
      ensures View() == if curMode == 1 then old(View()).(freq := Increment(curFreq)) else old(View())
    {
      if curMode == 1 {
        if curFreq < 10 {
          SetFreq(curFreq + 1);
        } else if curFreq < 30 {
          SetFreq(curFreq + 5);
        } else if curFreq < 100 {
          SetFreq(curFreq + 10);
        } else {
          SetFreq(curFreq + 50);
        }
      }
    }

    /** At 0 and below nothing is written, so the driver keeps its frequency. */
    method DecrementFreq()
      requires curMode == 1 && curFreq > 0 ==> FitsFreq(Decrement(curFreq))
      modifies driver
      ensures View() == if curMode == 1 && curFreq > 0 then old(View()).(freq := Decrement(curFreq))
                        else old(View())
    {
      if curMode == 1 {
        if curFreq > 100 {
          SetFreq(curFreq - 50);
        } else if curFreq > 30 {
          SetFreq(curFreq - 10);
        } else if curFreq > 10 {
          SetFreq(curFreq - 5);
        } else if curFreq > 0 {
          SetFreq(curFreq - 1);
        }
      }
    }

    /** The low bit of the GPIO value byte; the byte is 255 when it cannot be read. */
    static function IsPressed(value: Option<char>): (r: bool)
      ensures value.None? || value.value == '1' ==> r
      ensures value == Some('0') ==> !r
    {
      value.None? || (value.value as int) % 2 == 1
    }

    method K1Handler(value: Option<char>)
      requires Defined(View(), Key1(IsPressed(value)))
      requires InSync()
      modifies this, driver, oled
      ensures InSync()
      ensures View() == Handle(old(View()), Key1(IsPressed(value)))
    {
      if IsPressed(value) {
        LightLed();
        IncrementFreq();
      }
    }

    method K2Handler(value: Option<char>)
      requires Defined(View(), Key2(IsPressed(value)))
      requires InSync()
      modifies this, driver, oled
      ensures InSync()
      ensures View() == Handle(old(View()), Key2(IsPressed(value)))
    {
      if IsPressed(value) {
        LightLed();
        DecrementFreq();
      }
    }

    method ToggleMode()
      requires InSync()
      modifies this`curMode, this`lcd, driver, oled
      ensures InSync()
      ensures View() == ChangeMode(old(View()), if old(curMode) == 0 then 1 else 0)
    {
      if curMode == 0 {
        TakeMode(1);
      } else {
        TakeMode(0);
      }
    }

    method K3Handler(value: Option<char>)
      requires InSync()
      modifies this, driver, oled
      ensures InSync()
      ensures View() == Handle(old(View()), Key3(IsPressed(value)))
    {
      if IsPressed(value) {
        LightLed();
        ToggleMode();
      }
    }

    // ----- message loop -----

    /** One received message. The reply is what goes into the outgoing queue. */
    method HandleMessage(text: string, leftover: Leftover) returns (reply: Option<string>)
      requires !stopRequest
      requires WordFits(text) && Defined(View(), Message(Parse(text, leftover)))
      requires InSync()
      modifies this, driver, oled
      ensures InSync()
      ensures View() == Handle(old(View()), Message(Parse(text, leftover)))
      ensures reply == Reply(old(View()), Parse(text, leftover))
    {
      reply := None;
      match Parse(text, leftover) {
        case Stop =>
          stopRequest := true;
        case SetFreq(value) =>
          if curMode == 1 {
            SetFreq(value);
            reply := Some("OK");
          } else {
            reply := Some("AUTO");
          }
        case GetFreq =>
          reply := Some(Decimal(curFreq));
        case SetMode(value) =>
          TakeMode(value);
        case GetMode =>
          var mode := GetMode();
          reply := Some(Decimal(mode));
        case GetTemp =>
          reply := Some(Decimal(curTemp));
        case Unknown =>
      }
    }

    // ----- event loop -----

    /** The events a batch from epoll_wait may hold. */
    static predicate IsPolled(e: Event)
    {
      e.FreqReady? || e.TempReady? || e.TimerReady? || e.Key1? || e.Key2? || e.Key3?
    }

    method Dispatch(e: Event)
      requires IsPolled(e) && Defined(View(), e)
      requires InSync()
      modifies this, driver, oled
      ensures InSync()
      ensures View() == Handle(old(View()), e)
    {
      if e.TimerReady? {
        TimerHandler();
      } else if e.FreqReady? {
        FreqHandler();
      } else if e.TempReady? {
        CpuTempHandler(e.temp);
      } else {
        DispatchKey(e);
      }
    }

    method DispatchKey(e: Event)
      requires (e.Key1? || e.Key2? || e.Key3?) && Defined(View(), e)
      requires InSync()
      modifies this, driver, oled
      ensures InSync()
      ensures View() == Handle(old(View()), e)
    {
      var value := if e.pressed then '1' else '0';
      assert IsPressed(Some(value)) == e.pressed;
      if e.Key1? {
        K1Handler(Some(value));
      } else if e.Key2? {
        K2Handler(Some(value));
      } else {
        K3Handler(Some(value));
      }
    }

    /** One batch from epoll_wait, handled in the order it came. */
    method HandleBatch(events: seq<Event>)
      requires (forall i :: 0 <= i < |events| ==> IsPolled(events[i])) && AllDefined(View(), events)
      requires InSync()
      modifies this, driver, oled
      ensures InSync()
      ensures View() == Run(old(View()), events)
    {
      for i := 0 to |events|
        invariant InSync() && View() == Run(old(View()), events[..i])
      {
        RunStep(old(View()), events[..i], events[i]);
        assert events[..i + 1] == events[..i] + [events[i]];
        Dispatch(events[i]);
      }
      assert events[..|events|] == events;
    }

    // ----- message loop -----

    /** The LED timer runs out. */
    method TimerExpires()
      modifies this`armed, this`expired
      ensures View() == Handle(old(View()), Expire)
    {
      if armed {
        armed, expired := false, true;
      }
    }

    method Happen(e: Event)
      requires !e.Message? && Defined(View(), e)
      requires InSync()
      modifies this, driver, oled
      ensures InSync()
      ensures View() == Handle(old(View()), e)
    {
      if e.Tick? {
        KernelTick(e.reading);
      } else if e.Expire? {
        TimerExpires();
      } else {
        Dispatch(e);
      }
    }

    /** What the events thread, the timer and the kernel do between two messages. */
    method Meanwhile(events: seq<Event>)
      requires (forall i :: 0 <= i < |events| ==> !events[i].Message?) && AllDefined(View(), events)
      requires InSync()
      modifies this, driver, oled
      ensures InSync()
      ensures View() == Run(old(View()), events)
    {
      for i := 0 to |events|
        invariant InSync() && View() == Run(old(View()), events[..i])
      {
        RunStep(old(View()), events[..i], events[i]);
        assert events[..i + 1] == events[..i] + [events[i]];
        Happen(events[i]);
      }
      assert events[..|events|] == events;
    }

    method HandleNext(inbox: seq<Received>, n: nat, ghost start: Fan) returns (replies: seq<string>)
      requires !stopRequest && n < |inbox| && View() == Run(start, History(inbox[..n]))
      requires DefinedMessage(start, inbox, n)
      requires InSync()
      modifies this, driver, oled
      ensures InSync()
      ensures View() == Run(start, History(inbox[..n + 1]))
      ensures Replies(start, inbox[..n + 1]) == Replies(start, inbox[..n]) + replies
    {
      OneMoreMessage(start, inbox, n);
      NoStopMeanwhile(View(), inbox[n].meanwhile);
      Meanwhile(inbox[n].meanwhile);
      var reply := HandleMessage(inbox[n].text, inbox[n].leftover);
      replies := if reply.Some? then [reply.value] else [];
    }

    /** The message loop on the messages to come, with the events thread, the timers and the
        kernel at work between them: up to the first stop, or all of them. */
    method MessageLoop(inbox: seq<Received>) returns (taken: nat, outbox: seq<string>)
      requires !stopRequest
      requires forall i :: 0 <= i < |inbox| && !StoppedAfter(View(), inbox, i) ==> DefinedMessage(View(), inbox, i)
      requires InSync()
      modifies this, driver, oled
      ensures taken <= |inbox|
      ensures InSync()
      ensures View() == Run(old(View()), History(inbox[..taken]))
      ensures outbox == Replies(old(View()), inbox[..taken])
      ensures taken > 0 ==> !StoppedAfter(old(View()), inbox, taken - 1)
      ensures taken == |inbox| || StoppedAfter(old(View()), inbox, taken)
    {
      ghost var start := View();
      taken, outbox := 0, [];
      while taken < |inbox| && !stopRequest
        invariant taken <= |inbox|
        invariant InSync()
        invariant View() == Run(start, History(inbox[..taken]))
        invariant outbox == Replies(start, inbox[..taken])
        invariant taken > 0 ==> !StoppedAfter(start, inbox, taken - 1)
        decreases |inbox| - taken
      {
        var replies := HandleNext(inbox, taken, start);
        outbox := outbox + replies;
        taken := taken + 1;
      }
    }
  }
}
