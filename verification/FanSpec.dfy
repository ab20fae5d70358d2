/** The fan controller as a value: the driver's attributes, the daemon's cached copies,
    its power LED and what it wrote on the display, with one step per completed handler. */
module FanSpec {
  import opened Wrappers
  import opened Numerals
  import opened Commands

  /** One complete lcd_write_* call. */
  datatype LcdCall = WriteHeader | WriteMode(mode: int) | WriteFreq(freq: int) | WriteTemp(temp: int)

  datatype Fan = Fan(
    freq: int,              // driver
    mode: bool,             // driver: true is manual
    curFreq: int,           // daemon caches
    curMode: int,
    curTemp: int,
    armed: bool,            // the one-shot LED timer is counting down
    expired: bool,          // it fired and nobody handled that yet
    lit: bool,              // power LED
    lcd: seq<LcdCall>,
    stopped: bool)

  datatype Event =
    | FreqReady                            // epoll, on the frequency attribute
    | TempReady(temp: Option<int>)         // epoll, on the temperature attribute
    | TimerReady                           // epoll, on the LED timer
    | Key1(pressed: bool)
    | Key2(pressed: bool)
    | Key3(pressed: bool)
    | Message(cmd: Command)                // the message loop
    | Tick(reading: Option<int>)           // the driver's timer callback
    | Expire                               // the LED timer runs out

  /** After start-up. A mode that cannot be read counts as automatic. */
  function Start(freq: int, mode: bool, modeReadable: bool): Fan
  {
    var curMode := if modeReadable && mode then 1 else 0;
    Fan(freq, mode, 0, curMode, 0, false, false, false, [WriteHeader, WriteMode(curMode)], false)
  }

  // ----- the frequency ladder -----

  function Increment(freq: int): int
  {
    if freq < 10 then freq + 1
    else if freq < 30 then freq + 5
    else if freq < 100 then freq + 10
    else freq + 50
  }

  function Decrement(freq: int): int
    requires freq > 0
  {
    if freq > 100 then freq - 50
    else if freq > 30 then freq - 10
    else if freq > 10 then freq - 5
    else freq - 1
  }

  /** The frequency automatic mode chooses for a temperature in millidegrees. */
  function Band(temp: int): int
  {
    if temp < 35000 then 2 else if temp < 40000 then 5 else if temp < 45000 then 10 else 20
  }

  // ----- handlers -----

  /** A press relights the power LED and restarts its timer. */
  function PressLed(s: Fan): Fan
  {
    s.(armed := true, expired := false, lit := true)
  }

  function ChangeMode(s: Fan, mode: int): Fan
  {
    s.(curMode := mode, mode := mode != 0, lcd := s.lcd + [WriteMode(mode)])
  }

  function Handle(s: Fan, e: Event): Fan
  {
    match e
    case FreqReady => s.(curFreq := s.freq, lcd := s.lcd + [WriteFreq(s.freq)])
    case TempReady(temp) =>
      var t := if temp.Some? then temp.value else 0;
      s.(curTemp := t, lcd := s.lcd + [WriteTemp(t)])
    case TimerReady => s.(armed := false, expired := false, lit := false)
    case Key1(pressed) =>
      if !pressed then s
      else PressLed(if s.curMode == 1 then s.(freq := Increment(s.curFreq)) else s)
    case Key2(pressed) =>
      if !pressed then s
      else PressLed(if s.curMode == 1 && s.curFreq > 0 then s.(freq := Decrement(s.curFreq)) else s)
    case Key3(pressed) =>
      if !pressed then s
      else ChangeMode(PressLed(s), if s.curMode == 0 then 1 else 0)
    case Message(cmd) => (match cmd
      case SetFreq(freq) => if s.curMode == 1 then s.(freq := freq) else s
      case SetMode(mode) => ChangeMode(s, mode)
      case Stop => s.(stopped := true)
      case _ => s)
    case Tick(reading) =>
      if !s.mode && reading.Some? then s.(freq := Band(reading.value)) else s
    case Expire => if s.armed then s.(armed := false, expired := true) else s
  }

  function DriverMode(s: Fan): int { if s.mode then 1 else 0 }

  /** The message the daemon sends back, for the commands it answers. */
  function Reply(s: Fan, cmd: Command): (reply: Option<string>)
    ensures reply.Some? <==> ExpectsReply(cmd)
  {
    match cmd
    case SetFreq(_) => Some(if s.curMode == 1 then "OK" else "AUTO")
    case GetFreq => Some(Decimal(s.curFreq))
    case GetMode => Some(Decimal(DriverMode(s)))
    case GetTemp => Some(Decimal(s.curTemp))
    case _ => None
  }

  /** A whole history, oldest event first. */
  function Run(s: Fan, es: seq<Event>): Fan
  {
    if es == [] then s else Handle(Run(s, es[..|es| - 1]), es[|es| - 1])
  }

  lemma RunStep(s: Fan, es: seq<Event>, e: Event)
    ensures Run(s, es + [e]) == Handle(Run(s, es), e)
  {
    assert (es + [e])[..|es|] == es;
  }

  lemma {:induction false} RunConcat(s: Fan, es: seq<Event>, fs: seq<Event>)
    ensures Run(s, es + fs) == Run(Run(s, es), fs)
  {
    if fs == [] {
      assert es + fs == es;
    } else {
      RunConcat(s, es, fs[..|fs| - 1]);
      assert (es + fs)[..|es + fs| - 1] == es + fs[..|fs| - 1];
    }
  }

  // ----- where the C code is defined -----

  /** Printed into the daemon's 11 bytes with its NUL, and read back from them. */
  predicate FitsFreq(n: int) { -1_000_000_000 < n <= INT32_MAX }

  /** Read back through the daemon's 7 bytes. */
  predicate FitsTemp(n: int) { -100_000 < n < 1_000_000 }

  /** The event overruns no buffer of attribute text, overflows no int and divides by no
      zero. Whether its line fits the display's text buffer is not asked. */
  predicate Defined(s: Fan, e: Event)
  {
    match e
    case FreqReady => FitsFreq(s.freq)
    case TempReady(temp) => temp.Some? ==> FitsTemp(temp.value)
    case Key1(pressed) => pressed && s.curMode == 1 ==> FitsFreq(Increment(s.curFreq))
    case Key2(pressed) => pressed && s.curMode == 1 && s.curFreq > 0 ==> FitsFreq(Decrement(s.curFreq))
    case Message(SetFreq(freq)) => s.curMode == 1 ==> FitsFreq(freq)
    case Message(SetMode(mode)) => FitsFreq(mode)
    case Tick(_) => s.freq != 0
    case _ => true
  }
}
