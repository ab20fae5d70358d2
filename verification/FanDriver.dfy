/** The kernel driver: frequency, mode and status LED behind four sysfs attributes. */
module FanPwmDriver {
  import opened Wrappers
  import opened Numerals
  import FanSpec
  import FanRuns

  /** C's division of 1000, which truncates towards zero. */
  function Timeout(freq: int): (ms: int)
    requires freq != 0
    ensures freq > 0 ==> ms * freq <= 1000 < (ms + 1) * freq
    ensures freq < 0 ==> 0 <= ms * freq <= 1000 < (ms - 1) * freq
  {
    if freq > 0 then 1000 / freq else -(1000 / -freq)
  }

  /** The last successful reading. */
  function LastReading(readings: seq<Option<int>>): Option<int>
  {
    if readings == [] then None
    else if readings[|readings| - 1].Some? then readings[|readings| - 1]
    else LastReading(readings[..|readings| - 1])
  }

  /** The frequency after these readings. */
  function FreqAfter(freq: int, mode: bool, readings: seq<Option<int>>): int
  {
    if mode || LastReading(readings).None? then freq else FanSpec.Band(LastReading(readings).value)
  }

  /** Of two runs in automatic mode the one with the hotter last reading never has the lower
      frequency. */
  lemma HotterNeverSlower(freq: int, cool: seq<Option<int>>, hot: seq<Option<int>>)
    requires LastReading(cool).Some? && LastReading(hot).Some?
    requires LastReading(cool).value <= LastReading(hot).value
    ensures FreqAfter(freq, false, cool) <= FreqAfter(freq, false, hot)
  {
    FanRuns.BandMeaning(LastReading(cool).value);
    FanRuns.BandMeaning(LastReading(hot).value);
  }

  /** The last successful reading was the i-th, of temperature t. */
  predicate LastAt(readings: seq<Option<int>>, i: nat, t: int)
  {
    i < |readings| && readings[i] == Some(t) && forall j :: i < j < |readings| ==> readings[j].None?
  }

  lemma {:induction false} LastReadingAt(readings: seq<Option<int>>, i: nat, t: int)
    requires LastAt(readings, i, t)
    ensures LastReading(readings) == Some(t)
    decreases |readings|
  {
    if i < |readings| - 1 { LastReadingAt(readings[..|readings| - 1], i, t); }
  }

  class FanDriver {
    var freq: int
    var mode: bool
    var trigger: bool        // toggleLed's static variable
    var led: bool
    var timeoutMs: int

    constructor ()
      ensures freq == 2 && !mode && !led && !trigger && timeoutMs == 500
    {
      freq, mode, led, trigger := 2, false, false, false;
      timeoutMs := 500;
    }

    method ToggleLed()
      modifies this`trigger, this`led
      ensures led == old(trigger) && trigger == !old(trigger)
    {
      led := trigger;
      trigger := !trigger;
    }

    /** One expiry of the PWM timer. A temperature that cannot be read changes nothing. */
    method TimerCallback(reading: Option<int>)
      requires freq != 0
      modifies this
      ensures led == old(trigger) && trigger == !old(trigger)
      ensures timeoutMs == Timeout(old(freq))
      ensures mode == old(mode)
      ensures freq == if !old(mode) && reading.Some? then FanSpec.Band(reading.value) else old(freq)
      ensures !old(mode) && reading.Some? ==>
        && (freq == 2 <==> reading.value < 35000) && (freq == 5 <==> 35000 <= reading.value < 40000)
        && (freq == 10 <==> 40000 <= reading.value < 45000) && (freq == 20 <==> 45000 <= reading.value)
    {
      ToggleLed();
      timeoutMs := Timeout(freq);
      if !mode {
        if reading.None? {
          return;
        }
        var temp := reading.value;
        if temp < 35000 {
          freq := 2;
        } else if temp < 40000 {
          freq := 5;
        } else if temp < 45000 {
          freq := 10;
        } else {
          freq := 20;
        }
      }
    }

    /** Any number of expiries. From the second on the LED changes at each, so that two make
        a blink, and what the first one shows is the trigger's old value; each interval is
        set from the frequency that the earlier readings left, and in automatic mode failed
        readings keep that of the last successful one. */
    method RunCallbacks(readings: seq<Option<int>>)
      requires freq != 0
      modifies this
      ensures forall i, t :: !mode && LastAt(readings, i, t) ==>
        && (freq == 2 <==> t < 35000) && (freq == 5 <==> 35000 <= t < 40000)
        && (freq == 10 <==> 40000 <= t < 45000) && (freq == 20 <==> 45000 <= t)
      ensures mode == old(mode) && freq == FreqAfter(old(freq), mode, readings)
      ensures trigger == (old(trigger) == (|readings| % 2 == 0))
      ensures readings != [] ==>
        && led == !trigger == (old(trigger) == (|readings| % 2 == 1))
        && timeoutMs == Timeout(FreqAfter(old(freq), mode, readings[..|readings| - 1]))
    {
      for i := 0 to |readings|
        invariant mode == old(mode) && freq == FreqAfter(old(freq), mode, readings[..i])
        invariant trigger == (old(trigger) == (i % 2 == 0))
        invariant i > 0 ==> led == !trigger && timeoutMs == Timeout(FreqAfter(old(freq), mode, readings[..i - 1]))
      {
        assert readings[..i + 1][..i] == readings[..i];
        TimerCallback(readings[i]);
      }
      assert readings[..|readings|] == readings;
      forall i, t | LastAt(readings, i, t)
        ensures LastReading(readings) == Some(t) && FanSpec.Band(t) in {2, 5, 10, 20}
      {
        LastReadingAt(readings, i, t);
      }
    }

    /** Stores a parsed number as a bool: anything but 0 is manual. */
    method ModeStore(buf: string) returns (count: int)
      modifies this`mode
      ensures Kstrtol(buf).Parsed? ==> count == |buf| && mode == (Kstrtol(buf).value != 0)
      ensures !Kstrtol(buf).Parsed? ==> count == -1 && mode == old(mode)
    {
      var parsed := Kstrtol(buf);
      if parsed.Parsed? {
        mode := parsed.value != 0;
        return |buf|;
      }
      return -1;
    }

    method ModeShow() returns (text: string)
      ensures text == Decimal(if mode then 1 else 0)
    {
      text := [((if mode then 1 else 0) + 48) as char];
    }

    method FreqStore(buf: string) returns (count: int)
      modifies this`freq
      ensures Kstrtol(buf).Parsed? ==> count == |buf| && freq == ToInt32(Kstrtol(buf).value)
      ensures !Kstrtol(buf).Parsed? ==> count == -1 && freq == old(freq)
    {
      var parsed := Kstrtol(buf);
      if parsed.Parsed? {
        freq := ToInt32(parsed.value);
        return |buf|;
      }
      return -1;
    }

    method FreqShow() returns (text: string)
      ensures text == Decimal(freq) + "\n"
    {
      text := Decimal(freq) + "\n";
    }

    method TempCpuShow(reading: Option<int>) returns (text: Option<string>)
      ensures reading.None? ==> text.None?
      ensures reading.Some? ==> text == Some(Decimal(reading.value) + "\n")
    {
      text := if reading.None? then None else Some(Decimal(reading.value) + "\n");
    }
  }
}
