/** The command-line client: from its arguments to one request and the decision to wait. */
module FanClient {
  import opened Wrappers
  import opened Numerals
  import opened Commands

  const OPTIONS := ["--set-freq", "--get-freq", "--stopdaem", "--get-mode", "--set-mode", "--get-temp"]

  /** An argument as sscanf leaves it: without a number, the variable keeps its content. */
  function Number(arg: string, uninitialised: int): int
  {
    if ScanInt(arg).Some? then ScanInt(arg).value else uninitialised
  }

  /** The daemon takes the message for this command, whatever its buffers hold. */
  ghost predicate Requests(message: Option<string>, cmd: Command)
  {
    message.Some? && forall v :: Parse(message.value, v) == cmd
  }

  /** The request is the returned message, if any; waits says whether the client then
      blocks for a reply. */
  method RunClient(args: seq<string>, uninitialised: int) returns (message: Option<string>, waits: bool)
    requires |args| > 1 && (args[1] == "--set-freq" || args[1] == "--set-mode") ==> |args| > 2
    // Whatever the command line, the client waits exactly for what the daemon answers.
    ensures message.Some? ==> forall v :: waits == ExpectsReply(Parse(message.value, v))
    ensures message.None? ==> !waits
    // Only modes 0 and 1 are ever requested.
    ensures message.Some? ==> forall v :: var cmd := Parse(message.value, v);
      !cmd.Unknown? && (cmd.SetMode? ==> 0 <= cmd.mode <= 1)
    // Nothing is sent exactly without an option of the list, and for other modes.
    ensures message.None? <==>
      || |args| <= 1 || args[1] !in OPTIONS
      || (args[1] == "--set-mode" && !(0 <= Number(args[2], uninitialised) <= 1))
    // Each request comes from its own option and from no other.
    ensures forall freq :: Requests(message, SetFreq(freq)) <==>
      |args| > 1 && args[1] == "--set-freq" && freq == Number(args[2], uninitialised)
    ensures forall mode :: Requests(message, SetMode(mode)) <==>
      |args| > 1 && args[1] == "--set-mode" && 0 <= mode <= 1 && mode == Number(args[2], uninitialised)
    ensures Requests(message, GetFreq) <==> |args| > 1 && args[1] == "--get-freq"
    ensures Requests(message, GetMode) <==> |args| > 1 && args[1] == "--get-mode"
    ensures Requests(message, GetTemp) <==> |args| > 1 && args[1] == "--get-temp"
    ensures Requests(message, Stop) <==> |args| > 1 && args[1] == "--stopdaem"
    // The documented spelling sends nothing.
    ensures |args| > 1 && args[1] == "--stopdaemon" ==> message.None?
  {
    message, waits := None, false;
    if |args| > 1 {
      var option := args[1];
      if option == "--set-freq" {
        message, waits := Request(SetFreq(Number(args[2], uninitialised)));
      } else if option == "--get-freq" {
        message, waits := Request(GetFreq);
      } else if option == "--stopdaem" {
        message, waits := Request(Stop);
      } else if option == "--get-mode" {
        message, waits := Request(GetMode);
      } else if option == "--set-mode" {
        var mode := Number(args[2], uninitialised);
        if mode >= 0 && mode <= 1 {
          message, waits := Request(SetMode(mode));
        }
      } else if option == "--get-temp" {
        message, waits := Request(GetTemp);
      }
    }
  }

  lemma TextIs(cmd: Command)
    requires !cmd.Unknown?
    ensures match cmd
      case SetFreq(freq) => Text(cmd) == "setfreq " + Decimal(freq)
      case GetFreq => Text(cmd) == "getfreq 0"
      case SetMode(mode) => Text(cmd) == "setmode " + Decimal(mode)
      case GetMode => Text(cmd) == "getmode 0"
      case GetTemp => Text(cmd) == "gettemp 0"
      case Stop => Text(cmd) == "stop 0"
  {
    assert Decimal(0) == "0";
    assert Word(cmd) + " " + Decimal(Argument(cmd)) == (Word(cmd) + " ") + Decimal(Argument(cmd));
    assert "setfreq" + " " == "setfreq " && "setmode" + " " == "setmode ";
  }

  /** Fills the send buffer; set-mode and stop are sent without waiting. */
  method Request(cmd: Command) returns (message: Option<string>, waits: bool)
    requires !cmd.Unknown?
    ensures message.Some? && forall v :: Parse(message.value, v) == cmd
    ensures forall other :: Requests(message, other) <==> other == cmd
    ensures match cmd
      case SetFreq(freq) => message == Some("setfreq " + Decimal(freq))
      case GetFreq => message == Some("getfreq 0")
      case SetMode(mode) => message == Some("setmode " + Decimal(mode))
      case GetMode => message == Some("getmode 0")
      case GetTemp => message == Some("gettemp 0")
      case Stop => message == Some("stop 0")
    ensures waits == ExpectsReply(cmd)
  {
    forall v ensures Parse(Text(cmd), v) == cmd { ParseOfText(cmd, v); }
    TextIs(cmd);
    message := Some(Text(cmd));
    assert Parse(message.value, Leftover("", 0)) == cmd;
    waits := cmd != Stop && !cmd.SetMode?;
  }
}
