/** The command messages of the fan application: what a client writes for its command
    line, and what the daemon makes of a received message. */
module Commands {
  import opened Wrappers
  import opened Numerals

  const COMMAND_SIZE := 20

  datatype Command =
    | SetFreq(freq: int)
    | GetFreq
    | SetMode(mode: int)
    | GetMode
    | GetTemp
    | Stop
    | Unknown

  /** The commands the daemon answers with exactly one reply message. */
  predicate ExpectsReply(cmd: Command)
  {
    cmd.SetFreq? || cmd.GetFreq? || cmd.GetMode? || cmd.GetTemp?
  }

  function Word(cmd: Command): (w: string)
    requires !cmd.Unknown?
    ensures 0 < |w| < COMMAND_SIZE && forall k :: 0 <= k < |w| ==> !IsSpace(w[k])
  {
    match cmd
    case SetFreq(_) => "setfreq"
    case GetFreq => "getfreq"
    case SetMode(_) => "setmode"
    case GetMode => "getmode"
    case GetTemp => "gettemp"
    case Stop => "stop"
  }

  /** The message a client sends: the word and a number, 0 where the command has none. */
  function Text(cmd: Command): (s: string)
    requires !cmd.Unknown?
  {
    Word(cmd) + " " + Decimal(Argument(cmd))
  }

  function Argument(cmd: Command): int
  {
    match cmd
    case SetFreq(freq) => freq
    case SetMode(mode) => mode
    case _ => 0
  }

  function WordEnd(s: string, i: nat): (j: nat)
    requires i <= |s|
    ensures i <= j <= |s|
    decreases |s| - i
  {
    if i < |s| && !IsSpace(s[i]) then WordEnd(s, i + 1) else i
  }

  /** The daemon's chain of comparisons. */
  function Recognise(word: string, value: int): (cmd: Command)
  {
    if word == "stop" then Stop
    else if word == "setfreq" then SetFreq(value)
    else if word == "getfreq" then GetFreq
    else if word == "setmode" then SetMode(value)
    else if word == "getmode" then GetMode
    else if word == "gettemp" then GetTemp
    else Unknown
  }

  /** What the daemon's buffers for word and number hold before the scan. */
  datatype Leftover = Leftover(word: string, value: int)

  /** sscanf("%s %d") and the comparisons. What the message lacks keeps its leftover: the
      number, or for a blank message both. */
  function Parse(msg: string, leftover: Leftover): (cmd: Command)
  {
    var start := SkipSpaces(msg, 0);
    var end := WordEnd(msg, start);
    if start == end then Recognise(leftover.word, leftover.value)
    else
      var scanned := ScanInt(msg[end..]);
      Recognise(msg[start..end], if scanned.Some? then scanned.value else leftover.value)
  }

  /** The word and its NUL fit the daemon's buffer. */
  predicate WordFits(msg: string)
  {
    WordEnd(msg, SkipSpaces(msg, 0)) - SkipSpaces(msg, 0) < COMMAND_SIZE
  }

  lemma {:induction false} WordEndOver(s: string, i: nat, j: nat)
    requires i <= j < |s| && IsSpace(s[j])
    requires forall k :: i <= k < j ==> !IsSpace(s[k])
    ensures WordEnd(s, i) == j
    decreases j - i
  {
    if i < j { WordEndOver(s, i + 1, j); }
  }

  /** Scanning a word, a blank and a printed number finds both. */
  lemma ScanWordAndNumber(word: string, value: int)
    requires |word| > 0 && forall k :: 0 <= k < |word| ==> !IsSpace(word[k])
    ensures var msg := word + " " + Decimal(value);
      SkipSpaces(msg, 0) == 0 && WordEnd(msg, 0) == |word|
      && msg[..|word|] == word && ScanInt(msg[|word|..]) == Some(value)
  {
    var msg := word + " " + Decimal(value);
    WordEndOver(msg, 0, |word|);
    assert msg[|word|..] == " " + Decimal(value);
    ScanIntOfDecimal(value, " ");
  }

  /** Every command a client can send reaches the daemon unchanged. */
  lemma ParseOfText(cmd: Command, leftover: Leftover)
    requires !cmd.Unknown?
    ensures Parse(Text(cmd), leftover) == cmd && WordFits(Text(cmd))
  {
    ScanWordAndNumber(Word(cmd), Argument(cmd));
    RecogniseWord(cmd);
  }

  lemma RecogniseWord(cmd: Command)
    requires !cmd.Unknown?
    ensures Recognise(Word(cmd), Argument(cmd)) == cmd
  {
    assert "setfreq"[0] != "getfreq"[0] && "setmode"[0] != "getmode"[0];
    assert "setfreq"[3] != "setmode"[3] && "getfreq"[3] != "getmode"[3];
    assert "gettemp"[3] != "getmode"[3] && "gettemp"[3] != "getfreq"[3];
  }
}
