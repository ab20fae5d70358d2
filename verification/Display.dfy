/** What the daemon writes on the display, and which of its lines can be read there. */
module Display {
  import opened Wrappers
  import opened Numerals
  import opened FanSpec
  import FanRuns
  import opened OledPanel
  import opened Ssd1306

  // ----- the lcd_write_* calls -----

  /** A text and the row it is written to, from column 0. */
  datatype Line = Line(row: nat, text: string)

  const HEADER: seq<string> := ["CSEL1a - Projet", "  Daemon", "--------------"]

  function Lines(call: LcdCall): seq<Line>
  {
    match call
    case WriteHeader => [Line(0, HEADER[0]), Line(1, HEADER[1]), Line(2, HEADER[2])]
    case WriteMode(mode) => [Line(3, ModeText(mode))]
    case WriteFreq(freq) => [Line(4, FreqText(freq))]
    case WriteTemp(temp) => [Line(5, TempText(temp))]
  }

  function ModeText(mode: int): (s: string)
    ensures |s| == 12
  {
    if mode == 0 then "Auto mode   " else "Manual mode "
  }

  function FreqText(freq: int): string { "Freq: " + Decimal(freq) + " [Hz]" }

  function TempText(temp: int): string { "CPU temp: " + Decimal(temp) }

  function LinesBytes(font: Font, lines: seq<Line>): seq<BusByte>
  {
    if lines == [] then []
    else LinesBytes(font, lines[..|lines| - 1]) + TextBytes(font, lines[|lines| - 1].row, lines[|lines| - 1].text)
  }

  function CallBytes(font: Font, call: LcdCall): seq<BusByte>
  {
    LinesBytes(font, Lines(call))
  }

  method WriteLine(oled: Oled, line: Line)
    modifies oled
    ensures oled.panel == Decode(old(oled.panel), TextBytes(oled.font, line.row, line.text))
  {
    DecodeConcat(oled.panel, PositionBytes(0, line.row), PutsBytes(oled.font, line.text));
    oled.SetPosition(0, line.row);
    oled.Puts(line.text);
  }

  lemma LinesStep(font: Font, p: Panel, lines: seq<Line>, line: Line)
    ensures Decode(p, LinesBytes(font, lines + [line]))
         == Decode(Decode(p, LinesBytes(font, lines)), TextBytes(font, line.row, line.text))
  {
    assert (lines + [line])[..|lines|] == lines;
    DecodeConcat(p, LinesBytes(font, lines), TextBytes(font, line.row, line.text));
  }

  lemma OneLine(font: Font, p: Panel, line: Line)
    ensures Decode(p, LinesBytes(font, [line])) == Decode(p, TextBytes(font, line.row, line.text))
  {
    LinesStep(font, p, [], line);
    assert [] + [line] == [line];
  }

  method LcdWriteHeader(oled: Oled)
    modifies oled
    ensures oled.panel == Decode(old(oled.panel), CallBytes(oled.font, WriteHeader))
  {
    var title, name, rule := Line(0, "CSEL1a - Projet"), Line(1, "  Daemon"), Line(2, "--------------");
    assert Lines(WriteHeader) == [title] + [name] + [rule];
    OneLine(oled.font, oled.panel, title);
    LinesStep(oled.font, oled.panel, [title], name);
    LinesStep(oled.font, oled.panel, [title] + [name], rule);
    WriteLine(oled, title);
    WriteLine(oled, name);
    WriteLine(oled, rule);
  }

  method LcdWriteFreq(oled: Oled, freq: int)
    modifies oled
    ensures oled.panel == Decode(old(oled.panel), CallBytes(oled.font, WriteFreq(freq)))
  {
    OneLine(oled.font, oled.panel, Line(4, FreqText(freq)));
    WriteLine(oled, Line(4, "Freq: " + Decimal(freq) + " [Hz]"));
  }

  method LcdWriteTemp(oled: Oled, temp: int)
    modifies oled
    ensures oled.panel == Decode(old(oled.panel), CallBytes(oled.font, WriteTemp(temp)))
  {
    OneLine(oled.font, oled.panel, Line(5, TempText(temp)));
    WriteLine(oled, Line(5, "CPU temp: " + Decimal(temp)));
  }

  method LcdWriteMode(oled: Oled, mode: int)
    modifies oled
    ensures oled.panel == Decode(old(oled.panel), CallBytes(oled.font, WriteMode(mode)))
  {
    OneLine(oled.font, oled.panel, Line(3, ModeText(mode)));
    if mode == 0 {
      WriteLine(oled, Line(3, "Auto mode   "));
    } else {
      WriteLine(oled, Line(3, "Manual mode "));
    }
  }

  // ----- what a history of calls leaves on the display -----

  function AllLines(calls: seq<LcdCall>): seq<Line>
  {
    if calls == [] then [] else AllLines(calls[..|calls| - 1]) + Lines(calls[|calls| - 1])
  }

  function AllBytes(font: Font, calls: seq<LcdCall>): seq<BusByte>
  {
    if calls == [] then [] else AllBytes(font, calls[..|calls| - 1]) + CallBytes(font, calls[|calls| - 1])
  }

  lemma AllBytesAppend(font: Font, p: Panel, calls: seq<LcdCall>, call: LcdCall)
    ensures Decode(p, AllBytes(font, calls + [call])) == Decode(Decode(p, AllBytes(font, calls)), CallBytes(font, call))
  {
    assert (calls + [call])[..|calls|] == calls;
    DecodeConcat(p, AllBytes(font, calls), CallBytes(font, call));
  }

  /** The character a line leaves in column d of its row, if it reaches it: the last one
      that lands there. */
  function Leaves(line: Line, row: nat, d: nat): Option<char>
  {
    var k := LastIn(0, |line.text|, d);
    if line.row == row && k >= 0 then Some(line.text[k]) else None
  }

  /** The character last written in column d of a row; a blank if none was. */
  function Shown(lines: seq<Line>, row: nat, d: nat): char
  {
    if lines == [] then ' '
    else
      var left := Leaves(lines[|lines| - 1], row, d);
      if left.Some? then left.value else Shown(lines[..|lines| - 1], row, d)
  }

  predicate Shows(font: Font, ram: Ram, lines: seq<Line>)
  {
    forall row, d :: 0 <= row < PAGES && 0 <= d < 16 ==>
      CellAt(ram, row, d) == GlyphOf(font, Shown(lines, row, d))
  }

  lemma ShowsStep(font: Font, before: Ram, after: Ram, lines: seq<Line>, line: Line)
    requires Shows(font, before, lines) && line.row < PAGES
    requires TextWritten(font, before, after, line.row, 0, line.text)
    ensures Shows(font, after, lines + [line])
  {
    assert (lines + [line])[..|lines|] == lines;
    forall row, d | 0 <= row < PAGES && 0 <= d < 16
      ensures CellAt(after, row, d) == GlyphOf(font, Shown(lines + [line], row, d))
    {
      var i := 16 * row + d;
      assert i / 16 == row && i % 16 == d;
      assert Cell(after, i) == CellAfter(font, before, line.row, 0, line.text, i);
      assert CellAt(before, row, d) == GlyphOf(font, Shown(lines, row, d));
    }
  }

  /** Lines of any length, written on a blank display, show as a history: in every cell
      the latest character that landed there. */
  lemma {:induction false} LinesShow(font: Font, p: Panel, lines: seq<Line>)
    requires p.pendingArgs == 0 && RowsBlank(p.ram, PAGES)
    requires forall k :: 0 <= k < |lines| ==> lines[k].row < PAGES
    ensures var q := Decode(p, LinesBytes(font, lines));
      q.pendingArgs == 0 && q.on == p.on && Shows(font, q.ram, lines)
    decreases |lines|
  {
    if lines != [] {
      var before, last := lines[..|lines| - 1], lines[|lines| - 1];
      LinesShow(font, p, before);
      assert before + [last] == lines && last.row < PAGES;
      LinesStep(font, p, before, last);
      var q := Decode(p, LinesBytes(font, before));
      TextEffect(font, q, last.row, last.text);
      ShowsStep(font, q.ram, Decode(q, TextBytes(font, last.row, last.text)).ram, before, last);
    }
  }

  lemma {:induction false} LinesBytesConcat(font: Font, xs: seq<Line>, ys: seq<Line>)
    ensures LinesBytes(font, xs + ys) == LinesBytes(font, xs) + LinesBytes(font, ys)
    decreases |ys|
  {
    if ys == [] {
      assert xs + ys == xs;
    } else {
      var before := ys[..|ys| - 1];
      assert (xs + ys)[..|xs + ys| - 1] == xs + before;
      LinesBytesConcat(font, xs, before);
      var last := TextBytes(font, ys[|ys| - 1].row, ys[|ys| - 1].text);
      assert LinesBytes(font, xs) + (LinesBytes(font, before) + last) == LinesBytes(font, xs) + LinesBytes(font, before) + last;
    }
  }

  lemma {:induction false} AllBytesAreLines(font: Font, calls: seq<LcdCall>)
    ensures AllBytes(font, calls) == LinesBytes(font, AllLines(calls))
    decreases |calls|
  {
    if calls != [] {
      AllBytesAreLines(font, calls[..|calls| - 1]);
      LinesBytesConcat(font, AllLines(calls[..|calls| - 1]), Lines(calls[|calls| - 1]));
    }
  }

  // ----- when a row reads exactly its last text -----

  function LastText(lines: seq<Line>, row: nat): Option<string>
  {
    if lines == [] then None
    else if lines[|lines| - 1].row == row then Some(lines[|lines| - 1].text)
    else LastText(lines[..|lines| - 1], row)
  }

  predicate NoneLonger(lines: seq<Line>, row: nat, n: nat)
  {
    forall k :: 0 <= k < |lines| && lines[k].row == row ==> |lines[k].text| <= n
  }

  lemma {:induction false} LastTextShown(lines: seq<Line>, row: nat, t: string, d: nat)
    requires LastText(lines, row) == Some(t) && |t| <= 16 && NoneLonger(lines, row, |t|) && d < 16
    ensures Shown(lines, row, d) == Padded(t, d)
    decreases |lines|
  {
    var before, last := lines[..|lines| - 1], lines[|lines| - 1];
    if last.row != row {
      LastTextShown(before, row, t, d);
    } else {
      LastInShort(|t|, d);
      if d >= |t| { NothingShown(before, row, d); }
    }
  }

  lemma {:induction false} NothingShown(lines: seq<Line>, row: nat, d: nat)
    requires d < 16 && NoneLonger(lines, row, d)
    ensures Shown(lines, row, d) == ' '
    decreases |lines|
  {
    if lines != [] {
      if lines[|lines| - 1].row == row { LastInShort(|lines[|lines| - 1].text|, d); }
      NothingShown(lines[..|lines| - 1], row, d);
    }
  }

  predicate Fits(line: Line) { line.row < PAGES && |line.text| <= 16 }

  predicate Printing(c: char) { 33 <= c as int <= 127 }

  predicate EndsPrinting(line: Line)
  {
    line.text != [] && Printing(line.text[|line.text| - 1])
  }

  /** A longer text leaves a visible character at or beyond column n, until one as long
      covers it. */
  lemma {:induction false} LongerTextStays(lines: seq<Line>, row: nat, k: nat, n: nat) returns (d: nat)
    requires k < |lines| && lines[k].row == row && |lines[k].text| > n
    requires forall i :: 0 <= i < |lines| && lines[i].row == row ==> Fits(lines[i]) && EndsPrinting(lines[i])
    ensures n <= d < 16 && Printing(Shown(lines, row, d))
    decreases |lines|
  {
    var before, last := lines[..|lines| - 1], lines[|lines| - 1];
    if last.row == row && |last.text| > n {
      d := |last.text| - 1;
      LastInShort(|last.text|, d);
    } else {
      d := LongerTextStays(before, row, k, n);
      if last.row == row { LastInShort(|last.text|, d); }
    }
  }

  /** A row whose texts end in visible characters reads exactly its last text if and only
      if no earlier text in it was longer. */
  lemma RowReadsLast(font: Font, ram: Ram, lines: seq<Line>, row: nat, t: string)
    requires row < PAGES && Shows(font, ram, lines) && LastText(lines, row) == Some(t)
    requires forall i :: 0 <= i < |lines| && lines[i].row == row ==> Fits(lines[i]) && EndsPrinting(lines[i])
    ensures RowReads(font, ram, row, t) <==> NoneLonger(lines, row, |t|)
  {
    LastTextIsThere(lines, row, t);
    if NoneLonger(lines, row, |t|) {
      RowReadsShortest(font, ram, lines, row, t);
    } else {
      var k :| 0 <= k < |lines| && lines[k].row == row && |lines[k].text| > |t|;
      var d := LongerTextStays(lines, row, k, |t|);
      assert CellAt(ram, row, d) == GlyphOf(font, Shown(lines, row, d)) != BLANK;
      assert GlyphOf(font, Padded(t, d)) == BLANK;
    }
  }

  lemma {:induction false} LastTextIsThere(lines: seq<Line>, row: nat, t: string)
    requires LastText(lines, row) == Some(t)
    ensures exists k :: 0 <= k < |lines| && lines[k].row == row && lines[k].text == t
    decreases |lines|
  {
    if lines[|lines| - 1].row != row {
      LastTextIsThere(lines[..|lines| - 1], row, t);
      var k :| 0 <= k < |lines| - 1 && lines[..|lines| - 1][k].row == row && lines[..|lines| - 1][k].text == t;
      assert lines[k].row == row && lines[k].text == t;
    }
  }

  lemma RowReadsShortest(font: Font, ram: Ram, lines: seq<Line>, row: nat, t: string)
    requires row < PAGES && Shows(font, ram, lines)
    requires LastText(lines, row) == Some(t) && |t| <= 16 && NoneLonger(lines, row, |t|)
    ensures RowReads(font, ram, row, t)
  {
    forall d | 0 <= d < 16 ensures CellAt(ram, row, d) == GlyphOf(font, Padded(t, d)) {
      LastTextShown(lines, row, t, d);
      assert CellAt(ram, row, d) == GlyphOf(font, Shown(lines, row, d));
    }
  }

  // ----- from calls to rows -----

  /** What a call writes into a row. */
  function TextIn(call: LcdCall, row: nat): Option<string>
  {
    match call
    case WriteHeader => if row < 3 then Some(HEADER[row]) else None
    case WriteMode(mode) => if row == 3 then Some(ModeText(mode)) else None
    case WriteFreq(freq) => if row == 4 then Some(FreqText(freq)) else None
    case WriteTemp(temp) => if row == 5 then Some(TempText(temp)) else None
  }

  /** The last text a history of calls writes into a row. */
  function LastTextIn(calls: seq<LcdCall>, row: nat): Option<string>
  {
    if calls == [] then None
    else if TextIn(calls[|calls| - 1], row).Some? then TextIn(calls[|calls| - 1], row)
    else LastTextIn(calls[..|calls| - 1], row)
  }

  lemma {:induction false} LastTextConcat(xs: seq<Line>, ys: seq<Line>, row: nat)
    ensures LastText(xs + ys, row) == if LastText(ys, row).Some? then LastText(ys, row) else LastText(xs, row)
    decreases |ys|
  {
    if ys == [] {
      assert xs + ys == xs;
    } else {
      assert (xs + ys)[..|xs + ys| - 1] == xs + ys[..|ys| - 1];
      LastTextConcat(xs, ys[..|ys| - 1], row);
    }
  }

  lemma LastTextOne(line: Line, row: nat)
    ensures LastText([line], row) == if line.row == row then Some(line.text) else None
  {
    assert [line][..0] == [];
  }

  lemma TextInLines(call: LcdCall, row: nat)
    ensures LastText(Lines(call), row) == TextIn(call, row)
  {
    var lines := Lines(call);
    LastTextOne(lines[0], row);
    if call.WriteHeader? {
      LastTextOne(lines[1], row);
      LastTextOne(lines[2], row);
      LastTextConcat([lines[0]], [lines[1]], row);
      LastTextConcat([lines[0]] + [lines[1]], [lines[2]], row);
      assert lines == [lines[0]] + [lines[1]] + [lines[2]];
    } else {
      assert lines == [lines[0]];
    }
  }

  lemma {:induction false} LastTextOfCalls(calls: seq<LcdCall>, row: nat)
    ensures LastText(AllLines(calls), row) == LastTextIn(calls, row)
    decreases |calls|
  {
    if calls != [] {
      LastTextOfCalls(calls[..|calls| - 1], row);
      LastTextConcat(AllLines(calls[..|calls| - 1]), Lines(calls[|calls| - 1]), row);
      TextInLines(calls[|calls| - 1], row);
    }
  }

  ghost predicate Written(calls: seq<LcdCall>, line: Line)
  {
    exists c :: c in calls && TextIn(c, line.row) == Some(line.text)
  }

  lemma LineOfCall(call: LcdCall, line: Line)
    ensures line in Lines(call) <==> TextIn(call, line.row) == Some(line.text)
  {
    if call.WriteHeader? && line.row < 3 {
      assert Lines(call)[line.row] == Line(line.row, HEADER[line.row]);
    } else if TextIn(call, line.row) == Some(line.text) {
      assert Lines(call)[0] == line;
    }
  }

  /** The lines of a history are what its calls write. */
  lemma {:induction false} LinesOfCalls(calls: seq<LcdCall>, line: Line)
    ensures line in AllLines(calls) <==> Written(calls, line)
    decreases |calls|
  {
    if calls != [] {
      var before, last := calls[..|calls| - 1], calls[|calls| - 1];
      LinesOfCalls(before, line);
      LineOfCall(last, line);
      assert calls == before + [last];
      assert line in AllLines(calls) <==> line in AllLines(before) || line in Lines(last);
      if line in Lines(last) { assert last in calls; }
    }
  }

  /** After any calls on a blank display, whatever numbers they show, every cell holds the
      latest character that landed there. */
  lemma CallsShow(font: Font, p: Panel, calls: seq<LcdCall>)
    requires p.pendingArgs == 0 && RowsBlank(p.ram, PAGES)
    ensures Shows(font, Decode(p, AllBytes(font, calls)).ram, AllLines(calls))
    ensures Decode(p, AllBytes(font, calls)).on == p.on
  {
    AllBytesAreLines(font, calls);
    RowsOfCalls(calls);
    LinesShow(font, p, AllLines(calls));
  }

  lemma RowsOfCalls(calls: seq<LcdCall>)
    ensures forall k :: 0 <= k < |AllLines(calls)| ==> AllLines(calls)[k].row < PAGES
  {
    forall k | 0 <= k < |AllLines(calls)| ensures AllLines(calls)[k].row < PAGES {
      LinesOfCalls(calls, AllLines(calls)[k]);
    }
  }

  ghost predicate NoneLongerIn(calls: seq<LcdCall>, row: nat, n: nat)
  {
    forall c :: c in calls && TextIn(c, row).Some? ==> |TextIn(c, row).value| <= n
  }

  lemma NoneLongerOfCalls(calls: seq<LcdCall>, row: nat, n: nat)
    ensures NoneLonger(AllLines(calls), row, n) <==> NoneLongerIn(calls, row, n)
  {
    var lines := AllLines(calls);
    if NoneLonger(lines, row, n) {
      forall c | c in calls && TextIn(c, row).Some? ensures |TextIn(c, row).value| <= n {
        var line := Line(row, TextIn(c, row).value);
        assert Written(calls, line);
        LinesOfCalls(calls, line);
        var k :| 0 <= k < |lines| && lines[k] == line;
      }
    }
    if NoneLongerIn(calls, row, n) {
      forall k | 0 <= k < |lines| && lines[k].row == row ensures |lines[k].text| <= n {
        LinesOfCalls(calls, lines[k]);
      }
    }
  }

  /** A row reads its last text if no call wrote a longer one there. */
  lemma RowOfCalls(font: Font, ram: Ram, calls: seq<LcdCall>, row: nat, t: string)
    requires row < PAGES && Shows(font, ram, AllLines(calls)) && LastTextIn(calls, row) == Some(t)
    requires |t| <= 16 && NoneLongerIn(calls, row, |t|)
    ensures RowReads(font, ram, row, t)
  {
    LastTextOfCalls(calls, row);
    NoneLongerOfCalls(calls, row, |t|);
    RowReadsShortest(font, ram, AllLines(calls), row, t);
  }

  /** Where the texts end in visible characters, it does so only then: the driver never
      blanks what a shorter text leaves behind. */
  lemma RowOfCallsExactly(font: Font, ram: Ram, calls: seq<LcdCall>, row: nat, t: string)
    requires row < PAGES && Shows(font, ram, AllLines(calls)) && LastTextIn(calls, row) == Some(t)
    requires forall c :: c in calls && TextIn(c, row).Some? ==>
      Fits(Line(row, TextIn(c, row).value)) && EndsPrinting(Line(row, TextIn(c, row).value))
    ensures RowReads(font, ram, row, t) <==> NoneLongerIn(calls, row, |t|)
  {
    LastTextOfCalls(calls, row);
    NoneLongerOfCalls(calls, row, |t|);
    var lines := AllLines(calls);
    forall k | 0 <= k < |lines| && lines[k].row == row ensures Fits(lines[k]) && EndsPrinting(lines[k]) {
      LinesOfCalls(calls, lines[k]);
    }
    RowReadsLast(font, ram, lines, row, t);
  }

  /** After a header and whatever else, rows 0 to 2 read the header. */
  lemma HeaderStays(font: Font, ram: Ram, calls: seq<LcdCall>, row: nat)
    requires Shows(font, ram, AllLines(calls)) && WriteHeader in calls && row < 3
    ensures RowReads(font, ram, row, HEADER[row])
  {
    HeaderText(calls, row);
    RowOfCalls(font, ram, calls, row, HEADER[row]);
  }

  lemma {:induction false} HeaderText(calls: seq<LcdCall>, row: nat)
    requires WriteHeader in calls && row < 3
    ensures LastTextIn(calls, row) == Some(HEADER[row])
    decreases |calls|
  {
    var before, last := calls[..|calls| - 1], calls[|calls| - 1];
    if last != WriteHeader {
      assert before + [last] == calls;
      HeaderText(before, row);
    }
  }

  /** Row 3 always reads the last mode written: both mode texts are equally long. */
  lemma ModeRow(font: Font, ram: Ram, calls: seq<LcdCall>, mode: int)
    requires Shows(font, ram, AllLines(calls)) && FanRuns.LastMode(calls) == Some(mode)
    ensures RowReads(font, ram, 3, ModeText(mode))
  {
    LastModeText(calls);
    RowOfCalls(font, ram, calls, 3, ModeText(mode));
  }

  lemma {:induction false} LastModeText(calls: seq<LcdCall>)
    ensures LastTextIn(calls, 3)
         == if FanRuns.LastMode(calls).Some? then Some(ModeText(FanRuns.LastMode(calls).value)) else None
    decreases |calls|
  {
    if calls != [] { LastModeText(calls[..|calls| - 1]); }
  }

  /** Row 4 reads exactly the last frequency if and only if no longer one was shown. */
  lemma FreqRow(font: Font, ram: Ram, calls: seq<LcdCall>, freq: int)
    requires Shows(font, ram, AllLines(calls)) && LastTextIn(calls, 4) == Some(FreqText(freq))
    requires NoneLongerIn(calls, 4, 16)
    ensures RowReads(font, ram, 4, FreqText(freq))
       <==> forall f :: WriteFreq(f) in calls ==> |Decimal(f)| <= |Decimal(freq)|
  {
    forall c | c in calls && TextIn(c, 4).Some? ensures EndsPrinting(Line(4, TextIn(c, 4).value)) {
      FreqTextEnds(c.freq);
    }
    RowOfCallsExactly(font, ram, calls, 4, FreqText(freq));
    FreqLengths(calls, |Decimal(freq)|);
  }

  lemma FreqLengths(calls: seq<LcdCall>, n: nat)
    ensures NoneLongerIn(calls, 4, 11 + n) <==> forall f :: WriteFreq(f) in calls ==> |Decimal(f)| <= n
  {
    forall f ensures |FreqText(f)| == 11 + |Decimal(f)| && TextIn(WriteFreq(f), 4) == Some(FreqText(f)) {}
  }

  lemma FreqTextEnds(freq: int)
    ensures EndsPrinting(Line(4, FreqText(freq)))
  {
    var text := FreqText(freq);
    assert text[|text| - 1] == ']';
  }

  lemma TempTextEnds(temp: int)
    ensures EndsPrinting(Line(5, TempText(temp)))
  {
    var digits := Digits(if temp < 0 then -temp else temp);
    var text := TempText(temp);
    assert text[|text| - 1] == digits[|digits| - 1] && IsDigit(digits[|digits| - 1]);
  }

  lemma TempLengths(calls: seq<LcdCall>, n: nat)
    ensures NoneLongerIn(calls, 5, 10 + n) <==> forall t :: WriteTemp(t) in calls ==> |Decimal(t)| <= n
  {
    forall t ensures |TempText(t)| == 10 + |Decimal(t)| && TextIn(WriteTemp(t), 5) == Some(TempText(t)) {}
  }

  /** The same for the temperature in row 5. */
  lemma TempRow(font: Font, ram: Ram, calls: seq<LcdCall>, temp: int)
    requires Shows(font, ram, AllLines(calls)) && LastTextIn(calls, 5) == Some(TempText(temp))
    requires NoneLongerIn(calls, 5, 16)
    ensures RowReads(font, ram, 5, TempText(temp))
       <==> forall t :: WriteTemp(t) in calls ==> |Decimal(t)| <= |Decimal(temp)|
  {
    forall c | c in calls && TextIn(c, 5).Some? ensures EndsPrinting(Line(5, TextIn(c, 5).value)) {
      TempTextEnds(c.temp);
    }
    RowOfCallsExactly(font, ram, calls, 5, TempText(temp));
    TempLengths(calls, |Decimal(temp)|);
  }

  // ----- what it all tells -----

  /** The two mode texts can be told apart: the row reads as automatic exactly in mode 0. */
  lemma ModeReads(font: Font, ram: Ram, mode: int)
    requires RowReads(font, ram, 3, ModeText(mode))
    ensures RowReads(font, ram, 3, "Auto mode   ") <==> mode == 0
    ensures RowReads(font, ram, 3, "Manual mode ") <==> mode != 0
  {
    var auto, manual := "Auto mode   ", "Manual mode ";
    assert Padded(auto, 0) == 'A' && Padded(manual, 0) == 'M';
    assert GlyphOf(font, 'A') != GlyphOf(font, 'M');
    assert RowReads(font, ram, 3, auto) ==> CellAt(ram, 3, 0) == GlyphOf(font, Padded(auto, 0));
    assert RowReads(font, ram, 3, manual) ==> CellAt(ram, 3, 0) == GlyphOf(font, Padded(manual, 0));
  }

  function RowOf(line: FanRuns.LcdLine): nat
  {
    match line case ModeLine => 3 case FreqLine => 4 case TempLine => 5
  }

  lemma {:induction false} LastTextOfLine(calls: seq<LcdCall>, line: FanRuns.LcdLine)
    ensures var call := FanRuns.LastCall(calls, line);
      LastTextIn(calls, RowOf(line)) == if call.Some? then TextIn(call.value, RowOf(line)) else None
    decreases |calls|
  {
    if calls != [] { LastTextOfLine(calls[..|calls| - 1], line); }
  }

  lemma {:induction false} LastTextStarts(lines: seq<Line>, row: nat, t: string, d: nat)
    requires LastText(lines, row) == Some(t) && |t| <= 16 && d < |t|
    ensures Shown(lines, row, d) == t[d]
    decreases |lines|
  {
    if lines[|lines| - 1].row != row {
      LastTextStarts(lines[..|lines| - 1], row, t, d);
    } else {
      LastInShort(|t|, d);
    }
  }

  /** A row always begins with its last text, whatever stood there before. */
  lemma RowStartsWithLast(font: Font, ram: Ram, calls: seq<LcdCall>, row: nat, t: string)
    requires row < PAGES && Shows(font, ram, AllLines(calls)) && LastTextIn(calls, row) == Some(t) && |t| <= 16
    ensures RowStarts(font, ram, row, t)
  {
    LastTextOfCalls(calls, row);
    forall d | 0 <= d < |t| ensures CellAt(ram, row, d) == GlyphOf(font, t[d]) {
      LastTextStarts(AllLines(calls), row, t, d);
      assert CellAt(ram, row, d) == GlyphOf(font, Shown(AllLines(calls), row, d));
    }
  }

  /** The row of the last frequency, as far as it fits. */
  lemma FreqReads(font: Font, ram: Ram, calls: seq<LcdCall>, freq: int)
    requires Shows(font, ram, AllLines(calls))
    requires FanRuns.LastCall(calls, FanRuns.FreqLine) == Some(WriteFreq(freq))
    ensures |Decimal(freq)| <= 5 ==> RowStarts(font, ram, 4, "Freq: " + Decimal(freq) + " [Hz]")
    ensures NoneLongerIn(calls, 4, 16) ==>
      (RowReads(font, ram, 4, "Freq: " + Decimal(freq) + " [Hz]")
       <==> forall f :: WriteFreq(f) in calls ==> |Decimal(f)| <= |Decimal(freq)|)
  {
    LastTextOfLine(calls, FanRuns.FreqLine);
    assert LastTextIn(calls, 4) == Some(FreqText(freq));
    if |Decimal(freq)| <= 5 { RowStartsWithLast(font, ram, calls, 4, FreqText(freq)); }
    if NoneLongerIn(calls, 4, 16) { FreqRow(font, ram, calls, freq); }
  }

  /** And of the last temperature. */
  lemma TempReads(font: Font, ram: Ram, calls: seq<LcdCall>, temp: int)
    requires Shows(font, ram, AllLines(calls))
    requires FanRuns.LastCall(calls, FanRuns.TempLine) == Some(WriteTemp(temp))
    ensures |Decimal(temp)| <= 6 ==> RowStarts(font, ram, 5, "CPU temp: " + Decimal(temp))
    ensures NoneLongerIn(calls, 5, 16) ==>
      (RowReads(font, ram, 5, "CPU temp: " + Decimal(temp))
       <==> forall t :: WriteTemp(t) in calls ==> |Decimal(t)| <= |Decimal(temp)|)
  {
    LastTextOfLine(calls, FanRuns.TempLine);
    assert LastTextIn(calls, 5) == Some(TempText(temp));
    if |Decimal(temp)| <= 6 { RowStartsWithLast(font, ram, calls, 5, TempText(temp)); }
    if NoneLongerIn(calls, 5, 16) { TempRow(font, ram, calls, temp); }
  }

  /** The header as it stands on the panel. */
  predicate HeaderReads(font: Font, ram: Ram)
  {
    && RowReads(font, ram, 0, "CSEL1a - Projet")
    && RowReads(font, ram, 1, "  Daemon")
    && RowReads(font, ram, 2, "--------------")
  }

  ghost predicate FreqWritten(calls: seq<LcdCall>) { exists n :: WriteFreq(n) in calls }

  ghost predicate TempWritten(calls: seq<LcdCall>) { exists t :: WriteTemp(t) in calls }

  /** What the panel reads when the daemon is in state f: the header, the mode, and each
      number once one was written. */
  ghost predicate Tells(font: Font, ram: Ram, f: Fan)
  {
    && HeaderReads(font, ram)
    && (RowReads(font, ram, 3, "Auto mode   ") <==> f.curMode == 0)
    && (RowReads(font, ram, 3, "Manual mode ") <==> f.curMode != 0)
    && (FreqWritten(f.lcd) ==>
          && (|Decimal(f.curFreq)| <= 5 ==> RowStarts(font, ram, 4, "Freq: " + Decimal(f.curFreq) + " [Hz]"))
          && (NoneLongerIn(f.lcd, 4, 16) ==>
                (RowReads(font, ram, 4, "Freq: " + Decimal(f.curFreq) + " [Hz]")
                 <==> forall n :: WriteFreq(n) in f.lcd ==> |Decimal(n)| <= |Decimal(f.curFreq)|)))
    && (TempWritten(f.lcd) ==>
          && (|Decimal(f.curTemp)| <= 6 ==> RowStarts(font, ram, 5, "CPU temp: " + Decimal(f.curTemp)))
          && (NoneLongerIn(f.lcd, 5, 16) ==>
                (RowReads(font, ram, 5, "CPU temp: " + Decimal(f.curTemp))
                 <==> forall t :: WriteTemp(t) in f.lcd ==> |Decimal(t)| <= |Decimal(f.curTemp)|)))
  }

  lemma {:induction false} WrittenHasLast(calls: seq<LcdCall>, call: LcdCall, line: FanRuns.LcdLine)
    requires call in calls && FanRuns.LineOf(call) == Some(line)
    ensures FanRuns.LastCall(calls, line).Some?
    decreases |calls|
  {
    var before, last := calls[..|calls| - 1], calls[|calls| - 1];
    if FanRuns.LineOf(last) != Some(line) {
      assert calls == before + [last];
      WrittenHasLast(before, call, line);
    }
  }

  lemma {:induction false} LastIsWritten(calls: seq<LcdCall>, line: FanRuns.LcdLine)
    requires FanRuns.LastCall(calls, line).Some?
    ensures FanRuns.LastCall(calls, line).value in calls
    decreases |calls|
  {
    var before, last := calls[..|calls| - 1], calls[|calls| - 1];
    assert calls == before + [last];
    if FanRuns.LineOf(last) != Some(line) { LastIsWritten(before, line); }
  }

  lemma NumbersTold(font: Font, ram: Ram, f: Fan)
    requires Shows(font, ram, AllLines(f.lcd)) && FanRuns.UpToDate(f)
    ensures FreqWritten(f.lcd) ==> FanRuns.LastCall(f.lcd, FanRuns.FreqLine) == Some(WriteFreq(f.curFreq))
    ensures TempWritten(f.lcd) ==> FanRuns.LastCall(f.lcd, FanRuns.TempLine) == Some(WriteTemp(f.curTemp))
  {
    if n :| WriteFreq(n) in f.lcd { WrittenHasLast(f.lcd, WriteFreq(n), FanRuns.FreqLine); }
    if t :| WriteTemp(t) in f.lcd { WrittenHasLast(f.lcd, WriteTemp(t), FanRuns.TempLine); }
  }

  /** Where every cell shows its latest character and no line is stale, the panel tells. */
  lemma CallsTell(font: Font, ram: Ram, f: Fan)
    requires Shows(font, ram, AllLines(f.lcd)) && FanRuns.UpToDate(f)
    requires WriteHeader in f.lcd && FanRuns.LastMode(f.lcd) == Some(f.curMode)
    ensures Tells(font, ram, f)
  {
    forall row | 0 <= row < 3 ensures RowReads(font, ram, row, HEADER[row]) {
      HeaderStays(font, ram, f.lcd, row);
    }
    ModeRow(font, ram, f.lcd, f.curMode);
    ModeReads(font, ram, f.curMode);
    NumbersTold(font, ram, f);
    if FreqWritten(f.lcd) { FreqReads(font, ram, f.lcd, f.curFreq); }
    if TempWritten(f.lcd) { TempReads(font, ram, f.lcd, f.curTemp); }
  }

  /** From start-up on a dark display, whatever events come and whatever numbers are shown:
      the bytes of the daemon's calls leave the header in place, its mode in row 3, and its
      frequency and temperature in rows 4 and 5, once an event brought them. */
  lemma DisplayFollowsDaemon(font: Font, dark: Panel, freq: int, mode: bool, readable: bool, es: seq<Event>)
    requires dark.pendingArgs == 0 && RowsBlank(dark.ram, PAGES)
    ensures var s := Run(Start(freq, mode, readable), es);
      var p := Decode(dark, AllBytes(font, s.lcd));
      && Tells(font, p.ram, s) && p.on == dark.on
      && (FreqReady in es ==> FreqWritten(s.lcd))
      && ((exists temp :: TempReady(temp) in es) ==> TempWritten(s.lcd))
  {
    var start := Start(freq, mode, readable);
    var s := Run(start, es);
    CallsShow(font, dark, s.lcd);
    FanRuns.StartUpToDate(freq, mode, readable);
    FanRuns.AlwaysUpToDate(start, es);
    FanRuns.DisplayedMode(start, es);
    HeaderWritten(freq, mode, readable, es);
    CallsTell(font, Decode(dark, AllBytes(font, s.lcd)).ram, s);
    EventsWrite(start, es);
  }

  lemma HeaderWritten(freq: int, mode: bool, readable: bool, es: seq<Event>)
    ensures WriteHeader in Run(Start(freq, mode, readable), es).lcd
  {
    var start := Start(freq, mode, readable);
    FanRuns.LcdGrows(start, es);
    assert start.lcd[0] == WriteHeader;
    assert Run(start, es).lcd[0] == WriteHeader;
  }

  lemma EventsWrite(s: Fan, es: seq<Event>)
    ensures FreqReady in es ==> FreqWritten(Run(s, es).lcd)
    ensures (exists temp :: TempReady(temp) in es) ==> TempWritten(Run(s, es).lcd)
  {
    if i :| 0 <= i < |es| && es[i] == FreqReady {
      FanRuns.DisplayedNumbers(s, es, i);
      LastIsWritten(Run(s, es).lcd, FanRuns.FreqLine);
    }
    if i :| 0 <= i < |es| && es[i].TempReady? {
      FanRuns.DisplayedNumbers(s, es, i);
      LastIsWritten(Run(s, es).lcd, FanRuns.TempLine);
    }
  }
}
