/** The display driver: text turned into bus bytes. The bytes of every call are given as
    a sequence, the methods send them one by one. */
module Ssd1306 {
  import opened OledPanel

  // ----- what each call sends -----

  function PositionBytes(column: nat, row: nat): seq<BusByte>
  {
    [Cmd((0xb0 + row) % 256), Cmd(8 * column % 16), Cmd(0x10 + 8 * column / 16 % 16)]
  }

  function GlyphBytes(g: seq<Byte>): (bs: seq<BusByte>)
    ensures |bs| == |g|
  {
    seq(|g|, i requires 0 <= i < |g| => Data(g[i]))
  }

  function PutsBytes(font: Font, s: string): seq<BusByte>
  {
    if s == [] then []
    else PutsBytes(font, s[..|s| - 1]) + GlyphBytes(GlyphOf(font, s[|s| - 1]))
  }

  function TextBytes(font: Font, row: nat, s: string): seq<BusByte>
  {
    PositionBytes(0, row) + PutsBytes(font, s)
  }

  const BLANK_ROW: string := "                "

  function ClearRowsBytes(font: Font, rows: nat): seq<BusByte>
  {
    if rows == 0 then [] else ClearRowsBytes(font, rows - 1) + TextBytes(font, rows - 1, BLANK_ROW)
  }

  function ClearBytes(font: Font): seq<BusByte>
  {
    [Cmd(0xAE)] + ClearRowsBytes(font, PAGES) + [Cmd(0xAF)] + PositionBytes(0, 0)
  }

  const INIT_COMMANDS: seq<Byte> :=
    [0xAE, 0x00, 0x10, 0x40, 0xB0, 0x81, 0xCF, 0xA1, 0xA6, 0xA8, 0x3F, 0xC8, 0xD3, 0x00,
     0xD5, 0x80, 0xD9, 0xF1, 0xDA, 0x12, 0xDB, 0x40, 0x8D, 0x14, 0xAF]

  function CommandBytes(commands: seq<Byte>): seq<BusByte>
  {
    seq(|commands|, i requires 0 <= i < |commands| => Cmd(commands[i]))
  }

  // ----- what the panel makes of it -----

  /** The low nibble, then the high nibble of a column address. */
  lemma ColumnNibbles(p: Panel, column: nat)
    requires p.pendingArgs == 0 && column < COLUMNS
    ensures Step(Step(p, Cmd(column % 16)), Cmd(0x10 + column / 16)) == p.(column := column)
  {
    var low := p.(column := p.column / 16 * 16 + column % 16);
    assert Step(p, Cmd(column % 16)) == low;
    assert low.column % 16 == column % 16;
  }

  lemma PositionEffect(p: Panel, column: nat, row: nat)
    requires p.pendingArgs == 0 && column < 16 && row < PAGES
    ensures Decode(p, PositionBytes(column, row)) == p.(page := row, column := 8 * column)
  {
    var page, low, high := Cmd(0xb0 + row), Cmd(8 * column % 16), Cmd(0x10 + 8 * column / 16);
    assert PositionBytes(column, row) == [page] + [low] + [high];
    DecodeOne(p, page);
    DecodeSnoc(p, [page], low);
    DecodeSnoc(p, [page] + [low], high);
    ColumnNibbles(p.(page := row), 8 * column);
  }

  lemma DecodeOne(p: Panel, b: BusByte)
    ensures Decode(p, [b]) == Step(p, b)
  {
    assert Decode(Step(p, b), []) == Step(p, b);
  }

  /** q is p after the first n bytes of a glyph were written at the start of a cell. */
  predicate GlyphPart(p: Panel, q: Panel, g: Glyph, n: nat)
  {
    var at := COLUMNS * p.page + p.column;
    && q.page == p.page && q.pendingArgs == p.pendingArgs && q.on == p.on && q.column == (p.column + n) % COLUMNS
    && forall k :: 0 <= k < RAM_SIZE ==> q.ram[k] == if at <= k < at + n <= at + 8 then g[k - at] else p.ram[k]
  }

  lemma GlyphPartStep(p: Panel, q: Panel, g: Glyph, n: nat)
    requires p.column % 8 == 0 && n < 8 && GlyphPart(p, q, g, n)
    ensures GlyphPart(p, Step(q, Data(g[n])), g, n + 1)
  {
    assert p.column <= 120 && q.column == p.column + n;
  }

  lemma {:induction false} PartialGlyph(p: Panel, g: Glyph, n: nat)
    requires p.column % 8 == 0 && n <= 8
    ensures GlyphPart(p, Decode(p, GlyphBytes(g[..n])), g, n)
  {
    if n > 0 {
      PartialGlyph(p, g, n - 1);
      assert GlyphBytes(g[..n]) == GlyphBytes(g[..n - 1]) + [Data(g[n - 1])];
      DecodeSnoc(p, GlyphBytes(g[..n - 1]), Data(g[n - 1]));
      GlyphPartStep(p, Decode(p, GlyphBytes(g[..n - 1])), g, n - 1);
    }
  }

  /** A character fills the cell the cursor is at and moves on, from column 15 to 0. */
  lemma PutcEffect(p: Panel, g: Glyph)
    requires p.column % 8 == 0
    ensures Decode(p, GlyphBytes(g))
         == p.(column := (p.column + 8) % COLUMNS, ram := WithCell(p.ram, 16 * p.page + p.column / 8, g))
  {
    PartialGlyph(p, g, 8);
    assert g[..8] == g;
    WholeGlyph(p, Decode(p, GlyphBytes(g)), g);
  }

  lemma WholeGlyph(p: Panel, q: Panel, g: Glyph)
    requires p.column % 8 == 0 && GlyphPart(p, q, g, 8)
    ensures q.ram == WithCell(p.ram, 16 * p.page + p.column / 8, g)
  {
    var at := COLUMNS * p.page + p.column;
    assert 8 * (16 * p.page + p.column / 8) == at;
    assert q.ram == p.ram[..at] + g + p.ram[at + 8..];
  }

  /** q is p after text s was put from column c on: each character's glyph is in its cell,
      wrapped inside the row, the later character winning; no other cell changed. */
  predicate TextPut(font: Font, p: Panel, q: Panel, c: nat, s: string)
  {
    && q.page == p.page && q.pendingArgs == p.pendingArgs && q.on == p.on
    && q.column == 8 * Landing(c, |s|)
    && TextWritten(font, p.ram, q.ram, p.page, c, s)
  }

  lemma TextPutStep(font: Font, p: Panel, q: Panel, c: nat, s: string, ch: char)
    requires TextPut(font, p, q, c, s)
    ensures TextPut(font, p, Decode(q, GlyphBytes(GlyphOf(font, ch))), c, s + [ch])
  {
    var g, at := GlyphOf(font, ch), 16 * p.page + Landing(c, |s|);
    LandingNext(c, |s|);
    PutcEffect(q, g);
    assert Decode(q, GlyphBytes(g)) == q.(column := 8 * Landing(c, |s| + 1), ram := WithCell(q.ram, at, g));
    TextWrittenAppend(font, p.ram, q.ram, p.page, c, s, ch);
  }

  lemma TextPutNothing(font: Font, p: Panel, c: nat)
    requires c < 16 && p.column == 8 * c
    ensures TextPut(font, p, p, c, "")
  {
  }

  lemma PutsBytesStep(font: Font, p: Panel, s: string, ch: char)
    ensures Decode(p, PutsBytes(font, s + [ch])) == Decode(Decode(p, PutsBytes(font, s)), GlyphBytes(GlyphOf(font, ch)))
  {
    assert (s + [ch])[..|s|] == s;
    DecodeConcat(p, PutsBytes(font, s), GlyphBytes(GlyphOf(font, ch)));
  }

  /** Refinement: the bytes of a string write it, as text, from the cursor's cell on. */
  lemma {:induction false} PutsEffect(font: Font, p: Panel, c: nat, s: string)
    requires c < 16 && p.column == 8 * c
    ensures TextPut(font, p, Decode(p, PutsBytes(font, s)), c, s)
    decreases |s|
  {
    if s == [] {
      TextPutNothing(font, p, c);
    } else {
      var before, ch := s[..|s| - 1], s[|s| - 1];
      assert before + [ch] == s;
      PutsEffect(font, p, c, before);
      PutsBytesStep(font, p, before, ch);
      TextPutStep(font, p, Decode(p, PutsBytes(font, before)), c, before, ch);
    }
  }

  /** Positioning and then putting a string, for every row, column and string. */
  lemma TextAtEffect(font: Font, p: Panel, column: nat, row: nat, s: string)
    requires p.pendingArgs == 0 && column < 16 && row < PAGES
    ensures var q := Decode(p, PositionBytes(column, row) + PutsBytes(font, s));
      && q.page == row && q.column == 8 * Landing(column, |s|) && q.pendingArgs == 0 && q.on == p.on
      && TextWritten(font, p.ram, q.ram, row, column, s)
  {
    DecodeConcat(p, PositionBytes(column, row), PutsBytes(font, s));
    PositionEffect(p, column, row);
    PutsEffect(font, p.(page := row, column := 8 * column), column, s);
  }

  lemma TextEffect(font: Font, p: Panel, row: nat, s: string)
    requires p.pendingArgs == 0 && row < PAGES
    ensures var q := Decode(p, TextBytes(font, row, s));
      q.pendingArgs == 0 && q.on == p.on && TextWritten(font, p.ram, q.ram, row, 0, s)
  {
    TextAtEffect(font, p, 0, row, s);
  }

  // ----- clearing and initialising -----

  /** Text that fits in a row stays where it is written. */
  lemma {:induction false} LastInShort(count: nat, d: nat)
    requires count <= 16 && d < 16
    ensures LastIn(0, count, d) == if d < count then d else -1
  {
    if count > 0 { LastInShort(count - 1, d); }
  }

  predicate RowsBlank(ram: Ram, rows: nat)
    requires rows <= PAGES
  {
    forall i :: 0 <= i < 16 * rows ==> Cell(ram, i) == BLANK
  }

  lemma {:induction false} ClearRowsEffect(font: Font, p: Panel, rows: nat)
    requires p.pendingArgs == 0 && rows <= PAGES
    ensures var q := Decode(p, ClearRowsBytes(font, rows));
      q.pendingArgs == 0 && RowsBlank(q.ram, rows)
  {
    if rows > 0 {
      ClearRowsEffect(font, p, rows - 1);
      var q := Decode(p, ClearRowsBytes(font, rows - 1));
      DecodeConcat(p, ClearRowsBytes(font, rows - 1), TextBytes(font, rows - 1, BLANK_ROW));
      TextEffect(font, q, rows - 1, BLANK_ROW);
      BlankRowStep(font, q.ram, Decode(q, TextBytes(font, rows - 1, BLANK_ROW)).ram, rows - 1);
    }
  }

  lemma BlankRowStep(font: Font, before: Ram, after: Ram, row: nat)
    requires row < PAGES && RowsBlank(before, row)
    requires TextWritten(font, before, after, row, 0, BLANK_ROW)
    ensures RowsBlank(after, row + 1)
  {
    forall i | 0 <= i < 16 * (row + 1) ensures Cell(after, i) == BLANK {
      LastInShort(16, i % 16);
      assert Cell(after, i) == CellAfter(font, before, row, 0, BLANK_ROW, i);
    }
  }

  lemma BlankRam(ram: Ram)
    requires RowsBlank(ram, PAGES)
    ensures forall k :: 0 <= k < RAM_SIZE ==> ram[k] == 0
  {
    forall k | 0 <= k < RAM_SIZE ensures ram[k] == 0 {
      assert Cell(ram, k / 8)[k % 8] == ram[k];
    }
  }

  /** Clearing leaves a dark RAM, the cursor at the origin and the display on, wherever it
      started. */
  lemma ClearEffect(font: Font, p: Panel)
    requires p.pendingArgs == 0
    ensures var q := Decode(p, ClearBytes(font));
      && q.page == 0 && q.column == 0 && q.pendingArgs == 0 && q.on
      && RowsBlank(q.ram, PAGES) && forall k :: 0 <= k < RAM_SIZE ==> q.ram[k] == 0
  {
    var off, rows := [Cmd(0xAE)], ClearRowsBytes(font, PAGES);
    var dark := p.(on := false);
    var q := Decode(dark, rows);
    DecodeOne(p, Cmd(0xAE));
    DecodeConcat(p, off, rows);
    ClearRowsEffect(font, dark, PAGES);
    DecodeSnoc(p, off + rows, Cmd(0xAF));
    DecodeConcat(p, off + rows + [Cmd(0xAF)], PositionBytes(0, 0));
    PositionEffect(q.(on := true), 0, 0);
    BlankRam(q.ram);
  }

  lemma ClearRowsStep(font: Font, p: Panel, j: nat)
    ensures Decode(p, [Cmd(0xAE)] + ClearRowsBytes(font, j + 1))
         == Decode(Decode(Decode(p, [Cmd(0xAE)] + ClearRowsBytes(font, j)), PositionBytes(0, j)), PutsBytes(font, BLANK_ROW))
  {
    var before := [Cmd(0xAE)] + ClearRowsBytes(font, j);
    assert [Cmd(0xAE)] + ClearRowsBytes(font, j + 1) == before + TextBytes(font, j, BLANK_ROW);
    DecodeConcat(p, before, TextBytes(font, j, BLANK_ROW));
    DecodeConcat(Decode(p, before), PositionBytes(0, j), PutsBytes(font, BLANK_ROW));
  }

  /** Commands that, read with their arguments, leave cursor and display state alone. */
  predicate SettingsOnly(commands: seq<Byte>)
    decreases |commands|
  {
    commands == []
    || (0x20 <= commands[0] && !(0xAE <= commands[0] <= 0xB7)
        && ArgumentCount(commands[0]) < |commands|
        && SettingsOnly(commands[1 + ArgumentCount(commands[0])..]))
  }

  /** Argument bytes are consumed, whatever they would mean as commands. */
  lemma {:induction false} ArgumentsSkipped(p: Panel, arguments: seq<Byte>)
    requires p.pendingArgs == |arguments|
    ensures Decode(p, CommandBytes(arguments)) == p.(pendingArgs := 0)
    decreases |arguments|
  {
    if arguments != [] {
      assert CommandBytes(arguments)[1..] == CommandBytes(arguments[1..]);
      ArgumentsSkipped(p.(pendingArgs := p.pendingArgs - 1), arguments[1..]);
    }
  }

  lemma {:induction false} SettingsKeepCursor(p: Panel, commands: seq<Byte>)
    requires p.pendingArgs == 0 && SettingsOnly(commands)
    ensures Decode(p, CommandBytes(commands)) == p
    decreases |commands|
  {
    if commands != [] {
      var n := ArgumentCount(commands[0]);
      var arguments, rest := commands[1..1 + n], commands[1 + n..];
      assert CommandBytes(commands) == [Cmd(commands[0])] + CommandBytes(arguments) + CommandBytes(rest);
      DecodeOne(p, Cmd(commands[0]));
      DecodeConcat(p, [Cmd(commands[0])], CommandBytes(arguments));
      DecodeConcat(p, [Cmd(commands[0])] + CommandBytes(arguments), CommandBytes(rest));
      ArgumentsSkipped(p.(pendingArgs := n), arguments);
      SettingsKeepCursor(p, rest);
    }
  }

  const CURSOR_COMMANDS: seq<Byte> := [0xAE, 0x00, 0x10, 0x40, 0xB0]
  const CONTRAST: seq<Byte> := [0x81, 0xCF, 0xA1, 0xA6]
  const GEOMETRY: seq<Byte> := [0xA8, 0x3F, 0xC8, 0xD3, 0x00, 0xD5, 0x80]
  const POWER: seq<Byte> := [0xD9, 0xF1, 0xDA, 0x12, 0xDB, 0x40, 0x8D, 0x14]

  lemma InitParts()
    ensures INIT_COMMANDS == CURSOR_COMMANDS + CONTRAST + GEOMETRY + POWER + [0xAF]
    ensures SettingsOnly(CONTRAST) && SettingsOnly(GEOMETRY) && SettingsOnly(POWER)
  {
    ContrastSettings();
    GeometrySettings();
    PowerSettings();
  }

  lemma ContrastSettings()
    ensures SettingsOnly(CONTRAST)
  {
    assert SettingsOnly(CONTRAST[3..]) by { assert CONTRAST[3..][1..] == []; }
    assert SettingsOnly(CONTRAST[2..]) by { assert CONTRAST[2..][1..] == CONTRAST[3..]; }
  }

  lemma GeometrySettings()
    ensures SettingsOnly(GEOMETRY)
  {
    assert SettingsOnly(GEOMETRY[5..]) by { assert GEOMETRY[5..][2..] == []; }
    assert SettingsOnly(GEOMETRY[3..]) by { assert GEOMETRY[3..][2..] == GEOMETRY[5..]; }
    assert SettingsOnly(GEOMETRY[2..]) by { assert GEOMETRY[2..][1..] == GEOMETRY[3..]; }
  }

  lemma PowerSettings()
    ensures SettingsOnly(POWER)
  {
    assert SettingsOnly(POWER[6..]) by { assert POWER[6..][2..] == []; }
    assert SettingsOnly(POWER[4..]) by { assert POWER[4..][2..] == POWER[6..]; }
    assert SettingsOnly(POWER[2..]) by { assert POWER[2..][2..] == POWER[4..]; }
  }

  lemma CursorReset(p: Panel)
    requires p.pendingArgs == 0
    ensures Decode(p, CommandBytes(CURSOR_COMMANDS)) == p.(page := 0, column := 0, on := false)
  {
    var off, low, high, line, page := Cmd(0xAE), Cmd(0x00), Cmd(0x10), Cmd(0x40), Cmd(0xB0);
    assert CommandBytes(CURSOR_COMMANDS) == [off] + [low] + [high] + [line] + [page];
    DecodeOne(p, off);
    DecodeSnoc(p, [off], low);
    DecodeSnoc(p, [off] + [low], high);
    DecodeSnoc(p, [off] + [low] + [high], line);
    DecodeSnoc(p, [off] + [low] + [high] + [line], page);
    ColumnNibbles(p.(on := false), 0);
  }

  /** The initialisation sequence moves the cursor to the origin and ends with the display
      on. */
  lemma InitEffect(p: Panel)
    requires p.pendingArgs == 0
    ensures Decode(p, CommandBytes(INIT_COMMANDS)) == p.(page := 0, column := 0, on := true)
  {
    var q := p.(page := 0, column := 0, on := false);
    InitParts();
    var a, b, c, d := CommandBytes(CURSOR_COMMANDS), CommandBytes(CONTRAST), CommandBytes(GEOMETRY), CommandBytes(POWER);
    assert CommandBytes(INIT_COMMANDS) == a + b + c + d + [Cmd(0xAF)];
    DecodeSnoc(p, a + b + c + d, Cmd(0xAF));
    DecodeConcat(p, a, b);
    DecodeConcat(p, a + b, c);
    DecodeConcat(p, a + b + c, d);
    CursorReset(p);
    SettingsKeepCursor(q, CONTRAST);
    SettingsKeepCursor(q, GEOMETRY);
    SettingsKeepCursor(q, POWER);
  }

  // ----- the driver -----

  /** The display on its bus. Every transfer reaches the panel. */
  class Oled {
    const font: Font
    var panel: Panel

    constructor (font: Font, panel: Panel)
      ensures this.font == font && this.panel == panel
    {
      this.font, this.panel := font, panel;
    }

    method SendCommand(cmd: Byte)
      modifies this
      ensures panel == Decode(old(panel), [Cmd(cmd)])
    {
      DecodeOne(panel, Cmd(cmd));
      panel := Step(panel, Cmd(cmd));
    }

    method SendData(byte: Byte)
      modifies this
      ensures panel == Decode(old(panel), [Data(byte)])
    {
      DecodeOne(panel, Data(byte));
      panel := Step(panel, Data(byte));
    }

    method SetPosition(column: nat, row: nat)
      modifies this
      ensures panel == Decode(old(panel), PositionBytes(column, row))
      ensures old(panel).pendingArgs == 0 && column < 16 && row < PAGES ==>
        panel == old(panel).(page := row, column := 8 * column)
    {
      var bytes := PositionBytes(column, row);
      assert bytes == [bytes[0]] + [bytes[1]] + [bytes[2]];
      DecodeConcat(panel, [bytes[0]], [bytes[1]]);
      DecodeConcat(panel, [bytes[0]] + [bytes[1]], [bytes[2]]);
      if panel.pendingArgs == 0 && column < 16 && row < PAGES { PositionEffect(panel, column, row); }
      SendCommand((0xb0 + row) % 256);
      SendCommand(8 * column % 16);
      SendCommand(0x10 + 8 * column / 16 % 16);
    }

    method Putc(ch: char)
      modifies this
      ensures panel == Decode(old(panel), GlyphBytes(GlyphOf(font, ch)))
    {
      var c := ch;
      if (c as int) < 32 || (c as int) > 127 {
        c := ' ';
      }
      var glyph := font[(c as int) - 32];
      for i := 0 to 8
        invariant panel == Decode(old(panel), GlyphBytes(glyph[..i]))
      {
        DecodeConcat(old(panel), GlyphBytes(glyph[..i]), [Data(glyph[i])]);
        assert GlyphBytes(glyph[..i + 1]) == GlyphBytes(glyph[..i]) + [Data(glyph[i])];
        SendData(glyph[i]);
      }
      assert glyph[..8] == glyph;
    }

    method Puts(text: string)
      modifies this
      ensures panel == Decode(old(panel), PutsBytes(font, text))
      ensures old(panel).column % 8 == 0 ==> TextPut(font, old(panel), panel, old(panel).column / 8, text)
    {
      for i := 0 to |text|
        invariant panel == Decode(old(panel), PutsBytes(font, text[..i]))
      {
        PutsBytesStep(font, old(panel), text[..i], text[i]);
        assert text[..i + 1] == text[..i] + [text[i]];
        Putc(text[i]);
      }
      assert text[..|text|] == text;
      if old(panel).column % 8 == 0 { PutsEffect(font, old(panel), old(panel).column / 8, text); }
    }

    method ClearDisplay()
      modifies this
      ensures panel == Decode(old(panel), ClearBytes(font))
    {
      ghost var start := panel;
      SendCommand(0xAE);
      DecodeConcat(start, [Cmd(0xAE)], ClearRowsBytes(font, 0));
      for j := 0 to PAGES
        invariant panel == Decode(start, [Cmd(0xAE)] + ClearRowsBytes(font, j))
      {
        ClearRowsStep(font, start, j);
        SetPosition(0, j);
        ghost var atRow := panel;
        for i := 0 to 16
          invariant panel == Decode(atRow, PutsBytes(font, BLANK_ROW[..i]))
        {
          PutsBytesStep(font, atRow, BLANK_ROW[..i], ' ');
          assert BLANK_ROW[..i + 1] == BLANK_ROW[..i] + [' '];
          Putc(' ');
        }
        assert BLANK_ROW[..16] == BLANK_ROW;
      }
      DecodeConcat(start, [Cmd(0xAE)] + ClearRowsBytes(font, PAGES), [Cmd(0xAF)]);
      SendCommand(0xAF);
      DecodeConcat(start, [Cmd(0xAE)] + ClearRowsBytes(font, PAGES) + [Cmd(0xAF)], PositionBytes(0, 0));
      SetPosition(0, 0);
    }

    /** From a panel between commands, whatever its RAM and cursor: all dark, at the origin.
        When the bus cannot be opened or the panel not addressed, nothing is sent. */
    method Init(busOpens: bool, addressed: bool) returns (status: int)
      requires panel.pendingArgs == 0
      modifies this
      ensures !(busOpens && addressed) ==> status == -1 && panel == old(panel)
      ensures busOpens && addressed ==>
        && status == 0
        && panel == Decode(old(panel), CommandBytes(INIT_COMMANDS) + ClearBytes(font))
        && panel.page == 0 && panel.column == 0 && panel.pendingArgs == 0 && panel.on
        && RowsBlank(panel.ram, PAGES) && forall k :: 0 <= k < RAM_SIZE ==> panel.ram[k] == 0
    {
      if !busOpens {
        return -1;
      }
      if !addressed {
        return -1;
      }
      for i := 0 to |INIT_COMMANDS|
        invariant panel == Decode(old(panel), CommandBytes(INIT_COMMANDS[..i]))
      {
        DecodeConcat(old(panel), CommandBytes(INIT_COMMANDS[..i]), [Cmd(INIT_COMMANDS[i])]);
        assert CommandBytes(INIT_COMMANDS[..i + 1]) == CommandBytes(INIT_COMMANDS[..i]) + [Cmd(INIT_COMMANDS[i])];
        SendCommand(INIT_COMMANDS[i]);
      }
      assert INIT_COMMANDS[..|INIT_COMMANDS|] == INIT_COMMANDS;
      InitEffect(old(panel));
      ClearEffect(font, panel);
      DecodeConcat(old(panel), CommandBytes(INIT_COMMANDS), ClearBytes(font));
      ClearDisplay();
      return 0;
    }
  }
}
