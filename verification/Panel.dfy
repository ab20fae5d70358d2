/** The SSD1306 panel as a decoder of the bytes on its bus, in page addressing mode
    (SSD1306 datasheet, sections 10.1.1 to 10.1.3, 10.1.12 and 10.1.13), and its text cells. */
module OledPanel {
  type Byte = b: int | 0 <= b < 256

  const PAGES := 8
  const COLUMNS := 128
  const RAM_SIZE := 1024
  const CELLS := 128           // 8 rows of 16 characters, 8 bytes each

  /** One two-byte transfer: a control byte, then a command or a data byte. */
  datatype BusByte = Cmd(value: Byte) | Data(value: Byte)

  datatype PanelState = PanelState(page: nat, column: nat, pendingArgs: nat, on: bool, ram: seq<Byte>)

  predicate ValidPanel(p: PanelState)
  {
    p.page < PAGES && p.column < COLUMNS && |p.ram| == RAM_SIZE
  }

  type Panel = p: PanelState | ValidPanel(p)
    witness PanelState(0, 0, 0, false, seq(RAM_SIZE, _ => 0))

  /** How many of the following command bytes belong to this command. */
  function ArgumentCount(command: Byte): nat
  {
    if command in {0x20, 0x81, 0x8D, 0xA8, 0xD3, 0xD5, 0xD9, 0xDA, 0xDB} then 1
    else if command in {0x21, 0x22, 0xA3} then 2
    else if command in {0x29, 0x2A} then 5
    else if command in {0x26, 0x27} then 6
    else 0
  }

  function Step(p: Panel, b: BusByte): Panel
  {
    match b
    case Data(value) =>
      p.(ram := p.ram[COLUMNS * p.page + p.column := value], column := (p.column + 1) % COLUMNS)
    case Cmd(value) =>
      if p.pendingArgs > 0 then p.(pendingArgs := p.pendingArgs - 1)
      else if value < 0x10 then p.(column := p.column / 16 * 16 + value)
      else if value < 0x20 then p.(column := 16 * (value - 0x10) % COLUMNS + p.column % 16)
      else if 0xB0 <= value <= 0xB7 then p.(page := value - 0xB0)
      else if value == 0xAE || value == 0xAF then p.(on := value == 0xAF)
      else p.(pendingArgs := ArgumentCount(value))
  }

  function Decode(p: Panel, bytes: seq<BusByte>): Panel
    decreases |bytes|
  {
    if bytes == [] then p else Decode(Step(p, bytes[0]), bytes[1..])
  }

  lemma {:induction false} DecodeConcat(p: Panel, xs: seq<BusByte>, ys: seq<BusByte>)
    ensures Decode(p, xs + ys) == Decode(Decode(p, xs), ys)
    decreases |xs|
  {
    if xs == [] {
      assert xs + ys == ys;
    } else {
      assert (xs + ys)[1..] == xs[1..] + ys;
      DecodeConcat(Step(p, xs[0]), xs[1..], ys);
    }
  }

  lemma DecodeSnoc(p: Panel, xs: seq<BusByte>, y: BusByte)
    ensures Decode(p, xs + [y]) == Step(Decode(p, xs), y)
  {
    DecodeConcat(p, xs, [y]);
    assert Decode(Decode(p, xs), [y]) == Decode(Step(Decode(p, xs), y), []);
  }

  // ----- text cells -----

  type Glyph = g: seq<Byte> | |g| == 8 witness seq(8, _ => 0)

  const BLANK: Glyph := [0, 0, 0, 0, 0, 0, 0, 0]

  /** One glyph for each of the 96 characters from the blank on, all different. The blank is
      dark. */
  type Font = f: seq<Glyph> | |f| == 96 && f[0] == BLANK && forall i, j :: 0 <= i < j < 96 ==> f[i] != f[j]
    witness SomeFont()

  function SomeFont(): (f: seq<Glyph>)
    ensures |f| == 96 && f[0] == BLANK && forall i, j :: 0 <= i < j < 96 ==> f[i] != f[j]
  {
    var f := seq<Glyph>(96, i requires 0 <= i < 96 => [i, 0, 0, 0, 0, 0, 0, 0]);
    assert forall i :: 0 <= i < 96 ==> f[i][0] == i;
    f
  }

  /** Characters outside 32..127 show as blanks. */
  function GlyphOf(font: Font, c: char): Glyph
  {
    var code := c as int;
    font[if code < 32 || code > 127 then 0 else code - 32]
  }

  type Ram = r: seq<Byte> | |r| == RAM_SIZE witness seq(RAM_SIZE, _ => 0)

  /** Cell i is column i % 16 of row i / 16. */
  function Cell(ram: Ram, i: nat): Glyph
    requires i < CELLS
  {
    ram[8 * i..8 * i + 8]
  }

  function WithCell(ram: Ram, i: nat, g: Glyph): (r: Ram)
    requires i < CELLS
  {
    ram[..8 * i] + g + ram[8 * i + 8..]
  }

  lemma CellOfWithCell(ram: Ram, i: nat, g: Glyph, j: nat)
    requires i < CELLS && j < CELLS
    ensures Cell(WithCell(ram, i, g), j) == if i == j then g else Cell(ram, j)
  {
    var after := WithCell(ram, i, g);
    assert forall k :: 0 <= k < RAM_SIZE ==>
      after[k] == if 8 * i <= k < 8 * i + 8 then g[k - 8 * i] else ram[k];
  }

  /** The column in which the k-th character lands, of text that starts in column c. */
  function Landing(c: nat, k: nat): (d: nat)
    ensures d < 16
  {
    (c + k) % 16
  }

  lemma LandingNext(c: nat, k: nat)
    ensures Landing(c, k + 1) == if Landing(c, k) == 15 then 0 else Landing(c, k) + 1
  {
  }

  /** Of count characters from column c on, the last one that lands in column d; -1 if none. */
  function LastIn(c: nat, count: nat, d: nat): (k: int)
    ensures -1 <= k < count
    ensures k >= 0 ==> Landing(c, k) == d
    ensures forall m :: k < m < count ==> Landing(c, m) != d
  {
    if count == 0 then -1
    else if Landing(c, count - 1) == d then count - 1
    else LastIn(c, count - 1, d)
  }

  /** Cell i after text s was written into a row from column c on, over the old content. */
  function CellAfter(font: Font, before: Ram, row: nat, c: nat, s: string, i: nat): Glyph
    requires i < CELLS
  {
    var k := LastIn(c, |s|, i % 16);
    if i / 16 == row && k >= 0 then GlyphOf(font, s[k]) else Cell(before, i)
  }

  /** The RAM holds text s in a row from column c on, with wrap-around, and is otherwise
      as before. */
  predicate TextWritten(font: Font, before: Ram, after: Ram, row: nat, c: nat, s: string)
  {
    forall i :: 0 <= i < CELLS ==> Cell(after, i) == CellAfter(font, before, row, c, s, i)
  }

  lemma CellWrittenAppend(font: Font, before: Ram, after: Ram, row: nat, c: nat, s: string, ch: char, i: nat)
    requires row < PAGES && i < CELLS && Cell(after, i) == CellAfter(font, before, row, c, s, i)
    ensures Cell(WithCell(after, 16 * row + Landing(c, |s|), GlyphOf(font, ch)), i)
         == CellAfter(font, before, row, c, s + [ch], i)
  {
    CellOfWithCell(after, 16 * row + Landing(c, |s|), GlyphOf(font, ch), i);
  }

  lemma TextWrittenAppend(font: Font, before: Ram, after: Ram, row: nat, c: nat, s: string, ch: char)
    requires row < PAGES && TextWritten(font, before, after, row, c, s)
    ensures TextWritten(font, before, WithCell(after, 16 * row + Landing(c, |s|), GlyphOf(font, ch)), row, c, s + [ch])
  {
    forall i | 0 <= i < CELLS
      ensures Cell(WithCell(after, 16 * row + Landing(c, |s|), GlyphOf(font, ch)), i)
           == CellAfter(font, before, row, c, s + [ch], i)
    {
      CellWrittenAppend(font, before, after, row, c, s, ch, i);
    }
  }

  /** The cell in a row and text column. */
  function CellAt(ram: Ram, row: nat, d: nat): Glyph
    requires row < PAGES && d < 16
  {
    Cell(ram, 16 * row + d)
  }

  function Padded(s: string, d: nat): char { if d < |s| then s[d] else ' ' }

  /** A row shows a text followed by blanks. */
  predicate RowReads(font: Font, ram: Ram, row: nat, s: string)
    requires row < PAGES
  {
    forall d :: 0 <= d < 16 ==> CellAt(ram, row, d) == GlyphOf(font, Padded(s, d))
  }

  /** Every character has a glyph of its own. */
  predicate Printable(s: string) { forall k :: 0 <= k < |s| ==> 32 <= s[k] as int <= 127 }

  /** A row reads as one text only, up to blanks at its end. */
  lemma OneReading(font: Font, ram: Ram, row: nat, s: string, t: string)
    requires row < PAGES && RowReads(font, ram, row, s) && RowReads(font, ram, row, t)
    requires Printable(s) && Printable(t)
    ensures forall d :: 0 <= d < 16 ==> Padded(s, d) == Padded(t, d)
  {
    forall d | 0 <= d < 16 ensures Padded(s, d) == Padded(t, d) {
      assert CellAt(ram, row, d) == GlyphOf(font, Padded(s, d)) == GlyphOf(font, Padded(t, d));
    }
  }

  /** A row begins with a text. */
  predicate RowStarts(font: Font, ram: Ram, row: nat, s: string)
    requires row < PAGES
  {
    |s| <= 16 && forall d :: 0 <= d < |s| ==> CellAt(ram, row, d) == GlyphOf(font, s[d])
  }
}
