/** The 8x8 font of the display driver, one row of bytes per printable character from the
    blank on. */
module SsdFont {
  import opened OledPanel

  const ROWS_32: seq<seq<Byte>> := [
    [0x00, 0x00, 0x00, 0x00, 0x00, 0x00, 0x00, 0x00],
    [0x00, 0x00, 0x5F, 0x00, 0x00, 0x00, 0x00, 0x00],
    [0x00, 0x00, 0x07, 0x00, 0x07, 0x00, 0x00, 0x00],
    [0x00, 0x14, 0x7F, 0x14, 0x7F, 0x14, 0x00, 0x00],
    [0x00, 0x24, 0x2A, 0x7F, 0x2A, 0x12, 0x00, 0x00],
    [0x00, 0x23, 0x13, 0x08, 0x64, 0x62, 0x00, 0x00],
    [0x00, 0x36, 0x49, 0x55, 0x22, 0x50, 0x00, 0x00],
    [0x00, 0x00, 0x05, 0x03, 0x00, 0x00, 0x00, 0x00],
    [0x00, 0x1C, 0x22, 0x41, 0x00, 0x00, 0x00, 0x00],
    [0x00, 0x41, 0x22, 0x1C, 0x00, 0x00, 0x00, 0x00],
    [0x00, 0x08, 0x2A, 0x1C, 0x2A, 0x08, 0x00, 0x00],
    [0x00, 0x08, 0x08, 0x3E, 0x08, 0x08, 0x00, 0x00],
    [0x00, 0xA0, 0x60, 0x00, 0x00, 0x00, 0x00, 0x00],
    [0x00, 0x08, 0x08, 0x08, 0x08, 0x08, 0x00, 0x00],
    [0x00, 0x60, 0x60, 0x00, 0x00, 0x00, 0x00, 0x00],
    [0x00, 0x20, 0x10, 0x08, 0x04, 0x02, 0x00, 0x00]]

  const ROWS_48: seq<seq<Byte>> := [
    [0x00, 0x3E, 0x51, 0x49, 0x45, 0x3E, 0x00, 0x00],
    [0x00, 0x00, 0x42, 0x7F, 0x40, 0x00, 0x00, 0x00],
    [0x00, 0x62, 0x51, 0x49, 0x49, 0x46, 0x00, 0x00],
    [0x00, 0x22, 0x41, 0x49, 0x49, 0x36, 0x00, 0x00],
    [0x00, 0x18, 0x14, 0x12, 0x7F, 0x10, 0x00, 0x00],
    [0x00, 0x27, 0x45, 0x45, 0x45, 0x39, 0x00, 0x00],
    [0x00, 0x3C, 0x4A, 0x49, 0x49, 0x30, 0x00, 0x00],
    [0x00, 0x01, 0x71, 0x09, 0x05, 0x03, 0x00, 0x00],
    [0x00, 0x36, 0x49, 0x49, 0x49, 0x36, 0x00, 0x00],
    [0x00, 0x06, 0x49, 0x49, 0x29, 0x1E, 0x00, 0x00],
    [0x00, 0x00, 0x36, 0x36, 0x00, 0x00, 0x00, 0x00],
    [0x00, 0x00, 0xAC, 0x6C, 0x00, 0x00, 0x00, 0x00],
    [0x00, 0x08, 0x14, 0x22, 0x41, 0x00, 0x00, 0x00],
    [0x00, 0x14, 0x14, 0x14, 0x14, 0x14, 0x00, 0x00],
    [0x00, 0x41, 0x22, 0x14, 0x08, 0x00, 0x00, 0x00],
    [0x00, 0x02, 0x01, 0x51, 0x09, 0x06, 0x00, 0x00]]

  const ROWS_64: seq<seq<Byte>> := [
    [0x00, 0x32, 0x49, 0x79, 0x41, 0x3E, 0x00, 0x00],
    [0x00, 0x7E, 0x09, 0x09, 0x09, 0x7E, 0x00, 0x00],
    [0x00, 0x7F, 0x49, 0x49, 0x49, 0x36, 0x00, 0x00],
    [0x00, 0x3E, 0x41, 0x41, 0x41, 0x22, 0x00, 0x00],
    [0x00, 0x7F, 0x41, 0x41, 0x22, 0x1C, 0x00, 0x00],
    [0x00, 0x7F, 0x49, 0x49, 0x49, 0x41, 0x00, 0x00],
    [0x00, 0x7F, 0x09, 0x09, 0x09, 0x01, 0x00, 0x00],
    [0x00, 0x3E, 0x41, 0x41, 0x51, 0x72, 0x00, 0x00],
    [0x00, 0x7F, 0x08, 0x08, 0x08, 0x7F, 0x00, 0x00],
    [0x00, 0x41, 0x7F, 0x41, 0x00, 0x00, 0x00, 0x00],
    [0x00, 0x20, 0x40, 0x41, 0x3F, 0x01, 0x00, 0x00],
    [0x00, 0x7F, 0x08, 0x14, 0x22, 0x41, 0x00, 0x00],
    [0x00, 0x7F, 0x40, 0x40, 0x40, 0x40, 0x00, 0x00],
    [0x00, 0x7F, 0x02, 0x0C, 0x02, 0x7F, 0x00, 0x00],
    [0x00, 0x7F, 0x04, 0x08, 0x10, 0x7F, 0x00, 0x00],
    [0x00, 0x3E, 0x41, 0x41, 0x41, 0x3E, 0x00, 0x00]]

  const ROWS_80: seq<seq<Byte>> := [
    [0x00, 0x7F, 0x09, 0x09, 0x09, 0x06, 0x00, 0x00],
    [0x00, 0x3E, 0x41, 0x51, 0x21, 0x5E, 0x00, 0x00],
    [0x00, 0x7F, 0x09, 0x19, 0x29, 0x46, 0x00, 0x00],
    [0x00, 0x26, 0x49, 0x49, 0x49, 0x32, 0x00, 0x00],
    [0x00, 0x01, 0x01, 0x7F, 0x01, 0x01, 0x00, 0x00],
    [0x00, 0x3F, 0x40, 0x40, 0x40, 0x3F, 0x00, 0x00],
    [0x00, 0x1F, 0x20, 0x40, 0x20, 0x1F, 0x00, 0x00],
    [0x00, 0x3F, 0x40, 0x38, 0x40, 0x3F, 0x00, 0x00],
    [0x00, 0x63, 0x14, 0x08, 0x14, 0x63, 0x00, 0x00],
    [0x00, 0x03, 0x04, 0x78, 0x04, 0x03, 0x00, 0x00],
    [0x00, 0x61, 0x51, 0x49, 0x45, 0x43, 0x00, 0x00],
    [0x00, 0x7F, 0x41, 0x41, 0x00, 0x00, 0x00, 0x00],
    [0x00, 0x02, 0x04, 0x08, 0x10, 0x20, 0x00, 0x00],
    [0x00, 0x41, 0x41, 0x7F, 0x00, 0x00, 0x00, 0x00],
    [0x00, 0x04, 0x02, 0x01, 0x02, 0x04, 0x00, 0x00],
    [0x00, 0x80, 0x80, 0x80, 0x80, 0x80, 0x00, 0x00]]

  const ROWS_96: seq<seq<Byte>> := [
    [0x00, 0x01, 0x02, 0x04, 0x00, 0x00, 0x00, 0x00],
    [0x00, 0x20, 0x54, 0x54, 0x54, 0x78, 0x00, 0x00],
    [0x00, 0x7F, 0x48, 0x44, 0x44, 0x38, 0x00, 0x00],
    [0x00, 0x38, 0x44, 0x44, 0x28, 0x00, 0x00, 0x00],
    [0x00, 0x38, 0x44, 0x44, 0x48, 0x7F, 0x00, 0x00],
    [0x00, 0x38, 0x54, 0x54, 0x54, 0x18, 0x00, 0x00],
    [0x00, 0x08, 0x7E, 0x09, 0x02, 0x00, 0x00, 0x00],
    [0x00, 0x18, 0xA4, 0xA4, 0xA4, 0x7C, 0x00, 0x00],
    [0x00, 0x7F, 0x08, 0x04, 0x04, 0x78, 0x00, 0x00],
    [0x00, 0x00, 0x7D, 0x00, 0x00, 0x00, 0x00, 0x00],
    [0x00, 0x80, 0x84, 0x7D, 0x00, 0x00, 0x00, 0x00],
    [0x00, 0x7F, 0x10, 0x28, 0x44, 0x00, 0x00, 0x00],
    [0x00, 0x41, 0x7F, 0x40, 0x00, 0x00, 0x00, 0x00],
    [0x00, 0x7C, 0x04, 0x18, 0x04, 0x78, 0x00, 0x00],
    [0x00, 0x7C, 0x08, 0x04, 0x7C, 0x00, 0x00, 0x00],
    [0x00, 0x38, 0x44, 0x44, 0x38, 0x00, 0x00, 0x00]]

  const ROWS_112: seq<seq<Byte>> := [
    [0x00, 0xFC, 0x24, 0x24, 0x18, 0x00, 0x00, 0x00],
    [0x00, 0x18, 0x24, 0x24, 0xFC, 0x00, 0x00, 0x00],
    [0x00, 0x00, 0x7C, 0x08, 0x04, 0x00, 0x00, 0x00],
    [0x00, 0x48, 0x54, 0x54, 0x24, 0x00, 0x00, 0x00],
    [0x00, 0x04, 0x7F, 0x44, 0x00, 0x00, 0x00, 0x00],
    [0x00, 0x3C, 0x40, 0x40, 0x7C, 0x00, 0x00, 0x00],
    [0x00, 0x1C, 0x20, 0x40, 0x20, 0x1C, 0x00, 0x00],
    [0x00, 0x3C, 0x40, 0x30, 0x40, 0x3C, 0x00, 0x00],
    [0x00, 0x44, 0x28, 0x10, 0x28, 0x44, 0x00, 0x00],
    [0x00, 0x1C, 0xA0, 0xA0, 0x7C, 0x00, 0x00, 0x00],
    [0x00, 0x44, 0x64, 0x54, 0x4C, 0x44, 0x00, 0x00],
    [0x00, 0x08, 0x36, 0x41, 0x00, 0x00, 0x00, 0x00],
    [0x00, 0x00, 0x7F, 0x00, 0x00, 0x00, 0x00, 0x00],
    [0x00, 0x41, 0x36, 0x08, 0x00, 0x00, 0x00, 0x00],
    [0x00, 0x02, 0x01, 0x01, 0x02, 0x01, 0x00, 0x00],
    [0x00, 0x02, 0x05, 0x05, 0x02, 0x00, 0x00, 0x00]]

  const BLOCKS: seq<seq<seq<Byte>>> := [ROWS_32, ROWS_48, ROWS_64, ROWS_80, ROWS_96, ROWS_112]

  const FONT_ROWS: seq<seq<Byte>> := Joined(BLOCKS)

  function Joined(blocks: seq<seq<seq<Byte>>>): (rows: seq<seq<Byte>>)
    ensures (forall k :: 0 <= k < |blocks| ==> GlyphRows(blocks[k])) ==>
      |rows| == 16 * |blocks| && forall i :: 0 <= i < |rows| ==> |rows[i]| == 8
  {
    if blocks == [] then []
    else
      assert forall k :: 0 <= k < |blocks[1..]| ==> blocks[1..][k] == blocks[k + 1];
      blocks[0] + Joined(blocks[1..])
  }

  predicate GlyphRows(rows: seq<seq<Byte>>)
  {
    |rows| == 16 && forall i :: 0 <= i < 16 ==> |rows[i]| == 8
  }

  predicate AllDiffer(rows: seq<seq<Byte>>)
  {
    forall i, j :: 0 <= i < j < |rows| ==> rows[i] != rows[j]
  }

  predicate NoneShared(rows: seq<seq<Byte>>, others: seq<seq<Byte>>)
  {
    forall i, j :: 0 <= i < |rows| && 0 <= j < |others| ==> rows[i] != others[j]
  }

  lemma LowRows()
    ensures GlyphRows(ROWS_32) && AllDiffer(ROWS_32)
    ensures GlyphRows(ROWS_48) && AllDiffer(ROWS_48)
    ensures GlyphRows(ROWS_64) && AllDiffer(ROWS_64)
  {
  }

  lemma HighRows()
    ensures GlyphRows(ROWS_80) && AllDiffer(ROWS_80)
    ensures GlyphRows(ROWS_96) && AllDiffer(ROWS_96)
    ensures GlyphRows(ROWS_112) && AllDiffer(ROWS_112)
  {
  }

  lemma Rows32And48()
    ensures NoneShared(ROWS_32, ROWS_48)
    ensures NoneShared(ROWS_32, ROWS_64)
  {
  }

  lemma Rows32And80()
    ensures NoneShared(ROWS_32, ROWS_80)
    ensures NoneShared(ROWS_32, ROWS_96)
    ensures NoneShared(ROWS_32, ROWS_112)
  {
  }

  lemma Rows48And64()
    ensures NoneShared(ROWS_48, ROWS_64)
    ensures NoneShared(ROWS_48, ROWS_80)
  {
  }

  lemma Rows48And96()
    ensures NoneShared(ROWS_48, ROWS_96)
    ensures NoneShared(ROWS_48, ROWS_112)
  {
  }

  lemma Rows64And80()
    ensures NoneShared(ROWS_64, ROWS_80)
  {
  }

  lemma Rows64And96()
    ensures NoneShared(ROWS_64, ROWS_96) && NoneShared(ROWS_64, ROWS_112)
  {
  }

  lemma Rows80And96()
    ensures NoneShared(ROWS_80, ROWS_96)
    ensures NoneShared(ROWS_80, ROWS_112)
    ensures NoneShared(ROWS_96, ROWS_112)
  {
  }

  lemma {:induction false} NoneSharedWithJoined(rows: seq<seq<Byte>>, blocks: seq<seq<seq<Byte>>>)
    requires forall k :: 0 <= k < |blocks| ==> NoneShared(rows, blocks[k])
    ensures NoneShared(rows, Joined(blocks))
  {
    if blocks != [] { NoneSharedWithJoined(rows, blocks[1..]); }
  }

  lemma {:induction false} JoinedDiffer(blocks: seq<seq<seq<Byte>>>)
    requires forall k :: 0 <= k < |blocks| ==> AllDiffer(blocks[k])
    requires forall k, l :: 0 <= k < l < |blocks| ==> NoneShared(blocks[k], blocks[l])
    ensures AllDiffer(Joined(blocks))
  {
    if blocks != [] {
      NoneSharedWithJoined(blocks[0], blocks[1..]);
      JoinedDiffer(blocks[1..]);
    }
  }

  /** It is a Font: 96 rows of 8 bytes, all different, the blank's dark. */
  lemma IsFont()
    ensures |FONT_ROWS| == 96 && FONT_ROWS[0] == BLANK && AllDiffer(FONT_ROWS)
    ensures forall i :: 0 <= i < 96 ==> |FONT_ROWS[i]| == 8
  {
    LowRows();
    HighRows();
    Rows32And48();
    Rows32And80();
    Rows48And64();
    Rows48And96();
    Rows64And80();
    Rows64And96();
    Rows80And96();
    JoinedDiffer(BLOCKS);
    assert FONT_ROWS[0] == ROWS_32[0];
  }

  /** The font that the panel's driver is given. */
  const FONT: Font := (IsFont(); FONT_ROWS)

  lemma {:induction false} JoinedAt(blocks: seq<seq<seq<Byte>>>, k: nat, i: nat)
    requires k < |blocks| && i < 16 && forall b :: 0 <= b < |blocks| ==> GlyphRows(blocks[b])
    ensures 16 * k + i < |Joined(blocks)| && Joined(blocks)[16 * k + i] == blocks[k][i]
  {
    assert forall b :: 0 <= b < |blocks[1..]| ==> blocks[1..][b] == blocks[b + 1];
    if k > 0 { JoinedAt(blocks[1..], k - 1, i); }
  }

  /** A printable character's glyph is in the block of sixteen that its code points to, and
      others show as blanks. */
  lemma GlyphUnderCode(c: char)
    ensures 32 <= c as int <= 127 ==>
      GlyphOf(FONT, c) == BLOCKS[c as int / 16 - 2][c as int % 16]
    ensures !(32 <= c as int <= 127) ==> GlyphOf(FONT, c) == [0, 0, 0, 0, 0, 0, 0, 0]
  {
    LowRows();
    HighRows();
    var code := c as int;
    if 32 <= code <= 127 {
      JoinedAt(BLOCKS, code / 16 - 2, code % 16);
      assert 16 * (code / 16 - 2) + code % 16 == code - 32;
    }
  }
}
