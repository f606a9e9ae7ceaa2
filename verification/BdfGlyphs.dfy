/** BDF glyphs placed into the fixed cell of an EQF1 font (scripts/codegen/font.py). */
module BdfGlyphs {
  import opened Wire
  import opened Glyphs

  /** A glyph's bounding box: its size, and where it stands from the origin. */
  datatype Bbx = Bbx(width: int, height: int, xOffset: int, yOffset: int)

  /** What the BDF lines of one glyph gave; any part may be missing. */
  datatype BdfGlyph = BdfGlyph(codepoint: Option<int>, bbx: Option<Bbx>, rows: Option<seq<bytes>>)

  datatype Glyph = Glyph(codepoint: int, width: nat, height: nat, pixels: Pixels)

  /** A row's pixels are its bits, most significant first; a missing byte reads as zero. */
  predicate RowBit(row: bytes, x: nat) {
    x / 8 < |row| && BitOf(row[x / 8], 7 - x % 8)
  }

  lemma {:induction false} ShiftedBit(b: nat, i: nat)
    requires i < 8
    ensures BitOf(b, i) <==> b / [0x01, 0x02, 0x04, 0x08, 0x10, 0x20, 0x40, 0x80][i] % 2 == 1
    decreases i
  {
    if i > 0 {
      ShiftedBit(b / 2, i - 1);
      var m := [0x01, 0x02, 0x04, 0x08, 0x10, 0x20, 0x40][i - 1];
      assert i == 1 || i == 2 || i == 3 || i == 4 || i == 5 || i == 6 || i == 7;
      assert b / 2 / m == b / (2 * m);
    }
  }

  /** The bit of a byte that `0x80 >> (x & 7)` masks. */
  lemma MaskedBit(b: byte, x: nat)
    ensures BitOf(b, 7 - x % 8) <==> b / [0x80, 0x40, 0x20, 0x10, 0x08, 0x04, 0x02, 0x01][x % 8] % 2 == 1
  {
    ShiftedBit(b, 7 - x % 8);
  }

  /** `parse_bdf_bitmap_row`, on the row's bytes. */
  method ParseBitmapRow(row: bytes, width: int) returns (pixels: seq<bool>)
    ensures |pixels| == if width < 0 then 0 else width
    ensures forall x :: 0 <= x < |pixels| ==> (pixels[x] <==> RowBit(row, x))
    ensures forall x :: 0 <= x < |pixels| ==>
              (pixels[x] <==> x / 8 < |row| && row[x / 8] / [0x80, 0x40, 0x20, 0x10, 0x08, 0x04, 0x02, 0x01][x % 8] % 2 == 1)
  {
    hide BitOf;
    pixels := [];
    var n: nat := if width < 0 then 0 else width;
    for x := 0 to n
      invariant |pixels| == x
      invariant forall k :: 0 <= k < x ==> (pixels[k] <==> RowBit(row, k))
    {
      NoBit(7 - x % 8);
      var b: int := if x / 8 < |row| then row[x / 8] else 0;
      pixels := pixels + [BitOf(b, 7 - x % 8)];
    }
    forall x | 0 <= x < |pixels| && x / 8 < |row|
      ensures RowBit(row, x) <==> row[x / 8] / [0x80, 0x40, 0x20, 0x10, 0x08, 0x04, 0x02, 0x01][x % 8] % 2 == 1
    {
      MaskedBit(row[x / 8], x);
    }
  }

  lemma {:induction false} NoBit(i: nat)
    ensures !BitOf(0, i)
    decreases i
  {
    if i > 0 {
      NoBit(i - 1);
    }
  }

  /** BDF coordinates grow to the right and upwards. The box pixel of row `j` from the top and
      column `i` stands at `(xOffset + i, yOffset + height - 1 - j)`; is the point inked? */
  predicate Inked(box: Bbx, rows: seq<bytes>, px: int, py: int) {
    var i, j := px - box.xOffset, box.yOffset + box.height - 1 - py;
    0 <= i < box.width && 0 <= j < box.height && j < |rows| && RowBit(rows[j], i)
  }

  /** The source pixel that the translation puts at a cell, if the box holds one there. */
  predicate SourcePixel(box: Bbx, rows: seq<bytes>, top: int, left: int, x: int, y: int) {
    0 <= x - left < box.width && 0 <= y - top < box.height && y - top < |rows| && RowBit(rows[y - top], x - left)
  }

  /** A cell is set exactly if the box pixel translated onto it is. */
  ghost predicate Translated(box: Bbx, rows: seq<bytes>, top: int, left: int, width: nat, height: nat, p: Pixels) {
    && IsGrid(p, width, height)
    && forall y, x :: 0 <= y < height && 0 <= x < width ==> (p[y][x] <==> SourcePixel(box, rows, top, left, x, y))
  }

  /** The cells filled when `srcY` rows and `srcX` pixels of the next one are placed. */
  ghost predicate PartlyPlaced(box: Bbx, rows: seq<bytes>, top: int, left: int, width: nat, height: nat, p: Pixels,
                               srcX: int, srcY: int) {
    && IsGrid(p, width, height)
    && forall y, x :: 0 <= y < height && 0 <= x < width ==>
         (p[y][x] <==> SourcePixel(box, rows, top, left, x, y) && (y < top + srcY || (y == top + srcY && x < left + srcX)))
  }

  /** `convert_bdf_glyph`: the cell's lower left corner is the font's origin `(fontX, fontY)`,
      and a cell is set exactly if the point it covers is inked. */
  method ConvertBdfGlyph(g: BdfGlyph, cellWidth: nat, cellHeight: nat, fontX: int, fontY: int)
    returns (r: Result<Option<Glyph>>)
    ensures g.codepoint.GetOr(-1) < 0 ==> r == Ok(None)
    ensures g.codepoint.GetOr(-1) >= 0 ==>
              (r.Ok? <==> g.bbx.Some? && |g.rows.GetOr([])| >= g.bbx.value.height)
    ensures g.codepoint.GetOr(-1) >= 0 && r.Ok? ==>
              && r.value.Some?
              && r.value.value == Glyph(g.codepoint.value, cellWidth, cellHeight, r.value.value.pixels)
              && IsGrid(r.value.value.pixels, cellWidth, cellHeight)
              && forall y, x :: 0 <= y < cellHeight && 0 <= x < cellWidth ==>
                   (r.value.value.pixels[y][x] <==> Inked(g.bbx.value, g.rows.GetOr([]), fontX + x, fontY + cellHeight - 1 - y))
  {
    hide RowBit, PartlyPlaced, Translated, Inked;
    if g.codepoint.GetOr(-1) < 0 {
      return Ok(None);
    }
    if g.bbx.None? {
      return Err;
    }
    var box := g.bbx.value;
    var rows := g.rows.GetOr([]);
    var pixels := EmptyPixels(cellWidth, cellHeight);
    if |rows| < box.height {
      return Err;
    }
    var top := cellHeight - (box.yOffset - fontY + box.height);
    var left := box.xOffset - fontX;
    var srcY := 0;
    NothingPlaced(box, rows, top, left, cellWidth, cellHeight, pixels);
    while srcY < box.height
      invariant 0 <= srcY && (srcY <= box.height || srcY == 0)
      invariant PartlyPlaced(box, rows, top, left, cellWidth, cellHeight, pixels, 0, srcY)
    {
      var row := ParseBitmapRow(rows[srcY], box.width);
      var dstY := top + srcY;
      if dstY < 0 || dstY >= cellHeight {
        RowOutside(box, rows, top, left, cellWidth, cellHeight, pixels, srcY);
        srcY := srcY + 1;
        continue;
      }
      for srcX := 0 to |row|
        invariant PartlyPlaced(box, rows, top, left, cellWidth, cellHeight, pixels, srcX, srcY)
      {
        var dstX := left + srcX;
        PlaceOne(box, rows, top, left, cellWidth, cellHeight, pixels, srcX, srcY);
        if 0 <= dstX < cellWidth {
          pixels := pixels[dstY := pixels[dstY][dstX := row[srcX]]];
        }
      }
      RowPlaced(box, rows, top, left, cellWidth, cellHeight, pixels, |row|, srcY);
      srcY := srcY + 1;
    }
    AllPlaced(box, rows, top, left, cellWidth, cellHeight, pixels, srcY);
    PlacedIsInked(box, rows, fontX, fontY, cellWidth, cellHeight, pixels);
    return Ok(Some(Glyph(g.codepoint.value, cellWidth, cellHeight, pixels)));
  }

  /** The translation in rows and columns is the one in BDF coordinates. */
  lemma PlacedIsInked(box: Bbx, rows: seq<bytes>, fontX: int, fontY: int, width: nat, height: nat, p: Pixels)
    requires Translated(box, rows, height - (box.yOffset - fontY + box.height), box.xOffset - fontX, width, height, p)
    ensures IsGrid(p, width, height)
    ensures forall y, x :: 0 <= y < height && 0 <= x < width ==> (p[y][x] <==> Inked(box, rows, fontX + x, fontY + height - 1 - y))
  {
    hide RowBit;
  }

  lemma NothingPlaced(box: Bbx, rows: seq<bytes>, top: int, left: int, width: nat, height: nat, p: Pixels)
    requires IsGrid(p, width, height) && forall y, x :: 0 <= y < height && 0 <= x < width ==> !p[y][x]
    ensures PartlyPlaced(box, rows, top, left, width, height, p, 0, 0)
  {
    hide RowBit;
  }

  lemma RowOutside(box: Bbx, rows: seq<bytes>, top: int, left: int, width: nat, height: nat, p: Pixels, srcY: int)
    requires PartlyPlaced(box, rows, top, left, width, height, p, 0, srcY) && !(0 <= top + srcY < height)
    ensures PartlyPlaced(box, rows, top, left, width, height, p, 0, srcY + 1)
  {
    hide RowBit;
  }

  lemma PlaceOne(box: Bbx, rows: seq<bytes>, top: int, left: int, width: nat, height: nat, p: Pixels, srcX: int, srcY: int)
    requires PartlyPlaced(box, rows, top, left, width, height, p, srcX, srcY)
    requires 0 <= top + srcY < height && 0 <= srcX < box.width && 0 <= srcY < box.height <= |rows|
    ensures IsGrid(p, width, height)
    ensures !(0 <= left + srcX < width) ==> PartlyPlaced(box, rows, top, left, width, height, p, srcX + 1, srcY)
    ensures 0 <= left + srcX < width ==>
              var y, x := top + srcY, left + srcX;
              PartlyPlaced(box, rows, top, left, width, height, p[y := p[y][x := RowBit(rows[srcY], srcX)]], srcX + 1, srcY)
  {
    hide SourcePixel;
    SourceAt(box, rows, top, left, srcX, srcY);
  }

  lemma SourceAt(box: Bbx, rows: seq<bytes>, top: int, left: int, srcX: int, srcY: int)
    requires 0 <= srcX < box.width && 0 <= srcY < box.height <= |rows|
    ensures SourcePixel(box, rows, top, left, left + srcX, top + srcY) == RowBit(rows[srcY], srcX)
  {
  }

  lemma RowPlaced(box: Bbx, rows: seq<bytes>, top: int, left: int, width: nat, height: nat, p: Pixels, srcX: int, srcY: int)
    requires PartlyPlaced(box, rows, top, left, width, height, p, srcX, srcY) && srcX >= box.width
    ensures PartlyPlaced(box, rows, top, left, width, height, p, 0, srcY + 1)
  {
    hide RowBit;
  }

  lemma AllPlaced(box: Bbx, rows: seq<bytes>, top: int, left: int, width: nat, height: nat, p: Pixels, srcY: int)
    requires PartlyPlaced(box, rows, top, left, width, height, p, 0, srcY) && srcY >= box.height
    ensures Translated(box, rows, top, left, width, height, p)
  {
    hide RowBit;
  }
}
