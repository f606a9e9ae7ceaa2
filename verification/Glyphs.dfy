/** Bitmap glyphs of the font converter (scripts/codegen/font.py): a cell of pixels, packed
    column by column with the top pixel of each byte in its lowest bit. */
module Glyphs {
  import opened Wire

  /** Rows of pixels, top row first. */
  type Pixels = seq<seq<bool>>

  predicate IsGrid(p: Pixels, width: nat, height: nat) {
    |p| == height && forall y :: 0 <= y < height ==> |p[y]| == width
  }

  function EmptyPixels(width: nat, height: nat): (p: Pixels)
    ensures IsGrid(p, width, height)
    ensures forall y, x :: 0 <= y < height && 0 <= x < width ==> !p[y][x]
  {
    seq(height, _ => seq(width, _ => false))
  }

  /** `n & (1 << i) != 0`, also for the negative numbers a JSON glyph may hold. */
  predicate BitOf(n: int, i: nat)
    decreases i
  {
    if i == 0 then n % 2 == 1 else BitOf(n / 2, i - 1)
  }

  lemma {:induction false} BitOfFromBits(bs: seq<bool>, i: nat)
    ensures BitOf(FromBits(bs), i) == (i < |bs| && bs[i])
    decreases i
  {
    if bs == [] {
      if i > 0 {
        BitOfFromBits(bs, i - 1);
      }
    } else if i > 0 {
      assert FromBits(bs) / 2 == FromBits(bs[1..]);
      BitOfFromBits(bs[1..], i - 1);
    }
  }

  lemma {:induction false} FromBitsSnoc(bs: seq<bool>, b: bool)
    ensures FromBits(bs + [b]) == FromBits(bs) + if b then Pow2(|bs|) else 0
  {
    if bs != [] {
      FromBitsSnoc(bs[1..], b);
      assert (bs + [b])[1..] == bs[1..] + [b];
    } else {
      assert bs + [b] == [b];
      assert [b][1..] == [];
    }
  }

  function BytesPerColumn(height: nat): nat {
    (height + 7) / 8
  }

  /** The fewest bytes that hold a column. */
  lemma ColumnFits(height: nat)
    ensures height <= 8 * BytesPerColumn(height) < height + 8
  {
  }

  // --------------------------------------------------------------------- encoding

  /** The pixels of byte `k` of column `x`; below the last row there are none. */
  function ColumnBits(p: Pixels, width: nat, height: nat, x: nat, k: nat): (bs: seq<bool>)
    requires IsGrid(p, width, height) && x < width
    ensures |bs| == 8
    ensures forall b :: 0 <= b < 8 ==> (bs[b] <==> k * 8 + b < height && p[k * 8 + b][x])
  {
    seq(8, b requires 0 <= b < 8 => k * 8 + b < height && p[k * 8 + b][x])
  }

  function Column(p: Pixels, width: nat, height: nat, x: nat): (c: bytes)
    requires IsGrid(p, width, height) && x < width
    ensures |c| == BytesPerColumn(height)
  {
    seq(BytesPerColumn(height), k requires 0 <= k < BytesPerColumn(height) => ByteOf(ColumnBits(p, width, height, x, k)))
  }

  /** The first `n` columns of a packed glyph. */
  function Columns(p: Pixels, width: nat, height: nat, n: nat): (c: bytes)
    requires IsGrid(p, width, height) && n <= width
    ensures |c| == n * BytesPerColumn(height)
  {
    if n == 0 then [] else Columns(p, width, height, n - 1) + Column(p, width, height, n - 1)
  }

  function Packed(p: Pixels, width: nat, height: nat): (c: bytes)
    requires IsGrid(p, width, height)
    ensures |c| == width * BytesPerColumn(height)
  {
    Columns(p, width, height, width)
  }

  lemma CellIndex(x: nat, k: nat, width: nat, bpc: nat)
    requires x < width && k < bpc
    ensures 0 <= x * bpc + k < width * bpc
  {
    assert x * bpc + bpc == (x + 1) * bpc <= width * bpc;
  }

  lemma {:induction false} ColumnsAt(p: Pixels, width: nat, height: nat, n: nat, x: nat, k: nat)
    requires IsGrid(p, width, height) && x < n <= width && k < BytesPerColumn(height)
    ensures x * BytesPerColumn(height) + k < n * BytesPerColumn(height)
    ensures Columns(p, width, height, n)[x * BytesPerColumn(height) + k] == ByteOf(ColumnBits(p, width, height, x, k))
  {
    hide BytesPerColumn, ColumnBits;
    CellIndex(x, k, n, BytesPerColumn(height));
    if x < n - 1 {
      ColumnsAt(p, width, height, n - 1, x, k);
    }
  }

  /** `encode_glyph` */
  method EncodeGlyph(p: Pixels, width: nat, height: nat) returns (encoded: bytes)
    requires IsGrid(p, width, height)
    ensures encoded == Packed(p, width, height)
  {
    hide ColumnBits, IsGrid, BytesPerColumn, FromBits;
    var bytesPerColumn := BytesPerColumn(height);
    encoded := [];
    for x := 0 to width
      invariant encoded == Columns(p, width, height, x)
    {
      for byteIndex := 0 to bytesPerColumn
        invariant encoded == Columns(p, width, height, x) + Column(p, width, height, x)[..byteIndex]
      {
        ghost var bits := ColumnBits(p, width, height, x, byteIndex);
        var value: nat := 0;
        NoBits();
        assert bits[..0] == [];
        for bit := 0 to 8
          invariant value == FromBits(bits[..bit])
        {
          var y := byteIndex * 8 + bit;
          FromBitsSnoc(bits[..bit], bits[bit]);
          assert bits[..bit + 1] == bits[..bit] + [bits[bit]];
          RowThere(p, width, height, x, y);
          if y < height && p[y][x] {
            value := value + Pow2(bit);
          }
        }
        assert bits[..8] == bits;
        ByteBits(bits);
        encoded := encoded + [value];
        assert Column(p, width, height, x)[byteIndex] == value;
      }
      assert Column(p, width, height, x)[..bytesPerColumn] == Column(p, width, height, x);
    }
  }

  lemma NoBits()
    ensures FromBits([]) == 0
  {
  }

  lemma ByteBits(bs: seq<bool>)
    requires |bs| == 8
    ensures ByteOf(bs) == FromBits(bs)
  {
  }

  lemma RowThere(p: Pixels, width: nat, height: nat, x: nat, y: nat)
    requires IsGrid(p, width, height) && x < width
    ensures y < height ==> y < |p| && x < |p[y]|
  {
  }

  // --------------------------------------------------------------------- decoding

  /** The pixel that packed columns hold at a cell. */
  predicate PixelAt(columns: seq<int>, width: nat, height: nat, x: nat, y: nat)
    requires |columns| == width * BytesPerColumn(height) && x < width && y < height
  {
    CellIndex(x, y / 8, width, BytesPerColumn(height));
    BitOf(columns[x * BytesPerColumn(height) + y / 8], y % 8)
  }

  predicate Unpacked(columns: seq<int>, width: nat, height: nat, p: Pixels) {
    && |columns| == width * BytesPerColumn(height)
    && IsGrid(p, width, height)
    && forall y, x :: 0 <= y < height && 0 <= x < width ==> (p[y][x] <==> PixelAt(columns, width, height, x, y))
  }

  lemma UnpackedUnique(columns: seq<int>, width: nat, height: nat, p: Pixels, q: Pixels)
    requires Unpacked(columns, width, height, p) && Unpacked(columns, width, height, q)
    ensures p == q
  {
    hide PixelAt;
    forall y | 0 <= y < height
      ensures p[y] == q[y]
    {
      forall x | 0 <= x < width
        ensures p[y][x] == q[y][x]
      {
        assert p[y][x] <==> PixelAt(columns, width, height, x, y);
      }
    }
  }

  /** The cells already filled when the loops stand at column `x`, row `y`. */
  ghost predicate PartlyUnpacked(columns: seq<int>, width: nat, height: nat, p: Pixels, x: nat, y: nat)
    requires |columns| == width * BytesPerColumn(height)
  {
    && IsGrid(p, width, height)
    && forall v, u :: 0 <= v < height && 0 <= u < width ==>
         (p[v][u] <==> (u < x || (u == x && v < y)) && PixelAt(columns, width, height, u, v))
  }

  /** `columns_to_pixels` */
  method ColumnsToPixels(columns: seq<int>, width: nat, height: nat) returns (r: Result<Pixels>)
    ensures r.Ok? <==> |columns| == width * BytesPerColumn(height)
    ensures r.Ok? ==> Unpacked(columns, width, height, r.value)
  {
    hide BytesPerColumn, PixelAt, PartlyUnpacked, BitOf;
    var bytesPerColumn := BytesPerColumn(height);
    if |columns| != width * bytesPerColumn {
      return Err;
    }
    var pixels := EmptyPixels(width, height);
    StartUnpacked(columns, width, height, pixels);
    for x := 0 to width
      invariant PartlyUnpacked(columns, width, height, pixels, x, 0)
    {
      for byteIndex := 0 to bytesPerColumn
        invariant PartlyUnpacked(columns, width, height, pixels, x, byteIndex * 8)
      {
        CellIndex(x, byteIndex, width, bytesPerColumn);
        var bits := columns[x * bytesPerColumn + byteIndex];
        for bit := 0 to 8
          invariant PartlyUnpacked(columns, width, height, pixels, x, byteIndex * 8 + bit)
        {
          var y := byteIndex * 8 + bit;
          PartlyGrid(columns, width, height, pixels, x, y);
          StepUnpacked(columns, width, height, pixels, x, y);
          if y < height && BitOf(bits, bit) {
            pixels := pixels[y := pixels[y][x := true]];
          }
        }
      }
      ColumnHolds(height);
      ColumnUnpacked(columns, width, height, pixels, x, bytesPerColumn * 8);
    }
    AllUnpacked(columns, width, height, pixels);
    return Ok(pixels);
  }

  lemma StartUnpacked(columns: seq<int>, width: nat, height: nat, p: Pixels)
    requires |columns| == width * BytesPerColumn(height)
    requires IsGrid(p, width, height) && forall y, x :: 0 <= y < height && 0 <= x < width ==> !p[y][x]
    ensures PartlyUnpacked(columns, width, height, p, 0, 0)
  {
    hide PixelAt;
  }

  lemma PartlyGrid(columns: seq<int>, width: nat, height: nat, p: Pixels, x: nat, y: nat)
    requires |columns| == width * BytesPerColumn(height) && PartlyUnpacked(columns, width, height, p, x, y)
    ensures IsGrid(p, width, height)
  {
    hide PixelAt;
  }

  lemma StepUnpacked(columns: seq<int>, width: nat, height: nat, p: Pixels, x: nat, y: nat)
    requires |columns| == width * BytesPerColumn(height) && x < width
    requires PartlyUnpacked(columns, width, height, p, x, y)
    ensures y >= height ==> PartlyUnpacked(columns, width, height, p, x, y + 1)
    ensures y < height && !PixelAt(columns, width, height, x, y) ==> PartlyUnpacked(columns, width, height, p, x, y + 1)
    ensures y < height && PixelAt(columns, width, height, x, y) ==>
              IsGrid(p, width, height) && PartlyUnpacked(columns, width, height, p[y := p[y][x := true]], x, y + 1)
    ensures y < height ==> y / 8 < BytesPerColumn(height) && x * BytesPerColumn(height) + y / 8 < |columns|
                           && PixelAt(columns, width, height, x, y) == BitOf(columns[x * BytesPerColumn(height) + y / 8], y % 8)
  {
    if y < height {
      CellIndex(x, y / 8, width, BytesPerColumn(height));
    }
    StepCells(columns, width, height, p, x, y);
  }

  lemma StepCells(columns: seq<int>, width: nat, height: nat, p: Pixels, x: nat, y: nat)
    requires |columns| == width * BytesPerColumn(height) && x < width
    requires PartlyUnpacked(columns, width, height, p, x, y)
    ensures y >= height ==> PartlyUnpacked(columns, width, height, p, x, y + 1)
    ensures y < height && !PixelAt(columns, width, height, x, y) ==> PartlyUnpacked(columns, width, height, p, x, y + 1)
    ensures y < height && PixelAt(columns, width, height, x, y) ==>
              IsGrid(p, width, height) && PartlyUnpacked(columns, width, height, p[y := p[y][x := true]], x, y + 1)
  {
    hide PixelAt, BytesPerColumn;
  }

  lemma ColumnHolds(height: nat)
    ensures BytesPerColumn(height) * 8 >= height
  {
  }

  lemma ColumnUnpacked(columns: seq<int>, width: nat, height: nat, p: Pixels, x: nat, y: nat)
    requires |columns| == width * BytesPerColumn(height)
    requires PartlyUnpacked(columns, width, height, p, x, y) && y >= height
    ensures PartlyUnpacked(columns, width, height, p, x + 1, 0)
  {
    hide PixelAt;
  }

  lemma AllUnpacked(columns: seq<int>, width: nat, height: nat, p: Pixels)
    requires |columns| == width * BytesPerColumn(height)
    requires PartlyUnpacked(columns, width, height, p, width, 0)
    ensures Unpacked(columns, width, height, p)
  {
    hide PixelAt;
  }

  // ------------------------------------------------------------------ round trips

  lemma PackedPixel(p: Pixels, width: nat, height: nat, x: nat, y: nat)
    requires IsGrid(p, width, height) && x < width && y < height
    ensures PixelAt(Packed(p, width, height), width, height, x, y) <==> p[y][x]
  {
    hide FromBits, Columns;
    ColumnsAt(p, width, height, width, x, y / 8);
    var bits := ColumnBits(p, width, height, x, y / 8);
    BitOfFromBits(bits, y % 8);
    assert y / 8 * 8 + y % 8 == y;
  }

  /** `columns_to_pixels` undoes `encode_glyph`, for every cell size, and nothing else
      unpacks to the same cell by accident: the packed form determines the pixels. */
  lemma PackRoundTrip(p: Pixels, width: nat, height: nat, q: Pixels)
    requires IsGrid(p, width, height)
    ensures Unpacked(Packed(p, width, height), width, height, q) <==> q == p
  {
    hide PixelAt, Packed;
    var columns := Packed(p, width, height);
    forall y, x | 0 <= y < height && 0 <= x < width
      ensures p[y][x] <==> PixelAt(columns, width, height, x, y)
    {
      PackedPixel(p, width, height, x, y);
    }
    if Unpacked(columns, width, height, q) {
      UnpackedUnique(columns, width, height, p, q);
    }
  }

  /** Packing again what columns unpack to keeps exactly the bits above the last row. */
  lemma RepackedBit(columns: seq<int>, width: nat, height: nat, p: Pixels, x: nat, k: nat, b: nat)
    requires Unpacked(columns, width, height, p) && x < width && k < BytesPerColumn(height) && b < 8
    ensures x * BytesPerColumn(height) + k < |columns| == |Packed(p, width, height)|
    ensures BitOf(Packed(p, width, height)[x * BytesPerColumn(height) + k], b)
            <==> k * 8 + b < height && BitOf(columns[x * BytesPerColumn(height) + k], b)
  {
    hide FromBits, Columns;
    CellIndex(x, k, width, BytesPerColumn(height));
    ColumnsAt(p, width, height, width, x, k);
    var bits := ColumnBits(p, width, height, x, k);
    BitOfFromBits(bits, b);
    var y := k * 8 + b;
    if y < height {
      assert y / 8 == k && y % 8 == b;
      assert p[y][x] <==> PixelAt(columns, width, height, x, y);
    }
  }

  /** A column byte with nothing below the last row. */
  predicate CleanByte(v: int, height: nat, k: nat) {
    0 <= v < 0x100 && forall b :: 0 <= b < 8 && BitOf(v, b) ==> k * 8 + b < height
  }

  lemma {:induction false} BitsAt(v: nat, n: nat, i: nat)
    requires i < n
    ensures ToBits(v, n)[i] == BitOf(v, i)
  {
    if i > 0 {
      BitsAt(v / 2, n - 1, i - 1);
    }
  }

  lemma BytesByBits(v: byte, w: byte)
    requires forall b :: 0 <= b < 8 ==> BitOf(v, b) == BitOf(w, b)
    ensures v == w
  {
    hide BitOf, ToBits;
    forall b | 0 <= b < 8
      ensures ToBits(v, 8)[b] == ToBits(w, 8)[b]
    {
      BitsAt(v, 8, b);
      BitsAt(w, 8, b);
    }
    assert ToBits(v, 8) == ToBits(w, 8);
    Pow2Words();
    FromToBits(v, 8);
    FromToBits(w, 8);
  }

  /** So packing again gives back exactly the columns that are clean bytes. */
  lemma RepackedByte(columns: seq<int>, width: nat, height: nat, p: Pixels, x: nat, k: nat)
    requires Unpacked(columns, width, height, p) && x < width && k < BytesPerColumn(height)
    ensures x * BytesPerColumn(height) + k < |columns| == |Packed(p, width, height)|
    ensures Packed(p, width, height)[x * BytesPerColumn(height) + k] == columns[x * BytesPerColumn(height) + k]
            <==> CleanByte(columns[x * BytesPerColumn(height) + k], height, k)
  {
    hide BitOf, Packed, BytesPerColumn, PixelAt;
    RepackedBit(columns, width, height, p, x, k, 0);
    var i := x * BytesPerColumn(height) + k;
    var again, given := Packed(p, width, height)[i], columns[i];
    forall b | 0 <= b < 8
      ensures BitOf(again, b) <==> k * 8 + b < height && BitOf(given, b)
    {
      RepackedBit(columns, width, height, p, x, k, b);
    }
    if CleanByte(given, height, k) {
      BytesByBits(again, given);
    }
  }

  lemma CellOf(i: nat, width: nat, bpc: nat) returns (x: nat, k: nat)
    requires i < width * bpc
    ensures x < width && k < bpc && i == x * bpc + k
  {
    x, k := i / bpc, i % bpc;
    if x >= width {
      ScaleMonotone(width, x, bpc);
    }
  }

  lemma ScaleMonotone(a: nat, b: nat, n: nat)
    requires a <= b
    ensures a * n <= b * n
  {
  }

  predicate CleanCell(columns: seq<int>, width: nat, height: nat, x: nat, k: nat)
    requires |columns| == width * BytesPerColumn(height) && x < width && k < BytesPerColumn(height)
  {
    CellIndex(x, k, width, BytesPerColumn(height));
    CleanByte(columns[x * BytesPerColumn(height) + k], height, k)
  }

  predicate CleanColumns(columns: seq<int>, width: nat, height: nat)
    requires |columns| == width * BytesPerColumn(height)
  {
    forall x, k :: 0 <= x < width && 0 <= k < BytesPerColumn(height) ==>
      CleanCell(columns, width, height, x, k)
  }

  /** Unpacking and packing again changes nothing exactly for columns that are bytes with
      no bit below the last row. */
  lemma RepackRoundTrip(columns: seq<int>, width: nat, height: nat, p: Pixels)
    requires Unpacked(columns, width, height, p)
    ensures Packed(p, width, height) == columns <==> CleanColumns(columns, width, height)
  {
    hide BitOf, Packed, BytesPerColumn, PixelAt, CleanByte;
    var bpc := BytesPerColumn(height);
    var again := Packed(p, width, height);
    if again == columns {
      forall x, k | 0 <= x < width && 0 <= k < bpc
        ensures CleanCell(columns, width, height, x, k)
      {
        RepackedByte(columns, width, height, p, x, k);
      }
    }
    if CleanColumns(columns, width, height) {
      forall i | 0 <= i < |columns|
        ensures again[i] == columns[i]
      {
        var x, k := CellOf(i, width, bpc);
        assert CleanCell(columns, width, height, x, k);
        RepackedByte(columns, width, height, p, x, k);
      }
    }
  }
}
