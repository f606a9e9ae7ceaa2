/** The EQF1 font file: `build_eqf` (scripts/codegen/font.py) writes it, the device's loader
    and text renderer (components/esp32_mquickjs/src/modules/bitmap) read it. */
module Fonts {
  import opened Wire
  import opened Glyphs
  import opened BdfGlyphs

  datatype FontSource = FontSource(glyphs: map<int, Glyph>, width: nat, height: nat, advance: int, lineHeight: int)

  /** What to do about a code point the source has no glyph for. */
  datatype Missing = AsError | AsQuestion | AsBlank

  /** Every glyph of a source fills the source's cell. */
  predicate WellFormed(f: FontSource) {
    forall c :: c in f.glyphs ==> IsGrid(f.glyphs[c].pixels, f.width, f.height)
  }

  /** `choose_missing_glyph` */
  function ChooseMissing(f: FontSource, c: int, missing: Missing): (r: Result<Glyph>)
    requires WellFormed(f)
    ensures r.Ok? <==> !missing.AsError?
    ensures r.Ok? ==> IsGrid(r.value.pixels, f.width, f.height)
    ensures missing.AsQuestion? && 0x3F in f.glyphs ==> r == Ok(f.glyphs[0x3F])
    ensures r.Ok? && !(missing.AsQuestion? && 0x3F in f.glyphs) ==>
              && r.value.codepoint == c
              && forall y, x :: 0 <= y < f.height && 0 <= x < f.width ==> !r.value.pixels[y][x]
  {
    if missing.AsError? then Err
    else if missing.AsQuestion? && 0x3F in f.glyphs then Ok(f.glyphs[0x3F])
    else Ok(Glyph(c, f.width, f.height, EmptyPixels(f.width, f.height)))
  }

  function GlyphFor(f: FontSource, c: int, missing: Missing): (r: Result<Glyph>)
    requires WellFormed(f)
    ensures r.Ok? ==> IsGrid(r.value.pixels, f.width, f.height)
    ensures r.Ok? <==> c in f.glyphs || !missing.AsError?
  {
    if c in f.glyphs then Ok(f.glyphs[c]) else ChooseMissing(f, c, missing)
  }

  lemma GlyphIs(f: FontSource, c: int, missing: Missing)
    requires WellFormed(f)
    ensures GlyphFor(f, c, missing) == if c in f.glyphs then Ok(f.glyphs[c]) else ChooseMissing(f, c, missing)
    ensures c in f.glyphs ==> GlyphFor(f, c, missing) == Ok(f.glyphs[c])
    ensures c !in f.glyphs && GlyphFor(f, c, missing).Ok? ==>
              forall y, x :: 0 <= y < f.height && 0 <= x < f.width ==>
                GlyphFor(f, c, missing).value.pixels[y][x]
                == (missing.AsQuestion? && 0x3F in f.glyphs && f.glyphs[0x3F].pixels[y][x])
  {
  }

  function Stride(f: FontSource): nat {
    f.width * BytesPerColumn(f.height)
  }

  /** Every code point from `first` has a glyph, `n` of them. */
  predicate Covered(f: FontSource, first: int, n: nat, missing: Missing)
    requires WellFormed(f)
  {
    forall c :: first <= c < first + n ==> GlyphFor(f, c, missing).Ok?
  }

  /** The packed glyphs of `n` code points from `first`. */
  function GlyphBytes(f: FontSource, first: int, n: nat, missing: Missing): (b: bytes)
    requires WellFormed(f) && Covered(f, first, n, missing)
    ensures |b| == n * Stride(f)
  {
    if n == 0 then []
    else
      var glyph := GlyphFor(f, first + n - 1, missing).value;
      GlyphBytes(f, first, n - 1, missing) + Packed(glyph.pixels, f.width, f.height)
  }

  predicate IsByte(v: int) {
    0 <= v < 0x100
  }

  predicate HeaderFits(f: FontSource, first: int, last: int) {
    IsByte(first) && IsByte(last) && IsByte(f.width) && IsByte(f.height) && IsByte(f.advance) && IsByte(f.lineHeight)
  }

  function Count(first: int, last: int): nat {
    if last < first then 0 else last - first + 1
  }

  lemma LengthFits(f: FontSource, first: int, last: int)
    requires HeaderFits(f, first, last)
    ensures Count(first, last) * Stride(f) < 0x1_0000_0000
  {
    ScaleMonotone(f.width, 0xFF, BytesPerColumn(f.height));
    ScaleMonotone(BytesPerColumn(f.height), 32, 0xFF);
    ScaleMonotone(Count(first, last), 0x100, Stride(f));
  }

  function Header(f: FontSource, first: int, last: int): (h: bytes)
    requires HeaderFits(f, first, last)
    ensures |h| == 16
  {
    LengthFits(f, first, last);
    [0x45, 0x51, 0x46, 0x31, 1, 0, first, last, f.width, f.height, f.advance, f.lineHeight] + Put32(Count(first, last) * Stride(f))
  }

  /** `build_eqf`: it fails exactly for a code point without a glyph, or a header field
      that is not a byte. */
  method BuildEqf(f: FontSource, first: int, last: int, missing: Missing) returns (r: Result<bytes>)
    requires WellFormed(f)
    ensures r.Ok? <==> Covered(f, first, Count(first, last), missing) && HeaderFits(f, first, last)
    ensures r.Ok? ==> r.value == Header(f, first, last) + GlyphBytes(f, first, Count(first, last), missing)
  {
    hide GlyphFor, Packed, IsGrid;
    var glyphBytes: bytes := [];
    for n := 0 to Count(first, last)
      invariant Covered(f, first, n, missing) && glyphBytes == GlyphBytes(f, first, n, missing)
    {
      var codepoint := first + n;
      var glyph := if codepoint in f.glyphs then Ok(f.glyphs[codepoint]) else ChooseMissing(f, codepoint, missing);
      GlyphIs(f, codepoint, missing);
      if glyph.Err? {
        return Err;
      }
      var encoded := EncodeGlyph(glyph.value.pixels, f.width, f.height);
      glyphBytes := glyphBytes + encoded;
    }
    if !HeaderFits(f, first, last) {
      return Err;
    }
    LengthFits(f, first, last);
    var header := [0x45, 0x51, 0x46, 0x31, 1, 0, first, last, f.width, f.height, f.advance, f.lineHeight] + Put32(|glyphBytes|);
    return Ok(header + glyphBytes);
  }

  /** Which fonts can be built: every code point of the range has a glyph or may be replaced,
      and every header field is a byte. */
  lemma BuildsExactly(f: FontSource, first: int, last: int, missing: Missing)
    requires WellFormed(f)
    ensures Covered(f, first, Count(first, last), missing) && HeaderFits(f, first, last) <==>
            && (forall c :: first <= c <= last ==> c in f.glyphs || !missing.AsError?)
            && (forall v :: v in [first, last, f.width, f.height, f.advance, f.lineHeight] ==> 0 <= v <= 0xFF)
  {
    hide GlyphFor;
    var fields := [first, last, f.width, f.height, f.advance, f.lineHeight];
    assert fields[0] in fields && fields[1] in fields && fields[2] in fields && fields[3] in fields;
    assert fields[4] in fields && fields[5] in fields;
    forall c | first <= c <= last
      ensures GlyphFor(f, c, missing).Ok? <==> c in f.glyphs || !missing.AsError?
    {
    }
  }

  // ------------------------------------------------------------- slices of the file

  lemma SliceBounds(k: nat, n: nat, stride: nat)
    requires k < n
    ensures k * stride + stride == (k + 1) * stride <= n * stride
  {
    ScaleMonotone(k + 1, n, stride);
  }

  lemma {:induction false} PackedSlice(f: FontSource, first: int, n: nat, missing: Missing, k: nat)
    requires WellFormed(f) && Covered(f, first, n, missing) && k < n
    ensures k * Stride(f) + Stride(f) <= n * Stride(f)
    ensures GlyphBytes(f, first, n, missing)[k * Stride(f)..k * Stride(f) + Stride(f)]
            == Packed(GlyphFor(f, first + k, missing).value.pixels, f.width, f.height)
  {
    hide GlyphFor, Packed, Stride, IsGrid, GlyphBytes;
    GlyphBytesLast(f, first, n, missing);
    var before := GlyphBytes(f, first, n - 1, missing);
    var last := Packed(GlyphFor(f, first + n - 1, missing).value.pixels, f.width, f.height);
    SliceBounds(k, n, Stride(f));
    PackedStride(f, GlyphFor(f, first + n - 1, missing).value.pixels);
    if k < n - 1 {
      PackedSlice(f, first, n - 1, missing, k);
      SliceOfFront(before, last, k * Stride(f), Stride(f));
    } else {
      SliceOfEnd(before, last);
    }
  }

  /** The slice of a code point holds its own glyph; without one it holds the question mark
      when that was asked for and is there, and else a blank cell. */
  lemma GlyphSlice(f: FontSource, first: int, n: nat, missing: Missing, k: nat)
    requires WellFormed(f) && Covered(f, first, n, missing) && k < n
    ensures k * Stride(f) + Stride(f) <= n * Stride(f)
    ensures var slice := GlyphBytes(f, first, n, missing)[k * Stride(f)..k * Stride(f) + Stride(f)];
            && (first + k in f.glyphs ==> slice == Packed(f.glyphs[first + k].pixels, f.width, f.height))
            && (first + k !in f.glyphs ==>
                  slice == Packed(if missing.AsQuestion? && 0x3F in f.glyphs then f.glyphs[0x3F].pixels
                                  else EmptyPixels(f.width, f.height), f.width, f.height))
  {
    hide GlyphBytes, Packed, Stride;
    PackedSlice(f, first, n, missing, k);
  }

  lemma GlyphBytesLast(f: FontSource, first: int, n: nat, missing: Missing)
    requires WellFormed(f) && Covered(f, first, n, missing) && n > 0
    ensures Covered(f, first, n - 1, missing) && GlyphFor(f, first + n - 1, missing).Ok?
    ensures GlyphBytes(f, first, n, missing) == GlyphBytes(f, first, n - 1, missing)
            + Packed(GlyphFor(f, first + n - 1, missing).value.pixels, f.width, f.height)
  {
    hide GlyphFor, Packed, Stride, IsGrid;
  }

  lemma SliceOfFront(a: bytes, b: bytes, o: nat, n: nat)
    requires o + n <= |a|
    ensures (a + b)[o..o + n] == a[o..o + n]
  {
  }

  lemma SliceOfEnd(a: bytes, b: bytes)
    ensures (a + b)[|a|..|a| + |b|] == b
  {
  }

  lemma PackedStride(f: FontSource, p: Pixels)
    requires IsGrid(p, f.width, f.height)
    ensures |Packed(p, f.width, f.height)| == Stride(f)
  {
  }

  // ---------------------------------------------------------------- the device's side

  datatype DeviceFont = DeviceFont(glyphs: bytes, first: byte, last: byte, width: byte, height: byte, bytesPerColumn: byte,
                                   advance: byte, lineHeight: byte)

  /** `display_font_make` */
  function LoadFont(b: bytes): Result<DeviceFont> {
    if |b| < 16 || b[..6] != [0x45, 0x51, 0x46, 0x31, 1, 0] then Err
    else
      var first, last, width, height, advance, lineHeight := b[6], b[7], b[8], b[9], b[10], b[11];
      var glyphLength := U32(b, 12);
      if last < first || width == 0 || height == 0 || height > 64 || advance == 0 || lineHeight == 0 || lineHeight < height then Err
      else
        var bytesPerColumn := BytesPerColumn(height);
        var glyphCount: nat := last as int - first as int + 1;
        var stride: nat := width as int * bytesPerColumn;
        if glyphLength != glyphCount * stride || glyphLength > |b| - 16 then Err
        else Ok(DeviceFont(b[16..16 + glyphLength], first, last, width, height, bytesPerColumn, advance, lineHeight))
  }

  /** The code point whose glyph the device draws for a character. */
  function Drawn(first: byte, last: byte, ch: byte): byte {
    if first <= ch <= last then ch else if first <= 0x3F <= last then 0x3F else first
  }

  /** A device font that the loader made. */
  predicate Loaded(d: DeviceFont) {
    && d.first <= d.last && 0 < d.width && 0 < d.height
    && d.bytesPerColumn == BytesPerColumn(d.height)
    && |d.glyphs| == (d.last - d.first + 1) * (d.width * d.bytesPerColumn)
  }

  lemma SlotInside(k: nat, n: nat, stride: nat, size: nat)
    requires k < n && size == n * stride
    ensures 0 <= k * stride && k * stride + stride <= size
  {
    SliceBounds(k, n, stride);
  }

  /** `esp32_mquickjs_bitmap_font_glyph`: where a character's glyph starts. */
  function GlyphOffset(d: DeviceFont, ch: byte): (o: nat)
    requires Loaded(d)
    ensures o + d.width * d.bytesPerColumn <= |d.glyphs|
  {
    hide BytesPerColumn;
    var k: nat, stride: nat := Drawn(d.first, d.last, ch) - d.first, d.width * d.bytesPerColumn;
    SlotInside(k, d.last - d.first + 1, stride, |d.glyphs|);
    k * stride
  }

  /** The pixel test of `bitmap_draw_text_raw`. */
  predicate DrawnPixel(d: DeviceFont, ch: byte, col: nat, row: nat)
    requires Loaded(d) && col < d.width && row < d.height
  {
    CellIndex(col, row / 8, d.width, d.bytesPerColumn);
    BitOf(d.glyphs[GlyphOffset(d, ch) + col * d.bytesPerColumn + row / 8], row % 8)
  }

  lemma OffsetIs(d: DeviceFont, ch: byte, k: nat, stride: nat)
    requires Loaded(d) && k == Drawn(d.first, d.last, ch) - d.first && stride == d.width * d.bytesPerColumn
    ensures GlyphOffset(d, ch) == k * stride
  {
  }

  lemma DrawnAt(d: DeviceFont, ch: byte, col: nat, row: nat, glyph: bytes, o: nat)
    requires Loaded(d) && col < d.width && row < d.height && |glyph| == d.width * BytesPerColumn(d.height)
    requires o == GlyphOffset(d, ch) && o + |glyph| <= |d.glyphs| && d.glyphs[o..o + |glyph|] == glyph
    ensures DrawnPixel(d, ch, col, row) <==> PixelAt(glyph, d.width, d.height, col, row)
  {
    hide Drawn, BitOf, GlyphOffset;
    CellIndex(col, row / 8, d.width, BytesPerColumn(d.height));
    SliceAt(d.glyphs, o, glyph, col * BytesPerColumn(d.height) + row / 8);
  }

  lemma SliceAt(s: bytes, o: nat, t: bytes, i: nat)
    requires o + |t| <= |s| && s[o..o + |t|] == t && i < |t|
    ensures t[i] == s[o + i]
  {
    assert s[o..o + |t|][i] == s[o + i];
  }

  /** The metrics the device accepts. */
  predicate Drawable(f: FontSource, first: int, last: int) {
    first <= last && f.width > 0 && 0 < f.height <= 64 && f.advance > 0 && f.lineHeight >= f.height
  }

  lemma HeaderRead(f: FontSource, first: int, last: int, glyphs: bytes)
    requires HeaderFits(f, first, last)
    ensures var b := Header(f, first, last) + glyphs;
            && b[..6] == [0x45, 0x51, 0x46, 0x31, 1, 0]
            && b[6] == first && b[7] == last && b[8] == f.width && b[9] == f.height && b[10] == f.advance && b[11] == f.lineHeight
            && U32(b, 12) == Count(first, last) * Stride(f)
            && b[16..] == glyphs
  {
    hide U32, Put32, Stride;
    LengthFits(f, first, last);
    var b := Header(f, first, last) + glyphs;
    assert b[12..16] == Put32(Count(first, last) * Stride(f));
    Word32(b, 12, Count(first, last) * Stride(f));
  }

  /** The device loads what `build_eqf` wrote exactly when the metrics can be drawn. */
  lemma DeviceLoads(f: FontSource, first: int, last: int, glyphs: bytes)
    requires HeaderFits(f, first, last) && |glyphs| == Count(first, last) * Stride(f)
    ensures LoadFont(Header(f, first, last) + glyphs).Ok? <==> Drawable(f, first, last)
    ensures Drawable(f, first, last) ==>
              LoadFont(Header(f, first, last) + glyphs)
              == Ok(DeviceFont(glyphs, first, last, f.width, f.height, BytesPerColumn(f.height), f.advance, f.lineHeight))
  {
    hide Header, U32;
    HeaderRead(f, first, last, glyphs);
    var b := Header(f, first, last) + glyphs;
    assert |b| == 16 + |glyphs|;
    assert b[16..16 + |glyphs|] == glyphs;
  }

  lemma DeviceDrawsChosen(f: FontSource, first: byte, last: byte, missing: Missing, ch: byte, col: nat, row: nat)
    requires WellFormed(f) && HeaderFits(f, first, last) && Drawable(f, first, last)
    requires Covered(f, first, Count(first, last), missing) && col < f.width && row < f.height
    ensures GlyphFor(f, Drawn(first, last, ch), missing).Ok?
    ensures var d := LoadFont(Header(f, first, last) + GlyphBytes(f, first, Count(first, last), missing));
            && d.Ok? && Loaded(d.value)
            && (DrawnPixel(d.value, ch, col, row)
                <==> GlyphFor(f, Drawn(first, last, ch), missing).value.pixels[row][col])
  {
    hide GlyphFor, GlyphBytes, LoadFont, Header, IsGrid, DrawnPixel, Packed, PixelAt;
    var n := Count(first, last);
    var glyphs := GlyphBytes(f, first, n, missing);
    DeviceLoads(f, first, last, glyphs);
    var k := Drawn(first, last, ch) - first;
    var p := GlyphFor(f, first + k, missing).value.pixels;
    PackedSlice(f, first, n, missing, k);
    PackedStride(f, p);
    var d := LoadFont(Header(f, first, last) + glyphs).value;
    OffsetIs(d, ch, k, Stride(f));
    DrawnAt(d, ch, col, row, Packed(p, f.width, f.height), k * Stride(f));
    PackedPixel(p, f.width, f.height, col, row);
  }

  /** End to end: a character in range is drawn as the source's own glyph, and a character
      out of range as the question mark if that is in range, else as the first one. For a
      code point without a glyph it is the question mark's glyph when that was asked for
      and is there, and otherwise nothing. */
  lemma DeviceDrawsSource(f: FontSource, first: byte, last: byte, missing: Missing, ch: byte, col: nat, row: nat)
    requires WellFormed(f) && HeaderFits(f, first, last) && Drawable(f, first, last)
    requires Covered(f, first, Count(first, last), missing) && col < f.width && row < f.height
    ensures var d := LoadFont(Header(f, first, last) + GlyphBytes(f, first, Count(first, last), missing));
            var shown: int := if first <= ch <= last then ch else if first <= '?' as byte <= last then '?' as int else first;
            && d.Ok? && Loaded(d.value)
            && (shown in f.glyphs ==> (DrawnPixel(d.value, ch, col, row) <==> f.glyphs[shown].pixels[row][col]))
            && (shown !in f.glyphs ==>
                  (DrawnPixel(d.value, ch, col, row)
                   <==> missing.AsQuestion? && 0x3F in f.glyphs && f.glyphs[0x3F].pixels[row][col]))
  {
    hide GlyphFor, GlyphBytes, LoadFont, Header, DrawnPixel, Loaded, HeaderFits, Drawable, Covered;
    DeviceDrawsChosen(f, first, last, missing, ch, col, row);
    GlyphIs(f, Drawn(first, last, ch), missing);
  }
}
