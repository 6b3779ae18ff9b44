/** The value types of src/font_impl.hpp (`Bbox`, `Coord_data`,
    `Char_info`, `Page`), the font parameters that `load_page` and
    `build_text` read, and the FreeType face they query.

    FreeType is foreign code: a face is modelled by what the core asks of
    it, as total functions of the pixel size and glyph index. */
module FontImpl {
  import opened Types
  import Utf8

  datatype Option<T> = None | Some(value: T)

  /** `Bbox<int>`: upper-left and lower-right corners, y growing upwards
      for glyph boxes. */
  datatype IBox = IBox(ul: Vec2<int>, lr: Vec2<int>) {
    /** `width()`: the horizontal extent, so that `ul.x + w` is `lr.x`. */
    function Width(): (w: int)
      ensures ul.x + w == lr.x
    {
      lr.x - ul.x
    }

    /** `height()`: the vertical extent, so that `lr.y + h` is `ul.y`. */
    function Height(): (h: int)
      ensures lr.y + h == ul.y
    {
      ul.y - lr.y
    }
  }

  /** `Bbox<float>`, over the reals (rounding is not modelled). */
  datatype FBox = FBox(ul: Vec2<real>, lr: Vec2<real>) {
    function Width(): (w: real)
      ensures ul.x + w == lr.x
    {
      lr.x - ul.x
    }

    function Height(): (h: real)
      ensures lr.y + h == ul.y
    {
      ul.y - lr.y
    }
  }

  /** `Coord_data`: which page's texture to bind, and the vertex range of
      the buffer to draw with it. */
  datatype CoordData = CoordData(pageNo: nat, start: nat, numElements: nat)

  /** `Char_info`: placement of one code point's glyph. */
  datatype CharInfo = CharInfo(origin: Vec2<int>, advance: Vec2<int>, bbox: IBox, glyphI: nat)

  /** A value-initialised `Char_info`: everything zero, glyph index 0. */
  const ZeroCharInfo := CharInfo(Vec2(0, 0), Vec2(0, 0), IBox(Vec2(0, 0), Vec2(0, 0)), 0)

  /** `Page`: the 256 `Char_info` of one page, and the greyscale texels
      uploaded as the page's texture (row `Y`, column `X`). */
  datatype Page = Page(texels: seq<seq<Utf8.byte>>, charInfo: seq<CharInfo>)

  /** The glyph slot after a successful `FT_Load_Glyph(.., FT_LOAD_RENDER)`:
      bitmap placement, size, greyscale pixel `(x, y)` and 26.6 advance. */
  datatype GlyphSlot = GlyphSlot(bitmapLeft: int, bitmapTop: int, width: nat, rows: nat,
                                 pixel: (nat, nat) -> Utf8.byte, advance: Vec2<int>)

  /** The face metrics `resize` reads after `FT_Set_Pixel_Sizes`, already
      scaled by `FT_MulFix` to the pixel size: 26.6 fixed point. */
  datatype ScaledMetrics = ScaledMetrics(xMin: int, yMin: int, xMax: int, yMax: int, height: int)

  /** An opened face with its Unicode charmap selected. `None` stands for
      a FreeType error. */
  datatype Face = Face(
    setPixelSizes: nat -> Option<ScaledMetrics>,  // FT_Set_Pixel_Sizes, then the scaled metrics
    hasKerning: bool,                              // FT_HAS_KERNING
    charIndex: nat -> nat,                         // FT_Get_Char_Index, 0 when missing
    loadGlyph: (nat, nat) -> Option<GlyphSlot>,    // FT_Load_Glyph at (pixel size, glyph index)
    kerning: (nat, nat, nat) -> Option<Vec2<int>>) // FT_Get_Kerning at (pixel size, left, right)

  /** Everything of `Font_sys::Impl` that laying out and rasterising a page
      depend on: the face at its current pixel size, and the fields
      `resize` sets. */
  datatype FontCfg = FontCfg(face: Face, pixelSize: nat, hasKerningInfo: bool, cellBbox: IBox,
                             lineHeight: int, texWidth: int, texHeight: int)

  /** C++ `v / 64` on a signed integer: truncates toward zero. */
  function Div64(v: int): (q: int)
    ensures 0 <= v ==> 0 <= v - 64 * q < 64
    ensures v < 0 ==> -64 < v - 64 * q <= 0
  {
    if v >= 0 then v / 64 else -((-v) / 64)
  }

  /** Unlike Euclidean division, truncation is symmetric about zero. */
  lemma Div64Odd(v: int)
    ensures Div64(-v) == -Div64(v)
  {
  }

  lemma Div64Monotone(a: int, b: int)
    requires a <= b
    ensures Div64(a) <= Div64(b)
  {
  }

  /** The cell box `resize` computes from the scaled face box: each edge
      rounded toward zero to whole pixels, then widened by 2 px. */
  function CellBox(m: ScaledMetrics): IBox
  {
    IBox(Vec2(Div64(m.xMin) - 2, Div64(m.yMax) + 2), Vec2(Div64(m.xMax) + 2, Div64(m.yMin) - 2))
  }

  /** Despite the rounding toward zero, the cell keeps at least one whole
      pixel of padding around the scaled face box on every side, and a
      well-ordered face box gives a cell at least 4 px wide and high. */
  lemma CellCoversFace(m: ScaledMetrics)
    ensures 64 * (CellBox(m).ul.x + 1) < m.xMin + 1 && m.xMax < 64 * (CellBox(m).lr.x - 1)
    ensures m.yMax < 64 * (CellBox(m).ul.y - 1) && 64 * (CellBox(m).lr.y + 1) < m.yMin + 1
    ensures m.xMin <= m.xMax ==> CellBox(m).Width() >= 4
    ensures m.yMin <= m.yMax ==> CellBox(m).Height() >= 4
  {
    if m.xMin <= m.xMax {
      Div64Monotone(m.xMin, m.xMax);
    }
    if m.yMin <= m.yMax {
      Div64Monotone(m.yMin, m.yMax);
    }
  }
}
