/** What `load_page` (src/font.cpp) builds for one page: the `Char_info`
    of each of its 256 code points, and the greyscale atlas, a 16x16 grid of
    cells each `cell_bbox` sized, into which every rendered glyph bitmap is
    copied. */
module Atlas {
  import opened Types
  import Utf8
  import opened FontImpl

  /** `(code_pt >> 4) & 0xF`: the grid row of a code point. */
  function TexRow(cp: nat): (r: nat)
    ensures r < 16
  {
    (cp / 16) % 16
  }

  /** `code_pt & 0xF`: the grid column of a code point. */
  function TexCol(cp: nat): (c: nat)
    ensures c < 16
  {
    cp % 16
  }

  /** The glyph slot FreeType fills for `cp` at the font's pixel size, or
      `None` when `FT_Load_Glyph` fails. */
  function Slot(cfg: FontCfg, cp: nat): Option<GlyphSlot>
  {
    cfg.face.loadGlyph(cfg.pixelSize, cfg.face.charIndex(cp))
  }

  /** The `Char_info` `load_page` records for `cp`: zero when the glyph
      does not load, else the slot's placement and the glyph index. */
  function CharInfoFor(cfg: FontCfg, cp: nat): (c: CharInfo)
    ensures Slot(cfg, cp).None? ==> c == ZeroCharInfo
    ensures Slot(cfg, cp).Some? ==>
      var s := Slot(cfg, cp).value;
      && c.glyphI == cfg.face.charIndex(cp) && c.advance == s.advance
      && c.bbox.ul == Vec2(s.bitmapLeft, s.bitmapTop)
      && c.bbox.Width() == s.width && c.bbox.Height() == s.rows
      && c.origin == Vec2(s.bitmapLeft - cfg.cellBbox.ul.x, cfg.cellBbox.ul.y - s.bitmapTop)
  {
    match Slot(cfg, cp)
    case None => ZeroCharInfo
    case Some(s) =>
      CharInfo(Vec2(-cfg.cellBbox.ul.x + s.bitmapLeft, cfg.cellBbox.ul.y - s.bitmapTop),
               s.advance,
               IBox(Vec2(s.bitmapLeft, s.bitmapTop), Vec2(s.width + s.bitmapLeft, s.bitmapTop - s.rows)),
               cfg.face.charIndex(cp))
  }

  /** Atlas column of the bitmap's first pixel (`tbl_img_x` at x = 0). */
  function AtlasX(cfg: FontCfg, cp: nat, s: GlyphSlot): int
  {
    TexCol(cp) * cfg.cellBbox.Width() - cfg.cellBbox.ul.x + s.bitmapLeft
  }

  /** Atlas row of the bitmap's first pixel (`tbl_img_y` at y = 0). */
  function AtlasY(cfg: FontCfg, cp: nat, s: GlyphSlot): int
  {
    TexRow(cp) * cfg.cellBbox.Height() + cfg.cellBbox.ul.y - s.bitmapTop
  }

  /** Whether `load_page` writes texel (Y, X) while copying `cp`'s bitmap. */
  predicate Covers(cfg: FontCfg, cp: nat, s: GlyphSlot, y: int, x: int)
  {
    AtlasY(cfg, cp, s) <= y < AtlasY(cfg, cp, s) + s.rows && AtlasX(cfg, cp, s) <= x < AtlasX(cfg, cp, s) + s.width
  }

  /** Texel (Y, X) of the page's atlas after the first `k` code points of
      the page have been copied, later glyphs overwriting earlier ones. */
  function Texel(cfg: FontCfg, pageNo: nat, k: nat, y: int, x: int): Utf8.byte
    requires k <= 256
  {
    if k == 0 then 0
    else
      var cp := pageNo * 256 + (k - 1);
      match Slot(cfg, cp)
      case Some(s) =>
        if Covers(cfg, cp, s, y, x) then s.pixel(x - AtlasX(cfg, cp, s), y - AtlasY(cfg, cp, s))
        else Texel(cfg, pageNo, k - 1, y, x)
      case None => Texel(cfg, pageNo, k - 1, y, x)
  }

  /** The unchecked atlas write of code point `i` of the page stays inside
      the `tex_width` x `tex_height` buffer. */
  predicate GlyphFits(cfg: FontCfg, pageNo: nat, i: nat)
  {
    var cp := pageNo * 256 + i;
    Slot(cfg, cp).Some? ==>
      var s := Slot(cfg, cp).value;
      && 0 <= AtlasY(cfg, cp, s) && AtlasY(cfg, cp, s) + s.rows <= cfg.texHeight
      && 0 <= AtlasX(cfg, cp, s) && AtlasX(cfg, cp, s) + s.width <= cfg.texWidth
  }

  /** Every loaded glyph of the page, placed in its cell, lies inside the
      texture, so every write of `load_page` lands at its own row and
      column. */
  predicate PageFits(cfg: FontCfg, pageNo: nat)
  {
    && 0 <= cfg.texWidth && 0 <= cfg.texHeight
    && forall i | 0 <= i < 256 :: GlyphFits(cfg, pageNo, i)
  }

  /** The page `load_page(page_no)` builds. */
  function BuildPage(cfg: FontCfg, pageNo: nat): (p: Page)
    requires PageFits(cfg, pageNo)
    ensures |p.charInfo| == 256 && |p.texels| == cfg.texHeight
    ensures forall i | 0 <= i < 256 :: p.charInfo[i] == CharInfoFor(cfg, pageNo * 256 + i)
    ensures forall y | 0 <= y < cfg.texHeight :: |p.texels[y]| == cfg.texWidth
    ensures forall y, x | 0 <= y < cfg.texHeight && 0 <= x < cfg.texWidth ::
      p.texels[y][x] == Texel(cfg, pageNo, 256, y, x)
  {
    Page(seq(cfg.texHeight, y requires 0 <= y < cfg.texHeight =>
           seq(cfg.texWidth, x requires 0 <= x < cfg.texWidth => Texel(cfg, pageNo, 256, y, x))),
         seq(256, i requires 0 <= i < 256 => CharInfoFor(cfg, pageNo * 256 + i)))
  }

  // ---------------------------------------------------------------------
  // The 2-px padding argument: glyphs inside their cells never overlap.

  /** The bitmap lies within its grid cell: its `Char_info` origin and
      size fit in `cell_bbox`. */
  predicate GlyphInCell(cfg: FontCfg, pageNo: nat, i: nat)
  {
    var cp := pageNo * 256 + i;
    Slot(cfg, cp).Some? ==>
      var s := Slot(cfg, cp).value;
      && 0 <= s.bitmapLeft - cfg.cellBbox.ul.x && s.bitmapLeft - cfg.cellBbox.ul.x + s.width <= cfg.cellBbox.Width()
      && 0 <= cfg.cellBbox.ul.y - s.bitmapTop && cfg.cellBbox.ul.y - s.bitmapTop + s.rows <= cfg.cellBbox.Height()
  }

  /** Every glyph of the page fits its cell, and the texture is the 16x16
      grid of cells `resize` sizes it to. */
  predicate PageInCells(cfg: FontCfg, pageNo: nat)
  {
    && 0 <= cfg.cellBbox.Width() && 0 <= cfg.cellBbox.Height()
    && cfg.texWidth == 16 * cfg.cellBbox.Width() && cfg.texHeight == 16 * cfg.cellBbox.Height()
    && forall i | 0 <= i < 256 :: GlyphInCell(cfg, pageNo, i)
  }

  lemma MulGap(a: nat, b: nat, h: nat)
    requires a < b
    ensures a * h + h <= b * h
  {
    var d := b - a;
    assert b * h == a * h + d * h;
    assert d * h >= h by {
      assert d * h == (d - 1) * h + h;
    }
  }

  lemma PageGrid(pageNo: nat, i: nat)
    requires i < 256
    ensures TexRow(pageNo * 256 + i) == i / 16 && TexCol(pageNo * 256 + i) == i % 16
  {
    var cp := pageNo * 256 + i;
    assert cp / 16 == pageNo * 16 + i / 16;
    assert cp % 16 == i % 16;
  }

  /** A glyph inside its cell is copied inside the texture. */
  lemma {:induction false} InCellsFit(cfg: FontCfg, pageNo: nat)
    requires PageInCells(cfg, pageNo)
    ensures PageFits(cfg, pageNo)
  {
    var w, h := cfg.cellBbox.Width(), cfg.cellBbox.Height();
    forall i | 0 <= i < 256 ensures GlyphFits(cfg, pageNo, i) {
      assert GlyphInCell(cfg, pageNo, i);
      var cp := pageNo * 256 + i;
      if Slot(cfg, cp).Some? {
        MulGap(TexRow(cp), 16, h);
        MulGap(TexCol(cp), 16, w);
      }
    }
  }

  /** A covered texel of a glyph inside its cell lies in that cell. */
  lemma CoveredInCell(cfg: FontCfg, pageNo: nat, i: nat, y: int, x: int)
    requires PageInCells(cfg, pageNo) && i < 256
    requires Slot(cfg, pageNo * 256 + i).Some?
    requires Covers(cfg, pageNo * 256 + i, Slot(cfg, pageNo * 256 + i).value, y, x)
    ensures (i / 16) * cfg.cellBbox.Height() <= y < (i / 16) * cfg.cellBbox.Height() + cfg.cellBbox.Height()
    ensures (i % 16) * cfg.cellBbox.Width() <= x < (i % 16) * cfg.cellBbox.Width() + cfg.cellBbox.Width()
  {
    assert GlyphInCell(cfg, pageNo, i);
    PageGrid(pageNo, i);
  }

  /** Distinct code points of a page cover disjoint texels. */
  lemma CellsDisjoint(cfg: FontCfg, pageNo: nat, i: nat, j: nat, y: int, x: int)
    requires PageInCells(cfg, pageNo) && i < 256 && j < 256 && i != j
    requires Slot(cfg, pageNo * 256 + i).Some? && Slot(cfg, pageNo * 256 + j).Some?
    requires Covers(cfg, pageNo * 256 + i, Slot(cfg, pageNo * 256 + i).value, y, x)
    ensures !Covers(cfg, pageNo * 256 + j, Slot(cfg, pageNo * 256 + j).value, y, x)
  {
    var w, h := cfg.cellBbox.Width(), cfg.cellBbox.Height();
    CoveredInCell(cfg, pageNo, i, y, x);
    if Covers(cfg, pageNo * 256 + j, Slot(cfg, pageNo * 256 + j).value, y, x) {
      CoveredInCell(cfg, pageNo, j, y, x);
      if i / 16 < j / 16 {
        MulGap(i / 16, j / 16, h);
      } else if j / 16 < i / 16 {
        MulGap(j / 16, i / 16, h);
      } else if i % 16 < j % 16 {
        MulGap(i % 16, j % 16, w);
      } else {
        assert j % 16 < i % 16;
        MulGap(j % 16, i % 16, w);
      }
    }
  }

  /** Texels no later glyph covers keep the value they had. */
  lemma {:induction false} TexelSettled(cfg: FontCfg, pageNo: nat, i: nat, k: nat, y: int, x: int)
    requires PageInCells(cfg, pageNo) && i < k <= 256
    requires Slot(cfg, pageNo * 256 + i).Some?
    requires Covers(cfg, pageNo * 256 + i, Slot(cfg, pageNo * 256 + i).value, y, x)
    ensures Texel(cfg, pageNo, k, y, x) == Texel(cfg, pageNo, i + 1, y, x)
    decreases k
  {
    if k > i + 1 {
      if Slot(cfg, pageNo * 256 + (k - 1)).Some? {
        CellsDisjoint(cfg, pageNo, i, k - 1, y, x);
      }
      TexelSettled(cfg, pageNo, i, k - 1, y, x);
    }
  }

  /** When every glyph of the page is inside its cell, every pixel of every
      loaded bitmap is found in the finished atlas at its place: the
      padding guarantees that no other glyph overwrites it. */
  lemma GlyphLandsInAtlas(cfg: FontCfg, pageNo: nat, i: nat, px: nat, py: nat)
    requires PageInCells(cfg, pageNo) && i < 256
    requires Slot(cfg, pageNo * 256 + i).Some?
    requires px < Slot(cfg, pageNo * 256 + i).value.width && py < Slot(cfg, pageNo * 256 + i).value.rows
    ensures var cp := pageNo * 256 + i;
            var s := Slot(cfg, cp).value;
            Texel(cfg, pageNo, 256, AtlasY(cfg, cp, s) + py, AtlasX(cfg, cp, s) + px) == s.pixel(px, py)
  {
    var cp := pageNo * 256 + i;
    var s := Slot(cfg, cp).value;
    TexelSettled(cfg, pageNo, i, 256, AtlasY(cfg, cp, s) + py, AtlasX(cfg, cp, s) + px);
  }

  /** Code point `i` of the page does not write texel (Y, X). */
  predicate Misses(cfg: FontCfg, pageNo: nat, i: nat, y: int, x: int)
  {
    var cp := pageNo * 256 + i;
    Slot(cfg, cp).Some? ==> !Covers(cfg, cp, Slot(cfg, cp).value, y, x)
  }

  /** Texels outside every loaded bitmap stay zero. */
  lemma {:induction false} UncoveredIsZero(cfg: FontCfg, pageNo: nat, k: nat, y: int, x: int)
    requires k <= 256
    requires forall i | 0 <= i < k :: Misses(cfg, pageNo, i, y, x)
    ensures Texel(cfg, pageNo, k, y, x) == 0
    decreases k
  {
    if k > 0 {
      assert Misses(cfg, pageNo, k - 1, y, x);
      UncoveredIsZero(cfg, pageNo, k - 1, y, x);
    }
  }
}
