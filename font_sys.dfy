/** `Font_sys::Impl` (src/font.cpp): a FreeType face at one pixel size,
    the atlas geometry `resize` derives from it, and the cache of pages
    `build_text` fills on demand with `load_page`. */
module FontSystem {
  import opened Types
  import Utf8
  import opened FontImpl
  import opened Atlas
  import opened Layout

  /** Every page that the text's glyphs need can be rasterised without
      writing outside the texture. */
  predicate TextFits(cfg: FontCfg, cps: seq<nat>)
  {
    forall k | 0 <= k < |cps| :: cps[k] != Newline ==> PageFits(cfg, PageOf(cps[k]))
  }

  /** The part of the grid cell of `cp` that the copy loops have written
      once `r` whole bitmap rows and `c` pixels of row `r` are done. */
  predicate CopiedSoFar(cfg: FontCfg, cp: nat, s: GlyphSlot, r: int, c: int, y: int, x: int)
  {
    && Covers(cfg, cp, s, y, x)
    && (y - AtlasY(cfg, cp, s) < r || (y - AtlasY(cfg, cp, s) == r && x - AtlasX(cfg, cp, s) < c))
  }

  /** The nested loops of `load_page` that copy one rendered bitmap into
      its grid cell of `tex_data`: pixel (x, y) of the bitmap lands at
      texel (`tbl_img_y`, `tbl_img_x`), and nothing else is written. */
  method CopyGlyph(tex: array2<Utf8.byte>, cfg: FontCfg, pageNo: nat, i: nat, s: GlyphSlot)
    requires i < 256 && Slot(cfg, pageNo * 256 + i) == Some(s)
    requires GlyphFits(cfg, pageNo, i)
    requires tex.Length0 == cfg.texHeight && tex.Length1 == cfg.texWidth
    modifies tex
    ensures forall y, x | 0 <= y < tex.Length0 && 0 <= x < tex.Length1 ::
      tex[y, x] == if Covers(cfg, pageNo * 256 + i, s, y, x)
                   then s.pixel(x - AtlasX(cfg, pageNo * 256 + i, s), y - AtlasY(cfg, pageNo * 256 + i, s))
                   else old(tex[y, x])
  {
    var cp := pageNo * 256 + i;
    var tblRow, tblCol := (cp / 16) % 16, cp % 16;
    var y := 0;
    while y < s.rows
      invariant 0 <= y <= s.rows
      invariant forall yy, xx | 0 <= yy < tex.Length0 && 0 <= xx < tex.Length1 ::
        tex[yy, xx] == if CopiedSoFar(cfg, cp, s, y, 0, yy, xx)
                       then s.pixel(xx - AtlasX(cfg, cp, s), yy - AtlasY(cfg, cp, s))
                       else old(tex[yy, xx])
    {
      var x := 0;
      while x < s.width
        invariant 0 <= x <= s.width
        invariant forall yy, xx | 0 <= yy < tex.Length0 && 0 <= xx < tex.Length1 ::
          tex[yy, xx] == if CopiedSoFar(cfg, cp, s, y, x, yy, xx)
                         then s.pixel(xx - AtlasX(cfg, cp, s), yy - AtlasY(cfg, cp, s))
                         else old(tex[yy, xx])
      {
        var tblImgY := tblRow * cfg.cellBbox.Height() + cfg.cellBbox.ul.y - s.bitmapTop + y;
        var tblImgX := tblCol * cfg.cellBbox.Width() - cfg.cellBbox.ul.x + s.bitmapLeft + x;
        tex[tblImgY, tblImgX] := s.pixel(x, y);
        x := x + 1;
      }
      y := y + 1;
    }
  }

  /** The contents of `char_info` and `tex_data` once `load_page` has
      visited the first `i` code points of page `pageNo`. */
  ghost predicate VisitedFirst(cfg: FontCfg, pageNo: nat, i: nat, texData: array2<Utf8.byte>, charInfo: array<CharInfo>)
    requires i <= 256
    reads texData, charInfo
  {
    && charInfo.Length == 256
    && (forall j | 0 <= j < 256 ::
          charInfo[j] == if j < i then CharInfoFor(cfg, pageNo * 256 + j) else ZeroCharInfo)
    && (forall y, x | 0 <= y < texData.Length0 && 0 <= x < texData.Length1 ::
          texData[y, x] == Texel(cfg, pageNo, i, y, x))
  }

  /** One iteration of the loop of `load_page`, for `codePt`: when its
      glyph loads, record its `Char_info` and copy its bitmap into its cell;
      when it does not, leave both untouched. */
  method LoadGlyph(cfg: FontCfg, pageNo: nat, codePt: nat, texData: array2<Utf8.byte>, charInfo: array<CharInfo>)
    requires PageFits(cfg, pageNo) && pageNo * 256 <= codePt < (pageNo + 1) * 256
    requires texData.Length0 == cfg.texHeight && texData.Length1 == cfg.texWidth
    requires VisitedFirst(cfg, pageNo, codePt - pageNo * 256, texData, charInfo)
    modifies texData, charInfo
    ensures VisitedFirst(cfg, pageNo, codePt - pageNo * 256 + 1, texData, charInfo)
  {
    var i := codePt % 256;
    assert i == codePt - pageNo * 256;
    var glyphI := cfg.face.charIndex(codePt);
    match cfg.face.loadGlyph(cfg.pixelSize, glyphI) {
      case None =>
      case Some(slot) =>
        charInfo[i] := CharInfo(Vec2(-cfg.cellBbox.ul.x + slot.bitmapLeft, cfg.cellBbox.ul.y - slot.bitmapTop),
                                slot.advance,
                                IBox(Vec2(slot.bitmapLeft, slot.bitmapTop),
                                     Vec2(slot.width + slot.bitmapLeft, slot.bitmapTop - slot.rows)),
                                glyphI);
        assert GlyphFits(cfg, pageNo, i);
        CopyGlyph(texData, cfg, pageNo, i, slot);
    }
  }

  /** `load_page` up to the texture upload: a zeroed `tex_data` and
      default `char_info`, then every code point of the page in order. */
  method RasterisePage(cfg: FontCfg, pageNo: nat) returns (texData: array2<Utf8.byte>, charInfo: array<CharInfo>)
    requires PageFits(cfg, pageNo)
    ensures fresh(texData) && fresh(charInfo)
    ensures texData.Length0 == cfg.texHeight && texData.Length1 == cfg.texWidth
    ensures VisitedFirst(cfg, pageNo, 256, texData, charInfo)
  {
    texData := new Utf8.byte[cfg.texHeight, cfg.texWidth]((_, _) => 0);
    charInfo := new CharInfo[256](_ => ZeroCharInfo);
    var codePt := pageNo * 256;
    while codePt < (pageNo + 1) * 256
      invariant pageNo * 256 <= codePt <= (pageNo + 1) * 256
      invariant VisitedFirst(cfg, pageNo, codePt - pageNo * 256, texData, charInfo)
    {
      LoadGlyph(cfg, pageNo, codePt, texData, charInfo);
      codePt := codePt + 1;
    }
  }

  /** The greyscale texels of `tex_data`, row by row. */
  function Texels(tex: array2<Utf8.byte>): (t: seq<seq<Utf8.byte>>)
    reads tex
    ensures |t| == tex.Length0
    ensures forall y | 0 <= y < tex.Length0 :: |t[y]| == tex.Length1
    ensures forall y, x | 0 <= y < tex.Length0 && 0 <= x < tex.Length1 :: t[y][x] == tex[y, x]
  {
    seq(tex.Length0, y requires 0 <= y < tex.Length0 reads tex =>
      seq(tex.Length1, x requires 0 <= x < tex.Length1 reads tex => tex[y, x]))
  }

  lemma TexelsAreBuilt(tex: array2<Utf8.byte>, cfg: FontCfg, pageNo: nat)
    requires PageFits(cfg, pageNo)
    requires tex.Length0 == cfg.texHeight && tex.Length1 == cfg.texWidth
    requires forall y, x | 0 <= y < tex.Length0 && 0 <= x < tex.Length1 :: tex[y, x] == Texel(cfg, pageNo, 256, y, x)
    ensures Texels(tex) == BuildPage(cfg, pageNo).texels
  {
    var t, b := Texels(tex), BuildPage(cfg, pageNo).texels;
    forall y | 0 <= y < tex.Length0 ensures t[y] == b[y] {
    }
  }

  /** Visiting one more page appends its list and its range. */
  lemma {:induction false} AppendPage(verts: map<nat, seq<Vec2<int>>>, order: seq<nat>, p: nat)
    requires forall k | 0 <= k < |order| :: order[k] in verts
    requires p in verts
    ensures forall k | 0 <= k < |order + [p]| :: (order + [p])[k] in verts
    ensures Concat(verts, order + [p]) == Concat(verts, order) + verts[p]
    ensures var n := |Concat(verts, order)|;
      Ranges(verts, order + [p]) == Ranges(verts, order) + [CoordData(p, n / 2, (n + |verts[p]|) / 2 - n / 2)]
  {
    var o := order + [p];
    assert o[..|o| - 1] == order && o[|o| - 1] == p;
    assert forall k | 0 <= k < |o| :: o[k] in verts;
    assert Concat(verts, o) == Concat(verts, order) + verts[p];
    var n := |Concat(verts, order)|;
    assert Ranges(verts, o)
        == Ranges(verts, o[..|o| - 1])
           + [CoordData(o[|o| - 1], |Concat(verts, o[..|o| - 1])| / 2,
                        (|Concat(verts, o[..|o| - 1])| + |verts[o[|o| - 1]]|) / 2 - |Concat(verts, o[..|o| - 1])| / 2)];
  }

  lemma OrderGrows(order: seq<nat>, keys: set<nat>, p: nat)
    requires IsOrderOf(order, keys) && p !in keys
    ensures IsOrderOf(order + [p], keys + {p})
  {
    var o := order + [p];
    forall q | q in keys + {p} ensures q in o {
      if q != p {
        var k :| 0 <= k < |order| && order[k] == q;
        assert o[k] == q;
      } else {
        assert o[|order|] == p;
      }
    }
  }

  lemma PagesOfAppend(cd: seq<CoordData>, c: CoordData)
    ensures PagesOf(cd + [c]) == PagesOf(cd) + [c.pageNo]
  {
  }

  /** What `build_text`'s last loop has built once it has visited the
      pages of `order` and has `remaining` left to visit. */
  ghost predicate FlattenedSoFar(verts: map<nat, seq<Vec2<int>>>, remaining: set<nat>, order: seq<nat>,
                                 coords: seq<Vec2<int>>, coordData: seq<CoordData>)
  {
    && PagesOf(coordData) == order
    && remaining <= verts.Keys
    && IsOrderOf(order, verts.Keys - remaining)
    && coords == Concat(verts, order)
    && coordData == Ranges(verts, order)
  }

  /** Visiting page `p` appends its list and its range and keeps the
      loop's invariant. */
  lemma FlattenStep(verts: map<nat, seq<Vec2<int>>>, remaining: set<nat>, order: seq<nat>,
                    coords: seq<Vec2<int>>, coordData: seq<CoordData>, p: nat)
    requires FlattenedSoFar(verts, remaining, order, coords, coordData) && p in remaining
    ensures var start := |coords| / 2;
      FlattenedSoFar(verts, remaining - {p}, order + [p], coords + verts[p],
                     coordData + [CoordData(p, start, (|coords| + |verts[p]|) / 2 - start)])
  {
    OrderStep(verts.Keys, remaining, order, p);
    ListsStep(verts, order, coords, coordData, p);
  }

  lemma OrderStep(keys: set<nat>, remaining: set<nat>, order: seq<nat>, p: nat)
    requires remaining <= keys && IsOrderOf(order, keys - remaining) && p in remaining
    ensures remaining - {p} <= keys && IsOrderOf(order + [p], keys - (remaining - {p}))
    ensures forall k | 0 <= k < |order + [p]| :: (order + [p])[k] in keys
  {
    assert keys - (remaining - {p}) == (keys - remaining) + {p};
    OrderGrows(order, keys - remaining, p);
  }

  lemma ListsStep(verts: map<nat, seq<Vec2<int>>>, order: seq<nat>,
                  coords: seq<Vec2<int>>, coordData: seq<CoordData>, p: nat)
    requires forall k | 0 <= k < |order| :: order[k] in verts
    requires p in verts
    requires PagesOf(coordData) == order && coords == Concat(verts, order) && coordData == Ranges(verts, order)
    ensures var start := |coords| / 2;
      var c := CoordData(p, start, (|coords| + |verts[p]|) / 2 - start);
      && PagesOf(coordData + [c]) == order + [p]
      && coords + verts[p] == Concat(verts, order + [p])
      && coordData + [c] == Ranges(verts, order + [p])
  {
    var start := |coords| / 2;
    AppendPage(verts, order, p);
    PagesOfAppend(coordData, CoordData(p, start, (|coords| + |verts[p]|) / 2 - start));
  }

  /** The last loop of `build_text`: the page lists appended one after
      the other, in the iteration order of the map, each with the range
      of vertices (pairs of `Vec2`) it occupies. */
  method Flatten(verts: map<nat, seq<Vec2<int>>>) returns (coords: seq<Vec2<int>>, coordData: seq<CoordData>)
    ensures IsOrderOf(PagesOf(coordData), verts.Keys)
    ensures coords == Concat(verts, PagesOf(coordData))
    ensures coordData == Ranges(verts, PagesOf(coordData))
  {
    coords, coordData := [], [];
    var remaining := verts.Keys;
    ghost var order: seq<nat> := [];
    while remaining != {}
      invariant FlattenedSoFar(verts, remaining, order, coords, coordData)
      decreases |remaining|
    {
      var p :| p in remaining;
      FlattenStep(verts, remaining, order, coords, coordData, p);
      var start := |coords| / 2;
      coords := coords + verts[p];
      coordData := coordData + [CoordData(p, start, |coords| / 2 - start)];
      order := order + [p];
      remaining := remaining - {p};
    }
    assert verts.Keys - remaining == verts.Keys;
  }

  lemma PagesUsedGrows(placed: seq<Placed>, pl: Placed)
    ensures PagesUsed(placed + [pl]) == PagesUsed(placed) + {PageOf(pl.cp)}
  {
    var after := placed + [pl];
    forall p | p in PagesUsed(after) ensures p in PagesUsed(placed) + {PageOf(pl.cp)} {
      var k :| 0 <= k < |after| && PageOf(after[k].cp) == p;
      if k < |placed| {
        assert PageOf(placed[k].cp) == p;
      }
    }
    forall p | p in PagesUsed(placed) ensures p in PagesUsed(after) {
      var k :| 0 <= k < |placed| && PageOf(placed[k].cp) == p;
      assert after[k] == placed[k];
    }
    assert after[|placed|] == pl;
  }

  /** The kerning step of `build_text`: `FT_Get_Kerning` between the
      previous and the current glyph, `{0, 0}` when it fails. */
  method KernPen(cfg: FontCfg, pen: Vec2<int>, prevGlyphI: nat, c: CharInfo) returns (r: Vec2<int>)
    ensures r == Kerned(cfg, pen, prevGlyphI, c)
  {
    r := pen;
    if cfg.hasKerningInfo && prevGlyphI != 0 && c.glyphI != 0 {
      var kerning := Vec2(0, 0);
      match cfg.face.kerning(cfg.pixelSize, prevGlyphI, c.glyphI) {
        case Some(k) => kerning := k;
        case None =>
      }
      r := Vec2(pen.x + Div64(kerning.x), pen.y - Div64(kerning.y));
    }
  }

  /** The twelve `emplace_back`s of `build_text` for the glyph `c` of
      `codePt` at `pen`. */
  method PushQuad(cfg: FontCfg, list: seq<Vec2<int>>, codePt: nat, pen: Vec2<int>, c: CharInfo)
    returns (r: seq<Vec2<int>>)
    ensures r == list + QuadVerts(cfg, Placed(codePt, pen, c))
  {
    var texRow, texCol := (codePt / 16) % 16, codePt % 16;
    var cell := cfg.cellBbox;
    var texOrigin := Vec2(texCol * cell.Width() - cell.ul.x, texRow * cell.Height() + cell.ul.y);
    r := list + [Vec2(pen.x + c.bbox.ul.x, pen.y - c.bbox.lr.y),
                 Vec2(texOrigin.x + c.bbox.ul.x, texOrigin.y - c.bbox.lr.y)];
    r := r + [Vec2(pen.x + c.bbox.lr.x, pen.y - c.bbox.lr.y),
              Vec2(texOrigin.x + c.bbox.lr.x, texOrigin.y - c.bbox.lr.y)];
    r := r + [Vec2(pen.x + c.bbox.ul.x, pen.y - c.bbox.ul.y),
              Vec2(texOrigin.x + c.bbox.ul.x, texOrigin.y - c.bbox.ul.y)];
    r := r + [Vec2(pen.x + c.bbox.ul.x, pen.y - c.bbox.ul.y),
              Vec2(texOrigin.x + c.bbox.ul.x, texOrigin.y - c.bbox.ul.y)];
    r := r + [Vec2(pen.x + c.bbox.lr.x, pen.y - c.bbox.lr.y),
              Vec2(texOrigin.x + c.bbox.lr.x, texOrigin.y - c.bbox.lr.y)];
    r := r + [Vec2(pen.x + c.bbox.lr.x, pen.y - c.bbox.ul.y),
              Vec2(texOrigin.x + c.bbox.lr.x, texOrigin.y - c.bbox.ul.y)];
  }

  /** What `build_text`'s main loop holds after the code points `cps`:
      the pen, the previous glyph, the page lists and the box all follow
      the walk. */
  ghost predicate LaidOutSoFar(cfg: FontCfg, cps: seq<nat>, pen: Vec2<int>, prevGlyphI: nat, placed: seq<Placed>,
                               verts: map<nat, seq<Vec2<int>>>, box: FBox)
  {
    && WalkOf(cfg, cps) == Walk(pen, prevGlyphI, placed)
    && verts == VertsByPage(cfg, placed)
    && box == BoxOver(AsWrittenInitialBox, placed)
  }

  /** A newline keeps the loop's invariant. */
  lemma NewlineStep(cfg: FontCfg, cps: seq<nat>, pen: Vec2<int>, prevGlyphI: nat, placed: seq<Placed>,
                    verts: map<nat, seq<Vec2<int>>>, box: FBox)
    requires LaidOutSoFar(cfg, cps, pen, prevGlyphI, placed, verts, box)
    ensures LaidOutSoFar(cfg, cps + [Newline], Vec2(0, pen.y + cfg.lineHeight), 0, placed, verts, box)
  {
    assert (cps + [Newline])[..|cps|] == cps;
  }

  /** Drawing the glyph of `cp` at the kerned pen keeps the loop's
      invariant: the glyph joins the walk, its quad its page's list, and
      the box grows to take it in. */
  lemma GlyphStep(cfg: FontCfg, cps: seq<nat>, cp: nat, pen: Vec2<int>, prevGlyphI: nat, placed: seq<Placed>,
                  verts: map<nat, seq<Vec2<int>>>, box: FBox,
                  pl: Placed, pen': Vec2<int>, verts': map<nat, seq<Vec2<int>>>, box': FBox)
    requires LaidOutSoFar(cfg, cps, pen, prevGlyphI, placed, verts, box) && cp != Newline
    requires pl == Placed(cp, Kerned(cfg, pen, prevGlyphI, CharInfoFor(cfg, cp)), CharInfoFor(cfg, cp))
    requires pen' == Advanced(pl.pen, pl.info)
    requires var q := PageOf(cp);
      verts' == verts[q := (if q in verts then verts[q] else []) + QuadVerts(cfg, pl)]
    requires box' == Expand(box, pl)
    ensures LaidOutSoFar(cfg, cps + [cp], pen', pl.info.glyphI, placed + [pl], verts', box')
  {
    assert (cps + [cp])[..|cps|] == cps;
    assert (placed + [pl])[..|placed|] == placed;
    GlyphAppendsQuad(cfg, placed, pl);
  }

  /** One glyph of `build_text`'s loop, once its `Char_info` is known:
      kern, push its quad onto its page's list, grow the box, advance. */
  method DrawGlyph(cfg: FontCfg, codePt: nat, c: CharInfo, pen: Vec2<int>, prevGlyphI: nat,
                   verts: map<nat, seq<Vec2<int>>>, box: FBox)
    returns (pen': Vec2<int>, verts': map<nat, seq<Vec2<int>>>, box': FBox)
    ensures var pl := Placed(codePt, Kerned(cfg, pen, prevGlyphI, c), c);
      var q := PageOf(codePt);
      && pen' == Advanced(pl.pen, c)
      && verts' == verts[q := (if q in verts then verts[q] else []) + QuadVerts(cfg, pl)]
      && box' == Expand(box, pl)
  {
    var pageNo := codePt / 256;
    var at := KernPen(cfg, pen, prevGlyphI, c);
    var list := if pageNo in verts then verts[pageNo] else [];
    list := PushQuad(cfg, list, codePt, at, c);
    verts' := verts[pageNo := list];
    box' := FBox(Vec2(Min(box.ul.x, (at.x + c.bbox.ul.x) as real), Min(box.ul.y, (at.y - c.bbox.ul.y) as real)),
                 Vec2(Max(box.lr.x, (at.x + c.bbox.lr.x) as real), Max(box.lr.y, (at.y - c.bbox.lr.y) as real)));
    pen' := Vec2(at.x + Div64(c.advance.x), at.y - Div64(c.advance.y));
  }

  class FontSys {
    /** `_face`, with its Unicode charmap selected. */
    const face: Face
    /** The pixel size last set on the face. */
    var pixelSize: nat
    var hasKerningInfo: bool
    var cellBbox: IBox
    var lineHeight: int
    var texWidth: int
    var texHeight: int
    /** `_page_map`: the pages built so far, by page number. */
    var pageMap: map<nat, Page>

    /** What laying out and rasterising depend on. */
    function Cfg(): FontCfg
      reads this
    {
      FontCfg(face, pixelSize, hasKerningInfo, cellBbox, lineHeight, texWidth, texHeight)
    }

    /** Every cached page is the page `load_page` builds at the current
      size. */
    ghost predicate Valid()
      reads this
    {
      forall p | p in pageMap :: PageFits(Cfg(), p) && pageMap[p] == BuildPage(Cfg(), p)
    }

    /** A face before its first `resize`: no cell, no pages. Only `Open`
      uses it, and sizes the face at once. */
    constructor Init(face: Face)
      ensures this.face == face && pageMap == map[] && Valid()
    {
      this.face := face;
      pixelSize := 0;
      hasKerningInfo := false;
      cellBbox := IBox(Vec2(0, 0), Vec2(0, 0));
      lineHeight := 0;
      texWidth := 0;
      texHeight := 0;
      pageMap := map[];
    }

    /** `resize`: on a FreeType error nothing changes (the source throws
      first); otherwise the cell box is the scaled face box widened by
      2 px, the texture is the 16x16 grid of cells, and every page is
      dropped. */
    method Resize(fontSize: nat) returns (ok: bool)
      modifies this
      ensures ok <==> face.setPixelSizes(fontSize).Some?
      ensures !ok ==> unchanged(this)
      ensures ok ==>
        var m := face.setPixelSizes(fontSize).value;
        && pixelSize == fontSize
        && cellBbox == CellBox(m)
        && lineHeight == Div64(m.height)
        && texWidth == 16 * cellBbox.Width() && texHeight == 16 * cellBbox.Height()
        && hasKerningInfo == face.hasKerning
        && pageMap == map[]
      ensures Valid() == (ok || old(Valid()))
    {
      match face.setPixelSizes(fontSize)
      case None =>
        ok := false;
      case Some(m) =>
        pixelSize := fontSize;
        cellBbox := IBox(Vec2(Div64(m.xMin) - 2, Div64(m.yMax) + 2), Vec2(Div64(m.xMax) + 2, Div64(m.yMin) - 2));
        lineHeight := Div64(m.height);
        texWidth := cellBbox.Width() * 16;
        texHeight := cellBbox.Height() * 16;
        hasKerningInfo := face.hasKerning;
        pageMap := map[];
        ok := true;
    }

    /** `load_page`: builds page `pageNo` (absent from the cache, as the
      source requires) and adds it to the cache. */
    method LoadPage(pageNo: nat) returns (page: Page)
      requires Valid() && pageNo !in pageMap && PageFits(Cfg(), pageNo)
      modifies this
      ensures Cfg() == old(Cfg())
      ensures page == BuildPage(Cfg(), pageNo)
      ensures pageMap == old(pageMap)[pageNo := page]
      ensures Valid()
    {
      var texData, charInfo := RasterisePage(Cfg(), pageNo);
      page := Page(Texels(texData), charInfo[..]);
      assert page.charInfo == BuildPage(Cfg(), pageNo).charInfo;
      TexelsAreBuilt(texData, Cfg(), pageNo);
      pageMap := pageMap[pageNo := page];
    }

    /** The `Char_info` `build_text` reads for a code point: its page is
      loaded first when it is not cached. */
    method GlyphInfo(codePt: nat) returns (c: CharInfo)
      requires Valid() && PageFits(Cfg(), PageOf(codePt))
      modifies this
      ensures Cfg() == old(Cfg()) && Valid()
      ensures c == CharInfoFor(Cfg(), codePt)
      ensures pageMap.Keys == old(pageMap).Keys + {PageOf(codePt)}
    {
      var pageNo := codePt / 256;
      if pageNo !in pageMap {
        var _ := LoadPage(pageNo);
      }
      c := pageMap[pageNo].charInfo[codePt % 256];
      assert codePt == pageNo * 256 + codePt % 256;
    }

    /** One iteration of `build_text`'s main loop: a newline moves the
      pen to the next line; any other code point has its page loaded if
      needed and its glyph drawn. */
    method LayOutCodePoint(ghost cps: seq<nat>, codePt: nat, pen: Vec2<int>, prevGlyphI: nat, ghost placed: seq<Placed>,
                           verts: map<nat, seq<Vec2<int>>>, box: FBox)
      returns (pen': Vec2<int>, prevGlyphI': nat, ghost placed': seq<Placed>,
               verts': map<nat, seq<Vec2<int>>>, box': FBox)
      requires Valid() && LaidOutSoFar(Cfg(), cps, pen, prevGlyphI, placed, verts, box)
      requires codePt != Newline ==> PageFits(Cfg(), PageOf(codePt))
      modifies this
      ensures Cfg() == old(Cfg()) && Valid()
      ensures LaidOutSoFar(Cfg(), cps + [codePt], pen', prevGlyphI', placed', verts', box')
      ensures var added := if codePt == Newline then {} else {PageOf(codePt)};
        && pageMap.Keys == old(pageMap).Keys + added
        && PagesUsed(placed') == PagesUsed(placed) + added
    {
      ghost var cfg := Cfg();
      if codePt == Newline {
        NewlineStep(cfg, cps, pen, prevGlyphI, placed, verts, box);
        pen', prevGlyphI', placed', verts', box' := Vec2(0, pen.y + lineHeight), 0, placed, verts, box;
      } else {
        var c := GlyphInfo(codePt);
        ghost var pl := Placed(codePt, Kerned(cfg, pen, prevGlyphI, c), c);
        pen', verts', box' := DrawGlyph(Cfg(), codePt, c, pen, prevGlyphI, verts, box);
        prevGlyphI' := c.glyphI;
        GlyphStep(cfg, cps, codePt, pen, prevGlyphI, placed, verts, box, pl, pen', verts', box');
        PagesUsedGrows(placed, pl);
        placed' := placed + [pl];
      }
    }

    /** The loop of `build_text` over the code points: the page lists and
      the box are those of the walk over `codePts`, from the sentinels as
      written, and the cache gains exactly the pages of the glyphs. */
    method LayOutText(codePts: seq<nat>) returns (verts: map<nat, seq<Vec2<int>>>, box: FBox, ghost placed: seq<Placed>)
      requires Valid() && TextFits(Cfg(), codePts)
      modifies this
      ensures Cfg() == old(Cfg()) && Valid()
      ensures placed == WalkOf(Cfg(), codePts).placed
      ensures verts == VertsByPage(Cfg(), placed) && box == BoxOver(AsWrittenInitialBox, placed)
      ensures pageMap.Keys == old(pageMap).Keys + PagesUsed(placed)
    {
      ghost var cfg := Cfg();
      var pen := Vec2(0, 0);
      verts := map[];
      box := FBox(Vec2(FltMax, FltMax), Vec2(FltMin, FltMin));
      var prevGlyphI: nat := 0;
      placed := [];
      var i := 0;
      while i < |codePts|
        invariant 0 <= i <= |codePts|
        invariant Cfg() == cfg && Valid()
        invariant LaidOutSoFar(cfg, codePts[..i], pen, prevGlyphI, placed, verts, box)
        invariant pageMap.Keys == old(pageMap).Keys + PagesUsed(placed)
      {
        assert codePts[..i + 1] == codePts[..i] + [codePts[i]];
        assert codePts[i] != Newline ==> PageFits(cfg, PageOf(codePts[i]));
        pen, prevGlyphI, placed, verts, box :=
          LayOutCodePoint(codePts[..i], codePts[i], pen, prevGlyphI, placed, verts, box);
        i := i + 1;
      }
      assert codePts[..i] == codePts;
    }

    /** `build_text`: lays out the decoded text, loading each page it needs
      that is not cached yet, and returns the flattened vertex buffer, its
      per-page ranges and the text's box. The page lists, the box and the
      pen follow the walk over the code points; the pages flattened are
      exactly those with glyphs, in some order. */
    method BuildText(utf8Input: seq<Utf8.byte>) returns (coords: seq<Vec2<int>>, coordData: seq<CoordData>, fontBox: FBox)
      requires Valid() && TextFits(Cfg(), Utf8.Decode(utf8Input))
      modifies this
      ensures Cfg() == old(Cfg()) && Valid()
      ensures pageMap.Keys == old(pageMap).Keys + PagesUsed(WalkOf(Cfg(), Utf8.Decode(utf8Input)).placed)
      ensures var placed := WalkOf(Cfg(), Utf8.Decode(utf8Input)).placed;
        && IsOrderOf(PagesOf(coordData), PagesUsed(placed))
        && coords == Concat(VertsByPage(Cfg(), placed), PagesOf(coordData))
        && coordData == Ranges(VertsByPage(Cfg(), placed), PagesOf(coordData))
        && fontBox == BoxOver(AsWrittenInitialBox, placed)
    {
      var codePts := Utf8.Utf8ToUtf32(utf8Input);
      var screenAndTexCoords;
      ghost var placed;
      screenAndTexCoords, fontBox, placed := LayOutText(codePts);
      coords, coordData := Flatten(screenAndTexCoords);
    }
  }

  /** `Impl(font_path, font_size)` and `Impl(font_data, size, font_size)`
      through `init`: the opened face is sized by `resize`. When FreeType
      cannot set the size, `init` rethrows and no font exists: `None`. */
  method Open(face: Face, fontSize: nat) returns (r: Option<FontSys>)
    ensures r.Some? <==> face.setPixelSizes(fontSize).Some?
    ensures r.Some? ==>
      var f := r.value;
      var m := face.setPixelSizes(fontSize).value;
      && fresh(f) && f.face == face && f.Valid()
      && f.pixelSize == fontSize && f.cellBbox == CellBox(m) && f.lineHeight == Div64(m.height)
      && f.texWidth == 16 * f.cellBbox.Width() && f.texHeight == 16 * f.cellBbox.Height()
      && f.hasKerningInfo == face.hasKerning && f.pageMap == map[]
  {
    var f := new FontSys.Init(face);
    var ok := f.Resize(fontSize);
    r := if ok then Some(f) else None;
  }
}
