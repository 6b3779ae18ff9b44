/** `Static_text` (src/static_text.cpp): a text laid out once by a font and
    kept with its draw ranges and box, so that drawing it again does not
    lay it out again.

    The OpenGL side is not modelled: the vertex array and buffer names are
    handles received from the GL, and `vboData` stands for what
    `glBufferData` last uploaded to the buffer. */
module StaticTextModule {
  import opened Types
  import Utf8
  import opened FontImpl
  import opened Layout
  import opened TextOrigin
  import opened Render
  import opened FontSystem

  /** The cache matches `build_text(text)` under the font parameters
      `cfg`: the ranges list the pages used in some order, the buffer is
      their quads flattened in that order, and the box is the text's
      box. */
  ghost predicate Built(cfg: FontCfg, text: seq<Utf8.byte>, coordData: seq<CoordData>, box: FBox,
                        buffer: seq<Vec2<int>>)
  {
    var placed := WalkOf(cfg, Utf8.Decode(text)).placed;
    && IsOrderOf(PagesOf(coordData), PagesUsed(placed))
    && buffer == Concat(VertsByPage(cfg, placed), PagesOf(coordData))
    && coordData == Ranges(VertsByPage(cfg, placed), PagesOf(coordData))
    && box == BoxOver(AsWrittenInitialBox, placed)
  }

  /** Range `k` of a flattened layout covers exactly the quads of its
      page's glyphs. */
  lemma {:induction false} DrawCoversPage(cfg: FontCfg, placed: seq<Placed>, coordData: seq<CoordData>, buffer: seq<Vec2<int>>, k: nat)
    requires IsOrderOf(PagesOf(coordData), PagesUsed(placed))
    requires buffer == Concat(VertsByPage(cfg, placed), PagesOf(coordData))
    requires coordData == Ranges(VertsByPage(cfg, placed), PagesOf(coordData))
    requires k < |coordData|
    ensures var r := coordData[k];
      && r.pageNo in PagesUsed(placed)
      && 2 * (r.start + r.numElements) <= |buffer|
      && buffer[2 * r.start .. 2 * (r.start + r.numElements)] == PageVerts(cfg, placed, r.pageNo)
  {
    var verts := VertsByPage(cfg, placed);
    var order := PagesOf(coordData);
    VertsByPageShape(cfg, placed);
    RangeAt(verts, order, k);
    assert order[k] in PagesUsed(placed);
  }

  /** A built cache draws each page used exactly once, each draw covering
      exactly the quads of that page's glyphs, and the buffer holds six
      vertices per glyph. */
  lemma {:induction false} BuiltDrawsEachPage(cfg: FontCfg, text: seq<Utf8.byte>, coordData: seq<CoordData>, box: FBox,
                           buffer: seq<Vec2<int>>)
    requires Built(cfg, text, coordData, box, buffer)
    ensures var placed := WalkOf(cfg, Utf8.Decode(text)).placed;
      && |buffer| == 12 * |placed|
      && (forall p | p in PagesUsed(placed) :: exists k | 0 <= k < |coordData| :: coordData[k].pageNo == p)
      && (forall i, j | 0 <= i < j < |coordData| :: coordData[i].pageNo != coordData[j].pageNo)
      && forall k | 0 <= k < |coordData| ::
        var r := coordData[k];
        && r.pageNo in PagesUsed(placed)
        && 2 * (r.start + r.numElements) <= |buffer|
        && buffer[2 * r.start .. 2 * (r.start + r.numElements)] == PageVerts(cfg, placed, r.pageNo)
  {
    var placed := WalkOf(cfg, Utf8.Decode(text)).placed;
    var order := PagesOf(coordData);
    VertexCount(cfg, placed, order);
    forall p | p in PagesUsed(placed) ensures exists k | 0 <= k < |coordData| :: coordData[k].pageNo == p {
      var k :| 0 <= k < |order| && order[k] == p;
      assert coordData[k].pageNo == p;
    }
    forall i, j | 0 <= i < j < |coordData| ensures coordData[i].pageNo != coordData[j].pageNo {
      assert order[i] != order[j];
    }
    forall k | 0 <= k < |coordData|
      ensures var r := coordData[k];
        && r.pageNo in PagesUsed(placed)
        && 2 * (r.start + r.numElements) <= |buffer|
        && buffer[2 * r.start .. 2 * (r.start + r.numElements)] == PageVerts(cfg, placed, r.pageNo)
    {
      DrawCoversPage(cfg, placed, coordData, buffer, k);
    }
  }

  class StaticText {
    /** `_font`: the font shared with its owner. */
    var font: FontSys
    /** `_text`, in UTF-8. */
    var text: seq<Utf8.byte>
    /** `_vao` and `_vbo`: GL object names, 0 once moved from. */
    var vao: nat
    var vbo: nat
    /** `_coord_data` and `_text_box`. */
    var coordData: seq<CoordData>
    var textBox: FBox
    /** The contents of `_vbo`. */
    var vboData: seq<Vec2<int>>

    /** The cache is up to date with the font's current size. */
    ghost predicate Current()
      reads this, font
    {
      Built(font.Cfg(), text, coordData, textBox, vboData)
    }

    /** `rebuild`: lays the text out again with the current font (loading
      the pages it needs) and replaces the ranges, the box and the
      buffer's contents. */
    method Rebuild()
      requires font.Valid() && TextFits(font.Cfg(), Utf8.Decode(text))
      modifies this, font
      ensures font == old(font) && text == old(text) && vao == old(vao) && vbo == old(vbo)
      ensures font.Cfg() == old(font.Cfg()) && font.Valid()
      ensures font.pageMap.Keys == old(font.pageMap.Keys) + PagesUsed(WalkOf(font.Cfg(), Utf8.Decode(text)).placed)
      ensures Current()
    {
      vboData, coordData, textBox := font.BuildText(text);
    }

    /** `Impl(font, utf8_input)`: stores the font and the text, takes the
      GL names it generates, and builds. */
    constructor (font: FontSys, utf8Input: seq<Utf8.byte>, vao: nat, vbo: nat)
      requires font.Valid() && TextFits(font.Cfg(), Utf8.Decode(utf8Input))
      modifies font
      ensures this.font == font && text == utf8Input && this.vao == vao && this.vbo == vbo
      ensures font.Cfg() == old(font.Cfg()) && font.Valid()
      ensures font.pageMap.Keys == old(font.pageMap.Keys) + PagesUsed(WalkOf(font.Cfg(), Utf8.Decode(utf8Input)).placed)
      ensures Current()
    {
      this.font := font;
      text := utf8Input;
      this.vao := vao;
      this.vbo := vbo;
      coordData := [];
      textBox := AsWrittenInitialBox;
      vboData := [];
      new;
      Rebuild();
    }

    /** `set_text`: the new text, laid out with the same font. */
    method SetText(utf8Input: seq<Utf8.byte>)
      requires font.Valid() && TextFits(font.Cfg(), Utf8.Decode(utf8Input))
      modifies this, font
      ensures font == old(font) && text == utf8Input && vao == old(vao) && vbo == old(vbo)
      ensures font.Cfg() == old(font.Cfg()) && font.Valid()
      ensures font.pageMap.Keys == old(font.pageMap.Keys) + PagesUsed(WalkOf(font.Cfg(), Utf8.Decode(text)).placed)
      ensures Current()
    {
      text := utf8Input;
      Rebuild();
    }

    /** `set_font_sys`: the same text, laid out with another font (or the
      same one after `resize`). */
    method SetFontSys(newFont: FontSys)
      requires newFont.Valid() && TextFits(newFont.Cfg(), Utf8.Decode(text))
      modifies this, newFont
      ensures font == newFont && text == old(text) && vao == old(vao) && vbo == old(vbo)
      ensures font.Cfg() == old(newFont.Cfg()) && font.Valid()
      ensures font.pageMap.Keys == old(newFont.pageMap.Keys) + PagesUsed(WalkOf(font.Cfg(), Utf8.Decode(text)).placed)
      ensures Current()
    {
      font := newFont;
      Rebuild();
    }

    /** `render_text(color, mvp)`: one draw per range, in order, each
      over the buffer slice that holds exactly its page's quads. */
    method RenderTextMat(mvp: Matrix) returns (draws: seq<CoordData>)
      requires Current()
      ensures draws == coordData
      ensures var placed := WalkOf(font.Cfg(), Utf8.Decode(text)).placed;
        forall k | 0 <= k < |draws| ::
          var r := draws[k];
          && r.pageNo in PagesUsed(placed)
          && 2 * (r.start + r.numElements) <= |vboData|
          && vboData[2 * r.start .. 2 * (r.start + r.numElements)] == PageVerts(font.Cfg(), placed, r.pageNo)
    {
      BuiltDrawsEachPage(font.Cfg(), text, coordData, textBox, vboData);
      draws := [];
      for k := 0 to |coordData|
        invariant draws == coordData[..k]
      {
        draws := draws + [coordData[k]];
      }
    }

    /** `render_text(color, win_size, pos, align_flags)`, rotation 0: the
      point of the cached box that the flags select is drawn at `pos`
      (and, by `UnrotatedIsTranslation`, every other point moves with
      it), and the ranges are drawn as by `RenderTextMat`. */
    method RenderText(winSize: Vec2<real>, pos: Vec2<real>, alignFlags: Flags)
      returns (mvp: Matrix, draws: seq<CoordData>)
      requires winSize.x != 0.0 && winSize.y != 0.0
      requires Current()
      ensures var off := StartOffset(alignFlags, textBox);
        && mvp == Mvp(winSize, pos, 1.0, 0.0, off)
        && Apply(mvp, Vec4(off.x, off.y, 0.0, 1.0)) == Ndc(winSize, pos)
      ensures draws == coordData
    {
      var off := StartOffset(alignFlags, textBox);
      mvp := Mvp(winSize, pos, 1.0, 0.0, off);
      AnchorLandsOnPos(winSize, pos, off);
      draws := RenderTextMat(mvp);
    }

    /** `Impl(Impl && other)`: takes over the font, the text, the GL names
      and the cache; `other` keeps its text and box, its ranges are
      moved out, and its GL names become 0 so that its destructor frees
      nothing. The standard leaves a moved-from vector valid but
      unspecified; the model takes the usual library behaviour, empty. */
    constructor Move(other: StaticText)
      modifies other
      ensures font == old(other.font) && text == old(other.text)
      ensures vao == old(other.vao) && vbo == old(other.vbo)
      ensures coordData == old(other.coordData) && textBox == old(other.textBox) && vboData == old(other.vboData)
      ensures other.vao == 0 && other.vbo == 0 && other.coordData == []
      ensures other.font == old(other.font) && other.text == old(other.text) && other.textBox == old(other.textBox)
      ensures other.vboData == old(other.vboData)
    {
      font := other.font;
      text := other.text;
      vao := other.vao;
      vbo := other.vbo;
      coordData := other.coordData;
      textBox := other.textBox;
      vboData := other.vboData;
      new;
      other.vao := 0;
      other.vbo := 0;
      other.coordData := [];
    }

    /** `operator=(Impl && other)`: as the move constructor when `other`
      is another object (with the same reading of the moved-from ranges
      as empty); moving an object onto itself changes nothing. */
    method MoveAssign(other: StaticText)
      modifies this, other
      ensures other == this ==> unchanged(this)
      ensures other != this ==>
        && font == old(other.font) && text == old(other.text)
        && vao == old(other.vao) && vbo == old(other.vbo)
        && coordData == old(other.coordData) && textBox == old(other.textBox) && vboData == old(other.vboData)
        && other.vao == 0 && other.vbo == 0 && other.coordData == []
        && other.font == old(other.font) && other.text == old(other.text) && other.textBox == old(other.textBox)
        && other.vboData == old(other.vboData)
    {
      if this != other {
        font := other.font;
        text := other.text;
        vao := other.vao;
        vbo := other.vbo;
        coordData := other.coordData;
        textBox := other.textBox;
        vboData := other.vboData;
        other.vao := 0;
        other.vbo := 0;
        other.coordData := [];
      }
    }
  }
}
