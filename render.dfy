/** The alignment offset and model-view-projection matrix of
    `render_text_common` (src/font.cpp), over the reals. `cos` and `sin`
    of the rotation are parameters: trigonometry is not modelled. */
module Render {
  import opened Types
  import opened TextOrigin
  import opened FontImpl

  /** `start_offset`: the point of the text box that is placed at `pos`,
      chosen by the horizontal and the vertical selector independently. */
  function StartOffset(flags: Flags, box: FBox): (off: Vec2<real>)
    ensures HorizPart(flags) == OriginHorizBaseline ==> off.x == 0.0
    ensures HorizPart(flags) == OriginHorizLeft ==> off.x == box.ul.x
    ensures HorizPart(flags) == OriginHorizRight ==> off.x == box.lr.x
    ensures HorizPart(flags) == OriginHorizCenter ==> off.x == (box.ul.x + box.lr.x) / 2.0
    ensures VertPart(flags) == OriginVertBaseline ==> off.y == 0.0
    ensures VertPart(flags) == OriginVertTop ==> off.y == box.ul.y
    ensures VertPart(flags) == OriginVertBottom ==> off.y == box.lr.y
    ensures VertPart(flags) == OriginVertCenter ==> off.y == (box.ul.y + box.lr.y) / 2.0
  {
    var horizAlign := HorizPart(flags);
    var vertAlign := VertPart(flags);
    Vec2(if horizAlign == OriginHorizLeft then box.ul.x
         else if horizAlign == OriginHorizRight then box.lr.x
         else if horizAlign == OriginHorizCenter then box.ul.x + box.Width() / 2.0
         else 0.0,
         if vertAlign == OriginVertTop then box.ul.y
         else if vertAlign == OriginVertBottom then box.lr.y
         else if vertAlign == OriginVertCenter then box.lr.y + box.Height() / 2.0
         else 0.0)
  }

  /** The default `align_flags` puts the text's baseline origin at `pos`,
      whatever the text box. */
  lemma DefaultIsBaseline(box: FBox)
    ensures StartOffset(DefaultAlign, box) == Vec2(0.0, 0.0)
  {
  }

  /** Requesting a horizontal flag OR a vertical flag aligns each axis as
      that axis's flag alone would. */
  lemma AlignmentPerAxis(h: Flags, v: Flags, box: FBox)
    requires IsHoriz(h) && IsVert(v)
    ensures StartOffset(h | v, box).x == StartOffset(h, box).x
    ensures StartOffset(h | v, box).y == StartOffset(v, box).y
  {
    SelectorsRecoverPair(h, v);
    SelectorsRecoverPair(h, OriginVertBaseline);
    SelectorsRecoverPair(OriginHorizBaseline, v);
    assert h | OriginVertBaseline == h;
    assert OriginHorizBaseline | v == v;
  }

  /** `model_view_projection` as written out in `render_text_common`, with
      `c` = cos(rotation) and `s` = sin(rotation). */
  function Mvp(win: Vec2<real>, pos: Vec2<real>, c: real, s: real, off: Vec2<real>): Matrix
    requires win.x != 0.0 && win.y != 0.0
  {
    ColumnMajor([2.0 * c / win.x, -2.0 * s / win.y, 0.0, 0.0,
                 -2.0 * s / win.x, -2.0 * c / win.y, 0.0, 0.0,
                 0.0, 0.0, 1.0, 0.0,
                 -1.0 + 2.0 * (pos.x - c * off.x + s * off.y) / win.x,
                 1.0 - 2.0 * (pos.y - s * off.x - c * off.y) / win.y, 0.0, 1.0])
  }

  /** Normalised device coordinates of the window point `p` (y down). */
  function Ndc(win: Vec2<real>, p: Vec2<real>): Vec4<real>
    requires win.x != 0.0 && win.y != 0.0
  {
    Vec4(-1.0 + 2.0 * p.x / win.x, 1.0 - 2.0 * p.y / win.y, 0.0, 1.0)
  }

  /** Dividing by `w` is multiplying by its inverse. */
  lemma DivIsMul(a: real, w: real)
    requires w != 0.0
    ensures a / w == a * (1.0 / w)
  {
  }

  /** The unrotated matrix, entry by entry. */
  lemma UnrotatedColumns(win: Vec2<real>, pos: Vec2<real>, off: Vec2<real>)
    requires win.x != 0.0 && win.y != 0.0
    ensures Mvp(win, pos, 1.0, 0.0, off)
         == [Vec4(2.0 * 1.0 / win.x, -2.0 * 0.0 / win.y, 0.0, 0.0),
             Vec4(-2.0 * 0.0 / win.x, -2.0 * 1.0 / win.y, 0.0, 0.0),
             Vec4(0.0, 0.0, 1.0, 0.0),
             Vec4(-1.0 + 2.0 * (pos.x - 1.0 * off.x + 0.0 * off.y) / win.x,
                  1.0 - 2.0 * (pos.y - 0.0 * off.x - 1.0 * off.y) / win.y, 0.0, 1.0)]
  {
  }

  /** The first row applied to a point, on the reals alone. */
  lemma TranslatedX(wx: real, px: real, ox: real, x: real)
    requires wx != 0.0
    ensures 2.0 * 1.0 / wx * x + -2.0 * 0.0 / wx * 0.0 + -1.0 + 2.0 * (px - 1.0 * ox + 0.0) / wx
         == -1.0 + 2.0 * (px + x - ox) / wx
  {
    DivIsMul(2.0 * 1.0, wx);
    DivIsMul(2.0 * (px - 1.0 * ox + 0.0), wx);
    DivIsMul(2.0 * (px + x - ox), wx);
  }

  /** The second row applied to a point, on the reals alone. */
  lemma TranslatedY(wy: real, py: real, oy: real, y: real)
    requires wy != 0.0
    ensures -2.0 * 1.0 / wy * y + 1.0 - 2.0 * (py - 0.0 - 1.0 * oy) / wy
         == 1.0 - 2.0 * (py + y - oy) / wy
  {
    DivIsMul(-2.0 * 1.0, wy);
    DivIsMul(2.0 * (py - 0.0 - 1.0 * oy), wy);
    DivIsMul(2.0 * (py + y - oy), wy);
  }

  /** Unrotated, the matrix only moves the text by `pos - start_offset`
      in window pixels before projecting: every point `p` of the text is
      drawn at `pos + p - start_offset`. */
  lemma UnrotatedTranslates(win: Vec2<real>, pos: Vec2<real>, off: Vec2<real>, p: Vec2<real>)
    requires win.x != 0.0 && win.y != 0.0
    ensures Apply(Mvp(win, pos, 1.0, 0.0, off), Vec4(p.x, p.y, 0.0, 1.0))
         == Ndc(win, Vec2(pos.x + p.x - off.x, pos.y + p.y - off.y))
  {
    UnrotatedColumns(win, pos, off);
    TranslatedX(win.x, pos.x, off.x, p.x);
    TranslatedY(win.y, pos.y, off.y, p.y);
    var v := Apply(Mvp(win, pos, 1.0, 0.0, off), Vec4(p.x, p.y, 0.0, 1.0));
    var n := Ndc(win, Vec2(pos.x + p.x - off.x, pos.y + p.y - off.y));
    assert v.x == n.x && v.y == n.y && v.z == n.z && v.w == n.w;
  }

  /** With rotation 0, the matrix maps `start_offset` to the device
      coordinates of `pos`: the chosen point of the text box lands on `pos`. */
  lemma AnchorLandsOnPos(win: Vec2<real>, pos: Vec2<real>, off: Vec2<real>)
    requires win.x != 0.0 && win.y != 0.0
    ensures Apply(Mvp(win, pos, 1.0, 0.0, off), Vec4(off.x, off.y, 0.0, 1.0)) == Ndc(win, pos)
  {
    UnrotatedTranslates(win, pos, off, off);
    assert Vec2(pos.x + off.x - off.x, pos.y + off.y - off.y) == pos;
  }

  /** Unrotated, the whole text is moved rigidly: every point is drawn
      `pos - start_offset` away from where it was laid out. */
  lemma UnrotatedIsTranslation(win: Vec2<real>, pos: Vec2<real>, off: Vec2<real>)
    requires win.x != 0.0 && win.y != 0.0
    ensures forall p: Vec2<real> ::
              Apply(Mvp(win, pos, 1.0, 0.0, off), Vec4(p.x, p.y, 0.0, 1.0))
              == Ndc(win, Vec2(pos.x + p.x - off.x, pos.y + p.y - off.y))
  {
    forall p: Vec2<real>
      ensures Apply(Mvp(win, pos, 1.0, 0.0, off), Vec4(p.x, p.y, 0.0, 1.0))
        == Ndc(win, Vec2(pos.x + p.x - off.x, pos.y + p.y - off.y))
    {
      UnrotatedTranslates(win, pos, off, p);
    }
  }
}
