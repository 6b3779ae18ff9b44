/** What `build_text` (src/font.cpp) computes from a sequence of code
    points: the pen walk, the quads it emits page by page, the text's
    bounding box, and the flattened vertex buffer with its per-page ranges.

    Pen and quad positions are integers: every pen increment is
    (`line_height`, `kerning / 64`, `advance / 64`). Texture coordinates are
    kept as integer numerators; the vertex buffer holds them divided by
    `tex_width` and `tex_height`. */
module Layout {
  import opened Types
  import opened FontImpl
  import opened Atlas

  /** `'\n'`. */
  const Newline: nat := 10

  /** `code_pt >> 8`: the page a code point belongs to. */
  function PageOf(cp: nat): nat
  {
    cp / 256
  }

  /** One glyph `build_text` draws: its code point, the pen position after
      kerning, and its `Char_info`. */
  datatype Placed = Placed(cp: nat, pen: Vec2<int>, info: CharInfo)

  /** The loop state of `build_text` besides its outputs: `pen`,
      `prev_glyph_i`, and the glyphs drawn so far. */
  datatype Walk = Walk(pen: Vec2<int>, prevGlyphI: nat, placed: seq<Placed>)

  const StartWalk := Walk(Vec2(0, 0), 0, [])

  /** The kerning vector FreeType reports; `{0, 0}` when `FT_Get_Kerning`
      fails. */
  function KerningOf(cfg: FontCfg, left: nat, right: nat): Vec2<int>
  {
    match cfg.face.kerning(cfg.pixelSize, left, right)
    case Some(k) => k
    case None => Vec2(0, 0)
  }

  predicate KerningApplies(cfg: FontCfg, prevGlyphI: nat, c: CharInfo)
  {
    cfg.hasKerningInfo && prevGlyphI != 0 && c.glyphI != 0
  }

  /** The pen after kerning: x gains, y loses, the kerning / 64, and only
      when the font has kerning and both glyph indices are non-zero. */
  function Kerned(cfg: FontCfg, pen: Vec2<int>, prevGlyphI: nat, c: CharInfo): (r: Vec2<int>)
    ensures !KerningApplies(cfg, prevGlyphI, c) ==> r == pen
    ensures KerningApplies(cfg, prevGlyphI, c) ==>
      var k := KerningOf(cfg, prevGlyphI, c.glyphI);
      r.x - pen.x == Div64(k.x) && pen.y - r.y == Div64(k.y)
  {
    if KerningApplies(cfg, prevGlyphI, c) then
      var k := KerningOf(cfg, prevGlyphI, c.glyphI);
      Vec2(pen.x + Div64(k.x), pen.y - Div64(k.y))
    else pen
  }

  /** The pen after a glyph: x gains, y loses, the 26.6 advance / 64. */
  function Advanced(pen: Vec2<int>, c: CharInfo): Vec2<int>
  {
    Vec2(pen.x + Div64(c.advance.x), pen.y - Div64(c.advance.y))
  }

  /** One iteration of the `build_text` loop. */
  function WalkStep(cfg: FontCfg, w: Walk, cp: nat): Walk
  {
    if cp == Newline then
      Walk(Vec2(0, w.pen.y + cfg.lineHeight), 0, w.placed)
    else
      var c := CharInfoFor(cfg, cp);
      var pen := Kerned(cfg, w.pen, w.prevGlyphI, c);
      Walk(Advanced(pen, c), c.glyphI, w.placed + [Placed(cp, pen, c)])
  }

  /** The walk over all of `cps`. */
  function WalkOf(cfg: FontCfg, cps: seq<nat>): Walk
  {
    if |cps| == 0 then StartWalk
    else WalkStep(cfg, WalkOf(cfg, cps[..|cps| - 1]), cps[|cps| - 1])
  }

  /** The code points of `cps` other than newlines, in order. */
  function NonNewlines(cps: seq<nat>): seq<nat>
  {
    if |cps| == 0 then []
    else NonNewlines(cps[..|cps| - 1]) + (if cps[|cps| - 1] == Newline then [] else [cps[|cps| - 1]])
  }

  /** A newline moves the pen to the start of the next line, forgets the
      previous glyph and draws nothing; any other code point draws one
      glyph at the kerned pen and advances past it. */
  lemma WalkStepEffect(cfg: FontCfg, w: Walk, cp: nat)
    ensures cp == Newline ==>
      WalkStep(cfg, w, cp) == Walk(Vec2(0, w.pen.y + cfg.lineHeight), 0, w.placed)
    ensures cp != Newline ==>
      var c := CharInfoFor(cfg, cp);
      var r := WalkStep(cfg, w, cp);
      && r.placed == w.placed + [Placed(cp, Kerned(cfg, w.pen, w.prevGlyphI, c), c)]
      && r.prevGlyphI == c.glyphI
      && r.pen == Advanced(r.placed[|r.placed| - 1].pen, c)
  {
  }

  /** The glyphs drawn are exactly the non-newline code points, in order,
      each with the `Char_info` its page holds for it. */
  lemma {:induction false} WalkPlacesNonNewlines(cfg: FontCfg, cps: seq<nat>)
    ensures var ps := WalkOf(cfg, cps).placed;
      && |ps| == |NonNewlines(cps)|
      && forall k | 0 <= k < |ps| :: ps[k].cp == NonNewlines(cps)[k] && ps[k].info == CharInfoFor(cfg, ps[k].cp)
    decreases |cps|
  {
    if |cps| > 0 {
      WalkPlacesNonNewlines(cfg, cps[..|cps| - 1]);
    }
  }

  // ---------------------------------------------------------------------
  // Quads

  /** `tex_origin`: where the grid cell of `cp` has its glyph origin. */
  function TexOrigin(cfg: FontCfg, cp: nat): Vec2<int>
  {
    Vec2(TexCol(cp) * cfg.cellBbox.Width() - cfg.cellBbox.ul.x, TexRow(cp) * cfg.cellBbox.Height() + cfg.cellBbox.ul.y)
  }

  /** The twelve `Vec2` pushed for one glyph: six (position, texture
      numerator) pairs, the triangles LL, LR, UL and UL, LR, UR. Screen y
      grows downwards, glyph y upwards. */
  function QuadVerts(cfg: FontCfg, pl: Placed): (v: seq<Vec2<int>>)
    ensures |v| == 12
  {
    var b := pl.info.bbox;
    var p := pl.pen;
    var t := TexOrigin(cfg, pl.cp);
    var ll, llTex := Vec2(p.x + b.ul.x, p.y - b.lr.y), Vec2(t.x + b.ul.x, t.y - b.lr.y);
    var lr, lrTex := Vec2(p.x + b.lr.x, p.y - b.lr.y), Vec2(t.x + b.lr.x, t.y - b.lr.y);
    var ul, ulTex := Vec2(p.x + b.ul.x, p.y - b.ul.y), Vec2(t.x + b.ul.x, t.y - b.ul.y);
    var ur, urTex := Vec2(p.x + b.lr.x, p.y - b.ul.y), Vec2(t.x + b.lr.x, t.y - b.ul.y);
    [ll, llTex, lr, lrTex, ul, ulTex, ul, ulTex, lr, lrTex, ur, urTex]
  }

  /** Each quad is its glyph's box placed at the pen, and it samples the
      texture one texel per unit: every texture numerator is its position
      moved by the same offset. */
  lemma QuadShape(cfg: FontCfg, pl: Placed)
    ensures var v := QuadVerts(cfg, pl);
      var b := pl.info.bbox;
      var d := Vec2(TexOrigin(cfg, pl.cp).x - pl.pen.x, TexOrigin(cfg, pl.cp).y - pl.pen.y);
      && v[0] == Vec2(pl.pen.x + b.ul.x, pl.pen.y - b.lr.y) && v[2] == Vec2(pl.pen.x + b.lr.x, pl.pen.y - b.lr.y)
      && v[4] == Vec2(pl.pen.x + b.ul.x, pl.pen.y - b.ul.y) && v[10] == Vec2(pl.pen.x + b.lr.x, pl.pen.y - b.ul.y)
      && v[6] == v[4] && v[8] == v[2]
      && forall k | 0 <= k < 6 :: v[2 * k + 1] == Vec2(v[2 * k].x + d.x, v[2 * k].y + d.y)
  {
    var v := QuadVerts(cfg, pl);
    var d := Vec2(TexOrigin(cfg, pl.cp).x - pl.pen.x, TexOrigin(cfg, pl.cp).y - pl.pen.y);
    forall k | 0 <= k < 6 ensures v[2 * k + 1] == Vec2(v[2 * k].x + d.x, v[2 * k].y + d.y) {
    }
  }

  /** The texture numerators of a loaded glyph's quad are exactly where
      `load_page` copied its bitmap: the upper-left corner is the first
      pixel, the lower-right corner one past the last. */
  lemma TexCoordsMatchAtlas(cfg: FontCfg, cp: nat, pen: Vec2<int>)
    requires Slot(cfg, cp).Some?
    ensures var s := Slot(cfg, cp).value;
      var v := QuadVerts(cfg, Placed(cp, pen, CharInfoFor(cfg, cp)));
      && v[5] == Vec2(AtlasX(cfg, cp, s), AtlasY(cfg, cp, s))
      && v[3] == Vec2(AtlasX(cfg, cp, s) + s.width, AtlasY(cfg, cp, s) + s.rows)
  {
  }

  // ---------------------------------------------------------------------
  // Vertices by page

  /** `screen_and_tex_coords[p]`: the quads of the glyphs on page `p`, in
      drawing order. */
  function PageVerts(cfg: FontCfg, placed: seq<Placed>, p: nat): (v: seq<Vec2<int>>)
    ensures |v| % 12 == 0
  {
    if |placed| == 0 then []
    else
      var last := placed[|placed| - 1];
      PageVerts(cfg, placed[..|placed| - 1], p) + (if PageOf(last.cp) == p then QuadVerts(cfg, last) else [])
  }

  function PagesUsed(placed: seq<Placed>): set<nat>
  {
    set k | 0 <= k < |placed| :: PageOf(placed[k].cp)
  }

  /** `screen_and_tex_coords` once the glyphs `placed` are drawn. */
  function VertsByPage(cfg: FontCfg, placed: seq<Placed>): map<nat, seq<Vec2<int>>>
  {
    map p | p in PagesUsed(placed) :: PageVerts(cfg, placed, p)
  }

  /** Drawing one more glyph appends its twelve `Vec2` to its page's list
      (creating the list if the page is new) and changes nothing else. */
  lemma GlyphAppendsQuad(cfg: FontCfg, placed: seq<Placed>, pl: Placed)
    ensures var before := VertsByPage(cfg, placed);
      var q := PageOf(pl.cp);
      VertsByPage(cfg, placed + [pl])
        == before[q := (if q in before then before[q] else []) + QuadVerts(cfg, pl)]
  {
    var after := placed + [pl];
    assert after[..|after| - 1] == placed;
    var q := PageOf(pl.cp);
    assert PagesUsed(after) == PagesUsed(placed) + {q} by {
      forall p | p in PagesUsed(after) ensures p in PagesUsed(placed) + {q} {
        var k :| 0 <= k < |after| && PageOf(after[k].cp) == p;
        if k < |placed| {
          assert PageOf(placed[k].cp) == p;
        }
      }
      forall p | p in PagesUsed(placed) ensures p in PagesUsed(after) {
        var k :| 0 <= k < |placed| && PageOf(placed[k].cp) == p;
        assert after[k] == placed[k];
      }
      assert after[|placed|] == pl;
    }
    var before := VertsByPage(cfg, placed);
    var rhs := before[q := (if q in before then before[q] else []) + QuadVerts(cfg, pl)];
    forall p | p in PagesUsed(after) ensures PageVerts(cfg, after, p) == rhs[p] {
      if p == q && q !in PagesUsed(placed) {
        NoGlyphsNoVerts(cfg, placed, q);
      }
    }
    assert VertsByPage(cfg, after).Keys == rhs.Keys;
  }

  /** The page map holds a list for exactly the pages used, and every
      list is a whole number of quads, so of vertices. */
  lemma {:induction false} VertsByPageShape(cfg: FontCfg, placed: seq<Placed>)
    ensures VertsByPage(cfg, placed).Keys == PagesUsed(placed)
    ensures EvenLists(VertsByPage(cfg, placed))
  {
    var verts := VertsByPage(cfg, placed);
    forall p | p in verts ensures |verts[p]| % 2 == 0 {
      var n := |PageVerts(cfg, placed, p)|;
      assert n == 12 * (n / 12);
      assert n == 2 * (6 * (n / 12));
    }
    assert verts.Keys == PagesUsed(placed);
  }

  lemma {:induction false} NoGlyphsNoVerts(cfg: FontCfg, placed: seq<Placed>, p: nat)
    requires p !in PagesUsed(placed)
    ensures PageVerts(cfg, placed, p) == []
    decreases |placed|
  {
    if |placed| > 0 {
      var init := placed[..|placed| - 1];
      assert PagesUsed(init) <= PagesUsed(placed) by {
        forall r | r in PagesUsed(init) ensures r in PagesUsed(placed) {
          var k :| 0 <= k < |init| && PageOf(init[k].cp) == r;
          assert placed[k] == init[k];
        }
      }
      assert PageOf(placed[|placed| - 1].cp) in PagesUsed(placed);
      NoGlyphsNoVerts(cfg, init, p);
    }
  }

  // ---------------------------------------------------------------------
  // Flattening into one buffer

  /** `coords` after appending the lists of the pages in `order`. */
  function Concat(verts: map<nat, seq<Vec2<int>>>, order: seq<nat>): seq<Vec2<int>>
    requires forall k | 0 <= k < |order| :: order[k] in verts
  {
    if |order| == 0 then []
    else Concat(verts, order[..|order| - 1]) + verts[order[|order| - 1]]
  }

  /** `coord_data` after visiting the pages in `order`: `start` is the
      number of vertices (pairs of `Vec2`) already in `coords`, and
      `num_elements` is the vertex count afterwards minus `start`. */
  function Ranges(verts: map<nat, seq<Vec2<int>>>, order: seq<nat>): (r: seq<CoordData>)
    requires forall k | 0 <= k < |order| :: order[k] in verts
    ensures |r| == |order|
  {
    if |order| == 0 then []
    else
      var before := Concat(verts, order[..|order| - 1]);
      var added := verts[order[|order| - 1]];
      Ranges(verts, order[..|order| - 1])
        + [CoordData(order[|order| - 1], |before| / 2, (|before| + |added|) / 2 - |before| / 2)]
  }

  function PagesOf(cd: seq<CoordData>): (order: seq<nat>)
    ensures |order| == |cd|
  {
    seq(|cd|, k requires 0 <= k < |cd| => cd[k].pageNo)
  }

  /** `order` lists every key of the page map exactly once: one iteration
      order of the `unordered_map`. */
  predicate IsOrderOf(order: seq<nat>, keys: set<nat>)
  {
    && (forall i, j | 0 <= i < j < |order| :: order[i] != order[j])
    && (forall k | 0 <= k < |order| :: order[k] in keys)
    && (forall p | p in keys :: p in order)
  }

  predicate EvenLists(verts: map<nat, seq<Vec2<int>>>)
  {
    forall p | p in verts :: |verts[p]| % 2 == 0
  }

  lemma {:induction false} ConcatEven(verts: map<nat, seq<Vec2<int>>>, order: seq<nat>)
    requires forall k | 0 <= k < |order| :: order[k] in verts
    requires EvenLists(verts)
    ensures |Concat(verts, order)| % 2 == 0
    decreases |order|
  {
    if |order| > 0 {
      ConcatEven(verts, order[..|order| - 1]);
    }
  }

  lemma {:induction false} ConcatPrefix(verts: map<nat, seq<Vec2<int>>>, order: seq<nat>, k: nat)
    requires forall i | 0 <= i < |order| :: order[i] in verts
    requires k <= |order|
    ensures |Concat(verts, order[..k])| <= |Concat(verts, order)|
    ensures Concat(verts, order)[..|Concat(verts, order[..k])|] == Concat(verts, order[..k])
    decreases |order|
  {
    if k < |order| {
      var init := order[..|order| - 1];
      assert init[..k] == order[..k];
      ConcatPrefix(verts, init, k);
    } else {
      assert order[..k] == order;
    }
  }

  /** Range `k` names the `k`-th page visited, starts at the number of
      vertices of the pages before it, counts that page's vertices, and
      covers exactly that page's list. */
  lemma {:induction false} RangeAt(verts: map<nat, seq<Vec2<int>>>, order: seq<nat>, k: nat)
    requires forall i | 0 <= i < |order| :: order[i] in verts
    requires EvenLists(verts) && k < |order|
    ensures var r := Ranges(verts, order)[k];
      && r.pageNo == order[k]
      && 2 * r.start == |Concat(verts, order[..k])|
      && 2 * r.numElements == |verts[order[k]]|
      && 2 * (r.start + r.numElements) <= |Concat(verts, order)|
      && Concat(verts, order)[2 * r.start .. 2 * (r.start + r.numElements)] == verts[order[k]]
    decreases |order|
  {
    var n := |order| - 1;
    var init := order[..n];
    var before := Concat(verts, init);
    var all := Concat(verts, order);
    assert all == before + verts[order[n]];
    if k < n {
      RangeAt(verts, init, k);
      assert Ranges(verts, order)[k] == Ranges(verts, init)[k];
      assert init[..k] == order[..k];
      var r := Ranges(verts, init)[k];
      SliceOfAppend(before, verts[order[n]], 2 * r.start, 2 * (r.start + r.numElements));
    } else {
      assert order[..k] == init;
      ConcatEven(verts, init);
      assert |verts[order[n]]| % 2 == 0;
      AppendedSlice(before, verts[order[n]]);
    }
  }

  /** A slice of the first part of `a + b` is that slice of `a`. */
  lemma SliceOfAppend<T>(a: seq<T>, b: seq<T>, i: nat, j: nat)
    requires i <= j <= |a|
    ensures (a + b)[i..j] == a[i..j]
  {
  }

  /** `b` is the slice of `a + b` after `a`. */
  lemma AppendedSlice<T>(a: seq<T>, b: seq<T>)
    ensures (a + b)[|a|..|a| + |b|] == b
  {
  }

  /** The ranges partition the buffer: each covers exactly its page's
      list, at the place where that list was appended. */
  lemma RangesPartition(verts: map<nat, seq<Vec2<int>>>, order: seq<nat>)
    requires forall k | 0 <= k < |order| :: order[k] in verts
    requires EvenLists(verts)
    ensures forall k | 0 <= k < |order| ::
      var r := Ranges(verts, order)[k];
      && r.pageNo == order[k]
      && 2 * r.start == |Concat(verts, order[..k])|
      && 2 * r.numElements == |verts[order[k]]|
      && 2 * (r.start + r.numElements) <= |Concat(verts, order)|
      && Concat(verts, order)[2 * r.start .. 2 * (r.start + r.numElements)] == verts[order[k]]
  {
    forall k | 0 <= k < |order|
      ensures var r := Ranges(verts, order)[k];
      && r.pageNo == order[k]
      && 2 * r.start == |Concat(verts, order[..k])|
      && 2 * r.numElements == |verts[order[k]]|
      && 2 * (r.start + r.numElements) <= |Concat(verts, order)|
      && Concat(verts, order)[2 * r.start .. 2 * (r.start + r.numElements)] == verts[order[k]]
    {
      RangeAt(verts, order, k);
    }
  }

  // ---------------------------------------------------------------------
  // Vertex count

  /** The total length of the page lists of `order`, whether or not a page
      has glyphs. */
  function Total(cfg: FontCfg, placed: seq<Placed>, order: seq<nat>): nat
  {
    if |order| == 0 then 0
    else Total(cfg, placed, order[..|order| - 1]) + |PageVerts(cfg, placed, order[|order| - 1])|
  }

  lemma {:induction false} TotalStep(cfg: FontCfg, placed: seq<Placed>, pl: Placed, order: seq<nat>)
    requires forall i, j | 0 <= i < j < |order| :: order[i] != order[j]
    ensures Total(cfg, placed + [pl], order)
         == Total(cfg, placed, order) + (if PageOf(pl.cp) in order then 12 else 0)
    decreases |order|
  {
    var after := placed + [pl];
    assert after[..|after| - 1] == placed;
    if |order| > 0 {
      var init := order[..|order| - 1];
      TotalStep(cfg, placed, pl, init);
      assert PageOf(pl.cp) in order <==> PageOf(pl.cp) in init || PageOf(pl.cp) == order[|order| - 1];
      if PageOf(pl.cp) == order[|order| - 1] {
        assert PageOf(pl.cp) !in init;
      }
    }
  }

  lemma {:induction false} TotalIsTwelvePerGlyph(cfg: FontCfg, placed: seq<Placed>, order: seq<nat>)
    requires forall i, j | 0 <= i < j < |order| :: order[i] != order[j]
    requires forall p | p in PagesUsed(placed) :: p in order
    ensures Total(cfg, placed, order) == 12 * |placed|
    decreases |placed|
  {
    if |placed| == 0 {
      TotalOfNothing(cfg, order);
    } else {
      var init := placed[..|placed| - 1];
      var pl := placed[|placed| - 1];
      assert init + [pl] == placed;
      forall p | p in PagesUsed(init) ensures p in order {
        var k :| 0 <= k < |init| && PageOf(init[k].cp) == p;
        assert placed[k] == init[k];
        assert p in PagesUsed(placed);
      }
      assert PageOf(pl.cp) in PagesUsed(placed);
      TotalIsTwelvePerGlyph(cfg, init, order);
      TotalStep(cfg, init, pl, order);
    }
  }

  lemma {:induction false} TotalOfNothing(cfg: FontCfg, order: seq<nat>)
    ensures Total(cfg, [], order) == 0
    decreases |order|
  {
    if |order| > 0 {
      TotalOfNothing(cfg, order[..|order| - 1]);
    }
  }

  lemma {:induction false} ConcatIsTotal(cfg: FontCfg, placed: seq<Placed>, order: seq<nat>)
    requires forall k | 0 <= k < |order| :: order[k] in PagesUsed(placed)
    ensures forall k | 0 <= k < |order| :: order[k] in VertsByPage(cfg, placed)
    ensures |Concat(VertsByPage(cfg, placed), order)| == Total(cfg, placed, order)
    decreases |order|
  {
    if |order| > 0 {
      ConcatIsTotal(cfg, placed, order[..|order| - 1]);
    }
  }

  /** However the pages are ordered, the flattened buffer holds twelve
      `Vec2` (six vertices) per glyph drawn. */
  lemma VertexCount(cfg: FontCfg, placed: seq<Placed>, order: seq<nat>)
    requires IsOrderOf(order, PagesUsed(placed))
    ensures forall k | 0 <= k < |order| :: order[k] in VertsByPage(cfg, placed)
    ensures |Concat(VertsByPage(cfg, placed), order)| == 12 * |placed|
  {
    ConcatIsTotal(cfg, placed, order);
    TotalIsTwelvePerGlyph(cfg, placed, order);
  }

  // ---------------------------------------------------------------------
  // Text box

  /** `std::numeric_limits<float>::max()`. */
  const FltMax: real := 340282346638528859811704183484516925440.0

  /** `std::numeric_limits<float>::min()`: the smallest positive normal
      float, 2^-126. */
  const FltMin: real := 1.0 / 85070591730234615865843651857942052864.0

  /** The box `build_text` starts from, as written: `lr` at the smallest
      positive float. */
  const AsWrittenInitialBox := FBox(Vec2(FltMax, FltMax), Vec2(FltMin, FltMin))

  /** The box it evidently means to start from: `lr` at the lowest float,
      `-FLT_MAX`. */
  const InitialBox := FBox(Vec2(FltMax, FltMax), Vec2(-FltMax, -FltMax))

  /** Screen edges of a drawn glyph's quad. */
  function Left(pl: Placed): int { pl.pen.x + pl.info.bbox.ul.x }
  function Top(pl: Placed): int { pl.pen.y - pl.info.bbox.ul.y }
  function Right(pl: Placed): int { pl.pen.x + pl.info.bbox.lr.x }
  function Bottom(pl: Placed): int { pl.pen.y - pl.info.bbox.lr.y }

  function Min(a: real, b: real): real { if a <= b then a else b }
  function Max(a: real, b: real): real { if a >= b then a else b }

  /** The box grown to take in one more quad. */
  function Expand(b: FBox, pl: Placed): FBox
  {
    FBox(Vec2(Min(b.ul.x, Left(pl) as real), Min(b.ul.y, Top(pl) as real)),
         Vec2(Max(b.lr.x, Right(pl) as real), Max(b.lr.y, Bottom(pl) as real)))
  }

  /** `font_box` after the glyphs `placed`, starting from `init`. */
  function BoxOver(init: FBox, placed: seq<Placed>): FBox
  {
    if |placed| == 0 then init
    else Expand(BoxOver(init, placed[..|placed| - 1]), placed[|placed| - 1])
  }

  predicate InRange(v: int)
  {
    -FltMax <= v as real <= FltMax
  }

  /** The quad's edges are within the range of finite floats. */
  predicate InFloatRange(pl: Placed)
  {
    InRange(Left(pl)) && InRange(Top(pl)) && InRange(Right(pl)) && InRange(Bottom(pl))
  }

  /** Starting from (`FLT_MAX`, `-FLT_MAX`), the box of non-empty text is
      exactly the union of its quads: each edge bounds every quad and is
      attained by one of them. */
  lemma {:induction false} BoxIsUnion(placed: seq<Placed>)
    requires |placed| > 0
    requires forall k | 0 <= k < |placed| :: InFloatRange(placed[k])
    ensures var b := BoxOver(InitialBox, placed);
      && (forall k | 0 <= k < |placed| ::
            b.ul.x <= Left(placed[k]) as real && b.ul.y <= Top(placed[k]) as real
            && Right(placed[k]) as real <= b.lr.x && Bottom(placed[k]) as real <= b.lr.y)
      && (exists k | 0 <= k < |placed| :: b.ul.x == Left(placed[k]) as real)
      && (exists k | 0 <= k < |placed| :: b.ul.y == Top(placed[k]) as real)
      && (exists k | 0 <= k < |placed| :: b.lr.x == Right(placed[k]) as real)
      && (exists k | 0 <= k < |placed| :: b.lr.y == Bottom(placed[k]) as real)
    decreases |placed|
  {
    var n := |placed| - 1;
    var init := placed[..n];
    var last := placed[n];
    var b := BoxOver(InitialBox, placed);
    if n == 0 {
      assert init == [];
      assert BoxOver(InitialBox, init) == InitialBox;
      assert b == Expand(BoxOver(InitialBox, init), last);
      assert b.ul.x == Left(placed[0]) as real;
      assert b.ul.y == Top(placed[0]) as real;
      assert b.lr.x == Right(placed[0]) as real;
      assert b.lr.y == Bottom(placed[0]) as real;
    } else {
      BoxIsUnion(init);
      var b0 := BoxOver(InitialBox, init);
      assert b == Expand(b0, last);
      forall k | 0 <= k < |placed|
        ensures b.ul.x <= Left(placed[k]) as real && b.ul.y <= Top(placed[k]) as real
             && Right(placed[k]) as real <= b.lr.x && Bottom(placed[k]) as real <= b.lr.y
      {
        if k < n {
          assert placed[k] == init[k];
        }
      }
      if b.ul.x == Left(last) as real {
        assert b.ul.x == Left(placed[n]) as real;
      } else {
        var k :| 0 <= k < n && b0.ul.x == Left(init[k]) as real;
        assert b.ul.x == Left(placed[k]) as real;
      }
      if b.ul.y == Top(last) as real {
        assert b.ul.y == Top(placed[n]) as real;
      } else {
        var k :| 0 <= k < n && b0.ul.y == Top(init[k]) as real;
        assert b.ul.y == Top(placed[k]) as real;
      }
      if b.lr.x == Right(last) as real {
        assert b.lr.x == Right(placed[n]) as real;
      } else {
        var k :| 0 <= k < n && b0.lr.x == Right(init[k]) as real;
        assert b.lr.x == Right(placed[k]) as real;
      }
      if b.lr.y == Bottom(last) as real {
        assert b.lr.y == Bottom(placed[n]) as real;
      } else {
        var k :| 0 <= k < n && b0.lr.y == Bottom(init[k]) as real;
        assert b.lr.y == Bottom(placed[k]) as real;
      }
    }
  }

  /** A box with its lower-right corner raised to at least `FLT_MIN`. */
  function Floored(b: FBox): FBox
  {
    FBox(b.ul, Vec2(Max(FltMin, b.lr.x), Max(FltMin, b.lr.y)))
  }

  /** Starting from `FLT_MIN` instead of `-FLT_MAX` only raises the
      lower-right corner of the box to `FLT_MIN`, whatever the text. */
  lemma {:induction false} AsWrittenIsFloored(placed: seq<Placed>)
    ensures BoxOver(AsWrittenInitialBox, placed) == Floored(BoxOver(InitialBox, placed))
    decreases |placed|
  {
    if |placed| > 0 {
      AsWrittenIsFloored(placed[..|placed| - 1]);
    }
  }

  /** The box `build_text` returns for text with glyphs: its upper-left
      corner is that of the union of the quads, and each lower-right
      coordinate is the union's or `FLT_MIN`, whichever is greater. */
  lemma AsWrittenBox(placed: seq<Placed>)
    requires |placed| > 0
    requires forall k | 0 <= k < |placed| :: InFloatRange(placed[k])
    ensures var b := BoxOver(AsWrittenInitialBox, placed);
      && (forall k | 0 <= k < |placed| ::
            b.ul.x <= Left(placed[k]) as real && b.ul.y <= Top(placed[k]) as real
            && Right(placed[k]) as real <= b.lr.x && Bottom(placed[k]) as real <= b.lr.y)
      && (exists k | 0 <= k < |placed| :: b.ul.x == Left(placed[k]) as real)
      && (exists k | 0 <= k < |placed| :: b.ul.y == Top(placed[k]) as real)
      && FltMin <= b.lr.x && FltMin <= b.lr.y
      && (b.lr.x == FltMin || exists k | 0 <= k < |placed| :: b.lr.x == Right(placed[k]) as real)
      && (b.lr.y == FltMin || exists k | 0 <= k < |placed| :: b.lr.y == Bottom(placed[k]) as real)
  {
    AsWrittenIsFloored(placed);
    BoxIsUnion(placed);
  }

  /** Text that draws no glyph (empty, or only newlines) keeps the
      starting box. */
  lemma {:induction false} NoGlyphsKeepSentinels(cfg: FontCfg, cps: seq<nat>, init: FBox)
    requires forall k | 0 <= k < |cps| :: cps[k] == Newline
    ensures WalkOf(cfg, cps).placed == []
    ensures BoxOver(init, WalkOf(cfg, cps).placed) == init
    decreases |cps|
  {
    if |cps| > 0 {
      NoGlyphsKeepSentinels(cfg, cps[..|cps| - 1], init);
    }
  }

  /** A face whose only glyph is 2 px wide, 4 rows high and sits wholly
      above the baseline (top at 10), like an apostrophe. */
  function ApostropheFont(): FontCfg
  {
    FontCfg(Face(_ => None, false, _ => 1,
                 (_, _) => Some(GlyphSlot(1, 10, 2, 4, (_, _) => 0, Vec2(256, 0))),
                 (_, _, _) => None),
            12, false, IBox(Vec2(-2, 14), Vec2(14, -6)), 16, 256, 320)
  }

  /** As written, the lower edge of the box of the text `'` (whose quad
      spans screen rows -10 to -6) is the smallest positive float, below
      the glyph and attained by no quad; starting from `-FLT_MAX` it is
      the glyph's bottom, -6. */
  lemma SentinelClampsBox()
    ensures var ps := WalkOf(ApostropheFont(), [39]).placed;
      && |ps| == 1 && Bottom(ps[0]) == -6 && Top(ps[0]) == -10
      && BoxOver(AsWrittenInitialBox, ps).lr.y == FltMin
      && BoxOver(AsWrittenInitialBox, ps).lr.y != Bottom(ps[0]) as real
      && BoxOver(InitialBox, ps).lr.y == -6.0
  {
    var cfg := ApostropheFont();
    var c := CharInfoFor(cfg, 39);
    assert c.bbox == IBox(Vec2(1, 10), Vec2(3, 6));
    assert WalkOf(cfg, [39]) == WalkStep(cfg, StartWalk, 39);
  }
}
