/** The `Text_origin` alignment flags of include/textogl/font.hpp. A flag
    word is a C `int`, modelled as its 32-bit two's-complement pattern. */
module TextOrigin {

  type Flags = bv32

  const OriginHorizBaseline: Flags := 0x00
  const OriginHorizLeft: Flags := 0x01
  const OriginHorizRight: Flags := 0x02
  const OriginHorizCenter: Flags := 0x03

  const OriginVertBaseline: Flags := 0x00
  const OriginVertTop: Flags := 0x04
  const OriginVertBottom: Flags := 0x08
  const OriginVertCenter: Flags := 0x0C

  /** The default `align_flags` argument of `render_text` and
      `render_text_rotate`. */
  const DefaultAlign: Flags := 0

  predicate IsHoriz(h: Flags) {
    h == OriginHorizBaseline || h == OriginHorizLeft || h == OriginHorizRight || h == OriginHorizCenter
  }

  predicate IsVert(v: Flags) {
    v == OriginVertBaseline || v == OriginVertTop || v == OriginVertBottom || v == OriginVertCenter
  }

  /** `align_flags & 0x3`, the horizontal selector. */
  function HorizPart(flags: Flags): (h: Flags)
    ensures IsHoriz(h)
  {
    flags & 0x3
  }

  /** `align_flags & 0xC`, the vertical selector. */
  function VertPart(flags: Flags): (v: Flags)
    ensures IsVert(v)
  {
    flags & 0xC
  }

  /** The horizontal flags use only bits 0-1 and the vertical ones only
      bits 2-3, so the two groups never overlap. */
  lemma FlagGroupsDisjoint(h: Flags, v: Flags)
    requires IsHoriz(h) && IsVert(v)
    ensures h & 0xC == 0 && v & 0x3 == 0
    ensures h & v == 0
  {
  }

  /** OR-ing one horizontal and one vertical flag lets the two masks of
      render_text_common recover exactly the pair that was requested. */
  lemma SelectorsRecoverPair(h: Flags, v: Flags)
    requires IsHoriz(h) && IsVert(v)
    ensures HorizPart(h | v) == h
    ensures VertPart(h | v) == v
  {
  }

  /** Every flag word splits into a horizontal and a vertical selector;
      bits above bit 3 are ignored. */
  lemma SelectorsCoverWord(flags: Flags)
    ensures HorizPart(flags) | VertPart(flags) == flags & 0xF
  {
  }
}
