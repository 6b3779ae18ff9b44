# textogl core, modelled in Dafny

textogl draws UTF-8 text with OpenGL. A `Font_sys` holds a FreeType face at one
pixel size. It rasterises Unicode code pages (256 consecutive code points) on
demand into 16x16-cell atlas textures. For any string it builds a vertex buffer
of interleaved screen and texture coordinates, six vertices per glyph, grouped
by page, together with one draw range per page and the text's bounding box. A
`Static_text` caches that buffer, the ranges and the box for a string, and
draws them at a position chosen by `Text_origin` alignment flags.

The model covers the following, one module per concern:

- `Types` models `include/textogl/types.hpp`: vectors, and a 4x4 column-major
  matrix as a class over an array with its product.
- `TextOrigin` models the alignment flags of `include/textogl/font.hpp` and
  the two selectors `render_text_common` extracts from them.
- `Utf8` models the `utf8_to_utf32` decoder of `src/font.cpp`. It is a state
  machine given as a function and also as a loop proved equal to it.
- `FontImpl` models the records of `src/font_impl.hpp`: `Bbox`, `Coord_data`,
  `Char_info` and `Page`. It also holds the C++ truncating `/ 64` and the
  stand-in for the FreeType face.
- `Atlas` holds the specification of `load_page`: the `Char_info` of every
  code point and the texel at every position of the page texture. It proves
  that the glyph cells do not overlap.
- `Layout` holds the specification of `build_text`:
  - the pen walk with newlines and kerning;
  - the quad emitted per glyph;
  - the per-page vertex lists;
  - their flattening into one buffer with ranges;
  - the text box.
- `FontSystem` is the imperative `Font_sys::Impl`:
  - `resize`;
  - `load_page`, with its copy loops over an `array2` texture;
  - `build_text`, with its loop over code points and its loop over pages.

  Each is proved against the `Atlas` and `Layout` functions.
- `StaticTextModule` is the `Static_text::Impl` class: construction,
  `rebuild`, `set_text`, `set_font_sys`, both `render_text` overloads, and the
  move operations.

`Render` models the alignment offset and the model-view-projection matrix of
`render_text_common`.

Some conventions:

- The FreeType face is a datatype of functions: character index, glyph load,
  kerning, set-pixel-size. A failing call is `None`.
- Iteration over `std::unordered_map` has no specified order. The model lets
  `Flatten` take any order, and states every result relative to the order it
  produced.
- Pen positions and quad corners are integers, since every increment is an
  integer.
- Texture coordinates are kept as integer numerators over `tex_width` and
  `tex_height`.
- The text box and the matrix are over the reals.

The header comment in `include/textogl/font.hpp:57-58` says the first page is
always created, but no code does so. The model follows the code: a new or
resized font has no pages.

## Model

| member | source | states |
|---|---|---|
| Types.Vec4.With | include/textogl/types.hpp:79-80 | writing component `i` through `operator[]` sets that component and leaves the other three unchanged |
| Types.ZeroVec2 | include/textogl/types.hpp:48-51 | a default `Vec2` has both components zero |
| Types.ZeroVec4 | include/textogl/types.hpp:67-72 | a default `Vec4` has all four components zero |
| Types.ZeroMatrix | include/textogl/types.hpp:89-92 | every element of a default `Mat4` is zero |
| Types.ColumnMajor | include/textogl/types.hpp:99-108 | the k-th of the sixteen scalars becomes element `[k / 4][k % 4]` (column, then row) |
| Types.Diagonal | include/textogl/types.hpp:110-114 | `Mat4(d)` has `d` on the diagonal and zero elsewhere |
| Types.ProductElement | include/textogl/types.hpp:130-139 | element `[col][row]` of `a * b` is the sum over `k` of `a[k][row] * b[col][k]` |
| Types.IdentityLeft | include/textogl/types.hpp:110-139 | `Mat4(1) * a == a` for every matrix |
| Types.IdentityRight | include/textogl/types.hpp:110-139 | `a * Mat4(1) == a` for every matrix |
| Types.Mat4.Zero | include/textogl/types.hpp:89-92 | a new matrix whose view is the zero matrix |
| Types.Mat4.FromColumns | include/textogl/types.hpp:94-97 | the four vectors become columns 0 to 3 |
| Types.Mat4.FromElements | include/textogl/types.hpp:99-108 | the sixteen scalars are stored column-major |
| Types.Mat4.Diag | include/textogl/types.hpp:110-114 | the new matrix is `Diagonal(d)` |
| Types.Mat4.Times | include/textogl/types.hpp:127-140 | the triple loop leaves in a new matrix exactly the matrix product of the two operands |
| Types.Mat4.TimesAssign | include/textogl/types.hpp:144-147 | `*=` replaces the matrix by its product with `b`, both taken before the update |
| TextOrigin.HorizPart | src/font.cpp:386 | `align_flags & 0x3` is always one of the four horizontal flags |
| TextOrigin.VertPart | src/font.cpp:402 | `align_flags & 0xC` is always one of the four vertical flags |
| TextOrigin.FlagGroupsDisjoint | include/textogl/font.hpp:37-48 | horizontal and vertical flags occupy disjoint bits |
| TextOrigin.SelectorsRecoverPair | include/textogl/font.hpp:37-48 | from the OR of `h` and `v` the two masks recover exactly `h` and `v` |
| TextOrigin.SelectorsCoverWord | src/font.cpp:386-402 | together the two selectors keep exactly the low four bits of the flags |
| Utf8.Utf8ToUtf32 | src/font.cpp:42-130 | the decoding loop returns exactly the code points of the decoder's specification |
| Utf8.IdleIsStart | src/font.cpp:46-49 | between sequences, the code point left over from the previous sequence does not affect the rest of the output |
| Utf8.IdleStatesAgree | src/font.cpp:69-101 | any two idle states decode every continuation identically, because a lead byte overwrites `code_pt` |
| Utf8.AsciiPassesThrough | src/font.cpp:58-67 | a string of ASCII bytes decodes to the same values |
| Utf8.DecodeTwoByte | src/font.cpp:69-120 | a 2-byte encoding of any `c` in [0x80, 0x800) yields `c` and leaves the decoder idle |
| Utf8.DecodeThreeByte | src/font.cpp:84-120 | a 3-byte encoding of any `c` < 0x10000 yields `c`, including overlong forms and surrogates |
| Utf8.DecodeFourByte | src/font.cpp:90-120 | a 4-byte encoding of any `c` < 0x140000 yields `c`; values above U+10FFFF are accepted |
| Utf8.DecodeEncoded | src/font.cpp:49-130 | from an idle state, a standard UTF-8 encoding of a scalar value yields that value and decoding carries on afresh |
| Utf8.RoundTrip | src/font.cpp:42-130 | decoding the standard UTF-8 encoding of any code-point sequence returns that sequence |
| Utf8.OverlongTwoByteRejected | src/font.cpp:52-56 | a 2-byte overlong encoding (lead 0xC0 or 0xC1) yields two U+FFFD and no code point |
| Utf8.InvalidByteResyncs | src/font.cpp:52-56 | 0xC0, 0xC1 or a byte of 0xF5 and above emits U+FFFD and abandons any sequence in progress |
| Utf8.StrayContinuationResyncs | src/font.cpp:105-109 | a continuation byte with no lead emits U+FFFD and decoding continues afresh |
| Utf8.CutShortByAscii | src/font.cpp:60-66 | an ASCII byte inside a sequence emits U+FFFD and then the byte itself |
| Utf8.CutShortByLead | src/font.cpp:71-75 | a lead byte inside a sequence emits U+FFFD and starts a new sequence |
| Utf8.CutShortByEnd | src/font.cpp:123-127 | a valid sequence truncated by the end of input yields exactly one U+FFFD |
| Utf8.StepBounded | src/font.cpp:49-120 | one byte keeps the partial code point small enough for its remaining continuation bytes, and emits at most one value per byte plus one per abandoned sequence |
| Utf8.DecodeFromBounded | src/font.cpp:49-127 | from a bounded state, every output value is U+FFFD or at most 0x13FFFF, and the output is no longer than the input plus one |
| Utf8.DecodeBounded | src/font.cpp:42-130 | every decoded value is U+FFFD or at most 0x13FFFF, so it fits `char32_t`, and there are never more code points than bytes |
| FontImpl.IBox.Width | src/font_impl.hpp:152-155 | `ul.x + width() == lr.x` |
| FontImpl.IBox.Height | src/font_impl.hpp:158-161 | `lr.y + height() == ul.y` (y up) |
| FontImpl.FBox.Width | src/font_impl.hpp:152-155 | `ul.x + width() == lr.x` |
| FontImpl.FBox.Height | src/font_impl.hpp:158-161 | `lr.y + height() == ul.y` |
| FontImpl.Div64 | src/font.cpp:329-335 | `/ 64` truncates toward zero: the remainder has the sign of the dividend and magnitude below 64 |
| FontImpl.Div64Odd | src/font.cpp:329-335 | `(-v) / 64 == -(v / 64)`, unlike floor division |
| FontImpl.Div64Monotone | src/font.cpp:329-335 | `/ 64` is monotone |
| FontImpl.CellCoversFace | src/font.cpp:327-332 | the cell box encloses the scaled face box with at least one pixel to spare on each side, and is at least 4 px wide and high |
| Atlas.TexRow | src/font.cpp:510 | the grid row `(code_pt >> 4) & 0xF` is below 16 |
| Atlas.TexCol | src/font.cpp:511 | the grid column `code_pt & 0xF` is below 16 |
| Atlas.PageGrid | src/font.cpp:510-511 | code point `i` of a page sits in row `i / 16` and column `i % 16` |
| Atlas.CharInfoFor | src/font.cpp:514-533 | a glyph that fails to load keeps the zero `Char_info`; otherwise the origin, the box (bitmap width and rows), the advance and the glyph index are set from the rendered slot |
| Atlas.BuildPage | src/font.cpp:499-548 | a page has 256 `Char_info`s, one per code point of the page, and a `tex_height` x `tex_width` texture equal to the texels left by the copy loops |
| Atlas.InCellsFit | src/font.cpp:542-545 | if every glyph stays inside its cell, then every write of the copy loop lands inside the texture |
| Atlas.CoveredInCell | src/font.cpp:542-543 | every texel a glyph writes lies inside that glyph's grid cell |
| Atlas.CellsDisjoint | src/font.cpp:542-545 | two different glyphs of a page never write the same texel |
| Atlas.TexelSettled | src/font.cpp:508-548 | once a glyph has written a texel, later glyphs leave it alone |
| Atlas.GlyphLandsInAtlas | src/font.cpp:537-546 | in the finished texture, bitmap pixel (x, y) of every loaded glyph appears at (`tbl_img_x`, `tbl_img_y`) |
| Atlas.UncoveredIsZero | src/font.cpp:503 | a texel that no glyph covers keeps its initial zero |
| Layout.Kerned | src/font.cpp:612-621 | kerning moves the pen, x by `+kerning.x / 64` and y by `-kerning.y / 64`, only when the font has kerning and both glyph indices are non-zero; otherwise the pen is unchanged |
| Layout.WalkStepEffect | src/font.cpp:587-674 | a newline returns the pen to x = 0 one line lower and forgets the previous glyph; any other code point draws its glyph at the kerned pen, then advances by `advance / 64` |
| Layout.WalkPlacesNonNewlines | src/font.cpp:587-674 | the text draws exactly its non-newline code points, in order, each with the `Char_info` of its page |
| Layout.QuadVerts | src/font.cpp:631-662 | every glyph contributes exactly twelve `Vec2`s, that is six interleaved vertices |
| Layout.QuadShape | src/font.cpp:627-662 | the six vertices are two triangles: (ul.x, lr.y), (lr.x, lr.y), (ul.x, ul.y), then the same (ul.x, ul.y) and (lr.x, lr.y), and (lr.x, ul.y). Each texture coordinate is its screen coordinate shifted by the glyph's texture origin minus the pen |
| Layout.TexCoordsMatchAtlas | src/font.cpp:627-628 | the quad's texture corners are exactly where `load_page` copied that glyph's bitmap |
| Layout.PageVerts | src/font.cpp:631-662 | a page's vertex list has a multiple of twelve `Vec2`s |
| Layout.GlyphAppendsQuad | src/font.cpp:631-662 | drawing a glyph appends its quad to its page's list, creating the list if absent, and touches no other page |
| Layout.VertsByPageShape | src/font.cpp:631-662 | `screen_and_tex_coords` has exactly the pages of the drawn glyphs as keys, each list of even length |
| Layout.NoGlyphsNoVerts | src/font.cpp:599-662 | a page with no drawn glyph has no vertices |
| Layout.Ranges | src/font.cpp:682-692 | one `Coord_data` per page, in iteration order |
| Layout.ConcatEven | src/font.cpp:689-691 | the flattened buffer always holds whole vertices |
| Layout.ConcatPrefix | src/font.cpp:689-691 | flattening the first k pages gives a prefix of flattening all of them |
| Layout.RangeAt | src/font.cpp:682-692 | range k names the k-th page, starts at half the length of the buffer built so far, and selects exactly that page's list |
| Layout.RangesPartition | src/font.cpp:682-692 | every range names its page and covers exactly that page's vertices in the flattened buffer |
| Layout.TotalIsTwelvePerGlyph | src/font.cpp:631-662 | summed over all pages used, the vertex lists hold twelve `Vec2`s per drawn glyph |
| Layout.ConcatIsTotal | src/font.cpp:682-692 | the flattened buffer is as long as the listed pages' lists together |
| Layout.VertexCount | src/font.cpp:631-691 | the flattened buffer holds twelve `Vec2`s per drawn glyph, whatever the page order |
| Layout.AsWrittenIsFloored | src/font.cpp:580-583 | for every text, the box started from `FLT_MIN` is the box started from `-FLT_MAX` with its lower-right corner raised to at least `FLT_MIN` |
| Layout.AsWrittenBox | src/font.cpp:580-668 | for text with glyphs, the box `build_text` returns bounds every quad and its upper-left edges are edges of quads. Each lower-right coordinate is at least `FLT_MIN` and is either `FLT_MIN` or an edge of some quad |
| Layout.BoxIsUnion | src/font.cpp:665-668 | starting from (`FLT_MAX`, `-FLT_MAX`), the box of a non-empty text bounds every quad, and each of its four edges is an edge of some quad |
| Layout.NoGlyphsKeepSentinels | src/font.cpp:580-596 | a text of newlines only draws nothing and returns the initial box unchanged |
| Layout.SentinelClampsBox | src/font.cpp:582-583 | with the sentinel as written, the box of a glyph lying wholly above the baseline has its lower edge at `FLT_MIN` instead of the glyph's bottom; with `-FLT_MAX` it is the glyph's bottom |
| Render.StartOffset | src/font.cpp:383-416 | per selector: baseline gives 0, left/top give `ul`, right/bottom give `lr`, and centre gives the box midpoint |
| Render.DefaultIsBaseline | include/textogl/font.hpp:92 | the default `align_flags = 0` puts the baseline origin at `pos` for any box |
| Render.AlignmentPerAxis | src/font.cpp:386-416 | OR-ing a horizontal and a vertical flag aligns each axis as its flag alone would |
| Render.UnrotatedTranslates | src/font.cpp:418-429 | with rotation 0, the matrix maps text point `p` to the device coordinates of window point `pos + p - start_offset` |
| Render.AnchorLandsOnPos | src/font.cpp:418-429 | with rotation 0, the selected point of the text box lands exactly on `pos` |
| Render.UnrotatedIsTranslation | src/font.cpp:418-429 | with rotation 0, the whole text is moved rigidly by `pos - start_offset` |
| FontSystem.CopyGlyph | src/font.cpp:537-546 | the two copy loops write each bitmap pixel to its texel in the glyph's cell and leave every other texel as it was |
| FontSystem.LoadGlyph | src/font.cpp:508-547 | one iteration of the code-point loop extends "`char_info` and `tex_data` are as built for the code points visited so far" to the next code point |
| FontSystem.RasterisePage | src/font.cpp:503-548 | a fresh zeroed texture and `Char_info` table, after the loop, hold the page's texels and `Char_info` for all 256 code points |
| FontSystem.AppendPage | src/font.cpp:684-691 | appending a page appends its list to the buffer and adds the range that starts at half the old size and spans half the list |
| FontSystem.Flatten | src/font.cpp:678-692 | the page loop visits each page exactly once, in some order; the buffer is the lists concatenated in that order and each `Coord_data` covers its page's list |
| FontSystem.KernPen | src/font.cpp:612-621 | the kerning branch moves the pen as `Kerned` specifies, and a failed `FT_Get_Kerning` counts as zero |
| FontSystem.PushQuad | src/font.cpp:623-662 | the twelve `push_back`s append exactly the glyph's quad to its page's list |
| FontSystem.NewlineStep | src/font.cpp:590-596 | the newline branch keeps the loop invariant that the state is the specification's walk, lists and box over the text read so far |
| FontSystem.GlyphStep | src/font.cpp:598-674 | the glyph branch keeps the same loop invariant |
| FontSystem.DrawGlyph | src/font.cpp:611-672 | kerns, appends the quad to the glyph's page and expands the box, then advances the pen |
| FontSystem.FontSys.Init | src/font.cpp:172-205 | a face opened with its charmap selected has no pages yet, and every cached page is valid |
| FontSystem.Open | src/font.cpp:172-222 | a font exists exactly when FreeType accepts the size. It then has the size, cell box, line height, texture size and kerning flag `resize` sets, and no pages |
| FontSystem.FontSys.Resize | src/font.cpp:321-343 | on FreeType failure nothing changes. Otherwise the cell box is the scaled face box padded by 2 px, the line height is `height / 64`, the texture is 16 cells by 16, the kerning flag is the face's, and the page cache is emptied |
| FontSystem.FontSys.LoadPage | src/font.cpp:496-565 | builds the page for the current size and adds it to the cache, which stays valid |
| FontSystem.FontSys.GlyphInfo | src/font.cpp:598-609 | the `Char_info` read is the code point's; its page is loaded if missing and no other page is added |
| FontSystem.FontSys.LayOutCodePoint | src/font.cpp:587-675 | one loop iteration keeps the loop invariant, and adds the code point's page (unless it is a newline) to both the cache and the pages used |
| FontSystem.FontSys.LayOutText | src/font.cpp:573-675 | the loop over the code points, started from pen (0, 0) and the sentinels as written, ends with the page lists and box of the whole walk. The page cache gains exactly the pages of the glyphs, and the font keeps its size |
| FontSystem.FontSys.BuildText | src/font.cpp:571-695 | returns the buffer and ranges of the text's quads flattened over its pages in some order, and the box grown from the sentinels as written (`FLT_MAX`, `FLT_MIN`). The page cache gains exactly the pages used, and the font keeps its size |
| StaticTextModule.DrawCoversPage | src/font.cpp:483-488 | draw range k of a built text is a page used and selects, within the buffer, exactly that page's quads |
| StaticTextModule.BuiltDrawsEachPage | src/static_text.cpp:236-249 | the uploaded buffer holds six vertices per glyph; every page used is drawn exactly once, and each draw covers exactly that page's quads |
| StaticTextModule.StaticText.constructor | src/static_text.cpp:111-132 | stores the font, the text and the GL names, then builds: the cache is current, and the font's page cache gains exactly the pages the text uses |
| StaticTextModule.StaticText.Rebuild | src/static_text.cpp:232-254 | the ranges, the box and the buffer's contents become those `build_text` gives for the text with the current font. The font keeps its size and its page cache gains exactly the pages the text uses |
| StaticTextModule.StaticText.SetText | src/static_text.cpp:193-197 | the new text is stored and the cache is rebuilt for it; the font's page cache gains exactly the pages the new text uses |
| StaticTextModule.StaticText.SetFontSys | src/static_text.cpp:183-187 | the new font is stored and the cache is rebuilt with it; the new font's page cache gains exactly the pages the text uses |
| StaticTextModule.StaticText.RenderTextMat | src/static_text.cpp:223-230 | the cached ranges are drawn in order, each over exactly its page's quads |
| StaticTextModule.StaticText.RenderText | src/static_text.cpp:209-217 | the matrix places the selected anchor of the cached box at `pos`, and the ranges are drawn as by `RenderTextMat` |
| StaticTextModule.StaticText.Move | src/static_text.cpp:143-157 | takes over the font, the text, the GL names, the ranges and the box. The source keeps its text and box, has its ranges moved out, and gets GL names 0 |
| StaticTextModule.StaticText.MoveAssign | src/static_text.cpp:158-177 | as `Move` for another object; self-assignment changes nothing |

## Left out

- OpenGL: generating, binding and deleting vertex arrays, buffers and textures, uploads, shader uniforms and blending. A page's `tex` name is not modelled. `vboData` stands for the buffer contents `glBufferData` receives, and a draw is the `Coord_data` passed to `glDrawArrays`.
- The destructors' clean-up is GL-side and is not modelled. `~Impl` passes the page number, not the page's texture name, to `glDeleteTextures`.
- FreeType internals: the face is a set of functions. `FT_MulFix` scaling is folded into the metrics the size call returns. Opening the face and selecting the charmap (with their exceptions) happen before `Init`. `Open` is `Init` followed by `Resize`.
- Reference counting of the shared FreeType library and shader (`Font_common`, src/font_common.cpp), and the `std::cerr` diagnostics.
- `Font_sys` move operations, `Font_sys::render_text` and `Font_sys::render_text_mat`. These are `build_text` followed by the same draw loop, through the font's own buffer.
- RenderText (StaticTextModule.StaticText): only rotation 0 is modelled. `render_text_rotate` needs `cos` and `sin`, which are not available over the reals. `Mvp` takes them as parameters, but the rotated matrix is left unproved.
- RenderText (StaticTextModule.StaticText): its `ensures` states the matrix and where the anchor lands. That every other point moves with the anchor is the separate lemma `Render.UnrotatedIsTranslation`.
- RenderTextMat (StaticTextModule.StaticText): requires the cache to be current with the font's size, as the source's documentation demands after `resize`. A stale draw, and the `_page_map[cd.page_no]` lookup that would then insert an empty page, are not modelled.
- Floating point: pen positions and quad corners are exact integers. The box and the matrix are exact reals, with `FLT_MAX` and `FLT_MIN` as exact constants. Float rounding of large coordinates is not modelled.
- Texture coordinates are kept as integer numerators. The division by `tex_width` and `tex_height` is left to the reader of the buffer.
- Integer widths: code points, glyph indices, `size_t` and `long` are unbounded. `Utf8.DecodeBounded` shows decoded values never exceed 0x13FFFF, so the `uint32_t` shifts of the decoder never overflow.
- BuildText (FontSystem.FontSys): requires every glyph of every page the text needs to lie inside the texture at its own row and column (`TextFits`, `Atlas.PageFits`). The source writes through the flat index `tbl_img_y * _tex_width + tbl_img_x`. A glyph that spills past the left or right edge of the texture therefore lands, defined, in the neighbouring texture row, unless it leaves `tex_data` altogether. That wrap-around is not modelled, so the requires is stronger than the source's. The same holds for LoadPage and `StaticText`'s constructor, `Rebuild`, `SetText` and `SetFontSys`.
- RenderText (StaticTextModule.StaticText): requires a non-zero window width and height, as `Render.Mvp` does. The source accepts a zero size, for example a minimised window, and divides by it, giving an infinite or NaN matrix. That case is not modelled.
- LoadPage (FontSystem.FontSys): requires the page to be absent, as the source's own comment demands.
- The glyph bitmap is a function `pixel(x, y)`. Its pitch and pixel mode (assumed grey in the source) are not modelled.

## Findings

| source | as written | input that shows it | evidently intended | confidence | as-written member | corrected member |
|---|---|---|---|---|---|---|
| src/font.cpp:582-583 | `font_box.lr` starts at `std::numeric_limits<float>::min()`, the smallest positive float, so `std::max` never lets the lower-right corner go below about 0 | the text `'` in a font whose apostrophe quad spans screen rows -10 to -6: the box's lower edge comes out as `FLT_MIN`, not -6, so bottom or vertical-centre alignment is off | start `lr` at the lowest float, `-FLT_MAX` (`std::numeric_limits<float>::lowest()`), so that the box is the union of the quads | not executed | Layout.AsWrittenBox | Layout.BoxIsUnion |

`FontSystem.FontSys.BuildText`, and with it `Static_text`, computes the box
as written. For every text, `Layout.AsWrittenIsFloored` relates it to the
intended box `Layout.InitialBox`, and `Layout.SentinelClampsBox` exhibits the
apostrophe input.
