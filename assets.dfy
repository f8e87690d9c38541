/** The compiled-in asset records the renderer reads: glyph and sprite
    descriptors and the tables they index (generated by the two asset scripts). */
module Assets {
  import opened Bytes

  /** `struct Glyph { uint8_t width; uint8_t height; uint16_t offset; }`:
      offset counts 32-bit words in the glyph bitmap table. */
  datatype Glyph = Glyph(width: U8, height: U8, offset: U16)

  /** `struct Sprite { uint8_t width; uint8_t height; uint16_t offset; }`:
      offset counts bytes in the sprite pixel table. */
  datatype Sprite = Sprite(width: U8, height: U8, offset: U16)

  /** The font tables: the character range [first, last], one descriptor per
      character, and the shared bitmap words. */
  datatype Font = Font(first: U8, last: U8, glyphs: seq<Glyph>, data: seq<U32>)

  /** Bitmap words per glyph row: the glyph loop steps `x` by 32 up to `width`. */
  function WordsPerRow(g: Glyph): nat { (g.width + 31) / 32 }

  /** Sprite bytes per row: the sprite loop steps `x` by 2 up to `width`. */
  function BytesPerRow(s: Sprite): nat { (s.width + 1) / 2 }

  ghost predicate GlyphFits(g: Glyph, words: nat) {
    g.offset + g.height * WordsPerRow(g) <= words
  }

  /** A font whose descriptor table covers exactly [first, last] and whose
      glyph bitmaps lie inside the word table. */
  ghost predicate ValidFont(f: Font) {
    && f.first <= f.last
    && |f.glyphs| == f.last - f.first + 1
    && forall i :: 0 <= i < |f.glyphs| ==> GlyphFits(f.glyphs[i], |f.data|)
  }

  ghost predicate ValidSprite(s: Sprite, data: seq<U8>) {
    s.offset + s.height * BytesPerRow(s) <= |data|
  }

  predicate InGlyphRange(f: Font, c: U8) {
    f.first <= c <= f.last
  }

  function GlyphOf(f: Font, c: U8): (g: Glyph)
    requires ValidFont(f) && InGlyphRange(f, c)
    ensures GlyphFits(g, |f.data|)
  {
    f.glyphs[c - f.first]
  }
}
