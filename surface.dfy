/** The paletted backbuffer as a value: 192x128 supersampled pixels at 4 bits
    per pixel, two pixels per byte (even x in the low nibble, odd x in the high
    nibble), 96 bytes per row, 12288 bytes in all. This module states, as pure
    functions on the buffer contents, what each RainbowFX operation computes,
    and proves the properties of those functions. */
module Surface {
  import opened Bytes
  import opened Assets

  const DisplayWidth: nat := 96
  const DisplayHeight: nat := 64
  const SuperSampling: nat := 2
  const Width: nat := 192
  const Height: nat := 128
  const RowBytes: nat := 96
  const BufferBytes: nat := 12288

  /** The surface is the display supersampled twice in each direction, at
      four bits per pixel. */
  lemma Dimensions()
    ensures Width == DisplayWidth * SuperSampling && Height == DisplayHeight * SuperSampling
    ensures RowBytes == Width * 4 / 8 && BufferBytes == Width * Height * 4 / 8
  {
  }

  /** The byte address `(y * Width + x) / 2` of pixel (x, y), x >= 0, and of
      pixel (x, 2y). */
  lemma PixelAddress(y: int, x: int)
    requires x >= 0
    ensures (y * Width + x) / 2 == y * RowBytes + x / 2
    ensures (2 * y * Width + x) / 2 == y * 2 * RowBytes + x / 2
  {
    DivModUnique(y * Width + x, 2, y * RowBytes + x / 2, x % 2);
    DivModUnique(2 * y * Width + x, 2, y * 2 * RowBytes + x / 2, x % 2);
  }

  predicate AllZero(s: seq<U8>) {
    forall i :: 0 <= i < |s| ==> s[i] == 0
  }

  // ---------------------------------------------------------------- Fade

  /** Saturating decrement of one pixel. */
  function Dim(n: Nibble): Nibble { if n > 0 then n - 1 else 0 }

  /** One byte of `Fade`: the two masked halves are decremented separately,
      so neither half borrows from the other. */
  function FadeByte(pair: U8): (r: U8)
    ensures Lo(r) == Dim(Lo(pair)) && Hi(r) == Dim(Hi(pair))
  {
    var p0 := pair % 0x10;
    var p1 := pair - pair % 0x10;
    (if p0 != 0 then p0 - 0x01 else p0) + (if p1 != 0 then p1 - 0x10 else p1)
  }

  function FadeAll(s: seq<U8>): (r: seq<U8>)
    ensures |r| == |s|
  {
    seq(|s|, i requires 0 <= i < |s| => FadeByte(s[i]))
  }

  /** `n` consecutive calls of `Fade`. */
  function FadeN(s: seq<U8>, n: nat): (r: seq<U8>)
    ensures |r| == |s|
  {
    if n == 0 then s else FadeAll(FadeN(s, n - 1))
  }

  /** An all-zero buffer is a fixed point of `Fade`. */
  lemma FadeOfZeroIsZero(s: seq<U8>)
    requires AllZero(s)
    ensures FadeAll(s) == s
  {
    forall i | 0 <= i < |s| ensures FadeAll(s)[i] == s[i] {
      NibblesDetermineByte(FadeAll(s)[i], s[i]);
    }
  }

  /** After `n` fades each pixel has dropped by `n`, but never below zero. */
  lemma {:induction false} FadeNPixels(s: seq<U8>, n: nat, i: nat)
    requires i < |s|
    ensures Lo(FadeN(s, n)[i]) == if Lo(s[i]) >= n then Lo(s[i]) - n else 0
    ensures Hi(FadeN(s, n)[i]) == if Hi(s[i]) >= n then Hi(s[i]) - n else 0
  {
    if n > 0 {
      FadeNPixels(s, n - 1, i);
    }
  }

  /** Fifteen fades clear any buffer, whatever it held. */
  lemma FadeFifteenClears(s: seq<U8>, n: nat)
    requires n >= 15
    ensures AllZero(FadeN(s, n))
  {
    forall i | 0 <= i < |s| ensures FadeN(s, n)[i] == 0 {
      FadeNPixels(s, n, i);
      NibblesDetermineByte(FadeN(s, n)[i], 0);
    }
  }

  /** Fourteen fades do not always suffice: a full-intensity pixel is left at 1. */
  lemma FadeFourteenLeavesFullPixelLit(s: seq<U8>)
    requires |s| > 0 && s[0] == 0xff
    ensures Lo(FadeN(s, 14)[0]) == 1 && Hi(FadeN(s, 14)[0]) == 1
  {
    FadeNPixels(s, 14, 0);
  }

  // ---------------------------------------------------------------- Move

  /** How many rows `Move(delta)` shifts by: |delta| clamped to Height - 1. */
  function MoveRows(delta: int): (d: nat)
    requires -0x8000 < delta < 0x8000
    ensures d < Height
    ensures d == if Abs(delta) >= Height then Height - 1 else Abs(delta)
  {
    if delta > 0 then (if delta >= Height then Height - 1 else delta)
    else (if -delta >= Height then Height - 1 else -delta)
  }

  /** The buffer after `Move(delta)`. For delta > 0 the rows from `d` on move up
      to row 0 and the last `d` rows keep their old bytes; for delta <= 0 the
      rows from 0 move down to row `d` and the first `d` rows keep their old
      bytes (the copy reads every source byte before it is overwritten). */
  function Moved(s: seq<U8>, delta: int): (r: seq<U8>)
    requires |s| == BufferBytes && -0x8000 < delta < 0x8000
    ensures |r| == BufferBytes
  {
    var off := MoveRows(delta) * RowBytes;
    if delta > 0 then
      seq(BufferBytes, i requires 0 <= i < BufferBytes => if i < BufferBytes - off then s[i + off] else s[i])
    else
      seq(BufferBytes, i requires 0 <= i < BufferBytes => if i >= off then s[i - off] else s[i])
  }

  /** `Move(0)` changes nothing. */
  lemma MoveZeroIsIdentity(s: seq<U8>)
    requires |s| == BufferBytes
    ensures Moved(s, 0) == s
  {
  }

  /** Row `y` of the result is row `y + d` (delta > 0) or `y - d` (delta < 0)
      of the original, and the vacated rows are left stale. */
  lemma MovedRows(s: seq<U8>, delta: int, y: nat, x: nat)
    requires |s| == BufferBytes && -0x8000 < delta < 0x8000
    requires y < Height && x < RowBytes
    ensures var d := MoveRows(delta);
      && (delta > 0 && y + d < Height ==> Moved(s, delta)[y * RowBytes + x] == s[(y + d) * RowBytes + x])
      && (delta > 0 && y + d >= Height ==> Moved(s, delta)[y * RowBytes + x] == s[y * RowBytes + x])
      && (delta <= 0 && y >= d ==> Moved(s, delta)[y * RowBytes + x] == s[(y - d) * RowBytes + x])
      && (delta <= 0 && y < d ==> Moved(s, delta)[y * RowBytes + x] == s[y * RowBytes + x])
  {
  }

  /** Scrolling up and then down by the same amount restores every row from
      `d` on: the content survives a round trip except the top `d` rows. */
  lemma MoveRoundTrip(s: seq<U8>, delta: int, i: nat)
    requires |s| == BufferBytes && 0 < delta < Height
    requires delta * RowBytes <= i < BufferBytes
    ensures Moved(Moved(s, delta), -delta)[i] == s[i]
  {
    var t := Moved(s, delta);
    var off := delta * RowBytes;
    assert MoveRows(-delta) == delta;
    assert Moved(t, -delta)[i] == t[i - off];
    assert t[i - off] == s[i];
  }

  // ---------------------------------------------------------------- Glyphs

  /** `*dest |= 0x0f` */
  function LightLo(b: U8): (r: U8)
    ensures Lo(r) == 15 && Hi(r) == Hi(b)
  {
    Pack(0x0f, Hi(b))
  }

  /** `*dest |= 0xf0` */
  function LightHi(b: U8): (r: U8)
    ensures Lo(r) == Lo(b) && Hi(r) == 15
  {
    Pack(Lo(b), 0x0f)
  }

  /** The byte one step of the glyph loop leaves behind: pixel pair `j` of a
      32-pixel word is read from bits 31 - 2j (even pixel) and 30 - 2j (odd). */
  function GlyphPair(b: U8, word: U32, j: nat): (r: U8)
    requires j < 16
    ensures Lo(r) == if Bit(word, 31 - 2 * j) then 15 else Lo(b)
    ensures Hi(r) == if Bit(word, 30 - 2 * j) then 15 else Hi(b)
  {
    var lit := if Bit(word, 31 - 2 * j) then LightLo(b) else b;
    if Bit(word, 30 - 2 * j) then LightHi(lit) else lit
  }

  /** A glyph drawn at (x, y) must lie inside the surface: rows y .. y+height-1
      and bytes x/2 .. x/2 + 16*words-1 of each row (the loop writes 16 bytes
      per bitmap word, whatever the glyph's width). */
  ghost predicate GlyphInSurface(g: Glyph, x: int, y: int) {
    && 0 <= x && 0 <= y
    && x / 2 + 16 * WordsPerRow(g) <= RowBytes
    && y + g.height <= Height
  }

  /** Byte `i` lies in the rectangle the glyph writes. */
  predicate InGlyphBox(g: Glyph, x: int, y: int, i: int) {
    && 0 <= i / RowBytes - y < g.height
    && 0 <= i % RowBytes - x / 2 < 16 * WordsPerRow(g)
  }

  /** The bitmap word that covers glyph row `r`, word `k`. */
  function GlyphWord(f: Font, g: Glyph, r: nat, k: nat): U32
    requires GlyphFits(g, |f.data|) && r < g.height && k < WordsPerRow(g)
  {
    assert r * WordsPerRow(g) + k < g.height * WordsPerRow(g) by {
      assert (r + 1) * WordsPerRow(g) <= g.height * WordsPerRow(g);
    }
    f.data[g.offset + r * WordsPerRow(g) + k]
  }

  /** Byte `i` of the glyph rectangle has been drawn once the loops have
      finished rows 0 .. r0-1 and the first c0 bytes of row r0. */
  predicate GlyphDone(g: Glyph, x: int, y: int, i: int, r0: nat, c0: nat) {
    && InGlyphBox(g, x, y, i)
    && (i / RowBytes - y < r0 || (i / RowBytes - y == r0 && i % RowBytes - x / 2 < c0))
  }

  /** The buffer part-way through `DrawGlyph`: drawn bytes have their lit
      pixels set to 15, all others still hold their old value. */
  function GlyphProgress(f: Font, g: Glyph, x: int, y: int, s: seq<U8>, r0: nat, c0: nat): (r: seq<U8>)
    requires |s| == BufferBytes && GlyphFits(g, |f.data|) && GlyphInSurface(g, x, y)
    ensures |r| == BufferBytes
  {
    seq(BufferBytes, i requires 0 <= i < BufferBytes =>
      if GlyphDone(g, x, y, i, r0, c0) then
        var c := i % RowBytes - x / 2;
        GlyphPair(s[i], GlyphWord(f, g, i / RowBytes - y, c / 16), c % 16)
      else s[i])
  }

  /** The buffer after drawing glyph `g` at (x, y): every byte in the glyph's
      rectangle has its lit pixels set to 15, every other byte is unchanged. */
  function GlyphDrawn(f: Font, g: Glyph, x: int, y: int, s: seq<U8>): (r: seq<U8>)
    requires |s| == BufferBytes && GlyphFits(g, |f.data|) && GlyphInSurface(g, x, y)
    ensures |r| == BufferBytes
  {
    GlyphProgress(f, g, x, y, s, g.height, 0)
  }

  lemma GlyphProgressStart(f: Font, g: Glyph, x: int, y: int, s: seq<U8>)
    requires |s| == BufferBytes && GlyphFits(g, |f.data|) && GlyphInSurface(g, x, y)
    ensures GlyphProgress(f, g, x, y, s, 0, 0) == s
  {
  }

  lemma GlyphProgressRowEnd(f: Font, g: Glyph, x: int, y: int, s: seq<U8>, r0: nat)
    requires |s| == BufferBytes && GlyphFits(g, |f.data|) && GlyphInSurface(g, x, y)
    ensures GlyphProgress(f, g, x, y, s, r0, 16 * WordsPerRow(g)) == GlyphProgress(f, g, x, y, s, r0 + 1, 0)
  {
  }

  /** One step of the inner loop: byte c0 of row r0 sits at `dest`, still
      holds its old value, and is the only byte the step changes. */
  lemma GlyphProgressStep(f: Font, g: Glyph, x: int, y: int, s: seq<U8>, r0: nat, c0: nat)
    requires |s| == BufferBytes && GlyphFits(g, |f.data|) && GlyphInSurface(g, x, y)
    requires r0 < g.height && c0 < 16 * WordsPerRow(g)
    ensures var dest := (y + r0) * RowBytes + x / 2 + c0;
      var t := GlyphProgress(f, g, x, y, s, r0, c0);
      && 0 <= dest < BufferBytes
      && t[dest] == s[dest]
      && GlyphProgress(f, g, x, y, s, r0, c0 + 1)
         == t[dest := GlyphPair(s[dest], GlyphWord(f, g, r0, c0 / 16), c0 % 16)]
  {
    var dest := (y + r0) * RowBytes + x / 2 + c0;
    var t := GlyphProgress(f, g, x, y, s, r0, c0);
    var u := GlyphProgress(f, g, x, y, s, r0, c0 + 1);
    GlyphStepByte(f, g, x, y, s, r0, c0, dest);
    forall i | 0 <= i < BufferBytes
      ensures u[i] == t[dest := GlyphPair(s[dest], GlyphWord(f, g, r0, c0 / 16), c0 % 16)][i]
    {
      GlyphStepByte(f, g, x, y, s, r0, c0, i);
    }
  }

  /** `GlyphProgressStep` at one byte `i`. */
  lemma GlyphStepByte(f: Font, g: Glyph, x: int, y: int, s: seq<U8>, r0: nat, c0: nat, i: nat)
    requires |s| == BufferBytes && GlyphFits(g, |f.data|) && GlyphInSurface(g, x, y)
    requires r0 < g.height && c0 < 16 * WordsPerRow(g) && i < BufferBytes
    ensures var dest := (y + r0) * RowBytes + x / 2 + c0;
      && 0 <= dest < BufferBytes
      && GlyphProgress(f, g, x, y, s, r0, c0)[dest] == s[dest]
      && GlyphProgress(f, g, x, y, s, r0, c0 + 1)[i]
         == if i == dest then GlyphPair(s[dest], GlyphWord(f, g, r0, c0 / 16), c0 % 16)
            else GlyphProgress(f, g, x, y, s, r0, c0)[i]
  {
    var dest := (y + r0) * RowBytes + x / 2 + c0;
    assert 0 <= dest < BufferBytes && dest / RowBytes - y == r0 && dest % RowBytes - x / 2 == c0 by {
      RowColumn(y + r0, x / 2 + c0);
      MulLe(y + r0 + 1, Height, RowBytes);
    }
    assert !GlyphDone(g, x, y, dest, r0, c0) && GlyphDone(g, x, y, dest, r0, c0 + 1);
    if i != dest {
      assert GlyphDone(g, x, y, i, r0, c0 + 1) == GlyphDone(g, x, y, i, r0, c0) by {
        DivModUnique(i, RowBytes, i / RowBytes, i % RowBytes);
      }
    }
  }

  /** `GlyphProgressStep` for pair `j` of word `k` of row `r0`, the way the
      three nested loops of `DrawGlyph` count. */
  lemma GlyphStepAt(f: Font, g: Glyph, x: int, y: int, s: seq<U8>, r0: nat, k: nat, j: nat)
    requires |s| == BufferBytes && GlyphFits(g, |f.data|) && GlyphInSurface(g, x, y)
    requires r0 < g.height && k < WordsPerRow(g) && j < 16
    ensures var dest := (y + r0) * RowBytes + x / 2 + 16 * k + j;
      var t := GlyphProgress(f, g, x, y, s, r0, 16 * k + j);
      && 0 <= dest < BufferBytes
      && t[dest] == s[dest]
      && GlyphProgress(f, g, x, y, s, r0, 16 * k + (j + 1))
         == t[dest := GlyphPair(s[dest], GlyphWord(f, g, r0, k), j)]
  {
    var c := 16 * k + j;
    assert c / 16 == k && c % 16 == j;
    GlyphProgressStep(f, g, x, y, s, r0, c);
  }

  /** Drawing a glyph only ever sets pixels to 15: no pixel gets darker, and a
      pixel that changes becomes 15. */
  lemma GlyphNeverDarkens(f: Font, g: Glyph, x: int, y: int, s: seq<U8>, i: nat)
    requires |s| == BufferBytes && GlyphFits(g, |f.data|) && GlyphInSurface(g, x, y)
    requires i < BufferBytes
    ensures var t := GlyphDrawn(f, g, x, y, s);
      && Lo(t[i]) >= Lo(s[i]) && Hi(t[i]) >= Hi(s[i])
      && (Lo(t[i]) == Lo(s[i]) || Lo(t[i]) == 15)
      && (Hi(t[i]) == Hi(s[i]) || Hi(t[i]) == 15)
  {
  }

  lemma RowColumn(r: int, c: int)
    requires 0 <= c < RowBytes
    ensures (r * RowBytes + c) / RowBytes == r && (r * RowBytes + c) % RowBytes == c
  {
  }

  /** Glyph pixel (px, py) lands in byte (y+py)*96 + x/2 + px/2 of the surface,
      in the low nibble for even px and the high nibble for odd px, and is lit
      exactly when bit 31 - px%32 of the row's word px/32 is set. */
  lemma GlyphPixel(f: Font, g: Glyph, x: int, y: int, s: seq<U8>, px: nat, py: nat)
    requires |s| == BufferBytes && GlyphFits(g, |f.data|) && GlyphInSurface(g, x, y)
    requires py < g.height && px < 32 * WordsPerRow(g)
    ensures var i := (y + py) * RowBytes + x / 2 + px / 2;
      var t := GlyphDrawn(f, g, x, y, s);
      var lit := Bit(GlyphWord(f, g, py, px / 32), 31 - px % 32);
      && 0 <= i < BufferBytes
      && (px % 2 == 0 ==> Lo(t[i]) == if lit then 15 else Lo(s[i]))
      && (px % 2 == 1 ==> Hi(t[i]) == if lit then 15 else Hi(s[i]))
  {
    var i := (y + py) * RowBytes + x / 2 + px / 2;
    var c := x / 2 + px / 2;
    RowColumn(y + py, c);
    assert (y + py + 1) * RowBytes <= Height * RowBytes;
    assert InGlyphBox(g, x, y, i);
    assert (px / 2) / 16 == px / 32 && (px / 2) % 16 == (px % 32) / 2;
  }

  // ---------------------------------------------------------------- Sprites

  /** Vertical clipping of a sprite drawn at row `posY`: how many source
      bytes are skipped, the first target row, and how many rows are drawn
      (negative: nothing is drawn). In 2x mode rows count pairs of surface
      rows, so the limit is Height / 2. */
  datatype Clip = Clip(skip: nat, top: nat, rows: int)

  /** Every drawn row lies in the surface, and every source byte read lies in
      the sprite's own pixels: a sprite moved up by `-posY` rows starts
      reading at its row `-posY`, and a sprite that would run past the bottom
      is cut at the last row. */
  function ClipSprite(s: Sprite, posY: int, scale2x: bool): (c: Clip)
    ensures var limit := if scale2x then Height / 2 else Height;
      && (c.rows > 0 ==> c.top + c.rows <= limit)
      && c.rows <= s.height
      && (posY >= 0 ==> c.skip == 0 && c.top == posY)
      && (posY < 0 ==> c.skip == -posY * (s.width / 2) && c.top == 0)
      && (c.top + s.height + (if posY < 0 then posY else 0) <= limit ==> c.rows == s.height + (if posY < 0 then posY else 0))
      && (c.top + s.height + (if posY < 0 then posY else 0) > limit ==> c.rows == limit - c.top)
      && (c.rows > 0 ==> c.skip + c.rows * BytesPerRow(s) <= s.height * BytesPerRow(s))
  {
    var skip := if posY < 0 then -posY * (s.width / 2) else 0;
    var height := if posY < 0 then s.height + posY else s.height as int;
    var y := if posY < 0 then 0 else posY;
    var limit := if scale2x then Height / 2 else Height;
    var rows := if y + height > limit then limit - y else height;
    if rows > 0 then
      ClipArith(s, posY, skip, rows);
      Clip(skip, y, rows)
    else
      Clip(skip, y, rows)
  }

  lemma ClipArith(s: Sprite, posY: int, skip: nat, rows: int)
    requires 0 < rows <= s.height + (if posY < 0 then posY else 0)
    requires skip == if posY < 0 then -posY * (s.width / 2) else 0
    ensures skip + rows * BytesPerRow(s) <= s.height * BytesPerRow(s)
  {
    var n := BytesPerRow(s);
    if posY < 0 {
      MulLe(s.width / 2, n, -posY);
      MulLe(rows - posY, s.height, n);
      assert skip + rows * n <= (rows - posY) * n;
    } else {
      MulLe(rows, s.height, n);
    }
  }

  /** With blending, a zero source pixel keeps the destination pixel and a
      nonzero one replaces it, separately for both nibbles. */
  function BlendByte(dest: U8, src: U8): (r: U8)
    ensures Lo(r) == if Lo(src) != 0 then Lo(src) else Lo(dest)
    ensures Hi(r) == if Hi(src) != 0 then Hi(src) else Hi(dest)
  {
    // `p0 = src & 0x0f`, `p1 = src & 0xf0`; `(d & 0xf0) | p0` keeps the high
    // nibble of `d`, `(d & 0x0f) | p1` its low nibble.
    var d := if Lo(src) != 0 then Pack(Lo(src), Hi(dest)) else dest;
    if Hi(src) != 0 then Pack(Lo(d), Hi(src)) else d
  }

  /** One source byte combined with the destination byte it lands on. */
  function SpriteCombine(dest: U8, src: U8, blend: bool): U8 {
    if blend then BlendByte(dest, src) else src
  }

  /** The 2x replication step: `p0 |= p0 << 4` and `p1 |= p1 >> 4`. */
  function Widen(v: U8, high: bool): (r: U8)
    ensures Lo(r) == Hi(r)
    ensures Lo(r) == if high then Hi(v) else Lo(v)
  {
    if high then Pack(Hi(v), Hi(v)) else Pack(Lo(v), Lo(v))
  }

  /** The horizontal extent the caller must keep inside the row. */
  ghost predicate SpriteInRow(s: Sprite, x: int, scale2x: bool) {
    0 <= x && x / 2 + (if scale2x then 2 else 1) * BytesPerRow(s) <= RowBytes
  }

  /** Source byte `k` of drawn row `r`: the sprite's pixels start at
      `offset`, and clipping skips `skip` bytes of them. */
  function SourceByte(s: Sprite, data: seq<U8>, c: Clip, r: nat, k: nat): U8
    requires ValidSprite(s, data)
    requires c.rows > 0 && c.skip + c.rows * BytesPerRow(s) <= s.height * BytesPerRow(s)
    requires r < c.rows && k < BytesPerRow(s)
  {
    MulLe(r + 1, c.rows, BytesPerRow(s));
    data[s.offset + c.skip + r * BytesPerRow(s) + k]
  }

  /** Where `SourceByte` reads: the sprite-bits address after `skip` and
      `r` full rows stays inside the pixel table. */
  lemma SourceIndex(s: Sprite, data: seq<U8>, c: Clip, r: nat, k: nat)
    requires ValidSprite(s, data)
    requires c.rows > 0 && c.skip + c.rows * BytesPerRow(s) <= s.height * BytesPerRow(s)
    requires r < c.rows && k < BytesPerRow(s)
    ensures s.offset + c.skip + r * BytesPerRow(s) + k < |data|
    ensures SourceByte(s, data, c, r, k) == data[s.offset + c.skip + r * BytesPerRow(s) + k]
  {
    MulLe(r + 1, c.rows, BytesPerRow(s));
  }

  /** The first surface byte of drawn row `r` (1x: one surface row per
      sprite row; 2x: the upper row of a pair). */
  function SpriteRowBase(x: int, c: Clip, r: nat, scale2x: bool): int {
    if scale2x then (c.top + r) * 2 * RowBytes + x / 2 else (c.top + r) * RowBytes + x / 2
  }

  predicate InSpriteBox(s: Sprite, x: int, c: Clip, scale2x: bool, i: int) {
    if scale2x then
      0 <= i / (2 * RowBytes) - c.top < c.rows && 0 <= i % RowBytes - x / 2 < 2 * BytesPerRow(s)
    else
      0 <= i / RowBytes - c.top < c.rows && 0 <= i % RowBytes - x / 2 < BytesPerRow(s)
  }

  ghost predicate SpriteDrawable(s: Sprite, data: seq<U8>, x: int, posY: int, scale2x: bool) {
    ValidSprite(s, data) && SpriteInRow(s, x, scale2x)
  }

  /** The byte `DrawSprite` leaves at index `i` of the clipped rectangle:
      the combined source byte (2x: the widened low or high pixel of the
      combination with the byte at the top-left of its 2x2 block). */
  function SpriteByte(s: Sprite, data: seq<U8>, x: int, c: Clip, blend: bool, scale2x: bool, b: seq<U8>, i: int): U8
    requires |b| == BufferBytes && ValidSprite(s, data) && SpriteInRow(s, x, scale2x)
    requires c.rows > 0 && c.top + c.rows <= (if scale2x then Height / 2 else Height)
    requires c.skip + c.rows * BytesPerRow(s) <= s.height * BytesPerRow(s)
    requires 0 <= i < BufferBytes && InSpriteBox(s, x, c, scale2x, i)
  {
    if scale2x then
      ScaledByte(s, data, x, c, blend, b, SpriteRow(c, true, i), SpriteColumn(x, i))
    else
      var r := i / RowBytes - c.top;
      SpriteCombine(b[i], SourceByte(s, data, c, r, i % RowBytes - x / 2), blend)
  }

  /** The 2x byte at column `col` of the span of drawn row `r`: source byte
      `col / 2` combined with the byte at the top-left of its 2x2 block,
      widened to its low (even `col`) or high (odd `col`) pixel. */
  function ScaledByte(s: Sprite, data: seq<U8>, x: int, c: Clip, blend: bool, b: seq<U8>, r: nat, col: nat): U8
    requires |b| == BufferBytes && ValidSprite(s, data) && SpriteInRow(s, x, true)
    requires c.rows > 0 && c.top + c.rows <= Height / 2
    requires c.skip + c.rows * BytesPerRow(s) <= s.height * BytesPerRow(s)
    requires r < c.rows && col < 2 * BytesPerRow(s)
  {
    var k := col / 2;
    BlockBaseInBuffer(c, r, x, 2 * k);
    Widen(SpriteCombine(b[SpriteRowBase(x, c, r, true) + 2 * k], SourceByte(s, data, c, r, k), blend), col % 2 == 1)
  }

  lemma BlockBaseInBuffer(c: Clip, r: nat, x: int, col: nat)
    requires 0 <= x && x / 2 + col < RowBytes && c.top + r < Height / 2
    ensures 0 <= SpriteRowBase(x, c, r, true) + col < BufferBytes
  {
    assert (c.top + r + 1) * 2 * RowBytes <= Height * RowBytes;
  }

  /** The drawn row and the column within the sprite's span of byte `i`. */
  function SpriteRow(c: Clip, scale2x: bool, i: int): int {
    if scale2x then i / (2 * RowBytes) - c.top else i / RowBytes - c.top
  }

  function SpriteColumn(x: int, i: int): int { i % RowBytes - x / 2 }

  /** Byte `i` of the clipped rectangle has been written once the loops have
      finished rows 0 .. r0-1 and source bytes 0 .. k0-1 of row r0. */
  predicate SpriteDone(s: Sprite, x: int, c: Clip, scale2x: bool, i: int, r0: int, k0: nat) {
    && c.rows > 0 && InSpriteBox(s, x, c, scale2x, i)
    && (SpriteRow(c, scale2x, i) < r0
        || (SpriteRow(c, scale2x, i) == r0 && SpriteColumn(x, i) / (if scale2x then 2 else 1) < k0))
  }

  /** The buffer part-way through `DrawSprite`. */
  function SpriteProgress(s: Sprite, data: seq<U8>, x: int, posY: int, blend: bool, scale2x: bool, b: seq<U8>, r0: int, k0: nat): (r: seq<U8>)
    requires |b| == BufferBytes && SpriteDrawable(s, data, x, posY, scale2x)
    ensures |r| == BufferBytes
  {
    var c := ClipSprite(s, posY, scale2x);
    seq(BufferBytes, i requires 0 <= i < BufferBytes =>
      if SpriteDone(s, x, c, scale2x, i, r0, k0) then SpriteByte(s, data, x, c, blend, scale2x, b, i)
      else b[i])
  }

  /** The buffer after `DrawSprite`: each byte inside the clipped rectangle
      holds `SpriteByte`; every other byte is unchanged. */
  function SpriteDrawn(s: Sprite, data: seq<U8>, x: int, posY: int, blend: bool, scale2x: bool, b: seq<U8>): (r: seq<U8>)
    requires |b| == BufferBytes && SpriteDrawable(s, data, x, posY, scale2x)
    ensures |r| == BufferBytes
  {
    SpriteProgress(s, data, x, posY, blend, scale2x, b, ClipSprite(s, posY, scale2x).rows, 0)
  }

  lemma SpriteProgressStart(s: Sprite, data: seq<U8>, x: int, posY: int, blend: bool, scale2x: bool, b: seq<U8>)
    requires |b| == BufferBytes && SpriteDrawable(s, data, x, posY, scale2x)
    ensures SpriteProgress(s, data, x, posY, blend, scale2x, b, 0, 0) == b
  {
  }

  lemma SpriteProgressRowEnd(s: Sprite, data: seq<U8>, x: int, posY: int, blend: bool, scale2x: bool, b: seq<U8>, r0: int)
    requires |b| == BufferBytes && SpriteDrawable(s, data, x, posY, scale2x)
    ensures SpriteProgress(s, data, x, posY, blend, scale2x, b, r0, BytesPerRow(s))
         == SpriteProgress(s, data, x, posY, blend, scale2x, b, r0 + 1, 0)
  {
  }

  /** One step of the 1x inner loop: source byte k0 of row r0 lands on
      `dest`, which still holds its old value and is the only byte changed. */
  lemma SpriteProgressStep1x(s: Sprite, data: seq<U8>, x: int, posY: int, blend: bool, b: seq<U8>, r0: nat, k0: nat)
    requires |b| == BufferBytes && SpriteDrawable(s, data, x, posY, false)
    requires r0 < ClipSprite(s, posY, false).rows && k0 < BytesPerRow(s)
    ensures var c := ClipSprite(s, posY, false);
      var dest := (c.top + r0) * RowBytes + x / 2 + k0;
      var t := SpriteProgress(s, data, x, posY, blend, false, b, r0, k0);
      && 0 <= dest < BufferBytes
      && t[dest] == b[dest]
      && SpriteProgress(s, data, x, posY, blend, false, b, r0, k0 + 1)
         == t[dest := SpriteCombine(b[dest], SourceByte(s, data, c, r0, k0), blend)]
  {
    var c := ClipSprite(s, posY, false);
    var dest := (c.top + r0) * RowBytes + x / 2 + k0;
    RowColumn(c.top + r0, x / 2 + k0);
    assert dest < BufferBytes;
    forall i | 0 <= i < BufferBytes && i != dest
      ensures SpriteDone(s, x, c, false, i, r0, k0 + 1) == SpriteDone(s, x, c, false, i, r0, k0)
    {
      assert i == i / RowBytes * RowBytes + i % RowBytes;
    }
  }

  /** The only bytes the 2x step (r0, k0) newly counts as written are the
      four of its block. */
  lemma NewlyDoneInBlock(s: Sprite, x: int, c: Clip, r0: nat, k0: nat, i: int)
    requires SpriteInRow(s, x, true) && r0 < c.rows && k0 < BytesPerRow(s) && 0 <= i
    requires SpriteDone(s, x, c, true, i, r0, k0 + 1) && !SpriteDone(s, x, c, true, i, r0, k0)
    ensures var dest := (c.top + r0) * 2 * RowBytes + x / 2 + 2 * k0;
      i == dest || i == dest + 1 || i == dest + RowBytes || i == dest + RowBytes + 1
  {
    var dest := (c.top + r0) * 2 * RowBytes + x / 2 + 2 * k0;
    assert SpriteRow(c, true, i) == r0 && SpriteColumn(x, i) / 2 == k0;
    var d := if SpriteColumn(x, i) % 2 == 0 then 0 else 1;
    BlockByte(s, x, c, r0, k0, d, dest + d);
    assert (dest + d) % RowBytes == i % RowBytes;
    SameBlock(i, dest + d);
  }

  /** Surface bytes in the same row pair and column as `i` are `i` itself
      or the byte a row below or above it. */
  lemma SameBlock(i: int, j: int)
    requires 0 <= i && 0 <= j
    requires i / (2 * RowBytes) == j / (2 * RowBytes) && i % RowBytes == j % RowBytes
    ensures i == j || i == j + RowBytes || j == i + RowBytes
  {
    var q := i / 192;
    var mi, mj := i % 192, j % 192;
    assert i == 192 * q + mi && j == 192 * q + mj;
    DivModUnique(i, 96, 2 * q + mi / 96, mi % 96);
    DivModUnique(j, 96, 2 * q + mj / 96, mj % 96);
  }

  /** One step of the 2x inner loop: source byte k0 of row r0 fills the
      2x2 block at `dest`, whose top-left byte still holds its old value;
      no other byte changes. */
  lemma SpriteProgressStep2x(s: Sprite, data: seq<U8>, x: int, posY: int, blend: bool, b: seq<U8>, r0: nat, k0: nat)
    requires |b| == BufferBytes && SpriteDrawable(s, data, x, posY, true)
    requires r0 < ClipSprite(s, posY, true).rows && k0 < BytesPerRow(s)
    ensures var c := ClipSprite(s, posY, true);
      var dest := (c.top + r0) * 2 * RowBytes + x / 2 + 2 * k0;
      var t := SpriteProgress(s, data, x, posY, blend, true, b, r0, k0);
      && 0 <= dest && dest + RowBytes + 1 < BufferBytes
      && t[dest] == b[dest]
      && var v := SpriteCombine(b[dest], SourceByte(s, data, c, r0, k0), blend);
         SpriteProgress(s, data, x, posY, blend, true, b, r0, k0 + 1)
         == t[dest := Widen(v, false)][dest + RowBytes := Widen(v, false)]
             [dest + 1 := Widen(v, true)][dest + RowBytes + 1 := Widen(v, true)]
  {
    var c := ClipSprite(s, posY, true);
    var dest := (c.top + r0) * 2 * RowBytes + x / 2 + 2 * k0;
    MulLe(c.top + r0 + 1, Height / 2, 2 * RowBytes);
    var t := SpriteProgress(s, data, x, posY, blend, true, b, r0, k0);
    var u := SpriteProgress(s, data, x, posY, blend, true, b, r0, k0 + 1);
    var v := SpriteCombine(b[dest], SourceByte(s, data, c, r0, k0), blend);
    BlockProgress(s, data, x, posY, blend, b, r0, k0, 0, r0, k0);
    forall i | 0 <= i < BufferBytes
      ensures u[i] == t[dest := Widen(v, false)][dest + RowBytes := Widen(v, false)]
                       [dest + 1 := Widen(v, true)][dest + RowBytes + 1 := Widen(v, true)][i]
    {
      Step2xAt(s, data, x, posY, blend, b, r0, k0, i);
    }
  }

  /** `SpriteProgressStep2x` at one byte `i`. */
  lemma Step2xAt(s: Sprite, data: seq<U8>, x: int, posY: int, blend: bool, b: seq<U8>, r0: nat, k0: nat, i: nat)
    requires |b| == BufferBytes && SpriteDrawable(s, data, x, posY, true)
    requires r0 < ClipSprite(s, posY, true).rows && k0 < BytesPerRow(s) && i < BufferBytes
    ensures var c := ClipSprite(s, posY, true);
      var dest := (c.top + r0) * 2 * RowBytes + x / 2 + 2 * k0;
      var t := SpriteProgress(s, data, x, posY, blend, true, b, r0, k0);
      0 <= dest && dest + RowBytes + 1 < BufferBytes &&
      var v := SpriteCombine(b[dest], SourceByte(s, data, c, r0, k0), blend);
      SpriteProgress(s, data, x, posY, blend, true, b, r0, k0 + 1)[i]
        == if i == dest || i == dest + RowBytes then Widen(v, false)
           else if i == dest + 1 || i == dest + RowBytes + 1 then Widen(v, true)
           else t[i]
  {
    var c := ClipSprite(s, posY, true);
    var dest := (c.top + r0) * 2 * RowBytes + x / 2 + 2 * k0;
    BlockProgress(s, data, x, posY, blend, b, r0, k0, 0, r0, k0);
    if i == dest + RowBytes + 1 {
      BlockProgress(s, data, x, posY, blend, b, r0, k0, RowBytes + 1, r0, k0 + 1);
    } else if i == dest + 1 {
      BlockProgress(s, data, x, posY, blend, b, r0, k0, 1, r0, k0 + 1);
    } else if i == dest + RowBytes {
      BlockProgress(s, data, x, posY, blend, b, r0, k0, RowBytes, r0, k0 + 1);
    } else if i == dest {
      BlockProgress(s, data, x, posY, blend, b, r0, k0, 0, r0, k0 + 1);
    } else {
      OutsideBlock2x(s, data, x, posY, blend, b, r0, k0, i);
    }
  }

  /** A byte outside the block of the 2x step (r0, k0) is not changed by it. */
  lemma OutsideBlock2x(s: Sprite, data: seq<U8>, x: int, posY: int, blend: bool, b: seq<U8>, r0: nat, k0: nat, i: nat)
    requires |b| == BufferBytes && SpriteDrawable(s, data, x, posY, true)
    requires r0 < ClipSprite(s, posY, true).rows && k0 < BytesPerRow(s) && i < BufferBytes
    requires var dest := (ClipSprite(s, posY, true).top + r0) * 2 * RowBytes + x / 2 + 2 * k0;
      i != dest && i != dest + 1 && i != dest + RowBytes && i != dest + RowBytes + 1
    ensures SpriteProgress(s, data, x, posY, blend, true, b, r0, k0 + 1)[i]
         == SpriteProgress(s, data, x, posY, blend, true, b, r0, k0)[i]
  {
    var c := ClipSprite(s, posY, true);
    if SpriteDone(s, x, c, true, i, r0, k0 + 1) && !SpriteDone(s, x, c, true, i, r0, k0) {
      NewlyDoneInBlock(s, x, c, r0, k0, i);
    }
  }

  /** The bytes one step of the column loop leaves: the combined byte `v`
      at `dest` (1x), or its widened low and high pixels over the 2x2 block
      at `dest` (2x). */
  function PutBlock(t: seq<U8>, dest: int, v: U8, scale2x: bool): (r: seq<U8>)
    requires 0 <= dest && dest + (if scale2x then RowBytes + 1 else 0) < |t|
    ensures |r| == |t|
  {
    if scale2x then
      t[dest := Widen(v, false)][dest + RowBytes := Widen(v, false)]
       [dest + 1 := Widen(v, true)][dest + RowBytes + 1 := Widen(v, true)]
    else t[dest := v]
  }

  /** One step of the column loop in either mode, at byte `k0` of row `r0`. */
  lemma SpriteProgressStep(s: Sprite, data: seq<U8>, x: int, posY: int, blend: bool, scale2x: bool, b: seq<U8>, r0: nat, k0: nat)
    requires |b| == BufferBytes && SpriteDrawable(s, data, x, posY, scale2x)
    requires r0 < ClipSprite(s, posY, scale2x).rows && k0 < BytesPerRow(s)
    ensures var c := ClipSprite(s, posY, scale2x);
      var dest := SpriteRowBase(x, c, r0, scale2x) + (if scale2x then 2 * k0 else k0);
      var t := SpriteProgress(s, data, x, posY, blend, scale2x, b, r0, k0);
      && 0 <= dest && dest + (if scale2x then RowBytes + 1 else 0) < BufferBytes
      && t[dest] == b[dest]
      && SpriteProgress(s, data, x, posY, blend, scale2x, b, r0, k0 + 1)
         == PutBlock(t, dest, SpriteCombine(b[dest], SourceByte(s, data, c, r0, k0), blend), scale2x)
  {
    if scale2x {
      SpriteProgressStep2x(s, data, x, posY, blend, b, r0, k0);
    } else {
      SpriteProgressStep1x(s, data, x, posY, blend, b, r0, k0);
    }
  }

  /** In 1x mode, source byte (r, k) lands in surface row top + r, byte
      x/2 + k: opaque drawing copies it verbatim, blended drawing keeps the
      destination pixel wherever the source pixel is 0. */
  lemma Sprite1xByte(s: Sprite, data: seq<U8>, x: int, posY: int, blend: bool, b: seq<U8>, r: nat, k: nat)
    requires |b| == BufferBytes && SpriteDrawable(s, data, x, posY, false)
    requires r < ClipSprite(s, posY, false).rows && k < BytesPerRow(s)
    ensures var c := ClipSprite(s, posY, false);
      var i := (c.top + r) * RowBytes + x / 2 + k;
      var t := SpriteDrawn(s, data, x, posY, blend, false, b);
      var src := SourceByte(s, data, c, r, k);
      && 0 <= i < BufferBytes
      && (!blend ==> t[i] == src)
      && (blend ==> Lo(t[i]) == (if Lo(src) == 0 then Lo(b[i]) else Lo(src)))
      && (blend ==> Hi(t[i]) == (if Hi(src) == 0 then Hi(b[i]) else Hi(src)))
  {
    var c := ClipSprite(s, posY, false);
    var i := (c.top + r) * RowBytes + x / 2 + k;
    DivModUnique(i, RowBytes, c.top + r, x / 2 + k);
    assert InSpriteBox(s, x, c, false, i);
    MulLe(c.top + r + 1, Height, RowBytes);
    var t := SpriteDrawn(s, data, x, posY, blend, false, b);
    assert t[i] == SpriteByte(s, data, x, c, blend, false, b, i);
  }

  /** In 2x mode, source byte (r, k) fills a 2x2 block of bytes: the two
      bytes of the upper row equal the two of the lower row, the left pair
      repeats the combined low pixel and the right pair the combined high
      pixel. */
  lemma Sprite2xBlock(s: Sprite, data: seq<U8>, x: int, posY: int, blend: bool, b: seq<U8>, r: nat, k: nat)
    requires |b| == BufferBytes && SpriteDrawable(s, data, x, posY, true)
    requires r < ClipSprite(s, posY, true).rows && k < BytesPerRow(s)
    ensures var c := ClipSprite(s, posY, true);
      var i := (c.top + r) * 2 * RowBytes + x / 2 + 2 * k;
      var t := SpriteDrawn(s, data, x, posY, blend, true, b);
      && 0 <= i && i + RowBytes + 1 < BufferBytes
      && t[i] == t[i + RowBytes] && t[i + 1] == t[i + RowBytes + 1]
      && var v := SpriteCombine(b[i], SourceByte(s, data, c, r, k), blend);
         && Lo(t[i]) == Hi(t[i]) == Lo(v)
         && Lo(t[i + 1]) == Hi(t[i + 1]) == Hi(v)
  {
    var c := ClipSprite(s, posY, true);
    var i := (c.top + r) * 2 * RowBytes + x / 2 + 2 * k;
    var v := SpriteCombine(b[i], SourceByte(s, data, c, r, k), blend);
    var rows := ClipSprite(s, posY, true).rows;
    BlockProgress(s, data, x, posY, blend, b, r, k, 0, rows, 0);
    BlockProgress(s, data, x, posY, blend, b, r, k, 1, rows, 0);
    BlockProgress(s, data, x, posY, blend, b, r, k, RowBytes, rows, 0);
    BlockProgress(s, data, x, posY, blend, b, r, k, RowBytes + 1, rows, 0);
  }

  /** A byte of the 2x2 block of source byte (r, k) part-way through the
      2x loops: written exactly when (r, k) comes before (r1, k1). */
  lemma BlockProgress(s: Sprite, data: seq<U8>, x: int, posY: int, blend: bool, b: seq<U8>, r: nat, k: nat, d: nat, r1: int, k1: nat)
    requires |b| == BufferBytes && SpriteDrawable(s, data, x, posY, true)
    requires r < ClipSprite(s, posY, true).rows && k < BytesPerRow(s)
    requires d == 0 || d == 1 || d == RowBytes || d == RowBytes + 1
    ensures var c := ClipSprite(s, posY, true);
      var i := (c.top + r) * 2 * RowBytes + x / 2 + 2 * k;
      && 0 <= i && i + RowBytes + 1 < BufferBytes
      && SpriteProgress(s, data, x, posY, blend, true, b, r1, k1)[i + d]
         == if r < r1 || (r == r1 && k < k1)
            then Widen(SpriteCombine(b[i], SourceByte(s, data, c, r, k), blend), d == 1 || d == RowBytes + 1)
            else b[i + d]
  {
    var c := ClipSprite(s, posY, true);
    var i := (c.top + r) * 2 * RowBytes + x / 2 + 2 * k;
    BlockSpriteByte(s, data, x, c, blend, b, r, k, d);
    DoneAt(s, x, c, i + d, r, k, r1, k1);
    ProgressAt(s, data, x, posY, blend, true, b, r1, k1, i + d);
  }

  /** Byte `j` part-way through the loops: `SpriteByte` once written, the
      old byte before. */
  lemma ProgressAt(s: Sprite, data: seq<U8>, x: int, posY: int, blend: bool, scale2x: bool, b: seq<U8>, r1: int, k1: nat, j: int)
    requires |b| == BufferBytes && SpriteDrawable(s, data, x, posY, scale2x) && 0 <= j < BufferBytes
    ensures var c := ClipSprite(s, posY, scale2x);
      SpriteProgress(s, data, x, posY, blend, scale2x, b, r1, k1)[j]
      == if SpriteDone(s, x, c, scale2x, j, r1, k1) then SpriteByte(s, data, x, c, blend, scale2x, b, j) else b[j]
  {
  }

  /** In 2x mode a byte of source byte (r, k)'s block is done exactly when
      (r, k) comes before (r1, k1). */
  lemma DoneAt(s: Sprite, x: int, c: Clip, j: int, r: nat, k: nat, r1: int, k1: nat)
    requires c.rows > 0 && InSpriteBox(s, x, c, true, j)
    requires SpriteRow(c, true, j) == r && SpriteColumn(x, j) / 2 == k
    ensures SpriteDone(s, x, c, true, j, r1, k1) == (r < r1 || (r == r1 && k < k1))
  {
  }

  /** `SpriteByte` on the four bytes of the 2x2 block of source byte (r, k). */
  lemma BlockSpriteByte(s: Sprite, data: seq<U8>, x: int, c: Clip, blend: bool, b: seq<U8>, r: nat, k: nat, d: nat)
    requires |b| == BufferBytes && ValidSprite(s, data) && SpriteInRow(s, x, true)
    requires c.rows > 0 && c.top + c.rows <= Height / 2
    requires c.skip + c.rows * BytesPerRow(s) <= s.height * BytesPerRow(s)
    requires r < c.rows && k < BytesPerRow(s)
    requires d == 0 || d == 1 || d == RowBytes || d == RowBytes + 1
    ensures var i := (c.top + r) * 2 * RowBytes + x / 2 + 2 * k;
      && 0 <= i && i + RowBytes + 1 < BufferBytes
      && InSpriteBox(s, x, c, true, i + d)
      && SpriteRow(c, true, i + d) == r && SpriteColumn(x, i + d) / 2 == k
      && SpriteByte(s, data, x, c, blend, true, b, i + d)
         == Widen(SpriteCombine(b[i], SourceByte(s, data, c, r, k), blend), d == 1 || d == RowBytes + 1)
  {
    var i := (c.top + r) * 2 * RowBytes + x / 2 + 2 * k;
    assert SpriteRowBase(x, c, r, true) + 2 * k == i;
    assert 0 <= i && i + RowBytes + 1 < BufferBytes by {
      MulLe(c.top + r + 1, Height / 2, 2 * RowBytes);
    }
    BlockByte(s, x, c, r, k, d, i + d);
    var col := SpriteColumn(x, i + d);
    var high := d == 1 || d == RowBytes + 1;
    assert SpriteByte(s, data, x, c, blend, true, b, i + d) == ScaledByte(s, data, x, c, blend, b, r, col);
    assert ScaledByte(s, data, x, c, blend, b, r, col) == Widen(SpriteCombine(b[i], SourceByte(s, data, c, r, k), blend), high);
  }

  lemma BlockByte(s: Sprite, x: int, c: Clip, r: nat, k: nat, d: nat, j: int)
    requires SpriteInRow(s, x, true) && r < c.rows && k < BytesPerRow(s)
    requires d == 0 || d == 1 || d == RowBytes || d == RowBytes + 1
    requires j == (c.top + r) * 2 * RowBytes + x / 2 + 2 * k + d
    ensures InSpriteBox(s, x, c, true, j)
    ensures SpriteRow(c, true, j) == r
    ensures 0 <= SpriteColumn(x, j) && SpriteColumn(x, j) / 2 == k
    ensures (SpriteColumn(x, j) % 2 == 1) == (d == 1 || d == RowBytes + 1)
  {
    var i := j;
    var below := if d >= RowBytes then 1 else 0;
    var right := if d == 1 || d == RowBytes + 1 then 1 else 0;
    var col := x / 2 + 2 * k + right;
    DivModUnique(i, 2 * RowBytes, c.top + r, below * RowBytes + col);
    DivModUnique(i, RowBytes, 2 * (c.top + r) + below, col);
    DivModUnique(2 * k + right, 2, k, right);
  }

  // ---------------------------------------------------------------- Scan-out

  /** Batches per frame: each fills 32 display pixels, 96*64/32 in all. */
  const BatchPixels: nat := 32
  const BatchesPerFrame: nat := DisplayWidth * DisplayHeight / BatchPixels
  const WordsPerBatch: nat := BatchPixels * 16 / 32

  /** The cursor after `k` batches of a pass: three batches per display row,
      each advancing 32 bytes, and a 96-byte skip of the odd supersampled row
      once the column reaches 96. */
  function CursorPtr(k: nat): nat { 2 * RowBytes * (k / 3) + BatchPixels * (k % 3) }
  function CursorColumn(k: nat): nat { BatchPixels * (k % 3) }

  /** The column counter and cursor after one more batch, as `Render` updates them. */
  lemma CursorStep(k: nat)
    ensures var col := CursorColumn(k) + BatchPixels;
      && (col >= DisplayWidth ==> CursorColumn(k + 1) == 0 && CursorPtr(k + 1) == CursorPtr(k) + BatchPixels + RowBytes)
      && (col < DisplayWidth ==> CursorColumn(k + 1) == col && CursorPtr(k + 1) == CursorPtr(k) + BatchPixels)
  {
  }

  /** Byte `j` (0..63) that batch `k` reads: 32 consecutive bytes at the
      cursor, then the 32 bytes one row (96 bytes) below them. */
  function BatchRead(k: nat, j: nat): (p: nat)
    requires k < BatchesPerFrame && j < 2 * BatchPixels
    ensures p < BufferBytes
  {
    CursorPtr(k) + (if j < BatchPixels then j else RowBytes + j - BatchPixels)
  }

  /** Which batch of a pass reads surface byte `i`, and as which of its 64. */
  function BatchOf(i: nat): (nat, nat) {
    ((i / (2 * RowBytes)) * 3 + (i % RowBytes) / BatchPixels,
     (i % RowBytes) % BatchPixels + (if i % (2 * RowBytes) >= RowBytes then BatchPixels else 0))
  }

  /** The 192 batches of a pass read the 12288-byte buffer exactly: every
      read is in bounds, and every byte is read by exactly one (batch, slot). */
  lemma BatchReadsPartitionSurface(k: nat, j: nat, i: nat)
    requires k < BatchesPerFrame && j < 2 * BatchPixels && i < BufferBytes
    ensures BatchOf(BatchRead(k, j)) == (k, j)
    ensures BatchOf(i).0 < BatchesPerFrame && BatchOf(i).1 < 2 * BatchPixels
    ensures BatchRead(BatchOf(i).0, BatchOf(i).1) == i
  {
    BatchOfRead(k, j);
    ReadOfBatch(i);
  }

  lemma BatchOfRead(k: nat, j: nat)
    requires k < BatchesPerFrame && j < 2 * BatchPixels
    ensures BatchOf(BatchRead(k, j)) == (k, j)
  {
    var p := BatchRead(k, j);
    var q, m := k / 3, k % 3;
    var c := if j < BatchPixels then j else j - BatchPixels;
    var lower := if j < BatchPixels then 0 else RowBytes;
    assert p == q * (2 * RowBytes) + (lower + BatchPixels * m + c);
    DivModUnique(p, 2 * RowBytes, q, lower + BatchPixels * m + c);
    DivModUnique(p, RowBytes, 2 * q + lower / RowBytes, BatchPixels * m + c);
    DivModUnique(BatchPixels * m + c, BatchPixels, m, c);
    DivModUnique(k, 3, q, m);
  }

  lemma ReadOfBatch(i: nat)
    requires i < BufferBytes
    ensures BatchOf(i).0 < BatchesPerFrame && BatchOf(i).1 < 2 * BatchPixels
    ensures BatchRead(BatchOf(i).0, BatchOf(i).1) == i
  {
    var Q, r := i / (2 * RowBytes), i % (2 * RowBytes);
    var cc := i % RowBytes;
    var lower := if r >= RowBytes then RowBytes else 0;
    DivModUnique(i, RowBytes, 2 * Q + lower / RowBytes, r - lower);
    var k := Q * 3 + cc / BatchPixels;
    DivModUnique(k, 3, Q, cc / BatchPixels);
  }

  /** The palette and the colour unpacking the scan-out uses. Neither is
      defined in the modelled files, so both are parameters: a 16-entry table
      of expanded colours and a function from an expanded sum to RGB565. */
  datatype Codec = Codec(palette: seq<U32>, unexplode: U32 -> U16)

  ghost predicate ValidCodec(codec: Codec) { |codec.palette| == 16 }

  /** One output pixel: the four supersampled pixels of a 2x2 block, the two
      of byte `top` and the two of the byte below it, expanded through the
      palette, summed in 32 bits, divided by four and unpacked. */
  function BoxFilter(codec: Codec, top: U8, below: U8): U16
    requires ValidCodec(codec)
  {
    var p := codec.palette;
    codec.unexplode(ToU32(p[Lo(top)] as int + p[Hi(top)] + p[Lo(below)] + p[Hi(below)]) / 4)
  }

  /** Two byte-swapped output pixels in one 32-bit word, the left one in the
      low half: `b0 | (b1 << 16)`. */
  function ScanWord(codec: Codec, topLeft: U8, belowLeft: U8, topRight: U8, belowRight: U8): U32
    requires ValidCodec(codec)
  {
    Bswap16(BoxFilter(codec, topLeft, belowLeft)) + 0x1_0000 * Bswap16(BoxFilter(codec, topRight, belowRight))
  }

  /** Word `w` (0..15) of batch `k`, from the four bytes the batch reads for it. */
  function BatchWord(codec: Codec, s: seq<U8>, k: nat, w: nat): U32
    requires ValidCodec(codec) && |s| == BufferBytes && k < BatchesPerFrame && w < WordsPerBatch
  {
    ScanWord(codec, s[BatchRead(k, 2 * w)], s[BatchRead(k, BatchPixels + 2 * w)],
                    s[BatchRead(k, 2 * w + 1)], s[BatchRead(k, BatchPixels + 2 * w + 1)])
  }

  function BatchWords(codec: Codec, s: seq<U8>, k: nat): (r: seq<U32>)
    requires ValidCodec(codec) && |s| == BufferBytes && k < BatchesPerFrame
    ensures |r| == WordsPerBatch
  {
    seq(WordsPerBatch, w requires 0 <= w < WordsPerBatch => BatchWord(codec, s, k, w))
  }

  /** Word `w` of batch `k` is the box filter of the bytes at offsets 0, 1
      of the cursor plus 2w and of the row below. */
  lemma BatchWordReads(codec: Codec, s: seq<U8>, k: nat, w: nat)
    requires ValidCodec(codec) && |s| == BufferBytes && k < BatchesPerFrame && w < WordsPerBatch
    ensures var p := CursorPtr(k) + 2 * w;
      && p + RowBytes + 1 < BufferBytes
      && BatchWords(codec, s, k)[w] == ScanWord(codec, s[p], s[p + RowBytes], s[p + 1], s[p + RowBytes + 1])
  {
    assert BatchRead(k, BatchPixels + 2 * w + 1) == CursorPtr(k) + 2 * w + RowBytes + 1;
  }

  /** A batch depends on no byte but the 64 it reads: two surfaces that agree
      on those bytes produce the same batch. */
  lemma BatchReadsOnlyItsBytes(codec: Codec, s: seq<U8>, t: seq<U8>, k: nat)
    requires ValidCodec(codec) && |s| == BufferBytes && |t| == BufferBytes && k < BatchesPerFrame
    requires forall j :: 0 <= j < 2 * BatchPixels ==> s[BatchRead(k, j)] == t[BatchRead(k, j)]
    ensures BatchWords(codec, s, k) == BatchWords(codec, t, k)
  {
    forall w | 0 <= w < WordsPerBatch ensures BatchWord(codec, s, k, w) == BatchWord(codec, t, k, w) {
      assert s[BatchRead(k, 2 * w)] == t[BatchRead(k, 2 * w)];
      assert s[BatchRead(k, 2 * w + 1)] == t[BatchRead(k, 2 * w + 1)];
      assert s[BatchRead(k, BatchPixels + 2 * w)] == t[BatchRead(k, BatchPixels + 2 * w)];
      assert s[BatchRead(k, BatchPixels + 2 * w + 1)] == t[BatchRead(k, BatchPixels + 2 * w + 1)];
    }
  }

  /** The words of the first `n` batches of a pass, in the order they are produced. */
  function FrameWords(codec: Codec, s: seq<U8>, n: nat): (r: seq<U32>)
    requires ValidCodec(codec) && |s| == BufferBytes && n <= BatchesPerFrame
    ensures |r| == WordsPerBatch * n
  {
    if n == 0 then [] else FrameWords(codec, s, n - 1) + BatchWords(codec, s, n - 1)
  }

  /** Word `i` of the frame is word `i % 16` of batch `i / 16`. */
  lemma {:induction false} FrameWordAt(codec: Codec, s: seq<U8>, n: nat, i: nat)
    requires ValidCodec(codec) && |s| == BufferBytes && n <= BatchesPerFrame && i < WordsPerBatch * n
    ensures FrameWords(codec, s, n)[i] == BatchWord(codec, s, i / WordsPerBatch, i % WordsPerBatch)
  {
    var prev := FrameWords(codec, s, n - 1);
    assert FrameWords(codec, s, n) == prev + BatchWords(codec, s, n - 1);
    if i < |prev| {
      FrameWordAt(codec, s, n - 1, i);
    } else {
      DivModUnique(i, WordsPerBatch, n - 1, i - |prev|);
    }
  }

  /** The low (`high` false) or high half of a 32-bit word. */
  function HalfWord(w: U32, high: bool): U16 {
    if high then w / 0x1_0000 else w % 0x1_0000
  }

  /** The low half of word `w` of batch `k` filters the block at the cursor
      plus 2w, the high half the block one byte to its right. */
  lemma BatchHalf(codec: Codec, s: seq<U8>, k: nat, w: nat, d: nat)
    requires ValidCodec(codec) && |s| == BufferBytes && k < BatchesPerFrame && w < WordsPerBatch && d < 2
    ensures var q := CursorPtr(k) + 2 * w + d;
      && q + RowBytes < BufferBytes
      && HalfWord(BatchWords(codec, s, k)[w], d == 1) == Bswap16(BoxFilter(codec, s[q], s[q + RowBytes]))
  {
    var p := CursorPtr(k) + 2 * w;
    BatchWordReads(codec, s, k, w);
    var lo, hi := Bswap16(BoxFilter(codec, s[p], s[p + RowBytes])), Bswap16(BoxFilter(codec, s[p + 1], s[p + RowBytes + 1]));
    DivModUnique(BatchWords(codec, s, k)[w], 0x1_0000, hi, lo);
  }

  /** Byte `x` of surface row `row`. */
  function RowByte(row: nat, x: nat): nat { row * RowBytes + x }

  /** The frame word that holds display pixel (x, y) in raster order, two
      16-bit pixels per word. */
  function PixelWord(x: nat, y: nat): nat { (DisplayWidth * y + x) / 2 }

  /** Display pixel (x, y) is half `x % 2` of word `w` of batch `k`, read from
      byte x of surface rows 2y and 2y + 1. */
  lemma PixelOfBatch(x: nat, y: nat)
    requires x < DisplayWidth && y < DisplayHeight
    ensures var k, w := 3 * y + x / 32, (x / 2) % 16;
      && k < BatchesPerFrame && w < WordsPerBatch
      && PixelWord(x, y) / WordsPerBatch == k && PixelWord(x, y) % WordsPerBatch == w
      && PixelWord(x, y) < WordsPerBatch * BatchesPerFrame
      && CursorPtr(k) + 2 * w + x % 2 == RowByte(2 * y, x)
      && RowByte(2 * y, x) + RowBytes == RowByte(2 * y + 1, x)
  {
    var a, b := x / 32, x % 32;
    var h := b / 2;
    DivModUnique(x, 2, 16 * a + h, b % 2);
    DivModUnique(DisplayWidth * y + x, 2, 48 * y + 16 * a + h, b % 2);
    DivModUnique(x / 2, 16, a, h);
    DivModUnique(48 * y + 16 * a + h, WordsPerBatch, 3 * y + a, h);
    DivModUnique(3 * y + a, 3, y, a);
  }

  /** End to end: a whole pass, read as 16-bit pixels in raster order of the
      96x64 display window, puts at display pixel (x, y) the byte-swapped box
      filter of supersampled pixels 2x..2x+1 of rows 2y and 2y+1, that is of
      byte x of surface row 2y and byte x of row 2y+1. */
  lemma FramePixel(codec: Codec, s: seq<U8>, x: nat, y: nat)
    requires ValidCodec(codec) && |s| == BufferBytes && x < DisplayWidth && y < DisplayHeight
    ensures PixelWord(x, y) < WordsPerBatch * BatchesPerFrame
    ensures RowByte(2 * y + 1, x) < BufferBytes
    ensures HalfWord(FrameWords(codec, s, BatchesPerFrame)[PixelWord(x, y)], x % 2 == 1)
         == Bswap16(BoxFilter(codec, s[RowByte(2 * y, x)], s[RowByte(2 * y + 1, x)]))
  {
    var n, k, w := PixelWord(x, y), 3 * y + x / 32, (x / 2) % 16;
    assert && k < BatchesPerFrame && w < WordsPerBatch
      && n / WordsPerBatch == k && n % WordsPerBatch == w && n < WordsPerBatch * BatchesPerFrame
      && CursorPtr(k) + 2 * w + x % 2 == RowByte(2 * y, x)
      && RowByte(2 * y, x) + RowBytes == RowByte(2 * y + 1, x) by {
      PixelOfBatch(x, y);
    }
    assert FrameWords(codec, s, BatchesPerFrame)[n] == BatchWords(codec, s, k)[w] by {
      FrameWordAt(codec, s, BatchesPerFrame, n);
    }
    BatchHalf(codec, s, k, w, x % 2);
  }
}
