/** The `RainbowFX` renderer: a 12288-byte paletted backbuffer that the
    drawing operations update in place, and the scan-out cursor that turns it
    into 32-pixel batches of RGB565 words. Each method is proved against the
    corresponding function of `Surface`. */
module Rainbow {
  import opened Bytes
  import opened Assets
  import opened Surface
  import opened Options

  ghost predicate AllInRange(f: Font, text: seq<U8>) {
    forall i :: 0 <= i < |text| ==> InGlyphRange(f, text[i])
  }

  /** The sum of the glyph widths of `text`, before 16-bit truncation. */
  function TextWidth(f: Font, text: seq<U8>): nat
    requires ValidFont(f) && AllInRange(f, text)
  {
    if |text| == 0 then 0 else TextWidth(f, text[..|text| - 1]) + GlyphOf(f, text[|text| - 1]).width
  }

  /** The tallest glyph of `text` (0 for the empty text). */
  function TextHeight(f: Font, text: seq<U8>): nat
    requires ValidFont(f) && AllInRange(f, text)
  {
    if |text| == 0 then 0
    else
      var h := TextHeight(f, text[..|text| - 1]);
      var g := GlyphOf(f, text[|text| - 1]);
      if g.height > h then g.height else h
  }

  /** Extending a prefix of `text` by its next character adds that glyph's
      width and raises the height to at least that glyph's. */
  lemma TextStep(f: Font, text: seq<U8>, i: nat)
    requires ValidFont(f) && AllInRange(f, text) && i < |text|
    ensures AllInRange(f, text[..i]) && AllInRange(f, text[..i + 1])
    ensures var g := f.glyphs[text[i] - f.first];
      && TextWidth(f, text[..i + 1]) == TextWidth(f, text[..i]) + g.width
      && TextHeight(f, text[..i + 1]) == if g.height > TextHeight(f, text[..i]) then g.height else TextHeight(f, text[..i])
  {
    assert text[..i + 1][..i] == text[..i];
  }

  /** The width of a concatenation is the sum of the widths. */
  lemma {:induction false} TextWidthAppend(f: Font, a: seq<U8>, b: seq<U8>)
    requires ValidFont(f) && AllInRange(f, a) && AllInRange(f, b)
    ensures AllInRange(f, a + b)
    ensures TextWidth(f, a + b) == TextWidth(f, a) + TextWidth(f, b)
  {
    if |b| > 0 {
      assert (a + b)[..|a + b| - 1] == a + b[..|b| - 1];
      TextWidthAppend(f, a, b[..|b| - 1]);
    } else {
      assert a + b == a;
    }
  }

  /** The height is the maximum: no glyph is taller, and a non-empty text has
      a glyph exactly that tall. */
  lemma {:induction false} TextHeightIsMax(f: Font, text: seq<U8>)
    requires ValidFont(f) && AllInRange(f, text)
    ensures forall i :: 0 <= i < |text| ==> GlyphOf(f, text[i]).height <= TextHeight(f, text)
    ensures |text| > 0 ==> exists i :: 0 <= i < |text| && GlyphOf(f, text[i]).height == TextHeight(f, text)
  {
    if |text| > 0 {
      var init := text[..|text| - 1];
      TextHeightIsMax(f, init);
      assert forall i :: 0 <= i < |init| ==> init[i] == text[i];
      if |init| > 0 && TextHeight(f, text) == TextHeight(f, init) {
        var j :| 0 <= j < |init| && GlyphOf(f, init[j]).height == TextHeight(f, init);
        assert GlyphOf(f, text[j]).height == TextHeight(f, text);
      } else {
        assert GlyphOf(f, text[|text| - 1]).height == TextHeight(f, text);
      }
    }
  }

  /** The scan-out cursor is in the middle of a pass: `k` batches have been
      produced since `BeginRender`, and the read address and column are where the
      `k`-th batch left them. */
  ghost predicate InPass(k: nat, ptr: nat, column: U8) {
    k < BatchesPerFrame && ptr == CursorPtr(k) && column == CursorColumn(k)
  }

  class RainbowFX {
    const backbuffer: array<U8>
    const codec: Codec
    /** `backbuffer_ptr_`, as an index into the backbuffer. */
    var renderPtr: nat
    /** `render_column_`: display columns produced in the current row. */
    var renderColumn: U8
    /** Batches produced since the last `BeginRender`. */
    ghost var batch: nat

    ghost predicate Valid()
      reads this
    {
      backbuffer.Length == BufferBytes && ValidCodec(codec) && batch <= BatchesPerFrame
    }

    /** A new renderer has an all-zero backbuffer and no pass in progress
        (the read address is null until `BeginRender`). */
    constructor (codec: Codec)
      requires ValidCodec(codec)
      ensures Valid() && fresh(backbuffer) && this.codec == codec
      ensures AllZero(backbuffer[..]) && batch == BatchesPerFrame
    {
      backbuffer := new U8[BufferBytes](_ => 0);
      this.codec := codec;
      renderPtr := 0;
      renderColumn := 0;
      batch := BatchesPerFrame;
      new;
      Clear();
    }

    method Clear()
      requires Valid()
      modifies backbuffer
      ensures AllZero(backbuffer[..])
    {
      for i := 0 to backbuffer.Length
        invariant forall j :: 0 <= j < i ==> backbuffer[j] == 0
      {
        backbuffer[i] := 0;
      }
    }

    method Fade()
      requires Valid()
      modifies backbuffer
      ensures backbuffer[..] == FadeAll(old(backbuffer[..]))
    {
      for i := 0 to backbuffer.Length
        invariant forall j :: 0 <= j < i ==> backbuffer[j] == FadeByte(old(backbuffer[j]))
        invariant forall j :: i <= j < backbuffer.Length ==> backbuffer[j] == old(backbuffer[j])
      {
        var pair := backbuffer[i];
        var p0 := pair % 0x10;
        var p1 := pair - pair % 0x10;
        p0 := if p0 != 0 then p0 - 0x01 else p0;
        p1 := if p1 != 0 then p1 - 0x10 else p1;
        backbuffer[i] := p0 + p1;
      }
    }

    /** `delta` is an `int16_t`; -32768 is excluded because negating it
        overflows and the clamp then yields a negative row count. */
    method Move(delta: int)
      requires Valid() && -0x8000 < delta < 0x8000
      modifies backbuffer
      ensures backbuffer[..] == Moved(old(backbuffer[..]), delta)
    {
      ghost var s := backbuffer[..];
      var d := delta;
      if d > 0 {
        if d >= Height {
          d := Height - 1;
        }
        var src := d * Width / 2;
        var count := Width * (Height - d) / 2;
        assert src == MoveRows(delta) * RowBytes && src + count == BufferBytes;
        for i := 0 to count
          invariant forall j :: 0 <= j < i ==> backbuffer[j] == s[j + src]
          invariant forall j :: i <= j < BufferBytes ==> backbuffer[j] == s[j]
        {
          backbuffer[i] := backbuffer[src + i];
        }
      } else {
        d := -d;
        if d >= Height {
          d := Height - 1;
        }
        var dst := d * Width / 2;
        var count := Width * (Height - d) / 2;
        assert dst == MoveRows(delta) * RowBytes && dst + count == BufferBytes;
        // The ranges overlap with the destination above the source; the
        // copy behaves as memmove, so it is written back to front.
        var i := count;
        while i > 0
          invariant 0 <= i <= count
          invariant forall j :: dst + i <= j < BufferBytes ==> backbuffer[j] == s[j - dst]
          invariant forall j :: 0 <= j < dst + i ==> backbuffer[j] == s[j]
        {
          i := i - 1;
          backbuffer[dst + i] := backbuffer[i];
        }
      }
      assert backbuffer[..] == Moved(s, delta);
    }

    /** Draws glyph `glyph` of `font` with its top-left corner at (posX, posY);
        returns the glyph, or nothing for a code outside the font. */
    method DrawGlyph(font: Font, glyph: U8, posX: int, posY: int) returns (r: Option<Glyph>)
      requires Valid() && ValidFont(font)
      requires InGlyphRange(font, glyph) ==> GlyphInSurface(GlyphOf(font, glyph), posX, posY)
      modifies backbuffer
      ensures !InGlyphRange(font, glyph) ==> r == None && backbuffer[..] == old(backbuffer[..])
      ensures InGlyphRange(font, glyph) ==>
        && r == Some(GlyphOf(font, glyph))
        && backbuffer[..] == GlyphDrawn(font, GlyphOf(font, glyph), posX, posY, old(backbuffer[..]))
    {
      if glyph < font.first || glyph > font.last {
        return None;
      }
      var g := font.glyphs[glyph - font.first];
      ghost var s := backbuffer[..];
      ghost var words := WordsPerRow(g);
      GlyphProgressStart(font, g, posX, posY, s);
      var bits := g.offset;
      var y := 0;
      while y < g.height
        invariant 0 <= y <= g.height
        invariant bits == g.offset + y * words
        invariant backbuffer[..] == GlyphProgress(font, g, posX, posY, s, y, 0)
      {
        PixelAddress(posY + y, posX);
        var dest := ((posY + y) * Width + posX) / 2;
        MulLe(y + 1, g.height, words);
        MulSucc(y, words);
        assert g == GlyphOf(font, glyph);
        var x := 0;
        ghost var k := 0;
        while x < g.width
          invariant x == 32 * k && k <= words
          invariant dest == (posY + y) * RowBytes + posX / 2 + 16 * k
          invariant bits == g.offset + y * words + k
          invariant backbuffer[..] == GlyphProgress(font, g, posX, posY, s, y, 16 * k)
        {
          assert k < words;
          var w := font.data[bits];
          assert w == GlyphWord(font, g, y, k);
          DrawGlyphWord(font, g, posX, posY, s, y, k, dest, w);
          dest := dest + 16;
          bits := bits + 1;
          x := x + 32;
          k := k + 1;
        }
        assert k == words;
        assert bits == g.offset + (y + 1) * words;
        GlyphProgressRowEnd(font, g, posX, posY, s, y);
        y := y + 1;
      }
      return Some(g);
    }

    /** The innermost loop of `DrawGlyph`: the 32 pixels of bitmap word `w`,
        two per backbuffer byte, most significant bit leftmost. */
    method DrawGlyphWord(font: Font, g: Glyph, posX: int, posY: int, ghost s: seq<U8>,
                         ghost y: nat, ghost k: nat, dest: int, w: U32)
      requires Valid() && |s| == BufferBytes && GlyphFits(g, |font.data|) && GlyphInSurface(g, posX, posY)
      requires y < g.height && k < WordsPerRow(g) && w == GlyphWord(font, g, y, k)
      requires dest == (posY + y) * RowBytes + posX / 2 + 16 * k
      requires backbuffer[..] == GlyphProgress(font, g, posX, posY, s, y, 16 * k)
      modifies backbuffer
      ensures backbuffer[..] == GlyphProgress(font, g, posX, posY, s, y, 16 * k + 16)
    {
      var dest := dest;
      var px := 0;
      ghost var j := 0;
      while px < 32
        invariant 0 <= j <= 16 && px == 2 * j
        invariant dest == (posY + y) * RowBytes + posX / 2 + 16 * k + j
        invariant backbuffer[..] == GlyphProgress(font, g, posX, posY, s, y, 16 * k + j)
      {
        GlyphStepAt(font, g, posX, posY, s, y, k, j);
        LightPair(dest, w, px, j);
        dest := dest + 1;
        px := px + 2;
        j := j + 1;
      }
    }

    /** The body of the pixel loop: `*dest |= 0x0f` when the word's bit for
        the even pixel is set, `*dest |= 0xf0` when the odd pixel's is. */
    method LightPair(dest: int, w: U32, px: nat, ghost j: nat)
      requires Valid() && 0 <= dest < BufferBytes && j < 16 && px == 2 * j
      modifies backbuffer
      ensures backbuffer[..] == old(backbuffer[..])[dest := GlyphPair(old(backbuffer[dest]), w, j)]
    {
      if Bit(w, 31 - px) {
        backbuffer[dest] := LightLo(backbuffer[dest]);
      }
      if Bit(w, 31 - px - 1) {
        backbuffer[dest] := LightHi(backbuffer[dest]);
      }
    }

    /** Draws `sprite` (pixels in `data`) with its top-left corner at
        (posX, posY), clipped vertically; `blend` keeps the destination under
        zero source pixels, `scale2x` doubles it in both directions. */
    method DrawSprite(sprite: Sprite, data: seq<U8>, posX: int, posY: int, blend: bool, scale2x: bool)
      requires Valid() && SpriteDrawable(sprite, data, posX, posY, scale2x)
      modifies backbuffer
      ensures backbuffer[..] == SpriteDrawn(sprite, data, posX, posY, blend, scale2x, old(backbuffer[..]))
    {
      ghost var s := backbuffer[..];
      ghost var c := ClipSprite(sprite, posY, scale2x);
      var bits := sprite.offset;
      var height: int := sprite.height;
      var top := posY;
      if top < 0 {
        bits := bits + -top * (sprite.width / 2);
        height := height - -top;
        top := 0;
      }
      if scale2x {
        if top + height > Height / 2 {
          height := Height / 2 - top;
        }
      } else {
        if top + height > Height {
          height := Height - top;
        }
      }
      assert bits == sprite.offset + c.skip && top == c.top && height == c.rows;
      SpriteProgressStart(sprite, data, posX, posY, blend, scale2x, s);
      if height < 0 {
        assert SpriteDrawn(sprite, data, posX, posY, blend, scale2x, s) == s;
        return;
      }
      DrawSpriteRows(sprite, data, posX, posY, blend, scale2x, s, top, height, bits);
    }

    /** The row loop of `DrawSprite`, over the `height` rows left by clipping,
        the first of them at surface row `top` and source byte `start`. */
    method DrawSpriteRows(sprite: Sprite, data: seq<U8>, posX: int, posY: int, blend: bool, scale2x: bool,
                          ghost s: seq<U8>, top: nat, height: nat, start: nat)
      requires Valid() && |s| == BufferBytes && SpriteDrawable(sprite, data, posX, posY, scale2x)
      requires top == ClipSprite(sprite, posY, scale2x).top && height == ClipSprite(sprite, posY, scale2x).rows
      requires start == sprite.offset + ClipSprite(sprite, posY, scale2x).skip
      requires backbuffer[..] == SpriteProgress(sprite, data, posX, posY, blend, scale2x, s, 0, 0)
      modifies backbuffer
      ensures backbuffer[..] == SpriteProgress(sprite, data, posX, posY, blend, scale2x, s, height, 0)
    {
      var bits := start;
      var y := 0;
      while y < height
        invariant 0 <= y <= height
        invariant bits == start + y * BytesPerRow(sprite)
        invariant backbuffer[..] == SpriteProgress(sprite, data, posX, posY, blend, scale2x, s, y, 0)
      {
        DrawSpriteRow(sprite, data, posX, posY, blend, scale2x, s, top, y, bits);
        bits := bits + BytesPerRow(sprite);
        MulSucc(y, BytesPerRow(sprite));
        y := y + 1;
      }
    }

    /** One row of `DrawSprite`: the destination address of surface row
        `top + y` (2x: `2 * (top + y)`), then the column loop, which consumes
        the row's `BytesPerRow` source bytes starting at `bits`. */
    method DrawSpriteRow(sprite: Sprite, data: seq<U8>, posX: int, posY: int, blend: bool, scale2x: bool,
                         ghost s: seq<U8>, top: nat, y: nat, bits: nat)
      requires Valid() && |s| == BufferBytes && SpriteDrawable(sprite, data, posX, posY, scale2x)
      requires top == ClipSprite(sprite, posY, scale2x).top && y < ClipSprite(sprite, posY, scale2x).rows
      requires bits == sprite.offset + ClipSprite(sprite, posY, scale2x).skip + y * BytesPerRow(sprite)
      requires backbuffer[..] == SpriteProgress(sprite, data, posX, posY, blend, scale2x, s, y, 0)
      modifies backbuffer
      ensures backbuffer[..] == SpriteProgress(sprite, data, posX, posY, blend, scale2x, s, y + 1, 0)
    {
      PixelAddress(top + y, posX);
      var dest := ((top + y) * Width + posX) / 2;
      if scale2x {
        dest := (2 * (top + y) * Width + posX) / 2;
      }
      ghost var c := ClipSprite(sprite, posY, scale2x);
      var bits := bits;
      var x := 0;
      ghost var k := 0;
      while x < sprite.width
        invariant 0 <= k <= BytesPerRow(sprite) && x == 2 * k
        invariant dest == SpriteRowBase(posX, c, y, scale2x) + (if scale2x then 2 * k else k)
        invariant bits == sprite.offset + c.skip + y * BytesPerRow(sprite) + k
        invariant backbuffer[..] == SpriteProgress(sprite, data, posX, posY, blend, scale2x, s, y, k)
      {
        DrawSpriteByte(sprite, data, posX, posY, blend, scale2x, s, y, k, dest, bits);
        dest := dest + if scale2x then 2 else 1;
        bits := bits + 1;
        x := x + 2;
        k := k + 1;
      }
      SpriteProgressRowEnd(sprite, data, posX, posY, blend, scale2x, s, y);
    }

    /** One pass of the column loop: source byte `k` of drawn row `y`, read
        at `bits`, lands at `dest`. */
    method DrawSpriteByte(sprite: Sprite, data: seq<U8>, posX: int, posY: int, blend: bool, scale2x: bool,
                          ghost s: seq<U8>, ghost y: nat, ghost k: nat, dest: int, bits: nat)
      requires Valid() && |s| == BufferBytes && SpriteDrawable(sprite, data, posX, posY, scale2x)
      requires y < ClipSprite(sprite, posY, scale2x).rows && k < BytesPerRow(sprite)
      requires dest == SpriteRowBase(posX, ClipSprite(sprite, posY, scale2x), y, scale2x) + (if scale2x then 2 * k else k)
      requires bits == sprite.offset + ClipSprite(sprite, posY, scale2x).skip + y * BytesPerRow(sprite) + k
      requires backbuffer[..] == SpriteProgress(sprite, data, posX, posY, blend, scale2x, s, y, k)
      modifies backbuffer
      ensures backbuffer[..] == SpriteProgress(sprite, data, posX, posY, blend, scale2x, s, y, k + 1)
    {
      SourceIndex(sprite, data, ClipSprite(sprite, posY, scale2x), y, k);
      SpriteProgressStep(sprite, data, posX, posY, blend, scale2x, s, y, k);
      PutSpriteByte(dest, data[bits], blend, scale2x);
    }

    /** The body of the column loop: combine source byte `src` with the byte
        at `dest` and, in 2x mode, replicate the result into its 2x2 block. */
    method PutSpriteByte(dest: int, src: U8, blend: bool, scale2x: bool)
      requires Valid() && 0 <= dest && dest + (if scale2x then RowBytes + 1 else 0) < BufferBytes
      modifies backbuffer
      ensures backbuffer[..] == PutBlock(old(backbuffer[..]), dest, SpriteCombine(old(backbuffer[dest]), src, blend), scale2x)
    {
      if blend {
        backbuffer[dest] := BlendByte(backbuffer[dest], src);
      } else {
        backbuffer[dest] := src;
      }
      if scale2x {
        var p0 := Widen(backbuffer[dest], false);
        var p1 := Widen(backbuffer[dest], true);
        backbuffer[dest] := p0;
        backbuffer[dest + RowBytes] := p0;
        backbuffer[dest + 1] := p1;
        backbuffer[dest + RowBytes + 1] := p1;
      }
    }

    /** The width (wrapped to 16 bits, as `uint16_t` accumulates) and the
        height of `text`, which holds the characters before the terminating
        NUL; the source looks every character up without a range check. */
    method MeasureText(font: Font, text: seq<U8>) returns (w: U16, h: U16)
      requires ValidFont(font) && AllInRange(font, text)
      ensures w == TextWidth(font, text) % 0x1_0000
      ensures h == TextHeight(font, text)
    {
      w := 0;
      h := 0;
      var i := 0;
      while i < |text|
        invariant 0 <= i <= |text|
        invariant w == TextWidth(font, text[..i]) % 0x1_0000
        invariant h == TextHeight(font, text[..i])
      {
        var g := font.glyphs[text[i] - font.first];
        TextStep(font, text, i);
        Wrap16Add(TextWidth(font, text[..i]), g.width);
        w := if w + g.width >= 0x1_0000 then w + g.width - 0x1_0000 else w + g.width;
        h := if h > g.height then h else g.height;
        i := i + 1;
      }
      assert text[..|text|] == text;
    }

    method BeginRender()
      requires Valid()
      modifies this
      ensures Valid() && batch == 0 && InPass(batch, renderPtr, renderColumn)
    {
      renderPtr := 0;
      renderColumn := 0;
      batch := 0;
    }

    /** Fills the 16 words at `pixels + at` with the next batch of 32 display
        pixels and advances the cursor; the backbuffer is only read. The C
        address argument is the array together with the offset `at`. */
    method Render(pixels: array<U32>, at: nat)
      requires Valid() && InPass(batch, renderPtr, renderColumn)
      requires at + WordsPerBatch <= pixels.Length
      modifies this, pixels
      ensures Valid() && batch == old(batch) + 1
      ensures renderPtr == CursorPtr(batch) && renderColumn == CursorColumn(batch)
      ensures pixels[at..at + WordsPerBatch] == BatchWords(codec, backbuffer[..], old(batch))
      ensures pixels[..at] == old(pixels[..at])
      ensures pixels[at + WordsPerBatch..] == old(pixels[at + WordsPerBatch..])
      ensures backbuffer[..] == old(backbuffer[..])
    {
      RenderWords(pixels, at, batch);
      EndBatch();
    }

    /** The loop of `Render`: one word per two display pixels. */
    method RenderWords(pixels: array<U32>, at: nat, ghost k: nat)
      requires Valid() && k < BatchesPerFrame && renderPtr == CursorPtr(k)
      requires at + WordsPerBatch <= pixels.Length
      modifies this, pixels
      ensures renderPtr == old(renderPtr) + 2 * WordsPerBatch
      ensures batch == old(batch) && renderColumn == old(renderColumn)
      ensures pixels[at..at + WordsPerBatch] == BatchWords(codec, backbuffer[..], k)
      ensures pixels[..at] == old(pixels[..at])
      ensures pixels[at + WordsPerBatch..] == old(pixels[at + WordsPerBatch..])
    {
      ghost var s := backbuffer[..];
      ghost var ws := BatchWords(codec, s, k);
      for i := 0 to WordsPerBatch
        invariant renderPtr == CursorPtr(k) + 2 * i && backbuffer[..] == s
        invariant batch == old(batch) && renderColumn == old(renderColumn)
        invariant forall j :: 0 <= j < i ==> pixels[at + j] == ws[j]
        invariant forall j :: 0 <= j < pixels.Length && !(at <= j < at + i) ==> pixels[j] == old(pixels[j])
      {
        var word := RenderWord(s, k, i);
        pixels[at + i] := word;
      }
      assert pixels[at..at + WordsPerBatch] == ws;
      assert pixels[..at] == old(pixels[..at]);
      assert pixels[at + WordsPerBatch..] == old(pixels[at + WordsPerBatch..]);
    }

    /** The end of `Render`: a batch that completes a display row moves the
        cursor past the row below it, which the box filter has consumed. */
    method EndBatch()
      requires Valid() && batch < BatchesPerFrame
      requires renderPtr == CursorPtr(batch) + 2 * WordsPerBatch && renderColumn == CursorColumn(batch)
      modifies this
      ensures Valid() && batch == old(batch) + 1
      ensures renderPtr == CursorPtr(batch) && renderColumn == CursorColumn(batch)
    {
      CursorStep(batch);
      renderColumn := renderColumn + BatchPixels;
      if renderColumn >= DisplayWidth {
        renderPtr := renderPtr + Width * 4 / 8;
        renderColumn := 0;
      }
      batch := batch + 1;
    }

    /** One iteration of the `Render` loop: two output pixels from the two
        bytes at the cursor and the two bytes a row below them. */
    method RenderWord(ghost s: seq<U8>, ghost k: nat, ghost w: nat) returns (word: U32)
      requires Valid() && s == backbuffer[..] && k < BatchesPerFrame && w < WordsPerBatch
      requires renderPtr == CursorPtr(k) + 2 * w
      modifies this
      ensures renderPtr == old(renderPtr) + 2
      ensures batch == old(batch) && renderColumn == old(renderColumn)
      ensures word == BatchWords(codec, s, k)[w]
    {
      BatchWordReads(codec, s, k, w);
      var p := codec.palette;
      var ptr := renderPtr;
      var top := backbuffer[ptr];
      var below := backbuffer[ptr + RowBytes];
      ptr := ptr + 1;
      var b0 := codec.unexplode(ToU32(p[Lo(top)] as int + p[Hi(top)] + p[Lo(below)] + p[Hi(below)]) / 4);
      top := backbuffer[ptr];
      below := backbuffer[ptr + RowBytes];
      ptr := ptr + 1;
      var b1 := codec.unexplode(ToU32(p[Lo(top)] as int + p[Hi(top)] + p[Lo(below)] + p[Hi(below)]) / 4);
      renderPtr := ptr;
      b0 := Bswap16(b0);
      b1 := Bswap16(b1);
      word := b0 as int + 0x1_0000 * (b1 as int);
    }
  }
}
