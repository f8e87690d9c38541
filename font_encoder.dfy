/** The build-time font converter: each glyph of the font description is
    cut out of the font atlas, every pixel with alpha of at least 128 is a
    set bit, each glyph row becomes 32-bit words (the first pixel in the
    most significant bit), and each glyph gets a width, height and
    word-offset record. */
module FontEncoder {
  import opened Bytes
  import opened Options
  import opened Assets
  import opened Images
  import Surface

  /** One glyph line of the font description, `char x y w h _ _ advance`:
      the character code and the glyph's rectangle in the atlas (the
      advance is not used). */
  datatype GlyphLine = GlyphLine(code: nat, x: nat, y: nat, w: nat, h: nat)

  /** `p[3] >= 128`: the pixel is part of the glyph. */
  predicate Ink(p: Rgba) {
    p.a >= 128
  }

  /** The `w` by `h` block of the atlas whose top-left pixel is (x, y). */
  function Block(atlas: Image, x: nat, y: nat, w: nat, h: nat): (r: Image)
    requires WellFormed(atlas) && x + w <= atlas.width && y + h <= atlas.height
    ensures WellFormed(r) && r.width == w && r.height == h
  {
    if w == 0 then Image(0, h, [])
    else
      Image(w, h, seq(w * h, k requires 0 <= k < w * h =>
        DivBelow(k, w, h); At(atlas, x + k % w, y + k / w)))
  }

  lemma BlockAt(atlas: Image, x: nat, y: nat, w: nat, h: nat, gx: nat, gy: nat)
    requires WellFormed(atlas) && x + w <= atlas.width && y + h <= atlas.height
    requires gx < w && gy < h
    ensures At(Block(atlas, x, y, w, h), gx, gy) == At(atlas, x + gx, y + gy)
  {
    RowMajor(w, h, gx, gy);
    DivModUnique(gy * w + gx, w, gy, gx);
  }

  predicate InAtlas(atlas: Image, line: GlyphLine) {
    line.x + line.w <= atlas.width && line.y + line.h <= atlas.height
  }

  /** Pixel (px, py) of the glyph's rectangle is inked; the columns past
      its width, which the words pad out, are not. */
  predicate InkAt(atlas: Image, line: GlyphLine, px: nat, py: nat)
    requires WellFormed(atlas) && InAtlas(atlas, line) && py < line.h
  {
    px < line.w && Ink(At(atlas, line.x + px, line.y + py))
  }

  /** The pixels a glyph is made of: its own rectangle of the atlas. */
  function GlyphImage(atlas: Image, line: GlyphLine): (r: Image)
    requires WellFormed(atlas) && InAtlas(atlas, line)
    ensures WellFormed(r) && r.width == line.w && r.height == line.h
  {
    Block(atlas, line.x, line.y, line.w, line.h)
  }

  /** As written, the script computes `img.crop((x, y, w, h))`, never uses
      it, and reads `img.getpixel((gx, gy))`: every glyph is read from the
      atlas's top-left corner. */
  function GlyphImageAsWritten(atlas: Image, line: GlyphLine): (r: Image)
    requires WellFormed(atlas) && InAtlas(atlas, line)
    ensures WellFormed(r) && r.width == line.w && r.height == line.h
  {
    Block(atlas, 0, 0, line.w, line.h)
  }

  /** As written, a glyph's bitmap depends on its size alone: two glyphs of
      the same size get the same pixels wherever they sit in the atlas,
      while their own rectangles may hold different pixels. */
  lemma AsWrittenIgnoresPosition(atlas: Image, a: GlyphLine, b: GlyphLine, gx: nat, gy: nat)
    requires WellFormed(atlas) && InAtlas(atlas, a) && InAtlas(atlas, b)
    requires a.w == b.w && a.h == b.h && gx < a.w && gy < a.h
    ensures At(GlyphImageAsWritten(atlas, a), gx, gy) == At(GlyphImageAsWritten(atlas, b), gx, gy) == At(atlas, gx, gy)
    ensures At(GlyphImage(atlas, a), gx, gy) == At(atlas, a.x + gx, a.y + gy)
    ensures At(GlyphImage(atlas, b), gx, gy) == At(atlas, b.x + gx, b.y + gy)
  {
    BlockAt(atlas, 0, 0, a.w, a.h, gx, gy);
    BlockAt(atlas, a.x, a.y, a.w, a.h, gx, gy);
    BlockAt(atlas, b.x, b.y, b.w, b.h, gx, gy);
  }

  /** Which converter is meant: the script as written, or the script with
      its two slips corrected (each glyph read from its own rectangle, a
      short last group aligned to the word's top bit). The loops below
      compute either. */
  datatype Variant = AsWritten | Corrected

  /** The pixels the glyph loop reads for a glyph line. */
  function GlyphPixels(v: Variant, atlas: Image, line: GlyphLine): (r: Image)
    requires WellFormed(atlas) && InAtlas(atlas, line)
    ensures WellFormed(r) && r.width == line.w && r.height == line.h
  {
    if v == Corrected then GlyphImage(atlas, line) else GlyphImageAsWritten(atlas, line)
  }

  /** The ink of glyph row `gy`, left to right. */
  function RowBits(img: Image, gy: nat): (r: seq<bool>)
    requires WellFormed(img) && gy < img.height
    ensures |r| == img.width
  {
    InkBits(RowPixels(img, gy))
  }

  /** Row `gy` of an image, left to right. */
  function RowPixels(img: Image, gy: nat): (r: seq<Rgba>)
    requires WellFormed(img) && gy < img.height
    ensures |r| == img.width
  {
    seq(img.width, gx requires 0 <= gx < img.width => At(img, gx, gy))
  }

  /** The threshold applied to each pixel of a run. */
  function InkBits(row: seq<Rgba>): (r: seq<bool>)
    ensures |r| == |row|
  {
    seq(|row|, gx requires 0 <= gx < |row| => Ink(row[gx]))
  }

  /** `'0b' + bits` read as a binary literal: the first bit is the most
      significant. */
  function WordOf(bits: seq<bool>): (r: nat)
    ensures r < Pow2(|bits|)
  {
    if |bits| == 0 then 0
    else 2 * WordOf(bits[..|bits| - 1]) + (if bits[|bits| - 1] then 1 else 0)
  }

  lemma WordOfSnoc(bits: seq<bool>, b: bool)
    ensures WordOf(bits + [b]) == 2 * WordOf(bits) + (if b then 1 else 0)
  {
    assert (bits + [b])[..|bits|] == bits;
  }

  /** Bit `j` of the string, counted from the left, is bit `|bits| - 1 - j`
      of the number. */
  lemma {:induction false} WordBits(bits: seq<bool>, j: nat)
    requires j < |bits|
    ensures Bit(WordOf(bits), |bits| - 1 - j) == bits[j]
    decreases |bits|
  {
    var init := bits[..|bits| - 1];
    var b := if bits[|bits| - 1] then 1 else 0;
    if j == |bits| - 1 {
      BitOfDouble(WordOf(init), b, 0);
    } else {
      WordBits(init, j);
      BitOfDouble(WordOf(init), b, |bits| - 2 - j);
    }
  }

  /** Multiplying by 2^k moves every bit up by k and clears the k lowest. */
  lemma {:induction false} BitShift(v: nat, k: nat, i: nat)
    ensures Bit(v * Pow2(k), i + k) == Bit(v, i)
    ensures i < k ==> !Bit(v * Pow2(k), i)
    decreases k
  {
    if k > 0 {
      var u := v * Pow2(k - 1);
      assert v * Pow2(k) == 2 * u + 0;
      BitShift(v, k - 1, i);
      BitOfDouble(u, 0, i + k - 1);
      if 0 < i < k {
        BitShift(v, k - 1, i - 1);
        BitOfDouble(u, 0, i - 1);
      } else if i == 0 {
        BitOfDouble(u, 0, 0);
      }
    }
  }

  lemma Pow2Of32()
    ensures Pow2(32) == 0x1_0000_0000
  {
    assert Pow2(8) == 0x100;
    Pow2Add(8, 8);
    Pow2Add(16, 16);
  }

  /** Pixels 32k .. 32k+31 of a row (fewer in the last group). */
  function Group(bits: seq<bool>, k: nat): (g: seq<bool>)
    requires 32 * k < |bits|
    ensures 0 < |g| <= 32
  {
    bits[32 * k .. if 32 * k + 32 <= |bits| then 32 * k + 32 else |bits|]
  }

  /** One group as a word whose bit 31 is the group's first pixel: a short
      last group is padded with zeros on the right. */
  function AlignedWord(g: seq<bool>): (r: U32)
    requires |g| <= 32
  {
    ShiftFits(WordOf(g), |g|);
    WordOf(g) * Pow2(32 - |g|)
  }

  /** As written: the group's value as it stands, its last pixel in bit 0. */
  function RightAlignedWord(g: seq<bool>): (r: U32)
    requires |g| <= 32
  {
    ShiftFits(WordOf(g), |g|);
    WordOf(g)
  }

  lemma ShiftFits(v: nat, n: nat)
    requires n <= 32 && v < Pow2(n)
    ensures v <= v * Pow2(32 - n) < 0x1_0000_0000
  {
    var p := Pow2(32 - n);
    Pow2Of32();
    Pow2Add(n, 32 - n);
    MulLe(v + 1, Pow2(n), p);
    MulLe(1, p, v);
    MulSucc(v, p);
  }

  /** The words of one glyph row. */
  function RowWords(bits: seq<bool>): (r: seq<U32>)
    ensures |r| == (|bits| + 31) / 32
  {
    seq((|bits| + 31) / 32, k requires 0 <= k < (|bits| + 31) / 32 => AlignedWord(Group(bits, k)))
  }

  /** As written: a short last group is padded with zeros on the left
      (`'0' * (32 - bit_count)`), so its pixels end at bit 0. */
  function RowWordsAsWritten(bits: seq<bool>): (r: seq<U32>)
    ensures |r| == (|bits| + 31) / 32
  {
    seq((|bits| + 31) / 32, k requires 0 <= k < (|bits| + 31) / 32 => RightAlignedWord(Group(bits, k)))
  }

  /** The words a row gets from the chosen converter. */
  function EncodedRow(v: Variant, bits: seq<bool>): (r: seq<U32>)
    ensures |r| == (|bits| + 31) / 32
  {
    if v == Corrected then RowWords(bits) else RowWordsAsWritten(bits)
  }

  /** Pixel `px` of a row is bit `31 - px % 32` of word `px / 32`, the bit
      the glyph renderer tests; the bits past the row's width are clear, so
      the renderer, which draws whole words, lights nothing beyond the
      glyph. */
  lemma RowWordsBits(bits: seq<bool>, px: nat)
    requires px < 32 * |RowWords(bits)|
    ensures Bit(RowWords(bits)[px / 32], 31 - px % 32) == (px < |bits| && bits[px])
  {
    var k, j := px / 32, px % 32;
    assert px == 32 * k + j && j < 32;
    var g := Group(bits, k);
    assert RowWords(bits)[k] == AlignedWord(g);
    AlignedBit(g, j);
    if j < |g| {
      assert px < |bits| && g[j] == bits[px];
    } else {
      assert px >= |bits|;
    }
  }

  /** Bit `31 - j` of a group's word is the group's pixel `j`, and clear
      past the group's end. */
  lemma AlignedBit(g: seq<bool>, j: nat)
    requires |g| <= 32 && j < 32
    ensures Bit(AlignedWord(g), 31 - j) == (j < |g| && g[j])
  {
    if j < |g| {
      BitShift(WordOf(g), 32 - |g|, |g| - 1 - j);
      WordBits(g, j);
      assert 31 - j == (|g| - 1 - j) + (32 - |g|);
    } else {
      BitShift(WordOf(g), 32 - |g|, 31 - j);
    }
  }

  /** As written, pixel `px` of a short last group of `n` pixels lands on
      bit `n - 1 - px % 32`: the renderer draws it `32 - n` columns to the
      right of where it belongs. */
  lemma RowWordsAsWrittenBits(bits: seq<bool>, px: nat)
    requires px < |bits|
    ensures var g := Group(bits, px / 32);
      Bit(RowWordsAsWritten(bits)[px / 32], |g| - 1 - px % 32) == bits[px]
  {
    WordBits(Group(bits, px / 32), px % 32);
  }

  /** The smallest case: a glyph one pixel wide whose pixel is set. As
      written its row word is 1, which the renderer reads as pixel 31 lit
      and pixel 0 dark; the aligned word 0x8000_0000 lights pixel 0. */
  lemma NarrowGlyphShifted()
    ensures RowWordsAsWritten([true]) == [1]
    ensures !Bit(1, 31) && Bit(1, 0)
    ensures RowWords([true]) == [0x8000_0000] && Bit(0x8000_0000, 31)
  {
    var g := Group([true], 0);
    assert g == [true];
    assert WordOf(g) == 1 by {
      assert g[..0] == [];
    }
    Pow2Of32();
    assert Pow2(31) == 0x8000_0000 by {
      assert Pow2(32) == 2 * Pow2(31);
    }
    BitAboveWidth(1, 1, 31);
    BitShift(1, 31, 0);
  }

  /** The number of words before row `py` of a glyph `w` pixels wide. */
  function RowStart(py: nat, w: nat): nat {
    py * ((w + 31) / 32)
  }

  /** Rows 0 .. n-1 concatenated. */
  function Flatten(rows: seq<seq<U32>>, n: nat): (r: seq<U32>)
    requires n <= |rows|
  {
    if n == 0 then [] else Flatten(rows, n - 1) + rows[n - 1]
  }

  /** With rows of `w` words each, word `k` of row `r` sits at `r * w + k`. */
  lemma {:induction false} FlattenAt(rows: seq<seq<U32>>, w: nat, n: nat, r: nat, k: nat)
    requires n <= |rows| && forall j :: 0 <= j < |rows| ==> |rows[j]| == w
    requires r < n && k < w
    ensures |Flatten(rows, n)| == n * w
    ensures r * w + k < |Flatten(rows, n)| && Flatten(rows, n)[r * w + k] == rows[r][k]
  {
    FlattenLength(rows, w, n);
    FlattenLength(rows, w, n - 1);
    MulSucc(n - 1, w);
    if r < n - 1 {
      FlattenAt(rows, w, n - 1, r, k);
    } else {
      assert r * w == |Flatten(rows, n - 1)|;
    }
  }

  lemma {:induction false} FlattenLength(rows: seq<seq<U32>>, w: nat, n: nat)
    requires n <= |rows| && forall j :: 0 <= j < |rows| ==> |rows[j]| == w
    ensures |Flatten(rows, n)| == n * w
  {
    if n > 0 {
      FlattenLength(rows, w, n - 1);
      MulSucc(n - 1, w);
    }
  }

  /** The words of each row of a glyph. */
  function GlyphRows(v: Variant, img: Image): (r: seq<seq<U32>>)
    requires WellFormed(img)
    ensures |r| == img.height
    ensures forall j :: 0 <= j < |r| ==> |r[j]| == (img.width + 31) / 32
  {
    seq(img.height, j requires 0 <= j < img.height => EncodedRow(v, RowBits(img, j)))
  }

  /** The words of rows 0 .. n-1 of a glyph, row after row. */
  function GlyphWords(v: Variant, img: Image, n: nat): seq<U32>
    requires WellFormed(img) && n <= img.height
  {
    Flatten(GlyphRows(v, img), n)
  }

  /** The words one glyph adds to the table. */
  function GlyphTable(v: Variant, atlas: Image, line: GlyphLine): seq<U32>
    requires WellFormed(atlas) && InAtlas(atlas, line)
  {
    var img := GlyphPixels(v, atlas, line);
    GlyphWords(v, img, img.height)
  }

  /** A glyph has `(w + 31) / 32` words per row, and word `k` of row `py`
      is word `k` of that row's encoding. */
  lemma GlyphWordsAt(v: Variant, img: Image, py: nat, k: nat)
    requires WellFormed(img) && py < img.height && k < (img.width + 31) / 32
    ensures |GlyphWords(v, img, img.height)| == img.height * ((img.width + 31) / 32)
    ensures RowStart(py, img.width) + k < |GlyphWords(v, img, img.height)|
    ensures GlyphWords(v, img, img.height)[RowStart(py, img.width) + k] == EncodedRow(v, RowBits(img, py))[k]
  {
    FlattenAt(GlyphRows(v, img), (img.width + 31) / 32, img.height, py, k);
  }

  /** One printed record: `(w, h, len(glyph_data))`. */
  datatype GlyphRecord = GlyphRecord(width: nat, height: nat, offset: nat)

  /** The conversion's output: the bitmap words and one record per glyph. */
  datatype FontSheet = FontSheet(words: seq<U32>, records: seq<GlyphRecord>)

  predicate AllInAtlas(atlas: Image, lines: seq<GlyphLine>) {
    forall i :: 0 <= i < |lines| ==> InAtlas(atlas, lines[i])
  }

  /** The sheet for the first `n` glyph lines, given each glyph's words:
      a record with the current table length, then the glyph's words. */
  function Assemble(lines: seq<GlyphLine>, tables: seq<seq<U32>>, n: nat): (r: FontSheet)
    requires n <= |lines| == |tables|
    ensures |r.records| == n
  {
    if n == 0 then FontSheet([], [])
    else
      var prev := Assemble(lines, tables, n - 1);
      FontSheet(prev.words + tables[n - 1],
        prev.records + [GlyphRecord(lines[n - 1].w, lines[n - 1].h, |prev.words|)])
  }

  /** Each glyph line's words. */
  function GlyphTables(v: Variant, atlas: Image, lines: seq<GlyphLine>): (r: seq<seq<U32>>)
    requires WellFormed(atlas) && AllInAtlas(atlas, lines)
    ensures |r| == |lines|
  {
    seq(|lines|, i requires 0 <= i < |lines| => GlyphTable(v, atlas, lines[i]))
  }

  /** The sheet for the first `n` glyph lines. */
  function FontEncoded(v: Variant, atlas: Image, lines: seq<GlyphLine>, n: nat): (r: FontSheet)
    requires WellFormed(atlas) && AllInAtlas(atlas, lines) && n <= |lines|
  {
    Assemble(lines, GlyphTables(v, atlas, lines), n)
  }

  /** `first_glyph`: the character of the first glyph line. */
  function FirstGlyph(lines: seq<GlyphLine>): (r: Option<nat>)
    ensures r.Some? <==> |lines| > 0
  {
    if |lines| == 0 then None else Some(lines[0].code)
  }

  /** Record `i` gives glyph `i`'s size, and its offset counts the words of
      the glyphs before it. */
  lemma {:induction false} AssembleRecords(lines: seq<GlyphLine>, tables: seq<seq<U32>>, n: nat, i: nat)
    requires n <= |lines| == |tables| && i < n
    ensures Assemble(lines, tables, n).records[i] ==
      GlyphRecord(lines[i].w, lines[i].h, |Assemble(lines, tables, i).words|)
  {
    if i < n - 1 {
      AssembleRecords(lines, tables, n - 1, i);
    }
  }

  /** Word `m` of glyph `i` sits at the glyph's offset plus `m`, and the
      glyph's words lie inside the table. */
  lemma {:induction false} AssembleWordAt(lines: seq<GlyphLine>, tables: seq<seq<U32>>, n: nat, i: nat, m: nat)
    requires n <= |lines| == |tables| && i < n && m < |tables[i]|
    ensures var s := Assemble(lines, tables, n);
      && s.records[i].offset + m < |s.words|
      && s.words[s.records[i].offset + m] == tables[i][m]
  {
    AssembleRecords(lines, tables, n, i);
    AssembleTail(lines, tables, n, i, m);
  }

  lemma {:induction false} AssembleTail(lines: seq<GlyphLine>, tables: seq<seq<U32>>, n: nat, i: nat, m: nat)
    requires n <= |lines| == |tables| && i < n && m < |tables[i]|
    ensures var off := |Assemble(lines, tables, i).words|;
      && off + m < |Assemble(lines, tables, n).words|
      && Assemble(lines, tables, n).words[off + m] == tables[i][m]
  {
    if i < n - 1 {
      AssembleTail(lines, tables, n - 1, i, m);
    }
  }

  /** Every glyph's words lie inside the table, empty ones included. */
  lemma AssembleFits(lines: seq<GlyphLine>, tables: seq<seq<U32>>, i: nat)
    requires i < |lines| == |tables|
    ensures var s := Assemble(lines, tables, |lines|);
      s.records[i].offset + |tables[i]| <= |s.words|
  {
    AssembleRecords(lines, tables, |lines|, i);
    if |tables[i]| > 0 {
      AssembleTail(lines, tables, |lines|, i, |tables[i]| - 1);
    } else {
      AssembleGrow(lines, tables, i, |lines|);
    }
  }

  lemma {:induction false} AssembleGrow(lines: seq<GlyphLine>, tables: seq<seq<U32>>, i: nat, n: nat)
    requires i <= n <= |lines| == |tables|
    ensures |Assemble(lines, tables, i).words| <= |Assemble(lines, tables, n).words|
    decreases n
  {
    if i < n {
      AssembleGrow(lines, tables, i, n - 1);
    }
  }

  /** Within one glyph: bit `31 - px % 32` of word `px / 32` of row `py`
      is pixel (px, py) of the glyph's rectangle, and clear past its width. */
  lemma GlyphRowBit(atlas: Image, line: GlyphLine, px: nat, py: nat)
    requires WellFormed(atlas) && InAtlas(atlas, line)
    requires py < line.h && px < 32 * ((line.w + 31) / 32)
    ensures var img := GlyphImage(atlas, line);
      Bit(RowWords(RowBits(img, py))[px / 32], 31 - px % 32) ==
        InkAt(atlas, line, px, py)
  {
    var img := GlyphImage(atlas, line);
    RowWordsBits(RowBits(img, py), px);
    if px < line.w {
      BlockAt(atlas, line.x, line.y, line.w, line.h, px, py);
    }
  }

  /** Word `k` of row `py` of glyph `i` sits at the glyph's offset plus
      `py * wordsPerRow + k` in the table. */
  lemma TableWord(v: Variant, atlas: Image, lines: seq<GlyphLine>, i: nat, py: nat, k: nat)
    requires WellFormed(atlas) && AllInAtlas(atlas, lines) && i < |lines|
    requires py < lines[i].h && k < (lines[i].w + 31) / 32
    ensures var s := FontEncoded(v, atlas, lines, |lines|);
      var n := s.records[i].offset + RowStart(py, lines[i].w) + k;
      && n < |s.words|
      && s.words[n] == EncodedRow(v, RowBits(GlyphPixels(v, atlas, lines[i]), py))[k]
  {
    var tables := GlyphTables(v, atlas, lines);
    var img := GlyphPixels(v, atlas, lines[i]);
    assert tables[i] == GlyphWords(v, img, img.height);
    GlyphWordsAt(v, img, py, k);
    assert RowStart(py, img.width) == RowStart(py, lines[i].w);
    AssembleWordAt(lines, tables, |lines|, i, RowStart(py, lines[i].w) + k);
  }

  /** End to end: in the word table, bit `31 - px % 32` of word
      `offset + py * wordsPerRow + px / 32` of glyph `i` is set exactly when
      pixel (px, py) of the glyph's rectangle is inked, and clear for the
      padding past its width. */
  lemma FontGlyphBits(atlas: Image, lines: seq<GlyphLine>, i: nat, px: nat, py: nat)
    requires WellFormed(atlas) && AllInAtlas(atlas, lines) && i < |lines|
    requires py < lines[i].h && px < 32 * ((lines[i].w + 31) / 32)
    ensures var s := FontEncoded(Corrected, atlas, lines, |lines|);
      var line := lines[i];
      var n := s.records[i].offset + RowStart(py, line.w) + px / 32;
      && n < |s.words|
      && Bit(s.words[n], 31 - px % 32) == InkAt(atlas, line, px, py)
  {
    TableWord(Corrected, atlas, lines, i, py, px / 32);
    GlyphRowBit(atlas, lines[i], px, py);
  }

  /** As written, end to end: a glyph narrower than 32 pixels has one word
      per row, and pixel (px, py) of the atlas's top-left corner, not of
      the glyph's rectangle, sits at bit `w - 1 - px` of it, where the
      renderer expects the glyph's own pixel at bit `31 - px`. */
  lemma FontGlyphBitsAsWritten(atlas: Image, lines: seq<GlyphLine>, i: nat, px: nat, py: nat)
    requires WellFormed(atlas) && AllInAtlas(atlas, lines) && i < |lines|
    requires lines[i].w < 32 && px < lines[i].w && py < lines[i].h
    ensures var s := FontEncoded(AsWritten, atlas, lines, |lines|);
      var n := s.records[i].offset + py;
      && n < |s.words|
      && Bit(s.words[n], lines[i].w - 1 - px) == Ink(At(atlas, px, py))
  {
    var line := lines[i];
    assert (line.w + 31) / 32 == 1;
    assert RowStart(py, line.w) == py;
    TableWord(AsWritten, atlas, lines, i, py, 0);
    var img := GlyphPixels(AsWritten, atlas, line);
    var bits := RowBits(img, py);
    RowWordsAsWrittenBits(bits, px);
    assert |Group(bits, 0)| == line.w;
    BlockAt(atlas, 0, 0, line.w, line.h, px, py);
    assert bits[px] == Ink(At(img, px, py));
  }

  /** Every glyph's words lie inside the table. */
  lemma RecordFits(v: Variant, atlas: Image, lines: seq<GlyphLine>, i: nat)
    requires WellFormed(atlas) && AllInAtlas(atlas, lines) && i < |lines|
    ensures var s := FontEncoded(v, atlas, lines, |lines|);
      s.records[i].offset + lines[i].h * ((lines[i].w + 31) / 32) <= |s.words|
  {
    var tables := GlyphTables(v, atlas, lines);
    var img := GlyphPixels(v, atlas, lines[i]);
    assert tables[i] == GlyphWords(v, img, img.height);
    GlyphWordsSize(v, img);
    AssembleFits(lines, tables, i);
  }

  lemma GlyphWordsSize(v: Variant, img: Image)
    requires WellFormed(img)
    ensures |GlyphWords(v, img, img.height)| == img.height * ((img.width + 31) / 32)
  {
    FlattenLength(GlyphRows(v, img), (img.width + 31) / 32, img.height);
  }

  /** The renderer's `GlyphWord` reads word `offset + r * wordsPerRow + k`
      of the table. */
  lemma GlyphWordIndex(f: Font, g: Glyph, py: nat, k: nat)
    requires GlyphFits(g, |f.data|) && py < g.height && k < WordsPerRow(g)
    ensures g.offset + py * WordsPerRow(g) + k < |f.data|
    ensures Surface.GlyphWord(f, g, py, k) == f.data[g.offset + py * WordsPerRow(g) + k]
  {
    RowMajor(WordsPerRow(g), g.height, k, py);
  }

  /** The converted font, read through the renderer's `GlyphWord`: when
      the firmware descriptor `g` carries glyph `i`'s size and offset, pixel
      (px, py) is drawn lit exactly when it is inked in the atlas, and the
      padding pixels past the glyph's width are never lit. */
  lemma FontGlyphPixel(atlas: Image, lines: seq<GlyphLine>, f: Font, g: Glyph, i: nat, px: nat, py: nat)
    requires WellFormed(atlas) && AllInAtlas(atlas, lines) && i < |lines|
    requires f.data == FontEncoded(Corrected, atlas, lines, |lines|).words
    requires g.width as int == lines[i].w && g.height as int == lines[i].h
    requires g.offset as int == FontEncoded(Corrected, atlas, lines, |lines|).records[i].offset
    requires py < g.height && px / 32 < WordsPerRow(g)
    ensures GlyphFits(g, |f.data|)
    ensures Bit(Surface.GlyphWord(f, g, py, px / 32), 31 - px % 32) == InkAt(atlas, lines[i], px, py)
  {
    var w := WordsPerRow(g);
    assert GlyphFits(g, |f.data|) by {
      RecordFits(Corrected, atlas, lines, i);
    }
    var n := g.offset + RowStart(py, g.width) + px / 32;
    assert n < |f.data| && Bit(f.data[n], 31 - px % 32) == InkAt(atlas, lines[i], px, py) by {
      assert px < 32 * w && RowStart(py, g.width) == RowStart(py, lines[i].w);
      FontGlyphBits(atlas, lines, i, px, py);
    }
    DescriptorBit(f, g, py, px, n, InkAt(atlas, lines[i], px, py));
  }

  lemma DescriptorBit(f: Font, g: Glyph, py: nat, px: nat, n: nat, b: bool)
    requires GlyphFits(g, |f.data|) && py < g.height && px / 32 < WordsPerRow(g)
    requires n == g.offset + RowStart(py, g.width) + px / 32 && n < |f.data|
    requires Bit(f.data[n], 31 - px % 32) == b
    ensures Bit(Surface.GlyphWord(f, g, py, px / 32), 31 - px % 32) == b
  {
    GlyphWordIndex(f, g, py, px / 32);
  }

  /** The pixel loop of one glyph row: pixels are shifted into `acc` and
      a word is appended after every 32; `count` pixels are left over. */
  method ShiftRow(row: seq<Rgba>) returns (words: seq<U32>, acc: nat, count: nat)
    ensures |row| == 32 * |words| + count && count < 32
    ensures WordsSoFar(InkBits(row), words)
    ensures acc == AccOf(InkBits(row), 32 * |words|, |row|)
  {
    ghost var bits := InkBits(row);
    words := [];
    acc := 0;
    count := 0;
    for gx := 0 to |row|
      invariant Shifted(bits, gx, words, acc, count)
    {
      ShiftStep(bits, gx, words, acc, count);
      acc := 2 * acc + if Ink(row[gx]) then 1 else 0;
      if count == 31 {
        words := words + [acc];
        acc := 0;
        count := 0;
      } else {
        count := count + 1;
      }
    }
  }

  /** After `gx` pixels: the full groups so far are in `words`, and the
      `count` bits of the group being filled are in `acc`. */
  ghost predicate Shifted(bits: seq<bool>, gx: nat, words: seq<U32>, acc: nat, count: nat) {
    && gx == 32 * |words| + count && count < 32 && gx <= |bits|
    && WordsSoFar(bits, words)
    && acc == AccOf(bits, 32 * |words|, gx)
  }

  /** Shifting in bit `gx` extends the accumulator, and the 32nd bit of a
      group completes the group's word. */
  lemma ShiftStep(bits: seq<bool>, gx: nat, words: seq<U32>, acc: nat, count: nat)
    requires gx < |bits| && Shifted(bits, gx, words, acc, count)
    ensures var next := 2 * acc + if bits[gx] then 1 else 0;
      if count == 31 then next < 0x1_0000_0000 && Shifted(bits, gx + 1, words + [next], 0, 0)
      else Shifted(bits, gx + 1, words, next, count + 1)
  {
    var next := 2 * acc + if bits[gx] then 1 else 0;
    if count == 31 {
      FullWord(bits, |words|, gx + 1, next);
      WordsSnoc(bits, words, next);
    }
  }

  /** One glyph row: the full words, then the short last group, which the
      script as written leaves in the word's low bits (zeros in front) and
      the corrected script moves up to the word's top bit. */
  method EncodeRow(v: Variant, img: Image, gy: nat) returns (words: seq<U32>)
    requires WellFormed(img) && gy < img.height
    ensures words == EncodedRow(v, RowBits(img, gy))
  {
    var row := RowPixels(img, gy);
    ghost var bits := InkBits(row);
    var acc, count;
    words, acc, count := ShiftRow(row);
    if count > 0 {
      TailWord(bits, |words|, count, acc);
      var last := if v == Corrected then acc * Pow2(32 - count) else acc;
      WordCount(|words|, count);
      EncodedRowTail(v, bits, words, last);
      words := words + [last];
    } else {
      WordCount(|words|, 0);
      EncodedRowFull(v, bits, words);
    }
  }

  /** The accumulator after shifting in pixels lo .. hi-1. */
  function AccOf(bits: seq<bool>, lo: nat, hi: nat): nat
    requires lo <= hi <= |bits|
    decreases hi
  {
    if hi == lo then 0 else 2 * AccOf(bits, lo, hi - 1) + (if bits[hi - 1] then 1 else 0)
  }

  /** The accumulator holds the binary value of the pixels shifted in. */
  lemma {:induction false} AccOfWord(bits: seq<bool>, lo: nat, hi: nat)
    requires lo <= hi <= |bits|
    ensures AccOf(bits, lo, hi) == WordOf(bits[lo .. hi])
    decreases hi
  {
    if hi > lo {
      AccOfWord(bits, lo, hi - 1);
      assert bits[lo .. hi] == bits[lo .. hi - 1] + [bits[hi - 1]];
      WordOfSnoc(bits[lo .. hi - 1], bits[hi - 1]);
    }
  }

  /** A full group's value is its aligned word. */
  lemma FullWord(bits: seq<bool>, k: nat, hi: nat, acc: nat)
    requires hi == 32 * k + 32 <= |bits| && acc == AccOf(bits, 32 * k, hi)
    ensures acc < 0x1_0000_0000 && acc == AlignedWord(Group(bits, k))
  {
    AccOfWord(bits, 32 * k, hi);
    Pow2Of32();
    assert Pow2(0) == 1;
  }

  /** The short last group as it stands is its right-aligned word, and
      shifted up to the word's top bit it is its aligned word. */
  lemma TailWord(bits: seq<bool>, k: nat, count: nat, acc: nat)
    requires 0 < count < 32 && |bits| == 32 * k + count && acc == AccOf(bits, 32 * k, |bits|)
    ensures acc == RightAlignedWord(Group(bits, k))
    ensures acc * Pow2(32 - count) == AlignedWord(Group(bits, k)) < 0x1_0000_0000
  {
    AccOfWord(bits, 32 * k, |bits|);
  }

  /** A row of `32 n + c` pixels (c < 32) has n words, one more for c > 0. */
  lemma WordCount(n: nat, c: nat)
    requires c < 32
    ensures (32 * n + c + 31) / 32 == if c > 0 then n + 1 else n
  {
    if c > 0 {
      DivModUnique(32 * n + c + 31, 32, n + 1, c - 1);
    } else {
      DivModUnique(32 * n + 31, 32, n, 31);
    }
  }

  /** `words` holds the aligned words of the first `|words|` groups. */
  predicate WordsSoFar(bits: seq<bool>, words: seq<U32>) {
    forall k :: 0 <= k < |words| ==> 32 * k < |bits| && words[k] == AlignedWord(Group(bits, k))
  }

  lemma WordsSnoc(bits: seq<bool>, words: seq<U32>, w: U32)
    requires WordsSoFar(bits, words) && 32 * |words| < |bits|
    requires w == AlignedWord(Group(bits, |words|))
    ensures WordsSoFar(bits, words + [w])
  {
  }

  /** A full group reads the same either way. */
  lemma FullGroupWord(g: seq<bool>)
    requires |g| == 32
    ensures AlignedWord(g) == RightAlignedWord(g)
  {
    assert Pow2(0) == 1;
  }

  /** A row of whole groups: the words of its groups are its encoding in
      either converter. */
  lemma EncodedRowFull(v: Variant, bits: seq<bool>, words: seq<U32>)
    requires |bits| == 32 * |words| && WordsSoFar(bits, words)
    requires |words| == (|bits| + 31) / 32
    ensures words == EncodedRow(v, bits)
  {
    forall k | 0 <= k < |words|
      ensures words[k] == EncodedRow(v, bits)[k]
    {
      FullGroupWord(Group(bits, k));
    }
  }

  /** A row ending in a short group: the full groups' words and the tail
      word of the chosen converter are its encoding. */
  lemma EncodedRowTail(v: Variant, bits: seq<bool>, words: seq<U32>, last: nat)
    requires 32 * |words| < |bits| && WordsSoFar(bits, words)
    requires |words| + 1 == (|bits| + 31) / 32
    requires last == if v == Corrected then AlignedWord(Group(bits, |words|)) else RightAlignedWord(Group(bits, |words|))
    ensures last < 0x1_0000_0000 && words + [last] == EncodedRow(v, bits)
  {
    forall k | 0 <= k < |words|
      ensures words[k] == EncodedRow(v, bits)[k]
    {
      FullGroupWord(Group(bits, k));
    }
  }

  /** The row loop of one glyph. */
  method EncodeGlyph(v: Variant, img: Image) returns (words: seq<U32>)
    requires WellFormed(img)
    ensures words == GlyphWords(v, img, img.height)
  {
    words := [];
    for gy := 0 to img.height
      invariant words == GlyphWords(v, img, gy)
    {
      var row := EncodeRow(v, img, gy);
      words := words + row;
    }
  }

  /** The loop over the glyph lines: remember the first character, append
      the record, then the glyph's words. `v == AsWritten` is the script as
      it stands; `FontGlyphBits` and `FontGlyphPixel` state what the
      corrected sheet means, `FontGlyphBitsAsWritten` what the other one
      holds. */
  method EncodeFont(v: Variant, atlas: Image, lines: seq<GlyphLine>) returns (sheet: FontSheet, first: Option<nat>)
    requires WellFormed(atlas) && AllInAtlas(atlas, lines)
    ensures sheet == FontEncoded(v, atlas, lines, |lines|)
    ensures first == FirstGlyph(lines)
  {
    var words: seq<U32> := [];
    var records: seq<GlyphRecord> := [];
    first := None;
    for i := 0 to |lines|
      invariant FontSheet(words, records) == FontEncoded(v, atlas, lines, i)
      invariant first == if i == 0 then None else Some(lines[0].code)
    {
      var line := lines[i];
      if first.None? {
        first := Some(line.code);
      }
      records := records + [GlyphRecord(line.w, line.h, |words|)];
      var glyph := EncodeGlyph(v, GlyphPixels(v, atlas, line));
      words := words + glyph;
    }
    sheet := FontSheet(words, records);
  }
}
