/** The build-time sprite converter: every sprite image becomes a run of
    4-bit palette indices (an odd-width image is first widened by one
    transparent column on the left and two on the right), two indices are
    packed per byte, low nibble first, and each image gets a width, height
    and byte-offset record. Image decoding is the imaging library's; here an
    image is its decoded RGBA pixels, row by row. */
module SpriteEncoder {
  import opened Bytes
  import opened Options
  import opened Assets
  import opened Images

  /** A table of sixteen 0xRRGGBB colours; a pixel's position in it is what
      the sprite data stores. */
  type PaletteTable = s: seq<U32> | |s| == 16
    witness [0, 0, 0, 0, 0, 0, 0, 0, 0, 0, 0, 0, 0, 0, 0, 0]

  /** The converter's palette. */
  const Palette: PaletteTable := [
    0x1a1c2c, 0x5d275d, 0xb13e53, 0xef7d57, 0xffcd75, 0xa7f070, 0x38b764, 0x257179,
    0x29366f, 0x3b5dc9, 0x41a6f6, 0x73eff7, 0x333c57, 0x566c86, 0x94b0c2, 0xf4f4f4
  ]

  /** `p[2] | (p[1] << 8) | (p[0] << 16)`. */
  function Rgb(p: Rgba): U32 {
    p.b as int + 0x100 * p.g as int + 0x1_0000 * p.r as int
  }

  /** `list.index`: the first position holding `c`, if any. */
  function FirstIndex(xs: seq<U32>, c: U32): (r: Option<nat>)
    ensures r.None? <==> c !in xs
    ensures r.Some? ==> r.value < |xs| && xs[r.value] == c && c !in xs[..r.value]
  {
    if |xs| == 0 then None
    else if xs[0] == c then Some(0)
    else match FirstIndex(xs[1..], c)
      case None => None
      case Some(i) =>
        assert xs[..i + 1] == [xs[0]] + xs[1..][..i];
        Some(i + 1)
  }

  /** The index stored for one pixel: 0 for a fully transparent pixel,
      otherwise the palette position of its colour; a colour outside the
      palette stops the conversion. */
  function ColourIndex(palette: PaletteTable, p: Rgba): (r: Option<Nibble>) {
    if p.a == 0 then Some(0)
    else match FirstIndex(palette, Rgb(p))
      case None => None
      case Some(i) => Some(i)
  }

  predicate Distinct(palette: PaletteTable) {
    forall i, j :: 0 <= i < j < |palette| ==> palette[i] != palette[j]
  }

  /** The converter's palette holds sixteen different colours. */
  lemma PaletteDistinct()
    ensures Distinct(Palette)
  {
  }

  /** A pixel is accepted exactly when it is transparent or its colour is in
      the palette; the stored index of a visible pixel names its colour, and
      a palette colour is stored as its own position. */
  lemma ColourIndexRoundTrip(palette: PaletteTable, p: Rgba)
    ensures ColourIndex(palette, p).Some? <==> p.a == 0 || Rgb(p) in palette
    ensures p.a == 0 ==> ColourIndex(palette, p) == Some(0)
    ensures p.a != 0 && ColourIndex(palette, p).Some? ==> palette[ColourIndex(palette, p).value] == Rgb(p)
    ensures Distinct(palette) ==>
      forall i :: p.a != 0 && 0 <= i < |palette| && Rgb(p) == palette[i] ==> ColourIndex(palette, p) == Some(i)
  {
  }

  /** A pixel of the widened image, `x` counted in the original. */
  function PadPixel(img: Image, x: int, y: nat): Rgba
    requires WellFormed(img) && y < img.height
  {
    if 0 <= x < img.width then At(img, x, y) else Transparent
  }

  /** `img.crop((-1, 0, width + 2, height))` for an odd width: three columns
      wider, the original starting at column 1. */
  function Padded(img: Image): (r: Image)
    requires WellFormed(img)
    ensures WellFormed(r) && r.height == img.height
    ensures r.width == if img.width % 2 == 1 then img.width + 3 else img.width
  {
    if img.width % 2 == 0 then img
    else
      var w := img.width + 3;
      Image(w, img.height, seq(w * img.height, k requires 0 <= k < w * img.height => WidePixel(img, w, k)))
  }

  /** Pixel `k`, in row-major order, of the image widened to `w` columns. */
  function WidePixel(img: Image, w: nat, k: nat): Rgba
    requires WellFormed(img) && w > 0 && k < w * img.height
  {
    DivBelow(k, w, img.height);
    PadPixel(img, k % w - 1, k / w)
  }

  /** Every encoded image has an even width; an odd one gains a transparent
      column on its left and two on its right. */
  lemma PaddedPixels(img: Image, x: nat, y: nat)
    requires WellFormed(img)
    ensures Padded(img).width % 2 == 0
    ensures x < Padded(img).width && y < img.height ==>
      At(Padded(img), x, y) ==
        if img.width % 2 == 0 then At(img, x, y) else PadPixel(img, x - 1, y)
  {
    var p := Padded(img);
    if img.width % 2 == 1 && x < p.width && y < img.height {
      RowMajor(p.width, p.height, x, y);
      DivModUnique(y * p.width + x, p.width, y, x);
    }
  }

  /** The indices of the first `n` pixels of a run, or `None` when one of
      them has none. */
  function Indices(palette: PaletteTable, ps: seq<Rgba>, n: nat): (r: Option<seq<Nibble>>)
    requires n <= |ps|
    ensures r.Some? ==> |r.value| == n
  {
    if n == 0 then Some([])
    else
      var init := Indices(palette, ps, n - 1);
      var c := ColourIndex(palette, ps[n - 1]);
      if init.None? || c.None? then None else Some(init.value + [c.value])
  }

  /** The run has indices exactly when every pixel has one, and then index
      `i` is pixel `i`'s. */
  lemma {:induction false} IndicesMeaning(palette: PaletteTable, ps: seq<Rgba>, n: nat)
    requires n <= |ps|
    ensures Indices(palette, ps, n).Some? <==> forall i :: 0 <= i < n ==> ColourIndex(palette, ps[i]).Some?
    ensures Indices(palette, ps, n).Some? ==>
      forall i :: 0 <= i < n ==> Some(Indices(palette, ps, n).value[i]) == ColourIndex(palette, ps[i])
  {
    if n > 0 {
      IndicesMeaning(palette, ps, n - 1);
    }
  }

  /** The indices of all pixels of a widened image. */
  function ImageIndices(palette: PaletteTable, img: Image): Option<seq<Nibble>>
    requires WellFormed(img)
  {
    var p := Padded(img);
    Indices(palette, p.pixels, |p.pixels|)
  }

  /** One printed record: `(width, height, len(sprite_data) // 2)`. */
  datatype Record = Record(width: nat, height: nat, offset: nat)

  /** The conversion's output before packing: all indices and the records. */
  datatype Sheet = Sheet(nibbles: seq<Nibble>, records: seq<Record>)

  /** The sheet for the first `n` images, image by image; `None` when a
      pixel has no palette index. */
  function Encoded(palette: PaletteTable, images: seq<Image>, n: nat): (r: Option<Sheet>)
    requires AllWellFormed(images) && n <= |images|
    ensures r.Some? ==> |r.value.records| == n
  {
    if n == 0 then Some(Sheet([], []))
    else
      var prev := Encoded(palette, images, n - 1);
      var img := Padded(images[n - 1]);
      var px := ImageIndices(palette, images[n - 1]);
      if prev.None? || px.None? then None
      else Some(Sheet(prev.value.nibbles + px.value,
        prev.value.records + [Record(img.width, img.height, |prev.value.nibbles| / 2)]))
  }

  /** The number of indices the first `n` images contribute. */
  function Total(images: seq<Image>, n: nat): nat
    requires AllWellFormed(images) && n <= |images|
  {
    if n == 0 then 0 else Total(images, n - 1) + |Padded(images[n - 1]).pixels|
  }

  lemma EvenArea(img: Image)
    requires WellFormed(img)
    ensures |Padded(img).pixels| % 2 == 0
  {
    PaddedPixels(img, 0, 0);
    var p := Padded(img);
    assert p.width * p.height == 2 * ((p.width / 2) * p.height);
  }

  lemma {:induction false} TotalMonotone(images: seq<Image>, k: nat, n: nat)
    requires AllWellFormed(images) && k <= n <= |images|
    ensures Total(images, k) <= Total(images, n)
    decreases n
  {
    if k < n {
      TotalMonotone(images, k, n - 1);
    }
  }

  lemma {:induction false} TotalEven(images: seq<Image>, n: nat)
    requires AllWellFormed(images) && n <= |images|
    ensures Total(images, n) % 2 == 0
  {
    if n > 0 {
      TotalEven(images, n - 1);
      EvenArea(images[n - 1]);
      EvenSum(Total(images, n - 1), |Padded(images[n - 1]).pixels|);
    }
  }

  lemma EvenSum(a: nat, b: nat)
    requires a % 2 == 0 && b % 2 == 0
    ensures (a + b) % 2 == 0
  {
  }

  /** The conversion succeeds exactly when every pixel of every widened
      image has an index. */
  lemma {:induction false} EncodedSucceeds(palette: PaletteTable, images: seq<Image>, n: nat)
    requires AllWellFormed(images) && n <= |images|
    ensures Encoded(palette, images, n).Some? <==>
      forall k :: 0 <= k < n ==> ImageIndices(palette, images[k]).Some?
  {
    if n > 0 {
      EncodedSucceeds(palette, images, n - 1);
    }
  }

  /** A successful conversion produces, in all, an even number of indices:
      one per pixel of every widened image. */
  lemma {:induction false} EncodedLength(palette: PaletteTable, images: seq<Image>, n: nat)
    requires AllWellFormed(images) && n <= |images| && Encoded(palette, images, n).Some?
    ensures |Encoded(palette, images, n).value.nibbles| == Total(images, n)
    ensures Total(images, n) % 2 == 0
  {
    TotalEven(images, n);
    if n > 0 {
      EncodedLength(palette, images, n - 1);
    }
  }

  /** Record `k` gives the widened image's size and starts where the indices
      of the images before it end, halved. */
  lemma {:induction false} EncodedRecord(palette: PaletteTable, images: seq<Image>, n: nat, k: nat)
    requires AllWellFormed(images) && n <= |images| && Encoded(palette, images, n).Some? && k < n
    ensures Encoded(palette, images, n).value.records[k] ==
      Record(Padded(images[k]).width, Padded(images[k]).height, Total(images, k) / 2)
  {
    if k < n - 1 {
      EncodedRecord(palette, images, n - 1, k);
    } else {
      EncodedLength(palette, images, n - 1);
    }
  }

  /** Index `j` of image `k` sits at position `Total(images, k) + j` of the
      sheet and is the index of that image's pixel `j`. */
  lemma {:induction false} EncodedNibbles(palette: PaletteTable, images: seq<Image>, n: nat, k: nat, j: nat)
    requires AllWellFormed(images) && n <= |images| && Encoded(palette, images, n).Some?
    requires k < n && j < |Padded(images[k]).pixels|
    ensures Total(images, k) + j < |Encoded(palette, images, n).value.nibbles|
    ensures Some(Encoded(palette, images, n).value.nibbles[Total(images, k) + j]) == ColourIndex(palette, Padded(images[k]).pixels[j])
  {
    EncodedLength(palette, images, n - 1);
    if k < n - 1 {
      EncodedNibbles(palette, images, n - 1, k, j);
    } else {
      var p := Padded(images[k]);
      IndicesMeaning(palette, p.pixels, |p.pixels|);
    }
  }

  /** `zip(sprite_data[::2], sprite_data[1::2])` packed as `p1 | (p2 << 4)`:
      a trailing unpaired index is dropped. */
  function PackPairs(ns: seq<Nibble>): (r: seq<U8>)
    ensures |r| == |ns| / 2
  {
    seq(|ns| / 2, i requires 0 <= i < |ns| / 2 => Pack(ns[2 * i], ns[2 * i + 1]))
  }

  /** How the renderer reads the bytes: pixel `2i` is the low nibble of byte
      `i`, pixel `2i + 1` the high one. */
  function Unpack(bytes: seq<U8>): (r: seq<Nibble>)
    ensures |r| == 2 * |bytes|
  {
    seq(2 * |bytes|, i requires 0 <= i < 2 * |bytes| => if i % 2 == 0 then Lo(bytes[i / 2]) else Hi(bytes[i / 2]))
  }

  /** Packing an even run of indices loses nothing. */
  lemma UnpackPack(ns: seq<Nibble>)
    requires |ns| % 2 == 0
    ensures Unpack(PackPairs(ns)) == ns
  {
    var u := Unpack(PackPairs(ns));
    forall i | 0 <= i < |ns|
      ensures u[i] == ns[i]
    {
      if i % 2 == 0 {
        assert 2 * (i / 2) == i;
      } else {
        assert 2 * (i / 2) + 1 == i;
      }
    }
  }

  /** Every byte is the packing of its two nibbles. */
  lemma PackUnpack(bytes: seq<U8>)
    ensures PackPairs(Unpack(bytes)) == bytes
  {
    var p := PackPairs(Unpack(bytes));
    forall i | 0 <= i < |bytes|
      ensures p[i] == bytes[i]
    {
      assert (2 * i) / 2 == i && (2 * i + 1) / 2 == i;
      PackOfNibbles(bytes[i]);
    }
  }

  /** Byte `i` of the packed table holds indices `2i` and `2i + 1`. */
  lemma PackedNibble(ns: seq<Nibble>, n: nat)
    requires n < |ns| && |ns| % 2 == 0
    ensures n / 2 < |PackPairs(ns)|
    ensures ns[n] == if n % 2 == 0 then Lo(PackPairs(ns)[n / 2]) else Hi(PackPairs(ns)[n / 2])
  {
    var b := PackPairs(ns)[n / 2];
    assert b == Pack(ns[2 * (n / 2)], ns[2 * (n / 2) + 1]);
  }

  lemma HalfSplit(t: nat, w: nat, x: nat, y: nat)
    requires t % 2 == 0 && w % 2 == 0
    ensures t / 2 + y * (w / 2) + x / 2 == (t + y * w + x) / 2
    ensures (t + y * w + x) % 2 == x % 2
  {
    var h := w / 2;
    assert y * w == 2 * (y * h);
    var q := t / 2 + y * h + x / 2;
    DivModUnique(t + y * w + x, 2, q, x % 2);
  }

  /** End to end: in the packed bytes, the byte at record `k`'s offset plus
      `y * width / 2 + x / 2` holds, in its low nibble for even `x` and its
      high nibble for odd `x`, the index of pixel (x, y) of the widened
      image: the layout the sprite renderer reads. */
  lemma SpritePixel(palette: PaletteTable, images: seq<Image>, sheet: Sheet, k: nat, x: nat, y: nat)
    requires AllWellFormed(images) && Encoded(palette, images, |images|) == Some(sheet) && k < |images|
    requires x < Padded(images[k]).width && y < Padded(images[k]).height
    ensures k < |sheet.records|
    ensures ColourIndex(palette, At(Padded(images[k]), x, y)).Some?
    ensures SheetNibble(PackPairs(sheet.nibbles), sheet.records[k], x, y) == ColourIndex(palette, At(Padded(images[k]), x, y))
  {
    var img := Padded(images[k]);
    var t := Total(images, k);
    var n := y * img.width + x;
    assert sheet.records[k] == Record(img.width, img.height, t / 2) by {
      EncodedRecord(palette, images, |images|, k);
    }
    assert img.width % 2 == 0 && t % 2 == 0 && |sheet.nibbles| % 2 == 0 by {
      PaddedPixels(images[k], 0, 0);
      TotalEven(images, k);
      EncodedLength(palette, images, |images|);
    }
    assert n < |img.pixels| && At(img, x, y) == img.pixels[n] by {
      RowMajor(img.width, img.height, x, y);
    }
    assert t + n < |sheet.nibbles| && Some(sheet.nibbles[t + n]) == ColourIndex(palette, img.pixels[n]) by {
      EncodedNibbles(palette, images, |images|, k, n);
    }
    NibbleInPlace(sheet.nibbles, t, img.width, img.height, x, y);
  }

  /** What the renderer reads for pixel (x, y) of the sprite a record
      describes: the low nibble of byte `offset + y * width / 2 + x / 2`
      for even `x`, the high one for odd `x`; `None` past the table's end. */
  function SheetNibble(bytes: seq<U8>, rec: Record, x: nat, y: nat): Option<Nibble> {
    var i := rec.offset + y * (rec.width / 2) + x / 2;
    if i < |bytes| then Some(if x % 2 == 0 then Lo(bytes[i]) else Hi(bytes[i])) else None
  }

  lemma NibbleInPlace(ns: seq<Nibble>, t: nat, w: nat, h: nat, x: nat, y: nat)
    requires t % 2 == 0 && w % 2 == 0 && |ns| % 2 == 0 && t + y * w + x < |ns|
    ensures SheetNibble(PackPairs(ns), Record(w, h, t / 2), x, y) == Some(ns[t + y * w + x])
  {
    HalfSplit(t, w, x, y);
    PackedNibble(ns, t + y * w + x);
  }

  /** A record whose numbers fit the C record's fields describes a sprite
      whose rows lie inside the packed table. */
  lemma RecordIsValidSprite(palette: PaletteTable, images: seq<Image>, k: nat)
    requires AllWellFormed(images) && Encoded(palette, images, |images|).Some? && k < |images|
    requires var r := Encoded(palette, images, |images|).value.records[k];
      r.width < 0x100 && r.height < 0x100 && r.offset < 0x1_0000
    ensures var s := Encoded(palette, images, |images|).value;
      var r := s.records[k];
      ValidSprite(Sprite(r.width, r.height, r.offset), PackPairs(s.nibbles))
  {
    var img := Padded(images[k]);
    EncodedRecord(palette, images, |images|, k);
    EncodedLength(palette, images, |images|);
    TotalEven(images, k);
    PaddedPixels(images[k], 0, 0);
    TotalMonotone(images, k + 1, |images|);
    RowsFit(Total(images, k), Total(images, |images|), img.width, img.height);
  }

  lemma RowsFit(t: nat, total: nat, w: nat, h: nat)
    requires t % 2 == 0 && w % 2 == 0 && t + w * h <= total
    ensures t / 2 + h * ((w + 1) / 2) <= total / 2
  {
    var m := w / 2;
    assert (w + 1) / 2 == m;
    assert w * h == 2 * (h * m);
  }

  /** The pixel loop over one widened image: its indices appended to
      `data`, or `None` at the first pixel without one. */
  method AppendIndices(palette: PaletteTable, img: Image, data: seq<Nibble>) returns (r: Option<seq<Nibble>>)
    requires WellFormed(img)
    ensures var px := Indices(palette, img.pixels, |img.pixels|);
      r == if px.Some? then Some(data + px.value) else None
  {
    var out := data;
    var y := 0;
    while y < img.height
      invariant 0 <= y <= img.height
      invariant Collected(palette, img.pixels, y * img.width, data, out)
    {
      var row := y * img.width;
      assert row + img.width == (y + 1) * img.width <= |img.pixels| by {
        MulSucc(y, img.width);
        MulLe(y + 1, img.height, img.width);
      }
      var x := 0;
      while x < img.width
        invariant 0 <= x <= img.width
        invariant Collected(palette, img.pixels, row + x, data, out)
      {
        var i := ColourIndex(palette, At(img, x, y));
        assert At(img, x, y) == img.pixels[row + x];
        if i.None? {
          CollectFails(palette, img.pixels, row + x);
          return None;
        }
        CollectStep(palette, img.pixels, row + x, data, out);
        out := out + [i.value];
        x := x + 1;
      }
      y := y + 1;
    }
    assert y * img.width == |img.pixels|;
    return Some(out);
  }

  /** `out` is `data` followed by the indices of the first `n` pixels. */
  ghost predicate Collected(palette: PaletteTable, ps: seq<Rgba>, n: nat, data: seq<Nibble>, out: seq<Nibble>) {
    n <= |ps| && Indices(palette, ps, n).Some? && out == data + Indices(palette, ps, n).value
  }

  lemma CollectStep(palette: PaletteTable, ps: seq<Rgba>, n: nat, data: seq<Nibble>, out: seq<Nibble>)
    requires Collected(palette, ps, n, data, out) && n < |ps| && ColourIndex(palette, ps[n]).Some?
    ensures Collected(palette, ps, n + 1, data, out + [ColourIndex(palette, ps[n]).value])
  {
  }

  /** One pixel without an index fails the whole image. */
  lemma CollectFails(palette: PaletteTable, ps: seq<Rgba>, n: nat)
    requires n < |ps| && ColourIndex(palette, ps[n]).None?
    ensures Indices(palette, ps, |ps|).None?
  {
    IndicesMeaning(palette, ps, |ps|);
  }

  /** The loop over the image files: widen an odd-width image, append its
      record and its indices. */
  method EncodeSprites(palette: PaletteTable, images: seq<Image>) returns (r: Option<Sheet>)
    requires AllWellFormed(images)
    ensures r == Encoded(palette, images, |images|)
  {
    var nibbles: seq<Nibble> := [];
    var records: seq<Record> := [];
    for k := 0 to |images|
      invariant Encoded(palette, images, k) == Some(Sheet(nibbles, records))
    {
      var img := images[k];
      if img.width % 2 == 1 {
        img := Padded(img);
      }
      records := records + [Record(img.width, img.height, |nibbles| / 2)];
      var px := AppendIndices(palette, img, nibbles);
      if px.None? {
        EncodedSucceeds(palette, images, k + 1);
        EncodedSucceeds(palette, images, |images|);
        return None;
      }
      nibbles := px.value;
    }
    return Some(Sheet(nibbles, records));
  }

  /** The output loop over the index pairs. */
  method PackNibbles(ns: seq<Nibble>) returns (bytes: seq<U8>)
    ensures bytes == PackPairs(ns)
  {
    bytes := [];
    for i := 0 to |ns| / 2
      invariant bytes == PackPairs(ns)[..i]
    {
      assert PackPairs(ns)[i] == Pack(ns[2 * i], ns[2 * i + 1]);
      assert PackPairs(ns)[..i + 1] == PackPairs(ns)[..i] + [PackPairs(ns)[i]];
      bytes := bytes + [Pack(ns[2 * i], ns[2 * i + 1])];
    }
    assert PackPairs(ns)[..|ns| / 2] == PackPairs(ns);
  }
}
