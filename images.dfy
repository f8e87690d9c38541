/** Decoded images as the asset scripts see them: RGBA pixels, row by row. */
module Images {
  import opened Bytes

  datatype Rgba = Rgba(r: U8, g: U8, b: U8, a: U8)

  /** What cropping past the edge of an RGBA image fills in. */
  const Transparent: Rgba := Rgba(0, 0, 0, 0)

  /** A decoded image: `width * height` pixels, row-major. */
  datatype Image = Image(width: nat, height: nat, pixels: seq<Rgba>)

  predicate WellFormed(img: Image) {
    |img.pixels| == img.width * img.height
  }

  predicate AllWellFormed(images: seq<Image>) {
    forall k :: 0 <= k < |images| ==> WellFormed(images[k])
  }

  lemma RowMajor(w: nat, h: nat, x: nat, y: nat)
    requires x < w && y < h
    ensures y * w + x < w * h
  {
    MulSucc(y, w);
    MulLe(y + 1, h, w);
  }

  /** `img.getpixel((x, y))`. */
  function At(img: Image, x: nat, y: nat): Rgba
    requires WellFormed(img) && x < img.width && y < img.height
  {
    RowMajor(img.width, img.height, x, y);
    img.pixels[y * img.width + x]
  }

  lemma DivBelow(k: nat, w: nat, h: nat)
    requires w > 0 && k < w * h
    ensures k / w < h
  {
    if k / w >= h {
      MulLe(h, k / w, w);
    }
  }
}
