/** ShadowCompositor: turns the shadow alpha into a black RGBA layer and
    stacks background, shadow and foreground into the final picture. */
module ShadowCompositor {
  import opened ShadowTypes
  import opened FadeShaper

  /** The fully transparent black pixel new shadow layers start from. */
  const Clear: Rgba := Rgba(0, 0, 0, 0)

  /** The alpha band of a run of pixels. */
  function AlphaBand(ps: seq<Rgba>): (alpha: seq<Byte>)
    ensures |alpha| == |ps|
    ensures forall i :: 0 <= i < |ps| ==> alpha[i] == ps[i].a
  {
    seq(|ps|, i requires 0 <= i < |ps| => ps[i].a)
  }

  /** putalpha on pixel data: the colour channels stay, the alpha band is replaced. */
  function WithAlpha(ps: seq<Rgba>, alpha: seq<Byte>): (r: seq<Rgba>)
    requires |ps| == |alpha|
    ensures |r| == |ps|
    ensures forall i :: 0 <= i < |ps| ==> r[i].r == ps[i].r && r[i].g == ps[i].g && r[i].b == ps[i].b
    ensures AlphaBand(r) == alpha
  {
    var r := seq(|ps|, i requires 0 <= i < |ps| => Rgba(ps[i].r, ps[i].g, ps[i].b, alpha[i]));
    assert AlphaBand(r) == alpha by {
      forall i | 0 <= i < |ps| ensures AlphaBand(r)[i] == alpha[i] { }
    }
    r
  }

  /** The shadow-only layer: black everywhere, opaque exactly as the shadow alpha says. */
  function ShadowLayer(alpha: seq<Byte>): (ps: seq<Rgba>)
    ensures |ps| == |alpha|
    ensures forall i :: 0 <= i < |ps| ==> ps[i] == Rgba(0, 0, 0, alpha[i])
  {
    var layer := WithAlpha(seq(|alpha|, _ => Clear), alpha);
    assert forall i :: 0 <= i < |alpha| ==> layer[i].a == AlphaBand(layer)[i];
    layer
  }

  /** The two pictures composite_shadow returns, as pixel data. */
  datatype Pictures = Pictures(shadowOnly: seq<Rgba>, composite: seq<Rgba>)

  /** composite_shadow on pixel data: background, then the shadow layer, then the
      foreground carrying the mask as its alpha. */
  function Composite(fg: seq<Rgba>, bg: seq<Rgba>, mask: Plane, sp: ShadowParams, lib: Library): (r: Result<Pictures>)
    requires mask.Valid() && lib.Valid()
    requires |fg| == |mask.data| && |bg| == |fg|
    ensures r.Failure? <==> mask.IsBlank()
    ensures r.Failure? ==> r.error == EmptyMask
    ensures r.Success? ==> |r.value.shadowOnly| == |mask.data| && |r.value.composite| == |mask.data|
    ensures r.Success? ==> forall i :: 0 <= i < |mask.data| ==>
      r.value.shadowOnly[i] == Rgba(0, 0, 0, ShadowAlpha(mask, sp, lib).value.data[i])
    ensures r.Success? ==>
      r.value.composite == lib.alphaComposite(lib.alphaComposite(bg, r.value.shadowOnly), WithAlpha(fg, mask.data))
  {
    match ShadowAlpha(mask, sp, lib)
    case Failure(e) => Failure(e)
    case Success(alpha) =>
      var shadowOnly := ShadowLayer(alpha.data);
      Success(Pictures(shadowOnly, lib.alphaComposite(lib.alphaComposite(bg, shadowOnly), WithAlpha(fg, mask.data))))
  }

  /** Each pixel of the shadow-only picture is black, with the lighter of the
      contact and soft layers' values as its alpha. */
  lemma ShadowOnlyPixel(fg: seq<Rgba>, bg: seq<Rgba>, mask: Plane, sp: ShadowParams, lib: Library, x: nat, y: nat)
    requires mask.Valid() && lib.Valid() && !mask.IsBlank()
    requires |fg| == |mask.data| && |bg| == |fg|
    requires x < mask.width && y < mask.height
    ensures y * mask.width + x < |mask.data|
    ensures var layers := ShadowLayers(mask, sp, lib).value;
            var p := Composite(fg, bg, mask, sp, lib).value.shadowOnly[y * mask.width + x];
            && p.r == 0 && p.g == 0 && p.b == 0
            && p.a >= layers.contact.At(x, y) && p.a >= layers.soft.At(x, y)
            && (p.a == layers.contact.At(x, y) || p.a == layers.soft.At(x, y))
  {
    PixelIndexInRange(mask.width, mask.height, x, y);
    CombinedAlphaIsMax(mask, sp, lib, x, y);
    var alpha := ShadowAlpha(mask, sp, lib).value;
    var shadowOnly := Composite(fg, bg, mask, sp, lib).value.shadowOnly;
    assert shadowOnly == ShadowLayer(alpha.data);
    assert shadowOnly[y * mask.width + x].a == alpha.At(x, y);
  }

  /** An RGBA image whose pixel buffer is updated in place. */
  class RgbaImage {
    const width: nat
    const height: nat
    const pixels: array<Rgba>

    predicate Valid()
    {
      pixels.Length == width * height
    }

    /** Image.new("RGBA", size, colour). */
    constructor Filled(w: nat, h: nat, colour: Rgba)
      ensures Valid() && width == w && height == h && fresh(pixels)
      ensures pixels[..] == seq(w * h, _ => colour)
    {
      width, height := w, h;
      pixels := new Rgba[w * h](_ => colour);
    }

    /** An image holding the given row-major pixels. */
    constructor FromPixels(w: nat, h: nat, ps: seq<Rgba>)
      requires |ps| == w * h
      ensures Valid() && width == w && height == h && fresh(pixels)
      ensures pixels[..] == ps
    {
      width, height := w, h;
      pixels := new Rgba[|ps|](i requires 0 <= i < |ps| => ps[i]);
    }

    /** copy(): a new image with its own buffer and the same pixels. */
    method Copy() returns (c: RgbaImage)
      requires Valid()
      ensures fresh(c) && fresh(c.pixels) && c.Valid()
      ensures c.width == width && c.height == height && c.pixels[..] == pixels[..]
    {
      c := new RgbaImage.FromPixels(width, height, pixels[..]);
    }

    /** putalpha(alpha): replace the alpha band in place, keep the colours. */
    method PutAlpha(alpha: Plane)
      requires Valid() && alpha.Valid() && alpha.width == width && alpha.height == height
      modifies pixels
      ensures pixels[..] == WithAlpha(old(pixels[..]), alpha.data)
    {
      forall i | 0 <= i < pixels.Length {
        pixels[i] := Rgba(pixels[i].r, pixels[i].g, pixels[i].b, alpha.data[i]);
      }
      assert pixels[..] == WithAlpha(old(pixels[..]), alpha.data) by {
        var r := WithAlpha(old(pixels[..]), alpha.data);
        forall i | 0 <= i < pixels.Length ensures pixels[i] == r[i] {
          assert r[i].a == AlphaBand(r)[i];
        }
      }
    }
  }

  /** Image.alpha_composite(below, above): a new image of the same size. */
  method AlphaComposite(below: RgbaImage, above: RgbaImage, lib: Library) returns (c: RgbaImage)
    requires below.Valid() && above.Valid() && lib.Valid()
    requires below.width == above.width && below.height == above.height
    ensures fresh(c) && fresh(c.pixels) && c.Valid()
    ensures c.width == below.width && c.height == below.height
    ensures c.pixels[..] == lib.alphaComposite(below.pixels[..], above.pixels[..])
  {
    c := new RgbaImage.FromPixels(below.width, below.height, lib.alphaComposite(below.pixels[..], above.pixels[..]));
  }

  /** The two images composite_shadow returns. */
  datatype Outputs = Outputs(shadowOnly: RgbaImage, composite: RgbaImage)

  /** composite_shadow. The caller has already rejected images whose sizes
      differ from the mask's; fg and bg are read, never written. */
  method CompositeShadow(fg: RgbaImage, bg: RgbaImage, mask: Plane, sp: ShadowParams, lib: Library)
    returns (r: Result<Outputs>)
    requires fg.Valid() && bg.Valid() && mask.Valid() && lib.Valid()
    requires fg.width == mask.width && fg.height == mask.height
    requires bg.width == fg.width && bg.height == fg.height
    ensures r.Failure? <==> mask.IsBlank()
    ensures r.Failure? ==> r == Failure(EmptyMask)
    ensures r.Success? ==>
      && fresh(r.value.shadowOnly) && fresh(r.value.shadowOnly.pixels)
      && fresh(r.value.composite) && fresh(r.value.composite.pixels)
      && r.value.shadowOnly.Valid() && r.value.composite.Valid()
      && r.value.shadowOnly.width == bg.width && r.value.shadowOnly.height == bg.height
      && r.value.composite.width == bg.width && r.value.composite.height == bg.height
    ensures r.Success? ==>
      Composite(fg.pixels[..], bg.pixels[..], mask, sp, lib) ==
        Success(Pictures(r.value.shadowOnly.pixels[..], r.value.composite.pixels[..]))
  {
    var shadowAlpha := BuildShadowAlpha(mask, sp, lib);
    if shadowAlpha.Failure? {
      return Failure(shadowAlpha.error);
    }
    var shadowOnly := new RgbaImage.Filled(bg.width, bg.height, Clear);
    shadowOnly.PutAlpha(shadowAlpha.value);
    var fgWithAlpha := fg.Copy();
    fgWithAlpha.PutAlpha(mask);
    var composite := AlphaComposite(bg, shadowOnly, lib);
    composite := AlphaComposite(composite, fgWithAlpha, lib);
    assert shadowOnly.pixels[..] == ShadowLayer(shadowAlpha.value.data);
    r := Success(Outputs(shadowOnly, composite));
  }
}
