/** Data model shared by the shadow pipeline: image buffers, light parameters,
    affine coefficients, the pipeline's errors, and the foreign pixel
    operations it relies on. */
module ShadowTypes {

  /** One 8-bit channel sample. */
  type Byte = b: int | 0 <= b < 256

  datatype Option<T> = None | Some(value: T)

  /** The two failures the core itself raises (both ValueError in the source). */
  datatype ShadowError = MissingAlpha | EmptyMask

  datatype Result<T> = Success(value: T) | Failure(error: ShadowError)

  /** Image modes of the imaging library, as far as the mask dispatch is
      concerned; Other stands for every remaining mode ("RGBa", "La", "I",
      "F", "RGBX", ...) with its band count. */
  datatype Mode = Bilevel | L | LA | P | PA | RGB | RGBA | CMYK | YCbCr | Other(bands: nat)

  function BandCount(m: Mode): nat
  {
    match m
    case Bilevel => 1
    case L => 1
    case P => 1
    case LA => 2
    case PA => 2
    case RGB => 3
    case YCbCr => 3
    case RGBA => 4
    case CMYK => 4
    case Other(n) => n
  }

  /** A decoded image of any mode: one row-major plane of samples per band,
      and every mode has at least one band. */
  datatype Image = Image(mode: Mode, width: nat, height: nat, bands: seq<seq<Byte>>)
  {
    predicate Valid()
    {
      && |bands| == BandCount(mode) >= 1
      && forall i :: 0 <= i < |bands| ==> |bands[i]| == width * height
    }
  }

  /** Pixel (x, y) of a row-major width x height grid lives at index y * width + x. */
  lemma PixelIndexInRange(width: nat, height: nat, x: nat, y: nat)
    requires x < width && y < height
    ensures y * width + x < width * height
  {
    assert (height - y - 1) * width >= 0;
    assert (height - y - 1) * width == height * width - y * width - width;
  }

  /** A single-channel 8-bit image (mode "L"): masks, fade masks, shadow layers. */
  datatype Plane = Plane(width: nat, height: nat, data: seq<Byte>)
  {
    predicate Valid()
    {
      |data| == width * height
    }

    function At(x: nat, y: nat): Byte
      requires Valid() && x < width && y < height
    {
      PixelIndexInRange(width, height, x, y);
      data[y * width + x]
    }

    /** No non-zero pixel: the imaging library's bounding box is None. */
    predicate IsBlank()
      requires Valid()
    {
      forall x: nat, y: nat :: x < width && y < height ==> At(x, y) == 0
    }
  }

  datatype Rgba = Rgba(r: Byte, g: Byte, b: Byte, a: Byte)

  /** The six coefficients (a, b, c, d, e, f) of an affine output-to-input map. */
  datatype Affine = Affine(a: real, b: real, c: real, d: real, e: real, f: real)

  /** The light as the pipeline uses it: dx = cos(angle), dy = sin(angle) and
      tanElevation = tan(elevation), angles taken in image space. */
  datatype Light = Light(dx: real, dy: real, tanElevation: real)

  /** Every tunable of one compositing request. */
  datatype ShadowParams = ShadowParams(
    light: Light,
    shadowScale: real,
    maxShear: real,
    contactFade: real,
    softFade: real)

  /** The imaging library's pixel operations, which the pipeline calls but does
      not implement. */
  datatype Library = Library(
    convertL: Image -> Plane,          // convert("L") of a mode other than L
    resample: (Plane, Affine) -> Plane, // bicubic affine transform, zero fill
    blur: (Plane, nat) -> Plane,        // GaussianBlur(radius)
    multiply: (Plane, Plane) -> Plane,  // ImageChops.multiply
    alphaComposite: (seq<Rgba>, seq<Rgba>) -> seq<Rgba>) // Image.alpha_composite
  {
    /** All that the pipeline needs of the library: every operation keeps the size. */
    ghost predicate Valid()
    {
      && (forall img: Image :: img.Valid() ==>
            var m := convertL(img); m.Valid() && m.width == img.width && m.height == img.height)
      && (forall m: Plane, co: Affine :: m.Valid() ==>
            var o := resample(m, co); o.Valid() && o.width == m.width && o.height == m.height)
      && (forall m: Plane, radius: nat :: m.Valid() ==>
            var o := blur(m, radius); o.Valid() && o.width == m.width && o.height == m.height)
      && (forall m: Plane, n: Plane ::
            m.Valid() && n.Valid() && m.width == n.width && m.height == n.height ==>
            var o := multiply(m, n); o.Valid() && o.width == m.width && o.height == m.height)
      && (forall below: seq<Rgba>, above: seq<Rgba> :: |below| == |above| ==>
            |alphaComposite(below, above)| == |below|)
    }
  }
}
