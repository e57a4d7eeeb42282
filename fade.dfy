/** FadeShaper: the directional distance field measured from the contact
    row, the linear falloff masks built from it, and the two faded shadow
    layers combined by their per-pixel maximum. */
module FadeShaper {
  import opened ShadowTypes
  import opened ShadowProjector

  /** Blur radii of the contact and the soft layer. */
  const ContactBlurRadius: nat := 2
  const SoftBlurRadius: nat := 12
  /** Smallest fade fraction, relative to the shadow extent. */
  const MinFadeFraction: real := 0.01

  /** Distance t of point (x, y) from contact row y0, measured along (dx, dy). */
  function DirectionalDistance(x: real, y: real, y0: real, dx: real, dy: real): real
  {
    dx * x + dy * (y - y0)
  }

  function PixelDistance(x: int, y: int, y0: int, dx: real, dy: real): real
  {
    DirectionalDistance(x as real, y as real, y0 as real, dx, dy)
  }

  /** The four corner pixels of a width x height grid, in the source's order. */
  function Corners(w: nat, h: nat): seq<(int, int)>
  {
    [(0, 0), (w - 1, 0), (0, h - 1), (w - 1, h - 1)]
  }

  function CornerDistances(w: nat, h: nat, y0: int, dx: real, dy: real): (ts: seq<real>)
    ensures |ts| == 4
    ensures forall i :: 0 <= i < 4 ==> ts[i] == PixelDistance(Corners(w, h)[i].0, Corners(w, h)[i].1, y0, dx, dy)
  {
    seq(4, i requires 0 <= i < 4 => PixelDistance(Corners(w, h)[i].0, Corners(w, h)[i].1, y0, dx, dy))
  }

  /** Running maximum: start from m and raise it to every larger element of ts. */
  function MaxOver(m: real, ts: seq<real>): (r: real)
    ensures r >= m
    ensures forall i :: 0 <= i < |ts| ==> r >= ts[i]
    ensures r == m || exists i :: 0 <= i < |ts| && r == ts[i]
    decreases |ts|
  {
    if ts == [] then m
    else MaxOver(if ts[0] > m then ts[0] else m, ts[1..])
  }

  /** The shadow extent: the largest corner distance, floored at 1.0. */
  function Extent(w: nat, h: nat, y0: int, dx: real, dy: real): real
  {
    MaxOver(1.0, CornerDistances(w, h, y0, dx, dy))
  }

  /** compute_shadow_extent. */
  method ComputeShadowExtent(w: nat, h: nat, y0: int, dx: real, dy: real) returns (maxT: real)
    ensures maxT == Extent(w, h, y0, dx, dy)
    ensures maxT >= 1.0
    ensures forall c :: c in Corners(w, h) ==> maxT >= PixelDistance(c.0, c.1, y0, dx, dy)
    ensures maxT == 1.0 || exists c :: c in Corners(w, h) && maxT == PixelDistance(c.0, c.1, y0, dx, dy)
  {
    var corners := Corners(w, h);
    ghost var ts := CornerDistances(w, h, y0, dx, dy);
    maxT := 1.0;
    var i := 0;
    while i < |corners|
      invariant 0 <= i <= |corners|
      invariant MaxOver(maxT, ts[i..]) == MaxOver(1.0, ts)
    {
      var (x, y) := corners[i];
      var t := PixelDistance(x, y, y0, dx, dy);
      assert t == ts[i];
      assert ts[i..] == [ts[i]] + ts[i + 1..];
      if t > maxT {
        maxT := t;
      }
      i := i + 1;
    }
    assert ts[i..] == [];
  }

  /** a * v over lo <= v <= hi is at most the larger of its values at the ends. */
  lemma ScaledWithinEnds(a: real, lo: real, v: real, hi: real)
    requires lo <= v <= hi
    ensures a * v <= a * lo || a * v <= a * hi
  {
    if a >= 0.0 {
      assert a * (hi - v) >= 0.0;
    } else {
      assert (-a) * (v - lo) >= 0.0;
    }
  }

  /** Over the box [0, xHi] x [0, yHi] the distance peaks at a corner. */
  lemma CornerBound(dx: real, dy: real, x: real, y: real, y0: real, xHi: real, yHi: real)
    requires 0.0 <= x <= xHi && 0.0 <= y <= yHi
    ensures var t := DirectionalDistance(x, y, y0, dx, dy);
            || t <= DirectionalDistance(0.0, 0.0, y0, dx, dy)
            || t <= DirectionalDistance(xHi, 0.0, y0, dx, dy)
            || t <= DirectionalDistance(0.0, yHi, y0, dx, dy)
            || t <= DirectionalDistance(xHi, yHi, y0, dx, dy)
  {
    ScaledWithinEnds(dx, 0.0, x, xHi);
    ScaledWithinEnds(dy, 0.0 - y0, y - y0, yHi - y0);
  }

  /** The extent bounds the distance of every pixel, not just of the corners:
      the distance is affine in x and y, so its maximum is at a corner. */
  lemma ExtentBoundsEveryPixel(w: nat, h: nat, y0: int, dx: real, dy: real, x: nat, y: nat)
    requires x < w && y < h
    ensures PixelDistance(x, y, y0, dx, dy) <= Extent(w, h, y0, dx, dy)
  {
    var ts := CornerDistances(w, h, y0, dx, dy);
    CornerBound(dx, dy, x as real, y as real, y0 as real, (w - 1) as real, (h - 1) as real);
    assert ts[0] == DirectionalDistance(0.0, 0.0, y0 as real, dx, dy);
    assert ts[1] == DirectionalDistance((w - 1) as real, 0.0, y0 as real, dx, dy);
    assert ts[2] == DirectionalDistance(0.0, (h - 1) as real, y0 as real, dx, dy);
    assert ts[3] == DirectionalDistance((w - 1) as real, (h - 1) as real, y0 as real, dx, dy);
  }

  /** 0 < t < d puts t / d strictly between 0 and 1. */
  lemma RatioInUnit(t: real, d: real)
    requires 0.0 < t < d
    ensures 0.0 < t / d < 1.0
  {
    var q := t / d;
    assert q * d == t;
    assert (1.0 - q) * d == d - t;
    PositiveFactor(q, d);
    PositiveFactor(1.0 - q, d);
  }

  /** One fade-mask sample for distance t and effective fade distance d (at least 1). */
  function FadeAlpha(t: real, d: real): (alpha: Byte)
    requires d >= 1.0
    ensures alpha == 255 <==> t <= 0.0
    ensures t >= d ==> alpha == 0
    ensures 0.0 < t < d ==> alpha as real <= 255.0 * (1.0 - t / d) < alpha as real + 1.0
  {
    if t <= 0.0 then 255
    else if t >= d then 0
    else
      RatioInUnit(t, d);
      (255.0 * (1.0 - t / d)).Floor
  }

  lemma DivMonotone(t1: real, t2: real, d: real)
    requires t1 <= t2 && d > 0.0
    ensures t1 / d <= t2 / d
  {
  }

  lemma DivAntitone(t: real, d1: real, d2: real)
    requires t >= 0.0 && 0.0 < d1 <= d2
    ensures t / d2 <= t / d1
  {
  }

  /** Farther from the contact row is never more opaque. */
  lemma FadeAlphaNonIncreasingInDistance(t1: real, t2: real, d: real)
    requires d >= 1.0 && t1 <= t2
    ensures FadeAlpha(t1, d) >= FadeAlpha(t2, d)
  {
    if 0.0 < t1 && t2 < d {
      DivMonotone(t1, t2, d);
    }
  }

  /** A longer fade distance is never less opaque. */
  lemma FadeAlphaNonDecreasingInFadeDistance(t: real, d1: real, d2: real)
    requires 1.0 <= d1 <= d2
    ensures FadeAlpha(t, d1) <= FadeAlpha(t, d2)
  {
    if 0.0 < t < d1 {
      DivAntitone(t, d1, d2);
    }
  }

  /** max(max_distance, 1.0). */
  function EffectiveDistance(maxDistance: real): (d: real)
    ensures d >= 1.0 && d >= maxDistance && (d == 1.0 || d == maxDistance)
  {
    if maxDistance >= 1.0 then maxDistance else 1.0
  }

  /** Row y of a fade mask. */
  function FadeRow(w: nat, y: int, y0: int, dx: real, dy: real, d: real): seq<Byte>
    requires d >= 1.0
  {
    seq(w, x => FadeAlpha(PixelDistance(x, y, y0, dx, dy), d))
  }

  /** Rows 0 .. rows - 1 of a fade mask, one after another. */
  function FadeRows(w: nat, rows: nat, y0: int, dx: real, dy: real, d: real): (data: seq<Byte>)
    requires d >= 1.0
    ensures |data| == rows * w
  {
    if rows == 0 then []
    else
      var before := FadeRows(w, rows - 1, y0, dx, dy, d);
      assert |before| + w == rows * w;
      before + FadeRow(w, rows - 1, y0, dx, dy, d)
  }

  /** build_fade_mask as a value. */
  function FadeMask(w: nat, h: nat, y0: int, dx: real, dy: real, maxDistance: real): (m: Plane)
    ensures m.Valid() && m.width == w && m.height == h
  {
    Plane(w, h, FadeRows(w, h, y0, dx, dy, EffectiveDistance(maxDistance)))
  }

  lemma {:induction false} FadeRowsAt(w: nat, rows: nat, y0: int, dx: real, dy: real, d: real, x: nat, y: nat)
    requires d >= 1.0 && x < w && y < rows
    ensures y * w + x < rows * w
    ensures FadeRows(w, rows, y0, dx, dy, d)[y * w + x] == FadeAlpha(PixelDistance(x, y, y0, dx, dy), d)
  {
    PixelIndexInRange(w, rows, x, y);
    var before := FadeRows(w, rows - 1, y0, dx, dy, d);
    assert FadeRows(w, rows, y0, dx, dy, d) == before + FadeRow(w, rows - 1, y0, dx, dy, d);
    if y < rows - 1 {
      FadeRowsAt(w, rows - 1, y0, dx, dy, d, x, y);
    } else {
      assert y * w + x == |before| + x;
    }
  }

  /** Pixel (x, y) of a fade mask is the falloff of its own distance, and
      nothing else decides it. */
  lemma FadeMaskAt(w: nat, h: nat, y0: int, dx: real, dy: real, maxDistance: real, x: nat, y: nat)
    requires x < w && y < h
    ensures FadeMask(w, h, y0, dx, dy, maxDistance).At(x, y)
         == FadeAlpha(PixelDistance(x, y, y0, dx, dy), EffectiveDistance(maxDistance))
  {
    FadeRowsAt(w, h, y0, dx, dy, EffectiveDistance(maxDistance), x, y);
  }

  /** build_fade_mask: one sample per pixel, appended row by row. */
  method BuildFadeMask(w: nat, h: nat, y0: int, dx: real, dy: real, maxDistance: real) returns (fade: Plane)
    ensures fade == FadeMask(w, h, y0, dx, dy, maxDistance)
    ensures fade.Valid() && fade.width == w && fade.height == h
    ensures forall x: nat, y: nat :: x < w && y < h ==>
      fade.At(x, y) == FadeAlpha(PixelDistance(x, y, y0, dx, dy), EffectiveDistance(maxDistance))
  {
    var d := EffectiveDistance(maxDistance);
    var data: seq<Byte> := [];
    var y := 0;
    while y < h
      invariant 0 <= y <= h
      invariant data == FadeRows(w, y, y0, dx, dy, d)
    {
      ghost var row := FadeRow(w, y, y0, dx, dy, d);
      var x := 0;
      while x < w
        invariant 0 <= x <= w
        invariant data == FadeRows(w, y, y0, dx, dy, d) + row[..x]
      {
        var t := PixelDistance(x, y, y0, dx, dy);
        var alpha := FadeAlpha(t, d);
        assert alpha == row[x];
        assert row[..x + 1] == row[..x] + [row[x]];
        data := data + [alpha];
        x := x + 1;
      }
      assert row[..w] == row;
      y := y + 1;
    }
    fade := Plane(w, h, data);
    forall x: nat, y: nat | x < w && y < h
      ensures fade.At(x, y) == FadeAlpha(PixelDistance(x, y, y0, dx, dy), d)
    {
      FadeMaskAt(w, h, y0, dx, dy, maxDistance, x, y);
    }
  }

  /** The fully opaque part of a fade mask is exactly the pixels at or behind
      the contact row, whatever the fade distance; a longer fade distance
      gives a mask at least as opaque everywhere. */
  lemma FadeMaskMonotoneInDistance(w: nat, h: nat, y0: int, dx: real, dy: real, d1: real, d2: real, x: nat, y: nat)
    requires x < w && y < h && d1 <= d2
    ensures FadeMask(w, h, y0, dx, dy, d1).At(x, y) <= FadeMask(w, h, y0, dx, dy, d2).At(x, y)
    ensures FadeMask(w, h, y0, dx, dy, d1).At(x, y) == 255 <==> PixelDistance(x, y, y0, dx, dy) <= 0.0
  {
    FadeMaskAt(w, h, y0, dx, dy, d1, x, y);
    FadeMaskAt(w, h, y0, dx, dy, d2, x, y);
    FadeAlphaNonDecreasingInFadeDistance(PixelDistance(x, y, y0, dx, dy), EffectiveDistance(d1), EffectiveDistance(d2));
  }

  /** extent * max(fraction, 0.01): never shorter than 1% of the extent. */
  function FadeDistance(extent: real, fraction: real): (d: real)
    requires extent >= 1.0
    ensures d >= MinFadeFraction * extent && d > 0.0
    ensures d >= extent * fraction
    ensures d == extent * fraction || d == MinFadeFraction * extent
  {
    var f := if fraction >= MinFadeFraction then fraction else MinFadeFraction;
    assert extent * (f - MinFadeFraction) >= 0.0;
    extent * f
  }

  /** A larger fade fraction never gives a shorter fade distance. */
  lemma FadeDistanceMonotone(extent: real, f1: real, f2: real)
    requires extent >= 1.0 && f1 <= f2
    ensures FadeDistance(extent, f1) <= FadeDistance(extent, f2)
  {
    var g1 := if f1 >= MinFadeFraction then f1 else MinFadeFraction;
    var g2 := if f2 >= MinFadeFraction then f2 else MinFadeFraction;
    assert extent * (g2 - g1) >= 0.0;
  }

  /** The shadow of a point h rows above the contact row lies k * h farther
      along the fade axis (the reverse of the light direction) than the point
      itself, for a unit light direction. */
  lemma CastMovesAlongFade(k: real, dx: real, dy: real, y0: real, x: real, y: real)
    requires dx * dx + dy * dy == 1.0
    ensures var p := CastPoint(k, dx, dy, y0, x, y);
            DirectionalDistance(p.0, p.1, y0, -dx, -dy) == DirectionalDistance(x, y, y0, -dx, -dy) + k * (y0 - y)
  {
    var p := CastPoint(k, dx, dy, y0, x, y);
    assert p == (x + k * dx * (y - y0), y + k * dy * (y - y0));
    assert -dx * (k * dx * (y - y0)) - dy * (k * dy * (y - y0)) == -(dx * dx + dy * dy) * k * (y - y0);
  }

  /** ImageChops.lighter: the per-pixel maximum of two same-size planes. */
  function Lighter(a: Plane, b: Plane): (r: Plane)
    requires a.Valid() && b.Valid() && a.width == b.width && a.height == b.height
    ensures r.Valid() && r.width == a.width && r.height == a.height
    ensures forall i :: 0 <= i < |r.data| ==>
      r.data[i] >= a.data[i] && r.data[i] >= b.data[i] && (r.data[i] == a.data[i] || r.data[i] == b.data[i])
  {
    Plane(a.width, a.height, seq(|a.data|, i requires 0 <= i < |a.data| =>
      if a.data[i] >= b.data[i] then a.data[i] else b.data[i]))
  }

  /** The contact layer and the soft layer, before they are combined. */
  datatype Layers = Layers(contact: Plane, soft: Plane)

  /** The two fade layers of a non-blank mask, from its projected shadow and
      the contact row y0. */
  function LayersFrom(shadow: Plane, y0: nat, sp: ShadowParams, lib: Library): (r: Layers)
    requires shadow.Valid() && lib.Valid()
    ensures r.contact.Valid() && r.contact.width == shadow.width && r.contact.height == shadow.height
    ensures r.soft.Valid() && r.soft.width == shadow.width && r.soft.height == shadow.height
  {
    var fadeDx, fadeDy := -sp.light.dx, -sp.light.dy;
    var extent := Extent(shadow.width, shadow.height, y0, fadeDx, fadeDy);
    var contactMask := FadeMask(shadow.width, shadow.height, y0, fadeDx, fadeDy, FadeDistance(extent, sp.contactFade));
    var softMask := FadeMask(shadow.width, shadow.height, y0, fadeDx, fadeDy, FadeDistance(extent, sp.softFade));
    Layers(
      lib.multiply(lib.blur(shadow, ContactBlurRadius), contactMask),
      lib.multiply(lib.blur(shadow, SoftBlurRadius), softMask))
  }

  /** LayersFrom, given its fade direction, extent and fade masks already computed. */
  lemma LayersFromParts(shadow: Plane, w: nat, h: nat, y0: nat, sp: ShadowParams, lib: Library,
                        fadeDx: real, fadeDy: real, extent: real, contactMask: Plane, softMask: Plane)
    requires shadow.Valid() && lib.Valid() && shadow.width == w && shadow.height == h
    requires fadeDx == -sp.light.dx && fadeDy == -sp.light.dy
    requires extent == Extent(w, h, y0, fadeDx, fadeDy)
    requires contactMask == FadeMask(w, h, y0, fadeDx, fadeDy, FadeDistance(extent, sp.contactFade))
    requires softMask == FadeMask(w, h, y0, fadeDx, fadeDy, FadeDistance(extent, sp.softFade))
    ensures LayersFrom(shadow, y0, sp, lib) ==
      Layers(lib.multiply(lib.blur(shadow, ContactBlurRadius), contactMask),
             lib.multiply(lib.blur(shadow, SoftBlurRadius), softMask))
  {
  }

  /** The contact and soft layers of build_shadow_alpha, before they are combined. */
  function ShadowLayers(mask: Plane, sp: ShadowParams, lib: Library): (r: Result<Layers>)
    requires mask.Valid() && lib.Valid()
    ensures r.Failure? <==> mask.IsBlank()
    ensures r.Failure? ==> r.error == EmptyMask
    ensures r.Success? ==>
      && r.value.contact.Valid() && r.value.contact.width == mask.width && r.value.contact.height == mask.height
      && r.value.soft.Valid() && r.value.soft.width == mask.width && r.value.soft.height == mask.height
  {
    match ProjectShadow(mask, sp.light, sp.shadowScale, sp.maxShear, lib)
    case Failure(e) => Failure(e)
    case Success(shadow) => Success(LayersFrom(shadow, BottomEdge(mask).value, sp, lib))
  }

  /** Each layer is its blurred shadow times a fade mask taken along the
      reverse of the light direction (fadeDx, fadeDy) = (-dx, -dy), from the
      contact row, with the fade distance floored at 1% of the extent. */
  lemma ShadowLayersFade(mask: Plane, sp: ShadowParams, lib: Library, fadeDx: real, fadeDy: real, x: nat, y: nat)
    requires mask.Valid() && lib.Valid() && !mask.IsBlank()
    requires fadeDx == -sp.light.dx && fadeDy == -sp.light.dy
    requires x < mask.width && y < mask.height
    ensures var y0 := BottomEdge(mask).value;
            var extent := Extent(mask.width, mask.height, y0, fadeDx, fadeDy);
            var shadow := ProjectShadow(mask, sp.light, sp.shadowScale, sp.maxShear, lib).value;
            var contactMask := FadeMask(mask.width, mask.height, y0, fadeDx, fadeDy, FadeDistance(extent, sp.contactFade));
            var softMask := FadeMask(mask.width, mask.height, y0, fadeDx, fadeDy, FadeDistance(extent, sp.softFade));
            var t := PixelDistance(x, y, y0, fadeDx, fadeDy);
            && ShadowLayers(mask, sp, lib).value == Layers(
                 lib.multiply(lib.blur(shadow, ContactBlurRadius), contactMask),
                 lib.multiply(lib.blur(shadow, SoftBlurRadius), softMask))
            && contactMask.At(x, y) == FadeAlpha(t, EffectiveDistance(FadeDistance(extent, sp.contactFade)))
            && softMask.At(x, y) == FadeAlpha(t, EffectiveDistance(FadeDistance(extent, sp.softFade)))
  {
    var y0 := BottomEdge(mask).value;
    var extent := Extent(mask.width, mask.height, y0, fadeDx, fadeDy);
    var shadow := ProjectShadow(mask, sp.light, sp.shadowScale, sp.maxShear, lib).value;
    LayersFromParts(shadow, mask.width, mask.height, y0, sp, lib, fadeDx, fadeDy, extent,
      FadeMask(mask.width, mask.height, y0, fadeDx, fadeDy, FadeDistance(extent, sp.contactFade)),
      FadeMask(mask.width, mask.height, y0, fadeDx, fadeDy, FadeDistance(extent, sp.softFade)));
    FadeMaskAt(mask.width, mask.height, y0, fadeDx, fadeDy, FadeDistance(extent, sp.contactFade), x, y);
    FadeMaskAt(mask.width, mask.height, y0, fadeDx, fadeDy, FadeDistance(extent, sp.softFade), x, y);
  }

  /** build_shadow_alpha as a value: the lighter of the two layers. */
  function ShadowAlpha(mask: Plane, sp: ShadowParams, lib: Library): (r: Result<Plane>)
    requires mask.Valid() && lib.Valid()
    ensures r.Failure? <==> mask.IsBlank()
    ensures r.Failure? ==> r.error == EmptyMask
    ensures r.Success? ==> r.value.Valid() && r.value.width == mask.width && r.value.height == mask.height
  {
    match ShadowLayers(mask, sp, lib)
    case Failure(e) => Failure(e)
    case Success(layers) => Success(Lighter(layers.contact, layers.soft))
  }

  /** build_shadow_alpha. */
  method BuildShadowAlpha(mask: Plane, sp: ShadowParams, lib: Library) returns (r: Result<Plane>)
    requires mask.Valid() && lib.Valid()
    ensures r == ShadowAlpha(mask, sp, lib)
    ensures r.Failure? <==> mask.IsBlank()
    ensures r.Success? ==> r.value.Valid() && r.value.width == mask.width && r.value.height == mask.height
  {
    var projected := ProjectShadow(mask, sp.light, sp.shadowScale, sp.maxShear, lib);
    if projected.Failure? {
      return Failure(projected.error);
    }
    var shadowMask := projected.value;
    var box := BottomEdge(mask);
    if box.None? {
      // The bounding box is checked a second time; ProjectShadow has already
      // rejected a blank mask, so this branch is dead.
      assert false;
    }
    var y0 := box.value;
    // Reversed direction: the mask fades along the way the shadow is cast.
    var fadeDx, fadeDy := -sp.light.dx, -sp.light.dy;
    var maxExtent := ComputeShadowExtent(mask.width, mask.height, y0, fadeDx, fadeDy);
    var contactDistance := FadeDistance(maxExtent, sp.contactFade);
    var softDistance := FadeDistance(maxExtent, sp.softFade);
    var contactFadeMask := BuildFadeMask(mask.width, mask.height, y0, fadeDx, fadeDy, contactDistance);
    var softFadeMask := BuildFadeMask(mask.width, mask.height, y0, fadeDx, fadeDy, softDistance);
    var contactShadow := lib.blur(shadowMask, ContactBlurRadius);
    contactShadow := lib.multiply(contactShadow, contactFadeMask);
    var softShadow := lib.blur(shadowMask, SoftBlurRadius);
    softShadow := lib.multiply(softShadow, softFadeMask);
    LayersFromParts(shadowMask, mask.width, mask.height, y0, sp, lib, fadeDx, fadeDy, maxExtent, contactFadeMask, softFadeMask);
    r := Success(Lighter(contactShadow, softShadow));
  }

  /** Every pixel of the combined alpha is the larger of the contact-layer
      and soft-layer pixels. */
  lemma CombinedAlphaIsMax(mask: Plane, sp: ShadowParams, lib: Library, x: nat, y: nat)
    requires mask.Valid() && lib.Valid() && !mask.IsBlank()
    requires x < mask.width && y < mask.height
    ensures var layers := ShadowLayers(mask, sp, lib).value;
            var alpha := ShadowAlpha(mask, sp, lib).value;
            && alpha.At(x, y) >= layers.contact.At(x, y)
            && alpha.At(x, y) >= layers.soft.At(x, y)
            && (alpha.At(x, y) == layers.contact.At(x, y) || alpha.At(x, y) == layers.soft.At(x, y))
  {
    PixelIndexInRange(mask.width, mask.height, x, y);
  }
}
