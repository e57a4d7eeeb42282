/** ShadowProjector: the contact row of the subject, the clamped shear, and
    the affine output-to-input map that lays the mask flat along the ground. */
module ShadowProjector {
  import opened ShadowTypes

  /** Smallest elevation tangent used, so that the shear stays finite. */
  const MinTan: real := 0.001
  /** Smallest magnitude allowed for the vertical scale 1 + k * dy. */
  const MinDenominator: real := 0.2

  function Abs(v: real): real
  {
    if v < 0.0 then -v else v
  }

  predicate RowHasInk(mask: Plane, y: nat)
    requires mask.Valid() && y < mask.height
  {
    exists x: nat :: x < mask.width && mask.At(x, y) != 0
  }

  /** Lower edge of the bounding box over rows 0 .. rows - 1. */
  function LowerEdgeWithin(mask: Plane, rows: nat): (r: Option<nat>)
    requires mask.Valid() && rows <= mask.height
    ensures r.None? <==> forall x: nat, y: nat :: x < mask.width && y < rows ==> mask.At(x, y) == 0
    ensures r.Some? ==> 1 <= r.value <= rows && RowHasInk(mask, r.value - 1)
    ensures r.Some? ==> forall x: nat, y: nat :: x < mask.width && r.value <= y < rows ==> mask.At(x, y) == 0
    decreases rows
  {
    if rows == 0 then None
    else if RowHasInk(mask, rows - 1) then Some(rows)
    else LowerEdgeWithin(mask, rows - 1)
  }

  /** bbox[3]: one past the last row holding a non-zero pixel, None for a blank mask. */
  function BottomEdge(mask: Plane): (r: Option<nat>)
    requires mask.Valid()
    ensures r.None? <==> mask.IsBlank()
    ensures r.Some? ==> 1 <= r.value <= mask.height && RowHasInk(mask, r.value - 1)
    ensures r.Some? ==> forall x: nat, y: nat :: x < mask.width && r.value <= y < mask.height ==> mask.At(x, y) == 0
  {
    LowerEdgeWithin(mask, mask.height)
  }

  /** A mask whose only non-zero pixel is (px, py) is accepted, with contact row py + 1. */
  lemma SinglePixelBottomEdge(mask: Plane, px: nat, py: nat)
    requires mask.Valid() && px < mask.width && py < mask.height
    requires mask.At(px, py) != 0
    requires forall x: nat, y: nat :: x < mask.width && y < mask.height && (x, y) != (px, py) ==> mask.At(x, y) == 0
    ensures BottomEdge(mask) == Some(py + 1)
  {
    assert RowHasInk(mask, py);
  }

  /** max(tan(elevation), 1e-3). */
  function EffectiveTan(tanElevation: real): (t: real)
    ensures t >= MinTan && t >= tanElevation
    ensures t == MinTan || t == tanElevation
  {
    if tanElevation >= MinTan then tanElevation else MinTan
  }

  /** k = min(scale / tan, max_shear), before the degeneracy guard. */
  function ClampedShear(light: Light, scale: real, maxShear: real): (k: real)
    ensures k <= maxShear && k <= scale / EffectiveTan(light.tanElevation)
    ensures k == maxShear || k == scale / EffectiveTan(light.tanElevation)
  {
    var ratio := scale / EffectiveTan(light.tanElevation);
    if ratio <= maxShear then ratio else maxShear
  }

  /** The shear k finally used and the vertical scale denom = 1 + k * dy. */
  datatype Shear = Shear(k: real, denom: real)

  /** The degeneracy guard: when |1 + k * dy| < 0.2 (and dy is not zero), k is
      replaced so that the denominator becomes exactly 0.2. */
  function GuardShear(k: real, dy: real): (s: Shear)
    ensures s.denom == 1.0 + s.k * dy
    ensures Abs(s.denom) >= MinDenominator
    ensures dy == 0.0 ==> s == Shear(k, 1.0)
    ensures dy != 0.0 && Abs(1.0 + k * dy) < MinDenominator ==> s.denom == MinDenominator
    ensures !(dy != 0.0 && Abs(1.0 + k * dy) < MinDenominator) ==> s.k == k
  {
    var denom := 1.0 + k * dy;
    if dy != 0.0 && Abs(denom) < MinDenominator then
      var k' := (MinDenominator - 1.0) / dy;
      Shear(k', 1.0 + k' * dy)
    else
      Shear(k, denom)
  }

  function DeriveShear(light: Light, scale: real, maxShear: real): (s: Shear)
    ensures s.denom == 1.0 + s.k * light.dy && Abs(s.denom) >= MinDenominator
  {
    GuardShear(ClampedShear(light, scale, maxShear), light.dy)
  }

  /** The guard only ever moves k towards zero, so a non-negative max_shear
      still bounds the shear actually used. */
  lemma GuardShrinksShear(k: real, dy: real)
    ensures Abs(GuardShear(k, dy).k) <= Abs(k)
    ensures GuardShear(k, dy).k * k >= 0.0
  {
    var s := GuardShear(k, dy);
    if dy != 0.0 && Abs(1.0 + k * dy) < MinDenominator {
      // k * dy lies in (-1.2, -0.8) while the new shear k' has k' * dy == -0.8.
      assert s.k * dy == -0.8;
      if dy > 0.0 {
        GuardStepAlgebra(k, s.k, dy);
      } else {
        GuardStepAlgebraNegative(k, s.k, dy);
      }
    }
  }

  lemma GuardStepAlgebra(k: real, k': real, dy: real)
    requires dy > 0.0 && k' * dy == -0.8 && -1.2 < k * dy < -0.8
    ensures k < k' < 0.0
  {
    var gap := k' * dy - k * dy;
    assert gap > 0.0;
    assert (k' - k) * dy == k' * dy - k * dy;
    PositiveFactor(k' - k, dy);
    PositiveFactor(-k', dy);
  }

  lemma GuardStepAlgebraNegative(k: real, k': real, dy: real)
    requires dy < 0.0 && k' * dy == -0.8 && -1.2 < k * dy < -0.8
    ensures 0.0 < k' < k
  {
    var gap := k' * dy - k * dy;
    assert gap > 0.0;
    assert (k - k') * (-dy) == k' * dy - k * dy;
    PositiveFactor(k - k', -dy);
    assert k' * (-dy) == 0.8;
    PositiveFactor(k', -dy);
  }

  lemma PositiveFactor(a: real, b: real)
    requires b > 0.0 && a * b > 0.0
    ensures a > 0.0
  {
  }

  lemma ShearWithinMax(light: Light, scale: real, maxShear: real)
    requires maxShear >= 0.0
    ensures DeriveShear(light, scale, maxShear).k <= maxShear
  {
    var k := ClampedShear(light, scale, maxShear);
    GuardShrinksShear(k, light.dy);
  }

  /** The six coefficients of project_shadow for shear s and contact row y0. */
  function Coefficients(s: Shear, dx: real, dy: real, y0: real): (co: Affine)
    requires s.denom != 0.0
    ensures co.a == 1.0 && co.d == 0.0
  {
    Affine(
      1.0,
      -s.k * dx / s.denom,
      s.k * dx * y0 / s.denom,
      0.0,
      1.0 / s.denom,
      s.k * dy * y0 / s.denom)
  }

  function ProjectionCoefficients(light: Light, scale: real, maxShear: real, y0: real): (co: Affine)
    ensures co.a == 1.0 && co.d == 0.0
  {
    Coefficients(DeriveShear(light, scale, maxShear), light.dx, light.dy, y0)
  }

  /** Where output pixel (x, y) samples the input under the coefficients. */
  function MapPoint(co: Affine, x: real, y: real): (real, real)
  {
    (co.a * x + co.b * y + co.c, co.d * x + co.e * y + co.f)
  }

  /** Where input point (x, y) lands in the shadow: it slides k * (y - y0)
      along (dx, dy), so a point h rows above the contact row moves k * h
      against the light direction. */
  function CastPoint(k: real, dx: real, dy: real, y0: real, x: real, y: real): (real, real)
  {
    (x + k * dx * (y - y0), y + k * dy * (y - y0))
  }

  /** Real division by a non-zero value is multiplication by its inverse. */
  lemma DivIsInverse(a: real, d: real)
    requires d != 0.0
    ensures a / d == a * (1.0 / d)
  {
  }

  lemma AffineUndoesCast(co: Affine, k: real, dx: real, dy: real, dn: real, inv: real, y0: real,
                          x: real, y: real, px: real, py: real)
    requires dn == 1.0 + k * dy && dn * inv == 1.0
    requires co == Affine(1.0, -k * dx * inv, k * dx * y0 * inv, 0.0, inv, k * dy * y0 * inv)
    requires px == x + k * dx * (y - y0) && py == y + k * dy * (y - y0)
    ensures MapPoint(co, px, py) == (x, y)
  {
    assert MapPoint(co, px, py) == (co.a * px + co.b * py + co.c, co.d * px + co.e * py + co.f);
    assert py - y0 == dn * (y - y0);
    assert (-k * dx * inv) * py + k * dx * y0 * inv == -k * dx * inv * (py - y0);
    assert -k * dx * inv * (py - y0) == -k * dx * (y - y0) * (dn * inv);
    assert 1.0 * px + (-k * dx * inv) * py + k * dx * y0 * inv == x;
    assert inv * py + k * dy * y0 * inv == inv * (py + k * dy * y0);
    assert py + k * dy * y0 == y * dn;
    assert inv * (y * dn) == y * (dn * inv);
    assert 0.0 * px + inv * py + k * dy * y0 * inv == y;
    assert co.a * px + co.b * py + co.c == x;
    assert co.d * px + co.e * py + co.f == y;
  }

  /** For any consistent shear, the coefficients undo the cast. */
  lemma CoefficientsUndoCast(s: Shear, dx: real, dy: real, y0: real, x: real, y: real)
    requires s.denom == 1.0 + s.k * dy && s.denom != 0.0
    ensures var p := CastPoint(s.k, dx, dy, y0, x, y);
            MapPoint(Coefficients(s, dx, dy, y0), p.0, p.1) == (x, y)
  {
    var p := CastPoint(s.k, dx, dy, y0, x, y);
    var inv := 1.0 / s.denom;
    DivIsInverse(-s.k * dx, s.denom);
    DivIsInverse(s.k * dx * y0, s.denom);
    DivIsInverse(s.k * dy * y0, s.denom);
    AffineUndoesCast(Coefficients(s, dx, dy, y0), s.k, dx, dy, s.denom, inv, y0, x, y, p.0, p.1);
  }

  /** The output-to-input map undoes the cast: sampling the shadow at the
      cast of (x, y) reads the mask at (x, y). */
  lemma MapUndoesCast(light: Light, scale: real, maxShear: real, y0: real, x: real, y: real)
    ensures var k := DeriveShear(light, scale, maxShear).k;
            var p := CastPoint(k, light.dx, light.dy, y0, x, y);
            MapPoint(ProjectionCoefficients(light, scale, maxShear, y0), p.0, p.1) == (x, y)
  {
    CoefficientsUndoCast(DeriveShear(light, scale, maxShear), light.dx, light.dy, y0, x, y);
  }

  /** Every point of the contact row maps to itself: the shadow stays attached. */
  lemma ContactRowFixed(light: Light, scale: real, maxShear: real, y0: real, x: real)
    ensures MapPoint(ProjectionCoefficients(light, scale, maxShear, y0), x, y0) == (x, y0)
  {
    var k := DeriveShear(light, scale, maxShear).k;
    assert CastPoint(k, light.dx, light.dy, y0, x, y0) == (x, y0);
    MapUndoesCast(light, scale, maxShear, y0, x, y0);
  }

  /** Without shear the map is the identity (1, 0, 0, 0, 1, 0). */
  lemma NoShearIsIdentity(light: Light, scale: real, maxShear: real, y0: real)
    requires DeriveShear(light, scale, maxShear).k == 0.0
    ensures ProjectionCoefficients(light, scale, maxShear, y0) == Affine(1.0, 0.0, 0.0, 0.0, 1.0, 0.0)
  {
    assert DeriveShear(light, scale, maxShear).denom == 1.0;
  }

  /** A zero shadow scale under a non-negative max_shear gives no shear at all. */
  lemma ZeroScaleIsIdentity(light: Light, maxShear: real, y0: real)
    requires maxShear >= 0.0
    ensures ProjectionCoefficients(light, 0.0, maxShear, y0) == Affine(1.0, 0.0, 0.0, 0.0, 1.0, 0.0)
  {
    assert ClampedShear(light, 0.0, maxShear) == 0.0;
    NoShearIsIdentity(light, 0.0, maxShear, y0);
  }

  /** project_shadow: EmptyMask for a blank mask, otherwise the mask resampled
      through the projection map at the mask's own size. */
  function ProjectShadow(mask: Plane, light: Light, scale: real, maxShear: real, lib: Library): (r: Result<Plane>)
    requires mask.Valid() && lib.Valid()
    ensures r.Failure? <==> mask.IsBlank()
    ensures r.Failure? ==> r.error == EmptyMask
    ensures r.Success? ==> r.value.Valid() && r.value.width == mask.width && r.value.height == mask.height
    ensures r.Success? ==>
      r.value == lib.resample(mask, ProjectionCoefficients(light, scale, maxShear, BottomEdge(mask).value as real))
  {
    match BottomEdge(mask)
    case None => Failure(EmptyMask)
    case Some(y0) => Success(lib.resample(mask, ProjectionCoefficients(light, scale, maxShear, y0 as real)))
  }
}
