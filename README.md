# Shadow pipeline model

A Dafny model of the shadow pipeline in `backend/shadow.py`. The pipeline casts a
soft, directional drop shadow from a foreground subject onto a background:

1. **Mask source** (module `MaskSource`, `mask_source.dfy`). The subject mask is
   taken either from an explicit mask image or from the foreground's alpha band.
   The choice is a dispatch on the image mode.
2. **Projection** (module `ShadowProjector`, `projector.dfy`). This stage finds the
   contact row `y0`: the exclusive lower edge of the mask's bounding box. It then
   derives the shear `k` from the light, clamps and guards it, and builds the six
   coefficients of the output-to-input affine map that lays the mask flat along
   the ground.
3. **Fade** (module `FadeShaper`, `fade.dfy`). This stage measures the shadow
   extent over the four corners (`ComputeShadowExtent`, a loop). It builds two
   linear falloff masks (`BuildFadeMask`, nested loops appending one byte per
   pixel) along the reverse of the light direction. It multiplies them into two
   blurred copies of the projected shadow and keeps the per-pixel maximum.
4. **Compositing** (module `ShadowCompositor`, `compositor.dfy`). The shadow alpha
   goes into a fresh black RGBA buffer. The foreground's copy gets the mask as its
   alpha, in place (`RgbaImage.PutAlpha`). Then background, shadow and foreground
   are stacked in that order.

Shared types live in module `ShadowTypes` (`types.dfy`):

- Single-channel images are `Plane`s, with flat row-major data. Pixel `(x, y)` is
  at index `y * width + x`, the order of `putdata`.
- Multi-band images are `Image`s.
- Light parameters are real numbers.
- The two pipeline errors (`MissingAlpha`, `EmptyMask`) are a `Result`.
- The imaging library's pixel operations are the function-valued fields of
  `Library`. Its `Valid()` states the one thing the pipeline relies on: each
  operation keeps the image size.

The imperative parts of the source are methods proved against specification
functions:

- `ComputeShadowExtent` against the fold `MaxOver`;
- `BuildFadeMask` against `FadeMask` and `FadeRows`;
- `BuildShadowAlpha` against `ShadowAlpha`;
- `CompositeShadow` against `Composite`.

The properties the source promises are proved as lemmas about those functions.

## Model

| member | source | states |
|---|---|---|
| MaskSource.LastBand | backend/shadow.py:20 | `split()[-1]` is the image's last band, as a plane of the image's own size |
| MaskSource.ConvertToL | backend/shadow.py:18 | `convert("L")` keeps the size; an L image converts to its own single band |
| MaskSource.LoadMaskFromImage | backend/shadow.py:16-21 | never fails; L and 1 give the greyscale conversion; LA and RGBA give the last band; every other mode, including those the model folds into `Other`, gives the library's luminance conversion; the size is kept |
| MaskSource.DeriveMaskFromFg | backend/shadow.py:24-27 | fails with MissingAlpha exactly when the mode is neither LA nor RGBA; otherwise returns the last (alpha) band at the foreground's size |
| MaskSource.DeriveAgreesWithLoad | backend/shadow.py:16-27 | where the foreground path succeeds, the explicit-mask path picks the same plane (band 3 of RGBA, band 1 of LA) |
| ShadowProjector.LowerEdgeWithin | backend/shadow.py:33-37 | over the first `rows` rows: None exactly when all pixels are zero, else one past the last row with a non-zero pixel, and every row below it is zero |
| ShadowProjector.BottomEdge | backend/shadow.py:33-37 | `getbbox()[3]`: None exactly when the mask is blank; otherwise in 1..height, the row above it has ink, and every row from it down is zero |
| ShadowProjector.SinglePixelBottomEdge | backend/shadow.py:33-37 | a mask whose only non-zero pixel is in row py is accepted with y0 = py + 1 |
| ShadowProjector.EffectiveTan | backend/shadow.py:44 | the tangent used is at least 1e-3 and at least tan(elevation), and equals one of them |
| ShadowProjector.ClampedShear | backend/shadow.py:45 | before the guard, k is at most max_shear and at most scale / tan, and equals one of them |
| ShadowProjector.GuardShear | backend/shadow.py:47-50 | afterwards denom = 1 + k·dy and abs(denom) >= 0.2; with dy = 0 nothing changes and denom = 1; when the guard fires denom is exactly 0.2; otherwise k is unchanged |
| ShadowProjector.DeriveShear | backend/shadow.py:44-50 | the shear finally used satisfies denom = 1 + k·dy with abs(denom) >= 0.2, so `1 / denom` is defined |
| ShadowProjector.GuardShrinksShear | backend/shadow.py:47-50 | the guard never increases abs(k) and never flips its sign |
| ShadowProjector.ShearWithinMax | backend/shadow.py:45-50 | with max_shear >= 0, the shear actually used (after the guard) is still at most max_shear |
| ShadowProjector.Coefficients | backend/shadow.py:52-57 | coefficient a is 1 and d is 0 |
| ShadowProjector.ProjectionCoefficients | backend/shadow.py:38-57 | the coefficients from the light and the contact row have a = 1 and d = 0 |
| ShadowProjector.CoefficientsUndoCast | backend/shadow.py:52-57 | for any shear with denom = 1 + k·dy != 0, the map sends the cast of (x, y) back to (x, y) |
| ShadowProjector.MapUndoesCast | backend/shadow.py:44-57 | the output-to-input map inverts the cast (x, y) ↦ (x + k·dx·(y − y0), y + k·dy·(y − y0)) for the derived shear |
| ShadowProjector.ContactRowFixed | backend/shadow.py:52-57 | every point (x, y0) of the contact row maps to itself: the shadow stays attached to the subject |
| ShadowProjector.NoShearIsIdentity | backend/shadow.py:52-57 | with k = 0 the coefficients are exactly (1, 0, 0, 0, 1, 0) |
| ShadowProjector.ZeroScaleIsIdentity | backend/shadow.py:44-57 | shadow_scale = 0 with a non-negative max_shear gives the identity map |
| ShadowProjector.ProjectShadow | backend/shadow.py:30-65 | fails with EmptyMask exactly when the mask is blank; otherwise resamples the mask through the projection coefficients at y0 = the box's lower edge, keeping the mask's size |
| FadeShaper.MaxOver | backend/shadow.py:76-80 | the running maximum is at least its start and every element, and equals the start or some element |
| FadeShaper.ComputeShadowExtent | backend/shadow.py:68-81 | the loop returns the fold over the corners: at least 1.0 and every corner's distance, and equal to 1.0 or one of them |
| FadeShaper.ExtentBoundsEveryPixel | backend/shadow.py:68-81 | the extent bounds the distance of every pixel of the grid, not only of the corners |
| FadeShaper.FadeAlpha | backend/shadow.py:94-99 | the sample is 255 exactly when t <= 0, 0 when t >= D, and the floor of 255·(1 − t/D) in between |
| FadeShaper.FadeAlphaNonIncreasingInDistance | backend/shadow.py:94-99 | for a fixed fade distance, a larger t never gives a larger alpha |
| FadeShaper.FadeAlphaNonDecreasingInFadeDistance | backend/shadow.py:94-99 | for a fixed t, a longer fade distance never gives a smaller alpha |
| FadeShaper.EffectiveDistance | backend/shadow.py:88 | the fade distance used is max(max_distance, 1.0) |
| FadeShaper.FadeRows | backend/shadow.py:89-100 | the rows appended so far hold exactly rows·w samples |
| FadeShaper.FadeMask | backend/shadow.py:101-103 | the fade mask is a valid w x h plane |
| FadeShaper.FadeRowsAt | backend/shadow.py:90-100 | entry y·w + x of the appended data is the sample of pixel (x, y) |
| FadeShaper.FadeMaskAt | backend/shadow.py:84-103 | pixel (x, y) of the fade mask is the falloff of that pixel's own distance under D = max(max_distance, 1) |
| FadeShaper.BuildFadeMask | backend/shadow.py:84-103 | the nested loops produce exactly the fade mask: size w x h and the per-pixel falloff |
| FadeShaper.FadeMaskMonotoneInDistance | backend/shadow.py:88-99 | a longer max_distance never makes a pixel less opaque; a pixel is fully opaque exactly when its distance is <= 0 |
| FadeShaper.FadeDistance | backend/shadow.py:130-131 | extent·max(fraction, 0.01): at least extent·fraction and at least 1% of the extent (so positive), and equal to one of them |
| FadeShaper.FadeDistanceMonotone | backend/shadow.py:130-131 | a larger fade fraction never gives a shorter fade distance |
| FadeShaper.CastMovesAlongFade | backend/shadow.py:125-127 | for a unit light direction, the shadow of a point h rows above the contact row lies k·h farther along the reversed (fade) axis |
| FadeShaper.Lighter | backend/shadow.py:142 | `ImageChops.lighter`: each pixel is the larger of the two inputs' pixels |
| FadeShaper.LayersFrom | backend/shadow.py:125-140 | both layers have the projected shadow's size; what each layer holds is stated by `ShadowLayersFade` |
| FadeShaper.ShadowLayers | backend/shadow.py:115-140 | fails with EmptyMask exactly when the mask is blank; both layers have the mask's size |
| FadeShaper.ShadowLayersFade | backend/shadow.py:125-140 | the contact layer is blur(2) times the contact fade mask and the soft layer blur(12) times the soft one; both masks fade along the reversed light direction from the contact row, and their pixels are the falloff of the pixel's distance |
| FadeShaper.ShadowAlpha | backend/shadow.py:106-142 | fails with EmptyMask exactly when the mask is blank; otherwise a plane of the mask's size |
| FadeShaper.BuildShadowAlpha | backend/shadow.py:106-142 | the method's result is `ShadowAlpha`: EmptyMask for a blank mask, else the lighter of the two layers |
| FadeShaper.CombinedAlphaIsMax | backend/shadow.py:142 | each pixel of the combined alpha is the maximum of the contact and soft layers' pixels |
| ShadowCompositor.WithAlpha | backend/shadow.py:167-170 | `putalpha` on pixel data keeps every pixel's RGB and makes the alpha band exactly the given plane |
| ShadowCompositor.ShadowLayer | backend/shadow.py:166-167 | the shadow-only buffer is black at every pixel, with the shadow alpha as its alpha |
| ShadowCompositor.Composite | backend/shadow.py:145-175 | EmptyMask exactly for a blank mask; the shadow-only pixels are (0, 0, 0, shadow alpha); the composite is over(over(bg, shadow_only), fg with the mask as alpha), in that order |
| ShadowCompositor.ShadowOnlyPixel | backend/shadow.py:142-167 | each shadow-only pixel is black, with alpha equal to the larger of the contact and soft layers at that pixel |
| ShadowCompositor.RgbaImage.Filled | backend/shadow.py:166 | `Image.new("RGBA", size, colour)`: a fresh buffer of w·h copies of the colour |
| ShadowCompositor.RgbaImage.Copy | backend/shadow.py:169 | `copy()`: a fresh image with its own buffer holding the same pixels |
| ShadowCompositor.RgbaImage.PutAlpha | backend/shadow.py:167-170 | in place: the new pixels are the old pixels with the alpha band replaced by the plane |
| ShadowCompositor.AlphaComposite | backend/shadow.py:172-173 | `Image.alpha_composite`: a fresh image of the same size holding the library's blend of the two |
| ShadowCompositor.CompositeShadow | backend/shadow.py:145-175 | needs fg, bg and mask of one size, which the caller checks at backend/server.py:64; EmptyMask exactly for a blank mask; otherwise fresh outputs at the background's size whose pixels are `Composite` of the inputs, and fg and bg are left unchanged |

## Left out

- Trigonometry: `math.radians`, `cos`, `sin` and `tan` (backend/shadow.py:38-44, 121-123) are not modelled. Their results are the real inputs `Light.dx`, `Light.dy` and `Light.tanElevation`. The angle and elevation are not connected to them, except that `CastMovesAlongFade` assumes dx² + dy² = 1.
- Floating point: the model computes over exact reals. Python's rounding can differ from it at exact boundaries, such as `t <= 0` or the `< 0.2` test of the guard.
- `int()` at backend/shadow.py:99 truncates toward zero. The model uses `Floor`. The two agree because the argument there is always strictly positive.
- Pixel numerics of the imaging library are opaque `Library` functions. The model assumes only that each keeps the size. This covers:
  - bicubic affine resampling (`transform`);
  - `GaussianBlur`;
  - `ImageChops.multiply`;
  - `Image.alpha_composite`;
  - `convert("L")` of any mode other than L.
- ShadowProjector.ProjectShadow: what is known about the resampled mask is only its size and the coefficients it is resampled with. `MapUndoesCast` and `ContactRowFixed` state where each output pixel samples the input.
- ShadowProjector.BottomEdge: `getbbox` is modelled only through its lower edge, the one value the pipeline uses. Its left, top and right edges are not modelled.
- `load_mask` (backend/shadow.py:7-13) is not modelled separately. It opens a file, then runs the same mode dispatch as `load_mask_from_image`, which is modelled once.
- build_shadow_alpha's second `getbbox` test (backend/shadow.py:117-120) can never fail. `project_shadow` has already rejected a blank mask. The model keeps the check, and the verifier proves that branch dead.
- The hoisting of `dy * (y - y0)` out of the inner loop of `build_fade_mask` (backend/shadow.py:91) is an optimisation. Each sample is computed from its own distance, which is the same value over the reals.
- backend/server.py (HTTP routing, form parsing, PNG and base64 encoding) is not part of this model. Its one size-equality check becomes the requires of `CompositeShadow`.
- backend/main.py, frontend/app.ts and frontend/app.js have no shadow logic and are not part of this model.
