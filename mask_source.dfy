/** MaskSource: picks the single-channel subject mask, either from an
    explicitly supplied mask image or from the foreground's own alpha. */
module MaskSource {
  import opened ShadowTypes

  /** The modes whose last band the source takes as alpha. */
  predicate HasAlphaMode(m: Mode)
  {
    m == LA || m == RGBA
  }

  /** split()[-1]: the image's last band as a plane of the same size. */
  function LastBand(img: Image): (m: Plane)
    requires img.Valid()
    ensures m.Valid() && m.width == img.width && m.height == img.height
    ensures m.data == img.bands[|img.bands| - 1]
  {
    Plane(img.width, img.height, img.bands[|img.bands| - 1])
  }

  /** convert("L"): an L image converts to a copy of itself; every other mode
      goes through the library's greyscale or luminance conversion. */
  function ConvertToL(img: Image, lib: Library): (m: Plane)
    requires img.Valid() && lib.Valid()
    ensures m.Valid() && m.width == img.width && m.height == img.height
    ensures img.mode == L ==> m.data == img.bands[0]
  {
    if img.mode == L then Plane(img.width, img.height, img.bands[0]) else lib.convertL(img)
  }

  /** Mask from an explicitly supplied image: never fails. */
  function LoadMaskFromImage(img: Image, lib: Library): (m: Plane)
    requires img.Valid() && lib.Valid()
    ensures m.Valid() && m.width == img.width && m.height == img.height
    ensures HasAlphaMode(img.mode) ==> m.data == img.bands[|img.bands| - 1]
    ensures img.mode == L ==> m.data == img.bands[0]
    ensures !HasAlphaMode(img.mode) && img.mode != L ==> m == lib.convertL(img)
  {
    if img.mode == Bilevel || img.mode == L then ConvertToL(img, lib)
    else if HasAlphaMode(img.mode) then LastBand(img)
    else ConvertToL(img, lib)
  }

  /** Mask from the foreground alone: its alpha band, or MissingAlpha. */
  function DeriveMaskFromFg(fg: Image): (r: Result<Plane>)
    requires fg.Valid()
    ensures r.Failure? <==> !HasAlphaMode(fg.mode)
    ensures r.Failure? ==> r.error == MissingAlpha
    ensures r.Success? ==> r.value.Valid() && r.value.width == fg.width && r.value.height == fg.height
    ensures r.Success? ==> r.value.data == fg.bands[|fg.bands| - 1]
  {
    if HasAlphaMode(fg.mode) then Success(LastBand(fg)) else Failure(MissingAlpha)
  }

  /** Where the foreground path succeeds, the explicit-mask path on the same
      image picks the same mask; a mode carrying alpha has its alpha band last. */
  lemma DeriveAgreesWithLoad(fg: Image, lib: Library)
    requires fg.Valid() && lib.Valid()
    ensures DeriveMaskFromFg(fg).Success? ==> DeriveMaskFromFg(fg).value == LoadMaskFromImage(fg, lib)
    ensures fg.mode == RGBA ==> LoadMaskFromImage(fg, lib).data == fg.bands[3]
    ensures fg.mode == LA ==> LoadMaskFromImage(fg, lib).data == fg.bands[1]
  {
  }
}
