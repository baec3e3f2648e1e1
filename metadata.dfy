/**
 * One scanned image and the key under which duplicates are bucketed
 * (`ImageMetadata` and `get_identifier`).
 */
module Metadata {
  import opened Wrappers

  /** Width and height in pixels, as reported by PIL or ExifTool. */
  type Dimensions = (int, int)

  /**
   * What the scanner learnt about one file. `fileSize` is 0 when `stat`
   * failed; the other fields are absent when their extractor failed.
   */
  datatype ImageMetadata = ImageMetadata(
    path: string,
    fileSize: nat,
    hash: Option<string>,
    cameraModel: Option<string>,
    resolution: Option<Dimensions>)

  /** The 4-tuple `(camera_model, hash, resolution, file_size)` with defaults filled in. */
  datatype Identifier = Identifier(cameraModel: string, hash: string, resolution: Dimensions, fileSize: nat)

  /**
   * `get_identifier`: an absent camera model or hash becomes `""`, an absent
   * resolution `(0, 0)`. (Python's `x or ""` also maps `""` to `""`, and a
   * pair `(w, h)` is never falsy, so `GetOr` is exactly `or` here.)
   */
  function GetIdentifier(m: ImageMetadata): (id: Identifier)
    ensures m.cameraModel.None? ==> id.cameraModel == ""
    ensures m.hash.None? ==> id.hash == ""
    ensures m.resolution.None? ==> id.resolution == (0, 0)
    ensures id.fileSize == m.fileSize
  {
    Identifier(m.cameraModel.GetOr(""), m.hash.GetOr(""), m.resolution.GetOr((0, 0)), m.fileSize)
  }

  /** Two optional texts are indistinguishable once absence is read as empty. */
  predicate SameText(x: Option<string>, y: Option<string>) {
    x == y || (x in {None, Some("")} && y in {None, Some("")})
  }

  /** Two optional resolutions are indistinguishable once absence is read as `(0, 0)`. */
  predicate SameResolution(x: Option<Dimensions>, y: Option<Dimensions>) {
    x == y || (x in {None, Some((0, 0))} && y in {None, Some((0, 0))})
  }

  /** Field-by-field notion of "duplicate", independent of the identifier tuple. */
  predicate Duplicate(a: ImageMetadata, b: ImageMetadata) {
    && a.fileSize == b.fileSize
    && SameText(a.cameraModel, b.cameraModel)
    && SameText(a.hash, b.hash)
    && SameResolution(a.resolution, b.resolution)
  }

  /**
   * Equal identifiers mean exactly: the same size, and camera model, hash and
   * resolution equal up to the defaults. The path never matters.
   */
  lemma IdentifierEqualIffDuplicate(a: ImageMetadata, b: ImageMetadata)
    ensures GetIdentifier(a) == GetIdentifier(b) <==> Duplicate(a, b)
  {
    if GetIdentifier(a) == GetIdentifier(b) {
      OptionTextDefault(a.cameraModel, b.cameraModel);
      OptionTextDefault(a.hash, b.hash);
      OptionResolutionDefault(a.resolution, b.resolution);
    }
  }

  lemma OptionTextDefault(x: Option<string>, y: Option<string>)
    requires x.GetOr("") == y.GetOr("")
    ensures SameText(x, y)
  {
    if x.Some? && y.Some? {
      assert x.value == y.value;
    } else if x.Some? {
      assert x.value == "";
    } else if y.Some? {
      assert y.value == "";
    }
  }

  lemma OptionResolutionDefault(x: Option<Dimensions>, y: Option<Dimensions>)
    requires x.GetOr((0, 0)) == y.GetOr((0, 0))
    ensures SameResolution(x, y)
  {
    if x.Some? && y.Some? {
      assert x.value == y.value;
    } else if x.Some? {
      assert x.value == (0, 0);
    } else if y.Some? {
      assert y.value == (0, 0);
    }
  }

  /** Being a duplicate is an equivalence relation, since it is equality of identifiers. */
  lemma DuplicateIsEquivalence(a: ImageMetadata, b: ImageMetadata, c: ImageMetadata)
    ensures Duplicate(a, a)
    ensures Duplicate(a, b) ==> Duplicate(b, a)
    ensures Duplicate(a, b) && Duplicate(b, c) ==> Duplicate(a, c)
  {
    IdentifierEqualIffDuplicate(a, a);
    IdentifierEqualIffDuplicate(a, b);
    IdentifierEqualIffDuplicate(b, a);
    IdentifierEqualIffDuplicate(b, c);
    IdentifierEqualIffDuplicate(a, c);
  }
}
