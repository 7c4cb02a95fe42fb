/**
 * Naming and serving of item images: the stored name of an uploaded image is the
 * SHA-256 digest of its original file name followed by ".jpg", and the image
 * endpoint accepts only ".jpg" names, falling back to a default image when the
 * requested one is not in the image directory.
 */
module Images {

  const JpgSuffix := ".jpg"
  const DefaultImage := "default.jpg"
  const BadRequestStatus := 400
  const BadSuffixDetail := "Image path does not end with .jpg"

  predicate IsLowerHexDigit(c: char) {
    '0' <= c <= '9' || 'a' <= c <= 'f'
  }

  predicate IsLowerHex(s: string) {
    forall i :: 0 <= i < |s| ==> IsLowerHexDigit(s[i])
  }

  /** What `hexdigest()` of a SHA-256 hash yields: 64 lower-case hexadecimal digits. */
  type HexDigest = s: string | |s| == 64 && IsLowerHex(s)
    witness seq(64, _ => '0')

  /** Python's `str.endswith`. */
  predicate EndsWith(s: string, suffix: string) {
    |suffix| <= |s| && s[|s| - |suffix|..] == suffix
  }

  /**
   * The stored image name for an upload whose original file name is `image`.
   * The digest function itself is a parameter: only its shape is known here.
   */
  function GetHash(sha256: string -> HexDigest, image: string): (r: string)
    ensures |r| == 68
    ensures r[..64] == sha256(image) && IsLowerHex(r[..64])
    ensures EndsWith(r, JpgSuffix)
  {
    sha256(image) + JpgSuffix
  }

  /**
   * Two original file names give the same stored image name exactly when their
   * digests collide; the stored name depends on the file name alone.
   */
  lemma SameStoredNameIffSameDigest(sha256: string -> HexDigest, a: string, b: string)
    ensures GetHash(sha256, a) == GetHash(sha256, b) <==> sha256(a) == sha256(b)
  {
  }

  datatype ImageResponse =
    | BadRequest(status: int, detail: string)
    | ServeFile(imageName: string)

  /**
   * The decision made by the image endpoint for `imageName`, given the set of
   * names present in the image directory.
   */
  function GetImage(imageName: string, stored: set<string>): (r: ImageResponse)
    ensures r.BadRequest? <==> !EndsWith(imageName, JpgSuffix)
    ensures r.BadRequest? ==> r.status == BadRequestStatus && r.detail == BadSuffixDetail
    ensures r.ServeFile? && imageName in stored ==> r.imageName == imageName
    ensures r.ServeFile? && imageName !in stored ==> r.imageName == DefaultImage
    ensures r.ServeFile? ==> EndsWith(r.imageName, JpgSuffix)
  {
    if !EndsWith(imageName, JpgSuffix) then
      BadRequest(BadRequestStatus, BadSuffixDetail)
    else if imageName !in stored then
      ServeFile(DefaultImage)
    else
      ServeFile(imageName)
  }

  /** Every stored name the upload path produces passes the image endpoint's check. */
  lemma StoredNamesAreNeverRejected(sha256: string -> HexDigest, image: string, stored: set<string>)
    ensures GetImage(GetHash(sha256, image), stored).ServeFile?
  {
  }

  /** Once the image is saved under its stored name, requesting that name serves it. */
  lemma UploadedImageIsServed(sha256: string -> HexDigest, image: string, stored: set<string>)
    ensures var name := GetHash(sha256, image);
            GetImage(name, stored + {name}) == ServeFile(name)
  {
  }
}
