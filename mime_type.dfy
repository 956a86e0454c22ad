// Extension-to-MIME mapping of the front end.  The extension is the one the
// platform's `extname` reports for the file name (without the dot); that
// path helper is outside the model, so the extension is the input here.
module MimeType {
  import opened Common

  const ImageJpeg: string := "image/jpeg"
  const ImagePng: string := "image/png"
  const ImageWebp: string := "image/webp"
  const ImageGif: string := "image/gif"
  const ImageAvif: string := "image/avif"

  /** `detectImageMimeType`: lower-case the extension, then look it up. */
  function DetectImageMimeType(ext: string): (m: Option<string>)
    ensures m.Some? ==> m.value in {ImageJpeg, ImagePng, ImageWebp, ImageGif, ImageAvif}
  {
    var e := ToLower(ext);
    if e == "jpg" || e == "jpeg" then Some(ImageJpeg)
    else if e == "png" then Some(ImagePng)
    else if e == "webp" then Some(ImageWebp)
    else if e == "gif" then Some(ImageGif)
    else if e == "avif" then Some(ImageAvif)
    else None
  }

  /** The lower-case extensions that map to a MIME type (the inverse table). */
  function ExtensionsOf(mime: string): set<string> {
    if mime == ImageJpeg then {"jpg", "jpeg"}
    else if mime == ImagePng then {"png"}
    else if mime == ImageWebp then {"webp"}
    else if mime == ImageGif then {"gif"}
    else if mime == ImageAvif then {"avif"}
    else {}
  }

  /** The mapping and the inverse table agree, in both directions. */
  lemma DetectMatchesTable(ext: string, mime: string)
    ensures DetectImageMimeType(ext) == Some(mime) <==> ToLower(ext) in ExtensionsOf(mime)
  {
  }

  /** Any extension outside the table has no MIME type. */
  lemma UnknownExtension(ext: string)
    requires ToLower(ext) !in {"jpg", "jpeg", "png", "webp", "gif", "avif"}
    ensures DetectImageMimeType(ext).None?
  {
  }

  /** Letter case does not matter. */
  lemma DetectIgnoresCase(ext: string)
    ensures DetectImageMimeType(ToLower(ext)) == DetectImageMimeType(ext)
  {
    ToLowerIdempotent(ext);
  }

  /** Distinct extensions give distinct MIME types, jpg and jpeg excepted. */
  lemma DetectInjectiveExceptJpeg(a: string, b: string)
    requires DetectImageMimeType(a).Some? && DetectImageMimeType(a) == DetectImageMimeType(b)
    requires ToLower(a) != ToLower(b)
    ensures {ToLower(a), ToLower(b)} == {"jpg", "jpeg"}
  {
    DetectMatchesTable(a, DetectImageMimeType(a).value);
    DetectMatchesTable(b, DetectImageMimeType(a).value);
  }
}
