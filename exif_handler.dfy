// EXIF rules of the desktop back end: file-type detection from the path,
// the read side that folds a tag list into an `ExifImageInfo`, and the
// rating write with its guard and percent table.  The `little_exif`
// metadata container is modelled as a sequence of tags.
module ExifHandler {
  import opened Common

  type u16 = x: int | 0 <= x < 0x1_0000

  /** The container formats `little_exif` distinguishes. */
  datatype FileExtension = JPEG | PNG(asZtxtChunk: bool) | TIFF | WEBP | HEIF | JXL

  /** The tags the handler looks at; every other tag is `Other`. */
  datatype ExifTag =
    | CreateDate(date: string)
    | DateTimeOriginal(date: string)
    | ModifyDate(date: string)
    | UnknownInt16U(values: seq<u16>, tagId: nat)
    | Other(id: nat)

  datatype ExifImageInfo = ExifImageInfo(
    rating: Option<u16>,
    createDate: Option<string>,
    datetimeOriginal: Option<string>,
    modifyDate: Option<string>)

  datatype RatingError = RatingOutOfRange | ReadFailed(message: string) | WriteFailed(message: string)

  const RatingTagId: nat := 18246
  const RatingPercentTagId: nat := 18249
  const CreateDateId: nat := 0x9004
  const DateTimeOriginalId: nat := 0x9003
  const ModifyDateId: nat := 0x0132

  /** Tag number of a tag, as `set_tag` uses it to replace an earlier tag. */
  function TagId(t: ExifTag): nat {
    match t
    case CreateDate(_) => CreateDateId
    case DateTimeOriginal(_) => DateTimeOriginalId
    case ModifyDate(_) => ModifyDateId
    case UnknownInt16U(_, id) => id
    case Other(id) => id
  }

  // ---------------------------------------------------------------------
  // File-type detection

  /** Text after the last '.', lower-cased; empty when the path has no '.'. */
  function ExtensionOf(path: string): string {
    match LastIndexOf(path, '.')
    case None => ""
    case Some(i) => ToLower(path[i + 1..])
  }

  function DetermineFileExtension(path: string): (fe: FileExtension)
    ensures var ext := ExtensionOf(path);
      (fe == JPEG <==> ext !in {"png", "tiff", "tif", "webp", "heif", "heic", "jxl"}) &&
      (fe == PNG(false) <==> ext == "png") &&
      (fe == TIFF <==> ext in {"tiff", "tif"}) &&
      (fe == WEBP <==> ext == "webp") &&
      (fe == HEIF <==> ext in {"heif", "heic"}) &&
      (fe == JXL <==> ext == "jxl")
  {
    var ext := ExtensionOf(path);
    if ext == "jpg" || ext == "jpeg" then JPEG
    else if ext == "png" then PNG(false)
    else if ext == "tiff" || ext == "tif" then TIFF
    else if ext == "webp" then WEBP
    else if ext == "heif" || ext == "heic" then HEIF
    else if ext == "jxl" then JXL
    else JPEG
  }

  /** The extension is the lower-cased text after the last dot of the path. */
  lemma ExtensionOfDotted(stem: string, ext: string)
    requires forall k :: 0 <= k < |ext| ==> ext[k] != '.'
    ensures ExtensionOf(stem + "." + ext) == ToLower(ext)
  {
    var path := stem + "." + ext;
    LastIndexOfIs(path, '.', |stem|);
    assert path[|stem| + 1..] == ext;
  }

  /** A path without a dot has the empty extension, which selects JPEG. */
  lemma ExtensionOfDotless(path: string)
    requires forall k :: 0 <= k < |path| ==> path[k] != '.'
    ensures ExtensionOf(path) == "" && DetermineFileExtension(path) == JPEG
  {
  }

  /** Lower-casing the path does not move its last dot. */
  lemma ExtensionOfIgnoresCase(path: string)
    ensures ExtensionOf(ToLower(path)) == ExtensionOf(path)
  {
    var low := ToLower(path);
    forall k | 0 <= k < |path| ensures low[k] == '.' <==> path[k] == '.' {
      LowerCharKeepsDot(path[k]);
    }
    match LastIndexOf(path, '.')
    case None =>
      assert LastIndexOf(low, '.').None?;
    case Some(i) =>
      LastIndexOfIs(low, '.', i);
      ToLowerSuffix(path, i + 1);
      ToLowerIdempotent(path[i + 1..]);
  }

  /** Detection ignores letter case in the whole path. */
  lemma DetermineFileExtensionIgnoresCase(path: string)
    ensures DetermineFileExtension(ToLower(path)) == DetermineFileExtension(path)
  {
    ExtensionOfIgnoresCase(path);
  }

  // ---------------------------------------------------------------------
  // Reading: the fold over the tag list

  /** Which field of `ExifImageInfo` a tag feeds. */
  datatype Field = CreateDateField | DateTimeOriginalField | ModifyDateField | RatingField

  predicate Feeds(t: ExifTag, f: Field) {
    match f
    case CreateDateField => t.CreateDate?
    case DateTimeOriginalField => t.DateTimeOriginal?
    case ModifyDateField => t.ModifyDate?
    case RatingField => t.UnknownInt16U? && t.tagId == RatingTagId && |t.values| > 0
  }

  /** Index of the last tag feeding field `f` (reference definition). */
  function LastFeeding(tags: seq<ExifTag>, f: Field): (r: Option<nat>)
    ensures r.Some? ==> r.value < |tags| && Feeds(tags[r.value], f)
    ensures r.Some? ==> forall j :: r.value < j < |tags| ==> !Feeds(tags[j], f)
    ensures r.None? ==> forall j :: 0 <= j < |tags| ==> !Feeds(tags[j], f)
  {
    if |tags| == 0 then None
    else if Feeds(tags[|tags| - 1], f) then Some(|tags| - 1)
    else LastFeeding(tags[..|tags| - 1], f)
  }

  function DateOf(t: ExifTag): string
    requires t.CreateDate? || t.DateTimeOriginal? || t.ModifyDate?
  {
    t.date
  }

  function DateField(tags: seq<ExifTag>, f: Field): Option<string>
    requires f != RatingField
  {
    match LastFeeding(tags, f)
    case None => None
    case Some(i) => Some(DateOf(tags[i]))
  }

  function RatingValue(tags: seq<ExifTag>): Option<u16> {
    match LastFeeding(tags, RatingField)
    case None => None
    case Some(i) => Some(tags[i].values[0])
  }

  /** What reading a tag list yields: each field from the last tag feeding it. */
  function InfoOf(tags: seq<ExifTag>): ExifImageInfo {
    ExifImageInfo(
      RatingValue(tags),
      DateField(tags, CreateDateField),
      DateField(tags, DateTimeOriginalField),
      DateField(tags, ModifyDateField))
  }

  /** One step of the fold: the field fed by `t` takes its value, the rest stay. */
  function Absorb(info: ExifImageInfo, t: ExifTag): ExifImageInfo {
    match t
    case CreateDate(v) => info.(createDate := Some(v))
    case DateTimeOriginal(v) => info.(datetimeOriginal := Some(v))
    case ModifyDate(v) => info.(modifyDate := Some(v))
    case UnknownInt16U(values, id) =>
      if id == RatingTagId && |values| > 0 then info.(rating := Some(values[0])) else info
    case Other(_) => info
  }

  lemma InfoOfSnoc(tags: seq<ExifTag>, t: ExifTag)
    ensures InfoOf(tags + [t]) == Absorb(InfoOf(tags), t)
  {
    var s := tags + [t];
    assert s[..|s| - 1] == tags;
  }

  /**
   * The loop of the source, over a local record whose fields it overwrites.
   * The result is always present and equals the last-wins reading.
   */
  method ExtractExifInfoFromMetadata(metadata: seq<ExifTag>) returns (info: Option<ExifImageInfo>)
    ensures info == Some(InfoOf(metadata))
  {
    var exifInfo := ExifImageInfo(None, None, None, None);
    for i := 0 to |metadata|
      invariant exifInfo == InfoOf(metadata[..i])
    {
      InfoOfSnoc(metadata[..i], metadata[i]);
      assert metadata[..i + 1] == metadata[..i] + [metadata[i]];
      match metadata[i]
      case CreateDate(v) =>
        exifInfo := exifInfo.(createDate := Some(v));
      case DateTimeOriginal(v) =>
        exifInfo := exifInfo.(datetimeOriginal := Some(v));
      case ModifyDate(v) =>
        exifInfo := exifInfo.(modifyDate := Some(v));
      case UnknownInt16U(values, id) =>
        if id == RatingTagId && |values| > 0 {
          exifInfo := exifInfo.(rating := Some(values[0]));
        }
      case Other(_) =>
    }
    assert metadata[..|metadata|] == metadata;
    return Some(exifInfo);
  }

  /**
   * Without any recognised tag every field of the reading is None: other
   * tags, other `UnknownInt16U` numbers (18249 among them) and an empty
   * rating tag are all ignored.
   */
  lemma InfoOfUnrecognised(tags: seq<ExifTag>)
    requires forall j, f :: 0 <= j < |tags| ==> !Feeds(tags[j], f)
    ensures InfoOf(tags) == ExifImageInfo(None, None, None, None)
  {
    assert LastFeeding(tags, RatingField).None?;
  }

  /** The rating is the first value of the last non-empty rating tag. */
  lemma RatingIsLastNonEmpty(tags: seq<ExifTag>, i: nat)
    requires i < |tags| && tags[i].UnknownInt16U? && tags[i].tagId == RatingTagId && |tags[i].values| > 0
    requires forall j :: i < j < |tags| ==> !(tags[j].UnknownInt16U? && tags[j].tagId == RatingTagId && |tags[j].values| > 0)
    ensures InfoOf(tags).rating == Some(tags[i].values[0])
  {
    assert Feeds(tags[i], RatingField);
  }

  // ---------------------------------------------------------------------
  // Writing the rating

  /** The percent stored beside a star rating. */
  function RatingPercent(rating: nat): (p: u16)
    requires rating <= 5
    ensures p <= 99
    ensures rating == 0 <==> p == 0
  {
    if rating == 0 then 0
    else if rating == 1 then 1
    else if rating == 2 then 25
    else if rating == 3 then 50
    else if rating == 4 then 75
    else 99
  }

  lemma RatingPercentStrictlyIncreasing(a: nat, b: nat)
    requires a < b <= 5
    ensures RatingPercent(a) < RatingPercent(b)
  {
  }

  /** `set_tag`: an earlier tag with the same number is replaced by the new one. */
  function SetTag(tags: seq<ExifTag>, t: ExifTag): (r: seq<ExifTag>)
    ensures |r| >= 1 && r[|r| - 1] == t
    ensures forall j :: 0 <= j < |r| - 1 ==> TagId(r[j]) != TagId(t)
  {
    WithoutId(tags, TagId(t)) + [t]
  }

  function WithoutId(tags: seq<ExifTag>, id: nat): (r: seq<ExifTag>)
    ensures forall j :: 0 <= j < |r| ==> TagId(r[j]) != id
    ensures |r| <= |tags|
  {
    if |tags| == 0 then []
    else if TagId(tags[|tags| - 1]) == id then WithoutId(tags[..|tags| - 1], id)
    else WithoutId(tags[..|tags| - 1], id) + [tags[|tags| - 1]]
  }

  /** Dropping the tags with one number keeps every tag with another number. */
  lemma {:induction false} WithoutIdKeeps(tags: seq<ExifTag>, id: nat, f: Field)
    requires f != RatingField
    requires forall t :: Feeds(t, f) ==> TagId(t) != id
    ensures DateField(WithoutId(tags, id), f) == DateField(tags, f)
  {
    if |tags| > 0 {
      var init := tags[..|tags| - 1];
      var last := tags[|tags| - 1];
      assert tags == init + [last];
      WithoutIdKeeps(init, id, f);
      if TagId(last) != id {
        DateFieldSnoc(WithoutId(init, id), last, f);
        DateFieldSnoc(init, last, f);
      } else {
        assert !Feeds(last, f);
        DateFieldSnoc(init, last, f);
      }
    }
  }

  lemma DateFieldSnoc(tags: seq<ExifTag>, t: ExifTag, f: Field)
    requires f != RatingField
    ensures DateField(tags + [t], f) == if Feeds(t, f) then Some(DateOf(t)) else DateField(tags, f)
  {
    var s := tags + [t];
    assert s[..|s| - 1] == tags;
  }

  /**
   * `write_exif_image_rating` on a loaded tag list: a rating above 5 fails before
   * anything is read, a failed read or write is an error, and otherwise the
   * written metadata carries the rating tag and then the percent tag.
   * `loaded` is the outcome of reading the file and `writeError` that of
   * writing it back.
   */
  function WriteExifImageRating(rating: nat, loaded: Result<seq<ExifTag>, string>,
                                writeError: Option<string>): (r: Result<seq<ExifTag>, RatingError>)
    ensures 5 < rating ==> r == Err(RatingOutOfRange)
    ensures rating <= 5 && loaded.Err? ==> r == Err(ReadFailed(loaded.error))
    ensures rating <= 5 && loaded.Ok? && writeError.Some? ==> r == Err(WriteFailed(writeError.value))
  {
    if 5 < rating then Err(RatingOutOfRange)
    else match loaded
      case Err(e) => Err(ReadFailed(e))
      case Ok(tags) =>
        var withRating := SetTag(tags, UnknownInt16U([rating], RatingTagId));
        var written := SetTag(withRating, UnknownInt16U([RatingPercent(rating)], RatingPercentTagId));
        match writeError
        case Some(e) => Err(WriteFailed(e))
        case None => Ok(written)
  }

  /** A `set_tag` of a tag that is not a date keeps every date field. */
  lemma SetTagKeepsDate(tags: seq<ExifTag>, t: ExifTag, f: Field)
    requires f != RatingField && t.UnknownInt16U?
    requires t.tagId != CreateDateId && t.tagId != DateTimeOriginalId && t.tagId != ModifyDateId
    ensures DateField(SetTag(tags, t), f) == DateField(tags, f)
  {
    DateFieldSnoc(WithoutId(tags, TagId(t)), t, f);
    WithoutIdKeeps(tags, TagId(t), f);
  }

  /** After writing the rating tag and then the percent tag, the rating reads back. */
  lemma RatingReadsBack(tags: seq<ExifTag>, rating: u16, percent: u16)
    ensures var rt := UnknownInt16U([rating], RatingTagId);
      var pt := UnknownInt16U([percent], RatingPercentTagId);
      RatingValue(SetTag(SetTag(tags, rt), pt)) == Some(rating)
  {
    var rt := UnknownInt16U([rating], RatingTagId);
    var pt := UnknownInt16U([percent], RatingPercentTagId);
    var base := WithoutId(WithoutId(tags, RatingTagId), RatingPercentTagId);
    var kept := WithoutId(SetTag(tags, rt), RatingPercentTagId);
    assert kept == base + [rt];
    InfoOfSnoc(kept, pt);
    InfoOfSnoc(base, rt);
  }

  /**
   * Reading back a successful write: the rating is the one written, the
   * percent tag holds the percent of that rating, and the three dates are
   * those of the file before the write.
   */
  lemma WriteThenRead(rating: nat, tags: seq<ExifTag>)
    requires rating <= 5
    ensures var r := WriteExifImageRating(rating, Ok(tags), None);
      r.Ok? &&
      InfoOf(r.value).rating == Some(rating) &&
      r.value[|r.value| - 1] == UnknownInt16U([RatingPercent(rating)], RatingPercentTagId) &&
      InfoOf(r.value).createDate == InfoOf(tags).createDate &&
      InfoOf(r.value).datetimeOriginal == InfoOf(tags).datetimeOriginal &&
      InfoOf(r.value).modifyDate == InfoOf(tags).modifyDate
  {
    var rt := UnknownInt16U([rating], RatingTagId);
    var pt := UnknownInt16U([RatingPercent(rating)], RatingPercentTagId);
    var withRating := SetTag(tags, rt);
    RatingReadsBack(tags, rating, RatingPercent(rating));
    SetTagKeepsDate(tags, rt, CreateDateField);
    SetTagKeepsDate(withRating, pt, CreateDateField);
    SetTagKeepsDate(tags, rt, DateTimeOriginalField);
    SetTagKeepsDate(withRating, pt, DateTimeOriginalField);
    SetTagKeepsDate(tags, rt, ModifyDateField);
    SetTagKeepsDate(withRating, pt, ModifyDateField);
  }
}
