// Bookkeeping of the thumbnail cache: the configuration default, the cache
// key and file name, which files in the cache directory are stale, the two
// deletion loops, the shaping of batch results and of a cache hit, and the
// metadata decisions taken when a thumbnail is generated.  SHA-256, the
// file system, the image decoder and the WebP encoder are parameters: a
// hash is a given string, a directory listing is a given sequence of
// entries, each carrying the outcome its deletion would have.
module ThumbnailHandler {
  import opened Common
  import ExifHandler
  import WebpMetadata

  datatype ThumbnailConfig = ThumbnailConfig(size: nat, quality: nat, includeMetadata: bool)

  datatype ThumbnailInfo<S> = ThumbnailInfo(
    data: WebpMetadata.Bytes,
    width: nat,
    height: nat,
    mimeType: string,
    metadata: Option<WebpMetadata.ThumbnailMetadata<S>>)

  datatype ThumbnailError = Io(message: string) | ImageLoad(message: string) | Webp(cause: WebpMetadata.WebpError)

  datatype ClearError = ListingFailed(message: string) | DeletionsFailed(errorCount: nat)

  datatype BatchThumbnailResult<S> = BatchThumbnailResult(
    path: string,
    thumbnail: Option<ThumbnailInfo<S>>,
    error: Option<ThumbnailError>)

  /**
   * One entry of the cache directory: its file name when it is valid UTF-8,
   * whether it is a regular file, and whether deleting it would succeed.
   */
  datatype DirEntry = DirEntry(name: Option<string>, isFile: bool, removeSucceeds: bool)

  const WebpSuffix: string := ".webp"
  const WebpMime: string := "image/webp"
  const CacheVersion: nat := 1

  function DefaultConfig(): (c: ThumbnailConfig)
    ensures c.size == 300 && c.quality == 50 && c.includeMetadata
  {
    ThumbnailConfig(300, 50, true)
  }

  // ---------------------------------------------------------------------
  // Keys and names

  /** `generate_cache_key`: the path hash and the content hash joined by '_'. */
  function CacheKey(pathHash: string, contentHash: string): string {
    pathHash + "_" + contentHash
  }

  function CacheFileName(key: string): string {
    key + WebpSuffix
  }

  /** `is_old_cache_file`. */
  predicate IsOldCacheFile(fileName: string, pathHash: string) {
    StartsWith(fileName, pathHash) && EndsWith(fileName, WebpSuffix)
  }

  /**
   * The current cache file of a path is itself an old-cache candidate, which
   * is why the deletion loop skips it explicitly.
   */
  lemma CurrentFileIsCandidate(pathHash: string, contentHash: string)
    ensures IsOldCacheFile(CacheFileName(CacheKey(pathHash, contentHash)), pathHash)
  {
    var name := CacheFileName(CacheKey(pathHash, contentHash));
    assert name[..|pathHash|] == pathHash;
    assert name[|name| - |WebpSuffix|..] == WebpSuffix;
  }

  /** With hashes of one fixed length (hex SHA-256) the file name determines both hashes. */
  lemma CacheFileNameInjective(p1: string, c1: string, p2: string, c2: string)
    requires |p1| == |p2|
    requires CacheFileName(CacheKey(p1, c1)) == CacheFileName(CacheKey(p2, c2))
    ensures p1 == p2 && c1 == c2
  {
    var n1 := CacheFileName(CacheKey(p1, c1));
    var n2 := CacheFileName(CacheKey(p2, c2));
    assert p1 == n1[..|p1|] && p2 == n2[..|p2|];
    assert c1 == n1[|p1| + 1..|n1| - 5] && c2 == n2[|p2| + 1..|n2| - 5];
  }

  // ---------------------------------------------------------------------
  // Removing old cache files of one path

  predicate ShouldRemove(e: DirEntry, pathHash: string, currentFile: string) {
    e.isFile && e.name.Some? && IsOldCacheFile(e.name.value, pathHash) && e.name.value != currentFile
  }

  /** Names whose deletion `remove_old_cache_files` attempts, in listing order. */
  function StaleFiles(entries: seq<DirEntry>, pathHash: string, currentFile: string): (names: seq<string>)
    ensures |names| <= |entries|
    ensures forall k :: 0 <= k < |names| ==> IsOldCacheFile(names[k], pathHash) && names[k] != currentFile
  {
    if |entries| == 0 then []
    else
      var init := StaleFiles(entries[..|entries| - 1], pathHash, currentFile);
      var e := entries[|entries| - 1];
      if ShouldRemove(e, pathHash, currentFile) then init + [e.name.value] else init
  }

  /** How many of those deletions succeed. */
  function RemovedCount(entries: seq<DirEntry>, pathHash: string, currentFile: string): (n: nat)
    ensures n <= |StaleFiles(entries, pathHash, currentFile)|
  {
    if |entries| == 0 then 0
    else
      var init := RemovedCount(entries[..|entries| - 1], pathHash, currentFile);
      var e := entries[|entries| - 1];
      if ShouldRemove(e, pathHash, currentFile) && e.removeSucceeds then init + 1 else init
  }

  /**
   * `remove_old_cache_files`: a missing directory is a no-op, an unreadable
   * one an error; otherwise every regular file named like an old cache file
   * of this path, except the current one, is deleted, and failed deletions
   * do not make the call fail.
   */
  method RemoveOldCacheFiles(dirExists: bool, listing: Result<seq<DirEntry>, string>,
                             pathHash: string, currentFile: string)
    returns (r: Result<(), string>, attempted: seq<string>, removedCount: nat)
    ensures !dirExists ==> r == Ok(()) && attempted == [] && removedCount == 0
    ensures dirExists && listing.Err? ==> r == Err(listing.error) && attempted == [] && removedCount == 0
    ensures dirExists && listing.Ok? ==>
      r == Ok(()) &&
      attempted == StaleFiles(listing.value, pathHash, currentFile) &&
      removedCount == RemovedCount(listing.value, pathHash, currentFile)
  {
    attempted := [];
    removedCount := 0;
    if !dirExists {
      return Ok(()), attempted, removedCount;
    }
    if listing.Err? {
      return Err(listing.error), attempted, removedCount;
    }
    var entries := listing.value;
    for i := 0 to |entries|
      invariant attempted == StaleFiles(entries[..i], pathHash, currentFile)
      invariant removedCount == RemovedCount(entries[..i], pathHash, currentFile)
    {
      assert entries[..i + 1][..i] == entries[..i];
      var e := entries[i];
      if e.isFile && e.name.Some? && IsOldCacheFile(e.name.value, pathHash) && e.name.value != currentFile {
        attempted := attempted + [e.name.value];
        if e.removeSucceeds {
          removedCount := removedCount + 1;
        }
      }
    }
    assert entries[..|entries|] == entries;
    return Ok(()), attempted, removedCount;
  }

  /** Every regular, validly named stale entry other than the current file is attempted. */
  lemma {:induction false} StaleFilesComplete(entries: seq<DirEntry>, pathHash: string, currentFile: string, i: nat)
    requires i < |entries| && ShouldRemove(entries[i], pathHash, currentFile)
    ensures entries[i].name.value in StaleFiles(entries, pathHash, currentFile)
  {
    var last := |entries| - 1;
    if i < last {
      assert entries[..last][i] == entries[i];
      StaleFilesComplete(entries[..last], pathHash, currentFile, i);
    }
  }

  /** Only names of regular files in the listing are attempted. */
  lemma {:induction false} StaleFilesFromFiles(entries: seq<DirEntry>, pathHash: string, currentFile: string, k: nat)
    requires k < |StaleFiles(entries, pathHash, currentFile)|
    ensures exists i :: 0 <= i < |entries| && entries[i].isFile && entries[i].name == Some(StaleFiles(entries, pathHash, currentFile)[k])
  {
    var last := |entries| - 1;
    var init := StaleFiles(entries[..last], pathHash, currentFile);
    if k < |init| {
      StaleFilesFromFiles(entries[..last], pathHash, currentFile, k);
      var i :| 0 <= i < last && entries[..last][i].isFile && entries[..last][i].name == Some(init[k]);
      assert entries[i] == entries[..last][i];
    } else {
      assert entries[last].isFile && entries[last].name == Some(StaleFiles(entries, pathHash, currentFile)[k]);
    }
  }

  // ---------------------------------------------------------------------
  // Clearing the whole cache

  function FileCount(entries: seq<DirEntry>): nat {
    if |entries| == 0 then 0
    else FileCount(entries[..|entries| - 1]) + (if entries[|entries| - 1].isFile then 1 else 0)
  }

  function FailedCount(entries: seq<DirEntry>): (n: nat)
    ensures n <= FileCount(entries)
  {
    if |entries| == 0 then 0
    else
      var e := entries[|entries| - 1];
      FailedCount(entries[..|entries| - 1]) + (if e.isFile && !e.removeSucceeds then 1 else 0)
  }

  /**
   * `clear_cache_safe`: every regular file is deleted; the call fails iff at
   * least one deletion failed, and successes plus failures cover every
   * regular file visited.
   */
  method ClearCacheSafe(dirExists: bool, listing: Result<seq<DirEntry>, string>)
    returns (r: Result<(), ClearError>, deletedCount: nat, errorCount: nat)
    ensures !dirExists ==> r == Ok(()) && deletedCount == 0 && errorCount == 0
    ensures dirExists && listing.Err? ==> r == Err(ListingFailed(listing.error)) && deletedCount == 0 && errorCount == 0
    ensures dirExists && listing.Ok? ==>
      deletedCount + errorCount == FileCount(listing.value) &&
      errorCount == FailedCount(listing.value) &&
      (r.Err? <==> errorCount > 0) &&
      (r.Err? ==> r.error == DeletionsFailed(errorCount))
  {
    deletedCount := 0;
    errorCount := 0;
    if !dirExists {
      return Ok(()), deletedCount, errorCount;
    }
    if listing.Err? {
      return Err(ListingFailed(listing.error)), deletedCount, errorCount;
    }
    var entries := listing.value;
    for i := 0 to |entries|
      invariant errorCount == FailedCount(entries[..i])
      invariant deletedCount + errorCount == FileCount(entries[..i])
    {
      assert entries[..i + 1][..i] == entries[..i];
      if entries[i].isFile {
        if entries[i].removeSucceeds {
          deletedCount := deletedCount + 1;
        } else {
          errorCount := errorCount + 1;
        }
      }
    }
    assert entries[..|entries|] == entries;
    if errorCount > 0 {
      r := Err(DeletionsFailed(errorCount));
    } else {
      r := Ok(());
    }
  }

  /** A listing whose deletions all succeed clears without error. */
  lemma {:induction false} AllDeletionsSucceed(entries: seq<DirEntry>)
    requires forall i :: 0 <= i < |entries| ==> entries[i].removeSucceeds
    ensures FailedCount(entries) == 0
  {
    if |entries| > 0 {
      AllDeletionsSucceed(entries[..|entries| - 1]);
    }
  }

  // ---------------------------------------------------------------------
  // Batch results and cache hits

  function ToBatchResult<S>(path: string, outcome: Result<ThumbnailInfo<S>, ThumbnailError>): BatchThumbnailResult<S> {
    match outcome
    case Ok(t) => BatchThumbnailResult(path, Some(t), None)
    case Err(e) => BatchThumbnailResult(path, None, Some(e))
  }

  /**
   * `process_thumbnails_batch`: one result per path, in order (the parallel
   * map preserves order); `load` is `load_or_generate_thumbnail`.
   */
  function ProcessThumbnailsBatch<S>(paths: seq<string>, load: string -> Result<ThumbnailInfo<S>, ThumbnailError>)
    : (results: seq<BatchThumbnailResult<S>>)
    ensures |results| == |paths|
    ensures forall i :: 0 <= i < |paths| ==>
      results[i].path == paths[i] &&
      (results[i].thumbnail.Some? != results[i].error.Some?) &&
      (results[i].thumbnail.Some? <==> load(paths[i]).Ok?)
    ensures forall i :: 0 <= i < |paths| ==>
      (load(paths[i]).Ok? ==> results[i].thumbnail == Some(load(paths[i]).value)) &&
      (load(paths[i]).Err? ==> results[i].error == Some(load(paths[i]).error))
  {
    seq(|paths|, i requires 0 <= i < |paths| => ToBatchResult(paths[i], load(paths[i])))
  }

  /**
   * The result of a cache hit: the cached bytes with the configured size as
   * both dimensions, and whatever metadata could be read, an unreadable
   * chunk counting as none.
   */
  function CacheHit<S>(config: ThumbnailConfig, data: WebpMetadata.Bytes,
                       extracted: Result<Option<WebpMetadata.ThumbnailMetadata<S>>, string>): (t: ThumbnailInfo<S>)
    ensures t.data == data && t.width == config.size && t.height == config.size && t.mimeType == WebpMime
    ensures extracted.Err? ==> t.metadata.None?
    ensures extracted.Ok? ==> t.metadata == extracted.value
  {
    ThumbnailInfo(data, config.size, config.size, WebpMime, match extracted case Ok(m) => m case Err(_) => None)
  }

  /**
   * `load_or_generate_thumbnail`: a valid cache entry is read back (a read
   * failure is an error); otherwise the generated thumbnail is returned. The
   * clean-up of old files before generation and the cache write after it are
   * best-effort and do not change the result.
   */
  function LoadOrGenerate<S>(config: ThumbnailConfig, cacheValid: bool, cacheRead: Result<WebpMetadata.Bytes, string>,
                             decode: WebpMetadata.Bytes -> Result<WebpMetadata.ThumbnailMetadata<S>, string>,
                             generated: Result<ThumbnailInfo<S>, ThumbnailError>): (r: Result<ThumbnailInfo<S>, ThumbnailError>)
    ensures cacheValid && cacheRead.Err? ==> r == Err(Io(cacheRead.error))
    ensures cacheValid && cacheRead.Ok? ==>
      r == Ok(CacheHit(config, cacheRead.value, WebpMetadata.Extract(cacheRead.value, decode)))
    ensures !cacheValid ==> r == generated
  {
    if cacheValid then
      match cacheRead
      case Err(e) => Err(Io(e))
      case Ok(data) => Ok(CacheHit(config, data, WebpMetadata.Extract(data, decode)))
    else generated
  }

  // ---------------------------------------------------------------------
  // Generating a thumbnail

  /** SD parameters are looked for only in files whose name ends in ".png", in any letter case. */
  predicate IsPngPath(path: string) {
    EndsWith(ToLower(path), ".png")
  }

  /**
   * `extract_metadata_from_bytes` under the `include_metadata` switch:
   * `exifInfo` is what the EXIF reader found and `pngParameters` what the
   * PNG reader would return.
   */
  function MetadataFor<S>(config: ThumbnailConfig, path: string, exifInfo: Option<ExifHandler.ExifImageInfo>,
                          pngParameters: Option<S>): (m: Option<WebpMetadata.ThumbnailMetadata<S>>)
    ensures !config.includeMetadata ==> m.None?
    ensures config.includeMetadata ==> m.Some? && m.value.cacheVersion == CacheVersion && m.value.exifInfo == exifInfo
    ensures m.Some? && m.value.sdParameters.Some? ==> IsPngPath(path) && m.value.sdParameters == pngParameters
    ensures config.includeMetadata && IsPngPath(path) ==> m.value.sdParameters == pngParameters
    ensures config.includeMetadata && !IsPngPath(path) ==> m.value.sdParameters.None?
  {
    if !config.includeMetadata then None
    else Some(WebpMetadata.ThumbnailMetadata(exifInfo, if IsPngPath(path) then pngParameters else None, CacheVersion))
  }

  /**
   * `generate_thumbnail`: read and decode the source image, take the
   * metadata decision, and encode; with metadata the encoder output is
   * rewritten with the metadata chunk, whose failure fails the call.
   * `scaled` is the decoded image's thumbnail size and `encoded` the plain
   * WebP encoding of its pixels.
   */
  function GenerateThumbnail<S>(config: ThumbnailConfig, path: string, fileRead: Result<WebpMetadata.Bytes, string>,
                                scaled: Result<(nat, nat), string>, encoded: WebpMetadata.Bytes,
                                exifInfo: Option<ExifHandler.ExifImageInfo>, pngParameters: Option<S>,
                                serialize: WebpMetadata.ThumbnailMetadata<S> -> Result<WebpMetadata.Bytes, string>)
    : (r: Result<ThumbnailInfo<S>, ThumbnailError>)
    ensures fileRead.Err? ==> r == Err(Io(fileRead.error))
    ensures fileRead.Ok? && scaled.Err? ==> r == Err(ImageLoad(scaled.error))
    ensures r.Ok? ==>
      r.value.mimeType == WebpMime &&
      r.value.width == scaled.value.0 && r.value.height == scaled.value.1 &&
      r.value.metadata == MetadataFor(config, path, exifInfo, pngParameters)
    ensures r.Ok? && r.value.metadata.None? ==> r.value.data == encoded
    ensures r.Ok? && r.value.metadata.Some? ==>
      WebpMetadata.Inject(encoded, serialize(r.value.metadata.value)) == Ok(r.value.data)
  {
    match fileRead
    case Err(e) => Err(Io(e))
    case Ok(_) =>
      match scaled
      case Err(e) => Err(ImageLoad(e))
      case Ok((width, height)) =>
        var metadata := MetadataFor(config, path, exifInfo, pngParameters);
        match metadata
        case None => Ok(ThumbnailInfo(encoded, width, height, WebpMime, None))
        case Some(meta) =>
          match WebpMetadata.Inject(encoded, serialize(meta))
          case Err(e) => Err(Webp(e))
          case Ok(data) => Ok(ThumbnailInfo(data, width, height, WebpMime, metadata))
  }

  /**
   * A generated thumbnail with metadata carries that metadata in its bytes:
   * when the encoder output has no complete "XMP " chunk, reading the
   * thumbnail back decodes the serialised metadata.
   */
  lemma GeneratedThumbnailCarriesMetadata<S>(config: ThumbnailConfig, path: string, fileRead: Result<WebpMetadata.Bytes, string>,
                                             scaled: Result<(nat, nat), string>, encoded: WebpMetadata.Bytes,
                                             exifInfo: Option<ExifHandler.ExifImageInfo>, pngParameters: Option<S>,
                                             serialize: WebpMetadata.ThumbnailMetadata<S> -> Result<WebpMetadata.Bytes, string>,
                                             decode: WebpMetadata.Bytes -> Result<WebpMetadata.ThumbnailMetadata<S>, string>)
    requires WebpMetadata.IsWebpHeader(encoded) && WebpMetadata.FindXmp(encoded, 12).None?
    requires var r := GenerateThumbnail(config, path, fileRead, scaled, encoded, exifInfo, pngParameters, serialize);
      r.Ok? && r.value.metadata.Some?
    requires var meta := MetadataFor(config, path, exifInfo, pngParameters).value;
      serialize(meta).Ok? && |serialize(meta).value| < WebpMetadata.Two32 && decode(serialize(meta).value) == Ok(meta)
    ensures var r := GenerateThumbnail(config, path, fileRead, scaled, encoded, exifInfo, pngParameters, serialize);
      WebpMetadata.Extract(r.value.data, decode) == Ok(r.value.metadata)
  {
    var meta := MetadataFor(config, path, exifInfo, pngParameters).value;
    WebpMetadata.InjectThenExtract(encoded, serialize(meta).value, decode);
  }
}
