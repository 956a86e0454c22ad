# tauri-sd-image-viewer core, modelled in Dafny

This project models the logic core of an image viewer for Stable-Diffusion
output. The viewer has a TypeScript front end and a Rust (Tauri) back end.
One module models each source file:

| module | file | what it holds |
|---|---|---|
| `SdParser` | src/scripts/exif-parser.ts | The decoder of the "parameters" text. It produces positive and negative prompt tags, each with an optional `(name:weight)` emphasis, and fourteen settings fields read from the `Key: value, Key: value` tail. |
| `WebpMetadata` | src-tauri/src/webp_metadata.rs | The RIFF chunk rewriter that appends an `XMP ` chunk to a WebP thumbnail, and the reader that finds it again. |
| `ExifHandler` | src-tauri/src/exif_handler.rs | File-type detection from the extension, the last-wins fold over EXIF tags, and the rating write with its percent table. |
| `ThumbnailHandler` | src-tauri/src/thumbnail_handler.rs | Cache keys and file names, stale-file removal, cache clearing, batch result shaping, and the metadata decisions made while generating a thumbnail. |
| `PngHandler` | src-tauri/src/png_handler.rs | Lookup of the first "parameters" text entry, and the filter that drops those entries when the parameters are cleared. |
| `ImageNavigator` | src/scripts/image-navigator.ts | The directory filter and sort, the circular previous/next index, and the choice of the target image. |
| `GridViewer` | src/scripts/grid-viewer.ts | Chunking of the path list into batches of 16, and the grid's extension filter. |
| `MimeType` | src/scripts/mine-type.ts | The extension-to-MIME table. |
| `AutoReloadState` | src/scripts/auto-reload-state-manager.ts | The on/off auto-reload flag. Each change dispatches one notification. |
| `AutoReload` | src/scripts/auto-reloader.ts | The same flag together with the interval-timer handle, and the invariant that ties the two together. |

`Common` holds the definitions these modules share:

- `Option` and `Result`;
- the JavaScript semantics of `split`, `join`, `trim`, `lastIndexOf`, `startsWith` and `endsWith`, including the empty pieces that `split` keeps;
- ASCII lower-casing.

The loops in the source that compute a result stay loops in the model. The
re-adding loop of `clear_png_sd_parameters` only feeds an encoder, so it
becomes the entry list that PngHandler.AsEntries builds, and the encoder's
failure becomes a parameter. Each loop method is proved
equal to a specification function, and the properties are proved as lemmas
about that function. Two examples are the chunk-copying `while` loop of
`inject_metadata_to_webp` and the token-stack loop of `parseKeyValuePairs`.
The two auto-reload singletons are classes. Their methods state the new
fields and the notifications dispatched, as functions of the old state.

Several things are parameters rather than parts of the model. I/O results
are passed in as values:

- directory listings;
- file contents, or the error reading them;
- decoder output;
- the outcome of each deletion;
- the timer id that `setInterval` returns.

Foreign code is an abstract function, over an arbitrary result type where
the type is not shown:

- `SdParameters::parse`;
- the serde JSON serializer and deserializer;
- the WebP encoder.

## Model

| member | source | states |
|---|---|---|
| Common.Split | src/scripts/exif-parser.ts:43 | `split` with a non-empty separator always yields at least one piece |
| Common.SplitPiecesFree | src/scripts/exif-parser.ts:43 | no piece of a split contains the separator |
| Common.JoinSplit | src/scripts/exif-parser.ts:105 | joining the pieces with the separator gives the text back |
| Common.SplitTwoIffOnce | src/scripts/exif-parser.ts:123-131 | for the two markers, `split` gives exactly two pieces iff the marker occurs exactly once |
| Common.SplitCount | src/scripts/exif-parser.ts:43 | splitting on a character gives one more piece than there are occurrences of it |
| Common.SplitCharConcat | src/scripts/exif-parser.ts:43 | splitting `a + c + b` on `c` gives the pieces of `a` followed by those of `b` |
| Common.Find | src/scripts/exif-parser.ts:43 | the position found is an occurrence of the separator, and no earlier position holds one; None iff the separator does not occur |
| Common.Join | src/scripts/exif-parser.ts:106 | `join`: the pieces interleaved with the separator; JoinSplit states that it undoes `split` |
| Common.SplitAtLast | src-tauri/src/exif_handler.rs:38-41 | the last piece of a split on `c` is the text after the last `c`, or the whole text when there is no `c` |
| Common.LastIndexOf | src-tauri/src/exif_handler.rs:39 | `rfind`: the index holds `c` and no later index does; None iff `c` is absent |
| Common.Trim | src/scripts/exif-parser.ts:43 | `trim`: the text with JavaScript whitespace removed at both ends; TrimSpec states what it keeps |
| Common.TrimSpec | src/scripts/exif-parser.ts:43 | `trim` removes exactly the leading and trailing JavaScript whitespace and keeps the middle untouched |
| Common.ToLower | src-tauri/src/exif_handler.rs:42 | lower-casing keeps the length and maps each character through the ASCII case table |
| Common.ToLowerIdempotent | src/scripts/mine-type.ts:17 | lower-casing twice equals lower-casing once |
| Common.StartsWith | src-tauri/src/thumbnail_handler.rs:115-117 | `starts_with`: the text begins with the prefix |
| Common.EndsWith | src/scripts/image-navigator.ts:13-19 | `endsWith`: the text ends with the suffix |
| SdParser.ParseTag | src/scripts/exif-parser.ts:45-68 | a piece with no weighted substring becomes a tag named by the piece with no weight; otherwise the leftmost match decides, giving its trimmed name and the exact value of its numeral |
| SdParser.MatchAt | src/scripts/exif-parser.ts:46 | a match reported at `i` starts at `i`, ends inside the text, and has a colon-free non-empty name and a well-formed numeral |
| SdParser.MatchAtSound | src/scripts/exif-parser.ts:46 | a match reported at `i` covers exactly `(name:numeral)` |
| SdParser.MatchAtComplete | src/scripts/exif-parser.ts:46 | every occurrence of the pattern at `i` is found at `i` with exactly those groups, so the regex is modelled soundly and completely |
| SdParser.FirstMatch | src/scripts/exif-parser.ts:46 | the match found is the leftmost; no position before it matches |
| SdParser.FirstMatchIsLeftmost | src/scripts/exif-parser.ts:46-48 | whenever the pattern occurs in the piece, a match is found, and it starts no later than that occurrence |
| SdParser.NumeralAt | src/scripts/exif-parser.ts:46 | a recognised numeral group is `digits[.digits]` and ends inside the text |
| SdParser.NumeralAtSound | src/scripts/exif-parser.ts:46 | a recognised numeral is followed by `)` and covers exactly its text |
| SdParser.NumeralAtComplete | src/scripts/exif-parser.ts:46 | every well-formed numeral followed by `)` is recognised |
| SdParser.ParseFloat | src/scripts/exif-parser.ts:50 | `parseFloat` on the trimmed numeral text; ParseFloatNumeral, ParseFloatInteger and ParseFloatFraction state its value |
| SdParser.ParseFloatNumeral | src/scripts/exif-parser.ts:50-57 | `parseFloat` of a matched numeral is its exact decimal value, never NaN, so the NaN fallback is unreachable |
| SdParser.ParseFloatInteger | src/scripts/exif-parser.ts:50 | `parseFloat` of a digit string is its integer value |
| SdParser.ParseFloatFraction | src/scripts/exif-parser.ts:50 | `parseFloat` of `ip.fp` is ip + fp / 10^k, where k is the number of fraction digits |
| SdParser.TrimNoWhitespace | src/scripts/exif-parser.ts:50 | trimming text that holds no whitespace changes nothing |
| SdParser.TagsOf | src/scripts/exif-parser.ts:45 | one tag per piece |
| SdParser.TagsOfConcat | src/scripts/exif-parser.ts:45-69 | the tags of concatenated piece lists are the concatenated tags, so order is kept |
| SdParser.ParseSdTags | src/scripts/exif-parser.ts:42-72 | exactly one tag per comma-separated piece: the number of commas plus one |
| SdParser.TagsConcat | src/scripts/exif-parser.ts:42-72 | the tags of `a,b` are the tags of `a` followed by those of `b`, in source order |
| SdParser.EmptyTextTags | src/scripts/exif-parser.ts:43-45 | empty text yields one tag with an empty name and no weight |
| SdParser.EmptyPieceKept | src/scripts/exif-parser.ts:43-68 | an empty piece between two commas yields an empty-named tag in its place |
| SdParser.MiddleTokens | src/scripts/exif-parser.ts:97-109 | a middle chunk pushes no tokens or exactly two |
| SdParser.MiddleChunkTokens | src/scripts/exif-parser.ts:97-109 | a middle chunk without a comma pushes nothing; otherwise it pushes the trimmed text before its last comma as the value, then the trimmed text after that comma as the key |
| SdParser.Pairs | src/scripts/exif-parser.ts:112-115 | slicing the stack two at a time gives ceil(n / 2) entries for a stack of n tokens |
| SdParser.KeyValuePairs | src/scripts/exif-parser.ts:74-118 | `parseKeyValuePairs`: the pairs of the token stack built from the colon-split text; the method ParseKeyValuePairs computes it with the two loops |
| SdParser.ParseKeyValuePairs | src/scripts/exif-parser.ts:74-118 | the two loops compute the pairs of the token stack of the colon-split text |
| SdParser.BuildStripedStack | src/scripts/exif-parser.ts:79-110 | the first loop pushes, chunk by chunk, the tokens each chunk contributes: the first chunk trimmed (nothing if it holds a comma), middle chunks as value and key, and the last chunk trimmed |
| SdParser.SliceIntoPairs | src/scripts/exif-parser.ts:112-115 | the second loop produces the `slice(i, i + 2)` pairs |
| SdParser.StackOddBeforeLast | src/scripts/exif-parser.ts:79-110 | when the first chunk pushes only its trimmed self, the stack before the last chunk has odd length and starts with the trimmed first chunk |
| SdParser.MiddleStep | src/scripts/exif-parser.ts:97-109 | each middle chunk grows the stack by 0 or 2 and keeps its first token |
| SdParser.StepsChunks | src/scripts/exif-parser.ts:136 | re-prepending `"Steps:"` makes `"Steps"` the first chunk |
| SdParser.EvenStackPairs | src/scripts/exif-parser.ts:112-115 | an even stack gives complete pairs of consecutive tokens |
| SdParser.StackShape | src/scripts/exif-parser.ts:79-115 | with a comma-free first chunk, the final stack has even length and starts with the trimmed first chunk |
| SdParser.StepsPairs | src/scripts/exif-parser.ts:80-115 | a stack that starts with `Steps` gives complete pairs, and the first pair's key is `Steps` |
| SdParser.StepsTailPairs | src/scripts/exif-parser.ts:80-136 | called from `parseSdParameters`, the first-chunk comma branch never fires, every entry is a full pair, and the first key is `Steps` |
| SdParser.LastEntryIndex | src/scripts/exif-parser.ts:137 | reference definition: the last entry with the key, and no later one |
| SdParser.BuildMap | src/scripts/exif-parser.ts:137 | `new Map(entries)`: entries inserted in order, a later key overwriting an earlier one; BuildMapLastWins states the resulting map |
| SdParser.BuildMapLastWins | src/scripts/exif-parser.ts:137 | `new Map(entries)` maps each key to the value of its last entry, and leaves keys that never occur alone |
| SdParser.FieldsFrom | src/scripts/exif-parser.ts:139-171 | the record holds both tag lists, and each of the fourteen fields is the map's value for its exact key |
| SdParser.SplitTwoPieces | src/scripts/exif-parser.ts:123-128 | two pieces means the text is cut at the first occurrence of the separator |
| SdParser.ParseSdParameters | src/scripts/exif-parser.ts:120-172 | `parseSdParameters`; NegativePromptError, StepsError, ParsedRecord and ParsedFields state its errors and its record |
| SdParser.NegativePromptError | src/scripts/exif-parser.ts:123-126 | the "Negative prompt" error is raised iff `"\nNegative prompt:"` does not occur exactly once |
| SdParser.StepsError | src/scripts/exif-parser.ts:128-131 | once that marker is unique, the "Steps" error is raised iff `"\nSteps:"` does not occur exactly once after it |
| SdParser.ParsedRecord | src/scripts/exif-parser.ts:120-172 | with both markers unique, the result is the record built from the tags of the prompt before each marker and the map of the re-prefixed tail |
| SdParser.ParsedFields | src/scripts/exif-parser.ts:137-152 | each field equals the value of the last pair with that exact key, or is undefined when there is none |
| SdParser.StepsFieldSet | src/scripts/exif-parser.ts:136-139 | a successful parse always has `steps` defined |
| WebpMetadata.LittleEndian | src-tauri/src/webp_metadata.rs:112 | an encoding has exactly the requested number of bytes |
| WebpMetadata.FromLittleEndian | src-tauri/src/webp_metadata.rs:69-74 | decoding `k` bytes gives a value below 256^k |
| WebpMetadata.FromLittleEndianOfLittleEndian | src-tauri/src/webp_metadata.rs:69-112 | decoding inverts encoding for every value that fits |
| WebpMetadata.LittleEndianOfFromLittleEndian | src-tauri/src/webp_metadata.rs:69-112 | encoding inverts decoding for every byte string |
| WebpMetadata.LE32 | src-tauri/src/webp_metadata.rs:112 | `to_le_bytes` of a u32 is four bytes |
| WebpMetadata.ReadLE32 | src-tauri/src/webp_metadata.rs:69-74 | `u32::from_le_bytes` gives a value below 2^32 |
| WebpMetadata.ReadLE32OfLE32 | src-tauri/src/webp_metadata.rs:69-112 | reading back a written size gives the size |
| WebpMetadata.LE32OfReadLE32 | src-tauri/src/webp_metadata.rs:69-112 | rewriting a read size reproduces the four bytes |
| WebpMetadata.ChunkEnd | src-tauri/src/webp_metadata.rs:76 | a chunk spans at least its 8-byte header and an even number of bytes |
| WebpMetadata.CopyEnd | src-tauri/src/webp_metadata.rs:62-83 | the walk over complete chunks stops inside the data |
| WebpMetadata.CopyEndEven | src-tauri/src/webp_metadata.rs:76-82 | the complete chunks copied from offset 12 span an even number of bytes |
| WebpMetadata.Pad | src-tauri/src/webp_metadata.rs:117-120 | one pad byte exactly when the payload length is odd, so payload plus padding is even |
| WebpMetadata.MetadataChunk | src-tauri/src/webp_metadata.rs:111-120 | the appended chunk is 8 + payload + padding bytes, an even number |
| WebpMetadata.MetadataChunkLayout | src-tauri/src/webp_metadata.rs:111-120 | the chunk is `"XMP "`, then LE32 of the payload length, then the payload, then a zero byte iff the length is odd |
| WebpMetadata.Inject | src-tauri/src/webp_metadata.rs:44-93 | the output `inject_metadata_to_webp` specifies: an error for a bad header or a serialization failure, otherwise the patched copy with the chunk appended; InjectLayout and InjectThenExtract state its shape and its round trip |
| WebpMetadata.AddMetadataChunk | src-tauri/src/webp_metadata.rs:96-123 | a serialization error is returned; otherwise the buffer is extended by exactly the metadata chunk |
| WebpMetadata.InjectMetadataToWebp | src-tauri/src/webp_metadata.rs:44-93 | the copying loop and the size patch compute the specified output: the header, the complete chunks from offset 12, the metadata chunk, and the patched RIFF size |
| WebpMetadata.EncodeWithMetadata | src-tauri/src/webp_metadata.rs:23-41 | without metadata the encoder output is returned as is; with metadata it is injected |
| WebpMetadata.FindXmp | src-tauri/src/webp_metadata.rs:135-170 | the chunk walk of `extract_metadata_from_webp`: the payload of the first `XMP ` chunk that fits, stopping at a chunk that overruns the data; FindAppendedChunk and PrefixWalk state what it finds |
| WebpMetadata.Extract | src-tauri/src/webp_metadata.rs:127-175 | the result `extract_metadata_from_webp` specifies: `Ok(None)` for a bad header or no chunk, else the decoded payload; InvalidHeader and InjectThenExtract state its cases |
| WebpMetadata.ExtractMetadataFromWebp | src-tauri/src/webp_metadata.rs:127-178 | the walking loop returns the decoded payload of the first `XMP ` chunk whose payload fits, `Ok(None)` when there is none, and the decoder's error otherwise |
| WebpMetadata.InvalidHeader | src-tauri/src/webp_metadata.rs:51-131 | input shorter than 12 bytes or without `RIFF`/`WEBP` is an error for inject and `Ok(None)` for extract |
| WebpMetadata.InjectLayout | src-tauri/src/webp_metadata.rs:58-90 | the output is `RIFF`, the size field LE32((length − 8) mod 2^32), `WEBP`, the complete input chunks verbatim, then the metadata chunk; the length is even |
| WebpMetadata.BodyLayout | src-tauri/src/webp_metadata.rs:58-86 | where each part of the unpatched output sits |
| WebpMetadata.PatchRiffSize | src-tauri/src/webp_metadata.rs:88-90 | the RIFF size patch: bytes 4..8 become LE32 of the length minus 8, modulo 2^32; PatchLayout states what it keeps |
| WebpMetadata.PatchLayout | src-tauri/src/webp_metadata.rs:89-90 | the size patch rewrites bytes 4..8 only |
| WebpMetadata.InjectSizeField | src-tauri/src/webp_metadata.rs:89-90 | when it fits in a u32, the size field reads back as output length − 8 |
| WebpMetadata.WalkAgrees | src-tauri/src/webp_metadata.rs:133-175 | the reader walks the copied chunks of the output exactly as it walks the input |
| WebpMetadata.FindAppendedChunk | src-tauri/src/webp_metadata.rs:148-163 | the reader finds the payload of the appended chunk |
| WebpMetadata.InjectThenExtract | src-tauri/src/webp_metadata.rs:86-163 | round trip: for valid input without an `XMP ` chunk, extracting from the injected output yields exactly the payload, decoded |
| WebpMetadata.ReinjectKeepsOldPayload | src-tauri/src/webp_metadata.rs:58-163 | injecting into a file that already carries an `XMP ` chunk leaves the reader returning the old payload |
| WebpMetadata.PrefixWalk | src-tauri/src/webp_metadata.rs:133-175 | appending bytes after the input does not change a chunk the reader already finds |
| ExifHandler.DetermineFileExtension | src-tauri/src/exif_handler.rs:36-55 | jpg/jpeg and every unknown or empty extension give JPEG; png gives PNG without zTXt; tif/tiff give TIFF; webp gives WEBP; heif/heic give HEIF; jxl gives JXL (each an iff) |
| ExifHandler.ExtensionOf | src-tauri/src/exif_handler.rs:38-42 | the lower-cased extension of the path; ExtensionOfDotted and ExtensionOfDotless state it for both kinds of path |
| ExifHandler.ExtensionOfDotted | src-tauri/src/exif_handler.rs:38-42 | the extension is the lower-cased text after the last `.` |
| ExifHandler.ExtensionOfDotless | src-tauri/src/exif_handler.rs:38-53 | a path without `.` has the empty extension and is treated as JPEG |
| ExifHandler.ExtensionOfIgnoresCase | src-tauri/src/exif_handler.rs:38-42 | the extension does not depend on letter case |
| ExifHandler.DetermineFileExtensionIgnoresCase | src-tauri/src/exif_handler.rs:36-55 | the file type does not depend on letter case |
| ExifHandler.InfoOf | src-tauri/src/exif_handler.rs:58-86 | the fold of the tag loop over the info record; ExtractExifInfoFromMetadata computes it with the loop, InfoOfSnoc and DateFieldSnoc state each step |
| ExifHandler.LastFeeding | src-tauri/src/exif_handler.rs:66-84 | reference definition: the last tag that feeds a field, and no later one |
| ExifHandler.InfoOfSnoc | src-tauri/src/exif_handler.rs:66-84 | one more tag updates the info exactly as the loop body does |
| ExifHandler.ExtractExifInfoFromMetadata | src-tauri/src/exif_handler.rs:58-87 | the loop always returns Some of the folded info |
| ExifHandler.InfoOfUnrecognised | src-tauri/src/exif_handler.rs:59-86 | when no tag feeds any field (other tags, other `UnknownInt16U` ids such as 18249, rating tags with an empty list), every field is None |
| ExifHandler.RatingIsLastNonEmpty | src-tauri/src/exif_handler.rs:77-81 | the rating is the first value of the last tag 18246 with a non-empty list |
| ExifHandler.DateFieldSnoc | src-tauri/src/exif_handler.rs:68-76 | each date field holds the value of the last tag of its kind |
| ExifHandler.RatingPercent | src-tauri/src/exif_handler.rs:114-122 | the percent is at most 99, and it is 0 iff the rating is 0 |
| ExifHandler.RatingPercentStrictlyIncreasing | src-tauri/src/exif_handler.rs:114-122 | the table 0, 1, 25, 50, 75, 99 is strictly increasing |
| ExifHandler.SetTag | src-tauri/src/exif_handler.rs:108-128 | after `set_tag` the tag is present once, as the last tag |
| ExifHandler.WithoutId | src-tauri/src/exif_handler.rs:108-112 | removing an id leaves no tag with that id |
| ExifHandler.WithoutIdKeeps | src-tauri/src/exif_handler.rs:108-112 | replacing the rating tags does not change the date fields |
| ExifHandler.WriteExifImageRating | src-tauri/src/exif_handler.rs:91-135 | a rating above 5 is an error before anything is read; a read failure is an error; a failed write-back is an error |
| ExifHandler.WriteThenRead | src-tauri/src/exif_handler.rs:108-128 | after a write, the rating reads back as written, tag 18249 holds the percent, and the three dates are unchanged |
| ThumbnailHandler.DefaultConfig | src-tauri/src/thumbnail_handler.rs:18-26 | the default config is size 300, quality 50, metadata included |
| ThumbnailHandler.CacheKey | src-tauri/src/thumbnail_handler.rs:100-104 | `generate_cache_key`: `path_hash _ content_hash` |
| ThumbnailHandler.CacheFileName | src-tauri/src/thumbnail_handler.rs:100-104 | the cache file is named `key.webp`; CacheFileNameInjective states that the name determines both hashes |
| ThumbnailHandler.IsOldCacheFile | src-tauri/src/thumbnail_handler.rs:115-117 | `is_old_cache_file`: the name starts with the path hash and ends with `.webp`; CurrentFileIsCandidate and StaleFiles use it |
| ThumbnailHandler.CurrentFileIsCandidate | src-tauri/src/thumbnail_handler.rs:100-146 | the current cache file itself passes the stale-name test, which is why it is excluded explicitly |
| ThumbnailHandler.CacheFileNameInjective | src-tauri/src/thumbnail_handler.rs:100-223 | with fixed-length path hashes, the file name `path_content.webp` determines both hashes |
| ThumbnailHandler.StaleFiles | src-tauri/src/thumbnail_handler.rs:130-150 | every file chosen for deletion starts with the path hash, ends with `.webp`, and is not the current cache file |
| ThumbnailHandler.RemovedCount | src-tauri/src/thumbnail_handler.rs:151-154 | no more files are counted as removed than were attempted |
| ThumbnailHandler.RemoveOldCacheFiles | src-tauri/src/thumbnail_handler.rs:120-170 | a missing directory is a no-op `Ok`; a listing error is returned; otherwise exactly the stale files are attempted, the successes are counted, and the result is `Ok` even if some deletions fail |
| ThumbnailHandler.StaleFilesComplete | src-tauri/src/thumbnail_handler.rs:130-151 | every regular stale file other than the current one is attempted |
| ThumbnailHandler.StaleFilesFromFiles | src-tauri/src/thumbnail_handler.rs:132-138 | only regular files with readable names are attempted |
| ThumbnailHandler.FailedCount | src-tauri/src/thumbnail_handler.rs:365-371 | failures never outnumber the regular files |
| ThumbnailHandler.ClearCacheSafe | src-tauri/src/thumbnail_handler.rs:341-388 | deleted + errors equals the number of regular files; the result is an error iff some deletion failed, and it carries the error count |
| ThumbnailHandler.AllDeletionsSucceed | src-tauri/src/thumbnail_handler.rs:380-387 | when every deletion succeeds there are no errors |
| ThumbnailHandler.ToBatchResult | src-tauri/src/thumbnail_handler.rs:196-212 | one batch entry: the path with the thumbnail on success, or the error on failure; ProcessThumbnailsBatch states the whole batch |
| ThumbnailHandler.ProcessThumbnailsBatch | src-tauri/src/thumbnail_handler.rs:196-212 | one result per path, in order, carrying that path and exactly one of thumbnail and error; the thumbnail is present iff that path's load succeeded, and the entry carries exactly the loaded thumbnail or the load error |
| ThumbnailHandler.CacheHit | src-tauri/src/thumbnail_handler.rs:227-241 | a cache hit returns the cached bytes with width = height = config size, the MIME type `image/webp`, and the extracted metadata, or None when extraction fails |
| ThumbnailHandler.LoadOrGenerate | src-tauri/src/thumbnail_handler.rs:217-258 | a valid cache is read (a read failure is an error); otherwise the generated thumbnail is returned |
| ThumbnailHandler.IsPngPath | src-tauri/src/thumbnail_handler.rs:319 | the lower-cased path ends with `.png` |
| ThumbnailHandler.MetadataFor | src-tauri/src/thumbnail_handler.rs:278-338 | no metadata unless it is included; when included, cache version 1 and the EXIF info; for a `.png` path (compared case-insensitively) the SD parameters are those the PNG reader gives, and for any other path there are none |
| ThumbnailHandler.GenerateThumbnail | src-tauri/src/thumbnail_handler.rs:261-304 | read and decode failures are errors; a result has the scaled size, the MIME type `image/webp` and the decided metadata; its bytes are the plain encoding without metadata, or the injected encoding with it |
| ThumbnailHandler.GeneratedThumbnailCarriesMetadata | src-tauri/src/thumbnail_handler.rs:231-289 | reading a generated thumbnail back yields the metadata it was generated with |
| PngHandler.BitDepthBits | src-tauri/src/png_handler.rs:38 | `bit_depth as u8` is 1, 2, 4, 8 or 16 |
| PngHandler.ColorTypeName | src-tauri/src/png_handler.rs:39 | `format!("{:?}", color_type)`: the variant name of each colour type |
| PngHandler.ParametersOf | src-tauri/src/png_handler.rs:25-33 | the parse of the first "parameters" entry, None when it fails or there is none; ReadPngInfoFromBytes and FirstParametersDecides state it |
| PngHandler.FirstParameters | src-tauri/src/png_handler.rs:25-53 | the index found is the first entry with keyword "parameters"; None when there is none |
| PngHandler.ReadPngInfoFromBytes | src-tauri/src/png_handler.rs:15-42 | a decoder failure is an error; otherwise the header is copied, and the parameters are those of the first "parameters" entry if it parses |
| PngHandler.ReadPngSdParametersFromBytes | src-tauri/src/png_handler.rs:45-61 | a decoder failure gives None; otherwise the result is the parse of the first "parameters" entry |
| PngHandler.FirstParametersDecides | src-tauri/src/png_handler.rs:52-60 | only the first "parameters" entry counts: if it fails to parse, the result is None whatever later entries hold |
| PngHandler.NoParametersEntry | src-tauri/src/png_handler.rs:25-33 | without a "parameters" entry there are no parameters |
| PngHandler.KeptTextChunks | src-tauri/src/png_handler.rs:82-88 | no kept entry has keyword "parameters" |
| PngHandler.KeptTextChunksConcat | src-tauri/src/png_handler.rs:82-88 | the filter distributes over concatenation, so order is kept |
| PngHandler.KeptTextChunksSingle | src-tauri/src/png_handler.rs:86-87 | an entry is kept, as its (keyword, text) pair, iff its keyword is not "parameters" |
| PngHandler.KeptTextChunksAll | src-tauri/src/png_handler.rs:82-88 | a list without "parameters" entries is kept whole, in order |
| PngHandler.AsEntries | src-tauri/src/png_handler.rs:109-113 | re-adding the pairs gives the entries in the same order |
| PngHandler.ClearPngSdParameters | src-tauri/src/png_handler.rs:65-124 | a read or write failure is that error; otherwise the written text chunks are exactly the kept entries |
| PngHandler.ClearRemovesParameters | src-tauri/src/png_handler.rs:90-113 | after a clear, width, height, colour type, bit depth and pixels are those read; the written text chunks are the entries other than "parameters", in their original order; no parameters can be read back; clearing again keeps the same entries |
| ImageNavigator.IsImageEntry | src/scripts/image-navigator.ts:13-19 | the entry is a file whose lower-cased name ends with `.ext` for a supported extension; ImageNamesMembership states the filter by it |
| ImageNavigator.ImageNames | src/scripts/image-navigator.ts:13-21 | the filter never adds entries |
| ImageNavigator.StrLeTotal | src/scripts/image-navigator.ts:21 | the default string order compares any two names |
| ImageNavigator.Insert | src/scripts/image-navigator.ts:21 | insertion keeps the list sorted and adds exactly the element |
| ImageNavigator.Sort | src/scripts/image-navigator.ts:21 | `sort()` returns a sorted permutation of its input |
| ImageNavigator.LoadImageFilesInDirectory | src/scripts/image-navigator.ts:8-26 | a listing failure gives []; otherwise a sorted permutation of the image names |
| ImageNavigator.ImageNamesMembership | src/scripts/image-navigator.ts:13-21 | a name is kept iff it names a file whose lower-cased name ends with `.ext` for a supported `ext` |
| ImageNavigator.LoadedNamesAreImages | src/scripts/image-navigator.ts:8-21 | the loaded list holds exactly the names of the image files |
| ImageNavigator.CircularIndex | src/scripts/image-navigator.ts:31-41 | the new index stays in [0, n) |
| ImageNavigator.CircularWraps | src/scripts/image-navigator.ts:36-40 | next from n−1 gives 0, and previous from 0 gives n−1 |
| ImageNavigator.CircularInverse | src/scripts/image-navigator.ts:36-40 | next and previous undo each other |
| ImageNavigator.CircularSteps | src/scripts/image-navigator.ts:36-40 | away from the ends, next is +1 and previous is −1 |
| ImageNavigator.IndexOf | src/scripts/image-navigator.ts:60 | `indexOf` gives the first position of the name, and -1 (None) iff it is absent |
| ImageNavigator.FindImageInDirection | src/scripts/image-navigator.ts:46-91 | the target is always a listed image; null when the list is empty or the current name is absent |
| ImageNavigator.StepSelectsNeighbour | src/scripts/image-navigator.ts:67-76 | for a name at its first position, next selects the following name and previous the preceding one, wrapping at both ends |
| ImageNavigator.LastSelectsFinal | src/scripts/image-navigator.ts:67-69 | "last" selects the final name whenever the current one is present |
| ImageNavigator.NextThenPrevious | src/scripts/image-navigator.ts:36-74 | on a list without duplicates, next then previous returns to the current image |
| GridViewer.CreateChunks | src/scripts/grid-viewer.ts:18-21 | empty input gives no chunks, and only empty input does |
| GridViewer.FlattenChunks | src/scripts/grid-viewer.ts:18-21 | the chunks concatenate to the input |
| GridViewer.ChunkLengths | src/scripts/grid-viewer.ts:19-20 | every chunk but the last has exactly k items; the last has between 1 and k |
| GridViewer.ChunkCount | src/scripts/grid-viewer.ts:19 | there are ceil(n / k) chunks |
| GridViewer.ChunkIsSlice | src/scripts/grid-viewer.ts:19-20 | chunk i is `slice(i * k, (i + 1) * k)` |
| GridViewer.LastDotPiece | src/scripts/grid-viewer.ts:79 | `split(".").at(-1)` of the name; LastDotPieceIs states what it is |
| GridViewer.LastDotPieceIs | src/scripts/grid-viewer.ts:79 | `split(".").at(-1)` is the text after the last dot, or the whole name |
| GridViewer.IsGridImageEntry | src/scripts/grid-viewer.ts:77-82 | the grid filter: a file whose lower-cased last dot piece is a supported extension; GridFilterDotted and GridFilterDotless state it |
| GridViewer.GridFilterDotted | src/scripts/grid-viewer.ts:77-83 | a dotted name passes iff it is a file and its lower-cased extension is non-empty and supported |
| GridViewer.GridFilterDotless | src/scripts/grid-viewer.ts:77-83 | a dotless name is its own extension |
| GridViewer.GridBatches | src/scripts/grid-viewer.ts:160-163 | the batches of 16 concatenate to the path list, and each holds 1 to 16 paths |
| MimeType.DetectImageMimeType | src/scripts/mine-type.ts:14-33 | the result, when present, is one of the five MIME types |
| MimeType.DetectMatchesTable | src/scripts/mine-type.ts:17-32 | the MIME type is m iff the lower-cased extension is in m's row of the table (jpg/jpeg → image/jpeg, png, webp, gif, avif) |
| MimeType.UnknownExtension | src/scripts/mine-type.ts:30-31 | any other extension gives null |
| MimeType.DetectIgnoresCase | src/scripts/mine-type.ts:17 | letter case does not matter |
| MimeType.DetectInjectiveExceptJpeg | src/scripts/mine-type.ts:18-32 | distinct extensions give distinct MIME types, except jpg and jpeg |
| AutoReloadState.Next | src/scripts/auto-reload-state-manager.ts:12-71 | the flag after each command; CommandTable states the table |
| AutoReloadState.Emitted | src/scripts/auto-reload-state-manager.ts:12-64 | a command emits one notification, carrying the new state, iff the flag changed, and none otherwise |
| AutoReloadState.CommandTable | src/scripts/auto-reload-state-manager.ts:12-71 | start and stop are idempotent and emit nothing the second time; toggle negates; cleanup stops |
| AutoReloadState.ReplayLog | src/scripts/auto-reload-state-manager.ts:12-71 | over any sequence of commands, consecutive notifications alternate, the first differs from the initial state, and the last is the final state |
| AutoReloadState.AutoReloadStateManager.constructor | src/scripts/auto-reload-state-manager.ts:5-7 | the manager starts inactive, with no notifications |
| AutoReloadState.AutoReloadStateManager.Start | src/scripts/auto-reload-state-manager.ts:12-21 | from inactive it becomes active and emits `true`; while active nothing changes |
| AutoReloadState.AutoReloadStateManager.Stop | src/scripts/auto-reload-state-manager.ts:26-35 | from active it becomes inactive and emits `false`; while inactive nothing changes |
| AutoReloadState.AutoReloadStateManager.GetState | src/scripts/auto-reload-state-manager.ts:40-42 | returns the flag |
| AutoReloadState.AutoReloadStateManager.Toggle | src/scripts/auto-reload-state-manager.ts:47-53 | negates the flag and emits the new state |
| AutoReloadState.AutoReloadStateManager.Cleanup | src/scripts/auto-reload-state-manager.ts:69-71 | leaves the manager inactive |
| AutoReload.Valid | src/scripts/auto-reloader.ts:5-6 | the invariant: active iff a timer is held, no timer registered without one, and the held timer the only one registered; OperationsPreserveValid states that every operation keeps it |
| AutoReload.StartR | src/scripts/auto-reloader.ts:20-42 | `start`: ignored while active or holding a timer; otherwise sets the flag, runs the callback once, registers the timer and emits `true` |
| AutoReload.StopR | src/scripts/auto-reloader.ts:47-62 | `stop`: ignored while inactive with no timer; otherwise clears the timer and the flag and emits `false` |
| AutoReload.RequestR | src/scripts/auto-reloader.ts:10-12 | the state request re-emits the current flag |
| AutoReload.OperationsPreserveValid | src/scripts/auto-reloader.ts:5-62 | start, stop and the state request each preserve "active iff a timer is held, and the held timer is the only one registered", so at most one interval timer runs |
| AutoReload.StartFromIdle | src/scripts/auto-reloader.ts:20-42 | a start from idle runs the callback once, registers exactly one timer with the given interval, and emits `true`; a second start changes nothing |
| AutoReload.StopClearsTimer | src/scripts/auto-reloader.ts:47-62 | a stop while active clears the timer, drops the flag, and emits `false`; a second stop changes nothing |
| AutoReload.CallKeepsInformed | src/scripts/auto-reloader.ts:10-62 | every call keeps the invariant, keeps the last notification equal to the current state, and runs the callback at most once per notification |
| AutoReload.RunFrom | src/scripts/auto-reloader.ts:10-62 | the same over any sequence of calls |
| AutoReload.RunKeepsListenersInformed | src/scripts/auto-reloader.ts:5-62 | from construction, after any calls, the flag and handle agree, at most one timer runs, and the last notification reports the current state |
| AutoReload.AutoReloader.constructor | src/scripts/auto-reloader.ts:5-13 | starts inactive, with no timer and no notifications |
| AutoReload.AutoReloader.Start | src/scripts/auto-reloader.ts:20-42 | the new state is the specified start of the old one, and a valid state stays valid |
| AutoReload.AutoReloader.Stop | src/scripts/auto-reloader.ts:47-62 | the new state is the specified stop of the old one, and a valid state stays valid |
| AutoReload.AutoReloader.GetState | src/scripts/auto-reloader.ts:67-69 | returns the flag |
| AutoReload.AutoReloader.OnRequestState | src/scripts/auto-reloader.ts:10-80 | re-emits the current state and changes nothing else, so a valid state stays valid |

## Left out

- Floating point: a tag weight is the exact decimal value of its numeral, as a `real`. It is not the nearest 64-bit float.
- SdParser.ParseFloat covers only the texts it is applied to: an unsigned `digits[.digits]` prefix. Signs, exponents and `Infinity` are not modelled.
- The console warnings and logs of every file are not modelled, nor is the `parseAndEmit` DOM event.
- Common.ToLower lower-cases ASCII letters only. `toLowerCase` and `to_lowercase` also fold non-ASCII letters.
- ImageNavigator.Sort orders names by character, as a model of UTF-16 code units. A name with characters outside the Basic Multilingual Plane may sort differently from JavaScript.
- GridViewer: the `localeCompare` sort of the grid entries is not modelled, because it depends on the locale. The element's `imageMap` bookkeeping and its DOM updates are also left out.
- `SUPPORTED_IMAGE_EXTS` is not defined in mine-type.ts, so the supported extensions are a parameter.
- The Tauri path helpers are not modelled: `extname`, `dirname`, `basename` and `join`. The extension and base name are inputs, and navigation answers with the chosen file name.
- SHA-256 path and content hashes, file-system calls, PNG and WebP codecs, image decoding and scaling, and serde JSON are parameters or abstract functions. Their results are inputs.
- ExifHandler.SetTag models `little_exif`'s `set_tag` as: drop the tags with the same id, then append. That library is not part of this model. Writing the file back is only its success or failure.
- ExifHandler: `read_exif_image_info` and `read_exif_from_bytes`, including the panic catch, are not modelled. They wrap the `little_exif` reader, which is not part of this model.
- The ExifTag model keeps only the variants the source inspects. Every other tag is `Other(id)`.
- Error messages are structured errors, not the exact text.
- `entries.flatten()` silently skips unreadable directory entries. The model's listings are the readable entries.
- ThumbnailHandler: `new`, `get_cache_directory`, the Tauri commands and the thread-pool setup are not modelled. That includes the thread count, rayon parallelism and timing logs.
- ThumbnailHandler.LoadOrGenerate takes `is_cache_valid` (two existence checks) as a boolean. The stale-file removal that precedes generation is modelled by ThumbnailHandler.RemoveOldCacheFiles and is not repeated in it.
- ThumbnailHandler.LoadOrGenerate does not model the best-effort `fs::write` of the new thumbnail into the cache after generation. Its failure is only logged and does not change the result.
- `read_png_image_info`, the file-reading wrapper, is not modelled.
- The Rust `SdParameters::parse` is not part of this model. It is an abstract partial function.
- The auto-reload callback and the browser timer are not modelled. The timer id is a caller-supplied value and the registered timers are a ghost map. The model counts the callback's immediate invocations but does not run them. The periodic runs and the callback's own errors are left out.
- WebpMetadata: the extended WebP format is not claimed. No VP8X flags are set, and the payload is JSON rather than XMP.

## Notes on the source

The three points below were found while stating contracts. The code is
modelled as written and no input makes it misbehave, so none is a
correction. The one branch that can never run, the NaN fallback, is
modelled too: it would return the trimmed whole match with no weight.

- The NaN fallback in `parseSdTags` (src/scripts/exif-parser.ts:52-57) can
  never run. The regex admits only digit numerals, and SdParser.ParseFloatNumeral
  proves every one of them parses.
- Injecting into a WebP file that already carries an `XMP ` chunk keeps the
  old chunk and appends the new one after it. The reader stops at the first
  one. When every chunk of the input is complete, the old payload is still
  what is read back (WebpMetadata.ReinjectKeepsOldPayload). An old chunk
  that is last, has odd length and lacks its pad byte is dropped by the copy
  loop, and then the new payload is read back. The generator only injects into
  fresh encoder output, so the thumbnail path never hits this.
- The RIFF size field is `(len − 8) as u32`, which wraps for outputs of
  4 GiB or more. The model states the wrap-around
  (WebpMetadata.InjectLayout). WebpMetadata.InjectSizeField holds below
  that bound.
