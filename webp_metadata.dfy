// The WebP side of the thumbnail cache: a RIFF container (RFC 9649,
// section 2) is rewritten with every complete chunk copied in order and an
// "XMP " chunk appended whose payload is the serialised thumbnail metadata,
// and read back by walking the chunks for the first "XMP " payload.
// Serialisation, UTF-8 decoding and JSON parsing are parameters: the
// payload is an opaque byte sequence here.
module WebpMetadata {
  import opened Common
  import ExifHandler

  newtype byte = x: int | 0 <= x < 256
  type Bytes = seq<byte>

  const Two32: nat := 0x1_0000_0000
  const Riff: Bytes := [0x52, 0x49, 0x46, 0x46]
  const Webp: Bytes := [0x57, 0x45, 0x42, 0x50]
  const Xmp: Bytes := [0x58, 0x4D, 0x50, 0x20]

  /** What the cache stores beside a thumbnail; `S` stands for the SD parameters record. */
  datatype ThumbnailMetadata<S> = ThumbnailMetadata(
    exifInfo: Option<ExifHandler.ExifImageInfo>,
    sdParameters: Option<S>,
    cacheVersion: nat)

  datatype WebpError = InvalidWebp | SerializeFailed(message: string)

  predicate IsWebpHeader(w: Bytes) {
    |w| >= 12 && w[0..4] == Riff && w[8..12] == Webp
  }

  // ---------------------------------------------------------------------
  // Little-endian 32-bit fields

  function Pow256(k: nat): (r: nat)
    ensures r > 0
  {
    if k == 0 then 1 else 256 * Pow256(k - 1)
  }

  /** `k` little-endian bytes of `n`, least significant first. */
  function LittleEndian(n: nat, k: nat): (r: Bytes)
    ensures |r| == k
  {
    if k == 0 then [] else [(n % 256) as byte] + LittleEndian(n / 256, k - 1)
  }

  /** The value of little-endian bytes. */
  function FromLittleEndian(s: Bytes): (n: nat)
    ensures n < Pow256(|s|)
  {
    if |s| == 0 then 0 else s[0] as nat + 256 * FromLittleEndian(s[1..])
  }

  /** `u32::to_le_bytes`. */
  function LE32(n: nat): (r: Bytes)
    requires n < Two32
    ensures |r| == 4
  {
    LittleEndian(n, 4)
  }

  /** `u32::from_le_bytes` applied to the four bytes at `pos`. */
  function ReadLE32(w: Bytes, pos: nat): (n: nat)
    requires pos + 4 <= |w|
    ensures n < Two32
  {
    assert Pow256(4) == Two32;
    FromLittleEndian(w[pos..pos + 4])
  }

  lemma {:induction false} FromLittleEndianOfLittleEndian(n: nat, k: nat)
    requires n < Pow256(k)
    ensures FromLittleEndian(LittleEndian(n, k)) == n
  {
    if k > 0 {
      var s := LittleEndian(n, k);
      assert s[1..] == LittleEndian(n / 256, k - 1);
      FromLittleEndianOfLittleEndian(n / 256, k - 1);
    }
  }

  lemma {:induction false} LittleEndianOfFromLittleEndian(s: Bytes)
    ensures LittleEndian(FromLittleEndian(s), |s|) == s
  {
    if |s| > 0 {
      var n := FromLittleEndian(s);
      assert n % 256 == s[0] as nat && n / 256 == FromLittleEndian(s[1..]);
      LittleEndianOfFromLittleEndian(s[1..]);
    }
  }

  /** Decoding an encoded size gives the size back. */
  lemma ReadLE32OfLE32(n: nat, w: Bytes, pos: nat)
    requires n < Two32 && pos + 4 <= |w| && w[pos..pos + 4] == LE32(n)
    ensures ReadLE32(w, pos) == n
  {
    assert Pow256(4) == Two32;
    FromLittleEndianOfLittleEndian(n, 4);
  }

  /** Encoding a decoded size gives the four bytes back. */
  lemma LE32OfReadLE32(w: Bytes, pos: nat)
    requires pos + 4 <= |w|
    ensures LE32(ReadLE32(w, pos)) == w[pos..pos + 4]
  {
    LittleEndianOfFromLittleEndian(w[pos..pos + 4]);
  }

  // ---------------------------------------------------------------------
  // The chunk walk

  /** End of the chunk whose header starts at `pos`, payload padded to even length. */
  function ChunkEnd(w: Bytes, pos: nat): (e: nat)
    requires pos + 8 <= |w|
    ensures e >= pos + 8 && (e - pos) % 2 == 0
  {
    var size := ReadLE32(w, pos + 4);
    pos + 8 + size + size % 2
  }

  /**
   * Where the run of complete chunks starting at `pos` ends: the walk stops
   * at a truncated header or at a chunk that runs past the end.
   */
  function CopyEnd(w: Bytes, pos: nat): (e: nat)
    requires pos <= |w|
    ensures pos <= e <= |w|
    decreases |w| - pos
  {
    if pos + 8 > |w| then pos
    else if ChunkEnd(w, pos) > |w| then pos
    else CopyEnd(w, ChunkEnd(w, pos))
  }

  /** The walk only ever moves by whole padded chunks, so it keeps parity. */
  lemma {:induction false} CopyEndEven(w: Bytes, pos: nat)
    requires pos <= |w|
    ensures (CopyEnd(w, pos) - pos) % 2 == 0
    decreases |w| - pos
  {
    if pos + 8 <= |w| && ChunkEnd(w, pos) <= |w| {
      CopyEndEven(w, ChunkEnd(w, pos));
    }
  }

  function Pad(p: Bytes): (r: Bytes)
    ensures |r| == |p| % 2 && (|p| + |r|) % 2 == 0
  {
    if |p| % 2 != 0 then [0] else []
  }

  /** The appended chunk; the size field is `len as u32`, so it wraps modulo 2^32. */
  function MetadataChunk(p: Bytes): (c: Bytes)
    ensures |c| == 8 + |p| + |Pad(p)| && |c| % 2 == 0
  {
    Xmp + LE32(|p| % Two32) + p + Pad(p)
  }

  /** The chunk is "XMP ", the 32-bit payload size, the payload, and a zero pad byte iff the payload is odd. */
  lemma MetadataChunkLayout(p: Bytes)
    ensures var c := MetadataChunk(p);
      c[..4] == Xmp && c[4..8] == LE32(|p| % Two32) && c[8..8 + |p|] == p &&
      (|p| % 2 == 1 <==> |c| == 8 + |p| + 1) &&
      forall k :: 8 + |p| <= k < |c| ==> c[k] == 0
  {
    var c := MetadataChunk(p);
    var head := Xmp + LE32(|p| % Two32);
    assert c == head + p + Pad(p);
    assert c[..4] == head[..4];
    assert c[4..8] == head[4..8];
    assert c[8..8 + |p|] == p;
  }

  /** Overwrite the RIFF size field with the length after it, truncated to 32 bits. */
  function PatchRiffSize(body: Bytes): Bytes
    requires |body| >= 8
  {
    body[..4] + LE32((|body| - 8) % Two32) + body[8..]
  }

  /**
   * Reference definition of `inject_metadata_to_webp`: header check, then
   * the serialisation outcome, then the copied chunks, the appended chunk and
   * the patched size field.
   */
  function Inject(w: Bytes, serialized: Result<Bytes, string>): Result<Bytes, WebpError> {
    if !IsWebpHeader(w) then Err(InvalidWebp)
    else match serialized
      case Err(e) => Err(SerializeFailed(e))
      case Ok(p) => Ok(PatchRiffSize(w[..8] + Webp + w[12..CopyEnd(w, 12)] + MetadataChunk(p)))
  }

  /** `add_metadata_chunk`: serialisation failure leaves nothing appended. */
  method AddMetadataChunk(data: Bytes, serialized: Result<Bytes, string>) returns (r: Result<Bytes, string>)
    ensures serialized.Err? ==> r == Err(serialized.error)
    ensures serialized.Ok? ==> r == Ok(data + MetadataChunk(serialized.value))
  {
    match serialized {
      case Err(e) =>
        return Err(e);
      case Ok(json) =>
        var out := data + Xmp + LE32(|json| % Two32) + json;
        if |json| % 2 != 0 {
          out := out + [0];
        }
        assert out == data + MetadataChunk(json);
        return Ok(out);
    }
  }

  method InjectMetadataToWebp(w: Bytes, serialized: Result<Bytes, string>) returns (r: Result<Bytes, WebpError>)
    ensures r == Inject(w, serialized)
  {
    if |w| < 12 || w[0..4] != Riff || w[8..12] != Webp {
      return Err(InvalidWebp);
    }
    var result := w[0..8] + Webp;
    var pos := 12;
    while pos < |w|
      invariant 12 <= pos <= |w|
      invariant CopyEnd(w, pos) == CopyEnd(w, 12)
      invariant result == w[..8] + Webp + w[12..pos]
      decreases |w| - pos
    {
      if pos + 8 > |w| {
        break;
      }
      var size := ReadLE32(w, pos + 4);
      var chunkEnd := pos + 8 + size + size % 2;
      if chunkEnd > |w| {
        break;
      }
      assert w[12..chunkEnd] == w[12..pos] + w[pos..chunkEnd];
      result := result + w[pos..chunkEnd];
      pos := chunkEnd;
    }
    var added := AddMetadataChunk(result, serialized);
    match added {
      case Err(e) =>
        return Err(SerializeFailed(e));
      case Ok(withChunk) =>
        var totalSize := (|withChunk| - 8) % Two32;
        return Ok(withChunk[..4] + LE32(totalSize) + withChunk[8..]);
    }
  }

  /** The thumbnail path: without metadata the encoder output is returned as is. */
  method EncodeWithMetadata<M>(encoded: Bytes, metadata: Option<M>, serialize: M -> Result<Bytes, string>)
    returns (r: Result<Bytes, WebpError>)
    ensures metadata.None? ==> r == Ok(encoded)
    ensures metadata.Some? ==> r == Inject(encoded, serialize(metadata.value))
  {
    if metadata.None? {
      return Ok(encoded);
    }
    r := InjectMetadataToWebp(encoded, serialize(metadata.value));
  }

  // ---------------------------------------------------------------------
  // Reading back

  /**
   * Payload of the first "XMP " chunk at or after `pos` whose unpadded
   * payload fits; other chunks are stepped over by their padded length.
   */
  function FindXmp(w: Bytes, pos: nat): Option<Bytes>
    requires pos <= |w|
    decreases |w| - pos
  {
    if pos + 8 > |w| then None
    else
      var size := ReadLE32(w, pos + 4);
      if w[pos..pos + 4] == Xmp && pos + 8 + size <= |w| then Some(w[pos + 8..pos + 8 + size])
      else if ChunkEnd(w, pos) > |w| then None
      else FindXmp(w, ChunkEnd(w, pos))
  }

  /**
   * Reference definition of `extract_metadata_from_webp`; `decode` is UTF-8
   * decoding followed by JSON parsing, either of which may fail.
   */
  function Extract<M>(w: Bytes, decode: Bytes -> Result<M, string>): Result<Option<M>, string> {
    if !IsWebpHeader(w) then Ok(None)
    else match FindXmp(w, 12)
      case None => Ok(None)
      case Some(p) =>
        match decode(p)
        case Err(e) => Err(e)
        case Ok(m) => Ok(Some(m))
  }

  method ExtractMetadataFromWebp<M>(w: Bytes, decode: Bytes -> Result<M, string>) returns (r: Result<Option<M>, string>)
    ensures r == Extract(w, decode)
  {
    if |w| < 12 || w[0..4] != Riff || w[8..12] != Webp {
      return Ok(None);
    }
    var pos := 12;
    while pos < |w|
      invariant 12 <= pos <= |w|
      invariant FindXmp(w, pos) == FindXmp(w, 12)
      decreases |w| - pos
    {
      if pos + 8 > |w| {
        break;
      }
      var size := ReadLE32(w, pos + 4);
      if w[pos..pos + 4] == Xmp {
        var dataStart := pos + 8;
        var dataEnd := dataStart + size;
        if dataEnd <= |w| {
          var decoded := decode(w[dataStart..dataEnd]);
          match decoded {
            case Err(e) => return Err(e);
            case Ok(m) => return Ok(Some(m));
          }
        }
      }
      var chunkEnd := pos + 8 + size + size % 2;
      if chunkEnd > |w| {
        break;
      }
      pos := chunkEnd;
    }
    return Ok(None);
  }

  // ---------------------------------------------------------------------
  // Properties of the rewrite

  /** Invalid input is refused by inject and reads as "no metadata". */
  lemma InvalidHeader<M>(w: Bytes, serialized: Result<Bytes, string>, decode: Bytes -> Result<M, string>)
    requires !IsWebpHeader(w)
    ensures Inject(w, serialized) == Err(InvalidWebp)
    ensures Extract(w, decode) == Ok(None)
  {
  }

  /**
   * Layout of the output: "RIFF", the size of everything after the size
   * field, "WEBP", the complete chunks of the input verbatim, the appended
   * chunk.  The length is even.
   */
  lemma InjectLayout(w: Bytes, p: Bytes)
    requires IsWebpHeader(w)
    ensures var out := Inject(w, Ok(p)).value;
      var e := CopyEnd(w, 12);
      |out| == e + |MetadataChunk(p)| &&
      out[..4] == Riff &&
      out[4..8] == LE32((|out| - 8) % Two32) &&
      out[8..12] == Webp &&
      out[12..e] == w[12..e] &&
      out[e..] == MetadataChunk(p) &&
      |out| % 2 == 0
  {
    var e := CopyEnd(w, 12);
    var c := MetadataChunk(p);
    var body := w[..8] + Webp + w[12..e] + c;
    BodyLayout(w, e, c);
    PatchLayout(body);
    var out := PatchRiffSize(body);
    assert Inject(w, Ok(p)) == Ok(out);
    assert |out| == e + |c|;
    assert out[..4] == Riff;
    assert out[4..8] == LE32((|out| - 8) % Two32);
    assert out[8..12] == Webp;
    assert out[12..e] == w[12..e] by {
      assert out[12..e] == out[12..][..e - 12] && body[12..e] == body[12..][..e - 12];
    }
    assert out[e..] == c by {
      assert out[e..] == out[12..][e - 12..] && body[e..] == body[12..][e - 12..];
    }
    CopyEndEven(w, 12);
    EvenSum(e - 12, |c|);
  }

  lemma EvenSum(a: nat, b: nat)
    requires a % 2 == 0 && b % 2 == 0
    ensures (a + 12 + b) % 2 == 0
  {
  }

  lemma BodyLayout(w: Bytes, e: nat, c: Bytes)
    requires IsWebpHeader(w) && 12 <= e <= |w|
    ensures var body := w[..8] + Webp + w[12..e] + c;
      |body| == e + |c| && body[..4] == Riff && body[8..12] == Webp &&
      body[12..e] == w[12..e] && body[e..] == c
  {
    var head := w[..8] + Webp;
    var body := head + w[12..e] + c;
    assert body[..4] == head[..4] == w[..4];
    assert body[8..12] == head[8..12];
    assert body[12..] == w[12..e] + c;
    assert body[12..e] == body[12..][..e - 12];
    assert body[e..] == body[12..][e - 12..];
  }

  lemma PatchLayout(body: Bytes)
    requires |body| >= 12
    ensures var out := PatchRiffSize(body);
      |out| == |body| && out[..4] == body[..4] &&
      out[4..8] == LE32((|body| - 8) % Two32) &&
      out[8..12] == body[8..12] && out[12..] == body[12..]
  {
    var out := PatchRiffSize(body);
    assert out[8..] == body[8..];
    assert out[8..12] == out[8..][..4] && body[8..12] == body[8..][..4];
    assert out[12..] == out[8..][4..] && body[12..] == body[8..][4..];
  }

  /** While the output is under 4 GiB its size field holds its length minus 8. */
  lemma InjectSizeField(w: Bytes, p: Bytes)
    requires IsWebpHeader(w)
    requires |Inject(w, Ok(p)).value| - 8 < Two32
    ensures ReadLE32(Inject(w, Ok(p)).value, 4) == |Inject(w, Ok(p)).value| - 8
  {
    var out := Inject(w, Ok(p)).value;
    InjectLayout(w, p);
    ReadLE32OfLE32(|out| - 8, out, 4);
  }

  /**
   * Walking a copy whose bytes agree with the input over the copied chunks
   * reaches the end of those chunks without meeting an "XMP " payload.
   */
  lemma {:induction false} WalkAgrees(w: Bytes, out: Bytes, pos: nat)
    requires pos <= |w| && CopyEnd(w, pos) <= |out|
    requires out[pos..CopyEnd(w, pos)] == w[pos..CopyEnd(w, pos)]
    requires FindXmp(w, pos).None?
    ensures FindXmp(out, pos) == FindXmp(out, CopyEnd(w, pos))
    decreases |w| - pos
  {
    var e := CopyEnd(w, pos);
    if pos + 8 <= |w| && ChunkEnd(w, pos) <= |w| {
      var ce := ChunkEnd(w, pos);
      assert out[pos..pos + 8] == w[pos..pos + 8] by {
        assert out[pos..pos + 8] == out[pos..e][..8];
        assert w[pos..pos + 8] == w[pos..e][..8];
      }
      assert ReadLE32(out, pos + 4) == ReadLE32(w, pos + 4) by {
        assert out[pos + 4..pos + 8] == out[pos..pos + 8][4..] && w[pos + 4..pos + 8] == w[pos..pos + 8][4..];
      }
      assert out[pos..pos + 4] == w[pos..pos + 4] by {
        assert out[pos..pos + 4] == out[pos..pos + 8][..4];
        assert w[pos..pos + 4] == w[pos..pos + 8][..4];
      }
      assert out[ce..e] == w[ce..e] by {
        assert out[ce..e] == out[pos..e][ce - pos..];
        assert w[ce..e] == w[pos..e][ce - pos..];
      }
      WalkAgrees(w, out, ce);
    }
  }

  /**
   * Round trip: when the input has no complete "XMP " chunk and the payload
   * fits a 32-bit size, reading the rewritten file decodes exactly the
   * payload that was written.
   */
  lemma InjectThenExtract<M>(w: Bytes, p: Bytes, decode: Bytes -> Result<M, string>)
    requires IsWebpHeader(w) && FindXmp(w, 12).None? && |p| < Two32
    ensures Inject(w, Ok(p)).Ok?
    ensures FindXmp(Inject(w, Ok(p)).value, 12) == Some(p)
    ensures Extract(Inject(w, Ok(p)).value, decode) ==
      match decode(p) case Err(e) => Err(e) case Ok(m) => Ok(Some(m))
  {
    var out := Inject(w, Ok(p)).value;
    var e := CopyEnd(w, 12);
    InjectLayout(w, p);
    WalkAgrees(w, out, 12);
    FindAppendedChunk(out, e, p);
  }

  /** A walk standing on the appended chunk returns its payload. */
  lemma FindAppendedChunk(out: Bytes, e: nat, p: Bytes)
    requires e <= |out| && out[e..] == MetadataChunk(p) && |p| < Two32
    ensures FindXmp(out, e) == Some(p)
  {
    MetadataChunkLayout(p);
    assert out[e..e + 4] == Xmp by {
      assert out[e..e + 4] == out[e..][..4];
    }
    assert out[e + 4..e + 8] == LE32(|p|) by {
      assert out[e + 4..e + 8] == out[e..][4..8];
      assert |p| % Two32 == |p|;
    }
    ReadLE32OfLE32(|p|, out, e + 4);
    assert out[e + 8..e + 8 + |p|] == p by {
      assert out[e + 8..e + 8 + |p|] == out[e..][8..8 + |p|];
    }
  }

  /**
   * Re-injecting into a file that already holds an "XMP " chunk keeps the
   * old chunk first, so reading it back still yields the old payload.
   */
  lemma ReinjectKeepsOldPayload(w: Bytes, p: Bytes, previous: Bytes)
    requires IsWebpHeader(w)
    requires FindXmp(w, 12) == Some(previous) && CopyEnd(w, 12) == |w|
    ensures FindXmp(Inject(w, Ok(p)).value, 12) == Some(previous)
  {
    var out := Inject(w, Ok(p)).value;
    InjectLayout(w, p);
    forall k | 12 <= k < |w| ensures out[k] == w[k] {
      assert out[k] == out[12..|w|][k - 12];
    }
    PrefixWalk(w, out, 12);
  }

  /** A walk that finds a payload inside `w` finds it in any extension of `w[12..]`. */
  lemma {:induction false} PrefixWalk(w: Bytes, out: Bytes, pos: nat)
    requires 12 <= pos <= |w| <= |out|
    requires forall k :: 12 <= k < |w| ==> out[k] == w[k]
    requires FindXmp(w, pos).Some?
    ensures FindXmp(out, pos) == FindXmp(w, pos)
    decreases |w| - pos
  {
    assert pos + 8 <= |w|;
    assert out[pos..pos + 4] == w[pos..pos + 4];
    assert out[pos + 4..pos + 8] == w[pos + 4..pos + 8];
    var size := ReadLE32(w, pos + 4);
    if w[pos..pos + 4] == Xmp && pos + 8 + size <= |w| {
      assert out[pos + 8..pos + 8 + size] == w[pos + 8..pos + 8 + size];
    } else {
      PrefixWalk(w, out, ChunkEnd(w, pos));
    }
  }
}
