// PNG text-chunk handling of the desktop back end: which uncompressed text
// entry carries the Stable-Diffusion parameters, what the two readers report,
// and which entries survive when the parameters are cleared.  The PNG
// decoder and encoder are parameters: the decoder's output is its header and
// its list of (keyword, text) entries, and `SdParameters::parse` is a partial
// function `parse` over an arbitrary parameters type `P`.
module PngHandler {
  import opened Common

  datatype ColorType = Grayscale | Rgb | Indexed | GrayscaleAlpha | Rgba
  datatype BitDepth = One | Two | Four | Eight | Sixteen

  datatype TextEntry = TextEntry(keyword: string, text: string)

  /** What the decoder's `read_info` exposes. */
  datatype PngInfo = PngInfo(width: nat, height: nat, bitDepth: BitDepth, colorType: ColorType,
                             texts: seq<TextEntry>)

  datatype PngImageInfo<P> = PngImageInfo(width: nat, height: nat, bitDepth: nat, colorType: string,
                                          sdParameters: Option<P>)

  /** A PNG as the encoder writes it: header, text chunks in order, pixel data. */
  datatype PngFile = PngFile(width: nat, height: nat, colorType: ColorType, bitDepth: BitDepth,
                             texts: seq<(string, string)>, pixels: seq<int>)

  const ParametersKeyword: string := "parameters"

  /** `bit_depth as u8`: the depth's discriminant is its number of bits. */
  function BitDepthBits(d: BitDepth): (n: nat)
    ensures n in {1, 2, 4, 8, 16}
  {
    match d
    case One => 1
    case Two => 2
    case Four => 4
    case Eight => 8
    case Sixteen => 16
  }

  /** `format!("{:?}", color_type)`. */
  function ColorTypeName(c: ColorType): string {
    match c
    case Grayscale => "Grayscale"
    case Rgb => "Rgb"
    case Indexed => "Indexed"
    case GrayscaleAlpha => "GrayscaleAlpha"
    case Rgba => "Rgba"
  }

  // ---------------------------------------------------------------------
  // Locating the parameters

  /** Index of the first entry with keyword "parameters". */
  function FirstParameters(texts: seq<TextEntry>): (r: Option<nat>)
    ensures r.Some? ==> r.value < |texts| && texts[r.value].keyword == ParametersKeyword
    ensures r.Some? ==> forall j :: 0 <= j < r.value ==> texts[j].keyword != ParametersKeyword
    ensures r.None? ==> forall j :: 0 <= j < |texts| ==> texts[j].keyword != ParametersKeyword
  {
    if |texts| == 0 then None
    else if texts[0].keyword == ParametersKeyword then Some(0)
    else match FirstParameters(texts[1..])
      case None => None
      case Some(i) => Some(i + 1)
  }

  /** Both readers consult the first "parameters" entry and nothing else. */
  function ParametersOf<P>(texts: seq<TextEntry>, parse: string -> Option<P>): Option<P> {
    match FirstParameters(texts)
    case None => None
    case Some(i) => parse(texts[i].text)
  }

  /**
   * `read_png_info_from_bytes`: a decoder failure is an error; otherwise the
   * header fields are copied and the first "parameters" entry is parsed, a
   * parse failure leaving `sdParameters` empty.
   */
  method ReadPngInfoFromBytes<P>(decoded: Result<PngInfo, string>, parse: string -> Option<P>)
    returns (r: Result<PngImageInfo<P>, string>)
    ensures decoded.Err? ==> r == Err(decoded.error)
    ensures decoded.Ok? ==> r.Ok?
    ensures decoded.Ok? ==> var info := decoded.value;
      r.value == PngImageInfo(info.width, info.height, BitDepthBits(info.bitDepth),
                              ColorTypeName(info.colorType), ParametersOf(info.texts, parse))
  {
    if decoded.Err? {
      return Err(decoded.error);
    }
    var info := decoded.value;
    var sdParameters: Option<P> := None;
    var i := 0;
    while i < |info.texts|
      invariant 0 <= i <= |info.texts|
      invariant forall j :: 0 <= j < i ==> info.texts[j].keyword != ParametersKeyword
      invariant sdParameters.None?
    {
      if info.texts[i].keyword == ParametersKeyword {
        match parse(info.texts[i].text) {
          case Some(params) => sdParameters := Some(params);
          case None =>
        }
        break;
      }
      i := i + 1;
    }
    return Ok(PngImageInfo(info.width, info.height, BitDepthBits(info.bitDepth),
                           ColorTypeName(info.colorType), sdParameters));
  }

  /**
   * `read_png_sd_parameters_from_bytes`: as above for the parameters alone,
   * with a decoder failure reported as no parameters.
   */
  method ReadPngSdParametersFromBytes<P>(decoded: Result<PngInfo, string>, parse: string -> Option<P>)
    returns (r: Option<P>)
    ensures decoded.Err? ==> r.None?
    ensures decoded.Ok? ==> r == ParametersOf(decoded.value.texts, parse)
  {
    if decoded.Err? {
      return None;
    }
    var texts := decoded.value.texts;
    for i := 0 to |texts|
      invariant forall j :: 0 <= j < i ==> texts[j].keyword != ParametersKeyword
    {
      if texts[i].keyword == ParametersKeyword {
        var parsed := parse(texts[i].text);
        if parsed.Some? {
          return parsed;
        }
        break;
      }
    }
    return None;
  }

  /**
   * Only the first "parameters" entry counts: when it does not parse, the
   * result is empty whatever later entries hold, and entries after it are
   * never looked at.
   */
  lemma FirstParametersDecides<P>(texts: seq<TextEntry>, i: nat, more: seq<TextEntry>, parse: string -> Option<P>)
    requires i < |texts| && texts[i].keyword == ParametersKeyword
    requires forall j :: 0 <= j < i ==> texts[j].keyword != ParametersKeyword
    ensures ParametersOf(texts + more, parse) == parse(texts[i].text)
    ensures parse(texts[i].text).None? ==> ParametersOf(texts + more, parse).None?
  {
    var all := texts + more;
    assert all[i] == texts[i];
  }

  /** Without any "parameters" entry there are no parameters. */
  lemma NoParametersEntry<P>(texts: seq<TextEntry>, parse: string -> Option<P>)
    requires forall j :: 0 <= j < |texts| ==> texts[j].keyword != ParametersKeyword
    ensures ParametersOf(texts, parse).None?
  {
  }

  // ---------------------------------------------------------------------
  // Clearing the parameters

  /** The entries kept by `clear_png_sd_parameters`, as (keyword, text) pairs in order. */
  function KeptTextChunks(texts: seq<TextEntry>): (kept: seq<(string, string)>)
    ensures |kept| <= |texts|
    ensures forall j :: 0 <= j < |kept| ==> kept[j].0 != ParametersKeyword
  {
    if |texts| == 0 then []
    else
      var rest := KeptTextChunks(texts[1..]);
      if texts[0].keyword != ParametersKeyword then [(texts[0].keyword, texts[0].text)] + rest else rest
  }

  /** The filter distributes over concatenation, so it keeps the original order. */
  lemma {:induction false} KeptTextChunksConcat(a: seq<TextEntry>, b: seq<TextEntry>)
    ensures KeptTextChunks(a + b) == KeptTextChunks(a) + KeptTextChunks(b)
  {
    if |a| > 0 {
      assert (a + b)[1..] == a[1..] + b;
      KeptTextChunksConcat(a[1..], b);
    } else {
      assert a + b == b;
    }
  }

  /** A single entry is kept exactly when its keyword is not "parameters". */
  lemma KeptTextChunksSingle(e: TextEntry)
    ensures KeptTextChunks([e]) == if e.keyword == ParametersKeyword then [] else [(e.keyword, e.text)]
  {
    assert [e][1..] == [];
  }

  /** A list without "parameters" entries is kept whole. */
  lemma {:induction false} KeptTextChunksAll(texts: seq<TextEntry>)
    requires forall j :: 0 <= j < |texts| ==> texts[j].keyword != ParametersKeyword
    ensures |KeptTextChunks(texts)| == |texts|
    ensures forall j :: 0 <= j < |texts| ==> KeptTextChunks(texts)[j] == (texts[j].keyword, texts[j].text)
  {
    if |texts| > 0 {
      KeptTextChunksAll(texts[1..]);
    }
  }

  function AsEntries(pairs: seq<(string, string)>): (r: seq<TextEntry>)
    ensures |r| == |pairs|
    ensures forall j :: 0 <= j < |r| ==> r[j] == TextEntry(pairs[j].0, pairs[j].1)
  {
    seq(|pairs|, j requires 0 <= j < |pairs| => TextEntry(pairs[j].0, pairs[j].1))
  }

  /**
   * `clear_png_sd_parameters` on a decoded frame: a failed read or write is
   * an error; otherwise the file is rewritten with the header and pixels
   * that were read and the kept text entries.
   */
  function ClearPngSdParameters(read: Result<(PngInfo, seq<int>), string>, writeError: Option<string>)
    : (r: Result<PngFile, string>)
    ensures read.Err? ==> r == Err(read.error)
    ensures read.Ok? && writeError.Some? ==> r == Err(writeError.value)
    ensures read.Ok? && writeError.None? ==> r.Ok? && r.value.texts == KeptTextChunks(read.value.0.texts)
  {
    match read
    case Err(e) => Err(e)
    case Ok((info, pixels)) =>
      if writeError.Some? then Err(writeError.value)
      else Ok(PngFile(info.width, info.height, info.colorType, info.bitDepth,
                      KeptTextChunks(info.texts), pixels))
  }

  /**
   * After a successful clear the file keeps its header and pixels, writes
   * exactly the entries other than "parameters", in their original order,
   * holds no "parameters" entry, so reading it yields no parameters, and
   * clearing it again writes the same text chunks.
   */
  lemma ClearRemovesParameters<P>(info: PngInfo, pixels: seq<int>, parse: string -> Option<P>)
    ensures var r := ClearPngSdParameters(Ok((info, pixels)), None);
      r.Ok? &&
      r.value.width == info.width && r.value.height == info.height &&
      r.value.colorType == info.colorType && r.value.bitDepth == info.bitDepth &&
      r.value.pixels == pixels &&
      r.value.texts == KeptTextChunks(info.texts) &&
      ParametersOf(AsEntries(r.value.texts), parse).None? &&
      KeptTextChunks(AsEntries(r.value.texts)) == r.value.texts
  {
    var kept := KeptTextChunks(info.texts);
    var entries := AsEntries(kept);
    NoParametersEntry(entries, parse);
    KeptTextChunksAll(entries);
  }
}
