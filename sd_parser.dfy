/** The Stable-Diffusion "parameters" text decoder of src/scripts/exif-parser.ts:
    prompt tags with optional `(name:weight)` emphasis, the colon/comma
    key-value grammar of the settings tail, the last-wins field map, and the
    orchestration around the two structural markers. */
module SdParser {
  import opened Common

  /** One prompt tag. The weight is the exact decimal value of the numeral
      written in `(name:weight)`, not a 64-bit float. */
  datatype SdTag = SdTag(name: string, weight: Option<real>)

  /** The decoded record: both tag lists and the fourteen recognised fields. */
  datatype SdParameters = SdParameters(
    positiveSdTags: seq<SdTag>,
    negativeSdTags: seq<SdTag>,
    steps: Option<string>,
    sampler: Option<string>,
    scheduleType: Option<string>,
    cfgScale: Option<string>,
    seed: Option<string>,
    size: Option<string>,
    modelHash: Option<string>,
    model: Option<string>,
    denoisingStrength: Option<string>,
    clipSkip: Option<string>,
    hiresCfgScale: Option<string>,
    hiresUpscale: Option<string>,
    hiresSteps: Option<string>,
    hiresUpscaler: Option<string>)

  /** The two thrown errors: a marker missing or repeated. */
  datatype ParseError = NegativePromptNotFound | StepsNotFound

  // ---------------------------------------------------------------------
  // The weight pattern  /\(([^:]+):([0-9]+(?:\.[0-9]+)?)\)/
  // ---------------------------------------------------------------------

  predicate IsDigit(c: char) {
    '0' <= c <= '9'
  }

  predicate AllDigits(s: string) {
    forall k :: 0 <= k < |s| ==> IsDigit(s[k])
  }

  /** The numeral of a weight: an integer part and an optional fraction. */
  datatype Numeral = Numeral(intDigits: string, fracDigits: Option<string>)

  predicate WellFormedNumeral(n: Numeral) {
    && |n.intDigits| >= 1 && AllDigits(n.intDigits)
    && (n.fracDigits.Some? ==> |n.fracDigits.value| >= 1 && AllDigits(n.fracDigits.value))
  }

  function NumeralText(n: Numeral): string {
    n.intDigits + (if n.fracDigits.Some? then "." + n.fracDigits.value else "")
  }

  /** The name group `[^:]+`. */
  predicate WellFormedName(name: string) {
    |name| >= 1 && forall k :: 0 <= k < |name| ==> name[k] != ':'
  }

  /** The text a match of the pattern covers, given its two groups. */
  function PatternText(name: string, n: Numeral): string {
    "(" + name + ":" + NumeralText(n) + ")"
  }

  /** A match: where it starts and ends in the piece, and its two groups. */
  datatype WeightMatch = WeightMatch(start: nat, end: nat, name: string, numeral: Numeral)

  /** The end of the maximal run of digits starting at `k`. */
  function DigitRunEnd(t: string, k: nat): (e: nat)
    requires k <= |t|
    ensures k <= e <= |t| && AllDigits(t[k..e])
    ensures e < |t| ==> !IsDigit(t[e])
    decreases |t| - k
  {
    if k < |t| && IsDigit(t[k]) then
      var e := DigitRunEnd(t, k + 1);
      assert t[k..e] == [t[k]] + t[k + 1..e];
      e
    else k
  }

  /** A run of digits followed by a non-digit is the maximal run. */
  lemma {:induction false} DigitRunAt(t: string, k: nat, e: nat)
    requires k <= e < |t| && AllDigits(t[k..e]) && !IsDigit(t[e])
    ensures DigitRunEnd(t, k) == e
    decreases e - k
  {
    if k < e {
      assert t[k] == t[k..e][0];
      assert t[k + 1..e] == t[k..e][1..];
      DigitRunAt(t, k + 1, e);
    }
  }

  /** The first position at or after `k` holding `c`. */
  function IndexOfFrom(t: string, c: char, k: nat): (r: Option<nat>)
    requires k <= |t|
    ensures r.Some? ==> k <= r.value < |t| && t[r.value] == c
    ensures r.Some? ==> forall j :: k <= j < r.value ==> t[j] != c
    ensures r.None? ==> forall j :: k <= j < |t| ==> t[j] != c
    decreases |t| - k
  {
    if k == |t| then None
    else if t[k] == c then Some(k)
    else IndexOfFrom(t, c, k + 1)
  }

  lemma IndexOfFromIs(t: string, c: char, k: nat, x: nat)
    requires k <= x < |t| && t[x] == c
    requires forall j :: k <= j < x ==> t[j] != c
    ensures IndexOfFrom(t, c, k) == Some(x)
  {
  }

  /** The second half of the pattern, `([0-9]+(?:\.[0-9]+)?)\)`, tried at
      position `d`: the numeral and the position after the `)`. The digit
      runs are greedy and a digit can never stand for `.` or `)`, so
      backtracking finds no other way to match. */
  function NumeralAt(t: string, d: nat): (r: Option<(Numeral, nat)>)
    requires d <= |t|
    ensures r.Some? ==> d < r.value.1 <= |t| && WellFormedNumeral(r.value.0)
  {
    var e := DigitRunEnd(t, d);
    if e == d || e == |t| then None
    else if t[e] == ')' then Some((Numeral(t[d..e], None), e + 1))
    else if t[e] != '.' then None
    else
      var f := DigitRunEnd(t, e + 1);
      if f == e + 1 || f == |t| || t[f] != ')' then None
      else Some((Numeral(t[d..e], Some(t[e + 1..f])), f + 1))
  }

  /** What NumeralAt recognises is a numeral's text followed by `)`. */
  lemma NumeralAtSound(t: string, d: nat)
    requires d <= |t|
    ensures var r := NumeralAt(t, d);
      r.Some? ==> t[d..r.value.1] == NumeralText(r.value.0) + ")"
  {
    var e := DigitRunEnd(t, d);
    if e != d && e != |t| {
      if t[e] == ')' {
        assert t[d..e + 1] == t[d..e] + [t[e]];
      } else if t[e] == '.' {
        var f := DigitRunEnd(t, e + 1);
        if f != e + 1 && f != |t| && t[f] == ')' {
          assert t[d..f + 1] == t[d..e] + [t[e]] + t[e + 1..f] + [t[f]];
        }
      }
    }
  }

  /** A numeral followed by `)` is found by NumeralAt, to its end. */
  lemma NumeralAtComplete(t: string, d: nat, n: Numeral, end: nat)
    requires d <= end <= |t| && WellFormedNumeral(n)
    requires t[d..end] == NumeralText(n) + ")"
    ensures NumeralAt(t, d) == Some((n, end))
  {
    var u := t[d..end];
    var ip := n.intDigits;
    var e := d + |ip|;
    NumeralTextParts(n);
    SliceOfSlice(t, d, end, 0, |ip|);
    assert t[e] == u[|ip|];
    DigitRunAt(t, d, e);
    match n.fracDigits
    case None =>
      NumeralAtInteger(t, d, e);
    case Some(fp) =>
      var f := e + 1 + |fp|;
      SliceOfSlice(t, d, end, |ip| + 1, |ip| + 1 + |fp|);
      assert t[f] == u[|ip| + 1 + |fp|];
      DigitRunAt(t, e + 1, f);
      NumeralAtFraction(t, d, e, f);
  }

  /** NumeralAt on digits closed by `)`. */
  lemma NumeralAtInteger(t: string, d: nat, e: nat)
    requires d < e < |t| && DigitRunEnd(t, d) == e && t[e] == ')'
    ensures NumeralAt(t, d) == Some((Numeral(t[d..e], None), e + 1))
  {
  }

  /** NumeralAt on digits, a point and digits closed by `)`. */
  lemma NumeralAtFraction(t: string, d: nat, e: nat, f: nat)
    requires d < e && e + 1 < f < |t| && DigitRunEnd(t, d) == e && t[e] == '.'
    requires DigitRunEnd(t, e + 1) == f && t[f] == ')'
    ensures NumeralAt(t, d) == Some((Numeral(t[d..e], Some(t[e + 1..f])), f + 1))
  {
  }

  /** Where the digits, the point and the `)` sit in a numeral's text. */
  lemma NumeralTextParts(n: Numeral)
    ensures var u := NumeralText(n) + ")";
      var ip := n.intDigits;
      |ip| < |u| && u[..|ip|] == ip &&
      (n.fracDigits.None? ==> u[|ip|] == ')') &&
      (n.fracDigits.Some? ==>
        var fp := n.fracDigits.value;
        |u| == |ip| + |fp| + 2 && u[|ip|] == '.' &&
        u[|ip| + 1..|ip| + 1 + |fp|] == fp && u[|ip| + 1 + |fp|] == ')')
  {
    var ip := n.intDigits;
    match n.fracDigits
    case None =>
      assert NumeralText(n) + ")" == ip + ")";
    case Some(fp) =>
      var u := ip + "." + fp + ")";
      assert NumeralText(n) + ")" == u;
      assert u[|ip| + 1..|ip| + 1 + |fp|] == fp;
  }

  lemma SliceOfSlice(t: string, i: nat, j: nat, a: nat, b: nat)
    requires i <= j <= |t| && a <= b <= j - i
    ensures t[i..j][a..b] == t[i + a..i + b]
  {
    forall k | 0 <= k < b - a ensures t[i..j][a..b][k] == t[i + a..i + b][k] {
      assert t[i..j][a..b][k] == t[i..j][a + k];
    }
  }

  /** The whole pattern tried at one start position. `[^:]+` cannot cross a
      colon, so the name always ends at the first colon after the `(`. */
  function MatchAt(t: string, i: nat): (r: Option<WeightMatch>)
    requires i <= |t|
    ensures r.Some? ==> r.value.start == i && i < r.value.end <= |t|
    ensures r.Some? ==> WellFormedName(r.value.name) && WellFormedNumeral(r.value.numeral)
  {
    if i == |t| || t[i] != '(' then None
    else match IndexOfFrom(t, ':', i + 1)
      case None => None
      case Some(colon) =>
        if colon == i + 1 then None
        else match NumeralAt(t, colon + 1)
          case None => None
          case Some((n, end)) =>
            Some(WeightMatch(i, end, t[i + 1..colon], n))
  }

  /** A match reported at `i` covers exactly `(name:numeral)`. */
  lemma MatchAtSound(t: string, i: nat)
    requires i <= |t|
    ensures var r := MatchAt(t, i);
      r.Some? ==> t[i..r.value.end] == PatternText(r.value.name, r.value.numeral)
  {
    match MatchAt(t, i)
    case None =>
    case Some(m) =>
      var colon := IndexOfFrom(t, ':', i + 1).value;
      NumeralAtSound(t, colon + 1);
      assert t[i..m.end] == [t[i]] + m.name + [t[colon]] + t[colon + 1..m.end];
  }

  /** Any substring of the form `(name:numeral)` is found by MatchAt at its
      start, with exactly those groups: the pattern matches deterministically. */
  lemma MatchAtComplete(t: string, i: nat, j: nat, name: string, n: Numeral)
    requires i <= j <= |t|
    requires WellFormedName(name) && WellFormedNumeral(n)
    requires t[i..j] == PatternText(name, n)
    ensures MatchAt(t, i) == Some(WeightMatch(i, j, name, n))
  {
    var colon := i + 1 + |name|;
    assert PatternText(name, n) == "(" + name + ":" + (NumeralText(n) + ")");
    PatternParts(t, i, j, name, NumeralText(n) + ")");
    forall x | i + 1 <= x < colon ensures t[x] != ':' {
      assert t[x] == t[i + 1..colon][x - i - 1];
    }
    IndexOfFromIs(t, ':', i + 1, colon);
    NumeralAtComplete(t, colon + 1, n, j);
    MatchAtIs(t, i, colon, n, j);
  }

  /** MatchAt in terms of where the colon and the end of the numeral are. */
  lemma MatchAtIs(t: string, i: nat, colon: nat, n: Numeral, end: nat)
    requires i + 1 < colon < |t| && t[i] == '('
    requires IndexOfFrom(t, ':', i + 1) == Some(colon)
    requires NumeralAt(t, colon + 1) == Some((n, end))
    ensures MatchAt(t, i) == Some(WeightMatch(i, end, t[i + 1..colon], n))
  {
  }

  /** The pieces of a substring `(name:tail)`. */
  lemma PatternParts(t: string, i: nat, j: nat, name: string, tail: string)
    requires i <= j <= |t| && t[i..j] == "(" + name + ":" + tail
    ensures i + 2 + |name| <= j
    ensures t[i] == '(' && t[i + 1 + |name|] == ':'
    ensures t[i + 1..i + 1 + |name|] == name && t[i + 2 + |name|..j] == tail
  {
    var w := t[i..j];
    var colon := i + 1 + |name|;
    PatternTextParts(name, tail);
    assert t[i] == w[0];
    assert t[colon] == w[1 + |name|];
    SliceOfSlice(t, i, j, 1, 1 + |name|);
    SliceOfSlice(t, i, j, 2 + |name|, j - i);
  }

  lemma PatternTextParts(name: string, tail: string)
    ensures var w := "(" + name + ":" + tail;
      |w| == |name| + |tail| + 2 && w[0] == '(' && w[1 + |name|] == ':' &&
      w[1..1 + |name|] == name && w[2 + |name|..] == tail
  {
    var w := "(" + name + ":" + tail;
    assert w[1..1 + |name|] == name;
    assert w[2 + |name|..] == tail;
  }

  /** The regular expression's leftmost match at or after position `i`. */
  function FirstMatch(t: string, i: nat): (r: Option<WeightMatch>)
    requires i <= |t|
    ensures r.Some? ==> i <= r.value.start < |t| && MatchAt(t, r.value.start) == r
    ensures r.Some? ==> forall j :: i <= j < r.value.start ==> MatchAt(t, j).None?
    ensures r.None? ==> forall j :: i <= j <= |t| ==> MatchAt(t, j).None?
    decreases |t| - i
  {
    if i == |t| then None
    else match MatchAt(t, i)
      case Some(m) => Some(m)
      case None => FirstMatch(t, i + 1)
  }

  /** The search in declarative terms: whenever some substring of the piece
      has the weighted form, the search succeeds, and at or before it. */
  lemma FirstMatchIsLeftmost(t: string, i: nat, j: nat, name: string, n: Numeral)
    requires i <= j <= |t|
    requires WellFormedName(name) && WellFormedNumeral(n)
    requires t[i..j] == PatternText(name, n)
    ensures FirstMatch(t, 0).Some?
    ensures FirstMatch(t, 0).value.start <= i
  {
    MatchAtComplete(t, i, j, name, n);
  }

  // ---------------------------------------------------------------------
  // parseFloat on the weight numeral
  // ---------------------------------------------------------------------

  function DigitValue(c: char): nat
    requires IsDigit(c)
  {
    c as nat - '0' as nat
  }

  function DigitsValue(s: string): nat
    requires AllDigits(s)
  {
    if |s| == 0 then 0 else 10 * DigitsValue(s[..|s| - 1]) + DigitValue(s[|s| - 1])
  }

  function Pow10(n: nat): (p: nat)
    ensures p >= 1
  {
    if n == 0 then 1 else 10 * Pow10(n - 1)
  }

  /** The exact decimal value of a numeral. */
  function NumeralValue(n: Numeral): real
    requires WellFormedNumeral(n)
  {
    DigitsValue(n.intDigits) as real
      + match n.fracDigits
        case None => 0.0
        case Some(f) => DigitsValue(f) as real / Pow10(|f|) as real
  }

  /** JavaScript `parseFloat`, for text made of an unsigned decimal prefix:
      the value of the leading `digits[.digits]`; NaN (None) when the text does
      not start with a digit. */
  function ParseFloat(s: string): Option<real>
  {
    var e := DigitRunEnd(s, 0);
    if e == 0 then None
    else if e < |s| && s[e] == '.' then
      var f := DigitRunEnd(s, e + 1);
      Some(DigitsValue(s[..e]) as real + DigitsValue(s[e + 1..f]) as real / Pow10(f - e - 1) as real)
    else Some(DigitsValue(s[..e]) as real)
  }

  /** A numeral the pattern admits always parses, to its exact value: the
      NaN fallback in `parseSdTags` can never be taken. */
  lemma ParseFloatNumeral(n: Numeral)
    requires WellFormedNumeral(n)
    ensures ParseFloat(NumeralText(n)) == Some(NumeralValue(n))
  {
    match n.fracDigits
    case None =>
      assert NumeralText(n) == n.intDigits;
      ParseFloatInteger(n.intDigits);
    case Some(fp) =>
      assert NumeralText(n) == n.intDigits + "." + fp;
      ParseFloatFraction(n.intDigits, fp);
  }

  lemma ParseFloatInteger(ip: string)
    requires |ip| >= 1 && AllDigits(ip)
    ensures ParseFloat(ip) == Some(DigitsValue(ip) as real)
  {
    assert ip[0..] == ip;
    DigitRunEndAll(ip, 0);
    assert ip[..|ip|] == ip;
  }

  lemma ParseFloatFraction(ip: string, fp: string)
    requires |ip| >= 1 && AllDigits(ip) && |fp| >= 1 && AllDigits(fp)
    ensures ParseFloat(ip + "." + fp) == Some(DigitsValue(ip) as real + DigitsValue(fp) as real / Pow10(|fp|) as real)
  {
    var s := ip + "." + fp;
    var e := |ip|;
    assert s[..e] == ip;
    assert s[e] == '.';
    DigitRunAt(s, 0, e);
    assert s[e + 1..] == fp;
    DigitRunEndAll(s, e + 1);
    assert s[e + 1..|s|] == fp;
  }

  lemma DigitRunEndAll(s: string, k: nat)
    requires k <= |s| && AllDigits(s[k..])
    ensures DigitRunEnd(s, k) == |s|
    decreases |s| - k
  {
    if k < |s| {
      assert s[k] == s[k..][0];
      assert s[k + 1..] == s[k..][1..];
      DigitRunEndAll(s, k + 1);
    }
  }

  /** Text with no whitespace at all is its own trim. */
  lemma TrimNoWhitespace(s: string)
    requires forall k :: 0 <= k < |s| ==> !IsJsWhitespace(s[k])
    ensures Trim(s) == s
  {
    var r := Trim(s);
    TrimSpec(s);
    var i :| TrimmedAt(s, r, i);
    if i > 0 {
      assert false;
    }
    if i + |r| < |s| {
      assert false;
    }
  }

  // ---------------------------------------------------------------------
  // parseSdTags
  // ---------------------------------------------------------------------

  /** One trimmed comma piece becomes one tag: without a weighted substring
      the piece itself with no weight; otherwise the leftmost weighted
      substring decides, its trimmed name and numeral value, and the text
      around it is dropped. */
  function ParseTag(rawTag: string): (tag: SdTag)
    ensures FirstMatch(rawTag, 0).None? ==> tag == SdTag(rawTag, None)
    ensures FirstMatch(rawTag, 0).Some? ==>
      var m := FirstMatch(rawTag, 0).value;
      tag == SdTag(Trim(m.name), Some(NumeralValue(m.numeral)))
  {
    match FirstMatch(rawTag, 0)
    case None => SdTag(rawTag, None)
    case Some(m) =>
      var rawWeight := NumeralText(m.numeral);
      TrimNoWhitespace(rawWeight);
      ParseFloatNumeral(m.numeral);
      match ParseFloat(Trim(rawWeight))
      case None => assert false; SdTag(Trim(PatternText(m.name, m.numeral)), None)
      case Some(w) => SdTag(Trim(m.name), Some(w))
  }

  /** The tags of a sequence of comma pieces, one per piece. */
  function TagsOf(pieces: seq<string>): (tags: seq<SdTag>)
    ensures |tags| == |pieces|
  {
    if |pieces| == 0 then [] else [ParseTag(Trim(pieces[0]))] + TagsOf(pieces[1..])
  }

  lemma {:induction false} TagsOfConcat(p: seq<string>, q: seq<string>)
    ensures TagsOf(p + q) == TagsOf(p) + TagsOf(q)
  {
    if |p| == 0 {
      assert p + q == q;
    } else {
      assert (p + q)[1..] == p[1..] + q;
      TagsOfConcat(p[1..], q);
    }
  }

  /** `parseSdTags`: split on every comma, trim each piece, decode each;
      one tag per comma-separated piece. */
  function ParseSdTags(str: string): (tags: seq<SdTag>)
    ensures |tags| == CountChar(str, ',') + 1
  {
    SplitCount(str, ',');
    TagsOf(Split(str, ","))
  }

  /** The comma is a hard delimiter: the tags of `a,b` are the tags of `a`
      followed by those of `b`, whatever parentheses `a` or `b` hold. */
  lemma TagsConcat(a: string, b: string)
    ensures ParseSdTags(a + "," + b) == ParseSdTags(a) + ParseSdTags(b)
  {
    assert a + "," + b == a + [','] + b;
    SplitCharConcat(a, ',', b);
    TagsOfConcat(Split(a, ","), Split(b, ","));
  }

  /** The empty text is one empty piece, hence one empty tag. */
  lemma EmptyTextTags()
    ensures ParseSdTags("") == [SdTag("", None)]
  {
    SplitWithoutChar("", ',');
    TrimNoWhitespace("");
    assert TagsOf([""]) == [ParseTag("")];
  }

  /** An empty piece (two adjacent commas) is kept as a tag with an empty
      name and no weight. */
  lemma EmptyPieceKept(a: string, b: string)
    ensures ParseSdTags(a + ",," + b) == ParseSdTags(a) + [SdTag("", None)] + ParseSdTags(b)
  {
    calc {
      ParseSdTags(a + ",," + b);
      { assert a + ",," + b == a + "," + ("," + b); }
      ParseSdTags(a + "," + ("," + b));
      { TagsConcat(a, "," + b); }
      ParseSdTags(a) + ParseSdTags("," + b);
      { assert "," + b == "" + "," + b; TagsConcat("", b); EmptyTextTags(); }
      ParseSdTags(a) + ([SdTag("", None)] + ParseSdTags(b));
    }
  }

  // ---------------------------------------------------------------------
  // parseKeyValuePairs
  // ---------------------------------------------------------------------

  /** What the chunk at `idx` of the colon-split text pushes onto the stack:
      the first chunk its trimmed self (nothing if it holds a comma), the last
      chunk its trimmed self, a middle chunk the value before its last comma
      and the key after it (nothing if it holds no comma). */
  function ChunkTokens(chunks: seq<string>, idx: nat): seq<string>
    requires idx < |chunks|
  {
    var chunk := chunks[idx];
    if idx == 0 then (if 1 < |Split(chunk, ",")| then [] else [Trim(chunk)])
    else if idx == |chunks| - 1 then [Trim(chunk)]
    else MiddleTokens(chunk)
  }

  /** A middle chunk: split on commas; with no comma nothing, otherwise
      the trimmed re-joined values and the trimmed key after the last comma. */
  function MiddleTokens(chunk: string): (tokens: seq<string>)
    ensures |tokens| == 0 || |tokens| == 2
  {
    var valuesAndKey := Split(chunk, ",");
    if |valuesAndKey| == 1 then []
    else [Trim(Join(valuesAndKey[..|valuesAndKey| - 1], ",")), Trim(valuesAndKey[|valuesAndKey| - 1])]
  }

  /** The token stack after the first `n` chunks. */
  function StackOf(chunks: seq<string>, n: nat): seq<string>
    requires n <= |chunks|
  {
    if n == 0 then [] else StackOf(chunks, n - 1) + ChunkTokens(chunks, n - 1)
  }

  function Min(a: int, b: int): int {
    if a <= b then a else b
  }

  /** `stack.slice(i, i + 2)` for every even `i`: pairs, the last one a
      single key when the stack has odd length. */
  function Pairs(stack: seq<string>): (pairs: seq<seq<string>>)
    ensures |pairs| == (|stack| + 1) / 2
  {
    seq((|stack| + 1) / 2, i requires 0 <= i < (|stack| + 1) / 2 => stack[2 * i..Min(2 * i + 2, |stack|)])
  }

  /** What `parseKeyValuePairs` returns for `text`. */
  function KeyValuePairs(text: string): seq<seq<string>> {
    var chunks := Split(text, ":");
    Pairs(StackOf(chunks, |chunks|))
  }

  /** `parseKeyValuePairs`: the colon-split text, its token stack, and the
      stack sliced into pairs. */
  method ParseKeyValuePairs(text: string) returns (result: seq<seq<string>>)
    ensures result == KeyValuePairs(text)
  {
    var chunks := Split(text, ":");
    var stripedStack := BuildStripedStack(chunks);
    result := SliceIntoPairs(stripedStack);
  }

  /** The first loop of `parseKeyValuePairs`: each chunk pushes the tokens
      ChunkTokens describes. */
  method BuildStripedStack(chunks: seq<string>) returns (stripedStack: seq<string>)
    ensures stripedStack == StackOf(chunks, |chunks|)
  {
    stripedStack := [];
    for idx := 0 to |chunks|
      invariant stripedStack == StackOf(chunks, idx)
    {
      var chunk := chunks[idx];
      var pushed: seq<string>;
      if idx == 0 {
        if 1 < |Split(chunk, ",")| {
          pushed := [];
        } else {
          pushed := [Trim(chunk)];
        }
      } else if idx == |chunks| - 1 {
        pushed := [Trim(chunk)];
      } else {
        var valuesAndKey := Split(chunk, ",");
        if |valuesAndKey| == 1 {
          pushed := [];
        } else {
          var value := Trim(Join(valuesAndKey[..|valuesAndKey| - 1], ","));
          var key := Trim(valuesAndKey[|valuesAndKey| - 1]);
          pushed := [value, key];
        }
      }
      assert pushed == ChunkTokens(chunks, idx);
      stripedStack := stripedStack + pushed;
    }
  }

  /** The second loop of `parseKeyValuePairs`: `slice(i, i + 2)` for
      `i = 0, 2, 4, ...`. */
  method SliceIntoPairs(stripedStack: seq<string>) returns (result: seq<seq<string>>)
    ensures result == Pairs(stripedStack)
  {
    result := [];
    var i := 0;
    while i < |stripedStack|
      invariant i == 2 * |result| && i <= |stripedStack| + 1
      invariant forall j :: 0 <= j < |result| ==> result[j] == stripedStack[2 * j..Min(2 * j + 2, |stripedStack|)]
    {
      result := result + [stripedStack[i..Min(i + 2, |stripedStack|)]];
      i := i + 2;
    }
    assert |result| == |Pairs(stripedStack)|;
  }

  /** A middle chunk holding a comma contributes the trimmed text before its
      last comma as a value and the trimmed text after it as a key, so a
      value may itself contain commas; a middle chunk without a comma
      contributes nothing. */
  lemma MiddleChunkTokens(chunks: seq<string>, idx: nat)
    requires 0 < idx < |chunks| - 1
    ensures var chunk := chunks[idx];
      match LastIndexOf(chunk, ',')
      case None => ChunkTokens(chunks, idx) == []
      case Some(c) => ChunkTokens(chunks, idx) == [Trim(chunk[..c]), Trim(chunk[c + 1..])]
  {
    var chunk := chunks[idx];
    var parts := Split(chunk, ",");
    SplitAtLast(chunk, ',');
    assert ChunkTokens(chunks, idx) ==
      if |parts| == 1 then [] else [Trim(Join(parts[..|parts| - 1], ",")), Trim(parts[|parts| - 1])];
  }

  /** The number of middle chunks among the first `n` that push a pair. */
  function PairsPushed(chunks: seq<string>, n: nat): nat
    requires 1 <= n <= |chunks|
  {
    if n == 1 then 0
    else PairsPushed(chunks, n - 1) + if |ChunkTokens(chunks, n - 1)| == 2 then 1 else 0
  }

  /** A first chunk pushed as its trimmed self (as one without a comma is)
      leaves an odd stack after every chunk but the last, since each middle
      chunk pushes nothing or two tokens. */
  lemma {:induction false} StackOddBeforeLast(chunks: seq<string>, n: nat)
    requires 2 <= |chunks| && 1 <= n <= |chunks| - 1
    requires StackOf(chunks, 1) == [Trim(chunks[0])]
    ensures |StackOf(chunks, n)| == 2 * PairsPushed(chunks, n) + 1
    ensures StackOf(chunks, n)[0] == Trim(chunks[0])
  {
    if n > 1 {
      StackOddBeforeLast(chunks, n - 1);
      MiddleStep(chunks, n);
    }
  }

  /** A first chunk without a comma is pushed as one trimmed token. */
  lemma FirstChunkStack(chunks: seq<string>)
    requires 2 <= |chunks| && Split(chunks[0], ",") == [chunks[0]]
    ensures StackOf(chunks, 1) == [Trim(chunks[0])]
  {
    assert StackOf(chunks, 1) == StackOf(chunks, 0) + ChunkTokens(chunks, 0);
  }

  /** A middle chunk pushes nothing or a pair on top of what is there. */
  lemma MiddleStep(chunks: seq<string>, n: nat)
    requires 2 <= n <= |chunks| - 1
    requires |StackOf(chunks, n - 1)| >= 1
    ensures |StackOf(chunks, n)| == |StackOf(chunks, n - 1)| + 2 * (PairsPushed(chunks, n) - PairsPushed(chunks, n - 1))
    ensures StackOf(chunks, n)[0] == StackOf(chunks, n - 1)[0]
  {
    var prev := StackOf(chunks, n - 1);
    var tokens := ChunkTokens(chunks, n - 1);
    assert tokens == MiddleTokens(chunks[n - 1]);
    assert StackOf(chunks, n) == prev + tokens;
  }

  /** "Steps:" in front of the tail makes "Steps" the first chunk. */
  lemma StepsChunks(rest: string)
    ensures Split("Steps:" + rest, ":") == ["Steps"] + Split(rest, ":")
  {
    assert "Steps:" + rest == "Steps" + [':'] + rest;
    SplitCharConcat("Steps", ':', rest);
    SplitWithoutChar("Steps", ':');
  }

  /** The pairs of an even stack all have a key and a value. */
  lemma EvenStackPairs(stack: seq<string>, h: nat)
    requires |stack| == 2 * h
    ensures |Pairs(stack)| == h
    ensures forall k :: 0 <= k < h ==> Pairs(stack)[k] == [stack[2 * k], stack[2 * k + 1]]
  {
    var pairs := Pairs(stack);
    forall k | 0 <= k < h ensures pairs[k] == [stack[2 * k], stack[2 * k + 1]] {
      assert pairs[k] == stack[2 * k..2 * k + 2];
    }
  }

  /** With a first chunk free of commas and at least two chunks, the final
      stack has even length and starts with the trimmed first chunk. */
  lemma StackShape(chunks: seq<string>)
    requires |chunks| >= 2 && Split(chunks[0], ",") == [chunks[0]]
    ensures |StackOf(chunks, |chunks|)| == 2 * (PairsPushed(chunks, |chunks| - 1) + 1)
    ensures StackOf(chunks, |chunks|)[0] == Trim(chunks[0])
  {
    var n := |chunks| - 1;
    FirstChunkStack(chunks);
    StackOddBeforeLast(chunks, n);
    var prev := StackOf(chunks, n);
    var tokens := ChunkTokens(chunks, n);
    assert tokens == [Trim(chunks[n])];
    assert StackOf(chunks, n + 1) == prev + tokens;
    assert StackOf(chunks, n + 1)[0] == prev[0];
  }

  /** On the settings tail as `parseSdParameters` rebuilds it ("Steps:" put
      back in front), the first chunk is exactly "Steps", so the first-chunk
      comma branch never fires; the stack has even length, every pair has a
      key and a value, and the first pair's key is "Steps". */
  lemma StepsTailPairs(rest: string)
    ensures var pairs := KeyValuePairs("Steps:" + rest);
      && |pairs| >= 1
      && (forall k :: 0 <= k < |pairs| ==> |pairs[k]| == 2)
      && pairs[0][0] == "Steps"
  {
    var chunks := Split("Steps:" + rest, ":");
    StepsChunks(rest);
    assert chunks[0] == "Steps";
    SplitWithoutChar("Steps", ',');
    TrimNoWhitespace("Steps");
    StepsPairs(chunks);
  }

  lemma StepsPairs(chunks: seq<string>)
    requires |chunks| >= 2 && Split(chunks[0], ",") == [chunks[0]] && Trim(chunks[0]) == "Steps"
    ensures var pairs := Pairs(StackOf(chunks, |chunks|));
      && |pairs| >= 1
      && (forall k :: 0 <= k < |pairs| ==> |pairs[k]| == 2)
      && pairs[0][0] == "Steps"
  {
    StackShape(chunks);
    var stack := StackOf(chunks, |chunks|);
    EvenStackPairs(stack, PairsPushed(chunks, |chunks| - 1) + 1);
  }

  // ---------------------------------------------------------------------
  // The field map: `new Map(entries)` and `get`
  // ---------------------------------------------------------------------

  /** The value `new Map` takes from one entry: the second element, or
      undefined when the entry is a lone key. */
  function EntryValue(entry: seq<string>): Option<string> {
    if |entry| >= 2 then Some(entry[1]) else None
  }

  /** Entry `j` has key `k`. */
  predicate HasKeyAt(entries: seq<seq<string>>, j: nat, k: string)
    requires j < |entries|
  {
    |entries[j]| >= 1 && entries[j][0] == k
  }

  /** `map.set(entry[0], entry[1])`; an empty entry would have the key
      undefined, which no lookup by name can hit. */
  function MapSet(m: map<string, Option<string>>, entry: seq<string>): map<string, Option<string>> {
    if |entry| == 0 then m else m[entry[0] := EntryValue(entry)]
  }

  /** `new Map(entries)` seeded with `m`: the entries set in order, first to
      last. */
  function BuildMap(m: map<string, Option<string>>, entries: seq<seq<string>>): map<string, Option<string>>
  {
    if |entries| == 0 then m
    else MapSet(BuildMap(m, entries[..|entries| - 1]), entries[|entries| - 1])
  }

  /** `map.get(k)`: undefined when absent. */
  function MapGet(m: map<string, Option<string>>, k: string): Option<string> {
    if k in m then m[k] else None
  }

  /** Reference definition: the index of the last entry with key `k`. */
  function LastEntryIndex(entries: seq<seq<string>>, k: string): (r: Option<nat>)
    ensures r.Some? ==> r.value < |entries| && HasKeyAt(entries, r.value, k)
    ensures r.Some? ==> forall j :: r.value < j < |entries| ==> !HasKeyAt(entries, j, k)
    ensures r.None? ==> forall j :: 0 <= j < |entries| ==> !HasKeyAt(entries, j, k)
  {
    if |entries| == 0 then None
    else if HasKeyAt(entries, |entries| - 1, k) then Some(|entries| - 1)
    else
      var init := entries[..|entries| - 1];
      assert forall j :: 0 <= j < |init| ==> (HasKeyAt(init, j, k) <==> HasKeyAt(entries, j, k));
      LastEntryIndex(init, k)
  }

  /** The value of the last entry with key `k`, or undefined if none. */
  function LastValue(entries: seq<seq<string>>, k: string): Option<string> {
    match LastEntryIndex(entries, k)
    case None => None
    case Some(j) => EntryValue(entries[j])
  }

  /** Building the map keeps, for every key, the value of its last entry:
      repeated keys are last-wins, and keys that never occur keep their seed. */
  lemma {:induction false} BuildMapLastWins(m: map<string, Option<string>>, entries: seq<seq<string>>, k: string)
    ensures MapGet(BuildMap(m, entries), k) ==
      if LastEntryIndex(entries, k).Some? then LastValue(entries, k) else MapGet(m, k)
  {
    if |entries| > 0 && !HasKeyAt(entries, |entries| - 1, k) {
      var init := entries[..|entries| - 1];
      BuildMapLastWins(m, init, k);
      assert LastEntryIndex(entries, k) == LastEntryIndex(init, k);
      if LastEntryIndex(init, k).Some? {
        assert init[LastEntryIndex(init, k).value] == entries[LastEntryIndex(init, k).value];
      }
    }
  }

  // ---------------------------------------------------------------------
  // parseSdParameters
  // ---------------------------------------------------------------------

  const NegativePromptMarker: string := "\nNegative prompt:"
  const StepsMarker: string := "\nSteps:"

  /** The recognised keys, in the order of the record's fields. */
  const FieldNames: seq<string> := [
    "Steps", "Sampler", "Schedule type", "CFG scale", "Seed", "Size", "Model hash",
    "Model", "Denoising strength", "Clip skip", "Hires CFG Scale", "Hires upscale",
    "Hires steps", "Hires upscaler"]

  /** The record field that holds recognised key number `i`. */
  function Field(p: SdParameters, i: nat): Option<string>
    requires i < |FieldNames|
  {
    [p.steps, p.sampler, p.scheduleType, p.cfgScale, p.seed, p.size, p.modelHash,
     p.model, p.denoisingStrength, p.clipSkip, p.hiresCfgScale, p.hiresUpscale,
     p.hiresSteps, p.hiresUpscaler][i]
  }

  /** Looks up the fourteen recognised keys; all other keys are ignored. */
  function FieldsFrom(positive: seq<SdTag>, negative: seq<SdTag>, fieldMap: map<string, Option<string>>): (p: SdParameters)
    ensures p.positiveSdTags == positive && p.negativeSdTags == negative
    ensures forall i :: 0 <= i < |FieldNames| ==> Field(p, i) == MapGet(fieldMap, FieldNames[i])
  {
    SdParameters(positive, negative,
      MapGet(fieldMap, "Steps"), MapGet(fieldMap, "Sampler"), MapGet(fieldMap, "Schedule type"),
      MapGet(fieldMap, "CFG scale"), MapGet(fieldMap, "Seed"), MapGet(fieldMap, "Size"),
      MapGet(fieldMap, "Model hash"), MapGet(fieldMap, "Model"), MapGet(fieldMap, "Denoising strength"),
      MapGet(fieldMap, "Clip skip"), MapGet(fieldMap, "Hires CFG Scale"), MapGet(fieldMap, "Hires upscale"),
      MapGet(fieldMap, "Hires steps"), MapGet(fieldMap, "Hires upscaler"))
  }

  /** `parseSdParameters`: requires each marker exactly once, decodes the
      two tag lists, and reads the fields from the rebuilt settings tail. */
  function ParseSdParameters(parameter: string): Result<SdParameters, ParseError> {
    var ppSeparated := Split(parameter, NegativePromptMarker);
    if |ppSeparated| != 2 then Err(NegativePromptNotFound)
    else
      var npSeparated := Split(ppSeparated[1], StepsMarker);
      if |npSeparated| != 2 then Err(StepsNotFound)
      else
        var positiveSdTags := ParseSdTags(ppSeparated[0]);
        var negativeSdTags := ParseSdTags(npSeparated[0]);
        var fieldEntries := KeyValuePairs("Steps:" + npSeparated[1]);
        Ok(FieldsFrom(positiveSdTags, negativeSdTags, BuildMap(map[], fieldEntries)))
  }

  /** Splitting into exactly two pieces cuts the text at the first occurrence. */
  lemma SplitTwoPieces(s: string, sep: string)
    requires |sep| > 0 && |Split(s, sep)| == 2
    ensures Find(s, sep).Some?
    ensures var i := Find(s, sep).value;
      Split(s, sep) == [s[..i], s[i + |sep|..]]
  {
    var i := Find(s, sep).value;
    var rest := s[i + |sep|..];
    assert Split(s, sep) == [s[..i]] + Split(rest, sep);
    assert |Split(rest, sep)| == 1;
  }

  /** The text before the first occurrence of `marker`. */
  function Before(s: string, marker: string): string
    requires |marker| > 0 && Find(s, marker).Some?
  {
    s[..Find(s, marker).value]
  }

  /** The text after the first occurrence of `marker`. */
  function After(s: string, marker: string): string
    requires |marker| > 0 && Find(s, marker).Some?
  {
    s[Find(s, marker).value + |marker|..]
  }

  /** `parseSdParameters` throws its first error exactly when
      "\nNegative prompt:" does not occur exactly once. */
  lemma NegativePromptError(parameter: string)
    ensures ParseSdParameters(parameter) == Err(NegativePromptNotFound) <==> !OccursOnce(parameter, NegativePromptMarker)
  {
    SplitTwoIffOnce(parameter, NegativePromptMarker);
  }

  /** Once the first marker occurs once, `parseSdParameters` throws its
      second error exactly when "\nSteps:" does not occur exactly once in
      the text after it. */
  lemma StepsError(parameter: string)
    requires OccursOnce(parameter, NegativePromptMarker)
    ensures ParseSdParameters(parameter) == Err(StepsNotFound) <==>
      !OccursOnce(After(parameter, NegativePromptMarker), StepsMarker)
  {
    SplitTwoIffOnce(parameter, NegativePromptMarker);
    SplitTwoPieces(parameter, NegativePromptMarker);
    SplitTwoIffOnce(After(parameter, NegativePromptMarker), StepsMarker);
  }

  /** With both markers present once, the record holds the tags of the text
      before "\nNegative prompt:", the tags of the text between the markers,
      and the fields of the map built from the settings tail with "Steps:"
      put back in front. */
  lemma ParsedRecord(parameter: string)
    requires OccursOnce(parameter, NegativePromptMarker)
    requires OccursOnce(After(parameter, NegativePromptMarker), StepsMarker)
    ensures var after := After(parameter, NegativePromptMarker);
      ParseSdParameters(parameter) == Ok(FieldsFrom(
        ParseSdTags(Before(parameter, NegativePromptMarker)),
        ParseSdTags(Before(after, StepsMarker)),
        BuildMap(map[], KeyValuePairs("Steps:" + After(after, StepsMarker)))))
  {
    SplitTwoIffOnce(parameter, NegativePromptMarker);
    SplitTwoPieces(parameter, NegativePromptMarker);
    var after := After(parameter, NegativePromptMarker);
    SplitTwoIffOnce(after, StepsMarker);
    SplitTwoPieces(after, StepsMarker);
  }

  /** Each recognised field is the value of the last pair with that key in
      the settings tail (undefined when there is none); all other keys are
      ignored. */
  lemma ParsedFields(parameter: string)
    requires OccursOnce(parameter, NegativePromptMarker)
    requires OccursOnce(After(parameter, NegativePromptMarker), StepsMarker)
    ensures ParseSdParameters(parameter).Ok?
    ensures var tail := After(After(parameter, NegativePromptMarker), StepsMarker);
      forall f :: 0 <= f < |FieldNames| ==>
        Field(ParseSdParameters(parameter).value, f) == LastValue(KeyValuePairs("Steps:" + tail), FieldNames[f])
  {
    ParsedRecord(parameter);
    var tail := After(After(parameter, NegativePromptMarker), StepsMarker);
    var entries := KeyValuePairs("Steps:" + tail);
    forall f | 0 <= f < |FieldNames|
      ensures MapGet(BuildMap(map[], entries), FieldNames[f]) == LastValue(entries, FieldNames[f])
    {
      BuildMapLastWins(map[], entries, FieldNames[f]);
    }
  }

  /** A successful parse always has the "Steps" field: the rebuilt tail
      starts with the pair ["Steps", value], and every pair has a value. */
  lemma StepsFieldSet(parameter: string)
    requires ParseSdParameters(parameter).Ok?
    ensures ParseSdParameters(parameter).value.steps.Some?
  {
    NegativePromptError(parameter);
    StepsError(parameter);
    var tail := After(After(parameter, NegativePromptMarker), StepsMarker);
    var entries := KeyValuePairs("Steps:" + tail);
    ParsedFields(parameter);
    StepsTailPairs(tail);
    assert HasKeyAt(entries, 0, "Steps");
    assert Field(ParseSdParameters(parameter).value, 0) == LastValue(entries, "Steps");
  }
}
