/** Values and string operations shared by the TypeScript and Rust modules:
    Option/Result, and the exact JavaScript semantics of `split`, `join`,
    `trim`, `lastIndexOf`, `startsWith` and `endsWith` on strings. */
module Common {

  datatype Option<+T> = None | Some(value: T)

  datatype Result<+T, +E> = Ok(value: T) | Err(error: E)

  /** `sep` occurs in `s` starting at index `i`. */
  predicate OccursAt(s: string, sep: string, i: int) {
    0 <= i && i + |sep| <= |s| && forall k :: 0 <= k < |sep| ==> s[i + k] == sep[k]
  }

  /** `sep` occurs in `s` at exactly one index. */
  ghost predicate OccursOnce(s: string, sep: string) {
    exists i :: OccursAt(s, sep, i) && forall j :: OccursAt(s, sep, j) ==> j == i
  }

  /** Occurrences in a suffix are occurrences in the whole text, shifted. */
  lemma OccursInSuffix(s: string, sep: string, d: nat, j: int)
    requires d <= |s|
    ensures OccursAt(s[d..], sep, j) <==> j >= 0 && OccursAt(s, sep, d + j)
  {
    if 0 <= j && d + j + |sep| <= |s| {
      if OccursAt(s[d..], sep, j) {
        forall k | 0 <= k < |sep| ensures s[d + j + k] == sep[k] {
          assert s[d..][j + k] == s[d + j + k];
        }
      }
      if OccursAt(s, sep, d + j) {
        forall k | 0 <= k < |sep| ensures s[d..][j + k] == sep[k] {
          assert s[d..][j + k] == s[d + j + k];
        }
      }
    }
  }

  /** An occurrence cuts the text into before, separator and after. */
  lemma OccursAtCut(s: string, sep: string, i: int)
    requires OccursAt(s, sep, i)
    ensures s[i..i + |sep|] == sep
    ensures s == s[..i] + sep + s[i + |sep|..]
  {
    assert s[i..i + |sep|] == sep;
    assert s == s[..i] + s[i..i + |sep|] + s[i + |sep|..];
  }

  /** Occurrences in a prefix are occurrences in the whole text. */
  lemma OccursInPrefix(s: string, sep: string, n: nat, j: int)
    requires n <= |s|
    ensures OccursAt(s[..n], sep, j) <==> OccursAt(s, sep, j) && j + |sep| <= n
  {
    if 0 <= j && j + |sep| <= n {
      if OccursAt(s[..n], sep, j) {
        forall k | 0 <= k < |sep| ensures s[j + k] == sep[k] {
          assert s[..n][j + k] == s[j + k];
        }
      }
      if OccursAt(s, sep, j) {
        forall k | 0 <= k < |sep| ensures s[..n][j + k] == sep[k] {
          assert s[..n][j + k] == s[j + k];
        }
      }
    }
  }

  /** JavaScript `indexOf`: the leftmost occurrence of `sep` in `s`. */
  function Find(s: string, sep: string): (r: Option<nat>)
    requires |sep| > 0
    ensures r.Some? ==> OccursAt(s, sep, r.value)
    ensures r.Some? ==> forall j :: 0 <= j < r.value ==> !OccursAt(s, sep, j)
    ensures r.None? ==> forall j :: !OccursAt(s, sep, j)
    decreases |s|
  {
    if |s| < |sep| then None
    else if OccursAt(s, sep, 0) then Some(0)
    else
      var rest := Find(s[1..], sep);
      forall j ensures OccursAt(s, sep, j) <==> j >= 1 && OccursAt(s[1..], sep, j - 1) {
        OccursInSuffix(s, sep, 1, j - 1);
      }
      match rest
      case None => None
      case Some(i) => Some(i + 1)
  }

  /** JavaScript `s.split(sep)` for a non-empty separator: the pieces
      between the non-overlapping occurrences of `sep`, scanning left to
      right; `n` occurrences give `n + 1` pieces, empty pieces included. */
  function Split(s: string, sep: string): (parts: seq<string>)
    requires |sep| > 0
    ensures |parts| >= 1
    decreases |s|
  {
    match Find(s, sep)
    case None => [s]
    case Some(i) => [s[..i]] + Split(s[i + |sep|..], sep)
  }

  /** No piece of a split contains the separator. */
  lemma {:induction false} SplitPiecesFree(s: string, sep: string)
    requires |sep| > 0
    ensures forall k :: 0 <= k < |Split(s, sep)| ==> Find(Split(s, sep)[k], sep).None?
    decreases |s|
  {
    match Find(s, sep)
    case None =>
    case Some(i) =>
      var head := s[..i];
      var rest := s[i + |sep|..];
      assert Find(head, sep).None? by {
        forall j | OccursAt(head, sep, j) ensures false {
          OccursInPrefix(s, sep, i, j);
        }
      }
      SplitPiecesFree(rest, sep);
      assert Split(s, sep) == [head] + Split(rest, sep);
  }

  /** JavaScript `parts.join(sep)`. */
  function Join(parts: seq<string>, sep: string): string
  {
    if |parts| == 0 then ""
    else if |parts| == 1 then parts[0]
    else parts[0] + sep + Join(parts[1..], sep)
  }

  /** Splitting and re-joining with the same separator gives back the text. */
  lemma {:induction false} JoinSplit(s: string, sep: string)
    requires |sep| > 0
    ensures Join(Split(s, sep), sep) == s
    decreases |s|
  {
    match Find(s, sep)
    case None =>
    case Some(i) =>
      var rest := s[i + |sep|..];
      var tail := Split(rest, sep);
      JoinSplit(rest, sep);
      assert Split(s, sep) == [s[..i]] + tail;
      assert ([s[..i]] + tail)[1..] == tail;
      assert Join([s[..i]] + tail, sep) == s[..i] + sep + Join(tail, sep);
      OccursAtCut(s, sep, i);
  }

  /** With a separator whose first character does not reappear in it (as for
      "\nNegative prompt:" and "\nSteps:"), `split` yields exactly two pieces
      iff the separator occurs exactly once. */
  lemma {:induction false} SplitTwoIffOnce(s: string, sep: string)
    requires |sep| > 0
    requires forall k :: 1 <= k < |sep| ==> sep[k] != sep[0]
    ensures |Split(s, sep)| == 2 <==> OccursOnce(s, sep)
  {
    match Find(s, sep)
    case None =>
      assert |Split(s, sep)| == 1;
      assert !OccursOnce(s, sep);
    case Some(i) =>
      var rest := s[i + |sep|..];
      assert Split(s, sep) == [s[..i]] + Split(rest, sep);
      OnceIffNoSecond(s, sep, i);
  }

  /** After the leftmost occurrence, the rest holds no further occurrence
      exactly when the separator occurs once. */
  lemma OnceIffNoSecond(s: string, sep: string, i: nat)
    requires |sep| > 0
    requires forall k :: 1 <= k < |sep| ==> sep[k] != sep[0]
    requires Find(s, sep) == Some(i)
    ensures Find(s[i + |sep|..], sep).None? <==> OccursOnce(s, sep)
  {
    var rest := s[i + |sep|..];
    match Find(rest, sep)
    case None =>
      forall j | OccursAt(s, sep, j) ensures j == i {
        if j > i {
          OccurrencesDisjoint(s, sep, i, j);
          OccursInSuffix(s, sep, i + |sep|, j - i - |sep|);
          assert false;
        }
      }
      assert OccursOnce(s, sep);
    case Some(k) =>
      OccursInSuffix(s, sep, i + |sep|, k);
      assert OccursAt(s, sep, i + |sep| + k);
  }

  /** Two occurrences of a separator whose first character does not reappear
      in it cannot overlap. */
  lemma OccurrencesDisjoint(s: string, sep: string, i: int, j: int)
    requires forall k :: 1 <= k < |sep| ==> sep[k] != sep[0]
    requires OccursAt(s, sep, i) && OccursAt(s, sep, j) && i < j
    ensures i + |sep| <= j
  {
    if j < i + |sep| {
      OccursAtChar(s, sep, i, j - i);
      assert false;
    }
  }

  lemma OccursAtChar(s: string, sep: string, i: int, k: int)
    requires OccursAt(s, sep, i) && 0 <= k < |sep|
    ensures s[i + k] == sep[k]
  {
  }

  /** A text without the character is a single piece. */
  lemma SplitWithoutChar(s: string, c: char)
    requires forall k :: 0 <= k < |s| ==> s[k] != c
    ensures Find(s, [c]).None? && Split(s, [c]) == [s]
  {
    if Find(s, [c]).Some? {
      OccursChar(s, c, Find(s, [c]).value);
      assert false;
    }
  }

  /** The leftmost occurrence is characterised by its two properties. */
  lemma FindIs(s: string, sep: string, i: nat)
    requires |sep| > 0 && OccursAt(s, sep, i)
    requires forall j :: 0 <= j < i ==> !OccursAt(s, sep, j)
    ensures Find(s, sep) == Some(i)
  {
  }

  /** Number of occurrences of a character. */
  function CountChar(s: string, c: char): nat {
    multiset(s)[c]
  }

  /** Splitting on a character gives one more piece than it has occurrences. */
  lemma {:induction false} SplitCount(s: string, c: char)
    ensures |Split(s, [c])| == CountChar(s, c) + 1
    decreases |s|
  {
    match Find(s, [c])
    case None =>
      forall k | 0 <= k < |s| ensures s[k] != c { OccursChar(s, c, k); }
      assert c !in multiset(s);
    case Some(f) =>
      var rest := s[f + 1..];
      OccursChar(s, c, f);
      SplitCount(rest, c);
      forall k | 0 <= k < f ensures s[..f][k] != c { OccursChar(s, c, k); }
      assert c !in multiset(s[..f]);
      assert s == s[..f] + [c] + rest;
      assert multiset(s) == multiset(s[..f]) + multiset([c]) + multiset(rest);
  }

  /** A character separator is a hard delimiter: splitting `a + c + b` on `c`
      splits `a` and `b` independently. */
  lemma {:induction false} SplitCharConcat(a: string, c: char, b: string)
    ensures Split(a + [c] + b, [c]) == Split(a, [c]) + Split(b, [c])
    decreases |a|
  {
    var s := a + [c] + b;
    if Find(a, [c]).None? {
      FindCharConcatNone(a, c, b);
      SplitAtFirst(s, [c], |a|);
      ConcatSlices(a, c, b, |a|);
      calc {
        Split(s, [c]);
        [s[..|a|]] + Split(s[|a| + 1..], [c]);
        [a[..|a|]] + Split(b, [c]);
        { assert a[..|a|] == a; }
        Split(a, [c]) + Split(b, [c]);
      }
    } else {
      var f := Find(a, [c]).value;
      var rest := a[f + 1..];
      FindCharConcatSome(a, c, b, f);
      SplitAtFirst(s, [c], f);
      SplitAtFirst(a, [c], f);
      ConcatSlices(a, c, b, f);
      calc {
        Split(s, [c]);
        [a[..f]] + Split(rest + [c] + b, [c]);
        { SplitCharConcat(rest, c, b); }
        [a[..f]] + (Split(rest, [c]) + Split(b, [c]));
        ([a[..f]] + Split(rest, [c])) + Split(b, [c]);
      }
    }
  }

  lemma ConcatSlices(a: string, c: char, b: string, f: nat)
    requires f <= |a|
    ensures (a + [c] + b)[..f] == a[..f]
    ensures f < |a| ==> (a + [c] + b)[f + 1..] == a[f + 1..] + [c] + b
    ensures f == |a| ==> (a + [c] + b)[f + 1..] == b
  {
  }

  lemma SplitAtFirst(s: string, sep: string, i: nat)
    requires |sep| > 0 && Find(s, sep) == Some(i)
    ensures Split(s, sep) == [s[..i]] + Split(s[i + |sep|..], sep)
  {
  }

  /** Without a `c` in `a`, the first `c` of `a + c + b` is the one added. */
  lemma FindCharConcatNone(a: string, c: char, b: string)
    requires Find(a, [c]).None?
    ensures Find(a + [c] + b, [c]) == Some(|a|)
  {
    var s := a + [c] + b;
    forall j | 0 <= j < |a| ensures !OccursAt(s, [c], j) {
      OccursChar(s, c, j);
      OccursChar(a, c, j);
    }
    OccursChar(s, c, |a|);
    FindIs(s, [c], |a|);
  }

  /** The first `c` of `a` is the first one of `a + c + b`. */
  lemma FindCharConcatSome(a: string, c: char, b: string, f: nat)
    requires Find(a, [c]) == Some(f)
    ensures Find(a + [c] + b, [c]) == Some(f)
  {
    var s := a + [c] + b;
    forall j | 0 <= j < f ensures !OccursAt(s, [c], j) {
      OccursChar(s, c, j);
      OccursChar(a, c, j);
    }
    OccursChar(s, c, f);
    OccursChar(a, c, f);
    FindIs(s, [c], f);
  }

  /** JavaScript `lastIndexOf` / Rust `rfind` for one character. */
  function LastIndexOf(s: string, c: char): (r: Option<nat>)
    ensures r.Some? ==> r.value < |s| && s[r.value] == c
    ensures r.Some? ==> forall k :: r.value < k < |s| ==> s[k] != c
    ensures r.None? ==> forall k :: 0 <= k < |s| ==> s[k] != c
  {
    if |s| == 0 then None
    else if s[|s| - 1] == c then Some(|s| - 1)
    else LastIndexOf(s[..|s| - 1], c)
  }

  /** A one-character separator occurs exactly where that character is. */
  lemma OccursChar(s: string, c: char, i: int)
    ensures OccursAt(s, [c], i) <==> 0 <= i < |s| && s[i] == c
  {
    if 0 <= i < |s| {
      assert OccursAt(s, [c], i) ==> s[i + 0] == [c][0];
    }
  }

  /** The last occurrence is characterised by its two properties. */
  lemma LastIndexOfIs(s: string, c: char, i: nat)
    requires i < |s| && s[i] == c
    requires forall k :: i < k < |s| ==> s[k] != c
    ensures LastIndexOf(s, c) == Some(i)
  {
  }

  /** After splitting on one character, the last piece is the text after the
      last occurrence of that character (the whole text when it is absent),
      and the other pieces re-joined are the text before it. */
  lemma {:induction false} SplitAtLast(s: string, c: char)
    ensures var parts := Split(s, [c]);
      match LastIndexOf(s, c)
      case None => parts == [s]
      case Some(i) =>
        |parts| >= 2 && parts[|parts| - 1] == s[i + 1..] && Join(parts[..|parts| - 1], [c]) == s[..i]
    decreases |s|
  {
    var parts := Split(s, [c]);
    match Find(s, [c])
    case None =>
      if LastIndexOf(s, c).Some? {
        OccursChar(s, c, LastIndexOf(s, c).value);
      }
    case Some(f) =>
      var rest := s[f + 1..];
      var tail := Split(rest, [c]);
      assert parts == [s[..f]] + tail;
      OccursChar(s, c, f);
      SplitAtLast(rest, c);
      match LastIndexOf(rest, c)
      case None =>
        LastIndexOfIs(s, c, f);
        assert tail == [rest];
        assert parts[..|parts| - 1] == [s[..f]];
      case Some(i') =>
        var i := f + 1 + i';
        LastIndexOfIs(s, c, i);
        assert rest[i' + 1..] == s[i + 1..];
        SplitAtLastJoin(s, c, f, i', tail);
  }

  lemma SplitAtLastJoin(s: string, c: char, f: nat, i': nat, tail: seq<string>)
    requires f < |s| && s[f] == c && f + 1 + i' <= |s|
    requires |tail| >= 2 && Join(tail[..|tail| - 1], [c]) == s[f + 1..][..i']
    ensures Join(([s[..f]] + tail)[..|tail|], [c]) == s[..f + 1 + i']
  {
    var init := tail[..|tail| - 1];
    assert ([s[..f]] + tail)[..|tail|] == [s[..f]] + init;
    assert ([s[..f]] + init)[1..] == init;
    assert s[..f + 1 + i'] == s[..f] + [c] + s[f + 1..][..i'];
  }

  /** The whitespace and line terminators JavaScript's `String.prototype.trim`
      strips (ECMAScript WhiteSpace and LineTerminator, including the Unicode
      space separators). */
  predicate IsJsWhitespace(c: char) {
    c == '\t' || c == '\n' || c == '\U{000B}' || c == '\U{000C}' || c == '\r' || c == ' '
    || c == '\U{00A0}' || c == '\U{1680}' || ('\U{2000}' <= c <= '\U{200A}')
    || c == '\U{2028}' || c == '\U{2029}' || c == '\U{202F}' || c == '\U{205F}'
    || c == '\U{3000}' || c == '\U{FEFF}'
  }

  /** The first position at or after `i` that is not whitespace. */
  function SkipWhitespace(s: string, i: nat): (r: nat)
    requires i <= |s|
    ensures i <= r <= |s|
    ensures forall k :: i <= k < r ==> IsJsWhitespace(s[k])
    ensures r < |s| ==> !IsJsWhitespace(s[r])
    decreases |s| - i
  {
    if i < |s| && IsJsWhitespace(s[i]) then SkipWhitespace(s, i + 1) else i
  }

  /** The end left after dropping whitespace before position `j`, going no
      lower than `lo`. */
  function SkipWhitespaceBack(s: string, lo: nat, j: nat): (r: nat)
    requires lo <= j <= |s|
    ensures lo <= r <= j
    ensures forall k :: r <= k < j ==> IsJsWhitespace(s[k])
    ensures r > lo ==> !IsJsWhitespace(s[r - 1])
    decreases j
  {
    if j > lo && IsJsWhitespace(s[j - 1]) then SkipWhitespaceBack(s, lo, j - 1) else j
  }

  /** JavaScript `trim`: the slice of `s` left after dropping whitespace at
      both ends. */
  function Trim(s: string): string
  {
    var start := SkipWhitespace(s, 0);
    s[start..SkipWhitespaceBack(s, start, |s|)]
  }

  /** `trim` strips exactly the leading and trailing whitespace: the result
      is a slice of the text whose ends are not whitespace and outside which
      everything is whitespace. */
  lemma TrimSpec(s: string)
    ensures var r := Trim(s);
      |r| > 0 ==> !IsJsWhitespace(r[0]) && !IsJsWhitespace(r[|r| - 1])
    ensures exists i :: TrimmedAt(s, Trim(s), i)
  {
    var start := SkipWhitespace(s, 0);
    var end := SkipWhitespaceBack(s, start, |s|);
    assert TrimmedAt(s, Trim(s), start);
  }

  /** `r` is the slice of `s` at offset `i`, and everything of `s` outside
      that slice is whitespace. */
  predicate TrimmedAt(s: string, r: string, i: int) {
    && 0 <= i <= |s| - |r|
    && r == s[i..i + |r|]
    && (forall k :: 0 <= k < i ==> IsJsWhitespace(s[k]))
    && (forall k :: i + |r| <= k < |s| ==> IsJsWhitespace(s[k]))
  }

  /** ASCII lower-casing of one character. */
  function LowerChar(c: char): char {
    if 'A' <= c <= 'Z' then (c as int - 'A' as int + 'a' as int) as char else c
  }

  /** `toLowerCase` / `to_lowercase`, on the ASCII letters. */
  function ToLower(s: string): (r: string)
    ensures |r| == |s|
    ensures forall k :: 0 <= k < |s| ==> r[k] == LowerChar(s[k])
  {
    seq(|s|, k requires 0 <= k < |s| => LowerChar(s[k]))
  }

  lemma ToLowerIdempotent(s: string)
    ensures ToLower(ToLower(s)) == ToLower(s)
  {
  }

  lemma ToLowerSuffix(s: string, i: nat)
    requires i <= |s|
    ensures ToLower(s)[i..] == ToLower(s[i..])
  {
  }

  /** Lower-casing keeps every non-letter, the dot in particular, where it is. */
  lemma LowerCharKeepsDot(c: char)
    ensures LowerChar(c) == '.' <==> c == '.'
  {
  }

  predicate StartsWith(s: string, prefix: string) {
    |prefix| <= |s| && s[..|prefix|] == prefix
  }

  predicate EndsWith(s: string, suffix: string) {
    |suffix| <= |s| && s[|s| - |suffix|..] == suffix
  }
}
