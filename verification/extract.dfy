/**
  The extraction core of `scripts/extract.js`: cutting the palette literal out of the
  upstream script, parsing numbered intent labels, and building the sorted,
  reference-checked palette from the evaluated literal.
*/
module Extract {
  import opened Wrappers
  import opened Strings
  import opened Sorting
  import opened Palette

  // ---------------------------------------------------------------------------
  // Cutting the palette literal out of the script source
  // ---------------------------------------------------------------------------

  /** The text that introduces the palette literal in the upstream script. */
  const Marker: string := "m={sections:"

  /** Index, within the marker, of the brace that opens the literal. */
  const MarkerBrace: nat := 2

  datatype ExtractError =
    | MarkerNotFound    // "Could not locate palette data in script source."
    | UnbalancedBraces  // "Failed to extract palette data block."

  /** The number of times `c` occurs in `s`. */
  function Count(s: string, c: char): nat {
    if s == [] then 0 else Count(s[..|s| - 1], c) + (if s[|s| - 1] == c then 1 else 0)
  }

  /** Brace depth after scanning `s` from depth zero. */
  function Depth(s: string): int {
    Count(s, '{') - Count(s, '}')
  }

  /**
    `rest[..n]` is a complete literal: it ends with a `}` that brings the depth back to
    zero, and every prefix that reaches past the marker's own `{` is still open.
  */
  ghost predicate ClosesAt(rest: string, n: nat) {
    && MarkerBrace < n <= |rest|
    && rest[n - 1] == '}'
    && Depth(rest[..n]) == 0
    && forall len :: MarkerBrace < len < n ==> Depth(rest[..len]) > 0
  }

  /** No prefix of `rest` reaching past the marker's `{` brings the depth back to zero. */
  ghost predicate NeverCloses(rest: string) {
    forall len :: MarkerBrace < len <= |rest| ==> Depth(rest[..len]) > 0
  }

  /** A literal can close at most once, and not at all when it never closes. */
  lemma SnippetIsUnique(rest: string, n: nat, n': nat)
    requires ClosesAt(rest, n)
    ensures ClosesAt(rest, n') ==> n' == n
    ensures !NeverCloses(rest)
  {
  }

  lemma DepthStep(s: string, k: nat)
    requires k < |s|
    ensures Depth(s[..k + 1]) == Depth(s[..k]) + (if s[k] == '{' then 1 else if s[k] == '}' then -1 else 0)
  {
    assert s[..k + 1][..k] == s[..k];
  }

  /** Every prefix of `rest` that reaches past the marker's `{`, up to length `k`, is open. */
  ghost predicate OpenUpTo(rest: string, k: nat)
    requires k <= |rest|
  {
    forall len :: MarkerBrace < len <= k ==> Depth(rest[..len]) > 0
  }

  lemma OpenUpToStep(rest: string, k: nat)
    requires k < |rest|
    requires OpenUpTo(rest, k)
    requires k + 1 > MarkerBrace ==> Depth(rest[..k + 1]) > 0
    ensures OpenUpTo(rest, k + 1)
  {
  }

  /** What the scan needs to know about text that starts with the marker. */
  lemma MarkerPrefix(rest: string)
    requires |Marker| <= |rest| && rest[..|Marker|] == Marker
    ensures forall k :: 0 <= k < |Marker| ==> rest[k] != '}'
    ensures rest[MarkerBrace] == '{'
    ensures Depth(rest[..MarkerBrace]) == 0
  {
    assert forall k :: 0 <= k < |Marker| ==> rest[k] == Marker[k];
    DepthStep(rest, 0);
    DepthStep(rest, 1);
  }

  /** A `}` that brings an open literal back to depth zero closes it. */
  lemma ClosingBrace(rest: string, k: nat)
    requires |Marker| <= |rest| && rest[..|Marker|] == Marker
    requires k < |rest| && rest[k] == '}' && Depth(rest[..k]) == 1
    requires OpenUpTo(rest, k)
    ensures ClosesAt(rest, k + 1)
  {
    MarkerPrefix(rest);
    DepthStep(rest, k);
  }

  /** The literal found in the text from the marker on, as a slice of the whole source. */
  lemma SliceOfRest(source: string, start: nat, n: nat)
    requires start + n <= |source| && |Marker| <= n
    requires source[start..][..|Marker|] == Marker
    ensures source[start..start + n] == source[start..][..n]
    ensures source[start..start + n][..|Marker|] == Marker
  {
    var snippet := source[start..start + n];
    forall k | 0 <= k < |Marker| ensures snippet[k] == Marker[k] {
      assert source[start..][..|Marker|][k] == source[start + k];
    }
  }

  /**
    The scanning loop of `extractPaletteSnippet` over `rest`, the source from the
    marker on: the length of the literal, or nothing when the braces never balance.
  */
  method ScanLiteral(rest: string) returns (n: Option<nat>)
    requires |Marker| <= |rest| && rest[..|Marker|] == Marker
    ensures n.Some? ==> |Marker| < n.value && ClosesAt(rest, n.value)
    ensures n.None? ==> NeverCloses(rest)
  {
    MarkerPrefix(rest);
    var depth := 0;
    for i := 0 to |rest|
      invariant depth == Depth(rest[..i])
      invariant i <= MarkerBrace ==> depth == 0
      invariant OpenUpTo(rest, i)
    {
      DepthStep(rest, i);
      var c := rest[i];
      if c == '{' {
        depth := depth + 1;
      } else if c == '}' {
        depth := depth - 1;
        if depth == 0 {
          ClosingBrace(rest, i);
          return Some(i + 1);
        }
      }
      OpenUpToStep(rest, i);
    }
    return None;
  }

  /**
    `extractPaletteSnippet`: from the first occurrence of the marker, scan forward
    counting braces and return the text up to the brace that closes the literal.
  */
  method ExtractPaletteSnippet(source: string) returns (r: Result<string, ExtractError>)
    ensures r == Failure(MarkerNotFound) <==> IndexOf(source, Marker).None?
    ensures r.Success? ==>
      var start := IndexOf(source, Marker).value;
      && start + |r.value| <= |source|
      && r.value == source[start..start + |r.value|]
      && |Marker| < |r.value| && r.value[..|Marker|] == Marker
      && ClosesAt(source[start..], |r.value|)
    ensures r == Failure(UnbalancedBraces) ==> NeverCloses(source[IndexOf(source, Marker).value..])
  {
    var found := IndexOf(source, Marker);
    if found.None? {
      return Failure(MarkerNotFound);
    }
    var start := found.value;
    var rest := source[start..];
    assert rest[..|Marker|] == source[start..start + |Marker|];
    var n := ScanLiteral(rest);
    if n.None? {
      return Failure(UnbalancedBraces);
    }
    SliceOfRest(source, start, n.value);
    return Success(source[start..start + n.value]);
  }

  // ---------------------------------------------------------------------------
  // Numbered intent labels: /^\s*(\d+)\.\s*(.+)$/
  // ---------------------------------------------------------------------------

  /** What `\s` matches: the ECMAScript WhiteSpace and LineTerminator characters. */
  predicate IsSpace(c: char) {
    || c == '\t' || c == '\n' || c == '\U{B}' || c == '\U{C}' || c == '\r' || c == ' '
    || c == '\U{A0}' || c == '\U{1680}' || ('\U{2000}' <= c <= '\U{200A}')
    || c == '\U{2028}' || c == '\U{2029}' || c == '\U{202F}' || c == '\U{205F}'
    || c == '\U{3000}' || c == '\U{FEFF}'
  }

  /** The characters `.` does not match. */
  predicate IsLineTerminator(c: char) {
    c == '\n' || c == '\r' || c == '\U{2028}' || c == '\U{2029}'
  }

  /** What `\d` matches. */
  predicate IsDigit(c: char) {
    '0' <= c <= '9'
  }

  predicate AllSpace(s: string) {
    forall n :: 0 <= n < |s| ==> IsSpace(s[n])
  }

  predicate AllDigits(s: string) {
    forall n :: 0 <= n < |s| ==> IsDigit(s[n])
  }

  predicate NoLineTerminator(s: string) {
    forall n :: 0 <= n < |s| ==> !IsLineTerminator(s[n])
  }

  /**
    One way the label pattern can match `s`: whitespace `s[..i]`, the digits `s[i..j]`,
    a dot at `j`, whitespace `s[j + 1..k]`, and the title `s[k..]`, which is not empty
    and holds no line terminator.
  */
  ghost predicate LabelSplit(s: string, i: nat, j: nat, k: nat) {
    && i < j < k < |s|
    && AllSpace(s[..i])
    && AllDigits(s[i..j])
    && s[j] == '.'
    && AllSpace(s[j + 1..k])
    && NoLineTerminator(s[k..])
  }

  /** The label pattern matches `s` at all. */
  ghost predicate MatchesLabel(s: string) {
    exists i: nat, j: nat, k: nat :: LabelSplit(s, i, j, k)
  }

  /** The end of the run of whitespace that starts at `from`. */
  function SpaceEnd(s: string, from: nat): (e: nat)
    requires from <= |s|
    decreases |s| - from
    ensures from <= e <= |s| && AllSpace(s[from..e]) && (e < |s| ==> !IsSpace(s[e]))
  {
    if from < |s| && IsSpace(s[from]) then
      var e := SpaceEnd(s, from + 1);
      assert s[from..e] == [s[from]] + s[from + 1..e];
      e
    else from
  }

  /** The end of the run of digits that starts at `from`. */
  function DigitEnd(s: string, from: nat): (e: nat)
    requires from <= |s|
    decreases |s| - from
    ensures from <= e <= |s| && AllDigits(s[from..e]) && (e < |s| ==> !IsDigit(s[e]))
  {
    if from < |s| && IsDigit(s[from]) then
      var e := DigitEnd(s, from + 1);
      assert s[from..e] == [s[from]] + s[from + 1..e];
      e
    else from
  }

  /** The decimal value of a run of digits, as `parseInt(digits, 10)` reads it. */
  function DecimalValue(digits: string): (v: nat)
    requires AllDigits(digits)
    ensures v < Pow10(|digits|)
  {
    if digits == [] then 0
    else
      var init := digits[..|digits| - 1];
      var d := digits[|digits| - 1] as int - '0' as int;
      assert DecimalValue(init) * 10 + d < (DecimalValue(init) + 1) * 10;
      DecimalValue(init) * 10 + d
  }

  function Pow10(n: nat): (p: nat)
    ensures p >= 1
  {
    if n == 0 then 1 else 10 * Pow10(n - 1)
  }

  /** The digit character for `d`. */
  function DigitChar(d: nat): (c: char)
    requires d < 10
    ensures IsDigit(c) && c as int - '0' as int == d
  {
    ('0' as int + d) as char
  }

  /** The shortest decimal rendering of `n`, as `String(n)` writes a non-negative integer. */
  function DecimalString(n: nat): (s: string)
    ensures s != [] && AllDigits(s)
    ensures n >= 10 ==> s[0] != '0'
  {
    if n < 10 then [DigitChar(n)] else DecimalString(n / 10) + [DigitChar(n % 10)]
  }

  /** Reading back the rendering of a number gives the number. */
  lemma {:induction false} DecimalRoundTrip(n: nat)
    ensures DecimalValue(DecimalString(n)) == n
  {
    if n >= 10 {
      var s := DecimalString(n);
      assert s[..|s| - 1] == DecimalString(n / 10);
      DecimalRoundTrip(n / 10);
    }
  }

  /** Leading zeros do not change the value: `parseInt("007", 10)` is 7. */
  lemma {:induction false} DecimalLeadingZero(digits: string)
    requires AllDigits(digits)
    ensures AllDigits(['0'] + digits) && DecimalValue(['0'] + digits) == DecimalValue(digits)
  {
    var s := ['0'] + digits;
    if digits != [] {
      var init := digits[..|digits| - 1];
      assert s[..|s| - 1] == ['0'] + init;
      DecimalLeadingZero(init);
    }
  }

  /** Where the capture groups of a successful label match lie. */
  datatype LabelCaptures = LabelCaptures(digitsStart: nat, digitsEnd: nat, titleStart: nat)

  /**
    A whitespace run from `from` covering `s[from..k]` reaches at least `k`, and ends
    exactly there when `s[k]` is not whitespace.
  */
  lemma {:induction false} SpaceEndAt(s: string, from: nat, k: nat)
    requires from <= k <= |s| && AllSpace(s[from..k])
    ensures k <= SpaceEnd(s, from)
    ensures k < |s| && !IsSpace(s[k]) ==> SpaceEnd(s, from) == k
    decreases k - from
  {
    if from < k {
      assert IsSpace(s[from..k][0]);
      forall n | from + 1 <= n < k ensures IsSpace(s[n]) {
        assert s[n] == s[from..k][n - from];
      }
      SpaceEndAt(s, from + 1, k);
    }
  }

  /** The same for a run of digits. */
  lemma {:induction false} DigitEndAt(s: string, from: nat, k: nat)
    requires from <= k <= |s| && AllDigits(s[from..k])
    ensures k <= DigitEnd(s, from)
    ensures k < |s| && !IsDigit(s[k]) ==> DigitEnd(s, from) == k
    decreases k - from
  {
    if from < k {
      assert IsDigit(s[from..k][0]);
      forall n | from + 1 <= n < k ensures IsDigit(s[n]) {
        assert s[n] == s[from..k][n - from];
      }
      DigitEndAt(s, from + 1, k);
    }
  }

  /**
    Any split of a label is pinned down by the greedy scans: the digits are the run
    that follows the leading whitespace, and the title cannot start before the end of
    the whitespace after the dot.
  */
  lemma SplitIsPinned(s: string)
    ensures forall i: nat, j: nat, k: nat :: LabelSplit(s, i, j, k) ==>
      && i == SpaceEnd(s, 0)
      && j == DigitEnd(s, i)
      && k <= SpaceEnd(s, j + 1)
  {
    forall i: nat, j: nat, k: nat | LabelSplit(s, i, j, k)
      ensures i == SpaceEnd(s, 0) && j == DigitEnd(s, i) && k <= SpaceEnd(s, j + 1)
    {
      assert s[0..i] == s[..i];
      assert IsDigit(s[i..j][0]);
      SpaceEndAt(s, 0, i);
      DigitEndAt(s, i, j);
      SpaceEndAt(s, j + 1, k);
    }
  }

  /**
    The match `/^\s*(\d+)\.\s*(.+)$/` finds, with JavaScript's greedy, backtracking
    semantics: the leading whitespace and the digits are taken greedily; the second
    `\s*` takes all the whitespace after the dot unless that would leave no title, in
    which case it gives back one character.
  */
  function MatchLabel(s: string): (r: Option<LabelCaptures>)
    ensures r.Some? ==>
      && r.value.digitsStart < r.value.digitsEnd < r.value.titleStart < |s|
      && AllSpace(s[..r.value.digitsStart])
      && AllDigits(s[r.value.digitsStart..r.value.digitsEnd])
      && s[r.value.digitsEnd] == '.'
      && NoLineTerminator(s[r.value.titleStart..])
  {
    var i := SpaceEnd(s, 0);
    var j := DigitEnd(s, i);
    if j == i || j == |s| || s[j] != '.' then None
    else
      var g := SpaceEnd(s, j + 1);
      if g < |s| then
        if NoLineTerminator(s[g..]) then Some(LabelCaptures(i, j, g)) else None
      else if j + 1 < |s| && !IsLineTerminator(s[|s| - 1]) then Some(LabelCaptures(i, j, |s| - 1))
      else None
  }

  /**
    The match is exact: when there is one, the capture boundaries are those of a
    split, and the title is the shortest one any split allows; there is none exactly
    when no split exists.
  */
  lemma MatchLabelIsExact(s: string)
    ensures MatchLabel(s).Some? ==> var c := MatchLabel(s).value;
      LabelSplit(s, c.digitsStart, c.digitsEnd, c.titleStart)
    ensures MatchLabel(s).Some? ==> var c := MatchLabel(s).value;
      forall i: nat, j: nat, k: nat :: LabelSplit(s, i, j, k) ==>
        i == c.digitsStart && j == c.digitsEnd && k <= c.titleStart
    ensures MatchLabel(s).None? <==> !MatchesLabel(s)
  {
    var i := SpaceEnd(s, 0);
    var j := DigitEnd(s, i);
    if j == i || j == |s| || s[j] != '.' {
      NoSplitWithoutDot(s, i, j);
    } else {
      var g := SpaceEnd(s, j + 1);
      if g < |s| {
        if NoLineTerminator(s[g..]) {
          TitleAfterSpace(s, i, j, g);
        } else {
          NoSplitWithTerminatedTitle(s, i, j, g);
        }
      } else if j + 1 < |s| && !IsLineTerminator(s[|s| - 1]) {
        LastCharIsTitle(s, i, j);
      } else {
        NoSplitWithoutTitle(s, i, j);
      }
    }
  }

  /** Without digits followed by a dot after the leading whitespace, nothing matches. */
  lemma NoSplitWithoutDot(s: string, i: nat, j: nat)
    requires i == SpaceEnd(s, 0) && j == DigitEnd(s, i)
    requires j == i || j == |s| || s[j] != '.'
    ensures !MatchesLabel(s)
  {
    SplitIsPinned(s);
    forall i': nat, j': nat, k': nat ensures !LabelSplit(s, i', j', k') {
    }
  }

  /** With a title after the whitespace that follows the dot, that is the match. */
  lemma TitleAfterSpace(s: string, i: nat, j: nat, g: nat)
    requires i == SpaceEnd(s, 0) && j == DigitEnd(s, i)
    requires i < j < |s| && s[j] == '.'
    requires g == SpaceEnd(s, j + 1) && g < |s| && NoLineTerminator(s[g..])
    ensures LabelSplit(s, i, j, g)
    ensures forall i': nat, j': nat, k': nat :: LabelSplit(s, i', j', k') ==> i' == i && j' == j && k' <= g
  {
    assert s[0..i] == s[..i];
    SplitIsPinned(s);
  }

  /**
    When the text after the whitespace that follows the dot holds a line terminator,
    every candidate title holds it too, so nothing matches.
  */
  lemma NoSplitWithTerminatedTitle(s: string, i: nat, j: nat, g: nat)
    requires i == SpaceEnd(s, 0) && j == DigitEnd(s, i)
    requires j < g < |s| && g == SpaceEnd(s, j + 1) && !NoLineTerminator(s[g..])
    ensures !MatchesLabel(s)
  {
    var n :| 0 <= n < |s[g..]| && IsLineTerminator(s[g..][n]);
    SplitIsPinned(s);
    forall i': nat, j': nat, k': nat ensures !LabelSplit(s, i', j', k') {
      if i' == i && j' == j && j' < k' <= g {
        assert s[k'..][g - k' + n] == s[g..][n];
      }
    }
  }

  /**
    When everything after the dot is whitespace and the last character is not a line
    terminator, the second `\s*` gives that character back and it is the title.
  */
  lemma LastCharIsTitle(s: string, i: nat, j: nat)
    requires i == SpaceEnd(s, 0) && j == DigitEnd(s, i)
    requires i < j && j + 1 < |s| && s[j] == '.'
    requires SpaceEnd(s, j + 1) == |s| && !IsLineTerminator(s[|s| - 1])
    ensures LabelSplit(s, i, j, |s| - 1)
    ensures forall i': nat, j': nat, k': nat :: LabelSplit(s, i', j', k') ==> i' == i && j' == j && k' <= |s| - 1
  {
    var g := SpaceEnd(s, j + 1);
    forall n | j + 1 <= n < |s| - 1 ensures IsSpace(s[n]) {
      assert s[n] == s[j + 1..g][n - j - 1];
    }
    assert NoLineTerminator(s[|s| - 1..]) by {
      assert s[|s| - 1..] == [s[|s| - 1]];
    }
    assert s[0..i] == s[..i];
    SplitIsPinned(s);
  }

  /**
    When everything after the dot is whitespace ending in a line terminator, or
    nothing follows the dot, no title is possible.
  */
  lemma NoSplitWithoutTitle(s: string, i: nat, j: nat)
    requires i == SpaceEnd(s, 0) && j == DigitEnd(s, i)
    requires j < |s| && SpaceEnd(s, j + 1) == |s|
    requires !(j + 1 < |s| && !IsLineTerminator(s[|s| - 1]))
    ensures !MatchesLabel(s)
  {
    SplitIsPinned(s);
    forall i': nat, j': nat, k': nat ensures !LabelSplit(s, i', j', k') {
      if i' == i && j' == j && j' < k' < |s| {
        assert s[k'..][|s| - 1 - k'] == s[|s| - 1];
      }
    }
  }

  /** A parsed label: the NaN id of JavaScript is `None`. */
  datatype IntentMeta = IntentMeta(id: Option<int>, title: string, rawTitle: string)

  /**
    `normaliseIntentKey`: a numbered label gives its number and the rest as title; any
    other label gives no id and itself as title. The raw label is always kept.
  */
  function NormaliseIntentKey(rawKey: string): (m: IntentMeta)
    ensures m.rawTitle == rawKey
    ensures m.id.None? ==> m.title == rawKey
  {
    match MatchLabel(rawKey)
    case None => IntentMeta(None, rawKey, rawKey)
    case Some(LabelCaptures(i, j, k)) =>
      IntentMeta(Some(DecimalValue(rawKey[i..j])), rawKey[k..], rawKey)
  }

  /**
    A label has an id exactly when the pattern matches it; the id is the value of the
    digits, and the title is the text after the dot with leading whitespace taken off,
    except that one character is kept when nothing else would be left.
  */
  lemma NormaliseIntentKeyMeaning(rawKey: string)
    ensures NormaliseIntentKey(rawKey).id.None? <==> !MatchesLabel(rawKey)
    ensures forall i: nat, j: nat, k: nat :: LabelSplit(rawKey, i, j, k) ==>
      var m := NormaliseIntentKey(rawKey);
      && m.id == Some(DecimalValue(rawKey[i..j]))
      && |m.title| <= |rawKey| - k
      && m.title == rawKey[|rawKey| - |m.title|..]
      && LabelSplit(rawKey, i, j, |rawKey| - |m.title|)
  {
    MatchLabelIsExact(rawKey);
    var m := NormaliseIntentKey(rawKey);
    match MatchLabel(rawKey)
    case None =>
    case Some(c) =>
      var t := c.titleStart;
      assert m == IntentMeta(Some(DecimalValue(rawKey[c.digitsStart..c.digitsEnd])), rawKey[t..], rawKey);
      assert |rawKey| - |m.title| == t;
      assert LabelSplit(rawKey, c.digitsStart, c.digitsEnd, t);
  }

  /**
    The usual shape, "12. Title": when the title of a split starts with a character
    other than whitespace, the label parses to the value of the digits and exactly
    that title.
  */
  lemma NumberedSplit(key: string, i: nat, j: nat, k: nat)
    requires LabelSplit(key, i, j, k) && !IsSpace(key[k])
    ensures NormaliseIntentKey(key) == IntentMeta(Some(DecimalValue(key[i..j])), key[k..], key)
  {
    MatchLabelIsExact(key);
    assert MatchesLabel(key);
    var c := MatchLabel(key).value;
    AllSpaceAt(key, j + 1, c.titleStart);
  }

  lemma AllSpaceAt(s: string, a: nat, b: nat)
    requires a <= b <= |s| && AllSpace(s[a..b])
    ensures forall n :: a <= n < b ==> IsSpace(s[n])
  {
    forall n | a <= n < b ensures IsSpace(s[n]) {
      assert s[a..b][n - a] == s[n];
    }
  }

  /** A label without a dot cannot be numbered: no id, and the title is the label. */
  lemma UnnumberedLabel(key: string)
    requires forall n :: 0 <= n < |key| ==> key[n] != '.'
    ensures NormaliseIntentKey(key) == IntentMeta(None, key, key)
  {
  }

  // ---------------------------------------------------------------------------
  // Building the palette from the evaluated literal
  // ---------------------------------------------------------------------------

  /** One entry of `intents`: a single-key object from a label to its examples. */
  datatype RawIntent = RawIntent(key: string, examples: seq<string>)

  /** One entry of `sections`: a single-key object from a category name to intent ids. */
  datatype RawSection = RawSection(name: string, ids: seq<int>)

  /** The evaluated literal `{sections: [...], intents: [...]}`. */
  datatype Structure = Structure(sections: seq<RawSection>, intents: seq<RawIntent>)

  datatype BuildError = MissingIntent(id: int)  // "Missing intent definition for id <id>"

  /** What the lookup stores for an intent: its parsed label and its examples. */
  datatype IntentEntry = IntentEntry(meta: IntentMeta, examples: seq<string>)

  type IntentTable = map<Option<int>, IntentEntry>

  function EntryOf(intent: RawIntent): IntentEntry {
    IntentEntry(NormaliseIntentKey(intent.key), intent.examples)
  }

  /** The entries the intents give, in order. */
  function Entries(intents: seq<RawIntent>): (es: seq<IntentEntry>)
    ensures |es| == |intents|
    ensures forall k :: 0 <= k < |intents| ==> es[k] == EntryOf(intents[k])
  {
    seq(|intents|, k requires 0 <= k < |intents| => EntryOf(intents[k]))
  }

  /** `intents.set(meta.id, entry)` for each entry in order, starting from an empty map. */
  function Register(entries: seq<IntentEntry>): (r: IntentTable)
    ensures forall k :: 0 <= k < |entries| ==> entries[k].meta.id in r
    ensures |r.Keys| <= |entries|
  {
    if entries == [] then map[]
    else
      var e := entries[|entries| - 1];
      Register(entries[..|entries| - 1])[e.meta.id := e]
  }

  /** The id→intent lookup the build fills from the literal's intents. */
  function Lookup(intents: seq<RawIntent>): (r: IntentTable)
    ensures forall k :: 0 <= k < |intents| ==> NormaliseIntentKey(intents[k].key).id in r
    ensures |r.Keys| <= |intents|
  {
    Register(Entries(intents))
  }

  /** No entry after the `k`-th has the same id. */
  predicate LastWithId(entries: seq<IntentEntry>, k: nat)
    requires k < |entries|
  {
    forall k' :: k < k' < |entries| ==> entries[k'].meta.id != entries[k].meta.id
  }

  /** The lookup holds exactly the ids of the entries registered. */
  lemma {:induction false} RegisterKeys(entries: seq<IntentEntry>)
    ensures forall id :: id in Register(entries) <==>
      exists k :: 0 <= k < |entries| && entries[k].meta.id == id
  {
    if entries != [] {
      var n := |entries| - 1;
      var init := entries[..n];
      RegisterKeys(init);
      forall id ensures id in Register(entries) <==>
        exists k :: 0 <= k < |entries| && entries[k].meta.id == id
      {
        if id in Register(init) {
          var k :| 0 <= k < n && init[k].meta.id == id;
          assert init[k] == entries[k];
        }
        if exists k :: 0 <= k < |entries| && entries[k].meta.id == id {
          var k :| 0 <= k < |entries| && entries[k].meta.id == id;
          if k < n {
            assert init[k] == entries[k];
          }
        }
      }
    }
  }

  /** Every stored entry is one of the registered entries, stored under its own id. */
  lemma {:induction false} RegisterUnderOwnId(entries: seq<IntentEntry>)
    ensures forall id :: id in Register(entries) ==>
      Register(entries)[id].meta.id == id && Register(entries)[id] in entries
  {
    if entries != [] {
      var init := entries[..|entries| - 1];
      RegisterUnderOwnId(init);
      assert forall e :: e in init ==> e in entries;
    }
  }

  /** An id maps to the last entry that has it: later duplicates overwrite earlier ones. */
  lemma {:induction false} RegisterLastWins(entries: seq<IntentEntry>)
    ensures forall k :: 0 <= k < |entries| && LastWithId(entries, k) ==>
      && entries[k].meta.id in Register(entries)
      && Register(entries)[entries[k].meta.id] == entries[k]
  {
    if entries != [] {
      var n := |entries| - 1;
      var init := entries[..n];
      RegisterLastWins(init);
      forall k | 0 <= k < |entries| && LastWithId(entries, k)
        ensures entries[k].meta.id in Register(entries)
        ensures Register(entries)[entries[k].meta.id] == entries[k]
      {
        if k < n {
          assert init[k] == entries[k];
          assert LastWithId(init, k);
        }
      }
    }
  }

  /**
    Every entry of the lookup holds the parse of its own raw label, so an entry found
    under `Some(id)` has a label that parses to `id`: an unparsable label can never be
    reached through a numeric id.
  */
  lemma LookupEntriesParse(intents: seq<RawIntent>)
    ensures forall id :: id in Lookup(intents) ==>
      var e := Lookup(intents)[id];
      e.meta.id == id && e.meta == NormaliseIntentKey(e.meta.rawTitle)
  {
    var es := Entries(intents);
    RegisterUnderOwnId(es);
    forall id | id in Lookup(intents)
      ensures Lookup(intents)[id].meta == NormaliseIntentKey(Lookup(intents)[id].meta.rawTitle)
    {
      var k :| 0 <= k < |es| && es[k] == Lookup(intents)[id];
      assert es[k] == EntryOf(intents[k]);
    }
  }

  /** Registering one more entry is one more `set` on the map built so far. */
  lemma RegisterPrefixStep(entries: seq<IntentEntry>, k: nat)
    requires k < |entries|
    ensures Register(entries[..k + 1]) == Register(entries[..k])[entries[k].meta.id := entries[k]]
  {
    assert entries[..k + 1][..k] == entries[..k];
  }

  /** The topic the build makes for `id`: the looked-up intent, under the section's id. */
  function TopicFor(table: IntentTable, id: int): Topic
    requires Some(id) in table
  {
    var e := table[Some(id)];
    Topic(id, e.meta.title, e.meta.rawTitle, e.examples)
  }

  predicate AllPresent(table: IntentTable, ids: seq<int>) {
    forall n :: 0 <= n < |ids| ==> Some(ids[n]) in table
  }

  /** `ids[n]` is the first id of the list that the lookup lacks. */
  predicate FirstMissingAt(table: IntentTable, ids: seq<int>, n: nat) {
    n < |ids| && Some(ids[n]) !in table && AllPresent(table, ids[..n])
  }

  /** The topics for a section's ids, in list order, failing at the first dangling id. */
  function ResolveIds(table: IntentTable, ids: seq<int>): (r: Result<seq<Topic>, BuildError>)
    ensures r.Success? <==> AllPresent(table, ids)
    ensures r.Success? ==> |r.value| == |ids|
    ensures r.Success? ==> forall n :: 0 <= n < |ids| ==> r.value[n] == TopicFor(table, ids[n])
    ensures r.Failure? ==> exists n: nat :: FirstMissingAt(table, ids, n) && r.error == MissingIntent(ids[n])
  {
    if ids == [] then Success([])
    else
      var init := ids[..|ids| - 1];
      var id := ids[|ids| - 1];
      assert forall n :: 0 <= n < |init| ==> init[n] == ids[n];
      match ResolveIds(table, init)
      case Failure(e) =>
        ghost var n: nat :| FirstMissingAt(table, init, n) && e == MissingIntent(init[n]);
        assert init[..n] == ids[..n];
        assert FirstMissingAt(table, ids, n);
        Failure(e)
      case Success(ts) =>
        if Some(id) in table then Success(ts + [TopicFor(table, id)])
        else
          assert init == ids[..|ids| - 1];
          assert FirstMissingAt(table, ids, |ids| - 1);
          Failure(MissingIntent(id))
  }

  /** There is only one first dangling id. */
  lemma FirstMissingUnique(table: IntentTable, ids: seq<int>, n: nat, n': nat)
    requires FirstMissingAt(table, ids, n) && FirstMissingAt(table, ids, n')
    ensures n == n'
  {
  }

  /** Resolving a list fails with its first dangling id. */
  lemma ResolveIdsFailsAt(table: IntentTable, ids: seq<int>, n: nat)
    requires FirstMissingAt(table, ids, n)
    ensures ResolveIds(table, ids) == Failure(MissingIntent(ids[n]))
  {
    var r := ResolveIds(table, ids);
    var n': nat :| FirstMissingAt(table, ids, n') && r.error == MissingIntent(ids[n']);
    FirstMissingUnique(table, ids, n, n');
  }

  /** The topic order: `(a, b) => a.id - b.id`, read as "a may come before b". */
  function ById(a: Topic, b: Topic): bool {
    a.id <= b.id
  }

  lemma ByIdIsPreorder()
    ensures TotalPreorder(ById)
  {
  }

  /** The topics the build makes for `ids`, one per id and in list order. */
  ghost function Resolved(table: IntentTable, ids: seq<int>): seq<Topic>
    requires AllPresent(table, ids)
  {
    seq(|ids|, n requires 0 <= n < |ids| => TopicFor(table, ids[n]))
  }

  /**
    `c` is the category built for `section`: same name, its topics a permutation of
    the topics for the section's ids, in ascending id order.
  */
  ghost predicate IsResolvedCategory(c: Category, section: RawSection, table: IntentTable) {
    && c.category == section.name
    && AllPresent(table, section.ids)
    && multiset(c.topics) == multiset(Resolved(table, section.ids))
    && SortedBy(c.topics, ById)
  }

  /** One section of the literal turned into a category, or the first dangling id. */
  function ResolveSection(table: IntentTable, section: RawSection): (r: Result<Category, BuildError>)
    ensures r.Success? <==> AllPresent(table, section.ids)
    ensures r.Failure? ==> exists n: nat ::
      FirstMissingAt(table, section.ids, n) && r.error == MissingIntent(section.ids[n])
  {
    match ResolveIds(table, section.ids)
    case Failure(e) => Failure(e)
    case Success(ts) => Success(Category(section.name, SortBy(ts, ById)))
  }

  /**
    A resolved section keeps its name and holds exactly the topics for its ids, each
    once, ordered by id.
  */
  lemma ResolveSectionResolves(table: IntentTable, section: RawSection)
    requires ResolveSection(table, section).Success?
    ensures IsResolvedCategory(ResolveSection(table, section).value, section, table)
  {
    var ts := ResolveIds(table, section.ids).value;
    ByIdIsPreorder();
    SortBySorted(ts, ById);
    assert ts == Resolved(table, section.ids);
  }

  /** All sections turned into categories, in section order, or the first dangling id. */
  function ResolveSections(table: IntentTable, sections: seq<RawSection>): (r: Result<seq<Category>, BuildError>)
    ensures r.Success? ==> |r.value| == |sections|
  {
    if sections == [] then Success([])
    else
      match ResolveSections(table, sections[..|sections| - 1])
      case Failure(e) => Failure(e)
      case Success(cats) =>
        match ResolveSection(table, sections[|sections| - 1])
        case Failure(e) => Failure(e)
        case Success(c) => Success(cats + [c])
  }

  /** Each category of a successful resolution is its own section resolved. */
  lemma {:induction false} ResolvedSectionsAt(table: IntentTable, sections: seq<RawSection>)
    requires ResolveSections(table, sections).Success?
    ensures forall s :: 0 <= s < |sections| ==>
      ResolveSection(table, sections[s]) == Success(ResolveSections(table, sections).value[s])
  {
    if sections != [] {
      var n := |sections| - 1;
      var init := sections[..n];
      ResolvedSectionsAt(table, init);
      var cats := ResolveSections(table, init).value;
      var c := ResolveSection(table, sections[n]).value;
      assert ResolveSections(table, sections).value == cats + [c];
      forall s | 0 <= s < |sections|
        ensures ResolveSection(table, sections[s]) == Success((cats + [c])[s])
      {
        if s < n {
          assert init[s] == sections[s];
        }
      }
    }
  }

  /** When every id of every section has an intent, the resolution succeeds. */
  lemma {:induction false} ResolveSectionsComplete(table: IntentTable, sections: seq<RawSection>)
    requires forall s :: 0 <= s < |sections| ==> AllPresent(table, sections[s].ids)
    ensures ResolveSections(table, sections).Success?
  {
    if sections != [] {
      var init := sections[..|sections| - 1];
      forall s | 0 <= s < |init| ensures AllPresent(table, init[s].ids) {
        assert init[s] == sections[s];
      }
      ResolveSectionsComplete(table, init);
    }
  }

  /** A failed resolution carries the error of a section all of whose predecessors resolve. */
  lemma {:induction false} ResolveSectionsFailure(table: IntentTable, sections: seq<RawSection>)
    requires ResolveSections(table, sections).Failure?
    ensures exists s ::
      && 0 <= s < |sections|
      && ResolveSection(table, sections[s]) == Failure(ResolveSections(table, sections).error)
      && forall s' :: 0 <= s' < s ==> AllPresent(table, sections[s'].ids)
  {
    var n := |sections| - 1;
    var init := sections[..n];
    var e := ResolveSections(table, sections).error;
    match ResolveSections(table, init)
    case Failure(_) =>
      ResolveSectionsFailure(table, init);
      var s :| && 0 <= s < |init|
        && ResolveSection(table, init[s]) == Failure(e)
        && forall s' :: 0 <= s' < s ==> AllPresent(table, init[s'].ids);
      forall s' | 0 <= s' <= s ensures init[s'] == sections[s'] {
      }
    case Success(_) =>
      ResolvedSectionsAt(table, init);
      forall s' | 0 <= s' < n ensures AllPresent(table, sections[s'].ids) {
        assert init[s'] == sections[s'];
      }
      assert ResolveSection(table, sections[n]) == Failure(e);
  }

  /**
    The sections resolve exactly when every id of every section has an intent; then
    each category is its own section resolved; otherwise the error is that of the
    first section that fails.
  */
  lemma ResolveSectionsMeaning(table: IntentTable, sections: seq<RawSection>)
    ensures var r := ResolveSections(table, sections);
      r.Success? <==> forall s :: 0 <= s < |sections| ==> AllPresent(table, sections[s].ids)
    ensures var r := ResolveSections(table, sections);
      r.Success? ==> forall s :: 0 <= s < |sections| ==> ResolveSection(table, sections[s]) == Success(r.value[s])
    ensures var r := ResolveSections(table, sections);
      r.Failure? ==> exists s ::
        && 0 <= s < |sections|
        && ResolveSection(table, sections[s]) == Failure(r.error)
        && forall s' :: 0 <= s' < s ==> AllPresent(table, sections[s'].ids)
  {
    if ResolveSections(table, sections).Success? {
      ResolvedSectionsAt(table, sections);
    } else {
      ResolveSectionsFailure(table, sections);
      if forall s :: 0 <= s < |sections| ==> AllPresent(table, sections[s].ids) {
        ResolveSectionsComplete(table, sections);
      }
    }
  }

  /** Resolving the sections fails with the error of the first section that fails. */
  lemma ResolveSectionsFailsAt(table: IntentTable, sections: seq<RawSection>, s: nat)
    requires s < |sections|
    requires forall s' :: 0 <= s' < s ==> AllPresent(table, sections[s'].ids)
    requires ResolveSection(table, sections[s]).Failure?
    ensures ResolveSections(table, sections) == Failure(ResolveSection(table, sections[s]).error)
  {
    ResolveSectionsMeaning(table, sections);
    var r := ResolveSections(table, sections);
    var s' :| && 0 <= s' < |sections|
      && ResolveSection(table, sections[s']) == Failure(r.error)
      && forall s'' :: 0 <= s'' < s' ==> AllPresent(table, sections[s''].ids);
  }

  /** The category order: `a.category.localeCompare(b.category) <= 0`. */
  function ByName(localeLeq: (string, string) -> bool): (Category, Category) -> bool {
    (a: Category, b: Category) => localeLeq(a.category, b.category)
  }

  lemma ByNameIsPreorder(localeLeq: (string, string) -> bool)
    requires TotalPreorder(localeLeq)
    ensures TotalPreorder(ByName(localeLeq))
  {
    var leq := ByName(localeLeq);
    forall a, b ensures leq(a, b) || leq(b, a) {
      assert localeLeq(a.category, b.category) || localeLeq(b.category, a.category);
    }
    forall a, b, c | leq(a, b) && leq(b, c) ensures leq(a, c) {
      assert localeLeq(a.category, b.category) && localeLeq(b.category, c.category);
    }
  }

  /**
    The palette `buildPaletteData` returns for the literal, given how `localeCompare`
    orders category names: resolve every section, then sort the categories.
  */
  function Build(st: Structure, localeLeq: (string, string) -> bool): (r: Result<seq<Category>, BuildError>)
    ensures r.Success? ==> |r.value| == |st.sections|
  {
    match ResolveSections(Lookup(st.intents), st.sections)
    case Failure(e) => Failure(e)
    case Success(cats) =>
      var sorted := SortBy(cats, ByName(localeLeq));
      assert |multiset(sorted)| == |multiset(cats)|;
      Success(sorted)
  }

  /**
    The build fails exactly when some section names an id no intent has, and then it
    names the first such id in section order and list order; no palette comes out.
  */
  lemma BuildFailsOnDanglingId(st: Structure, localeLeq: (string, string) -> bool)
    ensures Build(st, localeLeq).Failure? <==>
      exists s, n :: 0 <= s < |st.sections| && 0 <= n < |st.sections[s].ids| &&
        Some(st.sections[s].ids[n]) !in Lookup(st.intents)
    ensures Build(st, localeLeq).Failure? ==>
      exists s, n: nat ::
        && 0 <= s < |st.sections|
        && FirstMissingAt(Lookup(st.intents), st.sections[s].ids, n)
        && Build(st, localeLeq).error == MissingIntent(st.sections[s].ids[n])
        && forall s' :: 0 <= s' < s ==> AllPresent(Lookup(st.intents), st.sections[s'].ids)
  {
    var table := Lookup(st.intents);
    ResolveSectionsMeaning(table, st.sections);
    var r := ResolveSections(table, st.sections);
    if r.Failure? {
      var s :| 0 <= s < |st.sections| &&
        ResolveSection(table, st.sections[s]) == Failure(r.error) &&
        forall s' :: 0 <= s' < s ==> AllPresent(table, st.sections[s'].ids);
      var n: nat :| FirstMissingAt(table, st.sections[s].ids, n) && r.error == MissingIntent(st.sections[s].ids[n]);
    }
  }

  /**
    A successful build has one category per section, no more and no fewer: the
    categories are the resolved sections, reordered by category name with sections
    whose names compare equal kept in their original order, and each is the resolved
    form of some section of the literal.
  */
  lemma BuildCategories(st: Structure, localeLeq: (string, string) -> bool)
    requires TotalPreorder(localeLeq)
    requires Build(st, localeLeq).Success?
    ensures var cats := Build(st, localeLeq).value;
      var resolved := ResolveSections(Lookup(st.intents), st.sections).value;
      && |cats| == |st.sections|
      && multiset(cats) == multiset(resolved)
      && (forall a, b :: 0 <= a < b < |cats| ==> localeLeq(cats[a].category, cats[b].category))
      && (forall e :: EquivalentTo(cats, e, ByName(localeLeq)) == EquivalentTo(resolved, e, ByName(localeLeq)))
      && (forall s :: 0 <= s < |st.sections| ==> IsResolvedCategory(resolved[s], st.sections[s], Lookup(st.intents)))
  {
    var table := Lookup(st.intents);
    ResolveSectionsMeaning(table, st.sections);
    var resolved := ResolveSections(table, st.sections).value;
    var cats := Build(st, localeLeq).value;
    forall s | 0 <= s < |st.sections| ensures IsResolvedCategory(resolved[s], st.sections[s], table) {
      ResolveSectionResolves(table, st.sections[s]);
    }
    ByNameIsPreorder(localeLeq);
    SortBySorted(resolved, ByName(localeLeq));
    forall e ensures EquivalentTo(cats, e, ByName(localeLeq)) == EquivalentTo(resolved, e, ByName(localeLeq)) {
      SortByStable(resolved, e, ByName(localeLeq));
    }
    assert |cats| == |resolved| by {
      assert |multiset(cats)| == |multiset(resolved)|;
    }
    forall a, b | 0 <= a < b < |cats| ensures localeLeq(cats[a].category, cats[b].category) {
      assert ByName(localeLeq)(cats[a], cats[b]);
    }
  }

  /** Every topic of a resolved category is the lookup's topic for one of its ids. */
  lemma ResolvedTopicsFromTable(table: IntentTable, section: RawSection, c: Category)
    requires IsResolvedCategory(c, section, table)
    ensures forall t :: t in c.topics ==> exists id :: Some(id) in table && t == TopicFor(table, id)
  {
    var ids := section.ids;
    forall t | t in c.topics ensures exists id :: Some(id) in table && t == TopicFor(table, id) {
      assert t in multiset(Resolved(table, ids));
      var n :| 0 <= n < |ids| && Resolved(table, ids)[n] == t;
      assert Some(ids[n]) in table && t == TopicFor(table, ids[n]);
    }
  }

  /** Every topic of a successful build is the lookup's topic for some id. */
  lemma BuildTopicsFromTable(st: Structure, localeLeq: (string, string) -> bool)
    requires Build(st, localeLeq).Success?
    ensures forall c, t :: c in Build(st, localeLeq).value && t in c.topics ==>
      exists id :: Some(id) in Lookup(st.intents) && t == TopicFor(Lookup(st.intents), id)
  {
    var table := Lookup(st.intents);
    ResolveSectionsMeaning(table, st.sections);
    var resolved := ResolveSections(table, st.sections).value;
    var cats := Build(st, localeLeq).value;
    forall c | c in cats
      ensures forall t :: t in c.topics ==> exists id :: Some(id) in table && t == TopicFor(table, id)
    {
      assert c in multiset(resolved);
      var s :| 0 <= s < |resolved| && resolved[s] == c;
      ResolveSectionResolves(table, st.sections[s]);
      ResolvedTopicsFromTable(table, st.sections[s], c);
    }
  }

  /** The lookup's topic for an id carries a raw label that parses back to it. */
  lemma TopicForParsesBack(intents: seq<RawIntent>, id: int)
    requires Some(id) in Lookup(intents)
    ensures var t := TopicFor(Lookup(intents), id);
      NormaliseIntentKey(t.rawTitle) == IntentMeta(Some(t.id), t.title, t.rawTitle)
  {
    LookupEntriesParse(intents);
  }

  /**
    Every topic of a successful build carries a raw label that parses back to the
    topic's own id and title.
  */
  lemma BuildTopicsParseBack(st: Structure, localeLeq: (string, string) -> bool)
    requires Build(st, localeLeq).Success?
    ensures forall c, t :: c in Build(st, localeLeq).value && t in c.topics ==>
      NormaliseIntentKey(t.rawTitle) == IntentMeta(Some(t.id), t.title, t.rawTitle)
  {
    BuildTopicsFromTable(st, localeLeq);
    forall c, t | c in Build(st, localeLeq).value && t in c.topics
      ensures NormaliseIntentKey(t.rawTitle) == IntentMeta(Some(t.id), t.title, t.rawTitle)
    {
      var id :| Some(id) in Lookup(st.intents) && t == TopicFor(Lookup(st.intents), id);
      TopicForParsesBack(st.intents, id);
    }
  }

  /** One more present id adds its topic to the resolved prefix. */
  lemma ResolveIdsStep(table: IntentTable, ids: seq<int>, n: nat, ts: seq<Topic>)
    requires n < |ids| && Some(ids[n]) in table
    requires ResolveIds(table, ids[..n]) == Success(ts)
    ensures ResolveIds(table, ids[..n + 1]) == Success(ts + [TopicFor(table, ids[n])])
  {
    assert ids[..n + 1][..n] == ids[..n];
  }

  /** One more resolved section adds its category to the resolved prefix. */
  lemma ResolveSectionsStep(table: IntentTable, sections: seq<RawSection>, s: nat, cats: seq<Category>)
    requires s < |sections| && ResolveSection(table, sections[s]).Success?
    requires ResolveSections(table, sections[..s]) == Success(cats)
    ensures ResolveSections(table, sections[..s + 1]) == Success(cats + [ResolveSection(table, sections[s]).value])
  {
    assert sections[..s + 1][..s] == sections[..s];
  }

  /** Every section of a resolved prefix has all its ids present. */
  lemma ResolvedPrefixPresent(table: IntentTable, sections: seq<RawSection>, s: nat)
    requires s <= |sections| && ResolveSections(table, sections[..s]).Success?
    ensures forall s' :: 0 <= s' < s ==> AllPresent(table, sections[s'].ids)
  {
    ResolveSectionsMeaning(table, sections[..s]);
    forall s' | 0 <= s' < s ensures AllPresent(table, sections[s'].ids) {
      assert sections[..s][s'] == sections[s'];
    }
  }

  /**
    The `structure.intents.forEach` of `buildPaletteData`: parse each label and set
    the intent under its id, a later intent replacing an earlier one with the same id.
  */
  method RegisterIntents(intents: seq<RawIntent>) returns (table: IntentTable)
    ensures table == Lookup(intents)
  {
    table := map[];
    for k := 0 to |intents|
      invariant table == Register(Entries(intents)[..k])
    {
      var meta := NormaliseIntentKey(intents[k].key);
      RegisterPrefixStep(Entries(intents), k);
      table := table[meta.id := IntentEntry(meta, intents[k].examples)];
    }
    assert Entries(intents)[..|intents|] == Entries(intents);
  }

  /**
    The `structure.sections.map` callback of `buildPaletteData`: look up each id of
    the section, throwing at the first one without an intent, then sort the topics
    by id.
  */
  method ResolveSectionTopics(table: IntentTable, section: RawSection) returns (r: Result<Category, BuildError>)
    ensures r == ResolveSection(table, section)
  {
    var ids := section.ids;
    var topics: seq<Topic> := [];
    for n := 0 to |ids|
      invariant ResolveIds(table, ids[..n]) == Success(topics)
    {
      var id := ids[n];
      if Some(id) !in table {
        ResolveIdsFailsAt(table, ids, n);
        return Failure(MissingIntent(id));
      }
      var intent := table[Some(id)];
      ResolveIdsStep(table, ids, n, topics);
      topics := topics + [Topic(id, intent.meta.title, intent.meta.rawTitle, intent.examples)];
    }
    assert ids[..|ids|] == ids;
    r := Success(Category(section.name, SortBy(topics, ById)));
  }

  /**
    `buildPaletteData`: fill the id-to-intent lookup, resolve each section (failing at
    the first dangling id), then sort the categories by name.
  */
  method BuildPaletteData(st: Structure, localeLeq: (string, string) -> bool)
    returns (r: Result<seq<Category>, BuildError>)
    ensures r == Build(st, localeLeq)
  {
    var intents := RegisterIntents(st.intents);
    var categories: seq<Category> := [];
    for s := 0 to |st.sections|
      invariant ResolveSections(intents, st.sections[..s]) == Success(categories)
    {
      var category := ResolveSectionTopics(intents, st.sections[s]);
      if category.Failure? {
        ResolvedPrefixPresent(intents, st.sections, s);
        ResolveSectionsFailsAt(intents, st.sections, s);
        return Failure(category.error);
      }
      ResolveSectionsStep(intents, st.sections, s, categories);
      categories := categories + [category.value];
    }
    assert st.sections[..|st.sections|] == st.sections;
    r := Success(SortBy(categories, ByName(localeLeq)));
  }
}
