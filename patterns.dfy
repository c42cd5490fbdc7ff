/**
 * The four extraction rules of the `Patterns` enum, each hand-coded as
 * "a match of this rule starts at p and ends at e" (MatchEnd). The regex
 * semantics are written out: inline flags end with the lookbehind group that
 * holds them, lookbehinds see the whole text before p, greedy runs are
 * maximal, the lazy quoted body is the shortest one, and the second branch of
 * SYMBOL_NEAR_LINK backtracks to the longest link the lookahead accepts.
 * Character classes are the ASCII ones.
 */
module Patterns {

  import opened JavaStrings

  datatype Option<T> = None | Some(value: T)

  datatype Pattern = CodeNoQuotes | CodeWithQuotes | ToAtLinks | SymbolNearLink

  /** `Patterns.values()`, in declaration order. */
  const AllPatterns: seq<Pattern> := [CodeNoQuotes, CodeWithQuotes, ToAtLinks, SymbolNearLink]

  /** Largest number of characters allowed between a symbol and its link. */
  const SymbolDistance := 100

  predicate IsDigit(c: char) { '0' <= c <= '9' }

  /** `\w`, whose absence before a keyword makes `\b` hold there. */
  predicate IsWordChar(c: char) { IsUpperAscii(c) || IsLowerAscii(c) || IsDigit(c) || c == '_' }

  /** `\s` = [ \t\n\x0B\f\r]. */
  predicate IsWhitespace(c: char) {
    c == ' ' || c == '\t' || c == '\n' || c == '\U{B}' || c == '\U{C}' || c == '\r'
  }

  /** The characters `.` does not match without DOTALL. */
  predicate IsLineTerminator(c: char) {
    c == '\n' || c == '\r' || c == '\U{85}' || c == '\U{2028}' || c == '\U{2029}'
  }

  predicate IsQuote(c: char) { c == '"' || c == '\'' }

  /** The character sets whose maximal runs the rules consume. */
  datatype CharClass =
    | CodeChar    // [A-Za-z0-9\-]
    | LinkChar    // [^\s,\)]
    | LetterS     // the `s*` of `https*`
    | QuotedChar  // neither a quote nor a line terminator

  predicate InClass(cls: CharClass, c: char) {
    match cls
    case CodeChar => IsUpperAscii(c) || IsLowerAscii(c) || IsDigit(c) || c == '-'
    case LinkChar => !IsWhitespace(c) && c != ',' && c != ')'
    case LetterS => c == 's'
    case QuotedChar => !IsQuote(c) && !IsLineTerminator(c)
  }

  /** Every character of s[i..j] is in `cls`. */
  predicate IsRun(s: string, i: int, j: int, cls: CharClass) {
    0 <= i <= j <= |s| && forall k :: i <= k < j ==> InClass(cls, s[k])
  }

  /** The end of the maximal run of `cls` characters that starts at i. */
  function SpanEnd(s: string, i: nat, cls: CharClass): (r: nat)
    requires i <= |s|
    ensures i <= r <= |s|
    ensures forall k :: i <= k < r ==> InClass(cls, s[k])
    ensures r < |s| ==> !InClass(cls, s[r])
    decreases |s| - i
  {
    if i == |s| || !InClass(cls, s[i]) then i else SpanEnd(s, i + 1, cls)
  }

  /** No character of s[i..j] is a line terminator. */
  predicate NoLineTerminator(s: string, i: int, j: int) {
    forall m :: i <= m < j && 0 <= m < |s| ==> !IsLineTerminator(s[m])
  }

  /** `\b(?i)w`: the word `w` (lower case) at j, ASCII case-insensitively,
      with no word character right before it. */
  predicate KeywordAt(s: string, j: int, w: string) {
    0 <= j && j + |w| <= |s| && (j == 0 || !IsWordChar(s[j - 1])) &&
    forall k :: 0 <= k < |w| ==> LowerChar(s[j + k]) == w[k]
  }

  /** `(?i)` compares lower-cased: the keyword stands at j exactly when the
      text there, lower-cased, is the keyword. */
  lemma KeywordAtLowered(s: string, j: int, w: string)
    ensures KeywordAt(s, j, w) <==>
      && 0 <= j && j + |w| <= |s| && (j == 0 || !IsWordChar(s[j - 1]))
      && ToLowerCase(s[j..j + |w|]) == w
  {
    if 0 <= j && j + |w| <= |s| {
      var l := ToLowerCase(s[j..j + |w|]);
      assert forall k :: 0 <= k < |w| ==> l[k] == LowerChar(s[j + k]);
    }
  }

  /** `(?<=\b(?i)w(?s).{1,2})` at p: the keyword ends one or two characters
      (any characters, newline included) before p. */
  predicate AnchoredAfter(s: string, p: int, w: string) {
    KeywordAt(s, p - 1 - |w|, w) || KeywordAt(s, p - 2 - |w|, w)
  }

  /** `([0-9]%)|(\$[0-9])` occupies s[j..j+2]. */
  predicate SymbolAt(s: string, j: int) {
    0 <= j && j + 2 <= |s| &&
    ((IsDigit(s[j]) && s[j + 1] == '%') || (s[j] == '$' && IsDigit(s[j + 1])))
  }

  /** `(?<=(([0-9]%)|(\$[0-9])).{1,100})` at p: a symbol ends 1 to 100
      characters before p, with no line terminator in between. */
  predicate SymbolBefore(s: string, p: int) {
    exists j :: p - SymbolDistance - 2 <= j <= p - 3 && SymbolAt(s, j) && NoLineTerminator(s, j + 2, p)
  }

  /** `(?=.{1,100}(([0-9]%)|(\$[0-9])))` at e: a symbol starts 1 to 100
      characters after e, with no line terminator in between. */
  predicate SymbolAfter(s: string, e: int) {
    exists j :: e + 1 <= j <= e + SymbolDistance && SymbolAt(s, j) && NoLineTerminator(s, e, j)
  }

  /** `(https*:\/\/)` at p: "http", any number of 's', then "://"; the index
      just after "://". */
  function LinkBodyStart(s: string, p: nat): (r: Option<nat>)
    ensures r.Some? ==> p + 7 <= r.value <= |s| && s[p..p + 4] == "http" && s[r.value - 3..r.value] == "://"
    ensures r.Some? ==> IsRun(s, p + 4, r.value - 3, LetterS) && IsRun(s, p, r.value, LinkChar)
  {
    if p + 4 <= |s| && s[p..p + 4] == "http" then
      var q := SpanEnd(s, p + 4, LetterS);
      if q + 3 <= |s| && s[q..q + 3] == "://" then
        assert forall k :: p <= k < q + 3 ==> s[k] in "https:/";
        Some(q + 3)
      else None
    else None
  }

  /** The largest e in [lo, hi] at which SymbolAfter holds: the greedy link
      body giving back characters until the lookahead succeeds. */
  function LastSymbolAfter(s: string, lo: nat, hi: nat): (r: Option<nat>)
    ensures r.Some? ==> lo <= r.value <= hi && SymbolAfter(s, r.value)
    ensures forall e :: lo <= e <= hi && (r.None? || r.value < e) ==> !SymbolAfter(s, e)
    decreases hi
  {
    if hi < lo then None
    else if SymbolAfter(s, hi) then Some(hi)
    else if hi == 0 then None
    else LastSymbolAfter(s, lo, hi - 1)
  }

  /** A link at p: the scheme and at least one body character. */
  predicate LinkAt(s: string, p: nat) {
    var b := LinkBodyStart(s, p);
    b.Some? && b.value < |s| && InClass(LinkChar, s[b.value])
  }

  /** The end of the maximal link that starts at p. */
  function LinkEnd(s: string, p: nat): (e: nat)
    requires LinkAt(s, p)
    ensures LinkBodyStart(s, p).value < e <= |s|
  {
    SpanEnd(s, LinkBodyStart(s, p).value, LinkChar)
  }

  /** The end of the match of `pat` that starts at p, if there is one. No match
      is empty, and no match holds a newline. */
  function MatchEnd(pat: Pattern, s: string, p: nat): (r: Option<nat>)
    ensures r.Some? ==> p < r.value <= |s|
    ensures r.Some? ==> forall k :: p <= k < r.value ==> s[k] != '\n'
  {
    if p >= |s| then None
    else match pat
      case CodeNoQuotes =>
        // (?<=\b(?i)code(?s).{1,2})([A-Z0-9][A-Za-z0-9\-]+)
        if AnchoredAfter(s, p, "code") && p + 1 < |s| && (IsUpperAscii(s[p]) || IsDigit(s[p]))
           && InClass(CodeChar, s[p + 1])
        then Some(SpanEnd(s, p + 1, CodeChar))
        else None
      case CodeWithQuotes =>
        // (?<=\b(?i)code(?s).{1,2}("|'))(.+?)(?=("|'))
        if p >= 1 && IsQuote(s[p - 1]) && AnchoredAfter(s, p - 1, "code") && !IsLineTerminator(s[p]) then
          var e := SpanEnd(s, p + 1, QuotedChar);
          if e < |s| && IsQuote(s[e]) then Some(e) else None
        else None
      case ToAtLinks =>
        // (?<=\b(?i)(to|at)(?s).{1,2})(https*:\/\/)[^\s,\)]+
        if (AnchoredAfter(s, p, "to") || AnchoredAfter(s, p, "at")) && LinkAt(s, p)
        then Some(LinkEnd(s, p))
        else None
      case SymbolNearLink =>
        // first branch: a symbol before the link; second branch: after it
        if !LinkAt(s, p) then None
        else if SymbolBefore(s, p) then Some(LinkEnd(s, p))
        else LastSymbolAfter(s, LinkBodyStart(s, p).value + 1, LinkEnd(s, p))
  }

  // ---------------------------------------------------------------------
  // What each rule matches, stated without SpanEnd: both directions.

  /** A maximal run of `cls` characters from i ends exactly at j. */
  predicate IsMaximalRun(s: string, i: int, j: int, cls: CharClass) {
    IsRun(s, i, j, cls) && (j == |s| || !InClass(cls, s[j]))
  }

  lemma MaximalRunUnique(s: string, i: nat, j: nat, cls: CharClass)
    requires i <= |s|
    ensures IsMaximalRun(s, i, j, cls) <==> j == SpanEnd(s, i, cls)
  {
  }

  /** CODE_NO_QUOTES: a maximal run of [A-Za-z0-9-] of at least two characters
      whose first is [A-Z0-9], one or two characters after the word "code". */
  lemma CodeNoQuotesMatch(s: string, p: nat, e: nat)
    ensures MatchEnd(CodeNoQuotes, s, p) == Some(e) <==>
      && p + 2 <= e <= |s|
      && AnchoredAfter(s, p, "code")
      && (IsUpperAscii(s[p]) || IsDigit(s[p]))
      && IsMaximalRun(s, p + 1, e, CodeChar)
  {
    if p + 1 < |s| { MaximalRunUnique(s, p + 1, e, CodeChar); }
  }

  /** CODE_WITH_QUOTES: the shortest non-empty text without a line terminator
      that follows a quote standing one or two characters after "code" and is
      itself followed by a quote (which is not part of the match). */
  lemma CodeWithQuotesMatch(s: string, p: nat, e: nat)
    ensures MatchEnd(CodeWithQuotes, s, p) == Some(e) <==>
      && 1 <= p < e < |s|
      && IsQuote(s[p - 1]) && AnchoredAfter(s, p - 1, "code")
      && NoLineTerminator(s, p, e)
      && (forall k :: p < k < e ==> !IsQuote(s[k]))
      && IsQuote(s[e])
  {
    if 1 <= p < |s| {
      var r := SpanEnd(s, p + 1, QuotedChar);
      if 1 <= p < e < |s| && NoLineTerminator(s, p, e) && (forall k :: p < k < e ==> !IsQuote(s[k])) && IsQuote(s[e]) {
        assert IsMaximalRun(s, p + 1, e, QuotedChar);
        MaximalRunUnique(s, p + 1, e, QuotedChar);
      }
    }
  }

  /** The scheme of both link rules: "http", any number of 's', "://". */
  lemma LinkSchemeMatch(s: string, p: nat, b: nat)
    ensures LinkBodyStart(s, p) == Some(b) <==>
      && p + 7 <= b <= |s|
      && s[p..p + 4] == "http"
      && IsRun(s, p + 4, b - 3, LetterS)
      && s[b - 3..b] == "://"
  {
    if p + 7 <= b <= |s| && s[p..p + 4] == "http" && IsRun(s, p + 4, b - 3, LetterS) && s[b - 3..b] == "://" {
      assert s[b - 3] == ':';
      assert IsMaximalRun(s, p + 4, b - 3, LetterS);
      MaximalRunUnique(s, p + 4, b - 3, LetterS);
    }
  }

  /** A maximal link at p: scheme, then a maximal non-empty run of [^\s,\)]. */
  predicate IsMaximalLink(s: string, p: nat, e: nat) {
    && LinkBodyStart(s, p).Some?
    && LinkBodyStart(s, p).value < e
    && IsMaximalRun(s, LinkBodyStart(s, p).value, e, LinkChar)
  }

  lemma MaximalLinkIsLinkEnd(s: string, p: nat, e: nat)
    ensures IsMaximalLink(s, p, e) <==> LinkAt(s, p) && e == LinkEnd(s, p)
  {
    if LinkBodyStart(s, p).Some? {
      MaximalRunUnique(s, LinkBodyStart(s, p).value, e, LinkChar);
    }
  }

  /** TO_AT_LINKS: a maximal link one or two characters after the word "to"
      or "at". */
  lemma ToAtLinksMatch(s: string, p: nat, e: nat)
    ensures MatchEnd(ToAtLinks, s, p) == Some(e) <==>
      (AnchoredAfter(s, p, "to") || AnchoredAfter(s, p, "at")) && IsMaximalLink(s, p, e)
  {
    MaximalLinkIsLinkEnd(s, p, e);
  }

  /** SYMBOL_NEAR_LINK: the maximal link when a symbol comes at most 100
      characters before it; otherwise the longest non-empty link prefix that a
      symbol follows within 100 characters. */
  lemma SymbolNearLinkMatch(s: string, p: nat, e: nat)
    ensures MatchEnd(SymbolNearLink, s, p) == Some(e) <==>
      && LinkBodyStart(s, p).Some?
      && var b := LinkBodyStart(s, p).value;
      && b < e
      && IsRun(s, b, e, LinkChar)
      && (|| (SymbolBefore(s, p) && IsMaximalRun(s, b, e, LinkChar))
          || (&& !SymbolBefore(s, p)
              && SymbolAfter(s, e)
              && forall e' :: e < e' <= |s| && IsRun(s, b, e', LinkChar) ==> !SymbolAfter(s, e')))
  {
    MaximalLinkIsLinkEnd(s, p, e);
    if LinkBodyStart(s, p).Some? && LinkBodyStart(s, p).value < |s| {
      var b := LinkBodyStart(s, p).value;
      var m := SpanEnd(s, b, LinkChar);
      // a link prefix ending past the maximal run is impossible
      forall e' | m < e' <= |s| ensures !IsRun(s, b, e', LinkChar) {
        if m < |s| { assert !InClass(LinkChar, s[m]); }
      }
      if p < |s| && LinkAt(s, p) && !SymbolBefore(s, p) {
        var r := LastSymbolAfter(s, b + 1, m);
        if r.Some? {
          forall e' | r.value < e' <= |s| && IsRun(s, b, e', LinkChar) ensures !SymbolAfter(s, e') {
          }
        }
        if b < e && IsRun(s, b, e, LinkChar) && SymbolAfter(s, e)
           && (forall e' :: e < e' <= |s| && IsRun(s, b, e', LinkChar) ==> !SymbolAfter(s, e')) {
          assert e <= m;
          forall k | b <= k < m ensures InClass(LinkChar, s[k]) { }
          assert r.Some?;
        }
      }
    }
  }
}
