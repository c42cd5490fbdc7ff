/**
 * `getBoundedSnippet`: the excerpt reported with a finding. A line of at most
 * 200 characters is returned whole; a longer one is cut at spaces about 100
 * characters either side of the match, with both searches running over the
 * whole description, and `substring` throws when the cuts cross.
 */
module SnippetBounder {

  import opened JavaStrings

  const Delimiter := '\n'
  const MaxSnippetLength := 200

  function BoundedSnippet(targetIndex: int, description: string): Result<string>
  {
    var startDelimiter := LastIndexOf(description, Delimiter, targetIndex);
    var endDelimiter := IndexOf(description, Delimiter, targetIndex);
    // add 1 to leave the delimiter out
    var snippetStart := if startDelimiter == -1 then 0 else startDelimiter + 1;
    var snippetEnd := if endDelimiter == -1 then |description| else endDelimiter;
    match Substring(description, snippetStart, snippetEnd)
    case Err(e) => Err(e)
    case Ok(completeSnippet) =>
      if |completeSnippet| <= MaxSnippetLength then Ok(completeSnippet)
      else
        // add 1 to leave the starting space out
        var startIndexByWord := IndexOf(description, ' ', targetIndex - MaxSnippetLength / 2) + 1;
        var endIndexByWord := LastIndexOf(description, ' ', targetIndex + MaxSnippetLength / 2);
        match Substring(description, startIndexByWord, endIndexByWord)
        case Err(e) => Err(e)
        case Ok(middle) => Ok("... " + middle + " ...")
  }

  /** s[a..b] is a whole line of s: no delimiter inside, and a delimiter or an
      end of the text on each side. */
  predicate IsLine(s: string, a: int, b: int) {
    && 0 <= a <= b <= |s|
    && (a == 0 || s[a - 1] == Delimiter)
    && (b == |s| || s[b] == Delimiter)
    && forall k :: a <= k < b ==> s[k] != Delimiter
  }

  /** Index t belongs to the line s[a..b] (it is not the delimiter after it). */
  predicate OnLine(s: string, t: int, a: int, b: int) {
    IsLine(s, a, b) && a <= t <= b && (t < b || b == |s|)
  }

  /** No line of s is longer than n characters. */
  ghost predicate LinesAtMost(s: string, n: int) {
    forall a, b :: IsLine(s, a, b) ==> b - a <= n
  }

  /** Every index that is not a delimiter lies on exactly one line. */
  lemma EnclosingLine(s: string, t: int) returns (a: int, b: int)
    requires 0 <= t <= |s| && (t < |s| ==> s[t] != Delimiter)
    ensures OnLine(s, t, a, b)
    ensures forall a', b' :: OnLine(s, t, a', b') ==> a' == a && b' == b
    ensures a == LastIndexOf(s, Delimiter, t) + 1
    ensures b == if IndexOf(s, Delimiter, t) == -1 then |s| else IndexOf(s, Delimiter, t)
  {
    LastIndexOfMeaning(s, Delimiter, t);
    IndexOfMeaning(s, Delimiter, t);
    a := LastIndexOf(s, Delimiter, t) + 1;
    b := if IndexOf(s, Delimiter, t) == -1 then |s| else IndexOf(s, Delimiter, t);
  }

  /** A line of at most 200 characters is the excerpt, unchanged. */
  lemma ShortLineSnippet(s: string, t: int, a: int, b: int)
    requires OnLine(s, t, a, b) && b - a <= MaxSnippetLength
    ensures BoundedSnippet(t, s) == Ok(s[a..b])
  {
    var a0, b0 := EnclosingLine(s, t);
    assert a0 == a && b0 == b;
  }

  /** Where the long-line excerpt starts: just after the first space at or
      after t - 100 anywhere in the text, or at 0 when there is none. */
  predicate ExcerptStart(s: string, t: int, wa: int) {
    var lo := Max(t - MaxSnippetLength / 2, 0);
    || (wa == 0 && forall k :: lo <= k < |s| ==> s[k] != ' ')
    || (lo + 1 <= wa <= |s| && s[wa - 1] == ' ' && forall k :: lo <= k < wa - 1 ==> s[k] != ' ')
  }

  /** Where the long-line excerpt ends: at the last space at or before
      t + 100 anywhere in the text, or at -1 when there is none. */
  predicate ExcerptEnd(s: string, t: int, we: int) {
    var hi := t + MaxSnippetLength / 2;
    || (we == -1 && forall k :: 0 <= k < |s| && k <= hi ==> s[k] != ' ')
    || (0 <= we < |s| && we <= hi && s[we] == ' ' && forall k :: we < k < |s| && k <= hi ==> s[k] != ' ')
  }

  /** Both cut points always exist and are unique. */
  lemma ExcerptCuts(s: string, t: int) returns (wa: int, we: int)
    ensures ExcerptStart(s, t, wa) && ExcerptEnd(s, t, we)
    ensures forall wa' :: ExcerptStart(s, t, wa') ==> wa' == wa
    ensures forall we' :: ExcerptEnd(s, t, we') ==> we' == we
    ensures wa == IndexOf(s, ' ', t - MaxSnippetLength / 2) + 1
    ensures we == LastIndexOf(s, ' ', t + MaxSnippetLength / 2)
  {
    IndexOfMeaning(s, ' ', t - MaxSnippetLength / 2);
    LastIndexOfMeaning(s, ' ', t + MaxSnippetLength / 2);
    wa := IndexOf(s, ' ', t - MaxSnippetLength / 2) + 1;
    we := LastIndexOf(s, ' ', t + MaxSnippetLength / 2);
  }

  /** A line longer than 200 characters gives "... " + the text between the
      two cut points + " ...", and throws when the end cut comes before the
      start cut (in particular when there is no space at or before t + 100). */
  lemma LongLineSnippet(s: string, t: int, a: int, b: int, wa: int, we: int)
    requires OnLine(s, t, a, b) && b - a > MaxSnippetLength
    requires ExcerptStart(s, t, wa) && ExcerptEnd(s, t, we)
    ensures BoundedSnippet(t, s) ==
      if we < wa then Err(StringIndexOutOfBounds(wa, we)) else Ok("... " + s[wa..we] + " ...")
  {
    var a0, b0 := EnclosingLine(s, t);
    assert a0 == a && b0 == b;
    var wa0, we0 := ExcerptCuts(s, t);
    assert wa0 == wa && we0 == we;
    assert Substring(s, a, b) == Ok(s[a..b]);
  }

  /** `getBoundedSnippet` at any index that does not hold the delimiter: the
      whole line when it has at most 200 characters, otherwise the text
      between the word cut points, or the exception when those cross. */
  lemma BoundedSnippetCases(s: string, t: int) returns (a: int, b: int, wa: int, we: int)
    requires 0 <= t <= |s| && (t < |s| ==> s[t] != Delimiter)
    ensures OnLine(s, t, a, b) && ExcerptStart(s, t, wa) && ExcerptEnd(s, t, we)
    ensures BoundedSnippet(t, s) ==
      if b - a <= MaxSnippetLength then Ok(s[a..b])
      else if we < wa then Err(StringIndexOutOfBounds(wa, we))
      else Ok("... " + s[wa..we] + " ...")
  {
    a, b := EnclosingLine(s, t);
    wa, we := ExcerptCuts(s, t);
    if b - a <= MaxSnippetLength {
      ShortLineSnippet(s, t, a, b);
    } else {
      LongLineSnippet(s, t, a, b, wa, we);
    }
  }

  /** An index holding the delimiter is not on any line: substring throws. */
  lemma DelimiterSnippetFails(s: string, t: int)
    requires 0 <= t < |s| && s[t] == Delimiter
    ensures BoundedSnippet(t, s) == Err(StringIndexOutOfBounds(t + 1, t))
  {
  }

  /** A slice of a slice is the slice of the text between the same indices. */
  lemma SliceOfSlice(s: string, a: int, b: int, i: int, j: int)
    requires 0 <= a <= i <= j <= b <= |s|
    ensures s[a..b][i - a..j - a] == s[i..j]
  {
    var x := s[a..b][i - a..j - a];
    forall k | 0 <= k < j - i ensures x[k] == s[i..j][k] {
      assert x[k] == s[a + (i - a + k)];
    }
  }

  /** The line of t has at most 200 characters: the excerpt is that line, it
      holds no delimiter, and it contains every text s[t..e] without one. */
  lemma ShortLineFinding(s: string, t: int, e: int, a: int, b: int)
    requires OnLine(s, t, a, b) && b - a <= MaxSnippetLength
    requires t < e <= |s| && forall k :: t <= k < e ==> s[k] != Delimiter
    ensures BoundedSnippet(t, s) == Ok(s[a..b])
    ensures Delimiter !in s[a..b]
    ensures Contains(s[a..b], s[t..e])
  {
    ShortLineSnippet(s, t, a, b);
    assert e <= b;
    SliceOfSlice(s, a, b, t, e);
    assert OccursAt(s[t..e], s[a..b], t - a);
  }

  /** When no line exceeds 200 characters, the excerpt at t is the line of t,
      and it contains every text s[t..e] that holds no delimiter. */
  lemma ShortLineContains(s: string, t: int, e: int)
    requires 0 <= t < e <= |s| && forall k :: t <= k < e ==> s[k] != Delimiter
    requires LinesAtMost(s, MaxSnippetLength)
    ensures BoundedSnippet(t, s).Ok?
    ensures exists a, b :: IsLine(s, a, b) && a <= t && e <= b && BoundedSnippet(t, s).value == s[a..b]
    ensures Delimiter !in BoundedSnippet(t, s).value
    ensures Contains(BoundedSnippet(t, s).value, s[t..e])
  {
    var a, b := EnclosingLine(s, t);
    ShortLineFinding(s, t, e, a, b);
    assert e <= b;
  }
}
