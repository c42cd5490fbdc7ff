/**
 * Concrete descriptions, mostly shortened from DescriptionParserTest, and
 * what the rules and the excerpt do on them. Where a test's expectation
 * differs from what the patterns match, the lemma states what they match.
 */
module ParserExamples {

  import opened JavaStrings
  import opened Patterns
  import opened SnippetBounder
  import opened DescriptionParser

  /** A two-character code after "code " is found, ending at the space. */
  lemma TwoLetterCode()
    ensures MatchEnd(CodeNoQuotes, "the code RO at", 9) == Some(11)
  {
    var s := "the code RO at";
    assert KeywordAt(s, 4, "code");
    CodeNoQuotesMatch(s, 9, 11);
  }

  /** A one-character code is not found: the character class needs two. */
  lemma OneLetterCode()
    ensures MatchEnd(CodeNoQuotes, "the code R at", 9) == None
  {
  }

  /** The keyword is case-insensitive, the code is not cut at lower case. */
  lemma KeywordAnyCase()
    ensures MatchEnd(CodeNoQuotes, "cOdE LINUSsssS ", 5) == Some(14)
  {
    var s := "cOdE LINUSsssS ";
    assert LowerChar(s[1]) == 'o' && LowerChar(s[3]) == 'e';
    assert KeywordAt(s, 0, "code");
    CodeNoQuotesMatch(s, 5, 14);
  }

  /** `(?s).{1,2}` accepts a newline between "code" and the code. */
  lemma NewlineBeforeCode()
    ensures MatchEnd(CodeNoQuotes, "the code\nROOSTER at", 9) == Some(16)
  {
    var s := "the code\nROOSTER at";
    assert KeywordAt(s, 4, "code");
    CodeNoQuotesMatch(s, 9, 16);
  }

  /** It also accepts two spaces: the separator is one or two characters of
      any kind. */
  lemma TwoSpacesBeforeCode()
    ensures MatchEnd(CodeNoQuotes, "the code  ROOSTER at", 10) == Some(17)
  {
    var s := "the code  ROOSTER at";
    assert KeywordAt(s, 4, "code");
    CodeNoQuotesMatch(s, 10, 17);
  }

  /** A code before the word "code" is not found. */
  lemma CodeBeforeKeyword()
    ensures MatchEnd(CodeNoQuotes, "the ROOSTER code at", 4) == None
  {
  }

  /** The quoted rule reports the text between the quotes, lazily. */
  lemma QuotedCode()
    ensures MatchEnd(CodeWithQuotes, "code \"bobat\"15\"", 6) == Some(11)
  {
    var s := "code \"bobat\"15\"";
    assert KeywordAt(s, 0, "code");
    CodeWithQuotesMatch(s, 6, 11);
  }

  /** A link right after "at " is found up to the next space. */
  lemma LinkAfterAt()
    ensures MatchEnd(ToAtLinks, "at http://b.co ok", 3) == Some(14)
  {
    var s := "at http://b.co ok";
    assert KeywordAt(s, 0, "at");
    assert s[3..7] == "http" && s[7] == ':' && s[7..10] == "://";
    LinkSchemeMatch(s, 3, 10);
    assert IsMaximalRun(s, 10, 14, LinkChar);
    ToAtLinksMatch(s, 3, 14);
  }

  /** A symbol before the link selects the whole link. */
  lemma LinkAfterSymbol()
    ensures MatchEnd(SymbolNearLink, "10% off: http://a.b/c next", 9) == Some(21)
  {
    var s := "10% off: http://a.b/c next";
    assert SymbolAt(s, 1);
    assert SymbolBefore(s, 9);
    assert s[9..13] == "http" && s[13] == ':' && s[13..16] == "://";
    LinkSchemeMatch(s, 9, 16);
    assert IsMaximalRun(s, 16, 21, LinkChar);
    MaximalLinkIsLinkEnd(s, 9, 21);
  }

  /** A line of 305 characters whose only space comes before the match: the
      end cut is that space, at 4, and the start cut is just after it, at 5,
      so `substring(5, 4)` throws. */
  lemma LongLineExcerpt()
    ensures BoundedSnippet(5, "code " + seq(300, _ => 'A')) == Err(StringIndexOutOfBounds(5, 4))
  {
    var s := "code " + seq(300, _ => 'A');
    assert |s| == 305;
    assert forall k :: 5 <= k < 305 ==> s[k] == 'A';
    assert s[..5] == "code ";
    assert OnLine(s, 5, 0, 305);
    assert ExcerptStart(s, 5, 5);
    assert ExcerptEnd(s, 5, 4);
    LongLineSnippet(s, 5, 0, 305, 5, 4);
  }

  /** On that line the code rule finds one match, the 300 letters. */
  lemma LongLineScan()
    ensures Scan(CodeNoQuotes, "code " + seq(300, _ => 'A'), 0) == [(5, 305)]
  {
    var s := "code " + seq(300, _ => 'A');
    assert |s| == 305;
    assert s[..5] == "code ";
    assert KeywordAt(s, 0, "code");
    CodeNoQuotesMatch(s, 5, 305);
    ScanAt(CodeNoQuotes, s, 0);
    ScanAt(CodeNoQuotes, s, 1);
    ScanAt(CodeNoQuotes, s, 2);
    ScanAt(CodeNoQuotes, s, 3);
    ScanAt(CodeNoQuotes, s, 4);
    ScanAt(CodeNoQuotes, s, 5);
    assert Scan(CodeNoQuotes, s, 305) == [];
  }

  /** So findMatches and parse throw that exception. */
  lemma LongLineThrows()
    ensures var s := "code " + seq(300, _ => 'A');
      && RuleOffers(CodeNoQuotes, s) == Err(StringIndexOutOfBounds(5, 4))
      && Collected(s) == Err(StringIndexOutOfBounds(5, 4))
  {
    var s := "code " + seq(300, _ => 'A');
    LongLineExcerpt();
    LongLineScan();
    OffersOfCons(s, (5, 305), []);
    assert [(5, 305)] + [] == [(5, 305)];
    CollectedInRuleOrder(s);
  }

  /** The company is found in the line whatever the case of either. */
  lemma CompanyMentioned()
    ensures Mentions("order via Postmates, code A1JZN", "postMATES")
  {
    var pre, c := "order via ", "postMATES";
    var d := pre + "Postmates" + ", code A1JZN";
    assert d == "order via Postmates, code A1JZN";
    var ld, lc := ToLowerCase(d), ToLowerCase(c);
    forall k | 0 <= k < |c| ensures ld[|pre| + k] == lc[k] {
      assert LowerChar(d[|pre| + k]) == LowerChar(c[k]);
    }
    assert ld[|pre|..|pre| + |c|] == lc;
    assert OccursAt(lc, ld, |pre|);
  }

  /** A one-line description that names the company is the one selected
      line. */
  lemma CompanyLine()
    ensures Selected(Split("order via Postmates, code A1JZN", Delimiter), "postMATES")
            == ["order via Postmates, code A1JZN"]
  {
    var d := "order via " + "Postmates" + ", code A1JZN";
    assert d == "order via Postmates, code A1JZN";
    assert Delimiter !in d;
    assert Split(d, Delimiter) == [d];
    CompanyMentioned();
    var none: seq<string> := [];
    assert [d][..0] == none;
  }

  /** The code on that line, found after "code ". */
  lemma CompanyLineCode()
    ensures MatchEnd(CodeNoQuotes, "order via Postmates, code A1JZN", 26) == Some(31)
  {
    var d := "order via Postmates, code A1JZN";
    assert KeywordAt(d, 21, "code");
    CodeNoQuotesMatch(d, 26, 31);
  }
}
