# PromoTube offer extraction, modelled in Dafny

PromoTube scans the description of a YouTube video for promotional codes and
affiliate links. `DescriptionParser` holds four extraction rules, written as
Java regular expressions:

- a code one or two characters after the word "code";
- a quoted code after "code";
- a link one or two characters after "to" or "at";
- a link within 100 characters of a discount symbol (`5%`, `$5`).

`findMatches` runs one rule over a text. Each match becomes an `OfferSnippet`:
the matched text, plus an excerpt of the description around it, computed by
`getBoundedSnippet`. `parse` concatenates the four rules' findings and
removes duplicates through a `HashSet`. `parseByCompany` runs `parse` on each
line that mentions a company name.

The model has five modules:

- `JavaStrings` (`java_strings.dfy`) gives the `java.lang.String` operations
  the parser relies on:
  - `indexOf`/`lastIndexOf` with their clamping of the start index;
  - `substring`, which throws;
  - `split`, which drops trailing empty strings;
  - `toLowerCase`;
  - `Result`, a value or the thrown `StringIndexOutOfBoundsException`.
- `Patterns` (`patterns.dfy`) hand-codes each rule as `MatchEnd(rule, text, p)`,
  the end of the match that starts at `p`, or none. The regex semantics are
  written out:
  - inline flags are scoped to their lookbehind group;
  - lookbehinds see the whole text before the match;
  - greedy runs are maximal and the lazy body is the shortest;
  - the second branch of SYMBOL_NEAR_LINK backtracks.

  Lemmas state what each rule matches without reference to the construction,
  in both directions.
- `OfferSnippet` (`offer_snippet.dfy`) is the value a finding is reported as.
- `SnippetBounder` (`snippet_bounder.dfy`) is `getBoundedSnippet`, with lemmas
  for the short-line case, the long-line cut points and the exception.
- `DescriptionParser` (`description_parser.dfy`) contains:
  - the `Matcher.find()` loop (`Scan`: leftmost match, resume at its end);
  - `findMatches`, `parse`, `removeDuplicateOffers` and `parseByCompany` as
    methods with loops, each proved against a specification function;
  - the guarantee that a finding whose own line has at most 200 characters
    gets that whole line as its excerpt, and the line contains the finding;
    on descriptions without long lines no rule throws.

`parser_examples.dfy` holds concrete cases, mostly shortened from
`DescriptionParserTest`.

### Where the code and its comments and tests disagree (the model follows the code)

- `getBoundedSnippet` can throw `StringIndexOutOfBoundsException` on a long
  line: it calls `substring(start, end)` with word cut points that can cross
  (DescriptionParser.java:130-132). So `findMatches`, `parse` and
  `parseByCompany` can throw too, although their comments only promise lists.
  The model returns that exception as a `Result`. `LongLineThrows` shows the
  exception on a 305-character line.
- The comment on `getBoundedSnippet` (DescriptionParser.java:112-114) says it
  returns the line that contains the target index. For a line longer than 200
  characters, though, the code searches the whole description for the nearest
  space, starts at 0 when there is none to the right, and ends at -1 when there
  is none to the left. `ExcerptStart`, `ExcerptEnd` and `LongLineSnippet` state
  exactly that, so such an excerpt may run across lines or miss the finding.
- CODE_NO_QUOTES consumes `[A-Za-z0-9-]` after its first character. It does not
  stop at the first lower-case letter: "cOdE LINUSsssS" yields "LINUSsssS"
  (`KeywordAnyCase`).
- The separator `(?s).{1,2}` accepts two spaces (`TwoSpacesBeforeCode`),
  although a test expects two spaces to be rejected.

## Model

| member | source | states |
|---|---|---|
| JavaStrings.IndexOfMeaning | src/main/java/com/google/step/youtube/DescriptionParser.java:118 | `IndexOf`, the model of `indexOf(c, from)` (also used at line 130): -1 or an index at or after max(from, 0) holding c, with no c between max(from, 0) and it |
| JavaStrings.LastIndexOfMeaning | src/main/java/com/google/step/youtube/DescriptionParser.java:117 | `LastIndexOf`, the model of `lastIndexOf(c, from)` (also used at line 131): -1 or an index at or before from holding c, with no c after it up to min(from, length-1) |
| JavaStrings.Substring | src/main/java/com/google/step/youtube/DescriptionParser.java:123 | throws exactly when not 0 <= begin <= end <= length, with those bounds; otherwise the piece has end - begin characters and the text is what comes before begin, the piece, and what comes from end on |
| JavaStrings.ToLowerCase | src/main/java/com/google/step/youtube/DescriptionParser.java:60 | same length; each upper-case ASCII letter becomes the same letter in lower case and every other character stays; no upper-case letter is left |
| JavaStrings.ToLowerCaseIdempotent | src/main/java/com/google/step/youtube/DescriptionParser.java:60 | lower-casing twice is lower-casing once |
| JavaStrings.SplitAll | src/main/java/com/google/step/youtube/DescriptionParser.java:59 | at least one piece, and no piece holds the separator |
| JavaStrings.JoinSplitAll | src/main/java/com/google/step/youtube/DescriptionParser.java:59 | joining the pieces with the separator gives back the text |
| JavaStrings.DropTrailingEmpty | src/main/java/com/google/step/youtube/DescriptionParser.java:59 | a prefix of the pieces, ending in a non-empty piece, with only empty pieces dropped |
| JavaStrings.Split | src/main/java/com/google/step/youtube/DescriptionParser.java:59 | `split("\n")`: no piece holds a newline; a text without one comes back whole; otherwise all pieces minus the trailing empty ones, so the last piece is not empty |
| Patterns.SpanEnd | src/main/java/com/google/step/youtube/DescriptionParser.java:26 | the end of the maximal run of a character class: all inside belong to it, the next does not |
| Patterns.LinkBodyStart | src/main/java/com/google/step/youtube/DescriptionParser.java:28 | `https*:\/\/` at p: "http", only 's' then "://", all link characters |
| Patterns.LastSymbolAfter | src/main/java/com/google/step/youtube/DescriptionParser.java:33 | the largest end in the range that a symbol follows within 100 characters, and no larger one is |
| Patterns.MatchEnd | src/main/java/com/google/step/youtube/DescriptionParser.java:26-33 | no match is empty, past the text or across a newline |
| Patterns.MaximalRunUnique | src/main/java/com/google/step/youtube/DescriptionParser.java:26 | a maximal run ends exactly at SpanEnd |
| Patterns.KeywordAtLowered | src/main/java/com/google/step/youtube/DescriptionParser.java:26-28 | `KeywordAt`, the model of `\b(?i)code` and `\b(?i)(to\|at)`: the keyword stands at j exactly when no word character precedes j and the text there, lower-cased, is the keyword |
| Patterns.CodeNoQuotesMatch | src/main/java/com/google/step/youtube/DescriptionParser.java:26 | a match iff at least two characters, first [A-Z0-9], maximal run of [A-Za-z0-9-], and `AnchoredAfter`: one or two characters after a word-initial "code" in any case |
| Patterns.CodeWithQuotesMatch | src/main/java/com/google/step/youtube/DescriptionParser.java:27 | a match iff a quote stands one or two characters after "code", and the match is the shortest non-empty text without line terminator followed by a quote |
| Patterns.LinkSchemeMatch | src/main/java/com/google/step/youtube/DescriptionParser.java:28 | the scheme is found iff "http", any number of 's', "://" stand at p |
| Patterns.MaximalLinkIsLinkEnd | src/main/java/com/google/step/youtube/DescriptionParser.java:28 | `LinkAt` and `LinkEnd`: a scheme followed by a maximal non-empty run of `[^\s,\)]` is a link, and it ends exactly at LinkEnd |
| Patterns.ToAtLinksMatch | src/main/java/com/google/step/youtube/DescriptionParser.java:28 | a match iff a maximal link stands one or two characters after a word-initial "to" or "at" |
| Patterns.SymbolNearLinkMatch | src/main/java/com/google/step/youtube/DescriptionParser.java:29-33 | a match iff the maximal link with a symbol at most 100 characters before it (`SymbolBefore`), or else the longest link prefix a symbol follows within 100 characters (`SymbolAfter`) |
| SnippetBounder.EnclosingLine | src/main/java/com/google/step/youtube/DescriptionParser.java:117-122 | the two delimiter searches give the unique line holding the index |
| SnippetBounder.ShortLineSnippet | src/main/java/com/google/step/youtube/DescriptionParser.java:116-127 | a line of at most 200 characters is returned whole |
| SnippetBounder.ExcerptCuts | src/main/java/com/google/step/youtube/DescriptionParser.java:130-131 | the two word cut points exist, are unique, and are what the space searches return |
| SnippetBounder.LongLineSnippet | src/main/java/com/google/step/youtube/DescriptionParser.java:129-132 | a longer line gives "... " + text between the cut points + " ...", and throws when the end cut precedes the start cut |
| SnippetBounder.BoundedSnippetCases | src/main/java/com/google/step/youtube/DescriptionParser.java:116-133 | `BoundedSnippet`, the model of `getBoundedSnippet`, at any index not holding a newline: the whole line when it has at most 200 characters, else "... " + the text between the word cut points + " ...", or the exception when the cut points cross |
| SnippetBounder.DelimiterSnippetFails | src/main/java/com/google/step/youtube/DescriptionParser.java:117-123 | at a newline the line bounds cross and `substring` throws |
| SnippetBounder.ShortLineFinding | src/main/java/com/google/step/youtube/DescriptionParser.java:116-127 | when the line of t has at most 200 characters, whatever the other lines, the excerpt is that line, holds no newline, and contains every newline-free text starting at t |
| SnippetBounder.ShortLineContains | src/main/java/com/google/step/youtube/DescriptionParser.java:112-127 | with no line over 200 characters, the excerpt at any index is its whole line, holds no newline and contains the finding |
| DescriptionParser.Scan | src/main/java/com/google/step/youtube/DescriptionParser.java:94-96 | reported matches lie inside the text, in order, without overlap |
| DescriptionParser.ScanMatches | src/main/java/com/google/step/youtube/DescriptionParser.java:96 | every reported pair is a match of the rule |
| DescriptionParser.ScanComplete | src/main/java/com/google/step/youtube/DescriptionParser.java:96 | every position where the rule matches starts or lies inside a reported match |
| DescriptionParser.ScanEmpty | src/main/java/com/google/step/youtube/DescriptionParser.java:96 | nothing is reported iff the rule matches nowhere |
| DescriptionParser.OffersOfMeaning | src/main/java/com/google/step/youtube/DescriptionParser.java:92-100 | `OffersOf` and `RuleOffers`, the model of what `findMatches` returns: one offer per match, in order, with the matched text and the excerpt at its start; throws iff an excerpt throws, with the first such exception |
| DescriptionParser.FindMatches | src/main/java/com/google/step/youtube/DescriptionParser.java:92-100 | returns exactly the offers of the scan, or its first exception |
| DescriptionParser.TailSkip | src/main/java/com/google/step/youtube/DescriptionParser.java:97 | where nothing matches, `find()` moves on one character and nothing is collected |
| DescriptionParser.TailFound | src/main/java/com/google/step/youtube/DescriptionParser.java:97-98 | a match collects its text with its excerpt and the search resumes at the match's end, or the excerpt's exception ends the call |
| DescriptionParser.TailEnds | src/main/java/com/google/step/youtube/DescriptionParser.java:94-99 | the search starts with nothing collected, and at the end of the text the result is what was collected |
| DescriptionParser.FindingOnShortLine | src/main/java/com/google/step/youtube/DescriptionParser.java:96-97 | when findMatches does not throw, a finding whose own line has at most 200 characters has that line as its excerpt, and the line contains the finding |
| DescriptionParser.ConcatErr | src/main/java/com/google/step/youtube/DescriptionParser.java:77-79 | once a rule throws, later rules do not change the outcome |
| DescriptionParser.ConcatPrefixStep | src/main/java/com/google/step/youtube/DescriptionParser.java:77-79 | `Concat`: after rules whose lists concatenate to `codes`, the next rule either throws and that is the outcome, or its list is appended |
| DescriptionParser.CollectedInRuleOrder | src/main/java/com/google/step/youtube/DescriptionParser.java:74-82 | `Collected`, the list `parse` builds: the rules' findings concatenated in enum order, or the first rule's exception |
| DescriptionParser.RemoveDuplicateOffers | src/main/java/com/google/step/youtube/DescriptionParser.java:105-110 | the same offers, each once, in an unspecified order |
| DescriptionParser.Parse | src/main/java/com/google/step/youtube/DescriptionParser.java:74-82 | throws iff some rule throws, with that exception; otherwise the rules' findings without duplicates |
| DescriptionParser.MentionsMeaning | src/main/java/com/google/step/youtube/DescriptionParser.java:60 | `Mentions`: a line mentions the company exactly when the name stands somewhere in it, letter by letter ignoring case |
| DescriptionParser.Selected | src/main/java/com/google/step/youtube/DescriptionParser.java:59-60 | a line is kept iff it is a line of the text that mentions the company case-insensitively |
| DescriptionParser.SelectedAt | src/main/java/com/google/step/youtube/DescriptionParser.java:59-61 | a line that mentions the company is selected, at the position given by the number of selected lines before it |
| DescriptionParser.ParseByCompany | src/main/java/com/google/step/youtube/DescriptionParser.java:56-65 | throws iff some selected line throws, and then with the exception of the first selected line that throws; otherwise each selected line's `parse` result, in line order, duplicates across lines kept |
| DescriptionParser.RuleOffersOnShortLines | src/main/java/com/google/step/youtube/DescriptionParser.java:92-100 | with no line over 200 characters a rule never throws and each excerpt is a whole line containing the finding |
| DescriptionParser.ParseOnShortLines | src/main/java/com/google/step/youtube/DescriptionParser.java:74-82 | the same for everything `parse` collects |
| ParserExamples.TwoLetterCode | src/test/java/com/google/step/youtube/DescriptionParserTest.java:100-107 | "code RO" yields "RO" |
| ParserExamples.OneLetterCode | src/test/java/com/google/step/youtube/DescriptionParserTest.java:90-97 | "code R" yields nothing at R |
| ParserExamples.KeywordAnyCase | src/test/java/com/google/step/youtube/DescriptionParserTest.java:70-87 | "cOdE" is a keyword, and "LINUSsssS" is taken whole |
| ParserExamples.NewlineBeforeCode | src/test/java/com/google/step/youtube/DescriptionParserTest.java:130-137 | a newline may separate "code" from the code |
| ParserExamples.TwoSpacesBeforeCode | src/test/java/com/google/step/youtube/DescriptionParserTest.java:120-127 | two spaces may separate "code" from the code |
| ParserExamples.CodeBeforeKeyword | src/test/java/com/google/step/youtube/DescriptionParserTest.java:110-117 | a code before "code" is not matched |
| ParserExamples.QuotedCode | src/main/java/com/google/step/youtube/DescriptionParser.java:27 | the quoted rule stops at the first closing quote |
| ParserExamples.LinkAfterAt | src/main/java/com/google/step/youtube/DescriptionParser.java:28 | a link after "at " is matched up to the next space |
| ParserExamples.LinkAfterSymbol | src/main/java/com/google/step/youtube/DescriptionParser.java:29-31 | a link after "10%" is matched whole |
| ParserExamples.LongLineExcerpt | src/main/java/com/google/step/youtube/DescriptionParser.java:129-132 | a long line whose only space precedes the index makes `substring(5, 4)` throw |
| ParserExamples.LongLineScan | src/main/java/com/google/step/youtube/DescriptionParser.java:94-96 | on that line the code rule finds exactly one match |
| ParserExamples.LongLineThrows | src/main/java/com/google/step/youtube/DescriptionParser.java:92-100 | so findMatches and parse throw that exception |
| ParserExamples.CompanyMentioned | src/main/java/com/google/step/youtube/DescriptionParser.java:60 | the company comparison ignores case on both sides |
| ParserExamples.CompanyLine | src/main/java/com/google/step/youtube/DescriptionParser.java:59-60 | a one-line description naming the company is the one selected line |
| ParserExamples.CompanyLineCode | src/main/java/com/google/step/youtube/DescriptionParser.java:26 | the code on that line is found |

## Left out

- The YouTube API client, the scrapers, the servlets, the web page scripts, the value holders other than the offer, and the test mocks: they do I/O or only carry data.
- The regular-expression engine itself. Each rule is hand-coded for its one pattern.
- `\b`, `\w`, `\s` and `toLowerCase` are their ASCII forms. Non-ASCII letters are not word characters and are not case-folded.
- Strings are sequences of characters indexed one per character. UTF-16 surrogate pairs are not modelled.
- RemoveDuplicateOffers: specified only up to set equality and absence of duplicates, because the `HashSet` iteration order is unspecified. Parse and ParseByCompany inherit this.
- ParseByCompany: the per-line results are stated through a ghost output (each line's list, in any order within the line), because the order inside each line comes from the `HashSet`.
- Test expectations that do not follow from the patterns are not encoded: "LINUSsssS" yielding "LINUS", two spaces after "code" being rejected, and `parse_MatchAll`'s single result.
- The `OfferSnippet` factory and its `equals`/`hashCode`: the offer is a datatype, and datatype equality is field-wise.
