/**
 * `DescriptionParser`: runs each rule over a description (FindMatches),
 * concatenates the findings of the four rules and removes duplicates (Parse),
 * and restricts the search to the lines naming a company (ParseByCompany).
 * The exception getBoundedSnippet can throw propagates out of all three, so
 * each returns a Result.
 */
module DescriptionParser {

  import opened JavaStrings
  import opened Patterns
  import opened OfferSnippet
  import opened SnippetBounder

  // ---------------------------------------------------------------------
  // The find loop of java.util.regex.Matcher

  /** The (start, end) of every match `Matcher.find()` reports from `from` on:
      the leftmost match, then the next search resumes at its end. */
  function Scan(pat: Pattern, s: string, from: nat): (ms: seq<(nat, nat)>)
    ensures forall i :: 0 <= i < |ms| ==> from <= ms[i].0 < ms[i].1 <= |s|
    ensures forall i, j :: 0 <= i < j < |ms| ==> ms[i].1 <= ms[j].0
    decreases |s| - from
  {
    if from >= |s| then []
    else match MatchEnd(pat, s, from)
      case Some(e) => [(from, e)] + Scan(pat, s, e)
      case None => Scan(pat, s, from + 1)
  }

  /** Every reported pair is a match of the rule. */
  lemma {:induction false} ScanMatches(pat: Pattern, s: string, from: nat)
    ensures forall i :: 0 <= i < |Scan(pat, s, from)| ==>
      MatchEnd(pat, s, Scan(pat, s, from)[i].0) == Some(Scan(pat, s, from)[i].1)
    decreases |s| - from
  {
    if from < |s| {
      match MatchEnd(pat, s, from)
      case Some(e) => ScanMatches(pat, s, e);
      case None => ScanMatches(pat, s, from + 1);
    }
  }

  /** Position p starts or lies inside one of the matches ms. */
  predicate Covered(ms: seq<(nat, nat)>, p: nat) {
    exists i :: 0 <= i < |ms| && ms[i].0 <= p < ms[i].1
  }

  /** No match is missed: every position from `from` on where the rule matches
      is the start of a reported match or lies inside one (which is why the
      scan skipped it). */
  lemma {:induction false} ScanComplete(pat: Pattern, s: string, from: nat, p: nat)
    requires from <= p && MatchEnd(pat, s, p).Some?
    ensures Covered(Scan(pat, s, from), p)
    decreases |s| - from, 1
  {
    ScanAt(pat, s, from);
    var m := MatchEnd(pat, s, from);
    if m.Some? {
      ScanCompleteAfter(pat, s, from, p, m.value);
    } else {
      assert from != p;
      ScanComplete(pat, s, from + 1, p);
      assert Scan(pat, s, from) == Scan(pat, s, from + 1);
    }
  }

  /** The case of ScanComplete where a match [from, e) is reported first. */
  lemma {:induction false} ScanCompleteAfter(pat: Pattern, s: string, from: nat, p: nat, e: nat)
    requires from <= p && MatchEnd(pat, s, p).Some?
    requires from < e <= |s| && Scan(pat, s, from) == [(from, e)] + Scan(pat, s, e)
    ensures Covered(Scan(pat, s, from), p)
    decreases |s| - from, 0
  {
    var ms := Scan(pat, s, from);
    if p < e {
      assert ms[0].0 <= p < ms[0].1;
    } else {
      ScanComplete(pat, s, e, p);
      var rest := Scan(pat, s, e);
      var i :| 0 <= i < |rest| && rest[i].0 <= p < rest[i].1;
      assert ms[i + 1] == rest[i];
    }
  }

  /** The scan reports nothing exactly when the rule matches nowhere. */
  lemma ScanEmpty(pat: Pattern, s: string)
    ensures Scan(pat, s, 0) == [] <==> forall p: nat :: MatchEnd(pat, s, p).None?
  {
    if Scan(pat, s, 0) == [] {
      forall p: nat ensures MatchEnd(pat, s, p).None? {
        if MatchEnd(pat, s, p).Some? { ScanComplete(pat, s, 0, p); }
      }
    } else {
      ScanMatches(pat, s, 0);
      assert MatchEnd(pat, s, Scan(pat, s, 0)[0].0).Some?;
    }
  }

  // ---------------------------------------------------------------------
  // findMatches

  predicate InBounds(s: string, ms: seq<(nat, nat)>) {
    forall i :: 0 <= i < |ms| ==> ms[i].0 <= ms[i].1 <= |s|
  }

  /** One offer per match: the matched text and the excerpt at its start; the
      first excerpt that throws ends the computation. */
  function OffersOf(s: string, ms: seq<(nat, nat)>): Result<seq<Offer>>
    requires InBounds(s, ms)
  {
    if ms == [] then Ok([])
    else match BoundedSnippet(ms[0].0, s)
      case Err(e) => Err(e)
      case Ok(x) => Prepend([Offer(s[ms[0].0..ms[0].1], x)], OffersOf(s, ms[1..]))
  }

  /** `Prepend(xs, r)`: xs followed by the offers of r, or r's exception. */
  function Prepend(xs: seq<Offer>, r: Result<seq<Offer>>): Result<seq<Offer>>
  {
    if r.Ok? then Ok(xs + r.value) else r
  }

  /** The excerpt of match i throws, and those of the matches before it do
      not. */
  predicate FirstThrowAt(s: string, ms: seq<(nat, nat)>, i: int) {
    && 0 <= i < |ms|
    && BoundedSnippet(ms[i].0, s).Err?
    && forall j :: 0 <= j < i ==> BoundedSnippet(ms[j].0, s).Ok?
  }

  /** The offers are the matches, one each, in order, with the matched text
      and the excerpt at the match's start; they fail exactly when some excerpt
      throws, and then with the first such exception. */
  lemma {:induction false} OffersOfMeaning(s: string, ms: seq<(nat, nat)>)
    requires InBounds(s, ms)
    ensures OffersOf(s, ms).Ok? <==> forall i :: 0 <= i < |ms| ==> BoundedSnippet(ms[i].0, s).Ok?
    ensures OffersOf(s, ms).Ok? ==> |OffersOf(s, ms).value| == |ms| && forall i :: 0 <= i < |ms| ==>
      OffersOf(s, ms).value[i] == Offer(s[ms[i].0..ms[i].1], BoundedSnippet(ms[i].0, s).value)
    ensures OffersOf(s, ms).Err? ==>
      exists i :: FirstThrowAt(s, ms, i) && OffersOf(s, ms).error == BoundedSnippet(ms[i].0, s).error
  {
    OffersOfOk(s, ms);
    OffersOfErr(s, ms);
  }

  /** The offers, one per match, when no excerpt throws. */
  lemma {:induction false} OffersOfOk(s: string, ms: seq<(nat, nat)>)
    requires InBounds(s, ms)
    ensures OffersOf(s, ms).Ok? <==> forall i :: 0 <= i < |ms| ==> BoundedSnippet(ms[i].0, s).Ok?
    ensures OffersOf(s, ms).Ok? ==> |OffersOf(s, ms).value| == |ms| && forall i :: 0 <= i < |ms| ==>
      OffersOf(s, ms).value[i] == Offer(s[ms[i].0..ms[i].1], BoundedSnippet(ms[i].0, s).value)
  {
    if ms != [] {
      var m, rest := ms[0], ms[1..];
      assert ms == [m] + rest;
      OffersOfCons(s, m, rest);
      OffersOfOk(s, rest);
      assert forall i :: 1 <= i < |ms| ==> rest[i - 1] == ms[i];
    }
  }

  /** The exception of the first excerpt that throws. */
  lemma {:induction false} OffersOfErr(s: string, ms: seq<(nat, nat)>)
    requires InBounds(s, ms)
    ensures OffersOf(s, ms).Err? ==>
      exists i :: FirstThrowAt(s, ms, i) && OffersOf(s, ms).error == BoundedSnippet(ms[i].0, s).error
  {
    if ms != [] {
      var m, rest := ms[0], ms[1..];
      assert ms == [m] + rest;
      OffersOfCons(s, m, rest);
      if BoundedSnippet(m.0, s).Err? {
        assert FirstThrowAt(s, ms, 0);
      } else if OffersOf(s, rest).Err? {
        OffersOfErr(s, rest);
        var i :| FirstThrowAt(s, rest, i) && OffersOf(s, rest).error == BoundedSnippet(rest[i].0, s).error;
        FirstThrowShift(s, ms, i);
      }
    }
  }

  /** The first throwing excerpt after a first match that does not throw. */
  lemma FirstThrowShift(s: string, ms: seq<(nat, nat)>, i: int)
    requires ms != [] && BoundedSnippet(ms[0].0, s).Ok? && FirstThrowAt(s, ms[1..], i)
    ensures FirstThrowAt(s, ms, i + 1) && ms[i + 1] == ms[1..][i]
  {
    var rest := ms[1..];
    forall j | 0 <= j < i + 1 ensures BoundedSnippet(ms[j].0, s).Ok? {
      if j > 0 { assert ms[j] == rest[j - 1]; }
    }
  }

  /** What `findMatches(pattern, description)` returns. */
  function RuleOffers(pat: Pattern, s: string): Result<seq<Offer>>
  {
    OffersOf(s, Scan(pat, s, 0))
  }

  lemma PrependNil(r: Result<seq<Offer>>)
    ensures Prepend([], r) == r
  {
    if r.Ok? { assert [] + r.value == r.value; }
  }

  lemma PrependAppend(xs: seq<Offer>, ys: seq<Offer>, r: Result<seq<Offer>>)
    ensures Prepend(xs, Prepend(ys, r)) == Prepend(xs + ys, r)
  {
    if r.Ok? { assert xs + (ys + r.value) == xs + ys + r.value; }
  }

  /** One step of the scan at a position inside the text. */
  lemma ScanAt(pat: Pattern, s: string, pos: nat)
    requires pos < |s|
    ensures MatchEnd(pat, s, pos).None? ==> Scan(pat, s, pos) == Scan(pat, s, pos + 1)
    ensures MatchEnd(pat, s, pos).Some? ==>
      Scan(pat, s, pos) == [(pos, MatchEnd(pat, s, pos).value)] + Scan(pat, s, MatchEnd(pat, s, pos).value)
  {
  }

  /** The offers of a match followed by more matches. */
  lemma OffersOfCons(s: string, m: (nat, nat), ms: seq<(nat, nat)>)
    requires m.0 <= m.1 <= |s| && InBounds(s, ms)
    ensures BoundedSnippet(m.0, s).Err? ==> OffersOf(s, [m] + ms) == Err(BoundedSnippet(m.0, s).error)
    ensures BoundedSnippet(m.0, s).Ok? ==>
      OffersOf(s, [m] + ms) == Prepend([Offer(s[m.0..m.1], BoundedSnippet(m.0, s).value)], OffersOf(s, ms))
  {
    assert ([m] + ms)[1..] == ms;
    assert forall i :: 0 <= i < |ms| ==> ms[i] == ([m] + ms)[i + 1];
  }

  /** What findMatches returns once it has collected `matches` and resumes
      the search at pos. */
  function Tail(pat: Pattern, s: string, pos: nat, matches: seq<Offer>): Result<seq<Offer>>
  {
    Prepend(matches, OffersOf(s, Scan(pat, s, pos)))
  }

  /** Nothing matches at pos: the search resumes one character on. */
  lemma TailSkip(pat: Pattern, s: string, pos: nat, matches: seq<Offer>)
    requires pos < |s| && MatchEnd(pat, s, pos).None?
    ensures Tail(pat, s, pos, matches) == Tail(pat, s, pos + 1, matches)
  {
    ScanAt(pat, s, pos);
  }

  /** A match s[pos..e]: its excerpt's exception is the result, or its offer
      is collected and the search resumes at e. */
  lemma TailFound(pat: Pattern, s: string, pos: nat, e: nat, matches: seq<Offer>)
    requires pos < |s| && MatchEnd(pat, s, pos) == Some(e)
    ensures BoundedSnippet(pos, s).Err? ==> Tail(pat, s, pos, matches) == Err(BoundedSnippet(pos, s).error)
    ensures BoundedSnippet(pos, s).Ok? ==>
      Tail(pat, s, pos, matches) == Tail(pat, s, e, matches + [Offer(s[pos..e], BoundedSnippet(pos, s).value)])
  {
    ScanAt(pat, s, pos);
    OffersOfCons(s, (pos, e), Scan(pat, s, e));
    if BoundedSnippet(pos, s).Ok? {
      PrependAppend(matches, [Offer(s[pos..e], BoundedSnippet(pos, s).value)], OffersOf(s, Scan(pat, s, e)));
    }
  }

  /** The search starts with nothing collected and ends at the end of the
      text with everything collected. */
  lemma TailEnds(pat: Pattern, s: string, matches: seq<Offer>)
    ensures RuleOffers(pat, s) == Tail(pat, s, 0, [])
    ensures Tail(pat, s, |s|, matches) == Ok(matches)
  {
    PrependNil(RuleOffers(pat, s));
    assert Scan(pat, s, |s|) == [];
    assert matches + [] == matches;
  }

  /** `findMatches`: runs `Matcher.find()` until it fails, adding an offer per
      match. */
  method FindMatches(pat: Pattern, description: string) returns (res: Result<seq<Offer>>)
    ensures res == RuleOffers(pat, description)
  {
    var matches: seq<Offer> := [];
    var pos: nat := 0;
    TailEnds(pat, description, matches);
    while pos < |description|
      invariant pos <= |description|
      invariant RuleOffers(pat, description) == Tail(pat, description, pos, matches)
      decreases |description| - pos
    {
      var found := MatchEnd(pat, description, pos);
      if found.None? {
        TailSkip(pat, description, pos, matches);
        pos := pos + 1;
      } else {
        var end := found.value;
        var snippet := BoundedSnippet(pos, description);
        TailFound(pat, description, pos, end, matches);
        if snippet.Err? {
          return Err(snippet.error);
        }
        matches := matches + [Offer(description[pos..end], snippet.value)];
        pos := end;
      }
    }
    TailEnds(pat, description, matches);
    return Ok(matches);
  }

  // ---------------------------------------------------------------------
  // parse

  /** What each rule's `findMatches` returns, in enum order. */
  function RuleResults(s: string): (rs: seq<Result<seq<Offer>>>)
    ensures |rs| == |AllPatterns|
  {
    seq(|AllPatterns|, i requires 0 <= i < |AllPatterns| => RuleOffers(AllPatterns[i], s))
  }

  /** The lists of `rs` concatenated in order; the first exception ends the
      computation. */
  function Concat(rs: seq<Result<seq<Offer>>>): Result<seq<Offer>>
    decreases |rs|
  {
    if rs == [] then Ok([])
    else match Concat(rs[..|rs| - 1])
      case Err(e) => Err(e)
      case Ok(xs) =>
        match rs[|rs| - 1]
        case Err(e) => Err(e)
        case Ok(ys) => Ok(xs + ys)
  }

  /** The list `parse` builds before removing duplicates. */
  function Collected(s: string): Result<seq<Offer>>
  {
    Concat(RuleResults(s))
  }

  lemma {:induction false} ConcatErr(rs: seq<Result<seq<Offer>>>, qs: seq<Result<seq<Offer>>>)
    requires Concat(rs).Err?
    ensures Concat(rs + qs) == Concat(rs)
    decreases |qs|
  {
    if qs != [] {
      assert (rs + qs)[..|rs + qs| - 1] == rs + qs[..|qs| - 1];
      ConcatErr(rs, qs[..|qs| - 1]);
    } else {
      assert rs + qs == rs;
    }
  }

  /** One more result after a prefix that concatenates to `codes`: its
      exception is the whole outcome, or its list is appended. */
  lemma ConcatPrefixStep(rs: seq<Result<seq<Offer>>>, i: nat, codes: seq<Offer>)
    requires i < |rs| && Concat(rs[..i]) == Ok(codes)
    ensures rs[i].Err? ==> Concat(rs) == rs[i]
    ensures rs[i].Ok? ==> Concat(rs[..i + 1]) == Ok(codes + rs[i].value)
  {
    assert rs[..i + 1][..i] == rs[..i];
    if rs[i].Err? {
      ConcatErr(rs[..i + 1], rs[i + 1..]);
      assert rs[..i + 1] + rs[i + 1..] == rs;
    }
  }

  /** Four results concatenate to their lists in order, or to the first
      exception among them. */
  lemma ConcatFour(r1: Result<seq<Offer>>, r2: Result<seq<Offer>>, r3: Result<seq<Offer>>, r4: Result<seq<Offer>>)
    ensures Concat([r1, r2, r3, r4]) ==
      if r1.Err? then r1 else if r2.Err? then r2 else if r3.Err? then r3 else if r4.Err? then r4
      else Ok(r1.value + r2.value + r3.value + r4.value)
  {
    assert [r1][..0] == [];
    assert Concat([]) == Ok([]);
    assert r1.Ok? ==> [] + r1.value == r1.value;
    var c1 := Concat([r1]);
    assert c1 == r1;
    assert [r1, r2][..1] == [r1];
    var c2 := Concat([r1, r2]);
    assert c2 == if r1.Err? then r1 else if r2.Err? then r2 else Ok(r1.value + r2.value);
    assert [r1, r2, r3][..2] == [r1, r2];
    var c3 := Concat([r1, r2, r3]);
    assert c3 == if c2.Err? then c2 else if r3.Err? then r3 else Ok(c2.value + r3.value);
    assert [r1, r2, r3, r4][..3] == [r1, r2, r3];
  }

  /** `parse` concatenates the four rules in enum order: it throws what the
      first rule to throw throws, and otherwise its list is the rules'
      findings one rule after another. */
  lemma CollectedInRuleOrder(s: string)
    ensures var r1, r2, r3, r4 := RuleOffers(CodeNoQuotes, s), RuleOffers(CodeWithQuotes, s),
                                  RuleOffers(ToAtLinks, s), RuleOffers(SymbolNearLink, s);
      Collected(s) ==
        if r1.Err? then r1 else if r2.Err? then r2 else if r3.Err? then r3 else if r4.Err? then r4
        else Ok(r1.value + r2.value + r3.value + r4.value)
  {
    var rs := RuleResults(s);
    assert rs == [rs[0], rs[1], rs[2], rs[3]];
    ConcatFour(rs[0], rs[1], rs[2], rs[3]);
  }

  /** `removeDuplicateOffers`: the offers go into a HashSet and come back out
      in the set's iteration order, which is left open here. */
  method RemoveDuplicateOffers(originalOffers: seq<Offer>) returns (noDupsOffers: seq<Offer>)
    ensures SameElements(noDupsOffers, originalOffers)
    ensures NoDuplicates(noDupsOffers)
  {
    var offerSet: set<Offer> := {};
    for i := 0 to |originalOffers|
      invariant forall o :: o in offerSet <==> o in originalOffers[..i]
    {
      offerSet := offerSet + {originalOffers[i]};
    }
    assert originalOffers[..|originalOffers|] == originalOffers;
    noDupsOffers := [];
    var rest := offerSet;
    while rest != {}
      invariant rest <= offerSet
      invariant forall o :: o in noDupsOffers <==> o in offerSet && o !in rest
      invariant NoDuplicates(noDupsOffers)
      decreases |rest|
    {
      var o :| o in rest;
      noDupsOffers := noDupsOffers + [o];
      rest := rest - {o};
    }
  }

  /** `parse`: the four rules' findings without duplicates, in some order. */
  method Parse(description: string) returns (res: Result<seq<Offer>>)
    ensures res.Err? <==> Collected(description).Err?
    ensures res.Err? ==> res == Collected(description)
    ensures res.Ok? ==> SameElements(res.value, Collected(description).value) && NoDuplicates(res.value)
  {
    ghost var rs := RuleResults(description);
    var codes: seq<Offer> := [];
    for i := 0 to |AllPatterns|
      invariant Concat(rs[..i]) == Ok(codes)
    {
      var found := FindMatches(AllPatterns[i], description);
      assert found == rs[i];
      ConcatPrefixStep(rs, i, codes);
      if found.Err? {
        return Err(found.error);
      }
      codes := codes + found.value;
    }
    assert rs[..|AllPatterns|] == rs;
    var noDups := RemoveDuplicateOffers(codes);
    return Ok(noDups);
  }

  // ---------------------------------------------------------------------
  // parseByCompany

  /** `line.toLowerCase().indexOf(company.toLowerCase()) != -1`. */
  predicate Mentions(line: string, company: string) {
    Contains(ToLowerCase(line), ToLowerCase(company))
  }

  /** The company's name stands at index i of the line, letter by letter
      ignoring case. */
  predicate NameAt(line: string, company: string, i: int) {
    0 <= i && i + |company| <= |line| &&
    forall k :: 0 <= k < |company| ==> LowerChar(line[i + k]) == LowerChar(company[k])
  }

  /** A line mentions the company exactly when the name stands somewhere in
      it, ignoring case. */
  lemma MentionsMeaning(line: string, company: string)
    ensures Mentions(line, company) <==> exists i :: NameAt(line, company, i)
  {
    var ll, lc := ToLowerCase(line), ToLowerCase(company);
    forall i | 0 <= i <= |ll| - |lc| ensures OccursAt(lc, ll, i) <==> NameAt(line, company, i) {
      var x := ll[i..i + |lc|];
      assert forall k :: 0 <= k < |lc| ==> x[k] == ll[i + k];
    }
    if exists i :: NameAt(line, company, i) {
      var i :| NameAt(line, company, i);
      assert OccursAt(lc, ll, i);
    }
  }

  /** The lines that mention the company, in their order. */
  function Selected(lines: seq<string>, company: string): (r: seq<string>)
    ensures forall l :: l in r <==> l in lines && Mentions(l, company)
    decreases |lines|
  {
    if lines == [] then []
    else
      var last := lines[|lines| - 1];
      assert forall l :: l in lines <==> l in lines[..|lines| - 1] || l == last;
      Selected(lines[..|lines| - 1], company) + if Mentions(last, company) then [last] else []
  }

  function Flatten(parts: seq<seq<Offer>>): seq<Offer>
    decreases |parts|
  {
    if parts == [] then [] else Flatten(parts[..|parts| - 1]) + parts[|parts| - 1]
  }

  /** One more line: it is selected exactly when it mentions the company. */
  lemma SelectedStep(lines: seq<string>, company: string, i: nat)
    requires i < |lines|
    ensures Selected(lines[..i + 1], company) ==
      Selected(lines[..i], company) + if Mentions(lines[i], company) then [lines[i]] else []
  {
    assert lines[..i + 1][..i] == lines[..i];
  }

  lemma {:induction false} SelectedPrefix(lines: seq<string>, company: string, i: nat)
    requires i <= |lines|
    ensures Selected(lines[..i], company) <= Selected(lines, company)
    decreases |lines| - i
  {
    if i < |lines| {
      SelectedPrefix(lines, company, i + 1);
      assert lines[..i + 1][..i] == lines[..i];
    } else {
      assert lines[..i] == lines;
    }
  }

  /** `part` is what `parse` returns for `line`: no exception, the same
      offers as the rules find, each once. */
  ghost predicate ParsedLine(part: seq<Offer>, line: string) {
    Collected(line).Ok? && SameElements(part, Collected(line).value) && NoDuplicates(part)
  }

  /** `parts` are the `parse` results of the lines `sel`, one each, and
      `offers` is their concatenation. */
  ghost predicate PartsOf(sel: seq<string>, parts: seq<seq<Offer>>, offers: seq<Offer>) {
    && |parts| == |sel|
    && offers == Flatten(parts)
    && forall k :: 0 <= k < |sel| ==> ParsedLine(parts[k], sel[k])
  }

  lemma PartsOfStep(sel: seq<string>, parts: seq<seq<Offer>>, offers: seq<Offer>, line: string, part: seq<Offer>)
    requires PartsOf(sel, parts, offers) && ParsedLine(part, line)
    ensures PartsOf(sel + [line], parts + [part], offers + part)
  {
    assert (parts + [part])[..|parts|] == parts;
  }

  /** A line that mentions the company is among the selected lines of the
      whole text, right after those selected before it. */
  lemma SelectedAt(lines: seq<string>, company: string, i: nat) returns (j: nat)
    requires i < |lines| && Mentions(lines[i], company)
    ensures j == |Selected(lines[..i], company)|
    ensures j < |Selected(lines, company)| && Selected(lines, company)[j] == lines[i]
    ensures Selected(lines, company)[..j] == Selected(lines[..i], company)
  {
    SelectedStep(lines, company, i);
    SelectedPrefix(lines, company, i + 1);
    j := |Selected(lines[..i], company)|;
  }

  /** `parseByCompany`: `parse` of each line that mentions the company, in
      line order; `parts` holds the per-line lists, whose order inside each is
      left open as in `parse`. Duplicates across lines stay. */
  method ParseByCompany(company: string, description: string)
    returns (res: Result<seq<Offer>>, ghost parts: seq<seq<Offer>>)
    ensures var sel := Selected(Split(description, Delimiter), company);
      res.Ok? <==> forall i :: 0 <= i < |sel| ==> Collected(sel[i]).Ok?
    ensures var sel := Selected(Split(description, Delimiter), company);
      res.Err? ==> exists i ::
        && 0 <= i < |sel| && Collected(sel[i]) == res
        && forall j :: 0 <= j < i ==> Collected(sel[j]).Ok?
    ensures res.Ok? ==> PartsOf(Selected(Split(description, Delimiter), company), parts, res.value)
  {
    var lines := Split(description, Delimiter);
    var offers: seq<Offer> := [];
    parts := [];
    for i := 0 to |lines|
      invariant PartsOf(Selected(lines[..i], company), parts, offers)
    {
      SelectedStep(lines, company, i);
      if Mentions(lines[i], company) {
        var found := Parse(lines[i]);
        if found.Err? {
          var j := SelectedAt(lines, company, i);
          var sel := Selected(lines, company);
          assert Collected(sel[j]) == found;
          forall k | 0 <= k < j ensures Collected(sel[k]).Ok? {
            assert sel[k] == sel[..j][k];
          }
          return found, parts;
        }
        PartsOfStep(Selected(lines[..i], company), parts, offers, lines[i], found.value);
        offers := offers + found.value;
        parts := parts + [found.value];
      }
    }
    assert lines[..|lines|] == lines;
    return Ok(offers), parts;
  }

  // ---------------------------------------------------------------------
  // Properties of the findings

  /** The excerpt of a finding is a whole line of the description. */
  ghost predicate IsLineOf(s: string, x: string) {
    exists a, b :: IsLine(s, a, b) && x == s[a..b]
  }

  /** When no line of the description exceeds 200 characters, no rule throws,
      and every finding's excerpt is a whole line of the description that
      contains the finding's code or link. */
  lemma RuleOffersOnShortLines(pat: Pattern, s: string)
    requires LinesAtMost(s, MaxSnippetLength)
    ensures RuleOffers(pat, s).Ok?
    ensures forall o :: o in RuleOffers(pat, s).value ==>
      IsLineOf(s, o.snippet) && Delimiter !in o.snippet && Contains(o.snippet, o.promoCode)
  {
    var ms := Scan(pat, s, 0);
    ScanMatches(pat, s, 0);
    forall i | 0 <= i < |ms|
      ensures BoundedSnippet(ms[i].0, s).Ok?
      ensures IsLineOf(s, BoundedSnippet(ms[i].0, s).value)
      ensures Delimiter !in BoundedSnippet(ms[i].0, s).value
      ensures Contains(BoundedSnippet(ms[i].0, s).value, s[ms[i].0..ms[i].1])
    {
      ShortLineContains(s, ms[i].0, ms[i].1);
    }
    OffersOfMeaning(s, ms);
    var xs := RuleOffers(pat, s).value;
    forall o | o in xs
      ensures IsLineOf(s, o.snippet) && Delimiter !in o.snippet && Contains(o.snippet, o.promoCode)
    {
      var i :| 0 <= i < |xs| && xs[i] == o;
    }
  }

  /** A finding on a line of at most 200 characters has that line as its
      excerpt, whatever the length of the other lines, and the line contains
      the finding's code or link. */
  lemma FindingOnShortLine(pat: Pattern, s: string, i: nat, a: int, b: int)
    ensures var ms, r := Scan(pat, s, 0), RuleOffers(pat, s);
      r.Ok? && i < |ms| && OnLine(s, ms[i].0, a, b) && b - a <= MaxSnippetLength ==>
        && i < |r.value|
        && r.value[i] == Offer(s[ms[i].0..ms[i].1], s[a..b])
        && Contains(s[a..b], r.value[i].promoCode)
  {
    var ms := Scan(pat, s, 0);
    if RuleOffers(pat, s).Ok? && i < |ms| && OnLine(s, ms[i].0, a, b) && b - a <= MaxSnippetLength {
      ScanMatches(pat, s, 0);
      OffersOfMeaning(s, ms);
      ShortLineFinding(s, ms[i].0, ms[i].1, a, b);
    }
  }

  /** The same for everything `parse` reports. */
  lemma ParseOnShortLines(s: string)
    requires LinesAtMost(s, MaxSnippetLength)
    ensures Collected(s).Ok?
    ensures forall o :: o in Collected(s).value ==>
      IsLineOf(s, o.snippet) && Delimiter !in o.snippet && Contains(o.snippet, o.promoCode)
  {
    RuleOffersOnShortLines(CodeNoQuotes, s);
    RuleOffersOnShortLines(CodeWithQuotes, s);
    RuleOffersOnShortLines(ToAtLinks, s);
    RuleOffersOnShortLines(SymbolNearLink, s);
    CollectedInRuleOrder(s);
  }
}
