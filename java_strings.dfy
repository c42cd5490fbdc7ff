/**
 * The java.lang.String operations the description parser relies on, with the
 * boundary behaviour of the Java library written out: index searches clamp
 * their start index, `substring` throws on bad bounds, and `split` drops
 * trailing empty pieces. Every character counts as one index (no surrogate
 * pairs); `toLowerCase` folds ASCII letters only.
 */
module JavaStrings {

  /** The exception `substring` throws, with the bounds it was given. */
  datatype Error = StringIndexOutOfBounds(begin: int, end: int)

  /** A value, or the exception that ended the computation. */
  datatype Result<T> = Ok(value: T) | Err(error: Error)

  function Max(a: int, b: int): int { if a < b then b else a }

  function Min(a: int, b: int): int { if a < b then a else b }

  /** `s.indexOf(c, from)`: the first index at or after `from` holding `c`
      (a negative `from` counts as 0), or -1. */
  function IndexOf(s: string, c: char, from: int): int
    decreases |s| - from
  {
    if from < 0 then IndexOf(s, c, 0)
    else if from >= |s| then -1
    else if s[from] == c then from
    else IndexOf(s, c, from + 1)
  }

  lemma {:induction false} IndexOfMeaning(s: string, c: char, from: int)
    ensures var r := IndexOf(s, c, from);
      && -1 <= r < |s|
      && (r >= 0 ==> Max(from, 0) <= r && s[r] == c)
      && forall k :: Max(from, 0) <= k < |s| && (r < 0 || k < r) ==> s[k] != c
    decreases |s| - from
  {
    if from < 0 {
      IndexOfMeaning(s, c, 0);
    } else if from < |s| && s[from] != c {
      IndexOfMeaning(s, c, from + 1);
    }
  }

  /** `s.lastIndexOf(c, from)`: the last index at or before `from` holding `c`
      (a `from` past the end counts as the last index), or -1. */
  function LastIndexOf(s: string, c: char, from: int): int
    decreases from + 1
  {
    if from >= |s| then LastIndexOf(s, c, |s| - 1)
    else if from < 0 then -1
    else if s[from] == c then from
    else LastIndexOf(s, c, from - 1)
  }

  lemma {:induction false} LastIndexOfMeaning(s: string, c: char, from: int)
    ensures var r := LastIndexOf(s, c, from);
      && -1 <= r < |s|
      && (r >= 0 ==> r <= from && s[r] == c)
      && forall k :: r < k <= Min(from, |s| - 1) && 0 <= k ==> s[k] != c
    decreases from + 1
  {
    if from >= |s| {
      LastIndexOfMeaning(s, c, |s| - 1);
    } else if 0 <= from && s[from] != c {
      LastIndexOfMeaning(s, c, from - 1);
    }
  }

  /** `s.substring(begin, end)`, which throws unless 0 <= begin <= end <= length. */
  function Substring(s: string, begin: int, end: int): (r: Result<string>)
    ensures r.Ok? <==> 0 <= begin <= end <= |s|
    ensures r.Ok? ==> |r.value| == end - begin && s == s[..begin] + r.value + s[end..]
    ensures r.Err? ==> r.error == StringIndexOutOfBounds(begin, end)
  {
    if 0 <= begin <= end <= |s| then Ok(s[begin..end]) else Err(StringIndexOutOfBounds(begin, end))
  }

  predicate IsUpperAscii(c: char) { 'A' <= c <= 'Z' }
  predicate IsLowerAscii(c: char) { 'a' <= c <= 'z' }

  /** `d` is `c` case-folded: an upper-case ASCII letter becomes the same
      letter in lower case, any other character stays. */
  predicate Folds(c: char, d: char) {
    if IsUpperAscii(c) then IsLowerAscii(d) && d as int - 'a' as int == c as int - 'A' as int
    else d == c
  }

  function LowerChar(c: char): (r: char)
    ensures Folds(c, r) && !IsUpperAscii(r)
  {
    if IsUpperAscii(c) then (c as int + 32) as char else c
  }

  /** `s.toLowerCase()`, restricted to ASCII letters. */
  function ToLowerCase(s: string): (r: string)
    ensures |r| == |s|
    ensures forall k :: 0 <= k < |s| ==> Folds(s[k], r[k])
    ensures forall k :: 0 <= k < |r| ==> !IsUpperAscii(r[k])
  {
    seq(|s|, k requires 0 <= k < |s| => LowerChar(s[k]))
  }

  /** Lower-casing a lower-cased text changes nothing. */
  lemma ToLowerCaseIdempotent(s: string)
    ensures ToLowerCase(ToLowerCase(s)) == ToLowerCase(s)
  {
    var l := ToLowerCase(s);
    assert forall k :: 0 <= k < |l| ==> ToLowerCase(l)[k] == l[k];
  }

  /** `sub` occurs in `s` starting at index `i`. */
  predicate OccursAt(sub: string, s: string, i: int) {
    0 <= i && i + |sub| <= |s| && s[i..i + |sub|] == sub
  }

  /** `s.indexOf(sub) != -1`. */
  predicate Contains(s: string, sub: string) {
    exists i :: 0 <= i <= |s| - |sub| && OccursAt(sub, s, i)
  }

  /** Concatenation of `pieces` with `sep` between consecutive pieces. */
  function Join(pieces: seq<string>, sep: char): string
  {
    if |pieces| == 0 then ""
    else if |pieces| == 1 then pieces[0]
    else pieces[0] + [sep] + Join(pieces[1..], sep)
  }

  /** The first `sep` of s cuts off a piece that holds no `sep`. */
  lemma FirstSeparator(s: string, sep: char)
    ensures var k := IndexOf(s, sep, 0);
      && -1 <= k < |s|
      && (k < 0 ==> sep !in s)
      && (k >= 0 ==> s[k] == sep && sep !in s[..k])
  {
    IndexOfMeaning(s, sep, 0);
    var k := IndexOf(s, sep, 0);
    if k < 0 {
      assert forall j :: 0 <= j < |s| ==> s[j] != sep;
    } else {
      assert forall j :: 0 <= j < k ==> s[..k][j] != sep;
    }
  }

  /** Every piece between two occurrences of `sep`, empty ones included. */
  function SplitAll(s: string, sep: char): (pieces: seq<string>)
    ensures |pieces| >= 1
    ensures forall i :: 0 <= i < |pieces| ==> sep !in pieces[i]
    decreases |s|
  {
    var k := IndexOf(s, sep, 0);
    FirstSeparator(s, sep);
    if k < 0 then [s] else [s[..k]] + SplitAll(s[k + 1..], sep)
  }

  /** `SplitAll` and `Join` are inverse: no character is lost or added. */
  lemma {:induction false} JoinSplitAll(s: string, sep: char)
    ensures Join(SplitAll(s, sep), sep) == s
    decreases |s|
  {
    var k := IndexOf(s, sep, 0);
    IndexOfMeaning(s, sep, 0);
    if k >= 0 {
      JoinSplitAll(s[k + 1..], sep);
      var rest := SplitAll(s[k + 1..], sep);
      assert SplitAll(s, sep) == [s[..k]] + rest;
      assert s == s[..k] + [sep] + s[k + 1..];
    }
  }

  /** `pieces` without its trailing empty strings. */
  function DropTrailingEmpty(pieces: seq<string>): (r: seq<string>)
    ensures r <= pieces
    ensures r == [] || r[|r| - 1] != ""
    ensures forall i :: |r| <= i < |pieces| ==> pieces[i] == ""
  {
    if |pieces| == 0 || pieces[|pieces| - 1] != "" then pieces
    else DropTrailingEmpty(pieces[..|pieces| - 1])
  }

  /** `s.split(String.valueOf(sep))`: a string without `sep` comes back whole
      (so "" gives [""]); otherwise all pieces minus the trailing empty ones. */
  function Split(s: string, sep: char): (r: seq<string>)
    ensures forall i :: 0 <= i < |r| ==> sep !in r[i]
    ensures sep !in s ==> r == [s]
    ensures r <= SplitAll(s, sep)
    ensures forall i :: |r| <= i < |SplitAll(s, sep)| ==> SplitAll(s, sep)[i] == ""
    ensures sep in s ==> r == [] || r[|r| - 1] != ""
  {
    IndexOfMeaning(s, sep, 0);
    if IndexOf(s, sep, 0) < 0 then [s] else DropTrailingEmpty(SplitAll(s, sep))
  }
}
