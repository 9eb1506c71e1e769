/** The regular expression `/\B(?=(\d{3})+(?!\d))/g` that `formatNumber`
    applies to the text of a number, and the global replace that puts ","
    at each of its matches. Both are stated for arbitrary strings, following
    the ECMAScript rules for `\B`, `\d`, lookahead and empty matches. */
module Separators {
  import opened Decimal
  import opened Text

  /** `\w` of a regular expression without the `u` and `i` flags. */
  predicate IsWordChar(c: char) {
    'a' <= c <= 'z' || 'A' <= c <= 'Z' || '0' <= c <= '9' || c == '_'
  }

  /** `\B` at position i: the characters on the two sides of i are both
      word characters or both not; a side outside the string counts as
      not a word character. */
  predicate NotWordBoundary(s: string, i: nat)
    requires i <= |s|
  {
    (i > 0 && IsWordChar(s[i - 1])) == (i < |s| && IsWordChar(s[i]))
  }

  /** The first 3 * k characters of t are digits and the character after
      them, if there is one, is not. */
  predicate DigitGroupsThenStop(t: string, k: nat)
    requires 3 * k <= |t|
  {
    AllDigits(t[..3 * k]) && (3 * k == |t| || !IsDigit(t[3 * k]))
  }

  /** `(?=(\d{3})+(?!\d))` at the start of t. The group repeats greedily and
      backtracks, so the lookahead succeeds when SOME number k >= 1 of
      three-digit groups is followed by a non-digit or by the end. */
  predicate DigitGroupsAhead(t: string) {
    exists k :: 1 <= k <= |t| / 3 && DigitGroupsThenStop(t, k)
  }

  /** The whole pattern matches, with an empty match, at position i. */
  predicate SeparatorAt(s: string, i: nat)
    requires i <= |s|
  {
    NotWordBoundary(s, i) && DigitGroupsAhead(s[i..])
  }

  /** The replace from position i on. Every match of the pattern is empty,
      so a global replace tries each position i, 0 <= i <= |s|, in turn
      (an empty match moves the search on by one) and writes "," in front
      of every position where the pattern matches. */
  function InsertFrom(s: string, i: nat): (r: string)
    requires i <= |s|
    decreases |s| - i
  {
    (if SeparatorAt(s, i) then "," else "")
    + (if i == |s| then "" else [s[i]] + InsertFrom(s, i + 1))
  }

  /** One step of the replace: the separator, if any, then the character. */
  lemma InsertFromStep(s: string, i: nat)
    requires i < |s|
    ensures InsertFrom(s, i) == (if SeparatorAt(s, i) then "," else "") + [s[i]] + InsertFrom(s, i + 1)
  {
  }

  /** `s.replace(/\B(?=(\d{3})+(?!\d))/g, ",")`. It only inserts commas:
      the characters of s, its own commas included, stand in r in their
      order, and everything else in r is an inserted ",". Hence taking every
      comma out of r leaves what taking every comma out of s leaves, and r is
      longer than s by the commas it gained. */
  function InsertSeparators(s: string): (r: string)
    ensures CommasInserted(s, r)
    ensures RemoveCommas(r) == RemoveCommas(s)
    ensures |r| == |s| + Count(r, ',') - Count(s, ',')
  {
    var r := InsertFrom(s, 0);
    InsertFromInsertsCommas(s, 0);
    assert s[0..] == s;
    CommasInsertedKeeps(s, r);
    r
  }

  /** r is s with commas put in: reading r from the front, each character
      is either the next character of s or an inserted ",", and all of s is
      used up. */
  predicate CommasInserted(s: string, r: string)
    decreases |r|
  {
    if r == [] then s == []
    else
      || (s != [] && r[0] == s[0] && CommasInserted(s[1..], r[1..]))
      || (r[0] == ',' && CommasInserted(s, r[1..]))
  }

  /** Inserting commas keeps every other character, and adds one character
      per comma gained. */
  lemma {:induction false} CommasInsertedKeeps(s: string, r: string)
    requires CommasInserted(s, r)
    ensures RemoveCommas(r) == RemoveCommas(s)
    ensures |s| <= |r| && |r| - |s| == Count(r, ',') - Count(s, ',')
    decreases |r|
  {
    if r != [] {
      if s != [] && r[0] == s[0] && CommasInserted(s[1..], r[1..]) {
        CommasInsertedKeeps(s[1..], r[1..]);
      } else {
        CommasInsertedKeeps(s, r[1..]);
      }
    }
  }

  /** The replace from position i on is s[i..] with commas inserted. */
  lemma {:induction false} InsertFromInsertsCommas(s: string, i: nat)
    requires i <= |s|
    ensures CommasInserted(s[i..], InsertFrom(s, i))
    decreases |s| - i
  {
    var sep: string := if SeparatorAt(s, i) then "," else "";
    if i == |s| {
      assert InsertFrom(s, i) == sep;
      assert s[i..] == [];
    } else {
      InsertFromInsertsCommas(s, i + 1);
      var tail := [s[i]] + InsertFrom(s, i + 1);
      InsertFromStep(s, i);
      assert s[i..][1..] == s[i + 1..];
      assert tail[1..] == InsertFrom(s, i + 1);
      assert CommasInserted(s[i..], tail);
      if sep != [] {
        assert (sep + tail)[1..] == tail;
      }
    }
  }

  /** The text with every "," taken out. */
  function RemoveCommas(s: string): (r: string)
    ensures |r| <= |s|
    ensures forall i :: 0 <= i < |r| ==> r[i] != ','
  {
    if s == [] then []
    else (if s[0] == ',' then [] else [s[0]]) + RemoveCommas(s[1..])
  }

  /** A text without commas is left as it is. */
  lemma {:induction false} RemoveCommasWithout(s: string)
    requires ',' !in s
    ensures RemoveCommas(s) == s
  {
    if s != [] {
      assert s == [s[0]] + s[1..];
      RemoveCommasWithout(s[1..]);
    }
  }

  /** On a digit string the lookahead succeeds exactly when the number of
      digits still ahead is a positive multiple of three. */
  lemma DigitGroupsAheadOnDigits(t: string)
    requires AllDigits(t)
    ensures DigitGroupsAhead(t) <==> |t| > 0 && |t| % 3 == 0
  {
    if |t| > 0 && |t| % 3 == 0 {
      var k := |t| / 3;
      assert t[..3 * k] == t;
      assert DigitGroupsThenStop(t, k);
    }
    if DigitGroupsAhead(t) {
      var k :| 1 <= k <= |t| / 3 && DigitGroupsThenStop(t, k);
      assert 3 * k == |t|;
    }
  }

  /** The meaning of `\B(?=(\d{3})+(?!\d))` on a string of digits: it
      matches before position i exactly when i is neither the first nor the
      end position and the number of digits from i to the end is a multiple
      of three. */
  lemma SeparatorAtOnDigits(d: string, i: nat)
    requires AllDigits(d) && i <= |d|
    ensures SeparatorAt(d, i) <==> 0 < i < |d| && (|d| - i) % 3 == 0
  {
    assert AllDigits(d[i..]) by {
      forall k | 0 <= k < |d[i..]| ensures IsDigit(d[i..][k]) {
        assert d[i..][k] == d[i + k];
      }
    }
    DigitGroupsAheadOnDigits(d[i..]);
    if 0 < i < |d| {
      assert IsWordChar(d[i - 1]) && IsWordChar(d[i]);
    }
  }

  /** Whether the pattern matches at a position depends only on the character
      just before it and on the text after it, so a prefix in front of the
      text changes nothing past its own first character. */
  lemma SeparatorAtAfterPrefix(p: string, d: string, j: nat)
    requires 1 <= j <= |d|
    ensures SeparatorAt(p + d, |p| + j) == SeparatorAt(d, j)
  {
    var s := p + d;
    assert s[|p| + j..] == d[j..];
    assert s[|p| + j - 1] == d[j - 1];
    assert |p| + j < |s| ==> s[|p| + j] == d[j];
  }

  /** The replace of p + d agrees with the replace of d from d's second
      position on. */
  lemma {:induction false} InsertFromAfterPrefix(p: string, d: string, j: nat)
    requires 1 <= j <= |d|
    ensures InsertFrom(p + d, |p| + j) == InsertFrom(d, j)
    decreases |d| - j
  {
    SeparatorAtAfterPrefix(p, d, j);
    if j < |d| {
      InsertFromAfterPrefix(p, d, j + 1);
      assert (p + d)[|p| + j] == d[j];
    }
  }
}
