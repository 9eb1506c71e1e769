/** The two cleaning callbacks `Home` hands to the CSV parser
    (pages/index.js): `transformHeader` trims every header, and `transform`
    trims the cells of the "Page name" column and passes every other cell
    through. Both rest on `String.prototype.trim`. */
module Columns {

  /** The characters `String.prototype.trim` removes: the ECMAScript
      WhiteSpace characters (tab, vertical tab, form feed, space, no-break
      space, the byte order mark and the other space separators of Unicode
      category Zs) and the LineTerminator characters (line feed, carriage
      return, line separator, paragraph separator). */
  predicate IsWhitespace(c: char) {
    c == '\t' || c == '\n' || c == '\U{000B}' || c == '\U{000C}' || c == '\r'
    || c == ' ' || c == '\U{00A0}' || c == '\U{1680}'
    || ('\U{2000}' <= c <= '\U{200A}')
    || c == '\U{2028}' || c == '\U{2029}' || c == '\U{202F}' || c == '\U{205F}'
    || c == '\U{3000}' || c == '\U{FEFF}'
  }

  predicate AllWhitespace(s: string) {
    forall k :: 0 <= k < |s| ==> IsWhitespace(s[k])
  }

  /** r is what is left of s when the whitespace run s[..i] in front and the
      whitespace run after r are cut off, and r neither starts nor ends with
      whitespace. */
  predicate TrimmedAt(s: string, i: nat, r: string) {
    && i + |r| <= |s|
    && s[i..i + |r|] == r
    && AllWhitespace(s[..i])
    && AllWhitespace(s[i + |r|..])
    && (r != [] ==> !IsWhitespace(r[0]) && !IsWhitespace(r[|r| - 1]))
  }

  /** `s.trimStart()`: a suffix of s, and what was cut off is whitespace. */
  function TrimStart(s: string): (r: string)
    ensures |r| <= |s| && r == s[|s| - |r|..]
    ensures AllWhitespace(s[..|s| - |r|])
    ensures r != [] ==> !IsWhitespace(r[0])
  {
    if s != [] && IsWhitespace(s[0]) then
      var r := TrimStart(s[1..]);
      var k := |s| - |r|;
      assert AllWhitespace(s[..k]) by {
        forall j | 0 <= j < k ensures IsWhitespace(s[..k][j]) {
          if j > 0 {
            assert s[..k][j] == s[1..][..k - 1][j - 1];
          }
        }
      }
      r
    else s
  }

  /** `s.trimEnd()`: a prefix of s, and what was cut off is whitespace. */
  function TrimEnd(s: string): (r: string)
    ensures |r| <= |s| && r == s[..|r|]
    ensures AllWhitespace(s[|r|..])
    ensures r != [] ==> !IsWhitespace(r[|r| - 1])
  {
    if s != [] && IsWhitespace(s[|s| - 1]) then
      var r := TrimEnd(s[..|s| - 1]);
      assert s[|r|..] == s[..|s| - 1][|r|..] + [s[|s| - 1]];
      r
    else s
  }

  /** `s.trim()`: s with its leading and trailing whitespace cut off. */
  function Trim(s: string): (r: string)
    ensures exists i: nat :: TrimmedAt(s, i, r)
  {
    var t := TrimStart(s);
    var r := TrimEnd(t);
    CutBothEnds(s, t, r);
    assert TrimmedAt(s, |s| - |t|, r);
    r
  }

  /** A whitespace run cut off the front of s, then one cut off the back of
      what is left, is a cut as TrimmedAt describes. */
  lemma CutBothEnds(s: string, t: string, r: string)
    requires |t| <= |s| && t == s[|s| - |t|..] && AllWhitespace(s[..|s| - |t|])
    requires t != [] ==> !IsWhitespace(t[0])
    requires |r| <= |t| && r == t[..|r|] && AllWhitespace(t[|r|..])
    requires r != [] ==> !IsWhitespace(r[|r| - 1])
    ensures TrimmedAt(s, |s| - |t|, r)
  {
    var i := |s| - |t|;
    assert s[i..i + |r|] == r;
    assert s[i + |r|..] == t[|r|..];
    assert r != [] ==> r[0] == t[0];
  }

  lemma AllWhitespaceAppend(a: string, b: string)
    requires AllWhitespace(a) && AllWhitespace(b)
    ensures AllWhitespace(a + b)
  {
    forall k | 0 <= k < |a + b| ensures IsWhitespace((a + b)[k]) {
      if k < |a| {
        assert (a + b)[k] == a[k];
      } else {
        assert (a + b)[k] == b[k - |a|];
      }
    }
  }

  /** trimStart takes off a whitespace run in front and stops at the first
      other character. */
  lemma {:induction false} TrimStartOf(w: string, t: string)
    requires AllWhitespace(w) && (t != [] ==> !IsWhitespace(t[0]))
    ensures TrimStart(w + t) == t
  {
    if w == [] {
      assert w + t == t;
    } else {
      assert (w + t)[1..] == w[1..] + t;
      TrimStartOf(w[1..], t);
    }
  }

  /** trimEnd takes off a whitespace run behind and stops at the last other
      character. */
  lemma {:induction false} TrimEndOf(t: string, w: string)
    requires AllWhitespace(w) && (t != [] ==> !IsWhitespace(t[|t| - 1]))
    ensures TrimEnd(t + w) == t
  {
    if w == [] {
      assert t + w == t;
    } else {
      var w' := w[..|w| - 1];
      assert (t + w)[..|t + w| - 1] == t + w';
      TrimEndOf(t, w');
    }
  }

  /** Trimming a string made of a whitespace run, a middle that neither
      starts nor ends with whitespace, and a whitespace run gives the
      middle. */
  lemma TrimOf(lead: string, r: string, trail: string)
    requires AllWhitespace(lead) && AllWhitespace(trail)
    requires r != [] ==> !IsWhitespace(r[0]) && !IsWhitespace(r[|r| - 1])
    ensures Trim(lead + r + trail) == r
  {
    if r == [] {
      AllWhitespaceAppend(lead, trail);
      assert lead + r + trail == (lead + trail) + r;
      TrimStartOf(lead + trail, r);
    } else {
      assert lead + r + trail == lead + (r + trail);
      TrimStartOf(lead, r + trail);
      TrimEndOf(r, trail);
    }
  }

  /** There is only one way to cut whitespace off both ends of a string so
      that no whitespace is left at either end: TrimmedAt determines the
      result, which is therefore Trim(s). */
  lemma TrimmedAtUnique(s: string, i: nat, r: string)
    requires TrimmedAt(s, i, r)
    ensures r == Trim(s)
  {
    assert s == s[..i] + r + s[i + |r|..];
    TrimOf(s[..i], r, s[i + |r|..]);
  }

  /** Trimming twice is trimming once. */
  lemma TrimIdempotent(s: string)
    ensures Trim(Trim(s)) == Trim(s)
  {
    var r := Trim(s);
    var i: nat :| TrimmedAt(s, i, r);
    assert [] + r + [] == r;
    TrimOf([], r, []);
  }

  /** Whitespace put around a string is all that trimming takes off it. */
  lemma TrimPadding(w1: string, s: string, w2: string)
    requires AllWhitespace(w1) && AllWhitespace(w2)
    ensures Trim(w1 + s + w2) == Trim(s)
  {
    var r := Trim(s);
    var i: nat :| TrimmedAt(s, i, r);
    PaddedTrimmedAt(w1, s, w2, i, r);
  }

  lemma PaddedTrimmedAt(w1: string, s: string, w2: string, i: nat, r: string)
    requires AllWhitespace(w1) && AllWhitespace(w2) && TrimmedAt(s, i, r)
    ensures Trim(w1 + s + w2) == r
  {
    var lead, trail := s[..i], s[i + |r|..];
    assert s == lead + r + trail;
    AllWhitespaceAppend(w1, lead);
    AllWhitespaceAppend(trail, w2);
    assert w1 + s + w2 == (w1 + lead) + r + (trail + w2);
    TrimOf(w1 + lead, r, trail + w2);
  }

  /** The header of the column whose cells are trimmed. */
  const PageNameHeader: string := "Page name"

  /** `transformHeader`: every header is trimmed before it is matched, so
      the header text is kept up to surrounding whitespace. */
  function TransformHeader(header: string): (r: string)
    ensures exists i: nat :: TrimmedAt(header, i, r)
  {
    Trim(header)
  }

  /** `transform(value, header)`: a cell of the "Page name" column loses its
      surrounding whitespace and nothing else; a cell of any other column
      comes back unchanged. */
  function TransformValue(value: string, header: string): (r: string)
    ensures header == PageNameHeader ==> exists i: nat :: TrimmedAt(value, i, r)
    ensures header != PageNameHeader ==> r == value
    ensures r != value ==>
      header == PageNameHeader && |value| >= 1
      && (IsWhitespace(value[0]) || IsWhitespace(value[|value| - 1]))
  {
    if header == PageNameHeader then Trim(value) else value
  }

  /** Cleaning a header that is already clean changes nothing. */
  lemma TransformHeaderIdempotent(header: string)
    ensures TransformHeader(TransformHeader(header)) == TransformHeader(header)
  {
    TrimIdempotent(header);
  }

  /** A header written with whitespace around "Page name" is cleaned to
      exactly "Page name", so its cells are the ones trimmed. */
  lemma PaddedPageNameHeader(w1: string, w2: string, value: string)
    requires AllWhitespace(w1) && AllWhitespace(w2)
    ensures TransformHeader(w1 + PageNameHeader + w2) == PageNameHeader
    ensures TransformValue(value, TransformHeader(w1 + PageNameHeader + w2)) == Trim(value)
  {
    var name := PageNameHeader;
    assert name[0] == 'P' && name[|name| - 1] == 'e';
    TrimOf(w1, name, w2);
  }

  /** Cleaning a cell twice is cleaning it once, whatever its column. */
  lemma TransformValueIdempotent(value: string, header: string)
    ensures TransformValue(TransformValue(value, header), header) == TransformValue(value, header)
  {
    TrimIdempotent(value);
  }
}
