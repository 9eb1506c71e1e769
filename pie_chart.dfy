/** What the pie chart of `Home` (pages/index.js) derives from the rows it
    shows: the name token in each slice label, `name.split(" ")[0]`, and the
    fill of each slice, `COLORS[index % COLORS.length]`. */
module PieChart {
  import opened Text

  /** `parts.join(" ")`. */
  function Join(parts: seq<string>): string
    requires |parts| >= 1
  {
    if |parts| == 1 then parts[0] else parts[0] + " " + Join(parts[1..])
  }

  /** A join starts with the first piece, and a space follows it when more
      pieces come. */
  lemma JoinStart(parts: seq<string>)
    requires |parts| >= 1
    ensures var s := Join(parts);
      |s| >= |parts[0]| && s[..|parts[0]|] == parts[0]
      && (|parts| > 1 ==> |s| > |parts[0]| && s[|parts[0]|] == ' ')
  {
  }

  /** A character put in front of the first piece stands in front of the
      joined text. */
  lemma JoinFront(c: char, head: string, tail: seq<string>)
    ensures Join([[c] + head] + tail) == [c] + Join([head] + tail)
  {
    var ps, qs := [[c] + head] + tail, [head] + tail;
    if tail != [] {
      assert ps[1..] == tail && qs[1..] == tail;
      var rest := Join(tail);
      assert Join(ps) == ([c] + head) + " " + rest;
      assert Join(qs) == head + " " + rest;
      assert ([c] + head) + " " + rest == [c] + (head + " " + rest);
    }
  }

  /** `s.split(" ")`: the pieces between the space characters, in order.
      There is always at least one piece, no piece holds a space, there is
      one piece more than there are spaces, and joining the pieces with
      single spaces gives back s. */
  function Split(s: string): (parts: seq<string>)
    ensures |parts| >= 1
    ensures forall k :: 0 <= k < |parts| ==> ' ' !in parts[k]
    ensures |parts| == Count(s, ' ') + 1
    ensures Join(parts) == s
  {
    if s == [] then [""]
    else
      var rest := Split(s[1..]);
      if s[0] == ' ' then
        JoinEmptyPiece(rest);
        assert s == [s[0]] + s[1..];
        [""] + rest
      else
        var parts := [[s[0]] + rest[0]] + rest[1..];
        JoinPiece(s[0], rest);
        assert s == [s[0]] + s[1..];
        parts
  }

  /** An empty piece in front of some space-free pieces puts a space in
      front of their join. */
  lemma JoinEmptyPiece(rest: seq<string>)
    requires |rest| >= 1
    requires forall k :: 0 <= k < |rest| ==> ' ' !in rest[k]
    ensures var parts := [""] + rest;
      && (forall k :: 0 <= k < |parts| ==> ' ' !in parts[k])
      && Join(parts) == " " + Join(rest)
  {
    var parts := [""] + rest;
    assert parts[1..] == rest;
  }

  /** A character that is not a space, put in front of the first of some
      space-free pieces, keeps them space-free and stands in front of their
      join. */
  lemma JoinPiece(c: char, rest: seq<string>)
    requires c != ' ' && |rest| >= 1
    requires forall k :: 0 <= k < |rest| ==> ' ' !in rest[k]
    ensures var parts := [[c] + rest[0]] + rest[1..];
      && |parts| == |rest|
      && (forall k :: 0 <= k < |parts| ==> ' ' !in parts[k])
      && Join(parts) == [c] + Join(rest)
  {
    var parts := [[c] + rest[0]] + rest[1..];
    JoinFront(c, rest[0], rest[1..]);
    assert rest == [rest[0]] + rest[1..];
    assert forall k :: 1 <= k < |parts| ==> parts[k] == rest[k];
  }

  /** Splitting a text with one more character in front. */
  lemma SplitFront(c: char, s: string)
    ensures var rest := Split(s);
      Split([c] + s) == if c == ' ' then [""] + rest else [[c] + rest[0]] + rest[1..]
  {
    assert ([c] + s)[1..] == s;
  }

  /** Splitting what was joined gives the pieces back, when no piece holds a
      space. */
  lemma {:induction false} SplitJoin(head: string, tail: seq<string>)
    requires ' ' !in head
    requires forall k :: 0 <= k < |tail| ==> ' ' !in tail[k]
    ensures Split(Join([head] + tail)) == [head] + tail
    decreases |tail|, |head|
  {
    var parts := [head] + tail;
    assert parts[1..] == tail;
    if head == [] {
      if tail != [] {
        assert tail == [tail[0]] + tail[1..];
        SplitJoin(tail[0], tail[1..]);
        assert Join(parts) == " " + Join(tail);
        SplitFront(' ', Join(tail));
      }
    } else {
      var c, head' := head[0], head[1..];
      assert head == [c] + head';
      SplitJoin(head', tail);
      JoinFront(c, head', tail);
      SplitFront(c, Join([head'] + tail));
    }
  }

  /** `name.split(" ")[0]`, the part of a page name shown in its slice
      label: the prefix of the name before its first space, or the whole
      name when it has no space. */
  function FirstToken(name: string): (token: string)
    ensures |token| <= |name| && token == name[..|token|]
    ensures ' ' !in token
    ensures |token| < |name| ==> name[|token|] == ' '
    ensures ' ' !in name ==> token == name
  {
    var parts := Split(name);
    JoinStart(parts);
    parts[0]
  }

  /** The prefix before the first space is the only prefix that has no space
      and stops at a space or at the end: FirstToken is determined by its
      contract. */
  lemma FirstTokenUnique(name: string, t: string)
    requires |t| <= |name| && t == name[..|t|] && ' ' !in t
    requires |t| < |name| ==> name[|t|] == ' '
    ensures t == FirstToken(name)
  {
    var f := FirstToken(name);
    assert |t| == |f|;
  }

  /** `COLORS`, the three slice fills. */
  const Colors: seq<string> := ["#8884d8", "#82ca9d", "#ffc658"]

  /** `COLORS[index % COLORS.length]`: always a palette entry, the first
      three slices take the palette in order. */
  function SliceColor(index: nat): (color: string)
    ensures color in Colors
    ensures index < |Colors| ==> color == Colors[index]
  {
    Colors[index % |Colors|]
  }

  /** The fills of the `Cell`s, one per displayed row: every fill is a
      palette entry, the first three rows take the palette in order, and
      from then on the fills repeat with period three. */
  function CellFills<T>(rows: seq<T>): (fills: seq<string>)
    ensures |fills| == |rows|
    ensures forall i :: 0 <= i < |fills| ==> fills[i] in Colors
    ensures forall i :: 0 <= i < |fills| && i < |Colors| ==> fills[i] == Colors[i]
    ensures forall i :: 3 <= i < |fills| ==> fills[i] == fills[i - 3]
  {
    seq(|rows|, i requires 0 <= i < |rows| => SliceColor(i))
  }

  /** The palette repeats with period three. */
  lemma SliceColorPeriodic(index: nat)
    ensures SliceColor(index + 3) == SliceColor(index)
  {
  }

  /** Neighbouring slices never share a colour, and any three neighbouring
      slices use all three colours. */
  lemma NeighbourSlicesDiffer(index: nat)
    ensures SliceColor(index) != SliceColor(index + 1)
    ensures {SliceColor(index), SliceColor(index + 1), SliceColor(index + 2)} == set c | c in Colors
  {
    assert Colors[0] != Colors[1] && Colors[1] != Colors[2] && Colors[0] != Colors[2] by {
      assert Colors[0][2] != Colors[1][2];
      assert Colors[1][2] != Colors[2][2];
      assert Colors[0][2] != Colors[2][2];
    }
  }
}
