/** `formatNumber` (pages/index.js): the text of a number with "," thousands
    separators, used for the axis ticks, the bar-chart tooltip and the
    pie-chart tooltip. The values it is given are whole numbers of pesos and
    ad counts, so it is modelled on integers. */
module NumberFormat {
  import opened Decimal
  import opened Separators
  import opened Text

  /** Text made only of groups of three digits, each preceded by a comma. */
  predicate TailGroups(u: string)
    decreases |u|
  {
    u == [] || (|u| >= 4 && u[0] == ',' && AllDigits(u[1..4]) && TailGroups(u[4..]))
  }

  /** The first r characters of t are digits, r is between one and three,
      and the rest of t is groups ",ddd". */
  predicate LeadThenGroups(t: string, r: nat) {
    1 <= r <= 3 && r <= |t| && AllDigits(t[..r]) && TailGroups(t[r..])
  }

  /** Digits written in thousands groups: a first group of one to three
      digits, then every later group of exactly three digits, behind a
      single comma. */
  predicate WellGrouped(t: string) {
    exists r :: 1 <= r <= 3 && LeadThenGroups(t, r)
  }

  /** How many digits of a numeral of L digits stand before its first
      separator. */
  function LeadLength(L: nat): (r: nat)
    requires L >= 1
    ensures 1 <= r <= 3 && r <= L && (L - r) % 3 == 0
    ensures (L - r) / 3 == (L - 1) / 3
    ensures r == L <==> L <= 3
  {
    (L - 1) % 3 + 1
  }

  /** `formatNumber(x)` for an integer x: `x.toString()` with the global
      replace of `\B(?=(\d{3})+(?!\d))` by ",". Taking the commas out gives
      back `x.toString()`; the digits come in thousands groups, behind the
      minus sign when x is negative. */
  function FormatNumber(x: int): (r: string)
    ensures RemoveCommas(r) == IntToString(x)
    ensures x >= 0 ==> WellGrouped(r)
    ensures x < 0 ==> |r| >= 2 && r[0] == '-' && WellGrouped(r[1..])
  {
    var s := IntToString(x);
    assert ',' !in s by {
      if x < 0 {
        assert s == "-" + s[1..];
        assert forall i :: 0 <= i < |s[1..]| ==> IsDigit(s[1..][i]);
      }
    }
    RemoveCommasWithout(s);
    if x >= 0 then
      GroupedDigits(s);
      InsertSeparators(s)
    else
      var d := NatToString(-x);
      assert s == "-" + d;
      MinusSignInsert(d);
      GroupedDigits(d);
      assert InsertSeparators(s)[1..] == InsertFrom(d, 0);
      InsertSeparators(s)
  }

  /** Up to the end of the first group the replace writes no separator. */
  lemma InsertFromLead(d: string, i: nat)
    requires AllDigits(d) && |d| >= 1 && i <= LeadLength(|d|)
    ensures InsertFrom(d, i) == d[i..LeadLength(|d|)] + InsertFrom(d, LeadLength(|d|))
  {
    var r := LeadLength(|d|);
    forall k | i <= k < r ensures !SeparatorAt(d, k) {
      SeparatorAtOnDigits(d, k);
      if k > 0 {
        InsideLead(|d|, k);
      }
    }
    InsertFromPlain(d, i, r);
  }

  /** Where the pattern matches nowhere in a stretch, the replace copies the
      stretch unchanged. */
  lemma {:induction false} InsertFromPlain(s: string, i: nat, j: nat)
    requires i <= j <= |s|
    requires forall k :: i <= k < j ==> !SeparatorAt(s, k)
    ensures InsertFrom(s, i) == s[i..j] + InsertFrom(s, j)
    decreases j - i
  {
    if i < j {
      InsertFromStep(s, i);
      InsertFromPlain(s, i + 1, j);
      assert s[i..j] == [s[i]] + s[i + 1..j];
    }
  }

  /** Inside the first group the number of digits ahead is never a multiple
      of three. */
  lemma InsideLead(L: nat, i: nat)
    requires L >= 1 && 0 < i < LeadLength(L)
    ensures (L - i) % 3 != 0
  {
    var r := LeadLength(L);
    assert L - i == (L - r) + (r - i);
  }

  /** Where a multiple of three digits is still ahead, the replace writes
      a comma and the next three digits, with no separator between them. */
  lemma InsertFromGroup(d: string, i: nat)
    requires AllDigits(d) && 1 <= i < |d| && (|d| - i) % 3 == 0
    ensures i + 3 <= |d|
    ensures InsertFrom(d, i) == [',', d[i], d[i + 1], d[i + 2]] + InsertFrom(d, i + 3)
  {
    SeparatorAtOnDigits(d, i);
    SeparatorAtOnDigits(d, i + 1);
    SeparatorAtOnDigits(d, i + 2);
    InsertFromStep(d, i + 2);
    InsertFromStep(d, i + 1);
    InsertFromStep(d, i);
  }

  /** From a position with a multiple of three digits still ahead, the
      replace writes groups ",ddd", one per three digits. */
  lemma {:induction false} InsertFromTail(d: string, i: nat, m: nat)
    requires AllDigits(d) && 1 <= i && i + 3 * m == |d|
    ensures TailGroups(InsertFrom(d, i))
    ensures |InsertFrom(d, i)| == 4 * m
    ensures Count(InsertFrom(d, i), ',') == m
    decreases m
  {
    if m > 0 {
      assert (|d| - i) % 3 == 0 by {
        assert |d| - i == 3 * (m - 1) + 3;
      }
      InsertFromGroup(d, i);
      InsertFromTail(d, i + 3, m - 1);
      GroupThenTail(d[i], d[i + 1], d[i + 2], InsertFrom(d, i + 3));
    } else {
      SeparatorAtOnDigits(d, i);
    }
  }

  /** A group ",ddd" in front of grouped text keeps it grouped and adds one
      comma. */
  lemma GroupThenTail(a: char, b: char, c: char, rest: string)
    requires IsDigit(a) && IsDigit(b) && IsDigit(c) && TailGroups(rest)
    ensures TailGroups([',', a, b, c] + rest)
    ensures Count([',', a, b, c] + rest, ',') == Count(rest, ',') + 1
  {
    var group := [',', a, b, c];
    var u := group + rest;
    assert u[4..] == rest;
    assert u[1..4] == [a, b, c];
    CountAppend(group, rest, ',');
  }

  /** The replace turns a numeral into its thousands grouping, with one
      comma for each full group of three digits after the first group. */
  lemma GroupedDigits(d: string)
    requires AllDigits(d) && |d| >= 1
    ensures LeadThenGroups(InsertFrom(d, 0), LeadLength(|d|))
    ensures Count(InsertFrom(d, 0), ',') == (|d| - 1) / 3
  {
    var r := LeadLength(|d|);
    LeadThenTail(d);
    LeadBeforeGroups(d[..r], InsertFrom(d, r));
  }

  /** The replace of a numeral is its first group, untouched, followed by
      the ",ddd" groups of the rest. */
  lemma LeadThenTail(d: string)
    requires AllDigits(d) && |d| >= 1
    ensures InsertFrom(d, 0) == d[..LeadLength(|d|)] + InsertFrom(d, LeadLength(|d|))
    ensures AllDigits(d[..LeadLength(|d|)])
    ensures TailGroups(InsertFrom(d, LeadLength(|d|)))
    ensures Count(InsertFrom(d, LeadLength(|d|)), ',') == (|d| - 1) / 3
  {
    var r := LeadLength(|d|);
    InsertFromLead(d, 0);
    InsertFromTail(d, r, (|d| - 1) / 3);
    assert d[0..r] == d[..r];
    assert AllDigits(d[..r]) by {
      forall k | 0 <= k < r ensures IsDigit(d[..r][k]) {
        assert d[..r][k] == d[k];
      }
    }
  }

  /** One to three digits in front of ",ddd" groups make grouped digits,
      with no more commas than the groups have. */
  lemma LeadBeforeGroups(lead: string, tail: string)
    requires 1 <= |lead| <= 3 && AllDigits(lead) && TailGroups(tail)
    ensures LeadThenGroups(lead + tail, |lead|)
    ensures Count(lead + tail, ',') == Count(tail, ',')
  {
    var t := lead + tail;
    assert t[..|lead|] == lead && t[|lead|..] == tail;
    DigitsHaveNoComma(lead);
    CountAppend(lead, tail, ',');
  }

  lemma DigitsHaveNoComma(s: string)
    requires AllDigits(s)
    ensures ',' !in s
  {
  }

  /** A minus sign in front of a numeral is passed over: `\B` fails between
      the sign and the first digit, and the lookahead fails at the sign. */
  lemma MinusSignInsert(d: string)
    requires AllDigits(d) && |d| >= 1
    ensures InsertFrom("-" + d, 0) == "-" + InsertFrom(d, 0)
  {
    var s := "-" + d;
    assert !DigitGroupsAhead(s[0..]) by {
      forall k | 1 <= k <= |s| / 3 ensures !DigitGroupsThenStop(s, k) {
        assert s[..3 * k][0] == '-';
      }
    }
    assert !SeparatorAt(s, 1);
    SeparatorAtOnDigits(d, 0);
    InsertFromAfterPrefix("-", d, 1);
    assert InsertFrom(s, 1) == [d[0]] + InsertFrom(s, 2);
    assert InsertFrom(s, 0) == "-" + InsertFrom(s, 1);
  }

  /** Commas in a grouped tail sit at every fourth position. */
  lemma {:induction false} TailGroupCommas(u: string)
    requires TailGroups(u)
    ensures |u| % 4 == 0
    ensures forall j :: 0 <= j < |u| ==> (u[j] == ',' <==> j % 4 == 0)
    decreases |u|
  {
    if u != [] {
      TailGroupCommas(u[4..]);
      forall j | 0 <= j < |u| ensures u[j] == ',' <==> j % 4 == 0 {
        if j >= 4 {
          assert u[j] == u[4..][j - 4];
        } else if j > 0 {
          assert u[j] == u[1..4][j - 1];
        }
      }
    }
  }

  /** In grouped digits the commas are exactly at the positions a multiple
      of four before the end; hence there is no leading comma, no trailing
      comma and no two commas side by side. */
  lemma GroupedCommas(t: string)
    requires WellGrouped(t)
    ensures forall j :: 0 <= j < |t| ==> (t[j] == ',' <==> (|t| - j) % 4 == 0)
    ensures |t| >= 1 && t[0] != ',' && t[|t| - 1] != ','
    ensures forall j :: 0 <= j < |t| - 1 ==> !(t[j] == ',' && t[j + 1] == ',')
  {
    var r :| 1 <= r <= 3 && LeadThenGroups(t, r);
    TailGroupCommas(t[r..]);
    forall j | 0 <= j < |t| ensures t[j] == ',' <==> (|t| - j) % 4 == 0 {
      GroupedCommaAt(t, r, j);
    }
    assert (|t| - 0) % 4 != 0 && (|t| - (|t| - 1)) % 4 != 0;
    forall j | 0 <= j < |t| - 1 ensures !(t[j] == ',' && t[j + 1] == ',') {
      assert (|t| - j) % 4 != 0 || (|t| - (j + 1)) % 4 != 0;
    }
  }

  /** One position of GroupedCommas. */
  lemma GroupedCommaAt(t: string, r: nat, j: nat)
    requires LeadThenGroups(t, r) && j < |t|
    requires |t[r..]| % 4 == 0
    requires forall k :: 0 <= k < |t[r..]| ==> (t[r..][k] == ',' <==> k % 4 == 0)
    ensures t[j] == ',' <==> (|t| - j) % 4 == 0
  {
    var u := t[r..];
    if j < r {
      assert t[j] == t[..r][j] && IsDigit(t[..r][j]);
      assert |t| - j == |u| + (r - j) && 1 <= r - j <= 3;
    } else {
      assert t[j] == u[j - r];
      assert |t| - j == |u| - (j - r);
    }
  }

  /** `formatNumber(n)` has (|digits| - 1) / 3 commas and is longer than
      `n.toString()` by exactly that many characters. */
  lemma CommaCount(n: nat)
    ensures var L := |NatToString(n)|;
      Count(FormatNumber(n), ',') == (L - 1) / 3
      && |FormatNumber(n)| == L + (L - 1) / 3
  {
    var d := NatToString(n);
    GroupedDigits(d);
    DigitsHaveNoComma(d);
  }

  /** Below 1000 the text is `n.toString()` unchanged; from 1000 on it has
      at least one comma. */
  lemma SmallNumbersUnchanged(n: nat)
    ensures FormatNumber(n) == NatToString(n) <==> n < 1000
    ensures ',' in FormatNumber(n) <==> n >= 1000
  {
    var d := NatToString(n);
    var t := FormatNumber(n);
    CommaCount(n);
    DigitCount(n, 3);
    assert Pow10(3) == 1000;
    assert ',' !in d by {
      assert forall k :: 0 <= k < |d| ==> IsDigit(d[k]);
    }
    if ',' !in t {
      RemoveCommasWithout(t);
    }
  }

  /** Reading the text back with its commas taken out gives the number:
      the grouping loses nothing. */
  lemma ParseFormatted(x: int)
    ensures ParseInt(RemoveCommas(FormatNumber(x))) == x
  {
    ParseIntToString(x);
  }

  /** Different numbers never get the same text. */
  lemma FormatNumberInjective(x: int, y: int)
    requires FormatNumber(x) == FormatNumber(y)
    ensures x == y
  {
    ParseFormatted(x);
    ParseFormatted(y);
  }

  /** The sign is never separated from the digits: a negative number is
      formatted as a minus sign in front of its magnitude's text. */
  lemma NegativeFormat(x: int)
    requires x < 0
    ensures FormatNumber(x) == "-" + FormatNumber(-x)
  {
    MinusSignInsert(NatToString(-x));
  }
}
