/**
 * Numeric field extraction: `Series.str.extract(r'([-+]?[0-9]*\.?[0-9]+)')`
 * takes, from each cell text, the leftmost match of "optional sign, digits,
 * optional decimal point, at least one digit".  The match is kept as an exact
 * decimal; the conversion to a floating-point number is not modelled.
 */
module Numbers {
  import opened Wrappers
  import opened Digits

  predicate IsSign(c: char) {
    c == '+' || c == '-'
  }

  /** Where the digits of a candidate match `s[p..q]` begin: after its sign, if it has one. */
  function BodyStart(s: string, p: nat, q: nat): nat
    requires p <= q <= |s|
  {
    if p < q && IsSign(s[p]) then p + 1 else p
  }

  /**
   * `s[p..q]` belongs to the language of `[-+]?[0-9]*\.?[0-9]+`: after an
   * optional sign, only digits and at most one point, ending in a digit.
   */
  predicate NumeralAt(s: string, p: nat, q: nat)
    requires p <= q <= |s|
  {
    var b := BodyStart(s, p, q);
    && b < q
    && IsDigit(s[q - 1])
    && (forall i :: b <= i < q ==> IsDigit(s[i]) || s[i] == '.')
    && (forall i, j :: b <= i < j < q && s[i] == '.' ==> s[j] != '.')
  }

  /** A whole string in the language of the pattern. */
  predicate IsNumeral(t: string) {
    NumeralAt(t, 0, |t|)
  }

  /** End of the run of digits that starts at `p`. */
  function DigitsEnd(s: string, p: nat): (q: nat)
    requires p <= |s|
    ensures p <= q <= |s|
    ensures forall i :: p <= i < q ==> IsDigit(s[i])
    ensures q == |s| || !IsDigit(s[q])
    decreases |s| - p
  {
    if p < |s| && IsDigit(s[p]) then DigitsEnd(s, p + 1) else p
  }


  /** No numeral starts at `p`. */
  ghost predicate NoMatchAt(s: string, p: nat)
    requires p <= |s|
  {
    forall q :: p <= q <= |s| ==> !NumeralAt(s, p, q)
  }

  /** `s[p..q]` is the longest numeral starting at `p`. */
  ghost predicate LongestAt(s: string, p: nat, q: nat)
    requires p <= q <= |s|
  {
    NumeralAt(s, p, q) && forall q' :: q < q' <= |s| ==> !NumeralAt(s, p, q')
  }

  /** A numeral found inside a string is a numeral on its own. */
  lemma NumeralAtSlice(s: string, p: nat, q: nat)
    requires p <= q <= |s|
    ensures NumeralAt(s, p, q) <==> IsNumeral(s[p..q])
  {
    var t := s[p..q];
    assert forall i :: 0 <= i < |t| ==> t[i] == s[p + i];
    assert BodyStart(t, 0, |t|) == BodyStart(s, p, q) - p;
    if NumeralAt(s, p, q) {
      var b := BodyStart(s, p, q) - p;
      forall i, j | b <= i < j < |t| && t[i] == '.'
        ensures t[j] != '.'
      {
        assert s[p + i] == '.';
      }
    }
    if IsNumeral(t) {
      var b := BodyStart(s, p, q);
      forall i, j | b <= i < j < q && s[i] == '.'
        ensures s[j] != '.'
      {
        assert t[i - p] == '.';
      }
    }
  }

  /** Digits, a point and a digit after `b`: the longest numeral runs to the end of the second run of digits. */
  lemma MatchEndFraction(s: string, p: nat, b: nat, e: nat)
    requires p <= |s| && b == BodyStart(s, p, |s|) && e == DigitsEnd(s, b)
    requires e + 1 < |s| && s[e] == '.' && IsDigit(s[e + 1])
    ensures LongestAt(s, p, DigitsEnd(s, e + 1))
  {
    var f := DigitsEnd(s, e + 1);
    assert forall q :: b < q <= |s| ==> BodyStart(s, p, q) == b;
    assert NumeralAt(s, p, f);
    forall q' | f < q' <= |s|
      ensures !NumeralAt(s, p, q')
    {
      assert !IsDigit(s[f]);
      if s[f] == '.' {
        assert s[e] == '.' && e < f;
      }
    }
  }

  /** Digits after `b` and no point followed by a digit: the longest numeral is the run of digits. */
  lemma MatchEndInteger(s: string, p: nat, b: nat, e: nat)
    requires p <= |s| && b == BodyStart(s, p, |s|) && e == DigitsEnd(s, b)
    requires !(e + 1 < |s| && s[e] == '.' && IsDigit(s[e + 1])) && b < e
    ensures LongestAt(s, p, e)
  {
    assert forall q :: b < q <= |s| ==> BodyStart(s, p, q) == b;
    assert NumeralAt(s, p, e);
    forall q' | e < q' <= |s|
      ensures !NumeralAt(s, p, q')
    {
      if s[e] == '.' && e + 1 < q' {
        assert !IsDigit(s[e + 1]);
      }
    }
  }

  /** No digit after `b`, and no point followed by a digit: no numeral starts at `p`. */
  lemma MatchEndNone(s: string, p: nat, b: nat)
    requires p <= |s| && b == BodyStart(s, p, |s|) && b == DigitsEnd(s, b)
    requires !(b + 1 < |s| && s[b] == '.' && IsDigit(s[b + 1]))
    ensures NoMatchAt(s, p)
  {
    assert forall q :: b < q <= |s| ==> BodyStart(s, p, q) == b;
    forall q | p <= q <= |s|
      ensures !NumeralAt(s, p, q)
    {
      if b < q && s[b] == '.' && b + 1 < q {
        assert !IsDigit(s[b + 1]);
      }
    }
  }

  /**
   * The end of the longest numeral that starts at `p`, where the backtracking
   * regex ends its match there; None exactly when no numeral starts at `p`.
   */
  function MatchEnd(s: string, p: nat): (r: Option<nat>)
    requires p <= |s|
    ensures r.Some? ==> p < r.value <= |s| && LongestAt(s, p, r.value)
    ensures r.None? ==> NoMatchAt(s, p)
  {
    var b := BodyStart(s, p, |s|);
    var e := DigitsEnd(s, b);
    if e + 1 < |s| && s[e] == '.' && IsDigit(s[e + 1]) then
      MatchEndFraction(s, p, b, e);
      Some(DigitsEnd(s, e + 1))
    else if b < e then
      MatchEndInteger(s, p, b, e);
      Some(e)
    else
      MatchEndNone(s, p, b);
      None
  }

  /**
   * `re.search` from position `p` on: the leftmost start at which a numeral
   * begins and the longest numeral there; None only when no position has one.
   */
  function SearchNumeral(s: string, p: nat): (r: Option<(nat, nat)>)
    requires p <= |s|
    ensures r.Some? ==>
      && p <= r.value.0 < r.value.1 <= |s|
      && LongestAt(s, r.value.0, r.value.1)
      && forall a' :: p <= a' < r.value.0 ==> NoMatchAt(s, a')
    ensures r.None? ==> forall a' :: p <= a' <= |s| ==> NoMatchAt(s, a')
    decreases |s| - p
  {
    match MatchEnd(s, p)
    case Some(q) => Some((p, q))
    case None => if p < |s| then SearchNumeral(s, p + 1) else None
  }

  /** An exact decimal: (-1 if negative) * digits / 10^scale. */
  datatype Decimal = Decimal(negative: bool, digits: nat, scale: nat)

  /** The digits of `t[i..j]`, in order, without sign or point. */
  function DigitsIn(t: string, i: nat, j: nat): (ds: string)
    requires i <= j <= |t|
    ensures forall x :: 0 <= x < |ds| ==> IsDigit(ds[x])
    decreases j
  {
    if i == j then []
    else DigitsIn(t, i, j - 1) + (if IsDigit(t[j - 1]) then [t[j - 1]] else [])
  }

  /** The digits of the whole of `t`. */
  function DigitsOf(t: string): (ds: string)
    ensures forall x :: 0 <= x < |ds| ==> IsDigit(ds[x])
  {
    DigitsIn(t, 0, |t|)
  }

  /** Position of the first point in `s` at or after `b`, or |s| when there is none. */
  function PointIndex(s: string, b: nat): (k: nat)
    requires b <= |s|
    ensures b <= k <= |s|
    ensures forall i :: b <= i < k ==> s[i] != '.'
    ensures k < |s| ==> s[k] == '.'
    decreases |s| - b
  {
    if b == |s| || s[b] == '.' then b else PointIndex(s, b + 1)
  }

  /** A run of digits is its own digits. */
  lemma {:induction false} DigitsInRun(t: string, i: nat, j: nat)
    requires i <= j <= |t|
    requires forall x :: i <= x < j ==> IsDigit(t[x])
    ensures DigitsIn(t, i, j) == t[i..j]
    decreases j
  {
    if i < j {
      DigitsInRun(t, i, j - 1);
      assert t[i..j] == t[i..j - 1] + [t[j - 1]];
    }
  }

  /** The digits of two adjacent pieces, joined. */
  lemma {:induction false} DigitsInSplit(t: string, i: nat, m: nat, j: nat)
    requires i <= m <= j <= |t|
    ensures DigitsIn(t, i, j) == DigitsIn(t, i, m) + DigitsIn(t, m, j)
    decreases j
  {
    if m < j {
      DigitsInSplit(t, i, m, j - 1);
    }
  }

  /**
   * The digits of a text made of a sign or nothing (`t[..b]`), digits up to
   * `k`, and optionally a point at `k` and more digits.
   */
  lemma DigitsOfSplit(t: string, b: nat, k: nat)
    requires b <= k <= |t| && b <= 1
    requires b == 1 ==> !IsDigit(t[0])
    requires forall i :: b <= i < k ==> IsDigit(t[i])
    requires k < |t| ==> t[k] == '.' && forall i :: k < i < |t| ==> IsDigit(t[i])
    ensures DigitsOf(t) == t[b..k] + (if k < |t| then t[k + 1..] else [])
  {
    assert DigitsIn(t, 0, b) == [];
    DigitsInSplit(t, 0, b, |t|);
    DigitsInSplit(t, b, k, |t|);
    DigitsInRun(t, b, k);
    if k < |t| {
      DigitsInSplit(t, k, k + 1, |t|);
      assert DigitsIn(t, k, k + 1) == [];
      DigitsInRun(t, k + 1, |t|);
      assert t[k + 1..|t|] == t[k + 1..];
    } else {
      assert DigitsIn(t, k, |t|) == [];
    }
  }

  /**
   * The value of a numeral's text as an exact decimal: its digits without sign
   * and point, scaled by the number of digits after the point.
   */
  function ToDecimal(t: string): (r: Decimal)
    requires IsNumeral(t)
    ensures r.negative <==> t[0] == '-'
    ensures r.digits == DigitsValue(DigitsOf(t))
  {
    var b := BodyStart(t, 0, |t|);
    var k := PointIndex(t, b);
    var frac := if k < |t| then t[k + 1..] else [];
    assert k < |t| ==> forall i :: k < i < |t| ==> IsDigit(t[i]);
    DigitsOfSplit(t, b, k);
    Decimal(t[0] == '-', DigitsValue(t[b..k] + frac), |frac|)
  }

  /**
   * The scale is the number of digits after the point: zero exactly when the
   * numeral has no point, and otherwise the point sits just before that many
   * trailing digits.
   */
  lemma ToDecimalScale(t: string)
    requires IsNumeral(t)
    ensures ToDecimal(t).scale < |t|
    ensures forall i :: |t| - ToDecimal(t).scale <= i < |t| ==> IsDigit(t[i])
    ensures ToDecimal(t).scale > 0 <==> exists i :: 0 <= i < |t| && t[i] == '.'
    ensures ToDecimal(t).scale > 0 ==> t[|t| - ToDecimal(t).scale - 1] == '.'
  {
    var b := BodyStart(t, 0, |t|);
    var k := PointIndex(t, b);
    assert k < |t| ==> forall i :: k < i < |t| ==> IsDigit(t[i]);
    assert k == |t| ==> forall i :: 0 <= i < |t| ==> t[i] != '.' by {
      if k == |t| && b == 1 {
        assert IsSign(t[0]);
      }
    }
  }

  /**
   * The numeric value extracted from one cell text: the leftmost numeral,
   * as an exact decimal, or None (pandas' NaN) when the text holds no numeral.
   */
  function ExtractNumber(s: string): (r: Option<Decimal>)
    ensures r.None? <==> forall a :: 0 <= a <= |s| ==> NoMatchAt(s, a)
    ensures r.Some? ==>
      (exists a, b :: 0 <= a < b <= |s| && LongestAt(s, a, b)
        && (forall a' :: 0 <= a' < a ==> NoMatchAt(s, a')) && IsNumeral(s[a..b]) && r.value == ToDecimal(s[a..b]))
  {
    match SearchNumeral(s, 0)
    case None => None
    case Some((a, b)) =>
      NumeralAtSlice(s, a, b);
      assert !NoMatchAt(s, a);
      Some(ToDecimal(s[a..b]))
  }

  /** "72 F" holds the whole number 72. */
  lemma ExtractTemperature()
    ensures ExtractNumber("72 F") == Some(Decimal(false, 72, 0))
  {
    var s := "72 F";
    assert DigitsEnd(s, 2) == 2;
    assert DigitsEnd(s, 0) == 2;
    assert MatchEnd(s, 0) == Some(2);
    assert s[0..2] == "72";
    assert SearchNumeral(s, 0) == Some((0, 2));
    var t := s[0..2];
    assert t == "72";
    assert BodyStart(t, 0, 2) == 0;
    assert PointIndex(t, 0) == 2;
    assert t[0..2] + [] == "72";
    assert DigitsValue("7") == 7;
    assert DigitsValue("72") == 72;
  }

  /** "-3.5 in" holds -3.5: the sign and the point are part of the match. */
  lemma ExtractNegativeFraction()
    ensures ExtractNumber("-3.5 in") == Some(Decimal(true, 35, 1))
  {
    var s := "-3.5 in";
    assert DigitsEnd(s, 2) == 2;
    assert DigitsEnd(s, 1) == 2;
    assert DigitsEnd(s, 4) == 4;
    assert DigitsEnd(s, 3) == 4;
    assert MatchEnd(s, 0) == Some(4);
    var t := s[0..4];
    assert t == "-3.5";
    assert PointIndex(t, 2) == 2;
    assert PointIndex(t, 1) == 2;
    assert t[1..2] + t[3..] == "35";
    assert DigitsValue("35") == 35;
  }

  /** "0" holds zero. */
  lemma ExtractZero()
    ensures ExtractNumber("0") == Some(Decimal(false, 0, 0))
  {
    var s := "0";
    assert DigitsEnd(s, 1) == 1;
    assert DigitsEnd(s, 0) == 1;
    assert MatchEnd(s, 0) == Some(1);
    assert s[0..1] == "0";
    assert PointIndex("0", 0) == 1;
    assert DigitsValue("0") == 0;
  }

  /** "0.02 in" (a precipitation cell) holds 2 hundredths. */
  lemma ExtractPrecipitation()
    ensures ExtractNumber("0.02 in") == Some(Decimal(false, 2, 2))
  {
    var s := "0.02 in";
    assert DigitsEnd(s, 1) == 1;
    assert DigitsEnd(s, 0) == 1;
    assert DigitsEnd(s, 4) == 4;
    assert DigitsEnd(s, 3) == 4;
    assert DigitsEnd(s, 2) == 4;
    assert MatchEnd(s, 0) == Some(4);
    var t := s[0..4];
    assert t == "0.02";
    assert PointIndex(t, 1) == 1;
    assert PointIndex(t, 0) == 1;
    assert t[0..1] + t[2..] == "002";
    assert DigitsValue("0") == 0;
    assert DigitsValue("00") == 0;
    assert DigitsValue("002") == 2;
  }

  /** "N/A" holds no number: the cell becomes missing. */
  lemma ExtractNotAvailable()
    ensures ExtractNumber("N/A") == None
  {
    var s := "N/A";
    assert MatchEnd(s, 3) == None;
    assert MatchEnd(s, 2) == None;
    assert MatchEnd(s, 1) == None;
    assert MatchEnd(s, 0) == None;
    assert SearchNumeral(s, 3) == None;
    assert SearchNumeral(s, 2) == None;
    assert SearchNumeral(s, 1) == None;
  }
}
