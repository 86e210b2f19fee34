/**
 Reading the display back: what `toSafeDouble` makes of the text that
 `formatNumber` writes. The calculator feeds the display into the reader
 before every operation, so this round trip is what the next operation
 computes with.

 A plain display is an optional '-', the integer digits grouped by '.',
 and ',' with the fraction when the fraction is non-zero. With a ',' the
 reader removes the grouping and reads the number exactly. Without one it
 reads the text as a plain double, so a grouped integer comes back wrong:
 one '.' is taken for a decimal point ("10.900" reads as 10.9) and two of
 them make the text unreadable (0).
 */
module Reparse {
  import opened Numerics
  import opened Text
  import opened Options
  import opened Parser
  import opened Formatter

  /** The characters a plain display is made of. */
  predicate IsPlainChar(c: char) {
    IsDigit(c) || c == '-' || c == '.' || c == ','
  }

  predicate IsPlainText(s: string) {
    forall i :: 0 <= i < |s| ==> IsPlainChar(s[i])
  }

  function SignText(negative: bool): string {
    if negative then "-" else ""
  }

  /** What the reader does with ',': drop the grouping points, then make ',' the point. */
  function Normalize(s: string): string {
    ReplaceAll(RemoveAll(s, '.'), ',', '.')
  }

  /**
   Text of digits, signs and separators has nothing to trim, is no
   sentinel and has no exponent: the reader goes straight to the parse,
   normalising first when there is a ','.
   */
  lemma ReadPlainText(s: string)
    requires IsPlainText(s)
    ensures ToSafeDouble(s) == ValueOrZero(ParseDecimalLiteral(if Contains(s, ',') then Normalize(s) else s))
  {
    PlainTextUntrimmed(s);
    PlainTextNoSentinel(s);
    assert !Contains(s, 'e') && !Contains(s, 'E');
  }

  lemma PlainTextUntrimmed(s: string)
    requires IsPlainText(s)
    ensures Trim(s, KotlinWhitespace) == s
  {
    if |s| > 0 {
      assert IsPlainChar(s[0]) && IsPlainChar(s[|s| - 1]);
    }
  }

  lemma PlainTextNoSentinel(s: string)
    requires IsPlainText(s)
    ensures !IsSentinel(s)
  {
    if |s| > 0 {
      assert IsPlainChar(s[0]);
      assert LowerAscii(s[0]) == s[0];
      assert LowerAscii('E') == 'e' && LowerAscii('O') == 'o';
    }
  }

  /** Normalising a display with a fraction leaves sign, ungrouped digits, '.' and the fraction. */
  lemma NormalizeFraction(negative: bool, w: string, f: string)
    requires AllDigits(w) && AllDigits(f)
    ensures Normalize(SignText(negative) + Group(w) + ("," + f)) == SignText(negative) + (w + "." + f)
  {
    var sign := SignText(negative);
    var tail := "," + f;
    assert !Contains(tail, '.') by {
      assert forall i :: 0 < i < |tail| ==> tail[i] == f[i - 1];
    }
    RemoveAllAppend(sign + Group(w), tail, '.');
    RemoveAllAppend(sign, Group(w), '.');
    GroupUngroup(w);
    ReplaceComma(sign, w, f);
  }

  lemma ReplaceComma(sign: string, w: string, f: string)
    requires sign == "" || sign == "-"
    requires AllDigits(w) && AllDigits(f)
    ensures ReplaceAll(sign + w + ("," + f), ',', '.') == sign + (w + "." + f)
  {
    var s := sign + w + ("," + f);
    var t := sign + (w + "." + f);
    assert |ReplaceAll(s, ',', '.')| == |t|;
    forall i | 0 <= i < |t|
      ensures ReplaceAll(s, ',', '.')[i] == t[i]
    {
      if i < |sign| {
      } else if i < |sign| + |w| {
        assert s[i] == w[i - |sign|] == t[i];
      } else if i == |sign| + |w| {
      } else {
        assert s[i] == f[i - |sign| - |w| - 1] == t[i];
      }
    }
  }

  /** An exponent-free literal denotes its digits over 10^scale. */
  lemma LiteralOfScaled(negative: bool, d: nat, k: nat)
    ensures LiteralValue(Literal(negative, d, k, 0)) == Signed(negative, d as real / Pow10(k) as real)
  {
    assert Pow10Real(0) == 1.0;
  }

  /** a / p == b / 10^8 when a * z == b and p * z == 10^8. */
  lemma Rescale(a: nat, p: nat, z: nat, b: nat)
    requires p > 0 && z > 0 && a * z == b && p * z == Scale
    ensures a as real / p as real == b as real / Scale as real
  {
    assert b as real == a as real * z as real;
    assert Scale as real == p as real * z as real;
  }

  lemma Distribute(q: nat, p: nat, d: nat, z: nat, r: nat)
    requires p * z == Scale && d * z == r
    ensures (q * p + d) * z == q * Scale + r
  {
    assert (q * p + d) * z == q * (p * z) + d * z;
  }

  /** The fraction digits of r and the zeros stripped from them make up the eight places. */
  lemma FractionScale(r: nat)
    requires r < Scale
    ensures |FractionDigits(r)| <= 8
    ensures Pow10(|FractionDigits(r)|) * Pow10(8 - |FractionDigits(r)|) == Scale
  {
    FractionDigitsValue(r);
    Pow10Add(|FractionDigits(r)|, 8 - |FractionDigits(r)|);
    ScaleIsPow10();
  }

  /**
   The integer digits of q followed by the fraction digits of r read, with
   the fraction length as scale, as q + r / 10^8.
   */
  lemma FractionValue(negative: bool, q: nat, r: nat)
    requires 0 < r < Scale
    ensures AllDigits(NatToDigits(q) + FractionDigits(r))
    ensures LiteralValue(Literal(negative, DigitsToNat(NatToDigits(q) + FractionDigits(r)), |FractionDigits(r)|, 0))
      == Signed(negative, (q * Scale + r) as real / Scale as real)
  {
    var w, f := NatToDigits(q), FractionDigits(r);
    FractionDigitsValue(r);
    DigitsToNatAppend(w, f);
    FractionScale(r);
    LiteralOfScaled(negative, DigitsToNat(w + f), |f|);
    ValueFromParts(negative, DigitsToNat(w + f), Pow10(|f|), Pow10(8 - |f|), q, DigitsToNat(f), r);
  }

  /** Digits a = q * p + d over p, with p * z = 10^8 and d * z = r, are q + r / 10^8. */
  lemma ValueFromParts(negative: bool, a: nat, p: nat, z: nat, q: nat, d: nat, r: nat)
    requires p > 0 && z > 0 && p * z == Scale
    requires a == q * p + d && d * z == r
    ensures Signed(negative, a as real / p as real) == Signed(negative, (q * Scale + r) as real / Scale as real)
  {
    Distribute(q, p, d, z, r);
    Rescale(a, p, z, q * Scale + r);
  }

  /** The value of bd = n / 10^8 through its sign, integer part and fraction. */
  lemma SplitValue(n: int)
    ensures n as real / Scale as real
      == Signed(n < 0, (Abs(n) / Scale * Scale + Abs(n) % Scale) as real / Scale as real)
  {
  }

  /** Every character of a plain display is a digit, '-', '.' or ','. */
  lemma PlainDisplayChars(n: int)
    ensures IsPlainText(PlainDisplay(n))
  {
    var w := NatToDigits(Abs(n) / Scale);
    var f := FractionDigits(Abs(n) % Scale);
    FractionDigitsValue(Abs(n) % Scale);
    GroupSeparators(w);
    var tail := if |f| > 0 then "," + f else "";
    PlainTail(f, tail);
    PlainConcat(SignText(n < 0), Group(w));
    PlainConcat(SignText(n < 0) + Group(w), tail);
  }

  lemma PlainTail(f: string, tail: string)
    requires AllDigits(f) && tail == if |f| > 0 then "," + f else ""
    ensures IsPlainText(tail)
  {
    assert forall i :: 0 < i < |tail| ==> tail[i] == f[i - 1];
  }

  lemma PlainConcat(a: string, b: string)
    requires IsPlainText(a)
    requires forall i :: 0 <= i < |b| ==> b[i] == '.' || IsPlainChar(b[i])
    ensures IsPlainText(a + b)
  {
    assert forall i :: 0 <= i < |b| ==> (a + b)[|a| + i] == b[i];
  }

  /** With a fraction, the reader normalises the display to sign, digits, '.' and fraction. */
  lemma FractionText(n: int)
    requires Abs(n) % Scale != 0
    ensures ToSafeDouble(PlainDisplay(n)) == ValueOrZero(ParseDecimalLiteral(
      SignText(n < 0) + (NatToDigits(Abs(n) / Scale) + "." + FractionDigits(Abs(n) % Scale))))
  {
    var w, f := NatToDigits(Abs(n) / Scale), FractionDigits(Abs(n) % Scale);
    FractionDigitsValue(Abs(n) % Scale);
    var s := PlainDisplay(n);
    assert s == SignText(n < 0) + Group(w) + ("," + f);
    assert s[|SignText(n < 0) + Group(w)|] == ',';
    PlainDisplayChars(n);
    ReadPlainText(s);
    NormalizeFraction(n < 0, w, f);
  }

  /** Sign, digits, '.' and more digits parse as the digits scaled by the fraction length. */
  lemma PointParse(negative: bool, w: string, f: string)
    requires AllDigits(w) && AllDigits(f) && |w| >= 1
    ensures AllDigits(w + f)
    ensures ParseDecimalLiteral(SignText(negative) + (w + "." + f))
      == Some(Literal(negative, DigitsToNat(w + f), |f|, 0))
  {
    DigitsToNatAppend(w, f);
    MantissaWithPoint(w, f);
    PointChars(w, f, w + "." + f);
    ParseSignedNumeral(negative, w + "." + f);
  }

  lemma PointChars(w: string, f: string, body: string)
    requires AllDigits(w) && AllDigits(f) && body == w + "." + f
    ensures |body| > 0 && forall i :: 0 <= i < |body| ==> IsDigit(body[i]) || body[i] == '.'
  {
    assert forall i :: 0 <= i < |w| ==> body[i] == w[i];
    assert forall i :: |w| < i < |body| ==> body[i] == f[i - |w| - 1];
  }

  /** With a fraction, the display reads back as exactly the rounded value. */
  lemma ReparseFraction(n: int)
    requires Abs(n) % Scale != 0
    ensures ToSafeDouble(PlainDisplay(n)) == n as real / Scale as real
  {
    var q, r := Abs(n) / Scale, Abs(n) % Scale;
    FractionText(n);
    FractionDigitsValue(r);
    PointParse(n < 0, NatToDigits(q), FractionDigits(r));
    FractionValue(n < 0, q, r);
    SplitValue(n);
  }

  /** Without a fraction the display is sign and grouped digits, read as they are. */
  lemma IntegerText(n: int)
    requires Abs(n) % Scale == 0
    ensures ToSafeDouble(PlainDisplay(n))
      == ValueOrZero(ParseDecimalLiteral(SignText(n < 0) + Group(NatToDigits(Abs(n) / Scale))))
  {
    var w := NatToDigits(Abs(n) / Scale);
    FractionDigitsValue(0);
    var s := PlainDisplay(n);
    assert s == SignText(n < 0) + Group(w);
    GroupSeparators(w);
    assert !Contains(s, ',');
    PlainDisplayChars(n);
    ReadPlainText(s);
  }

  /** The integer part in units of 10^-8 when there is no fraction. */
  lemma WholeValue(n: int)
    requires Abs(n) % Scale == 0
    ensures n as real / Scale as real == Signed(n < 0, (Abs(n) / Scale) as real)
  {
    SplitValue(n);
  }

  lemma WholeLiteralValue(negative: bool, q: nat)
    ensures LiteralValue(Literal(negative, q, 0, 0)) == Signed(negative, q as real)
  {
    LiteralOfScaled(negative, q, 0);
    assert Pow10(0) == 1;
  }

  lemma ThousandthsLiteralValue(negative: bool, q: nat)
    ensures LiteralValue(Literal(negative, q, 3, 0)) == Signed(negative, q as real) / 1000.0
  {
    LiteralOfScaled(negative, q, 3);
    ScaleIsPow10();
  }

  /** A display without fraction denotes its integer part. */
  lemma WholeLiteral(n: int)
    requires Abs(n) % Scale == 0
    ensures LiteralValue(Literal(n < 0, Abs(n) / Scale, 0, 0)) == n as real / Scale as real
    ensures LiteralValue(Literal(n < 0, Abs(n) / Scale, 3, 0)) == n as real / Scale as real / 1000.0
  {
    WholeValue(n);
    WholeLiteralValue(n < 0, Abs(n) / Scale);
    ThousandthsLiteralValue(n < 0, Abs(n) / Scale);
  }

  /** An integer of at most three digits reads back as itself. */
  lemma ReparseSmallInteger(n: int)
    requires Abs(n) % Scale == 0 && Abs(n) / Scale < 1000
    ensures ToSafeDouble(PlainDisplay(n)) == n as real / Scale as real
  {
    var q := Abs(n) / Scale;
    var w := NatToDigits(q);
    var x := Literal(n < 0, q, 0, 0);
    assert ToSafeDouble(PlainDisplay(n)) == ValueOrZero(ParseDecimalLiteral(SignText(n < 0) + w)) by {
      ScaleIsPow10();
      NatToDigitsLength(q, 3);
      assert Group(w) == w;
      IntegerText(n);
    }
    assert ParseDecimalLiteral(SignText(n < 0) + w) == Some(x) by {
      MantissaWhole(w);
      ParseSignedNumeral(n < 0, w);
    }
    WholeLiteral(n);
  }

  /** Four to six integer digits, grouped once, read back as a thousandth of the value. */
  lemma ReparseThousands(n: int)
    requires Abs(n) % Scale == 0 && 1000 <= Abs(n) / Scale < 1_000_000
    ensures ToSafeDouble(PlainDisplay(n)) == n as real / Scale as real / 1000.0
  {
    var q := Abs(n) / Scale;
    var w := NatToDigits(q);
    assert 4 <= |w| <= 6 by {
      ScaleIsPow10();
      NatToDigitsLength(q, 3);
      NatToDigitsLength(q, 6);
    }
    IntegerText(n);
    ThousandsParse(n < 0, w);
    WholeLiteral(n);
  }

  /** Four to six digits grouped once parse as their value in thousandths. */
  lemma ThousandsParse(negative: bool, w: string)
    requires AllDigits(w) && 4 <= |w| <= 6
    ensures ParseDecimalLiteral(SignText(negative) + Group(w)) == Some(Literal(negative, DigitsToNat(w), 3, 0))
  {
    var a, b := w[..|w| - 3], w[|w| - 3..];
    GroupOnce(w);
    SplitJoin(w, |w| - 3);
    PointParse(negative, a, b);
  }

  lemma GroupOnce(w: string)
    requires 4 <= |w| <= 6
    ensures Group(w) == w[..|w| - 3] + "." + w[|w| - 3..]
  {
  }

  lemma SplitJoin(w: string, k: nat)
    requires k <= |w|
    ensures w[..k] + w[k..] == w
  {
  }

  /** Seven or more integer digits carry two grouping points and read back as 0. */
  lemma ReparseMillions(n: int)
    requires Abs(n) % Scale == 0 && Abs(n) / Scale >= 1_000_000
    ensures ToSafeDouble(PlainDisplay(n)) == 0.0
  {
    var q := Abs(n) / Scale;
    var w := NatToDigits(q);
    ScaleIsPow10();
    NatToDigitsLength(q, 6);
    var a := w[..|w| - 3];
    var g := Group(a);
    assert Group(w) == g + "." + w[|w| - 3..];
    GroupHasSeparator(a);
    var i :| 0 <= i < |g| && g[i] == '.';
    assert Group(w)[i] == '.' && Group(w)[|g|] == '.';
    MantissaTwoPoints(Group(w), i, |g|);
    GroupSeparators(w);
    ParseSignedNumeral(n < 0, Group(w));
    IntegerText(n);
  }

  /**
   What the reader makes of a plain display of bd = n / 10^8: bd itself
   when there is a fraction or the integer part has at most three digits;
   bd / 1000 when four to six integer digits carry one grouping point; 0
   when seven or more carry two.
   */
  lemma ReparsePlain(n: int)
    ensures Abs(n) % Scale != 0 || Abs(n) / Scale < 1000 ==>
      ToSafeDouble(PlainDisplay(n)) == n as real / Scale as real
    ensures Abs(n) % Scale == 0 && 1000 <= Abs(n) / Scale < 1_000_000 ==>
      ToSafeDouble(PlainDisplay(n)) == n as real / Scale as real / 1000.0
    ensures Abs(n) % Scale == 0 && Abs(n) / Scale >= 1_000_000 ==>
      ToSafeDouble(PlainDisplay(n)) == 0.0
  {
    if Abs(n) % Scale != 0 {
      ReparseFraction(n);
    } else if Abs(n) / Scale < 1000 {
      ReparseSmallInteger(n);
    } else if Abs(n) / Scale < 1_000_000 {
      ReparseThousands(n);
    } else {
      ReparseMillions(n);
    }
  }

  /**
   The display round trip: a value shown without exponent reads back as its
   rounding to eight places, and showing that again gives the same text,
   unless the value is a whole number of four or more digits.
   */
  lemma ReparseDisplay(v: real)
    requires AbsReal(v) < OverflowBound && !InScientificRange(Rounded(v))
    requires Abs(Rounded(v)) % Scale != 0 || Abs(Rounded(v)) / Scale < 1000
    ensures ToSafeDouble(FormatNumber(v)) == Round8(v)
    ensures FormatNumber(ToSafeDouble(FormatNumber(v))) == FormatNumber(v)
  {
    FormatPlain(v);
    ReparsePlain(Rounded(v));
    Round8Idempotent(v);
  }

  /**
   The round trip fails for the other plain displays: a whole number of
   four to six digits reads back a thousand times smaller, one of seven or
   more reads back as 0.
   */
  lemma ReparseGroupedInteger(v: real)
    requires AbsReal(v) < OverflowBound && !InScientificRange(Rounded(v))
    requires Abs(Rounded(v)) % Scale == 0 && Abs(Rounded(v)) / Scale >= 1000
    ensures Abs(Rounded(v)) / Scale < 1_000_000 ==> ToSafeDouble(FormatNumber(v)) == Round8(v) / 1000.0
    ensures Abs(Rounded(v)) / Scale >= 1_000_000 ==> ToSafeDouble(FormatNumber(v)) == 0.0
  {
    FormatPlain(v);
    ReparsePlain(Rounded(v));
  }
}
