/**
 The display formatter of CalculatorState.kt: `formatNumber` and the
 non-scientific branch of `formatForDisplay`.

 A value is rounded HALF_UP to eight fractional places; the rounded
 BigDecimal `bd` is represented exactly by the integer `n = bd * 10^8`.
 Plain numbers are written with '.' grouping the integer digits in threes
 and ',' before the fraction; very large or very small magnitudes switch to
 `%.6e` scientific notation; 1e100 and beyond shows "Overflow"; every
 result is cut to the 24-character display.
 */
module Formatter {
  import opened Numerics
  import opened Text

  const MaxDisplayLength: nat := 24

  /** 10^8: the eight fractional places `setScale(8, HALF_UP)` keeps. */
  const Scale: nat := 100_000_000

  /** 1e10 and 1e-4, the scientific-notation thresholds, in units of 10^-8. */
  const ScientificUpper: nat := 1_000_000_000_000_000_000
  const ScientificLower: nat := 10_000

  /** 1e100: the magnitude from which the display reads "Overflow". */
  const OverflowBound: real := 1_0000000000_0000000000_0000000000_0000000000_0000000000_0000000000_0000000000_0000000000_0000000000_0000000000 as real

  /** `BigDecimal.valueOf(v).setScale(8, HALF_UP)`, scaled by 10^8. */
  function Rounded(v: real): (n: int)
    ensures IsHalfUpOf(v * Scale as real, n)
  {
    HalfUp(v * Scale as real)
  }

  /** The rounded value as a real: what the plain display denotes. */
  function Round8(v: real): real {
    Rounded(v) as real / Scale as real
  }

  /** |bd| >= 1e10, or bd is non-zero with |bd| < 1e-4 (for bd = n / 10^8). */
  predicate InScientificRange(n: int) {
    Abs(n) >= ScientificUpper || (n != 0 && Abs(n) < ScientificLower)
  }

  /**
   Integer digits with '.' inserted every three places from the right: the
   regex replacement `(\d)(?=(\d{3})+(?!\d))` -> `$1.` applied to a run of digits.
   */
  function Group(d: string): (g: string)
    decreases |d|
  {
    if |d| <= 3 then d else Group(d[..|d| - 3]) + "." + d[|d| - 3..]
  }

  /**
   The digits of a fraction r / 10^8 (r < 10^8) as `toPlainString` writes
   them after `stripTrailingZeros`: eight places, trailing zeros removed.
   */
  function FractionDigits(r: nat): (f: string)
    requires r < Scale
  {
    StripTrailingZeros(PadLeft(NatToDigits(r), 8))
  }

  /**
   The plain display of bd = n / 10^8: optional '-', the grouped integer
   digits, then ',' and the fraction when the fraction is non-zero. Negative
   zero cannot arise because the BigDecimal zero carries no sign.
   */
  function PlainDisplay(n: int): (r: string)
  {
    var q := Abs(n) / Scale;
    var f := FractionDigits(Abs(n) % Scale);
    (if n < 0 then "-" else "") + Group(NatToDigits(q)) + (if |f| > 0 then "," + f else "")
  }

  /**
   The exponent e with 10^e <= a < 10^(e+1): the number of integer digits
   less one when a >= 1, otherwise minus the number of digits of
   ceil(1/a) - 1.
   */
  function DecimalExponent(a: real): int
    requires a > 0.0
  {
    if a >= 1.0 then |NatToDigits(a.Floor)| - 1
    else -|NatToDigits(CeilingMinusOne(1.0 / a))|
  }

  function CeilingMinusOne(y: real): (c: nat)
    requires y >= 1.0
    ensures c as real < y <= c as real + 1.0
  {
    -((-y).Floor) - 1
  }

  /**
   The text `%.6e` prints for the significand digits k / 10^6 and the
   exponent e: sign, one digit, '.', six digits, 'e', then the exponent
   with its sign and at least two digits.
   */
  function ScientificText(negative: bool, k: nat, e: int): string {
    var m := PadLeft(NatToDigits(k), 7);
    (if negative then "-" else "") + m[..1] + "." + m[1..] + "e"
      + (if e < 0 then "-" else "+") + PadLeft(NatToDigits(Abs(e)), 2)
  }

  /**
   `String.format("%.6e", v)` with '.' as the decimal point: the magnitude
   is scaled into [1, 10) and rounded HALF_UP to six decimals; a carry to
   10.000000 moves into the exponent.
   */
  function Scientific(v: real): string {
    var a := AbsReal(v);
    var e0 := if a == 0.0 then 0 else DecimalExponent(a);
    var k0 := HalfUp(a * Pow10Real(-e0) * 1_000_000.0);
    var k: nat := if k0 >= 10_000_000 then k0 / 10 else if k0 >= 0 then k0 else 0;
    var e := if k0 >= 10_000_000 then e0 + 1 else e0;
    ScientificText(v < 0.0, k, e)
  }

  /**
   `formatForDisplay(plain, false)` for the plain string of a rounded value
   x: Overflow and scientific checks on x, rounding to eight places, then
   the grouped plain display.
   */
  function FormatForDisplay(x: real): (r: string)
    ensures |r| > 0
  {
    if AbsReal(x) >= OverflowBound then "Overflow"
    else if AbsReal(x) >= 10_000_000_000.0 || (x != 0.0 && AbsReal(x) < 0.0001) then Scientific(x)
    else PlainDisplay(HalfUp(x * Scale as real))
  }

  /** `formatNumber`: the text the display shows for a computed value. */
  function FormatNumber(v: real): (r: string)
    ensures 0 < |r| <= MaxDisplayLength
    ensures AbsReal(v) >= OverflowBound ==> r == "Overflow"
  {
    if AbsReal(v) >= OverflowBound then "Overflow"
    else
      var n := Rounded(v);
      if InScientificRange(n) then Take(Scientific(v), MaxDisplayLength)
      else Take(FormatForDisplay(n as real / Scale as real), MaxDisplayLength)
  }

  /** The powers of ten the formatter's constants stand for. */
  lemma ScaleIsPow10()
    ensures Pow10(3) == 1000 && Pow10(6) == 1_000_000
    ensures Pow10(8) == Scale && Pow10(10) == 10_000_000_000
  {
  }

  /** The grouping regex inserts one '.' per full group of three below the leading group. */
  lemma {:induction false} GroupLength(d: string)
    ensures |Group(d)| == if |d| == 0 then 0 else |d| + (|d| - 1) / 3
    decreases |d|
  {
    if |d| > 3 {
      GroupLength(d[..|d| - 3]);
    }
  }

  /** Grouping only inserts separators: taking every '.' out again gives back the digits. */
  lemma {:induction false} GroupUngroup(d: string)
    requires AllDigits(d)
    ensures RemoveAll(Group(d), '.') == d
    decreases |d|
  {
    if |d| <= 3 {
      assert !Contains(d, '.');
    } else {
      var head := d[..|d| - 3];
      var tail := d[|d| - 3..];
      GroupUngroup(head);
      var gh := Group(head);
      assert !Contains(tail, '.');
      RemoveAllAppend(gh + ".", tail, '.');
      RemoveAllAppend(gh, ".", '.');
      assert RemoveAll(".", '.') == [];
      assert head + tail == d;
    }
  }

  /**
   A '.' stands in the grouped digits exactly at the positions that are not
   the first and have a multiple of four characters from there to the end;
   every other character is a digit.
   */
  lemma {:induction false} GroupSeparators(d: string)
    requires AllDigits(d) && |d| >= 1
    ensures SeparatorsEveryFour(Group(d))
    ensures forall i :: 0 <= i < |Group(d)| ==> Group(d)[i] == '.' || IsDigit(Group(d)[i])
    decreases |d|
  {
    if |d| > 3 {
      var head := d[..|d| - 3];
      GroupSeparators(head);
      GroupLength(head);
      SeparatorsAppend(Group(head), d[|d| - 3..]);
    }
  }

  /** A '.' exactly at the positions a multiple of four from the end, never first. */
  predicate SeparatorsEveryFour(g: string) {
    forall i :: 0 <= i < |g| ==> (g[i] == '.' <==> (i > 0 && (|g| - i) % 4 == 0))
  }

  /** One more group of three digits after a '.' keeps the separators every four places. */
  lemma SeparatorsAppend(gh: string, tail: string)
    requires |gh| >= 1 && SeparatorsEveryFour(gh)
    requires forall i :: 0 <= i < |gh| ==> gh[i] == '.' || IsDigit(gh[i])
    requires |tail| == 3 && AllDigits(tail)
    ensures SeparatorsEveryFour(gh + "." + tail)
    ensures forall i :: 0 <= i < |gh + "." + tail| ==> (gh + "." + tail)[i] == '.' || IsDigit((gh + "." + tail)[i])
  {
    var g := gh + "." + tail;
    forall i | 0 <= i < |g|
      ensures g[i] == '.' <==> (i > 0 && (|g| - i) % 4 == 0)
      ensures g[i] == '.' || IsDigit(g[i])
    {
      if i < |gh| {
        assert g[i] == gh[i];
        assert |g| - i == (|gh| - i) + 4;
      } else if i > |gh| {
        assert g[i] == tail[i - |gh| - 1];
      }
    }
  }

  /** A '.' appears in the grouped digits exactly when there are more than three. */
  lemma GroupHasSeparator(d: string)
    requires AllDigits(d) && |d| >= 1
    ensures Contains(Group(d), '.') <==> |d| > 3
  {
    GroupSeparators(d);
    GroupLength(d);
    var g := Group(d);
    if |d| > 3 {
      assert g[|g| - 4] == '.';
    }
  }

  /** Zeros padded on the left of a digit string do not change its value. */
  lemma PadLeftValue(w: string, k: nat)
    requires AllDigits(w) && |w| <= k
    ensures |PadLeft(w, k)| == k && AllDigits(PadLeft(w, k))
    ensures DigitsToNat(PadLeft(w, k)) == DigitsToNat(w)
  {
    var p := PadLeft(w, k);
    var z := Zeros(k - |w|);
    assert p == z + w by {
      assert p[|p| - |w|..] == w;
    }
    DigitsToNatAppend(z, w);
    DigitsToNatZeros(k - |w|);
  }

  /** Cutting trailing zeros divides the value by the matching power of ten. */
  lemma StripTrailingZerosValue(p: string)
    requires AllDigits(p)
    ensures AllDigits(StripTrailingZeros(p))
    ensures DigitsToNat(StripTrailingZeros(p)) * Pow10(|p| - |StripTrailingZeros(p)|) == DigitsToNat(p)
  {
    var f := StripTrailingZeros(p);
    var z := Zeros(|p| - |f|);
    assert p == f + z;
    DigitsToNatAppend(f, z);
    DigitsToNatZeros(|p| - |f|);
  }

  /** Padding to k places and cutting trailing zeros scales the value by a power of ten. */
  lemma StripPadValue(w: string, k: nat)
    requires AllDigits(w) && |w| <= k
    ensures AllDigits(StripTrailingZeros(PadLeft(w, k)))
    ensures |StripTrailingZeros(PadLeft(w, k))| <= k
    ensures DigitsToNat(StripTrailingZeros(PadLeft(w, k))) * Pow10(k - |StripTrailingZeros(PadLeft(w, k))|)
      == DigitsToNat(w)
    ensures |StripTrailingZeros(PadLeft(w, k))| > 0 ==> DigitsToNat(w) >= 1
  {
    PadLeftValue(w, k);
    var p := PadLeft(w, k);
    StripTrailingZerosValue(p);
    var f := StripTrailingZeros(p);
    if |f| > 0 {
      assert DigitsToNat(f) >= 1 by {
        assert DigitValue(f[|f| - 1]) >= 1;
      }
      MulAtLeastOne(DigitsToNat(f), Pow10(k - |f|));
    }
  }

  /**
   The fraction text has at most eight digits, is empty exactly for a zero
   fraction, and read as digits and padded back to eight places it is the
   fraction again.
   */
  lemma FractionDigitsValue(r: nat)
    requires r < Scale
    ensures AllDigits(FractionDigits(r)) && |FractionDigits(r)| <= 8
    ensures |FractionDigits(r)| == 0 <==> r == 0
    ensures DigitsToNat(FractionDigits(r)) * Pow10(8 - |FractionDigits(r)|) == r
  {
    assert Pow10(8) == Scale;
    NatToDigitsLength(r, 8);
    StripPadValue(NatToDigits(r), 8);
  }

  lemma MulAtLeastOne(a: nat, b: nat)
    requires a >= 1 && b >= 1
    ensures a * b >= 1
  {
  }

  /** A plain display is never longer than 23 characters, so the cut to 24 never bites. */
  lemma PlainDisplayLength(n: int)
    requires Abs(n) < ScientificUpper
    ensures |PlainDisplay(n)| <= MaxDisplayLength - 1
  {
    ScaleIsPow10();
    var q := Abs(n) / Scale;
    assert q < 10_000_000_000;
    NatToDigitsLength(q, 10);
    GroupLength(NatToDigits(q));
    FractionDigitsValue(Abs(n) % Scale);
  }

  /**
   Outside the Overflow and scientific ranges the display is the plain
   grouped form of the value rounded to eight places, and fits the display.
   */
  lemma FormatPlain(v: real)
    requires AbsReal(v) < OverflowBound && !InScientificRange(Rounded(v))
    ensures FormatNumber(v) == PlainDisplay(Rounded(v))
    ensures |FormatNumber(v)| <= MaxDisplayLength - 1
  {
    var n := Rounded(v);
    PlainRange(n, n as real / Scale as real);
    PlainDisplayLength(n);
  }

  /** A rounded value outside the scientific range takes the plain branch of `formatForDisplay`. */
  lemma PlainRange(n: int, x: real)
    requires x == n as real / Scale as real && !InScientificRange(n)
    ensures FormatForDisplay(x) == PlainDisplay(n)
  {
    assert x * Scale as real == n as real;
    HalfUpOfInteger(n);
    assert AbsReal(x) < 10_000_000_000.0;
    assert !(x != 0.0 && AbsReal(x) < 0.0001);
  }

  /**
   A whole number below 1e10 in magnitude is shown as its digits grouped by
   '.', with '-' in front when negative, and no fraction.
   */
  lemma FormatInteger(k: int)
    requires Abs(k) < 10_000_000_000
    ensures FormatNumber(k as real) == (if k < 0 then "-" else "") + Group(NatToDigits(Abs(k)))
  {
    var n := k * Scale;
    assert k as real * Scale as real == n as real;
    HalfUpOfInteger(n);
    assert Rounded(k as real) == n;
    assert Abs(n) == Abs(k) * Scale;
    assert Abs(n) / Scale == Abs(k) && Abs(n) % Scale == 0;
    FractionDigitsValue(0);
    FormatPlain(k as real);
  }

  /** Values that round to zero show "0": never "-0", never an empty fraction. */
  lemma FormatZero(v: real)
    requires Rounded(v) == 0
    ensures FormatNumber(v) == "0"
  {
    assert AbsReal(v) < 1.0;
    FractionDigitsValue(0);
    FormatPlain(v);
  }

  /** Rounding to eight places is idempotent, so is formatting a rounded value. */
  lemma Round8Idempotent(v: real)
    ensures Rounded(Round8(v)) == Rounded(v)
    ensures AbsReal(v) < OverflowBound && !InScientificRange(Rounded(v)) ==>
      FormatNumber(Round8(v)) == FormatNumber(v)
  {
    var n := Rounded(v);
    assert Round8(v) * Scale as real == n as real;
    HalfUpOfInteger(n);
    if AbsReal(v) < OverflowBound && !InScientificRange(n) {
      assert AbsReal(Round8(v)) < OverflowBound;
      FormatPlain(v);
      FormatPlain(Round8(v));
    }
  }
}
