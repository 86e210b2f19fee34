/**
 `toSafeDouble`: the calculator's total reader of display text. Sentinels and
 anything unreadable give 0; text with an exponent is read as a Java double
 literal; text with ',' is first normalised from the grouped display form
 (every '.' removed, ',' turned into '.'); everything else is read as is.

 Literals are parsed to their syntax (`Literal`) first; the real value is
 taken only at the end, so that the parsing facts stay free of arithmetic.
 */
module Parser {
  import opened Numerics
  import opened Text
  import opened Options

  /** The float-type suffixes a Java double literal may end with. */
  const TypeSuffixes: set<char> := {'f', 'F', 'd', 'D'}

  const ExponentMarks: set<char> := {'e', 'E'}

  /**
   A decimal literal as written: its sign, the digits of the mantissa with
   the point taken out, how many of those digits follow the point, and the
   exponent.
   */
  datatype Literal = Literal(negative: bool, digits: nat, scale: nat, exponent: int)

  function Signed(negative: bool, m: real): (r: real)
    ensures m >= 0.0 ==> (negative ==> r <= 0.0) && (!negative ==> r >= 0.0)
  {
    if negative then -m else m
  }

  /** The exact value the literal denotes: ±digits / 10^scale * 10^exponent. */
  function LiteralValue(l: Literal): real {
    Signed(l.negative, l.digits as real / Pow10(l.scale) as real * Pow10Real(l.exponent))
  }

  /** The digits of a mantissa around an optional '.': at least one digit in all. */
  function ParseMantissa(m: string): (r: Option<Literal>)
    ensures r.Some? ==> !r.value.negative && r.value.exponent == 0
  {
    var d := IndexOfAny(m, {'.'});
    MantissaLiteral(m[..d], if d < |m| then m[d + 1..] else [])
  }

  /** `whole.frac` when both parts are digits and not both empty. */
  function MantissaLiteral(whole: string, frac: string): (r: Option<Literal>)
    ensures r.Some? ==> !r.value.negative && r.value.exponent == 0 && r.value.scale == |frac|
  {
    if AllDigits(whole) && AllDigits(frac) && |whole| + |frac| > 0 then
      Some(Literal(false, DigitsToNat(whole + frac), |frac|, 0))
    else None
  }

  /** A signed exponent: an optional '+' or '-', then at least one digit. */
  function ParseExponent(s: string): (r: Option<int>)
    ensures r.Some? ==> |s| > 0 && IsDigit(s[|s| - 1])
  {
    var negative := |s| > 0 && s[0] == '-';
    var digits := if |s| > 0 && (s[0] == '-' || s[0] == '+') then s[1..] else s;
    if |digits| > 0 && AllDigits(digits) then
      var n := DigitsToNat(digits) as int;
      Some(if negative then -n else n)
    else None
  }

  /**
   Kotlin's `toDoubleOrNull` (Java's `Double.parseDouble` grammar) on
   decimal literals: blanks up to ' ' trimmed, an optional sign, a mantissa,
   an optional exponent and an optional float-type suffix.
   */
  function ParseDecimalLiteral(s: string): (r: Option<Literal>)
    ensures r.Some? ==> ParseUnsigned(StripSuffix(Unsigned(Trim(s, JavaBlank)))).Some?
  {
    var t := Trim(s, JavaBlank);
    match ParseUnsigned(StripSuffix(Unsigned(t)))
    case None => None
    case Some(m) => Some(m.(negative := |t| > 0 && t[0] == '-'))
  }

  /** `t` without its leading sign, if it has one. */
  function Unsigned(t: string): (u: string)
    ensures |u| <= |t|
  {
    if |t| > 0 && (t[0] == '-' || t[0] == '+') then t[1..] else t
  }

  /** `u` without a trailing float-type suffix, if it has one. */
  function StripSuffix(u: string): (b: string)
    ensures |b| <= |u|
  {
    if |u| > 0 && u[|u| - 1] in TypeSuffixes then u[..|u| - 1] else u
  }

  /** An unsigned literal: a mantissa, then optionally 'e' or 'E' and an exponent. */
  function ParseUnsigned(body: string): (r: Option<Literal>)
    ensures r.Some? ==> !r.value.negative
  {
    var x := IndexOfAny(body, ExponentMarks);
    match ParseMantissa(body[..x])
    case None => None
    case Some(m) =>
      if x == |body| then Some(m)
      else
        match ParseExponent(body[x + 1..])
        case None => None
        case Some(e) => Some(m.(exponent := e))
  }

  /** `toDoubleOrNull() ?: 0.0`. */
  function ValueOrZero(r: Option<Literal>): real {
    match r
    case Some(l) => LiteralValue(l)
    case None => 0.0
  }

  predicate IsNumberChar(c: char) {
    IsDigit(c) || c == '-' || c == '.'
  }

  /**
   The regex fallback of the exponent branch, `^([\-\d.]+)e([+\-]?\d+)$`.
   Without MULTILINE, Java's `$` matches at the end of the input and also
   just before a line terminator that ends it, so the pattern has to cover
   the text up to a final line terminator.
   */
  function FallbackMatch(s: string): Option<(Literal, int)> {
    PatternMatch(BeforeFinalTerminator(s))
  }

  /**
   The pattern covering all of `s`: the text splits at its first 'e' into a
   number part of digits, '-' and '.' and an exponent, and the number part
   reads as a double.
   */
  function PatternMatch(s: string): Option<(Literal, int)> {
    var i := IndexOfAny(s, {'e'});
    if i < |s| && IsNumberText(s[..i]) then FallbackParts(s[..i], s[i + 1..]) else None
  }

  /** Java's line terminators: '\n', '\r', U+0085, U+2028 and U+2029. */
  predicate IsLineTerminator(c: char) {
    c == '\n' || c == '\r' || c == '\U{85}' || c == '\U{2028}' || c == '\U{2029}'
  }

  predicate EndsWithLineTerminator(s: string) {
    |s| > 0 && IsLineTerminator(s[|s| - 1])
  }

  /** The text before a final "\r\n" or single line terminator; all of `s` when there is none. */
  function BeforeFinalTerminator(s: string): (b: string)
    ensures |b| <= |s| && b == s[..|b|]
    ensures !EndsWithLineTerminator(s) ==> b == s
    ensures EndsWithLineTerminator(s) ==> |s| - 2 <= |b| < |s|
  {
    if |s| >= 2 && s[|s| - 2..] == "\r\n" then s[..|s| - 2]
    else if EndsWithLineTerminator(s) then s[..|s| - 1]
    else s
  }

  /** `[\-\d.]+`. */
  predicate IsNumberText(num: string) {
    |num| > 0 && forall j :: 0 <= j < |num| ==> IsNumberChar(num[j])
  }

  /** The number part read as a double and the exponent read as an integer, when both read. */
  function FallbackParts(num: string, exp: string): Option<(Literal, int)> {
    match ParseExponent(exp)
    case None => None
    case Some(e) =>
      match ParseDecimalLiteral(num)
      case None => None
      case Some(x) => Some((x, e))
  }

  /**
   The fallback's value: the number part times ten to the exponent on a
   match; 0 without a match or when the number part does not read.
   */
  function ScientificFallback(s: string): real {
    MatchValue(FallbackMatch(s))
  }

  function MatchValue(m: Option<(Literal, int)>): real {
    match m
    case None => 0.0
    case Some((x, e)) => LiteralValue(x) * Pow10Real(e)
  }

  /** The sentinels the display shows instead of a number. */
  predicate IsSentinel(raw: string) {
    EqualsIgnoreCase(raw, "Error") || EqualsIgnoreCase(raw, "Overflow")
  }

  /** `toSafeDouble`. */
  function ToSafeDouble(s: string): real
  {
    var raw := Trim(s, KotlinWhitespace);
    if IsSentinel(raw) then 0.0
    else if Contains(raw, 'e') || Contains(raw, 'E') then
      var t := ReplaceAll(RemoveAll(raw, ' '), 'E', 'e');
      ExponentBranch(t)
    else
      var normalized := if Contains(raw, ',') then ReplaceAll(RemoveAll(raw, '.'), ',', '.') else raw;
      ValueOrZero(ParseDecimalLiteral(normalized))
  }

  /** The exponent branch: the direct parse, and the regex fallback when it fails. */
  function ExponentBranch(t: string): real {
    match ParseDecimalLiteral(t)
    case Some(x) => LiteralValue(x)
    case None => ScientificFallback(t)
  }

  /** The sentinels "Error" and "Overflow", in any case and with blanks around, read as zero. */
  lemma SentinelReadsZero(s: string)
    requires IsSentinel(Trim(s, KotlinWhitespace))
    ensures ToSafeDouble(s) == 0.0
  {
  }

  /** The first character of `b` in `cs` is the first of `a + b` when `a` has none. */
  lemma IndexOfAnyAfter(a: string, b: string, cs: set<char>)
    requires forall j :: 0 <= j < |a| ==> a[j] !in cs
    requires |b| > 0 && b[0] in cs
    ensures IndexOfAny(a + b, cs) == |a|
  {
    assert (a + b)[|a|] == b[0];
  }

  /** A string without characters from `cs` has no first one. */
  lemma IndexOfAnyNone(s: string, cs: set<char>)
    requires forall j :: 0 <= j < |s| ==> s[j] !in cs
    ensures IndexOfAny(s, cs) == |s|
  {
  }

  /** Digits, '-' and '.' are neither blanks, exponent marks nor type suffixes. */
  lemma NumberCharsAreInert(u: string)
    requires forall j :: 0 <= j < |u| ==> IsNumberChar(u[j])
    ensures forall j :: 0 <= j < |u| ==> u[j] !in ExponentMarks
    ensures |u| > 0 ==> !IsBlank(JavaBlank, u[0]) && !IsBlank(JavaBlank, u[|u| - 1])
    ensures StripSuffix(u) == u
  {
  }

  /** Taking the sign off text of number characters leaves number characters. */
  lemma UnsignedNumberChars(num: string)
    requires forall j :: 0 <= j < |num| ==> IsNumberChar(num[j])
    ensures forall j :: 0 <= j < |Unsigned(num)| ==> IsNumberChar(Unsigned(num)[j])
  {
  }

  /** Trimming changes nothing when neither end is a blank. */
  lemma NoBlankEnds(s: string)
    requires |s| > 0 && !IsBlank(JavaBlank, s[0]) && !IsBlank(JavaBlank, s[|s| - 1])
    ensures Trim(s, JavaBlank) == s
  {
  }

  /** The sign is taken off the front only. */
  lemma UnsignedAppend(a: string, b: string)
    requires |a| > 0
    ensures Unsigned(a + b) == Unsigned(a) + b
  {
    if a[0] == '-' || a[0] == '+' {
      assert (a + b)[1..] == a[1..] + b;
    }
  }

  /** Text ending in an exponent's last digit has no type suffix. */
  lemma ExponentTextEnds(a: string, exp: string)
    requires ParseExponent(exp).Some?
    ensures StripSuffix(a + ("e" + exp)) == a + ("e" + exp)
    ensures !IsBlank(JavaBlank, (a + ("e" + exp))[|a + ("e" + exp)| - 1])
  {
    assert (a + ("e" + exp))[|a + ("e" + exp)| - 1] == exp[|exp| - 1];
  }

  /** A literal with no blank at either end is its unsigned part, signed. */
  lemma ParseUntrimmed(s: string)
    requires Trim(s, JavaBlank) == s
    ensures ParseDecimalLiteral(s) ==
      match ParseUnsigned(StripSuffix(Unsigned(s)))
      case None => None
      case Some(m) => Some(m.(negative := |s| > 0 && s[0] == '-'))
  {
  }

  /** Without 'e' or 'E' the whole unsigned text is the mantissa. */
  lemma UnsignedNoExponent(u: string)
    requires forall j :: 0 <= j < |u| ==> u[j] !in ExponentMarks
    ensures ParseUnsigned(u) == ParseMantissa(u)
  {
    IndexOfAnyNone(u, ExponentMarks);
    assert u[..|u|] == u;
  }

  /** The unsigned parse reads the mantissa before the first exponent mark and the exponent after it. */
  lemma UnsignedSplit(b: string, u: string, exp: string)
    requires IndexOfAny(b, ExponentMarks) == |u| && |u| < |b|
    requires b[..|u|] == u && b[|u| + 1..] == exp
    requires ParseMantissa(u).Some? && ParseExponent(exp).Some?
    ensures ParseUnsigned(b) == Some(ParseMantissa(u).value.(exponent := ParseExponent(exp).value))
  {
  }

  lemma ExponentSplitParts(u: string, exp: string)
    ensures (u + ("e" + exp))[..|u|] == u && (u + ("e" + exp))[|u| + 1..] == exp
  {
  }

  /** A mantissa followed by 'e' and an exponent. */
  lemma UnsignedWithExponent(u: string, exp: string)
    requires forall j :: 0 <= j < |u| ==> u[j] !in ExponentMarks
    requires ParseMantissa(u).Some? && ParseExponent(exp).Some?
    ensures ParseUnsigned(u + ("e" + exp))
      == Some(ParseMantissa(u).value.(exponent := ParseExponent(exp).value))
  {
    IndexOfAnyAfter(u, "e" + exp, ExponentMarks);
    ExponentSplitParts(u, exp);
    UnsignedSplit(u + ("e" + exp), u, exp);
  }

  /**
   Text of digits, '-' and '.' parses as its mantissa after the sign: no
   blanks, no exponent, no suffix.
   */
  lemma NumberTextLiteral(num: string)
    requires IsNumberText(num)
    ensures ParseDecimalLiteral(num) ==
      match ParseMantissa(Unsigned(num))
      case None => None
      case Some(m) => Some(m.(negative := num[0] == '-'))
  {
    NumberCharsAreInert(num);
    NoBlankEnds(num);
    UnsignedNumberChars(num);
    NumberCharsAreInert(Unsigned(num));
    UnsignedNoExponent(Unsigned(num));
    ParseUntrimmed(num);
  }

  /** A number part made of digits, '-' and '.' has no exponent. */
  lemma ExponentFreeLiteral(num: string)
    requires IsNumberText(num)
    ensures ParseDecimalLiteral(num).Some? ==> ParseDecimalLiteral(num).value.exponent == 0
  {
    NumberTextLiteral(num);
  }

  /** A number part and an exponent joined by 'e' read as the number with that exponent. */
  lemma ExponentLiteral(num: string, exp: string)
    requires IsNumberText(num)
    requires ParseExponent(exp).Some? && ParseDecimalLiteral(num).Some?
    ensures ParseDecimalLiteral(num + ("e" + exp))
      == Some(ParseDecimalLiteral(num).value.(exponent := ParseExponent(exp).value))
  {
    var s := num + ("e" + exp);
    ExponentTextShape(num, exp);
    NumberTextLiteral(num);
    UnsignedNumberChars(num);
    NumberCharsAreInert(Unsigned(num));
    UnsignedWithExponent(Unsigned(num), exp);
    ParseUntrimmed(s);
  }

  /** A number part, 'e' and an exponent: nothing to trim, no suffix, the sign in front. */
  lemma ExponentTextShape(num: string, exp: string)
    requires IsNumberText(num) && ParseExponent(exp).Some?
    ensures Trim(num + ("e" + exp), JavaBlank) == num + ("e" + exp)
    ensures StripSuffix(Unsigned(num + ("e" + exp))) == Unsigned(num) + ("e" + exp)
    ensures (num + ("e" + exp))[0] == num[0]
  {
    var s := num + ("e" + exp);
    NumberCharsAreInert(num);
    ExponentTextEnds(num, exp);
    assert s[0] == num[0];
    NoBlankEnds(s);
    UnsignedAppend(num, "e" + exp);
    ExponentTextEnds(Unsigned(num), exp);
  }

  /** What the fallback's regex accepts, the direct parse reads with the exponent applied. */
  lemma PatternAccepted(s: string)
    requires PatternMatch(s).Some?
    ensures PatternMatch(s).value.0.exponent == 0
    ensures ParseDecimalLiteral(s) == Some(PatternMatch(s).value.0.(exponent := PatternMatch(s).value.1))
  {
    var i := IndexOfAny(s, {'e'});
    PatternSplit(s);
    SplitAt(s, i);
    PartsAccepted(s[..i], s[i + 1..]);
  }

  /** The fallback matches exactly when its two parts read. */
  lemma PatternSplit(s: string)
    requires PatternMatch(s).Some?
    ensures IndexOfAny(s, {'e'}) < |s|
    ensures IsNumberText(s[..IndexOfAny(s, {'e'})])
    ensures PatternMatch(s) == FallbackParts(s[..IndexOfAny(s, {'e'})], s[IndexOfAny(s, {'e'}) + 1..])
  {
  }

  lemma PartsAccepted(num: string, exp: string)
    requires IsNumberText(num) && FallbackParts(num, exp).Some?
    ensures FallbackParts(num, exp).value.0.exponent == 0
    ensures ParseDecimalLiteral(num + ("e" + exp))
      == Some(FallbackParts(num, exp).value.0.(exponent := FallbackParts(num, exp).value.1))
  {
    ExponentFreeLiteral(num);
    ExponentLiteral(num, exp);
  }

  lemma SplitAt(s: string, i: nat)
    requires i < |s| && s[i] == 'e'
    ensures s == s[..i] + ("e" + s[i + 1..])
  {
  }

  /**
   Whatever the regex fallback accepts, the direct parse accepts too once
   the final line terminator is taken off, reading the number part with the
   exponent applied; so the fallback's value is that parse's value, and 0
   when the pattern does not match.
   */
  lemma FallbackReadsAsDirectParse(s: string)
    ensures FallbackMatch(s).Some? ==>
      ParseDecimalLiteral(BeforeFinalTerminator(s)) == Some(FallbackMatch(s).value.0.(exponent := FallbackMatch(s).value.1))
    ensures FallbackMatch(s).Some? ==> ScientificFallback(s) == ValueOrZero(ParseDecimalLiteral(BeforeFinalTerminator(s)))
    ensures FallbackMatch(s).None? ==> ScientificFallback(s) == 0.0
  {
    var b := BeforeFinalTerminator(s);
    if PatternMatch(b).Some? {
      PatternAccepted(b);
      MatchReads(FallbackMatch(s), ParseDecimalLiteral(b));
    }
  }

  /** A match whose literal, with the exponent set, is what the parse gives has the parse's value. */
  lemma MatchReads(m: Option<(Literal, int)>, l: Option<Literal>)
    requires m.Some? && m.value.0.exponent == 0 && l == Some(m.value.0.(exponent := m.value.1))
    ensures MatchValue(m) == ValueOrZero(l)
  {
    ExponentValue(m.value.0, m.value.1);
  }

  /** Setting the exponent of an exponent-free literal scales its value by that power of ten. */
  lemma ExponentValue(x: Literal, e: int)
    requires x.exponent == 0
    ensures LiteralValue(x.(exponent := e)) == LiteralValue(x) * Pow10Real(e)
  {
    assert Pow10Real(0) == 1.0 by { assert Pow10(0) == 1; }
    var m := x.digits as real / Pow10(x.scale) as real;
    assert LiteralValue(x) == Signed(x.negative, m);
  }

  /**
   The exponent branch reads the text as the direct parse does (0 when that
   fails) unless the text ends with a line terminator; only then can the
   fallback read what the direct parse rejects, namely the text before the
   terminator.
   */
  lemma ExponentBranchValue(s: string)
    ensures !EndsWithLineTerminator(s) ==> ExponentBranch(s) == ValueOrZero(ParseDecimalLiteral(s))
    ensures ParseDecimalLiteral(s).None? && FallbackMatch(s).Some? ==>
      EndsWithLineTerminator(s) && ExponentBranch(s) == ValueOrZero(ParseDecimalLiteral(BeforeFinalTerminator(s)))
  {
    FallbackReadsAsDirectParse(s);
  }

  /**
   Of the line terminators only U+0085 survives Kotlin's trim, so it is the
   one terminator that can end the text the exponent branch reads.
   */
  lemma OnlyNextLineSurvivesTrim(s: string)
    ensures EndsWithLineTerminator(Trim(s, KotlinWhitespace)) ==>
      Trim(s, KotlinWhitespace)[|Trim(s, KotlinWhitespace)| - 1] == '\U{85}'
  {
  }

  /**
   "1e5" followed by U+0085: the direct parse rejects it, the fallback's
   `$` matches before the terminator, and the text reads as 100000.
   */
  lemma NextLineAfterExponent()
    ensures ParseDecimalLiteral("1e5\U{85}") == None
    ensures ToSafeDouble("1e5\U{85}") == 100000.0
  {
    var s := "1e5\U{85}";
    NextLineText(s);
    ExponentTextRead(s, s, s);
    NextLineParse(s);
    NextLineMatch(s);
  }

  /** The text the exponent branch reads, when no sentinel and an 'e' are there. */
  lemma ExponentTextRead(s: string, raw: string, t: string)
    requires raw == Trim(s, KotlinWhitespace) && !IsSentinel(raw) && Contains(raw, 'e')
    requires t == ReplaceAll(RemoveAll(raw, ' '), 'E', 'e')
    ensures ToSafeDouble(s) == ExponentBranch(t)
  {
  }

  lemma NextLineText(s: string)
    requires s == "1e5\U{85}"
    ensures Trim(s, KotlinWhitespace) == s && !IsSentinel(s) && Contains(s, 'e')
    ensures ReplaceAll(RemoveAll(s, ' '), 'E', 'e') == s
  {
    NextLineTrim(s);
    NextLineNotSentinel(s);
    NextLineUnchanged(s);
  }

  lemma NextLineTrim(s: string)
    requires s == "1e5\U{85}"
    ensures Trim(s, KotlinWhitespace) == s && Contains(s, 'e')
  {
    assert !IsBlank(KotlinWhitespace, s[0]) && !IsBlank(KotlinWhitespace, s[|s| - 1]);
    assert s[1] == 'e';
  }

  lemma NextLineNotSentinel(s: string)
    requires s == "1e5\U{85}"
    ensures !IsSentinel(s)
  {
    assert LowerAscii(s[1]) != LowerAscii("Error"[1]);
  }

  lemma NextLineUnchanged(s: string)
    requires s == "1e5\U{85}"
    ensures ReplaceAll(RemoveAll(s, ' '), 'E', 'e') == s
  {
    assert !Contains(s, ' ');
    assert forall i :: 0 <= i < |s| ==> s[i] != 'E';
  }

  lemma NextLineParse(s: string)
    requires s == "1e5\U{85}"
    ensures ParseDecimalLiteral(s) == None
  {
    assert Trim(s, JavaBlank) == s;
    assert Unsigned(s) == s && StripSuffix(s) == s;
    assert IndexOfAny(s, ExponentMarks) == 1;
    assert s[2..] == "5\U{85}";
    assert !AllDigits(s[2..]) by { assert !IsDigit(s[2..][1]); }
  }

  lemma NextLineMatch(s: string)
    requires s == "1e5\U{85}"
    ensures ScientificFallback(s) == 100000.0
  {
    assert BeforeFinalTerminator(s) == "1e5";
    OneEFive("1e5");
    TenToTheFifth(FallbackMatch(s));
  }

  lemma OneEFive(b: string)
    requires b == "1e5"
    ensures PatternMatch(b) == Some((Literal(false, 1, 0, 0), 5))
  {
    assert IndexOfAny(b, {'e'}) == 1;
    assert b[..1] == "1" && b[2..] == "5";
    ReadOne("1");
    ReadFive("5");
    PatternAt(b, 1, "1", "5");
  }

  /** The pattern splits at the first 'e' when the part before it is number text. */
  lemma PatternAt(b: string, i: nat, num: string, exp: string)
    requires IndexOfAny(b, {'e'}) == i < |b| && num == b[..i] && exp == b[i + 1..] && IsNumberText(num)
    ensures PatternMatch(b) == FallbackParts(num, exp)
  {
  }

  lemma ReadOne(num: string)
    requires num == "1"
    ensures IsNumberText(num) && ParseDecimalLiteral(num) == Some(Literal(false, 1, 0, 0))
  {
    MantissaWhole(num);
    NumberTextLiteral(num);
    assert Unsigned(num) == num;
  }

  lemma ReadFive(exp: string)
    requires exp == "5"
    ensures ParseExponent(exp) == Some(5)
  {
    assert DigitsToNat(exp) == 5;
  }

  lemma TenToTheFifth(m: Option<(Literal, int)>)
    requires m == Some((Literal(false, 1, 0, 0), 5))
    ensures MatchValue(m) == 100000.0
  {
    assert Pow10Real(5) == 100000.0 by { assert Pow10(5) == 100000; }
    assert Pow10(0) == 1;
  }

  /** A mantissa with one '.' reads as its digits with the fraction length as scale. */
  lemma MantissaWithPoint(w: string, f: string)
    requires AllDigits(w) && AllDigits(f) && |w| >= 1
    ensures ParseMantissa(w + "." + f) == Some(Literal(false, DigitsToNat(w + f), |f|, 0))
  {
    var m := w + "." + f;
    IndexOfAnyAfter(w, "." + f, {'.'});
    assert m == w + ("." + f);
    assert m[..|w|] == w && m[|w| + 1..] == f;
  }

  /** A mantissa of digits only reads as their value. */
  lemma MantissaWhole(w: string)
    requires AllDigits(w) && |w| >= 1
    ensures ParseMantissa(w) == Some(Literal(false, DigitsToNat(w), 0, 0))
  {
    assert forall j :: 0 <= j < |w| ==> w[j] !in {'.'};
    IndexOfAnyNone(w, {'.'});
    assert w[..|w|] == w;
    assert w + [] == w;
  }

  /** A mantissa with two '.' characters is rejected. */
  lemma MantissaTwoPoints(m: string, i: nat, j: nat)
    requires i < j < |m| && m[i] == '.' && m[j] == '.'
    ensures ParseMantissa(m) == None
  {
    var d := IndexOfAny(m, {'.'});
    assert d <= i;
    var frac := m[d + 1..];
    assert frac[j - d - 1] == '.';
  }

  /**
   An unsigned numeral made of digits and '.' with an optional '-' in front
   parses exactly as its mantissa, negative when the '-' is there.
   */
  lemma ParseSignedNumeral(negative: bool, body: string)
    requires |body| > 0 && forall i :: 0 <= i < |body| ==> IsDigit(body[i]) || body[i] == '.'
    ensures ParseMantissa(body).None? ==> ParseDecimalLiteral((if negative then "-" else "") + body) == None
    ensures ParseMantissa(body).Some? ==>
      ParseDecimalLiteral((if negative then "-" else "") + body) == Some(ParseMantissa(body).value.(negative := negative))
  {
    var s := (if negative then "-" else "") + body;
    SignedNumberChars(negative, body);
    NumberTextLiteral(s);
  }

  lemma SignedNumberChars(negative: bool, body: string)
    requires |body| > 0 && forall i :: 0 <= i < |body| ==> IsDigit(body[i]) || body[i] == '.'
    ensures IsNumberText((if negative then "-" else "") + body)
    ensures Unsigned((if negative then "-" else "") + body) == body
    ensures ((if negative then "-" else "") + body)[0] == '-' <==> negative
  {
  }
}
