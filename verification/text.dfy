/**
 Character and string helpers in the shape the Kotlin standard library offers
 them: decimal digits, trimming, case-insensitive comparison, searching,
 replacing and truncating. Strings are `seq<char>`.
 */
module Text {
  import opened Numerics

  predicate IsDigit(c: char) {
    '0' <= c <= '9'
  }

  predicate AllDigits(s: string) {
    forall i :: 0 <= i < |s| ==> IsDigit(s[i])
  }

  function DigitValue(c: char): (d: nat)
    requires IsDigit(c)
    ensures d < 10
  {
    c as int - '0' as int
  }

  function DigitChar(d: nat): (c: char)
    requires d < 10
    ensures IsDigit(c) && DigitValue(c) == d
  {
    ('0' as int + d) as char
  }

  /** The value of a string of decimal digits, most significant first. */
  function DigitsToNat(s: string): nat
    requires AllDigits(s)
  {
    if |s| == 0 then 0 else DigitsToNat(s[..|s| - 1]) * 10 + DigitValue(s[|s| - 1])
  }

  /**
   The shortest decimal representation of `n` (Kotlin's `Long.toString` for
   a non-negative value): no leading zero except for zero itself, and it
   reads back as `n`.
   */
  function NatToDigits(n: nat): (s: string)
    ensures |s| >= 1 && AllDigits(s)
    ensures s[0] == '0' ==> n == 0
    ensures DigitsToNat(s) == n
  {
    if n < 10 then [DigitChar(n)]
    else
      var prefix := NatToDigits(n / 10);
      var s := prefix + [DigitChar(n % 10)];
      assert s[..|s| - 1] == prefix;
      s
  }

  /** A numeral with k digits (no leading zero) is exactly a number below 10^k. */
  lemma {:induction false} NatToDigitsLength(n: nat, k: nat)
    requires k >= 1
    ensures |NatToDigits(n)| <= k <==> n < Pow10(k)
    decreases n
  {
    if n >= 10 {
      if k == 1 {
        assert |NatToDigits(n / 10)| >= 1;
      } else {
        NatToDigitsLength(n / 10, k - 1);
      }
    } else {
      Pow10Monotone(1, k);
    }
  }

  lemma {:induction false} DigitsToNatAppend(a: string, b: string)
    requires AllDigits(a) && AllDigits(b)
    ensures AllDigits(a + b)
    ensures DigitsToNat(a + b) == DigitsToNat(a) * Pow10(|b|) + DigitsToNat(b)
    decreases |b|
  {
    var ab := a + b;
    if |b| > 0 {
      var b' := b[..|b| - 1];
      assert ab[..|ab| - 1] == a + b';
      DigitsToNatAppend(a, b');
      var x, y, p, d := DigitsToNat(a), DigitsToNat(b'), Pow10(|b'|), DigitValue(b[|b| - 1]);
      assert DigitsToNat(b) == y * 10 + d;
      assert DigitsToNat(ab) == DigitsToNat(a + b') * 10 + d;
      assert Pow10(|b|) == p * 10;
      MulDistributes(x, p, y);
    } else {
      assert ab == a;
    }
  }

  /** A numeral without a leading zero is spelled back by `NatToDigits`: the two are inverse. */
  lemma {:induction false} NatToDigitsOfDigits(t: string)
    requires |t| >= 1 && AllDigits(t) && (t[0] == '0' ==> |t| == 1)
    ensures NatToDigits(DigitsToNat(t)) == t
    decreases |t|
  {
    var p := t[..|t| - 1];
    var c := t[|t| - 1];
    var n := DigitsToNat(t);
    if |t| == 1 {
      assert DigitChar(DigitValue(c)) == c;
    } else {
      LeadingDigitPositive(p);
      assert n / 10 == DigitsToNat(p) && n % 10 == DigitValue(c);
      NatToDigitsOfDigits(p);
      assert DigitChar(DigitValue(c)) == c;
      assert t == p + [c];
    }
  }

  /** A numeral whose first digit is not zero is worth at least one. */
  lemma {:induction false} LeadingDigitPositive(t: string)
    requires |t| >= 1 && AllDigits(t) && t[0] != '0'
    ensures DigitsToNat(t) >= 1
    decreases |t|
  {
    if |t| > 1 {
      LeadingDigitPositive(t[..|t| - 1]);
    }
  }

  lemma MulDistributes(x: nat, p: nat, y: nat)
    ensures (x * p + y) * 10 == x * (p * 10) + y * 10
  {
  }

  /** A run of zeros is worth nothing. */
  function Zeros(k: nat): (s: string)
    ensures |s| == k && AllDigits(s)
    ensures forall i :: 0 <= i < k ==> s[i] == '0'
  {
    seq(k, _ => '0')
  }

  lemma {:induction false} DigitsToNatZeros(k: nat)
    ensures DigitsToNat(Zeros(k)) == 0
    decreases k
  {
    if k > 0 {
      assert Zeros(k)[..k - 1] == Zeros(k - 1);
      DigitsToNatZeros(k - 1);
    }
  }

  /** `s` left-padded with '0' to width `w` (as `padStart(w, '0')`). */
  function PadLeft(s: string, w: nat): (r: string)
    ensures |r| == if |s| >= w then |s| else w
    ensures AllDigits(s) ==> AllDigits(r)
    ensures r[|r| - |s|..] == s
  {
    if |s| >= w then s else Zeros(w - |s|) + s
  }

  /**
   `s` without its trailing '0' characters: the longest prefix that does not
   end in '0', with only zeros cut away.
   */
  function StripTrailingZeros(s: string): (r: string)
    ensures |r| <= |s| && r == s[..|r|]
    ensures |r| > 0 ==> r[|r| - 1] != '0'
    ensures forall i :: |r| <= i < |s| ==> s[i] == '0'
  {
    if |s| > 0 && s[|s| - 1] == '0' then StripTrailingZeros(s[..|s| - 1]) else s
  }

  /** `c` occurs in `s` (Kotlin's `contains`). */
  predicate Contains(s: string, c: char) {
    exists i :: 0 <= i < |s| && s[i] == c
  }

  /** Every occurrence of `c` removed (`replace(c.toString(), "")`). */
  function RemoveAll(s: string, c: char): (r: string)
    ensures !Contains(r, c)
    ensures |r| <= |s|
    ensures !Contains(s, c) ==> r == s
  {
    if |s| == 0 then []
    else
      var rest := RemoveAll(s[..|s| - 1], c);
      var r := if s[|s| - 1] == c then rest else rest + [s[|s| - 1]];
      assert s[..|s| - 1] + [s[|s| - 1]] == s;
      r
  }

  lemma {:induction false} RemoveAllAppend(a: string, b: string, c: char)
    ensures RemoveAll(a + b, c) == RemoveAll(a, c) + RemoveAll(b, c)
    decreases |b|
  {
    if |b| == 0 {
      assert a + b == a;
    } else {
      var ab := a + b;
      var b' := b[..|b| - 1];
      var last := b[|b| - 1];
      assert ab[..|ab| - 1] == a + b' && ab[|ab| - 1] == last;
      RemoveAllAppend(a, b', c);
      var tail := if last == c then [] else [last];
      assert RemoveAll(b, c) == RemoveAll(b', c) + tail;
      assert RemoveAll(ab, c) == RemoveAll(a + b', c) + tail;
      assert RemoveAll(a, c) + RemoveAll(b', c) + tail == RemoveAll(a, c) + (RemoveAll(b', c) + tail);
    }
  }

  /** Every occurrence of `x` replaced by `y` (`replace(x, y)` on characters). */
  function ReplaceAll(s: string, x: char, y: char): (r: string)
    ensures |r| == |s|
    ensures forall i :: 0 <= i < |s| ==> r[i] == (if s[i] == x then y else s[i])
  {
    seq(|s|, i requires 0 <= i < |s| => if s[i] == x then y else s[i])
  }

  /** The first `n` characters, or all of `s` if it is shorter (`take(n)`). */
  function Take(s: string, n: nat): (r: string)
    ensures |r| <= n && |r| <= |s|
    ensures r == s[..|r|]
    ensures |s| <= n ==> r == s
    ensures |s| > n ==> |r| == n
  {
    if |s| <= n then s else s[..n]
  }

  /** `s` without its last character (`dropLast(1)`). */
  function DropLast(s: string): (r: string)
    ensures |s| > 0 ==> |r| == |s| - 1 && r == s[..|s| - 1]
    ensures |s| == 0 ==> r == []
  {
    if |s| == 0 then [] else s[..|s| - 1]
  }

  /** The two notions of blank the calculator trims by. */
  datatype Blanks =
    | KotlinWhitespace  // Kotlin's `String.trim()`: `Char.isWhitespace`
    | JavaBlank         // `Double.parseDouble`'s own trim: every code point up to ' '

  /**
   Kotlin's `Char.isWhitespace` on the JVM: Java's `Character.isWhitespace`
   or `Character.isSpaceChar` (the Unicode space, line and paragraph
   separators and the ASCII controls 9-13 and 28-31); or simply c <= ' '.
   */
  predicate IsBlank(b: Blanks, c: char) {
    match b
    case JavaBlank => c <= ' '
    case KotlinWhitespace =>
      || ('\t' <= c <= '\r')
      || ('\U{1C}' <= c <= ' ')
      || c == '\U{A0}' || c == '\U{1680}'
      || ('\U{2000}' <= c <= '\U{200A}')
      || c == '\U{2028}' || c == '\U{2029}' || c == '\U{202F}'
      || c == '\U{205F}' || c == '\U{3000}'
  }

  /** `s` without its leading blanks. */
  function TrimStart(s: string, b: Blanks): (r: string)
    ensures |r| <= |s| && r == s[|s| - |r|..]
    ensures forall i :: 0 <= i < |s| - |r| ==> IsBlank(b, s[i])
    ensures |r| > 0 ==> !IsBlank(b, r[0])
  {
    if |s| > 0 && IsBlank(b, s[0]) then TrimStart(s[1..], b) else s
  }

  /** `s` without its trailing blanks. */
  function TrimEnd(s: string, b: Blanks): (r: string)
    ensures |r| <= |s| && r == s[..|r|]
    ensures forall i :: |r| <= i < |s| ==> IsBlank(b, s[i])
    ensures |r| > 0 ==> !IsBlank(b, r[|r| - 1])
  {
    if |s| > 0 && IsBlank(b, s[|s| - 1]) then TrimEnd(s[..|s| - 1], b) else s
  }

  /** `s` without its leading and trailing blanks (`trim`). */
  function Trim(s: string, b: Blanks): (r: string)
    ensures |r| <= |s|
    ensures |r| > 0 ==> !IsBlank(b, r[0]) && !IsBlank(b, r[|r| - 1])
    ensures (|s| > 0 ==> !IsBlank(b, s[0]) && !IsBlank(b, s[|s| - 1])) ==> r == s
  {
    TrimEnd(TrimStart(s, b), b)
  }

  /** ASCII case folding, enough for comparing against Latin words. */
  function LowerAscii(c: char): (l: char)
    ensures 'A' <= c <= 'Z' ==> l as int == c as int + 32
    ensures !('A' <= c <= 'Z') ==> l == c
  {
    if 'A' <= c <= 'Z' then (c as int + 32) as char else c
  }

  /** `a.equals(b, ignoreCase = true)` for strings made of ASCII letters. */
  predicate EqualsIgnoreCase(a: string, b: string) {
    |a| == |b| && forall i :: 0 <= i < |a| ==> LowerAscii(a[i]) == LowerAscii(b[i])
  }

  /** Index of the first character of `s` in `cs`, or |s| if none (`indexOfAny`). */
  function IndexOfAny(s: string, cs: set<char>): (i: nat)
    ensures i <= |s|
    ensures i < |s| ==> s[i] in cs
    ensures forall j :: 0 <= j < i ==> s[j] !in cs
  {
    if |s| == 0 then 0
    else if s[0] in cs then 0
    else 1 + IndexOfAny(s[1..], cs)
  }

  /** Index of the last character of `s` in `cs`, or -1 if none (`lastIndexOfAny`). */
  function LastIndexOfAny(s: string, cs: set<char>): (i: int)
    ensures -1 <= i < |s|
    ensures i >= 0 ==> s[i] in cs
    ensures forall j :: i < j < |s| ==> s[j] !in cs
  {
    if |s| == 0 then -1
    else if s[|s| - 1] in cs then |s| - 1
    else LastIndexOfAny(s[..|s| - 1], cs)
  }

  /** How many characters of `s` are ASCII digits (`count { it in '0'..'9' }`). */
  function CountDigits(s: string): (n: nat)
    ensures n <= |s|
    ensures AllDigits(s) ==> n == |s|
    ensures (forall i :: 0 <= i < |s| ==> !IsDigit(s[i])) ==> n == 0
  {
    if |s| == 0 then 0
    else CountDigits(s[..|s| - 1]) + (if IsDigit(s[|s| - 1]) then 1 else 0)
  }

  lemma {:induction false} CountDigitsAppend(a: string, b: string)
    ensures CountDigits(a + b) == CountDigits(a) + CountDigits(b)
    decreases |b|
  {
    var ab := a + b;
    if |b| == 0 {
      assert ab == a;
    } else {
      assert ab[..|ab| - 1] == a + b[..|b| - 1];
      CountDigitsAppend(a, b[..|b| - 1]);
    }
  }

  /** The same count, computed by a left-to-right scan. */
  method CountDigitsScan(s: string) returns (n: nat)
    ensures n == CountDigits(s)
  {
    n := 0;
    var i := 0;
    while i < |s|
      invariant 0 <= i <= |s|
      invariant n == CountDigits(s[..i])
    {
      assert s[..i + 1][..i] == s[..i];
      if IsDigit(s[i]) {
        n := n + 1;
      }
      i := i + 1;
    }
    assert s[..i] == s;
  }
}
