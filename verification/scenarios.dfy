/**
 Worked key sequences: a sum, a division by zero, and a result of four or
 more integer digits whose grouped display is read back a thousand times
 smaller by the next operation.
 */
module Scenarios {
  import opened Numerics
  import opened Text
  import opened Options
  import opened Parser
  import opened Formatter
  import opened Reparse
  import opened Calculator
  import opened CalculatorProofs

  /** Running two key sequences one after the other is running them joined. */
  lemma {:induction false} RunConcat(s: State, xs: seq<Action>, ys: seq<Action>)
    ensures Run(s, xs + ys) == Run(Run(s, xs), ys)
    decreases |xs|
  {
    if |xs| == 0 {
      assert xs + ys == ys;
    } else {
      assert (xs + ys)[1..] == xs[1..] + ys;
      RunConcat(Step(s, xs[0]), xs[1..], ys);
    }
  }

  lemma RunThree(s: State, a: Action, b: Action, c: Action)
    ensures Run(s, [a, b, c]) == Step(Step(Step(s, a), b), c)
  {
    assert [a, b, c][1..] == [b, c];
    assert [b, c][1..] == [c];
    assert [c][1..] == [];
    var t := Step(Step(s, a), b);
    assert Run(t, [c]) == Run(Step(t, c), []) == Step(t, c);
    assert Run(Step(s, a), [b, c]) == Run(t, [c]);
  }

  /** From the initial state, keys 1 and 2 show "12", which reads as twelve. */
  lemma TypeTwelve()
    ensures Run(Initial, Presses([1, 2])) == Initial.(display := "12", overwrite := false)
    ensures Current(Run(Initial, Presses([1, 2]))) == 12.0
  {
    SpellTwelve();
    TypeDigits(Initial, [1, 2]);
    TypeDigitsShows(Initial, [1, 2]);
  }

  lemma SpellTwelve()
    ensures AreDigits([1, 2]) && DigitText([1, 2]) == "12" && DigitsToNat("12") == 12
  {
    SpellStep(12, "1", "12");
    assert DigitText([1, 2]) == "12";
  }

  /** The operation key stores the number typed as the operand and waits for the next. */
  lemma OperandStored(u: State, x: real, op: Operation)
    requires !u.isError && u.accumulator.None? && u.pending.None? && Current(u) == x
    ensures Step(u, Op(op)) == u.(accumulator := Some(x), pending := Some(op), overwrite := true,
      previousExpression := FormatNumber(x) + " " + op.Symbol())
  {
    OpStep(u, op);
  }

  /** The state after "1 2 + 7": seven typed, twelve and the addition waiting. */
  const AfterSeven := State("7", "12 +", Some(12.0), Some(Add), false, 0.0, false)

  lemma TypeTwelvePlusSeven()
    ensures Run(Initial, Presses([1, 2]) + [Op(Add), Digit(7)]) == AfterSeven
  {
    var u1 := Run(Initial, Presses([1, 2]));
    RunConcat(Initial, Presses([1, 2]), [Op(Add), Digit(7)]);
    assert [Op(Add), Digit(7)] == [Op(Add)] + [Digit(7)];
    RunAppend(u1, [Op(Add)], Digit(7));
    assert Run(u1, [Op(Add)]) == Run(Step(u1, Op(Add)), []);
    TwelvePlus();
    FirstDigit(Step(u1, Op(Add)), 7);
  }

  /** After "1 2 +", twelve and the addition wait and the display still shows "12". */
  lemma TwelvePlus()
    ensures Step(Run(Initial, Presses([1, 2])), Op(Add)) == State("12", "12 +", Some(12.0), Some(Add), true, 0.0, false)
  {
    var u1 := Run(Initial, Presses([1, 2]));
    TypeTwelve();
    OperandStored(u1, 12.0, Add);
    ShowsSmall(12, "12");
    OperandLine(FormatNumber(12.0));
  }

  lemma OperandLine(x: string)
    requires x == "12"
    ensures x + " " + Add.Symbol() == "12 +"
  {
  }

  /** '=' on "12 + 7" shows 19 and the whole sum above it. */
  lemma SumOfTwelveAndSeven()
    ensures Step(AfterSeven, Equals).display == "19"
    ensures Step(AfterSeven, Equals).previousExpression == "12 + 7 ="
  {
    DigitReads(AfterSeven, 7);
    EqualsOnSum(AfterSeven, 12.0, 7.0, 19.0);
    ShowsSmall(19, "19");
    ShowsSmall(12, "12");
    ShowsSmall(7, "7");
    SumLine(FormatNumber(12.0), FormatNumber(7.0));
  }

  /** '=' on a waiting sum shows the sum of the operand and the value read. */
  lemma EqualsOnSum(u: State, a: real, b: real, x: real)
    requires !u.isError && u.accumulator == Some(a) && u.pending == Some(Add) && Current(u) == b
    requires x == a + b
    ensures Step(u, Equals).display == FormatNumber(x)
    ensures Step(u, Equals).previousExpression == FormatNumber(a) + " " + Add.Symbol() + " " + FormatNumber(b) + " ="
    ensures Step(u, Equals).accumulator.None? && Step(u, Equals).pending.None?
    ensures !Step(u, Equals).isError && Step(u, Equals).overwrite
  {
    EqualsStep(u);
  }

  lemma SumLine(x: string, y: string)
    requires x == "12" && y == "7"
    ensures x + " " + Add.Symbol() + " " + y + " =" == "12 + 7 ="
  {
  }

  /** "1 2 + 7 =" shows 19, and the line above shows the whole sum. */
  lemma TwelvePlusSeven()
    ensures Run(Initial, Presses([1, 2]) + [Op(Add), Digit(7), Equals]).display == "19"
    ensures Run(Initial, Presses([1, 2]) + [Op(Add), Digit(7), Equals]).previousExpression == "12 + 7 ="
  {
    var keys := Presses([1, 2]) + [Op(Add), Digit(7)];
    assert Presses([1, 2]) + [Op(Add), Digit(7), Equals] == keys + [Equals];
    RunAppend(Initial, keys, Equals);
    TypeTwelvePlusSeven();
    SumOfTwelveAndSeven();
  }

  /** A display of one digit reads as that digit. */
  lemma DigitReads(u: State, d: nat)
    requires d < 10 && u.display == [DigitChar(d)]
    ensures Current(u) == d as real
  {
    ReadDigits([DigitChar(d)]);
  }

  lemma ShowsSmall(k: nat, t: string)
    requires 0 < k < 100
    requires t == if k < 10 then [DigitChar(k)] else [DigitChar(k / 10), DigitChar(k % 10)]
    ensures FormatNumber(k as real) == t
  {
    FormatInteger(k);
    if k >= 10 {
      assert NatToDigits(k / 10) == [DigitChar(k / 10)];
    }
  }

  /** "5 ÷ 0 =" ends in the error state, which shows "Error". */
  lemma FiveDividedByZero()
    ensures Run(Initial, [Digit(5), Op(Divide), Digit(0), Equals]).display == "Error"
    ensures Run(Initial, [Digit(5), Op(Divide), Digit(0), Equals]).isError
  {
    assert [Digit(5), Op(Divide), Digit(0), Equals] == [Digit(5), Op(Divide), Digit(0)] + [Equals];
    RunAppend(Initial, [Digit(5), Op(Divide), Digit(0)], Equals);
    RunThree(Initial, Digit(5), Op(Divide), Digit(0));
    var u1 := Step(Initial, Digit(5));
    FirstDigit(Initial, 5);
    DigitReads(u1, 5);
    OperandStored(u1, 5.0, Divide);
    var u2 := Step(u1, Op(Divide));
    FirstDigit(u2, 0);
    var u3 := Step(u2, Digit(0));
    DigitReads(u3, 0);
    DivisionByZero(u3, Add);
  }

  /** "5 ±" shows "-5", which reads as minus five, with nothing waiting. */
  lemma FiveToggled()
    ensures Run(Initial, [Digit(5), ToggleSign]).display == "-5"
    ensures Current(Run(Initial, [Digit(5), ToggleSign])) == -5.0
    ensures !Run(Initial, [Digit(5), ToggleSign]).isError
    ensures Run(Initial, [Digit(5), ToggleSign]).accumulator.None?
    ensures Run(Initial, [Digit(5), ToggleSign]).pending.None?
  {
    assert [Digit(5), ToggleSign] == [Digit(5)] + [ToggleSign];
    RunAppend(Initial, [Digit(5)], ToggleSign);
    assert Run(Initial, [Digit(5)]) == Run(Step(Initial, Digit(5)), []);
    var u1 := Step(Initial, Digit(5));
    FirstDigit(Initial, 5);
    DigitReads(u1, 5);
    ToggleStep(u1, ToggleSign);
    var u2 := Step(u1, ToggleSign);
    ShowsMinusFive();
    RoundedExactly(-5.0, -500_000_000);
    DisplayReadsBack(u2, -5.0);
  }

  lemma ShowsMinusFive()
    ensures FormatNumber(-5.0) == "-5"
  {
    FormatInteger(-5);
    assert NatToDigits(5) == [DigitChar(5)];
  }

  /** "5 ± + 3 =" shows "-2": the toggled number takes part in the sum. */
  lemma FiveToggledPlusThree()
    ensures Run(Initial, [Digit(5), ToggleSign] + AddKeys([3])).display == "-2"
  {
    RunConcat(Initial, [Digit(5), ToggleSign], AddKeys([3]));
    FiveToggled();
    AddThree(Run(Initial, [Digit(5), ToggleSign]));
  }

  lemma AddThree(u: State)
    requires !u.isError && u.accumulator.None? && u.pending.None? && Current(u) == -5.0
    ensures Run(u, AddKeys([3])).display == "-2"
  {
    SpellThree();
    AddNumber(u, [3], -5.0, 3, -2.0);
    ShowsMinusTwo();
  }

  lemma SpellThree()
    ensures AreDigits([3]) && DigitsToNat(DigitText([3])) == 3
  {
    assert DigitText([3]) == [DigitChar(3)];
  }

  lemma ShowsMinusTwo()
    ensures FormatNumber(-2.0) == "-2"
  {
    FormatInteger(-2);
    assert NatToDigits(2) == [DigitChar(2)];
  }

  /**
   From a state with nothing waiting that reads as `a`, the keys
   "+ <digits> =" show the sum of `a` and the number the digits spell.
   */
  lemma AddNumber(u: State, ds: seq<nat>, a: real, n: nat, x: real)
    requires !u.isError && u.accumulator.None? && u.pending.None? && Current(u) == a
    requires AreDigits(ds) && 1 <= |ds| <= MaxDigitsPerNumber && ds[0] != 0
    requires DigitsToNat(DigitText(ds)) == n && x == a + n as real
    ensures Run(u, [Op(Add)] + Presses(ds) + [Equals]).display == FormatNumber(x)
    ensures Run(u, [Op(Add)] + Presses(ds) + [Equals]).accumulator.None?
    ensures Run(u, [Op(Add)] + Presses(ds) + [Equals]).pending.None?
    ensures !Run(u, [Op(Add)] + Presses(ds) + [Equals]).isError
  {
    RunAppend(u, [Op(Add)] + Presses(ds), Equals);
    RunConcat(u, [Op(Add)], Presses(ds));
    assert Run(u, [Op(Add)]) == Run(Step(u, Op(Add)), []);
    OperandStored(u, a, Add);
    var u2 := Step(u, Op(Add));
    TypeDigits(u2, ds);
    TypeDigitsShows(u2, ds);
    EqualsOnSum(Run(u2, Presses(ds)), a, n as real, x);
  }

  /** 10900 is shown with a '.' grouping its thousands. */
  lemma ShowsTenThousandNineHundred()
    ensures FormatNumber(10900.0) == "10.900"
  {
    FormatInteger(10900);
    SpellTenThousandNineHundred();
    GroupFiveDigits();
  }

  lemma SpellTenThousandNineHundred()
    ensures NatToDigits(10900) == "10900"
  {
    SpellStep(10, "1", "10");
    SpellStep(109, "10", "109");
    SpellStep(1090, "109", "1090");
    SpellStep(10900, "1090", "10900");
  }

  lemma GroupFiveDigits()
    ensures Group("10900") == "10.900"
  {
    assert "10900"[..2] == "10" && "10900"[2..] == "900";
    assert Group("10") == "10";
  }

  /** The grouped display of 10900 reads back as 10.9. */
  lemma GroupedReadsSmaller()
    ensures ToSafeDouble(FormatNumber(10900.0)) == 10.9
  {
    RoundedExactly(10900.0, 10900 * Scale);
    ReparseGroupedInteger(10900.0);
  }

  /** 110.9 is shown with a decimal comma. */
  lemma ShowsHundredTenPointNine()
    ensures FormatNumber(110.9) == "110,9"
  {
    RoundedExactly(110.9, 11_090_000_000);
    FormatPlain(110.9);
    FractionNine();
    SpellHundredTen();
  }

  lemma SpellHundredTen()
    ensures NatToDigits(110) == "110"
  {
    SpellStep(11, "1", "11");
    SpellStep(110, "11", "110");
  }

  /** The fraction .9 on eight places is written "9". */
  lemma FractionNine()
    ensures FractionDigits(90_000_000) == "9"
  {
    SpellStep(90, "9", "90");
    SpellStep(900, "90", "900");
    SpellStep(9000, "900", "9000");
    SpellStep(90000, "9000", "90000");
    SpellStep(900000, "90000", "900000");
    SpellStep(9000000, "900000", "9000000");
    SpellStep(90000000, "9000000", "90000000");
    assert StripTrailingZeros("90000000") == "9";
  }

  /** Spelling a number is spelling its tenth and appending its last digit. */
  lemma SpellStep(n: nat, prefix: string, t: string)
    requires n >= 10 && NatToDigits(n / 10) == prefix && t == prefix + [DigitChar(n % 10)]
    ensures NatToDigits(n) == t
  {
  }

  /** A value with at most eight decimal places rounds to itself. */
  lemma RoundedExactly(v: real, n: int)
    requires v * Scale as real == n as real
    ensures Rounded(v) == n
  {
    HalfUpOfInteger(n);
  }

  /** The keys "+ <digits> =". */
  function AddKeys(ds: seq<nat>): seq<Action> {
    [Op(Add)] + Presses(ds) + [Equals]
  }

  /** Typing 8800 from the start: nothing waits and the display reads as 8800. */
  lemma TypeEightThousandEightHundred()
    ensures !Run(Initial, Presses([8, 8, 0, 0])).isError
    ensures Run(Initial, Presses([8, 8, 0, 0])).accumulator.None?
    ensures Run(Initial, Presses([8, 8, 0, 0])).pending.None?
    ensures Current(Run(Initial, Presses([8, 8, 0, 0]))) == 8800.0
  {
    TypeDigits(Initial, [8, 8, 0, 0]);
    TypeDigitsShows(Initial, [8, 8, 0, 0]);
    SpellEightThousandEightHundred();
  }

  lemma SpellEightThousandEightHundred()
    ensures DigitsToNat(DigitText([8, 8, 0, 0])) == 8800
  {
    SpellStep(88, "8", "88");
    SpellStep(880, "88", "880");
    SpellStep(8800, "880", "8800");
    assert DigitText([8, 8, 0, 0]) == "8800";
  }

  lemma SpellTwoThousandOneHundred()
    ensures DigitsToNat(DigitText([2, 1, 0, 0])) == 2100
  {
    SpellStep(21, "2", "21");
    SpellStep(210, "21", "210");
    SpellStep(2100, "210", "2100");
    assert DigitText([2, 1, 0, 0]) == "2100";
  }

  lemma SpellHundred()
    ensures DigitsToNat(DigitText([1, 0, 0])) == 100
  {
    SpellStep(10, "1", "10");
    SpellStep(100, "10", "100");
    assert DigitText([1, 0, 0]) == "100";
  }

  /** "8800 + 2100 =" shows "10.900", which reads as 10.9, with nothing waiting. */
  lemma FirstSum()
    ensures Run(Initial, Presses([8, 8, 0, 0]) + AddKeys([2, 1, 0, 0])).display == "10.900"
    ensures Current(Run(Initial, Presses([8, 8, 0, 0]) + AddKeys([2, 1, 0, 0]))) == 10.9
    ensures !Run(Initial, Presses([8, 8, 0, 0]) + AddKeys([2, 1, 0, 0])).isError
    ensures Run(Initial, Presses([8, 8, 0, 0]) + AddKeys([2, 1, 0, 0])).accumulator.None?
    ensures Run(Initial, Presses([8, 8, 0, 0]) + AddKeys([2, 1, 0, 0])).pending.None?
  {
    RunConcat(Initial, Presses([8, 8, 0, 0]), AddKeys([2, 1, 0, 0]));
    var u1 := Run(Initial, Presses([8, 8, 0, 0]));
    TypeEightThousandEightHundred();
    SpellTwoThousandOneHundred();
    AddNumber(u1, [2, 1, 0, 0], 8800.0, 2100, 10900.0);
    ShowsTenThousandNineHundred();
    GroupedReadsSmaller();
  }

  /**
   "8800 + 2100 =" shows the sum grouped as "10.900"; the next "+ 100 ="
   reads that display as 10.9, not 10900, and shows "110,9".
   */
  lemma GroupedSumReadBack()
    ensures Run(Initial, Presses([8, 8, 0, 0]) + AddKeys([2, 1, 0, 0])).display == "10.900"
    ensures Run(Initial, Presses([8, 8, 0, 0]) + AddKeys([2, 1, 0, 0]) + AddKeys([1, 0, 0])).display == "110,9"
  {
    var first := Presses([8, 8, 0, 0]) + AddKeys([2, 1, 0, 0]);
    RunConcat(Initial, first, AddKeys([1, 0, 0]));
    FirstSum();
    SpellHundred();
    AddNumber(Run(Initial, first), [1, 0, 0], 10.9, 100, 110.9);
    ShowsHundredTenPointNine();
  }
}
