/**
 Properties of the calculator's state machine: the invariant every action
 keeps, the error trap, idempotent keys, memory arithmetic, typing digits
 and the digit limit, and worked key sequences.
 */
module CalculatorProofs {
  import opened Numerics
  import opened Text
  import opened Options
  import opened Parser
  import opened Formatter
  import opened Reparse
  import opened Calculator

  /**
   What holds in every reachable state: the display is non-empty and fits,
   an operand waits exactly when an operation does, and the error state
   shows "Error" with nothing waiting and the next digit starting afresh.
   */
  predicate Inv(s: State) {
    && 0 < |s.display| <= MaxDisplayLength
    && (s.accumulator.None? <==> s.pending.None?)
    && (s.isError ==> s.display == "Error" && s.accumulator.None? && s.overwrite)
  }

  /** The actions applied in order. */
  function Run(s: State, actions: seq<Action>): State
    decreases |actions|
  {
    if |actions| == 0 then s else Run(Step(s, actions[0]), actions[1..])
  }

  lemma InitialInv()
    ensures Inv(Initial)
  {
  }

  lemma StepInv(s: State, a: Action)
    requires Inv(s)
    ensures Inv(Step(s, a))
  {
    if !s.isError {
      if Reads(a) {
        ReadingStepInv(s, a);
      } else {
        EditingStepInv(s, a);
      }
    }
  }

  /** The actions whose handler is given the number shown. */
  predicate Reads(a: Action) {
    a.Op? || a.Equals? || a.Percent? || a.ToggleSign? || a.MemoryAdd? || a.MemorySubtract?
  }

  lemma ReadingStepInv(s: State, a: Action)
    requires Inv(s) && !s.isError && Reads(a)
    ensures Inv(Step(s, a))
  {
  }

  lemma EditingStepInv(s: State, a: Action)
    requires Inv(s) && !s.isError && !Reads(a)
    ensures Inv(Step(s, a))
  {
  }

  /** Every state reached from the initial one satisfies the invariant. */
  lemma {:induction false} RunInv(s: State, actions: seq<Action>)
    requires Inv(s)
    ensures Inv(Run(s, actions))
    decreases |actions|
  {
    if |actions| > 0 {
      StepInv(s, actions[0]);
      RunInv(Step(s, actions[0]), actions[1..]);
    }
  }

  /** Once in the error state, nothing but Clear changes anything. */
  lemma {:induction false} ErrorIsSticky(s: State, actions: seq<Action>)
    requires s.isError
    requires forall i :: 0 <= i < |actions| ==> !actions[i].Clear?
    ensures Run(s, actions) == s
    decreases |actions|
  {
    if |actions| > 0 {
      ErrorIsSticky(s, actions[1..]);
    }
  }

  /** Clear leaves the error state for the initial one, keeping the memory. */
  lemma ClearRecovers(s: State)
    ensures Step(s, Clear) == Initial.(memory := s.memory)
    ensures !Step(s, Clear).isError && Inv(Step(s, Clear))
  {
  }

  /** A second decimal key changes nothing. */
  lemma DecimalIdempotent(s: State)
    ensures Step(Step(s, Decimal), Decimal) == Step(s, Decimal)
  {
    if !s.isError {
      var base := if s.overwrite then "0" else s.display;
      if !Contains(base, ',') {
        var t := Take(base + ",", MaxDisplayLength);
        if |base| < MaxDisplayLength {
          assert t == base + ",";
          assert t[|base|] == ',';
        } else {
          assert t == base[..MaxDisplayLength];
          assert !Contains(t, ',') by {
            assert forall i :: 0 <= i < |t| ==> t[i] == base[i];
          }
          assert Take(t + ",", MaxDisplayLength) == t;
        }
      }
    }
  }

  /** A second equals key changes nothing: nothing waits after the first. */
  lemma EqualsIdempotent(s: State)
    ensures Step(Step(s, Equals), Equals) == Step(s, Equals)
  {
  }

  /** Applying actions one after another is running them in sequence. */
  lemma {:induction false} RunAppend(s: State, actions: seq<Action>, a: Action)
    ensures Run(s, actions + [a]) == Step(Run(s, actions), a)
    decreases |actions|
  {
    if |actions| == 0 {
      assert actions + [a] == [a];
    } else {
      assert (actions + [a])[1..] == actions[1..] + [a];
      RunAppend(Step(s, actions[0]), actions[1..], a);
    }
  }

  /** Without operator symbols the number being typed is the whole display. */
  lemma CurrentNumberWhole(d: string)
    requires forall i :: 0 <= i < |d| ==> d[i] !in OperatorSymbols
    ensures CurrentNumber(d) == d
  {
  }

  /** A display of digits only reads back as the number they spell. */
  lemma ReadDigits(w: string)
    requires AllDigits(w) && |w| >= 1
    ensures ToSafeDouble(w) == DigitsToNat(w) as real
  {
    DigitsText(w);
    DigitsParse(w);
    WholeLiteralValue(false, DigitsToNat(w));
    ReadsAs(ToSafeDouble(w), ParseDecimalLiteral(w), Literal(false, DigitsToNat(w), 0, 0), DigitsToNat(w) as real);
  }

  lemma DigitsText(w: string)
    requires AllDigits(w)
    ensures ToSafeDouble(w) == ValueOrZero(ParseDecimalLiteral(w))
  {
    assert !Contains(w, ',');
    ReadPlainText(w);
  }

  lemma DigitsParse(w: string)
    requires AllDigits(w) && |w| >= 1
    ensures ParseDecimalLiteral(w) == Some(Literal(false, DigitsToNat(w), 0, 0))
  {
    MantissaWhole(w);
    assert SignText(false) + w == w;
    ParseSignedNumeral(false, w);
  }

  /** Reading a text that parses as `x` gives the value of `x`. */
  lemma ReadsAs(t: real, l: Option<Literal>, x: Literal, v: real)
    requires t == ValueOrZero(l) && l == Some(x) && LiteralValue(x) == v
    ensures t == v
  {
  }

  predicate AreDigits(ds: seq<nat>) {
    forall i :: 0 <= i < |ds| ==> ds[i] < 10
  }

  /** The text the digits make. */
  function DigitText(ds: seq<nat>): (t: string)
    requires AreDigits(ds)
    ensures |t| == |ds| && AllDigits(t)
    ensures forall i :: 0 <= i < |ds| ==> t[i] == DigitChar(ds[i])
  {
    seq(|ds|, i requires 0 <= i < |ds| => DigitChar(ds[i]))
  }

  /** The digit keys for the digits. */
  function Presses(ds: seq<nat>): (keys: seq<Action>)
    ensures |keys| == |ds|
    ensures forall i :: 0 <= i < |ds| ==> keys[i] == Digit(ds[i])
  {
    seq(|ds|, i requires 0 <= i < |ds| => Digit(ds[i]))
  }

  /** The first digit of a new number replaces the display. */
  lemma FirstDigit(s: State, d: nat)
    requires !s.isError && s.overwrite && d < 10
    ensures Step(s, Digit(d)) == s.(display := [DigitChar(d)], overwrite := false)
  {
  }

  /** Below ten digits, a digit is appended to a number that does not read "0". */
  lemma NextDigit(u: State, d: nat)
    requires !u.isError && !u.overwrite && d < 10
    requires AllDigits(u.display) && 1 <= |u.display| < MaxDigitsPerNumber && u.display[0] != '0'
    ensures Step(u, Digit(d)) == u.(display := u.display + [DigitChar(d)])
  {
    DigitStep(u, d);
    CurrentNumberWhole(u.display);
  }

  /**
   Starting a new number and typing up to ten digits, the first of them not
   zero, shows exactly those digits; nothing else in the state changes.
   */
  lemma {:induction false} TypeDigitsShows(s: State, ds: seq<nat>)
    requires !s.isError && s.overwrite
    requires AreDigits(ds) && 1 <= |ds| <= MaxDigitsPerNumber && ds[0] != 0
    ensures Run(s, Presses(ds)) == s.(display := DigitText(ds), overwrite := false)
    decreases |ds|
  {
    var k := |ds|;
    var prior := ds[..k - 1];
    Snoc(ds);
    RunAppend(s, Presses(prior), Digit(ds[k - 1]));
    if k == 1 {
      FirstDigit(s, ds[0]);
    } else {
      TypeDigitsShows(s, prior);
      var u := Run(s, Presses(prior));
      assert u.display[0] != '0';
      NextDigit(u, ds[k - 1]);
    }
  }

  /** One more digit is one more key and one more character. */
  lemma Snoc(ds: seq<nat>)
    requires AreDigits(ds) && |ds| >= 1
    ensures Presses(ds) == Presses(ds[..|ds| - 1]) + [Digit(ds[|ds| - 1])]
    ensures DigitText(ds) == DigitText(ds[..|ds| - 1]) + [DigitChar(ds[|ds| - 1])]
    ensures |ds| == 1 ==> Presses(ds[..0]) == [] && DigitText(ds) == [DigitChar(ds[0])]
  {
  }

  /** What was typed is what the next operation reads. */
  lemma TypeDigits(s: State, ds: seq<nat>)
    requires !s.isError && s.overwrite
    requires AreDigits(ds) && 1 <= |ds| <= MaxDigitsPerNumber && ds[0] != 0
    ensures Run(s, Presses(ds)).display == DigitText(ds)
    ensures Current(Run(s, Presses(ds))) == DigitsToNat(DigitText(ds)) as real
  {
    TypeDigitsShows(s, ds);
    ReadDigits(DigitText(ds));
  }

  /** Once the number being typed has ten digits, further digits are ignored. */
  lemma DigitLimit(s: State, d: int)
    requires !s.isError && !s.overwrite
    requires AllDigits(s.display) && |s.display| >= MaxDigitsPerNumber
    ensures Step(s, Digit(d)) == s
  {
    CurrentNumberWhole(s.display);
  }

  /**
   The digit rule on a display without an operator symbol: a new number may
   always start, and the number being edited may have ten digits at most.
   */
  lemma {:induction false} DigitCapRule(display: string)
    ensures CanAppendDigit(display, true)
    ensures (forall i :: 0 <= i < |display| ==> display[i] !in OperatorSymbols) ==>
      (CanAppendDigit(display, false) <==> CountDigits(display) < MaxDigitsPerNumber)
  {
    if forall i :: 0 <= i < |display| ==> display[i] !in OperatorSymbols {
      CurrentNumberWhole(display);
    }
  }

  /**
   The digit limit counts only the number after the last operator symbol:
   whatever precedes it, ten digits after it stop further digits.
   */
  lemma DigitCapAfterOperator(before: string, op: char, number: string)
    requires op in OperatorSymbols
    requires forall i :: 0 <= i < |number| ==> number[i] !in OperatorSymbols
    ensures CanAppendDigit(before + [op] + number, false) <==> CountDigits(number) < MaxDigitsPerNumber
  {
    var d := before + [op] + number;
    assert d[|d| - |number| - 1] == op;
    assert forall i :: 0 <= i < |number| ==> d[|d| - |number| + i] == number[i];
    assert CurrentNumber(d) == d[|d| - |number|..] == number;
  }

  /**
   The sign and the decimal comma are not digits: a typed number
   "-w,f" counts the digits of w and f only.
   */
  lemma DigitCapIgnoresSignAndComma(negative: bool, w: string, f: string)
    requires AllDigits(w) && AllDigits(f)
    ensures CanAppendDigit(SignText(negative) + w + "," + f, false) <==> |w| + |f| < MaxDigitsPerNumber
  {
    var t := SignText(negative) + w + "," + f;
    NoOperatorSymbols(SignText(negative), w, f, t);
    CurrentNumberWhole(t);
    SignCommaDigits(SignText(negative), w, f, t);
  }

  lemma NoOperatorSymbols(sign: string, w: string, f: string, t: string)
    requires sign == "" || sign == "-"
    requires AllDigits(w) && AllDigits(f) && t == sign + w + "," + f
    ensures forall i :: 0 <= i < |t| ==> t[i] !in OperatorSymbols
  {
    forall i | 0 <= i < |t|
      ensures t[i] !in OperatorSymbols
    {
      assert t[i] == '-' || t[i] == ',' || IsDigit(t[i]);
    }
  }

  lemma SignCommaDigits(sign: string, w: string, f: string, t: string)
    requires sign == "" || sign == "-"
    requires AllDigits(w) && AllDigits(f) && t == sign + w + "," + f
    ensures CountDigits(t) == |w| + |f|
  {
    var sw := sign + w;
    CountDigitsAppend(sign, w);
    assert CountDigits(sign) == 0;
    var swc := sw + ",";
    CountDigitsAppend(sw, ",");
    assert t == swc + f;
    CountDigitsAppend(swc, f);
  }

  /**
   Backspace takes back a digit typed onto the number being edited: the
   state is as before the digit (a lone "0" comes back as "0").
   */
  lemma BackspaceUndoesDigit(s: State, d: int)
    requires !s.isError && !s.overwrite && CanAppendDigit(s.display, s.overwrite)
    requires 0 < |s.display| < MaxDisplayLength && s.display != "-" && s.display != "-0"
    ensures Step(Step(s, Digit(d)), Backspace) == s
  {
    DigitStep(s, d);
    BackspaceStep(AppendDigit(s, d));
    DeleteAppended(s, d);
  }

  lemma DigitStep(s: State, d: int)
    requires !s.isError
    ensures Step(s, Digit(d)) == AppendDigit(s, d)
  {
  }

  lemma BackspaceStep(s: State)
    requires !s.isError
    ensures Step(s, Backspace) == DeleteLast(s)
  {
  }

  lemma DeleteAppended(s: State, d: int)
    requires !s.isError && !s.overwrite && CanAppendDigit(s.display, s.overwrite)
    requires 0 < |s.display| < MaxDisplayLength && s.display != "-" && s.display != "-0"
    ensures DeleteLast(AppendDigit(s, d)) == s
  {
    var c := DigitChar(ClampDigit(d));
    var t := AppendDigit(s, d);
    if s.display == "0" {
      assert t.display == [c];
      assert DropLast(t.display) == [];
    } else {
      assert t.display == s.display + [c];
      assert DropLast(t.display) == s.display;
    }
  }

  /** Adding the display to memory and subtracting it again restores the memory. */
  lemma MemoryAddSubtract(s: State)
    requires !s.isError
    ensures Step(s, MemoryAdd).memory == s.memory + Current(s)
    ensures Step(s, MemorySubtract).memory == s.memory - Current(s)
    ensures Step(Step(s, MemoryAdd), MemorySubtract) == s
  {
    var x := Current(s);
    AddStep(s);
    SubtractStep(s);
    var t := Step(s, MemoryAdd);
    SameDisplay(s, t);
    SubtractStep(t);
    Restore(s, t, SubtractFromMemory(t, x), x);
  }

  lemma AddStep(s: State)
    requires !s.isError
    ensures Step(s, MemoryAdd) == AddToMemory(s, Current(s))
  {
    MemoryStep(s, MemoryAdd);
  }

  lemma SubtractStep(s: State)
    requires !s.isError
    ensures Step(s, MemorySubtract) == SubtractFromMemory(s, Current(s))
  {
    MemoryStep(s, MemorySubtract);
  }

  lemma MemoryStep(s: State, a: Action)
    requires !s.isError && (a.MemoryAdd? || a.MemorySubtract?)
    ensures Step(s, a) == if a.MemoryAdd? then AddToMemory(s, Current(s)) else SubtractFromMemory(s, Current(s))
  {
    var c := Current(s);
    match a
    case MemoryAdd => assert Step(s, a) == AddToMemory(s, c);
    case MemorySubtract => assert Step(s, a) == SubtractFromMemory(s, c);
  }

  lemma Restore(s: State, t: State, u: State, x: real)
    requires t == s.(memory := s.memory + x) && u == t.(memory := t.memory - x)
    ensures u == s
  {
  }

  /** The value read depends on the display alone. */
  lemma SameDisplay(s: State, t: State)
    requires s.display == t.display
    ensures Current(s) == Current(t)
  {
  }

  /** Memory clear, add and subtract change nothing but the memory. */
  lemma MemoryOnlyChangesMemory(s: State, a: Action)
    requires !s.isError && (a.MemoryClear? || a.MemoryAdd? || a.MemorySubtract?)
    ensures Step(s, a) == s.(memory := Step(s, a).memory)
  {
  }

  /**
   Recalling the memory shows it; what the display then reads back is the
   memory rounded to eight places, unless the display is a whole number of
   four or more digits.
   */
  lemma MemoryRecallReadsBack(s: State)
    requires !s.isError
    requires AbsReal(s.memory) < OverflowBound && !InScientificRange(Rounded(s.memory))
    requires Abs(Rounded(s.memory)) % Scale != 0 || Abs(Rounded(s.memory)) / Scale < 1000
    ensures Step(s, MemoryRecall).display == FormatNumber(s.memory)
    ensures Current(Step(s, MemoryRecall)) == Round8(s.memory)
  {
    RecallShows(s);
    DisplayReadsBack(Step(s, MemoryRecall), s.memory);
  }

  lemma RecallShows(s: State)
    requires !s.isError
    ensures Step(s, MemoryRecall) == WithDisplay(s, s.memory)
  {
    RecallStep(s, MemoryRecall);
  }

  lemma RecallStep(s: State, a: Action)
    requires !s.isError && a.MemoryRecall?
    ensures Step(s, a) == WithDisplay(s, s.memory)
  {
  }

  /** A display showing a value without exponent reads back as the value rounded to eight places. */
  lemma DisplayReadsBack(t: State, v: real)
    requires t.display == FormatNumber(v)
    requires AbsReal(v) < OverflowBound && !InScientificRange(Rounded(v))
    requires Abs(Rounded(v)) % Scale != 0 || Abs(Rounded(v)) / Scale < 1000
    ensures Current(t) == Round8(v)
  {
    ReparseDisplay(v);
  }

  /** A division by (nearly) zero, by '=' or by chaining another operation, gives the error state. */
  lemma DivisionByZero(s: State, op: Operation)
    requires !s.isError && s.accumulator.Some? && s.pending == Some(Divide)
    requires AbsReal(Current(s)) < DivisionEpsilon
    ensures Step(s, Equals) == ErrorState(s)
    ensures !s.overwrite ==> Step(s, Op(op)) == ErrorState(s)
    ensures Step(s, Equals).display == "Error" && Step(s, Equals).isError
  {
    EqualsStep(s);
    OpStep(s, op);
    DivisionFails(s, Current(s), op);
  }

  /** With a divisor too close to zero, '=' and a chaining operation both give the error state. */
  lemma DivisionFails(s: State, x: real, op: Operation)
    requires s.accumulator.Some? && s.pending == Some(Divide) && AbsReal(x) < DivisionEpsilon
    ensures Evaluate(s, x) == ErrorState(s)
    ensures !s.overwrite ==> ApplyOperation(s, x, op) == ErrorState(s)
  {
  }

  lemma OpStep(s: State, op: Operation)
    requires !s.isError
    ensures Step(s, Op(op)) == ApplyOperation(s, Current(s), op)
  {
  }

  /**
   Pressing a second operation right after the first does not compute:
   it replaces the waiting operation.
   */
  lemma OperationReplaces(s: State, first: Operation, second: Operation)
    requires !s.isError && !Step(s, Op(first)).isError
    ensures Step(Step(s, Op(first)), Op(second)) ==
      Step(s, Op(first)).(pending := Some(second),
        previousExpression := FormatNumber(Step(s, Op(first)).accumulator.value) + " " + second.Symbol())
  {
  }

  lemma EqualsStep(s: State)
    requires !s.isError
    ensures Step(s, Equals) == Evaluate(s, Current(s))
  {
  }

  /**
   '=' with an operand and an operation waiting shows the result, and the
   display then reads back as the result rounded to eight places (for
   results shown without exponent and not whole numbers of four or more
   digits).
   */
  lemma EqualsShowsResult(s: State, x: real)
    requires !s.isError && s.accumulator.Some? && s.pending.Some?
    requires PerformBinaryOperation(s.accumulator.value, Current(s), s.pending.value) == Some(x)
    ensures Step(s, Equals).display == FormatNumber(x)
    ensures Step(s, Equals).accumulator.None? && Step(s, Equals).pending.None?
    ensures (AbsReal(x) < OverflowBound && !InScientificRange(Rounded(x))
             && (Abs(Rounded(x)) % Scale != 0 || Abs(Rounded(x)) / Scale < 1000)) ==>
              Current(Step(s, Equals)) == Round8(x)
  {
    EqualsStep(s);
    if AbsReal(x) < OverflowBound && !InScientificRange(Rounded(x))
      && (Abs(Rounded(x)) % Scale != 0 || Abs(Rounded(x)) / Scale < 1000)
    {
      DisplayReadsBack(Step(s, Equals), x);
    }
  }

  /**
   HALF_UP rounding to eight places is symmetric about zero (the negated
   value is passed as `w` so that the solver sees one term for it).
   */
  lemma RoundedNegation(v: real, w: real)
    requires w == -v
    ensures Rounded(w) == -Rounded(v)
    ensures Round8(w) == -Round8(v)
  {
    assert w * Scale as real == -(v * Scale as real);
    HalfUpSign(v * Scale as real);
  }

  /** A value shown without exponent still is once negated, with the same magnitude. */
  lemma NegationInRange(v: real, w: real)
    requires w == -v
    requires AbsReal(v) < OverflowBound && !InScientificRange(Rounded(v))
    ensures AbsReal(w) < OverflowBound && !InScientificRange(Rounded(w))
    ensures Abs(Rounded(w)) == Abs(Rounded(v)) && (Rounded(w) != 0 <==> Rounded(v) != 0)
  {
    RoundedNegation(v, w);
  }

  /** The negation `y` of a rounded value `x` shows as the negation `w` of the value. */
  lemma NegatedRoundShows(v: real, w: real, x: real, y: real)
    requires w == -v && x == Round8(v) && y == -x
    requires AbsReal(v) < OverflowBound && !InScientificRange(Rounded(v))
    ensures FormatNumber(y) == FormatNumber(w)
  {
    RoundedNegation(v, w);
    assert y == Round8(w);
    NegationInRange(v, w);
    Round8Idempotent(w);
  }

  /**
   With the value read being the display's value `v` rounded to eight
   places, toggling the sign shows the negated value `w`.
   */
  lemma FlipShowsNegation(s: State, x: real, v: real, w: real)
    requires x == Round8(v) && Rounded(v) != 0 && w == -v
    requires AbsReal(v) < OverflowBound && !InScientificRange(Rounded(v))
    ensures FlipSign(s, x).display == FormatNumber(w)
    ensures !FlipSign(s, x).isError && !FlipSign(s, x).overwrite
  {
    assert x != 0.0;
    var y := -x;
    NegatedRoundShows(v, w, x, y);
    FlipShows(s, y);
  }

  /** Toggling the negation of a non-zero value `y` shows the text of `y`. */
  lemma FlipShows(s: State, y: real)
    requires y != 0.0
    ensures FlipSign(s, -y).display == FormatNumber(y)
  {
  }

  /**
   Toggling the sign twice restores a display that shows a non-zero value
   without exponent (and not as a whole number of four or more digits);
   each toggle reads the display it is given.
   */
  lemma ToggleTwice(s: State, v: real)
    requires s.display == FormatNumber(v) && Rounded(v) != 0
    requires AbsReal(v) < OverflowBound && !InScientificRange(Rounded(v))
    requires Abs(Rounded(v)) % Scale != 0 || Abs(Rounded(v)) / Scale < 1000
    ensures FlipSign(FlipSign(s, Current(s)), Current(FlipSign(s, Current(s)))).display == s.display
  {
    var w := -v;
    DisplayReadsBack(s, v);
    var t := FlipSign(s, Current(s));
    FlipShowsNegation(s, Current(s), v, w);
    NegationInRange(v, w);
    DisplayReadsBack(t, w);
    FlipShowsNegation(t, Current(t), w, v);
  }

  /** The same through the reducer: two ToggleSign keys give back the display. */
  lemma ToggleSignTwice(s: State, v: real)
    requires !s.isError && s.display == FormatNumber(v) && Rounded(v) != 0
    requires AbsReal(v) < OverflowBound && !InScientificRange(Rounded(v))
    requires Abs(Rounded(v)) % Scale != 0 || Abs(Rounded(v)) / Scale < 1000
    ensures Step(Step(s, ToggleSign), ToggleSign).display == s.display
  {
    ToggleStep(s, ToggleSign);
    var t := FlipSign(s, Current(s));
    DisplayReadsBack(s, v);
    FlipShowsNegation(s, Current(s), v, -v);
    ToggleStep(t, ToggleSign);
    ToggleTwice(s, v);
  }

  /** On a display that reads as zero the sign key does nothing at all. */
  lemma ToggleZero(s: State)
    requires !s.isError && Current(s) == 0.0
    ensures Step(s, ToggleSign) == s
  {
    ToggleStep(s, ToggleSign);
  }

  /**
   The sign key changes only the display and the two flags: the operand,
   the waiting operation, the memory and the line above are kept.
   */
  lemma ToggleKeeps(s: State)
    requires !s.isError
    ensures Step(s, ToggleSign).accumulator == s.accumulator && Step(s, ToggleSign).pending == s.pending
    ensures Step(s, ToggleSign).memory == s.memory && Step(s, ToggleSign).previousExpression == s.previousExpression
    ensures Current(s) != 0.0 ==> !Step(s, ToggleSign).overwrite && !Step(s, ToggleSign).isError
  {
    ToggleStep(s, ToggleSign);
  }

  lemma ToggleStep(s: State, a: Action)
    requires !s.isError && a.ToggleSign?
    ensures Step(s, a) == FlipSign(s, Current(s))
  {
  }

  /**
   The percentage '%' shows reads back as that percentage rounded to eight
   places: a share of the waiting operand when an operation is pending,
   the display divided by a hundred otherwise.
   */
  lemma PercentReadsBack(s: State, c: real, b: real)
    requires b == if s.accumulator.Some? && s.pending.Some? then s.accumulator.value * (c / 100.0) else c / 100.0
    requires AbsReal(b) < OverflowBound && !InScientificRange(Rounded(b))
    requires Abs(Rounded(b)) % Scale != 0 || Abs(Rounded(b)) / Scale < 1000
    ensures Current(ApplyPercent(s, c)) == Round8(b)
    ensures ApplyPercent(s, c).overwrite
  {
    DisplayReadsBack(ApplyPercent(s, c), b);
  }
}
