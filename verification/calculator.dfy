/**
 The calculator's state machine (`onCalculatorAction` and its helpers in
 CalculatorState.kt). Doubles are modelled as exact reals; the display is
 the text the user sees and is read back with `toSafeDouble` whenever an
 operation needs the current number.
 */
module Calculator {
  import opened Numerics
  import opened Text
  import opened Options
  import opened Parser
  import opened Formatter

  /** At most ten digits may be typed into one number. */
  const MaxDigitsPerNumber: nat := 10

  /** A divisor smaller than 1e-12 in magnitude counts as zero. */
  const DivisionEpsilon: real := 0.000000000001

  /** The symbols the operations show: '+', U+2212 minus, U+00D7 times, U+00F7 divide. */
  const OperatorSymbols: set<char> := {'+', '−', '×', '÷'}

  datatype Operation = Add | Subtract | Multiply | Divide {
    /** The symbol written into the previous-expression line. */
    function Symbol(): (r: string)
      ensures |r| == 1 && r[0] in OperatorSymbols
    {
      match this
      case Add => "+"
      case Subtract => "−"
      case Multiply => "×"
      case Divide => "÷"
    }
  }

  /**
   The display text, the line above it, the left operand and the operation
   waiting for their right operand, whether the next digit starts a new
   number, the memory register and the error flag.
   */
  datatype State = State(
    display: string,
    previousExpression: string,
    accumulator: Option<real>,
    pending: Option<Operation>,
    overwrite: bool,
    memory: real,
    isError: bool)

  /** `CalculatorState()` with its defaults. */
  const Initial: State := State("0", "", None, None, true, 0.0, false)

  datatype Action =
    | Digit(value: int)
    | Decimal
    | Op(op: Operation)
    | Equals
    | Clear
    | Percent
    | ToggleSign
    | Backspace
    | MemoryClear
    | MemoryRecall
    | MemoryAdd
    | MemorySubtract

  /**
   The number the display shows, as every operation reads it. The handlers
   that need it take it as a parameter; the step passes them this.
   */
  function Current(s: State): real {
    ToSafeDouble(s.display)
  }

  /**
   `onCalculatorAction`: in the error state every action but Clear is
   ignored; otherwise each action goes to its handler. Only the memory
   actions touch the memory register.
   */
  function Step(s: State, a: Action): (r: State)
    ensures s.isError && !a.Clear? ==> r == s
    ensures a.Clear? ==> r == Initial.(memory := s.memory)
    ensures !(a.MemoryClear? || a.MemoryAdd? || a.MemorySubtract?) ==> r.memory == s.memory
    ensures !s.isError && a.MemoryClear? ==> r.memory == 0.0
  {
    if s.isError && !a.Clear? then s
    else
      match a
      case Digit(d) => AppendDigit(s, d)
      case Decimal => AppendDecimal(s)
      case Op(op) => ApplyOperation(s, Current(s), op)
      case Equals => Evaluate(s, Current(s))
      case Clear => Reset(s)
      case Percent => ApplyPercent(s, Current(s))
      case ToggleSign => FlipSign(s, Current(s))
      case Backspace => DeleteLast(s)
      case MemoryClear => s.(memory := 0.0)
      case MemoryRecall => WithDisplay(s, s.memory)
      case MemoryAdd => AddToMemory(s, Current(s))
      case MemorySubtract => SubtractFromMemory(s, Current(s))
  }

  /** `coerceIn(0, 9)`. */
  function ClampDigit(d: int): (r: nat)
    ensures r < 10
    ensures 0 <= d <= 9 ==> r == d
    ensures d < 0 ==> r == 0
    ensures d > 9 ==> r == 9
  {
    if d < 0 then 0 else if d > 9 then 9 else d
  }

  /**
   `appendDigit`: a digit replaces a display that is to be overwritten or
   reads "0", is appended otherwise, and is dropped when the number already
   has ten digits or the display is full. Typing clears overwrite and error.
   */
  function AppendDigit(s: State, d: int): (r: State)
    ensures r.accumulator == s.accumulator && r.pending == s.pending
    ensures r.memory == s.memory && r.previousExpression == s.previousExpression
    ensures !CanAppendDigit(s.display, s.overwrite) ==> r == s
    ensures CanAppendDigit(s.display, s.overwrite) ==> !r.overwrite && !r.isError
    ensures CanAppendDigit(s.display, s.overwrite) && (s.overwrite || s.display == "0") ==>
      r.display == [DigitChar(ClampDigit(d))]
    ensures CanAppendDigit(s.display, s.overwrite) && !s.overwrite && s.display != "0" ==>
      if |s.display| < MaxDisplayLength then r.display == s.display + [DigitChar(ClampDigit(d))]
      else r.display == s.display
  {
    var digit := [DigitChar(ClampDigit(d))];
    if !CanAppendDigit(s.display, s.overwrite) then s
    else
      var next :=
        if s.overwrite || s.display == "0" then digit
        else if |s.display| >= MaxDisplayLength then s.display
        else s.display + digit;
      s.(display := next, overwrite := false, isError := false)
  }

  /**
   `appendDecimal`: ',' is appended to the number being typed (to "0" when
   a new number starts) unless it already has one; the result is cut to the
   display length.
   */
  function AppendDecimal(s: State): (r: State)
    ensures r.accumulator == s.accumulator && r.pending == s.pending
    ensures r.memory == s.memory && r.previousExpression == s.previousExpression && r.isError == s.isError
    ensures Contains(if s.overwrite then "0" else s.display, ',') ==> r == s
    ensures !Contains(if s.overwrite then "0" else s.display, ',') ==> !r.overwrite
    ensures s.overwrite ==> r.display == "0,"
    ensures !s.overwrite && !Contains(s.display, ',') && |s.display| < MaxDisplayLength ==>
      r.display == s.display + ","
    ensures !s.overwrite && !Contains(s.display, ',') && |s.display| >= MaxDisplayLength ==>
      r.display == s.display[..MaxDisplayLength]
    ensures 0 < |r.display| <= MaxDisplayLength || r == s
  {
    var base := if s.overwrite then "0" else s.display;
    if Contains(base, ',') then s
    else s.(display := Take(base + ",", MaxDisplayLength), overwrite := false)
  }

  /**
   The number being typed: the text after the last operator symbol, or the
   whole display when there is none (the longest suffix free of operator
   symbols).
   */
  function CurrentNumber(display: string): (g: string)
    ensures |g| <= |display| && g == display[|display| - |g|..]
    ensures forall i :: 0 <= i < |g| ==> g[i] !in OperatorSymbols
    ensures |g| < |display| ==> display[|display| - |g| - 1] in OperatorSymbols
  {
    var i := LastIndexOfAny(display, OperatorSymbols);
    if i == -1 then display else display[i + 1..]
  }

  /** `canAppendDigit`: a new number may always start; otherwise it may have ten digits at most. */
  predicate CanAppendDigit(display: string, overwrite: bool) {
    overwrite || CountDigits(CurrentNumber(display)) < MaxDigitsPerNumber
  }

  /**
   `performBinaryOperation`: the four operations, with no result when the
   divisor is within 1e-12 of zero.
   */
  function PerformBinaryOperation(lhs: real, rhs: real, op: Operation): (r: Option<real>)
    ensures r.None? <==> op == Divide && AbsReal(rhs) < DivisionEpsilon
    ensures r.Some? && op == Divide ==> r.value * rhs == lhs
    ensures r.Some? && op == Subtract ==> r.value + rhs == lhs
    ensures r.Some? && op == Add ==> r.value - rhs == lhs
    ensures r.Some? && op == Multiply && rhs != 0.0 ==> r.value / rhs == lhs
    ensures r.Some? && op == Multiply && rhs == 0.0 ==> r.value == 0.0
  {
    match op
    case Add => Some(lhs + rhs)
    case Subtract => Some(lhs - rhs)
    case Multiply => ProductDivides(lhs, rhs); Some(lhs * rhs)
    case Divide => if AbsReal(rhs) < DivisionEpsilon then None else QuotientMultiplies(lhs, rhs); Some(lhs / rhs)
  }

  /** A product divided by a non-zero factor gives back the other factor. */
  lemma ProductDivides(a: real, b: real)
    ensures b != 0.0 ==> (a * b) / b == a
    ensures b == 0.0 ==> a * b == 0.0
  {
  }

  /** A quotient times its non-zero divisor gives back the dividend. */
  lemma QuotientMultiplies(a: real, b: real)
    requires b != 0.0
    ensures (a / b) * b == a
  {
  }

  /** An operation chains when an operand and an operation wait and a second number has been typed. */
  predicate Chains(s: State) {
    s.accumulator.Some? && s.pending.Some? && !s.overwrite
  }

  /**
   `applyOperation`: when it chains, the waiting operation is carried out
   on the accumulator and the display and its result is shown and becomes
   the accumulator; otherwise the accumulator, or failing that the display,
   becomes the left operand. Either way the new operation waits, the next
   digit starts a new number, and the line above shows the operand and
   the symbol. A failed division gives the error state.
   */
  function ApplyOperation(s: State, current: real, op: Operation): (r: State)
    ensures Chains(s) && PerformBinaryOperation(s.accumulator.value, current, s.pending.value).None? ==>
      r == ErrorState(s)
    ensures Chains(s) && PerformBinaryOperation(s.accumulator.value, current, s.pending.value).Some? ==>
      var x := PerformBinaryOperation(s.accumulator.value, current, s.pending.value).value;
      r.accumulator == Some(x) && r.display == FormatNumber(x)
    ensures !Chains(s) ==> r.display == s.display && r.accumulator == Some(s.accumulator.GetOr(current))
    ensures r.memory == s.memory
    ensures r.isError <==> Chains(s) && PerformBinaryOperation(s.accumulator.value, current, s.pending.value).None?
    ensures !r.isError ==> (r.pending == Some(op) && r.overwrite
      && r.previousExpression == FormatNumber(r.accumulator.value) + " " + op.Symbol())
  {
    if Chains(s) then
      match PerformBinaryOperation(s.accumulator.value, current, s.pending.value)
      case None => ErrorState(s)
      case Some(result) =>
        s.(display := FormatNumber(result), accumulator := Some(result), pending := Some(op),
          overwrite := true, previousExpression := FormatNumber(result) + " " + op.Symbol(), isError := false)
    else
      var base := s.accumulator.GetOr(current);
      s.(accumulator := Some(base), pending := Some(op), overwrite := true,
        previousExpression := FormatNumber(base) + " " + op.Symbol(), isError := false)
  }

  /**
   `evaluate`: with an operand and an operation waiting, the operation is
   carried out on the accumulator and the display, the result is shown,
   the line above shows the whole expression and nothing waits any more.
   Without them nothing happens; a failed division gives the error state.
   */
  function Evaluate(s: State, current: real): (r: State)
    ensures s.pending.None? || s.accumulator.None? ==> r == s
    ensures s.pending.Some? && s.accumulator.Some? ==>
      match PerformBinaryOperation(s.accumulator.value, current, s.pending.value)
      case None => r == ErrorState(s)
      case Some(x) =>
        && r.display == FormatNumber(x) && r.accumulator.None? && r.pending.None?
        && r.overwrite && !r.isError && r.memory == s.memory
        && r.previousExpression == FormatNumber(s.accumulator.value) + " " + s.pending.value.Symbol()
          + " " + FormatNumber(current) + " ="
  {
    match s.pending
    case None => s
    case Some(op) =>
      match s.accumulator
      case None => s
      case Some(lhs) =>
        match PerformBinaryOperation(lhs, current, op)
        case None => ErrorState(s)
        case Some(result) =>
          s.(display := FormatNumber(result),
            previousExpression := FormatNumber(lhs) + " " + op.Symbol() + " " + FormatNumber(current) + " =",
            accumulator := None, pending := None, overwrite := true, isError := false)
  }

  /**
   `applyPercent`: the display becomes a percentage of the waiting operand
   when there is one, of one otherwise; the next digit starts a new number.
   */
  function ApplyPercent(s: State, current: real): (r: State)
    ensures r.accumulator == s.accumulator && r.pending == s.pending && r.memory == s.memory
    ensures r.previousExpression == s.previousExpression
    ensures r.overwrite && !r.isError
    ensures r.display == FormatNumber(
      if s.accumulator.Some? && s.pending.Some? then s.accumulator.value * (current / 100.0)
      else current / 100.0)
  {
    var basis := if s.accumulator.Some? && s.pending.Some? then s.accumulator.value * (current / 100.0)
      else current / 100.0;
    s.(display := FormatNumber(basis), overwrite := true, isError := false)
  }

  /** `toggleSign`: a zero display stays; any other shows its negation and stays editable. */
  function FlipSign(s: State, current: real): (r: State)
    ensures current == 0.0 ==> r == s
    ensures current != 0.0 ==> r == s.(display := r.display, overwrite := false, isError := false)
  {
    if current == 0.0 then s
    else s.(display := FormatNumber(-current), overwrite := false, isError := false)
  }

  /**
   `backspace`: a display about to be overwritten becomes "0"; otherwise
   its last character goes, and what would be empty, "-" or "-0" becomes "0".
   */
  function DeleteLast(s: State): (r: State)
    ensures r.accumulator == s.accumulator && r.pending == s.pending && r.memory == s.memory
    ensures r.previousExpression == s.previousExpression && r.isError == s.isError
    ensures r.overwrite == s.overwrite
    ensures |r.display| > 0 && r.display != "-" && r.display != "-0"
    ensures s.overwrite ==> r.display == "0"
    ensures !s.overwrite && |s.display| >= 2 && s.display[..|s.display| - 1] != "-" && s.display[..|s.display| - 1] != "-0" ==>
      r.display == s.display[..|s.display| - 1]
    ensures !s.overwrite && DropLast(s.display) in {"", "-", "-0"} ==> r.display == "0"
    ensures |r.display| <= |s.display| || r.display == "0"
  {
    if s.overwrite then s.(display := "0", overwrite := true)
    else
      var dropped := DropLast(s.display);
      var trimmed := if |dropped| == 0 then "0" else dropped;
      var sanitized := if trimmed == "-" || trimmed == "-0" then "0" else trimmed;
      s.(display := sanitized, overwrite := false)
  }

  /** Memory add: the number shown is added to the register; nothing else changes. */
  function AddToMemory(s: State, current: real): State {
    s.(memory := s.memory + current)
  }

  /** Memory subtract: the number shown is taken from the register; nothing else changes. */
  function SubtractFromMemory(s: State, current: real): State {
    s.(memory := s.memory - current)
  }

  /** `reset`: the initial state, keeping only the memory. */
  function Reset(s: State): (r: State)
    ensures r.memory == s.memory
    ensures r.display == "0" && r.accumulator.None? && r.pending.None? && r.overwrite && !r.isError
    ensures r.previousExpression == ""
  {
    State("0", "", None, None, true, s.memory, false)
  }

  /** `withDisplay`: show a value; the next digit starts a new number. */
  function WithDisplay(s: State, v: real): (r: State)
    ensures r.display == FormatNumber(v) && r.overwrite && !r.isError
    ensures r.accumulator == s.accumulator && r.pending == s.pending && r.memory == s.memory
    ensures r.previousExpression == s.previousExpression
  {
    s.(display := FormatNumber(v), overwrite := true, isError := false)
  }

  /** `errorState`: "Error" shown, everything waiting dropped, memory kept. */
  function ErrorState(s: State): (r: State)
    ensures r.display == "Error" && r.isError && r.overwrite
    ensures r.accumulator.None? && r.pending.None? && r.previousExpression == ""
    ensures r.memory == s.memory
  {
    s.(display := "Error", previousExpression := "", accumulator := None, pending := None,
      overwrite := true, isError := true)
  }
}
