/** The escape sequences of the terminal as commands: a subset of ECMA-48 section 8.3, and two
    private ones. */
module ScreenCommands {
  import opened Words
  import opened ScreenSpec

  /** Numbers are given by their digits: leading zeros are allowed. */
  type Digit = d: nat | d < 10

  datatype Command =
    | Print(ch: Byte)
    | Up | Down | Right | Left | Home
    | EraseDisplay
    | EraseLine
    | EraseCharacters(n: seq<Digit>)
    | Position(line: seq<Digit>, column: seq<Digit>)
    | Region(first: seq<Digit>, last: seq<Digit>)
    | Pen(n: seq<Digit>)
    | ShowCursor(on: bool)

  /** The digits `ds` read behind the number `p`. */
  function Value(p: nat, ds: seq<Digit>): nat
    decreases |ds|
  {
    if ds == [] then p else Value(10 * p + ds[0], ds[1..])
  }

  function Number(ds: seq<Digit>): nat {
    Value(0, ds)
  }

  predicate Numeral(ds: seq<Digit>, max: nat) {
    ds != [] && Number(ds) <= max
  }

  predicate WellFormed(c: Command) {
    match c
    case Print(ch) => ch >= ' ' as int
    case EraseCharacters(n) => Numeral(n, 99)
    case Position(line, column) => Numeral(line, 99) && Numeral(column, 199)
    case Region(first, last) => Numeral(first, 99) && Numeral(last, 199)
    case Pen(n) => Numeral(n, 99)
    case _ => true
  }

  function DigitBytes(ds: seq<Digit>): (bytes: seq<Byte>)
    ensures |bytes| == |ds| && forall i :: 0 <= i < |ds| ==> bytes[i] == '0' as int + ds[i]
  {
    seq(|ds|, i requires 0 <= i < |ds| => '0' as int + ds[i])
  }

  const CSI: seq<Byte> := [ESC, '[' as int]

  function Encode(c: Command): seq<Byte> {
    match c
    case Print(ch) => [ch]
    case Up => CSI + ['A' as int]
    case Down => CSI + ['B' as int]
    case Right => CSI + ['C' as int]
    case Left => CSI + ['D' as int]
    case Home => CSI + ['H' as int]
    case EraseDisplay => CSI + ['J' as int]
    case EraseLine => CSI + ['K' as int]
    case EraseCharacters(n) => CSI + (DigitBytes(n) + ['X' as int])
    case Position(line, column) => CSI + (DigitBytes(line) + ([';' as int] + (DigitBytes(column) + ['H' as int])))
    case Region(first, last) => CSI + (DigitBytes(first) + ([';' as int] + (DigitBytes(last) + ['r' as int])))
    case Pen(n) => CSI + (DigitBytes(n) + ['m' as int])
    case ShowCursor(on) => CSI + ['?' as int, '2' as int, '5' as int, if on then 'h' as int else 'l' as int]
  }

  /** What a command means. */
  function Do(t: Text, c: Command, rows: nat, cols: nat): Text
    requires Good(t, rows, cols)
  {
    match c
    case Print(ch) => DisplayChar(t, ch, cols)
    case Up => CursorUp(t)
    case Down => CursorDown(t, cols)
    case Right => CursorRight(t, cols)
    case Left => CursorLeft(t, cols)
    case Home => CursorHome(t)
    case EraseDisplay => ClearDisplayEnd(t, cols)
    case EraseLine => ClearLineEnd(t, cols)
    case EraseCharacters(n) => EraseChars(t, Number(n), cols)
    case Position(line, column) => CursorMove(t, Number(line), Number(column), cols)
    case Region(first, last) => SetScrollRegion(t, Number(first), Number(last))
    case Pen(n) => SetStandoutMode(t, Number(n))
    case ShowCursor(on) => t.(cursorOn := on)
  }

  lemma {:induction false} ValueGrows(p: nat, ds: seq<Digit>)
    ensures Value(p, ds) >= p
    decreases |ds|
  {
    if ds != [] {
      ValueGrows(10 * p + ds[0], ds[1..]);
    }
  }

  lemma RunOne(t: Text, b: Byte, rest: seq<Byte>, rows: nat, cols: nat)
    requires Good(t, rows, cols)
    ensures Good(Step(t, b, rows, cols), rows, cols)
    ensures Run(t, [b] + rest, rows, cols) == Run(Step(t, b, rows, cols), rest, rows, cols)
    ensures Run(t, [b], rows, cols) == Step(t, b, rows, cols)
  {
    StepKeepsGood(t, b, rows, cols);
    assert ([b] + rest)[1..] == rest;
    assert [b][1..] == [];
  }

  // ---------- reading numbers ----------

  /** The state in which the next byte goes on with a number of the given kind. */
  function Reading(m: Mode, n: nat): Mode
    requires m.Number1? || m.Number2? || m.Number3?
  {
    match m
    case Number1(_) => Number1(n)
    case Number2(p, _) => Number2(p, n)
    case Number3(_) => Number3(n)
  }

  function ReadSoFar(m: Mode): nat
    requires m.Number1? || m.Number2? || m.Number3?
  {
    match m
    case Number1(p) => p
    case Number2(_, q) => q
    case Number3(p) => p
  }

  function Most(m: Mode): nat {
    if m.Number2? then 199 else 99
  }

  /** One digit behind the number read so far, with what follows it. */
  lemma DigitStep(t: Text, m: Mode, d: Digit, rest: seq<Byte>, rows: nat, cols: nat) returns (next: Mode)
    requires Good(t, rows, cols) && Modest(m) && (m.Number1? || m.Number2? || m.Number3?)
    ensures var n := 10 * ReadSoFar(m) + d;
      next == (if n > Most(m) then Start else Reading(m, n))
    ensures Modest(next)
    ensures Run(t.(mode := m), ['0' as int + d] + rest, rows, cols) == Run(t.(mode := next), rest, rows, cols)
  {
    var n := 10 * ReadSoFar(m) + d;
    next := if n > Most(m) then Start else Reading(m, n);
    RunOne(t.(mode := m), '0' as int + d, rest, rows, cols);
  }

  /** However many digits a number has, they are read as its value while that stays in range. */
  lemma {:induction false} ReadDigits(t: Text, m: Mode, ds: seq<Digit>, rest: seq<Byte>, rows: nat, cols: nat)
    requires Good(t, rows, cols) && Modest(m) && (m.Number1? || m.Number2? || m.Number3?)
    requires Value(ReadSoFar(m), ds) <= Most(m)
    ensures var next := Reading(m, Value(ReadSoFar(m), ds));
      Modest(next) && Run(t.(mode := m), DigitBytes(ds) + rest, rows, cols) == Run(t.(mode := next), rest, rows, cols)
    decreases |ds|
  {
    if ds == [] {
      assert DigitBytes(ds) + rest == rest;
    } else {
      ValueGrows(10 * ReadSoFar(m) + ds[0], ds[1..]);
      var next := DigitStep(t, m, ds[0], DigitBytes(ds[1..]) + rest, rows, cols);
      assert DigitBytes(ds) + rest == ['0' as int + ds[0]] + (DigitBytes(ds[1..]) + rest);
      ReadDigits(t, next, ds[1..], rest, rows, cols);
    }
  }

  /** How many of the digits `ds` it takes to go out of range. */
  function Overflow(p: nat, max: nat, ds: seq<Digit>): (k: nat)
    requires Value(p, ds) > max
    ensures k <= |ds|
    decreases |ds|
  {
    if p > max || ds == [] then 0 else 1 + Overflow(10 * p + ds[0], max, ds[1..])
  }

  /** All of these digits but the last leave the number in range. */
  lemma {:induction false} OverflowSplit(p: nat, max: nat, ds: seq<Digit>)
    requires p <= max < Value(p, ds)
    ensures var k := Overflow(p, max, ds);
      0 < k && Value(p, ds[..k - 1]) <= max < 10 * Value(p, ds[..k - 1]) + ds[k - 1]
    decreases |ds|
  {
    var n, more, k := 10 * p + ds[0], ds[1..], Overflow(p, max, ds);
    if n <= max {
      OverflowSplit(n, max, more);
      assert ds[..k - 1][1..] == more[..k - 2];
    } else {
      assert ds[..0] == [];
    }
  }

  /** A number that goes out of range ends the sequence on the spot: the bytes that follow, among them
      its other digits, are ordinary text. */
  lemma RestIsText(t: Text, m: Mode, ds: seq<Digit>, rest: seq<Byte>, rows: nat, cols: nat)
    requires Good(t, rows, cols) && Modest(m) && (m.Number1? || m.Number2? || m.Number3?)
    requires Value(ReadSoFar(m), ds) > Most(m)
    ensures var k := Overflow(ReadSoFar(m), Most(m), ds);
      Run(t.(mode := m), DigitBytes(ds) + rest, rows, cols) == Run(t.(mode := Start), DigitBytes(ds[k..]) + rest, rows, cols)
  {
    OverflowSplit(ReadSoFar(m), Most(m), ds);
    var k := Overflow(ReadSoFar(m), Most(m), ds);
    DigitsSplit(ds, k - 1, rest);
    ReadDigits(t, m, ds[..k - 1], ['0' as int + ds[k - 1]] + (DigitBytes(ds[k..]) + rest), rows, cols);
    var next := DigitStep(t, Reading(m, Value(ReadSoFar(m), ds[..k - 1])), ds[k - 1], DigitBytes(ds[k..]) + rest, rows, cols);
  }

  lemma DigitsSplit(ds: seq<Digit>, k: nat, rest: seq<Byte>)
    requires k < |ds|
    ensures DigitBytes(ds) + rest == DigitBytes(ds[..k]) + (['0' as int + ds[k]] + (DigitBytes(ds[k + 1..]) + rest))
  {
  }

  lemma FirstOfMany(ds: seq<Digit>, rest: seq<Byte>)
    requires ds != []
    ensures DigitBytes(ds) + rest == ['0' as int + ds[0]] + (DigitBytes(ds[1..]) + rest)
  {
  }

  /** A number in range, read from its first digit on. */
  lemma ReadNumber(t: Text, from: Mode, m: Mode, ds: seq<Digit>, rest: seq<Byte>, rows: nat, cols: nat)
    requires Good(t, rows, cols) && Modest(from) && Modest(m) && (m.Number1? || m.Number2? || m.Number3?)
    requires Numeral(ds, Most(m))
    requires Step(t.(mode := from), '0' as int + ds[0], rows, cols) == t.(mode := Reading(m, ds[0]))
    ensures Modest(Reading(m, Number(ds)))
    ensures Run(t.(mode := from), DigitBytes(ds) + rest, rows, cols) == Run(t.(mode := Reading(m, Number(ds))), rest, rows, cols)
  {
    RunOne(t.(mode := from), '0' as int + ds[0], DigitBytes(ds[1..]) + rest, rows, cols);
    assert DigitBytes(ds) + rest == ['0' as int + ds[0]] + (DigitBytes(ds[1..]) + rest);
    ReadDigits(t, Reading(m, ds[0]), ds[1..], rest, rows, cols);
  }

  // ---------- commands ----------

  lemma Introduce(t: Text, rest: seq<Byte>, rows: nat, cols: nat)
    requires Good(t, rows, cols) && t.mode == Start
    ensures Run(t, CSI + rest, rows, cols) == Run(t.(mode := Bracket), rest, rows, cols)
  {
    assert CSI + rest == [ESC] + (['[' as int] + rest);
    RunOne(t, ESC, ['[' as int] + rest, rows, cols);
    RunOne(t.(mode := Escape), '[' as int, rest, rows, cols);
  }

  lemma SimpleCommand(t: Text, c: Command, final: Byte, rows: nat, cols: nat)
    requires Good(t, rows, cols) && t.mode == Start
    requires Encode(c) == CSI + [final]
    requires InBracket(t.(mode := Bracket), final, rows, cols) == Do(t, c, rows, cols)
    ensures Run(t, Encode(c), rows, cols) == Do(t, c, rows, cols)
  {
    Introduce(t, [final], rows, cols);
    RunOne(t.(mode := Bracket), final, [], rows, cols);
  }

  /** A command with one number. */
  lemma NumberedCommand(t: Text, ds: seq<Digit>, final: Byte, rows: nat, cols: nat)
    requires Good(t, rows, cols) && t.mode == Start && Numeral(ds, 99)
    ensures Run(t, CSI + (DigitBytes(ds) + [final]), rows, cols)
      == InNumber1(t.(mode := Number1(Number(ds))), Number(ds), final, rows, cols)
  {
    Introduce(t, DigitBytes(ds) + [final], rows, cols);
    ReadNumber(t, Bracket, Number1(0), ds, [final], rows, cols);
    RunOne(t.(mode := Number1(Number(ds))), final, [], rows, cols);
  }

  /** A command with two numbers. */
  lemma PairCommand(t: Text, ds: seq<Digit>, es: seq<Digit>, final: Byte, rows: nat, cols: nat)
    requires Good(t, rows, cols) && t.mode == Start && Numeral(ds, 99) && Numeral(es, 199)
    ensures Run(t, CSI + (DigitBytes(ds) + ([';' as int] + (DigitBytes(es) + [final]))), rows, cols)
      == InNumber2(t.(mode := Number2(Number(ds), Number(es))), Number(ds), Number(es), final, cols)
  {
    var p, q := Number(ds), Number(es);
    var rest := DigitBytes(es) + [final];
    Introduce(t, DigitBytes(ds) + ([';' as int] + rest), rows, cols);
    ReadNumber(t, Bracket, Number1(0), ds, [';' as int] + rest, rows, cols);
    RunOne(t.(mode := Number1(p)), ';' as int, rest, rows, cols);
    ReadNumber(t, Semicolon(p), Number2(p, 0), es, [final], rows, cols);
    RunOne(t.(mode := Number2(p, q)), final, [], rows, cols);
  }

  lemma CursorCommand(t: Text, on: bool, rows: nat, cols: nat)
    requires Good(t, rows, cols) && t.mode == Start
    ensures Run(t, Encode(ShowCursor(on)), rows, cols) == t.(cursorOn := on)
  {
    var final: Byte := if on then 'h' as int else 'l' as int;
    var rest: seq<Byte> := DigitBytes([2, 5]) + [final];
    assert ['?' as int] + rest == ['?' as int, '2' as int, '5' as int, final];
    Introduce(t, ['?' as int] + rest, rows, cols);
    RunOne(t.(mode := Bracket), '?' as int, rest, rows, cols);
    TwentyFive();
    ReadNumber(t, QuestionMark, Number3(0), [2, 5], [final], rows, cols);
    CursorSwitch(t, on, final, rows, cols);
  }

  lemma TwentyFive()
    ensures Number([2, 5]) == 25
  {
    assert [2, 5][1..] == [5] && [5][1..] == [];
    assert Value(2, [5]) == Value(25, []);
  }

  lemma CursorSwitch(t: Text, on: bool, final: Byte, rows: nat, cols: nat)
    requires Good(t, rows, cols) && t.mode == Start
    requires final == if on then 'h' as int else 'l' as int
    ensures Run(t.(mode := Number3(25)), [final], rows, cols) == t.(cursorOn := on)
  {
    RunOne(t.(mode := Number3(25)), final, [], rows, cols);
  }

  lemma EndsInStart(t: Text, c: Command, rows: nat, cols: nat)
    requires Good(t, rows, cols) && t.mode == Start
    ensures Do(t, c, rows, cols).mode == Start
  {
  }

  /** Every command, however its numbers are spelt, does what it means and leaves the automaton ready
      for the next. */
  lemma CommandActs(t: Text, c: Command, rows: nat, cols: nat)
    requires Good(t, rows, cols) && t.mode == Start && WellFormed(c)
    ensures Run(t, Encode(c), rows, cols) == Do(t, c, rows, cols)
    ensures Do(t, c, rows, cols).mode == Start
  {
    EndsInStart(t, c, rows, cols);
    match c
    case Print(ch) => RunOne(t, ch, [], rows, cols);
    case Up => SimpleCommand(t, c, 'A' as int, rows, cols);
    case Down => SimpleCommand(t, c, 'B' as int, rows, cols);
    case Right => SimpleCommand(t, c, 'C' as int, rows, cols);
    case Left => SimpleCommand(t, c, 'D' as int, rows, cols);
    case Home => SimpleCommand(t, c, 'H' as int, rows, cols);
    case EraseDisplay => SimpleCommand(t, c, 'J' as int, rows, cols);
    case EraseLine => SimpleCommand(t, c, 'K' as int, rows, cols);
    case EraseCharacters(n) => NumberedCommand(t, n, 'X' as int, rows, cols);
    case Pen(n) => NumberedCommand(t, n, 'm' as int, rows, cols);
    case Position(line, column) => PairCommand(t, line, column, 'H' as int, rows, cols);
    case Region(first, last) => PairCommand(t, first, last, 'r' as int, rows, cols);
    case ShowCursor(on) => CursorCommand(t, on, rows, cols);
  }

  function EncodeAll(cs: seq<Command>): seq<Byte>
    decreases |cs|
  {
    if cs == [] then [] else Encode(cs[0]) + EncodeAll(cs[1..])
  }

  ghost predicate DoesAll(t: Text, cs: seq<Command>, u: Text, rows: nat, cols: nat)
    decreases |cs|
  {
    if cs == [] then u == t
    else Good(t, rows, cols) && DoesAll(Do(t, cs[0], rows, cols), cs[1..], u, rows, cols)
  }

  /** A stream of commands is understood command by command: no sequence is cut short or runs into the
      next. */
  lemma {:induction false} CommandStream(t: Text, cs: seq<Command>, rows: nat, cols: nat)
    requires Good(t, rows, cols) && t.mode == Start && forall i :: 0 <= i < |cs| ==> WellFormed(cs[i])
    ensures DoesAll(t, cs, Run(t, EncodeAll(cs), rows, cols), rows, cols)
    decreases |cs|
  {
    if cs != [] {
      CommandActs(t, cs[0], rows, cols);
      RunAppend(t, Encode(cs[0]), EncodeAll(cs[1..]), rows, cols);
      CommandStream(Run(t, Encode(cs[0]), rows, cols), cs[1..], rows, cols);
    }
  }

  /** A sequence with a first number above 99 is not obeyed, whatever comes behind it, a semicolon or a
      final byte: what follows the digit that takes it out of range is shown instead. */
  lemma OutOfRangeIsShown(t: Text, ds: seq<Digit>, rest: seq<Byte>, rows: nat, cols: nat)
    requires Good(t, rows, cols) && t.mode == Start && ds != [] && Number(ds) > 99
    ensures Run(t, CSI + (DigitBytes(ds) + rest), rows, cols)
      == Run(t, DigitBytes(ds[1 + Overflow(ds[0], 99, ds[1..])..]) + rest, rows, cols)
  {
    Introduce(t, DigitBytes(ds) + rest, rows, cols);
    NumberIsShown(t, Bracket, Number1(0), ds, rest, rows, cols);
  }

  /** So is what follows a second number above 199. */
  lemma SecondOutOfRangeIsShown(t: Text, ds: seq<Digit>, es: seq<Digit>, rest: seq<Byte>, rows: nat, cols: nat)
    requires Good(t, rows, cols) && t.mode == Start && Numeral(ds, 99) && es != [] && Number(es) > 199
    ensures Run(t, CSI + (DigitBytes(ds) + ([';' as int] + (DigitBytes(es) + rest))), rows, cols)
      == Run(t, DigitBytes(es[1 + Overflow(es[0], 199, es[1..])..]) + rest, rows, cols)
  {
    var p := Number(ds);
    var second := DigitBytes(es) + rest;
    Introduce(t, DigitBytes(ds) + ([';' as int] + second), rows, cols);
    ReadNumber(t, Bracket, Number1(0), ds, [';' as int] + second, rows, cols);
    RunOne(t.(mode := Number1(p)), ';' as int, second, rows, cols);
    NumberIsShown(t, Semicolon(p), Number2(p, 0), es, rest, rows, cols);
  }

  /** And what follows a number above 99 behind a question mark. */
  lemma PrivateOutOfRangeIsShown(t: Text, ds: seq<Digit>, rest: seq<Byte>, rows: nat, cols: nat)
    requires Good(t, rows, cols) && t.mode == Start && ds != [] && Number(ds) > 99
    ensures Run(t, CSI + (['?' as int] + (DigitBytes(ds) + rest)), rows, cols)
      == Run(t, DigitBytes(ds[1 + Overflow(ds[0], 99, ds[1..])..]) + rest, rows, cols)
  {
    Introduce(t, ['?' as int] + (DigitBytes(ds) + rest), rows, cols);
    RunOne(t.(mode := Bracket), '?' as int, DigitBytes(ds) + rest, rows, cols);
    NumberIsShown(t, QuestionMark, Number3(0), ds, rest, rows, cols);
  }

  lemma NumberIsShown(t: Text, from: Mode, m: Mode, ds: seq<Digit>, rest: seq<Byte>, rows: nat, cols: nat)
    requires Good(t, rows, cols) && t.mode == Start && Modest(from) && (m.Number1? || m.Number2? || m.Number3?)
    requires ds != [] && Number(ds) > Most(m) && Modest(Reading(m, ds[0]))
    requires Step(t.(mode := from), '0' as int + ds[0], rows, cols) == t.(mode := Reading(m, ds[0]))
    ensures Run(t.(mode := from), DigitBytes(ds) + rest, rows, cols)
      == Run(t, DigitBytes(ds[1 + Overflow(ds[0], Most(m), ds[1..])..]) + rest, rows, cols)
  {
    FirstOfMany(ds, rest);
    RunOne(t.(mode := from), '0' as int + ds[0], DigitBytes(ds[1..]) + rest, rows, cols);
    RestIsText(t, Reading(m, ds[0]), ds[1..], rest, rows, cols);
    var k := Overflow(ds[0], Most(m), ds[1..]);
    assert ds[1..][k..] == ds[1 + k..];
    assert t.(mode := Start) == t;
  }
}
