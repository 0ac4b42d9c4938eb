/** One square of the minefield: class Cell of minesweeper.rb. */
module Cells {

  /** What a cell holds: EMPTY, a decimal count of neighbouring bombs, or BOMB. */
  datatype Content = Empty | Number(n: nat) | Bomb

  /** The player's marking of a cell: NO_MARK, FLAG or QUESTION. */
  datatype Marking = NoMark | FlagMark | QuestionMark

  /** The three fields of a cell at one moment. */
  datatype CellState = CellState(content: Content, exposed: bool, marking: Marking)

  const HIDDEN: string := "."
  const EMPTY: string := " "
  const BOMB: string := "*"
  const NO_MARK: string := ""
  const FLAG: string := "!"
  const QUESTION: string := "?"

  /** The value of one decimal digit. */
  function DigitValue(c: char): int
  {
    c as int - '0' as int
  }

  /** String#to_i on a string of decimal digits. */
  function DigitsValue(s: string): int
  {
    if |s| == 0 then 0 else DigitsValue(s[..|s| - 1]) * 10 + DigitValue(s[|s| - 1])
  }

  /** The decimal digits of `n`, as Integer#to_s writes them: no leading zero, and reading
      them back gives `n`. */
  function Decimal(n: nat): (r: string)
    ensures |r| >= 1
    ensures forall i | 0 <= i < |r| :: '0' <= r[i] <= '9'
    ensures n >= 10 ==> r[0] != '0'
    ensures DigitsValue(r) == n
  {
    if n < 10 then [('0' as int + n) as char]
    else
      var r := Decimal(n / 10) + [('0' as int + n % 10) as char];
      assert r[..|r| - 1] == Decimal(n / 10);
      r
  }

  /** The symbol the cell stores for its content. */
  function Symbol(c: Content): string
  {
    match c
    case Empty => EMPTY
    case Number(n) => Decimal(n)
    case Bomb => BOMB
  }

  /** The symbol of a marking. */
  function MarkingSymbol(m: Marking): string
  {
    match m
    case NoMark => NO_MARK
    case FlagMark => FLAG
    case QuestionMark => QUESTION
  }

  /** String#to_i applied to the stored symbol: " " and "*" read as 0. */
  function ToI(c: Content): nat
  {
    if c.Number? then c.n else 0
  }

  // The four transitions of a cell, as values; the methods of class Cell are specified by them.

  /** Cell#mark: the marking changes only while the cell is hidden. */
  function AfterMark(s: CellState, m: Marking): CellState
  {
    if s.exposed then s else s.(marking := m)
  }

  /** Cell#expose: unmark (which is a no-op on an exposed cell), then set exposed. */
  function AfterExpose(s: CellState): CellState
  {
    AfterMark(s, NoMark).(exposed := true)
  }

  /** Cell#place_bomb. */
  function AfterPlaceBomb(s: CellState): CellState
  {
    s.(content := Bomb)
  }

  /** Cell#increment: `(@symbol.to_i + 1).to_s` unless the cell is a bomb. */
  function AfterIncrement(s: CellState): CellState
  {
    if s.content == Bomb then s else s.(content := Number(ToI(s.content) + 1))
  }

  class Cell {
    var content: Content
    var exposed: bool
    var marking: Marking

    /** Cell.new: an EMPTY, hidden, unmarked cell. */
    constructor ()
      ensures State() == CellState(Empty, false, NoMark)
    {
      content, exposed, marking := Empty, false, NoMark;
    }

    /** The cell's fields as a value. */
    function State(): CellState
      reads this
    {
      CellState(content, exposed, marking)
    }

    predicate IsExposed() reads this { exposed }
    predicate Hidden() reads this { !IsExposed() }
    predicate IsEmpty() reads this { content == Empty }
    predicate IsBomb() reads this { content == Bomb }
    predicate IsNumber() reads this { !IsEmpty() && !IsBomb() }
    predicate Marked() reads this { marking != NoMark }
    predicate HasMarking(m: Marking) reads this { marking == m }
    predicate Flagged() reads this { HasMarking(FlagMark) }
    predicate Questioned() reads this { HasMarking(QuestionMark) }

    /** Cell#empty?, Cell#bomb? and Cell#number? read the stored symbol: EMPTY, BOMB, or the
        digits of a count. */
    lemma SymbolQueries()
      ensures IsEmpty() <==> Symbol(content) == EMPTY
      ensures IsBomb() <==> Symbol(content) == BOMB
      ensures IsNumber() <==> content.Number?
    {
    }

    /** Cell#exposed? and Cell#hidden? can be read off what the player sees: a cell is
        hidden exactly when it shows ".", "!" or "?". */
    lemma ExposureShows()
      ensures Hidden() <==> Display() in {HIDDEN, FLAG, QUESTION}
      ensures IsExposed() <==> Display() !in {HIDDEN, FLAG, QUESTION}
    {
    }

    /** Cell#marked?, Cell#flagged? and Cell#question? on a hidden cell can be read off what
        the player sees: a marking, FLAG or QUESTION. */
    lemma MarkingShows()
      ensures Hidden() ==> (Marked() <==> Display() in {FLAG, QUESTION})
      ensures Hidden() ==> (Flagged() <==> Display() == FLAG)
      ensures Hidden() ==> (Questioned() <==> Display() == QUESTION)
    {
    }

    method Expose()
      modifies this
      ensures State() == AfterExpose(old(State()))
      ensures exposed && marking == (if old(exposed) then old(marking) else NoMark)
    {
      Unmark();
      exposed := true;
    }

    method Mark(m: Marking)
      modifies this
      ensures State() == AfterMark(old(State()), m)
    {
      if Hidden() {
        marking := m;
      }
    }

    method Flag()
      modifies this
      ensures State() == AfterMark(old(State()), FlagMark)
    {
      Mark(FlagMark);
    }

    method Question()
      modifies this
      ensures State() == AfterMark(old(State()), QuestionMark)
    {
      Mark(QuestionMark);
    }

    method Unmark()
      modifies this
      ensures State() == AfterMark(old(State()), NoMark)
    {
      Mark(NoMark);
    }

    method PlaceBomb()
      modifies this
      ensures State() == AfterPlaceBomb(old(State()))
    {
      content := Bomb;
    }

    method Increment()
      modifies this
      ensures State() == AfterIncrement(old(State()))
      ensures old(content) != Bomb ==> content == Number(ToI(old(content)) + 1)
    {
      if !IsBomb() {
        content := Number(ToI(content) + 1);
      }
    }

    /** Cell#display: the symbol if exposed, else the marking if marked, else HIDDEN.
        What is shown tells exactly whether the cell is exposed, and a hidden cell
        shows nothing of its content. */
    function Display(): (r: string)
      reads this
      ensures exposed <==> r !in {HIDDEN, FLAG, QUESTION}
      ensures exposed ==> r == Symbol(content)
      ensures !exposed ==> r == (if marking == NoMark then HIDDEN else MarkingSymbol(marking))
    {
      if exposed then Symbol(content)
      else if marking != NoMark then MarkingSymbol(marking)
      else HIDDEN
    }
  }
}
