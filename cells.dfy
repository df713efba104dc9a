/** Cell states and the Game of Life transition rule. */
module Cells {

  /** One cell of the universe; the source stores it as a `u8` discriminant (Dead = 0, Alive = 1). */
  datatype Cell = Dead | Alive

  /** The discriminant of a cell, as read by `cell as u8` when neighbours are counted. */
  function Value(c: Cell): (v: nat)
    ensures v <= 1
    ensures v == 1 <==> c == Alive
  {
    if c == Alive then 1 else 0
  }

  /**
   * The next state of a cell in state `c` that has `n` live neighbours:
   * an Alive cell dies below two or above three neighbours and survives
   * otherwise; a Dead cell is born with exactly three and is otherwise unchanged.
   */
  function Rule(c: Cell, n: nat): (r: Cell)
    // B3/S23: alive next exactly when born with three neighbours or surviving with two or three
    ensures r == Alive <==> n == 3 || (c == Alive && n == 2)
    // a cell changes state only by under- or overpopulation (Alive) or by birth (Dead)
    ensures r != c <==> (c == Alive && (n < 2 || n > 3)) || (c == Dead && n == 3)
  {
    match c
    case Alive => if n < 2 then Dead else if n == 2 || n == 3 then Alive else Dead
    case Dead => if n == 3 then Alive else c
  }

  /** The arm of the rule that applies to a pair (state, neighbour count). */
  datatype Arm = Underpopulation | Survival | Overpopulation | Birth | Unchanged

  /** The first arm whose guard holds, in the order the rule tries them. */
  function ArmOf(c: Cell, n: nat): Arm
  {
    if c == Alive && n < 2 then Underpopulation
    else if c == Alive && (n == 2 || n == 3) then Survival
    else if c == Alive && n > 3 then Overpopulation
    else if c == Dead && n == 3 then Birth
    else Unchanged
  }

  /** The guard of an arm, read on its own. */
  predicate Guard(a: Arm, c: Cell, n: nat)
  {
    match a
    case Underpopulation => c == Alive && n < 2
    case Survival => c == Alive && (n == 2 || n == 3)
    case Overpopulation => c == Alive && n > 3
    case Birth => c == Dead && n == 3
    case Unchanged => c == Dead && n != 3
  }

  /**
   * The rule table is a partition: every (state, count) pair satisfies the
   * guard of exactly one arm, and the rule returns that arm's outcome.
   */
  lemma RuleTable(c: Cell, n: nat)
    ensures Guard(ArmOf(c, n), c, n)
    ensures forall a: Arm :: Guard(a, c, n) ==> a == ArmOf(c, n)
    ensures Rule(c, n) == match ArmOf(c, n)
                         case Underpopulation => Dead
                         case Survival => Alive
                         case Overpopulation => Dead
                         case Birth => Alive
                         case Unchanged => c
  {
  }
}
