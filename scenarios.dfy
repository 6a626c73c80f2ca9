// Concrete scenarios of the travel map, stated on the specification that
// `GetMap` and `GetMapWithSumDigitsLimit` are proved to meet.

module Scenarios {
  import opened Cells
  import opened Digits
  import opened Reachability
  import opened Travel

  const Origin := Cell(0, 0)

  /** The origin's four neighbours. */
  lemma AdjacentCellsOfOrigin()
    ensures AdjacentCells(Origin) == {Cell(-1, 0), Cell(1, 0), Cell(0, -1), Cell(0, 1)}
  {
  }

  /** Digit sums of 0, 123 and -123. */
  lemma DigitSumExamples()
    ensures DigitSum(Abs(0)) == 0
    ensures DigitSum(Abs(123)) == 6
    ensures DigitSum(Abs(-123)) == 6
  {
  }

  /** Admits the 3 x 3 block of cells around the origin. */
  function InBlock(c: Cell): bool
  {
    Abs(c.x) <= 1 && Abs(c.y) <= 1
  }

  const Block: set<Cell> := {
    Cell(-1, -1), Cell(-1, 0), Cell(-1, 1),
    Cell(0, -1), Cell(0, 0), Cell(0, 1),
    Cell(1, -1), Cell(1, 0), Cell(1, 1)
  }

  /** From the origin, with only the 3 x 3 block admitted, the ant reaches
      exactly the nine cells of the block, the origin included. */
  lemma BlockFromOrigin()
    ensures forall c :: Reachable(Origin, InBlock, c) <==> c in Block
  {
    forall c
      ensures Reachable(Origin, InBlock, c) <==> c in Block
    {
      if Reachable(Origin, InBlock, c) {
        ReachableIsAdmitted(Origin, InBlock, c);
        InBlockIsBlock(c);
      }
      if c in Block {
        BlockReachable();
      }
    }
  }

  lemma InBlockIsBlock(c: Cell)
    requires InBlock(c)
    ensures c in Block
  {
  }

  /** Each cell of the block ends a walk of one or two moves inside it. */
  lemma BlockReachable()
    ensures forall c :: c in Block ==> Reachable(Origin, InBlock, c)
  {
    var p := InBlock;
    OneStep(Origin, p, Cell(-1, 0));
    OneStep(Origin, p, Cell(0, -1));
    OneStep(Origin, p, Cell(0, 1));
    OneStep(Origin, p, Cell(1, 0));
    TwoSteps(Origin, p, Cell(1, 0), Cell(0, 0));
    TwoSteps(Origin, p, Cell(-1, 0), Cell(-1, -1));
    TwoSteps(Origin, p, Cell(-1, 0), Cell(-1, 1));
    TwoSteps(Origin, p, Cell(1, 0), Cell(1, -1));
    TwoSteps(Origin, p, Cell(1, 0), Cell(1, 1));
  }

  /** A predicate that admits nothing gives an empty map: the start cell is
      not put on the map for being the start. */
  lemma NothingAdmitted(start: Cell, p: Cell -> bool, c: Cell)
    requires forall n :: !p(n)
    ensures !Reachable(start, p, c)
  {
  }

  const Cross: set<Cell> := {Cell(-1, 0), Cell(0, -1), Cell(0, 0), Cell(0, 1), Cell(1, 0)}

  /** From the origin with digit-sum limit 1 the ant reaches the origin's
      four neighbours and, through any of them, the origin itself. */
  lemma LimitOneFromOrigin()
    ensures forall c :: Reachable(Origin, AvailabilityCheck(1), c) <==> c in Cross
  {
    var p := AvailabilityCheck(1);
    forall n | Adjacent(Origin, n) && p(n)
      ensures n in Cross
    {
      CrossClosed(Origin, n);
    }
    forall m, n | m in Cross && Adjacent(m, n) && p(n)
      ensures n in Cross
    {
      CrossClosed(m, n);
    }
    forall c
      ensures Reachable(Origin, AvailabilityCheck(1), c) <==> c in Cross
    {
      if Reachable(Origin, p, c) {
        ClosedHoldsReachable(Origin, p, Cross, c);
      }
      if c in Cross {
        CrossReachable();
      }
    }
  }

  /** Digit-sum limit 1 admits no cell one move outside the cross. */
  lemma CrossClosed(m: Cell, n: Cell)
    requires m in Cross && Adjacent(m, n) && CellAvailable(1, n)
    ensures n in Cross
  {
  }

  /** Each cell of the cross ends a walk of one or two moves inside it. */
  lemma CrossReachable()
    ensures forall c :: c in Cross ==> Reachable(Origin, AvailabilityCheck(1), c)
  {
    var p := AvailabilityCheck(1);
    assert DigitSum(0) == 0 && DigitSum(1) == 1;
    OneStep(Origin, p, Cell(-1, 0));
    OneStep(Origin, p, Cell(0, -1));
    OneStep(Origin, p, Cell(0, 1));
    OneStep(Origin, p, Cell(1, 0));
    TwoSteps(Origin, p, Cell(1, 0), Cell(0, 0));
  }

  lemma SameCells(a: set<Cell>, b: set<Cell>)
    requires forall c :: c in a <==> c in b
    ensures a == b
  {
  }

  /** `test_base` of `GetMap`, stated as a call of `GetMap`: the 3 x 3 block. */
  method BlockMap() returns (m: set<Cell>)
    ensures m == Block
  {
    BlockFromOrigin();
    ghost var probes;
    m, probes := GetMap(Origin, InBlock, Block);
    SameCells(m, Block);
  }

  /** A predicate that admits nothing gives the empty map, from any start. */
  method EmptyMap(start: Cell) returns (m: set<Cell>)
    ensures m == {}
  {
    var nothing: Cell -> bool := c => false;
    forall c
      ensures !Reachable(start, nothing, c)
    {
      NothingAdmitted(start, nothing, c);
    }
    ghost var probes;
    m, probes := GetMap(start, nothing, {});
  }

  /** `test_base` of the digit-sum variant, stated as a call of
      `GetMapWithSumDigitsLimit`. */
  method LimitOneMap() returns (r: Result<set<Cell>, LimitError>)
    ensures r == Success(Cross)
  {
    LimitOneFromOrigin();
    r := GetMapWithSumDigitsLimit(Origin, 1);
    SameCells(r.value, Cross);
  }

  /** `test_fail`: a negative limit fails and reports the limit. */
  method NegativeLimitFails() returns (r: Result<set<Cell>, LimitError>)
    ensures r == Failure(NonPositiveLimit(-1))
  {
    r := GetMapWithSumDigitsLimit(Origin, -1);
  }
}
