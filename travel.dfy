// The ant's travel map: round-based frontier expansion from a start cell
// (`get_map`) and its digit-sum-limited variant
// (`get_map_with_sum_digits_limit`).

module Travel {
  import opened Cells
  import opened Digits
  import opened Reachability

  datatype Result<T, E> = Success(value: T) | Failure(error: E)

  /** The one configuration error: a digit-sum limit that is not positive. */
  datatype LimitError = NonPositiveLimit(limit: int)

  /** `c` joins the next frontier: it is admitted, not yet on the map, and
      adjacent to a cell of the current frontier `cells`. */
  ghost predicate InNextFrontier(travelMap: set<Cell>, cells: set<Cell>, p: Cell -> bool, c: Cell)
  {
    c !in travelMap && p(c) && exists l :: l in cells && c in AdjacentCells(l)
  }

  /** `probes` counts the predicate calls made while building `admitted`:
      the admitted cells are exactly the probed cells `p` accepts, and each
      of them was probed once (only rejected cells may be probed again). */
  ghost predicate ProbeLog(admitted: set<Cell>, probes: multiset<Cell>, p: Cell -> bool)
  {
    forall c :: (c in admitted <==> probes[c] > 0 && p(c)) && (p(c) ==> probes[c] <= 1)
  }

  /** Logs of two stretches of work join when the second never probed a
      cell admitted by the first. */
  lemma ProbeLogJoin(admitted1: set<Cell>, probes1: multiset<Cell>, admitted2: set<Cell>, probes2: multiset<Cell>, p: Cell -> bool)
    requires ProbeLog(admitted1, probes1, p) && ProbeLog(admitted2, probes2, p)
    requires forall c :: probes2[c] > 0 ==> c !in admitted1
    ensures ProbeLog(admitted1 + admitted2, probes1 + probes2, p)
  {
  }

  /** The inner loop of a round (`for adjacent_cell in ...`) over the
      `neighbours` of one frontier cell: `p` is asked about each of them that
      is not yet on the map (`probed`), and those it admits are added to the
      map and to `added`. */
  method AdmitNeighbours(neighbours: set<Cell>, travelMap0: set<Cell>, p: Cell -> bool)
    returns (travelMap: set<Cell>, added: set<Cell>, ghost probed: set<Cell>)
    ensures forall c :: c in probed <==> c !in travelMap0 && c in neighbours
    ensures forall c :: c in added <==> c in probed && p(c)
    ensures travelMap == travelMap0 + added
  {
    travelMap, added, probed := travelMap0, {}, {};
    var around := neighbours;
    while around != {}
      invariant around <= neighbours
      invariant forall c :: c in probed <==> c !in travelMap0 && c in neighbours - around
      invariant forall c :: c in added <==> c in probed && p(c)
      invariant travelMap == travelMap0 + added
      decreases |around|
    {
      var n :| n in around;
      around := around - {n};
      if n !in travelMap {
        probed := probed + {n};
        if p(n) {
          travelMap := travelMap + {n};
          added := added + {n};
        }
      }
    }
  }

  /** What expanding one frontier cell does to the round's frontier and log. */
  lemma CellExpanded(travelMap0: set<Cell>, done: set<Cell>, cell: Cell, p: Cell -> bool,
                     frontier: set<Cell>, probes: multiset<Cell>, added: set<Cell>, probed: set<Cell>)
    requires forall c :: c in frontier <==> InNextFrontier(travelMap0, done, p, c)
    requires forall c :: probes[c] > 0 ==> c !in travelMap0
    requires ProbeLog(frontier, probes, p)
    requires forall c :: c in probed <==> c !in travelMap0 + frontier && c in AdjacentCells(cell)
    requires forall c :: c in added <==> c in probed && p(c)
    ensures forall c :: c in frontier + added <==> InNextFrontier(travelMap0, done + {cell}, p, c)
    ensures forall c :: (probes + multiset(probed))[c] > 0 ==> c !in travelMap0
    ensures ProbeLog(frontier + added, probes + multiset(probed), p)
  {
  }

  /** Set bookkeeping of one pass of the round's outer loop. */
  lemma DrainStep(lastCells: set<Cell>, done: set<Cell>, todo: set<Cell>, cell: Cell,
                  travelMap0: set<Cell>, frontier: set<Cell>, added: set<Cell>)
    requires done <= lastCells && todo == lastCells - done && cell in todo
    ensures done + {cell} <= lastCells && todo - {cell} == lastCells - (done + {cell})
    ensures |todo - {cell}| < |todo|
    ensures (travelMap0 + frontier) + added == travelMap0 + (frontier + added)
  {
  }

  lemma DrainDone(lastCells: set<Cell>, done: set<Cell>, todo: set<Cell>)
    requires done <= lastCells && todo == lastCells - done && todo == {}
    ensures done == lastCells
  {
    forall x | x in lastCells
      ensures x in done
    {
      assert x !in todo;
    }
  }

  /** One round of `get_map`: every neighbour of a cell of `lastCells` that
      is not yet on the map and that `p` admits joins both the map and the
      next frontier. `probes` counts the cells `p` was asked about: none of
      them was on the map before the round. */
  method ExpandRound(travelMap0: set<Cell>, lastCells: set<Cell>, p: Cell -> bool)
    returns (travelMap: set<Cell>, adjacentCells: set<Cell>, ghost probes: multiset<Cell>)
    ensures forall c :: c in adjacentCells <==> InNextFrontier(travelMap0, lastCells, p, c)
    ensures travelMap == travelMap0 + adjacentCells
    ensures forall c :: probes[c] > 0 ==> c !in travelMap0
    ensures ProbeLog(adjacentCells, probes, p)
  {
    travelMap, adjacentCells, probes := travelMap0, {}, multiset{};
    var todo := lastCells;
    ghost var done: set<Cell> := {};
    while todo != {}
      invariant done <= lastCells && todo == lastCells - done
      invariant forall c :: c in adjacentCells <==> InNextFrontier(travelMap0, done, p, c)
      invariant travelMap == travelMap0 + adjacentCells
      invariant forall c :: probes[c] > 0 ==> c !in travelMap0
      invariant ProbeLog(adjacentCells, probes, p)
      decreases |todo|
    {
      var cell :| cell in todo;
      var added;
      ghost var probed;
      travelMap, added, probed := AdmitNeighbours(AdjacentCells(cell), travelMap, p);
      CellExpanded(travelMap0, done, cell, p, adjacentCells, probes, added, probed);
      DrainStep(lastCells, done, todo, cell, travelMap0, adjacentCells, added);
      adjacentCells, probes := adjacentCells + added, probes + multiset(probed);
      todo, done := todo - {cell}, done + {cell};
    }
    DrainDone(lastCells, done, todo);
  }

  /** After k rounds the map holds the cells reachable within k moves and the
      frontier the cells first reached after exactly k moves (the start cell
      before the first round); the next round moves both on by one move. */
  lemma RoundAdvancesLevel(start: Cell, p: Cell -> bool, travelMap: set<Cell>, lastCells: set<Cell>, k: nat)
    requires forall c :: c in travelMap <==> ReachableWithin(start, p, c, k)
    requires k == 0 ==> lastCells == {start}
    requires k > 0 ==> forall c :: c in lastCells <==> ReachedAt(start, p, c, k)
    ensures forall c :: InNextFrontier(travelMap, lastCells, p, c) <==> ReachedAt(start, p, c, k + 1)
    ensures forall c :: ReachableWithin(start, p, c, k) ==> ReachableWithin(start, p, c, k + 1)
  {
    forall c
      ensures InNextFrontier(travelMap, lastCells, p, c) <==> ReachedAt(start, p, c, k + 1)
    {
      NextLevel(start, p, c, k);
      if ReachedAt(start, p, c, k + 1) && k > 0 {
        var d :| Adjacent(d, c) && ReachedAt(start, p, d, k);
        assert d in lastCells;
      }
    }
    forall c | ReachableWithin(start, p, c, k)
      ensures ReachableWithin(start, p, c, k + 1)
    {
      WithinMonotonic(start, p, c, k, k + 1);
    }
  }

  /** Taking a non-empty set of new cells from a finite bound leaves fewer
      cells of the bound outside the map. */
  lemma GrowthShrinksRest(bound: set<Cell>, travelMap: set<Cell>, added: set<Cell>)
    requires added <= bound && added != {} && travelMap !! added
    ensures |bound - (travelMap + added)| < |bound - travelMap|
  {
    var rest := bound - (travelMap + added);
    assert bound - travelMap == rest + added;
    assert rest !! added;
    assert |rest + added| == |rest| + |added|;
  }

  lemma FrontierInBound(start: Cell, p: Cell -> bool, bound: set<Cell>, frontier: set<Cell>, k: nat)
    requires forall c :: Reachable(start, p, c) ==> c in bound
    requires forall c :: c in frontier ==> ReachedAt(start, p, c, k)
    ensures frontier <= bound
  {
    forall c | c in frontier
      ensures c in bound
    {
      assert ReachableWithin(start, p, c, k);
      ReachableIffWithin(start, p, c);
    }
  }

  /** When a round finds nothing new, the map holds exactly the reachable
      cells: the loop's exit condition gives the result its meaning. */
  lemma FinalMapIsReachable(start: Cell, p: Cell -> bool, travelMap: set<Cell>, k: nat)
    requires k > 0
    requires forall c :: c in travelMap <==> ReachableWithin(start, p, c, k)
    requires forall c :: !ReachedAt(start, p, c, k)
    ensures forall c :: c in travelMap <==> Reachable(start, p, c)
  {
    forall c
      ensures c in travelMap <==> Reachable(start, p, c)
    {
      ReachableIffWithin(start, p, c);
      if c in travelMap {
        assert ReachableWithin(start, p, c, k);
      }
      if j: nat :| ReachableWithin(start, p, c, j) {
        if j <= k {
          WithinMonotonic(start, p, c, j, k);
        } else {
          EmptyLevelIsFinal(start, p, k, j);
        }
      }
    }
  }

  /** `get_map`: the cells the ant can reach from `start` through cells that
      `p` admits. The start cell is in the result only if it is reached again
      as a neighbour. `p` is asked at most once about any cell it admits.
      The source loops forever when the reachable region is infinite; the
      model asks for a finite `bound` on that region. */
  method GetMap(start: Cell, p: Cell -> bool, ghost bound: set<Cell>)
    returns (travelMap: set<Cell>, ghost probes: multiset<Cell>)
    requires forall c :: Reachable(start, p, c) ==> c in bound
    ensures forall c :: c in travelMap <==> Reachable(start, p, c)
    ensures ProbeLog(travelMap, probes, p)
  {
    travelMap := {};
    var lastCells := {start};
    probes := multiset{};
    ghost var k: nat := 0;
    while lastCells != {}
      invariant forall c :: c in travelMap <==> ReachableWithin(start, p, c, k)
      invariant k == 0 ==> lastCells == {start}
      invariant k > 0 ==> forall c :: c in lastCells <==> ReachedAt(start, p, c, k)
      invariant travelMap <= bound
      invariant ProbeLog(travelMap, probes, p)
      decreases |bound - travelMap|, |lastCells|
    {
      var newMap, adjacentCells, roundProbes := ExpandRound(travelMap, lastCells, p);
      RoundAdvancesLevel(start, p, travelMap, lastCells, k);
      FrontierInBound(start, p, bound, adjacentCells, k + 1);
      if adjacentCells != {} {
        GrowthShrinksRest(bound, travelMap, adjacentCells);
      }
      ProbeLogJoin(travelMap, probes, adjacentCells, roundProbes, p);
      travelMap, lastCells, probes, k := newMap, adjacentCells, probes + roundProbes, k + 1;
    }
    FinalMapIsReachable(start, p, travelMap, k);
  }

  /** `_check_availability_cell`: a cell is available when the digit sums of
      its two coordinates add up to at most `limit`. */
  predicate CellAvailable(limit: int, c: Cell): (r: bool)
    ensures r ==> limit >= 0
    ensures limit == 0 ==> (r <==> c == Cell(0, 0))
    ensures Abs(c.x) + Abs(c.y) <= limit ==> r
  {
    DigitSum(Abs(c.x)) + DigitSum(Abs(c.y)) <= limit
  }

  /** The closure itself, capturing `limit`. */
  function AvailabilityCheck(limit: int): Cell -> bool
  {
    c => CellAvailable(limit, c)
  }

  /** `_check_availability_cell` as the source runs it: `_sum_digits` on each
      coordinate, then the comparison with the limit. */
  method CheckAvailabilityCell(limit: int, c: Cell) returns (available: bool)
    ensures available == CellAvailable(limit, c)
    ensures available == AvailabilityCheck(limit)(c)
  {
    var sx := SumDigits(c.x);
    var sy := SumDigits(c.y);
    available := sx + sy <= limit;
  }

  /** A coordinate magnitude no walk from `start` under `limit` can reach:
      a run of nines longer than the start's coordinates, whose digit sum
      exceeds the limit. */
  function Wall(start: Cell, limit: int): nat
  {
    Nines(Abs(limit) + Abs(start.x) + Abs(start.y) + 1)
  }

  ghost function Box(w: int): set<Cell>
  {
    set x: int, y: int | -w < x < w && -w < y < w :: Cell(x, y)
  }

  lemma WallProperties(start: Cell, limit: int)
    ensures Abs(start.x) < Wall(start, limit) && Abs(start.y) < Wall(start, limit)
    ensures DigitSum(Wall(start, limit)) > limit
  {
    NinesDigitSum(Abs(limit) + Abs(start.x) + Abs(start.y) + 1);
  }

  /** A single move from inside the wall onto an available cell stays inside. */
  lemma StepStaysInside(a: Cell, c: Cell, limit: int, w: nat)
    requires Abs(a.x) < w && Abs(a.y) < w
    requires Adjacent(a, c) && CellAvailable(limit, c)
    requires DigitSum(w) > limit
    ensures Abs(c.x) < w && Abs(c.y) < w
  {
  }

  lemma {:induction false} WithinStaysInside(start: Cell, limit: int, c: Cell, k: nat)
    requires ReachableWithin(start, AvailabilityCheck(limit), c, k)
    ensures Abs(c.x) < Wall(start, limit) && Abs(c.y) < Wall(start, limit)
    decreases k
  {
    WallProperties(start, limit);
    var p := AvailabilityCheck(limit);
    assert CellAvailable(limit, c);
    if Adjacent(start, c) {
      StepStaysInside(start, c, limit, Wall(start, limit));
    } else {
      var d :| Adjacent(d, c) && ReachableWithin(start, p, d, k - 1);
      WithinStaysInside(start, limit, d, k - 1);
      StepStaysInside(d, c, limit, Wall(start, limit));
    }
  }

  /** Under a digit-sum limit the reachable region is finite: it lies in a
      box around the origin, although infinitely many cells are available. */
  lemma ReachableIsBounded(start: Cell, limit: int, c: Cell)
    requires Reachable(start, AvailabilityCheck(limit), c)
    ensures c in Box(Wall(start, limit))
  {
    ReachableIffWithin(start, AvailabilityCheck(limit), c);
    var k: nat :| ReachableWithin(start, AvailabilityCheck(limit), c, k);
    WithinStaysInside(start, limit, c, k);
    assert Cell(c.x, c.y) == c;
  }

  /** `get_map_with_sum_digits_limit`: a non-positive limit fails before any
      traversal; otherwise the map of cells reachable through cells whose
      coordinates' digit sums add up to at most the limit. It always
      terminates. */
  method GetMapWithSumDigitsLimit(start: Cell, maxSumDigits: int) returns (r: Result<set<Cell>, LimitError>)
    ensures r.Failure? <==> maxSumDigits <= 0
    ensures r.Failure? ==> r.error == NonPositiveLimit(maxSumDigits)
    ensures r.Success? ==> forall c :: c in r.value <==> Reachable(start, AvailabilityCheck(maxSumDigits), c)
    ensures r.Success? ==> forall c :: c in r.value ==> CellAvailable(maxSumDigits, c)
  {
    if maxSumDigits <= 0 {
      return Failure(NonPositiveLimit(maxSumDigits));
    }
    var check := AvailabilityCheck(maxSumDigits);
    ghost var bound := Box(Wall(start, maxSumDigits));
    forall c | Reachable(start, check, c)
      ensures c in bound
    {
      ReachableIsBounded(start, maxSumDigits, c);
    }
    var travelMap;
    ghost var probes;
    travelMap, probes := GetMap(start, check, bound);
    forall c | c in travelMap
      ensures CellAvailable(maxSumDigits, c)
    {
      ReachableIsAdmitted(start, check, c);
    }
    r := Success(travelMap);
  }

  /** A larger digit-sum limit never shrinks the travel map. */
  lemma LimitMonotonic(start: Cell, limit1: int, limit2: int, c: Cell)
    requires limit1 <= limit2
    requires Reachable(start, AvailabilityCheck(limit1), c)
    ensures Reachable(start, AvailabilityCheck(limit2), c)
  {
  }
}
