# travelant: the ant's travel map

An ant stands on a cell of the unbounded integer grid and may move up, down,
left or right. A predicate supplied by the caller decides which cells it may
enter. `get_map` computes the ant's travel map: every cell it can reach. It
works in rounds. `last_cells` holds the current frontier, and each round
admits the frontier's neighbours that are new and accepted by the predicate.
The loop stops when a round admits nothing. `get_map_with_sum_digits_limit`
rejects a non-positive limit. Otherwise it runs `get_map` with the predicate
"the decimal digit sums of the two coordinates add up to at most the limit".

The model has five modules:

- `Cells` (`cells.dfy`): cells, the movement rule and `_get_adjacent_cells`.
- `Digits` (`digits.dfy`): `_sum_digits` as a loop, proved against the
  recursive digit sum `DigitSum`.
- `Reachability` (`reachability.dfy`): the meaning of the map.
  - `Reachable` is the reference definition: the cell ends a walk of at
    least one move, every entered cell is admitted, and the start cell
    itself is not checked.
  - `ReachableWithin`/`ReachedAt` are the level-indexed versions used by the
    round invariant. A cell is reachable exactly when it is reachable within
    some number of moves, and it is first reached after exactly k moves
    exactly when its shortest admitted walk has k moves.
- `Travel` (`travel.dfy`): `get_map` and the digit-sum variant.
  - `get_map` is imperative. Its outer `while` runs the rounds. `ExpandRound`
    models the `for cell in last_cells` loop. `AdmitNeighbours` models the
    `for adjacent_cell in ...` loop.
  - The sets are drained by picking an arbitrary element, so nothing depends
    on iteration order.
  - A ghost multiset counts every call of the predicate, to state that no
    admitted cell is asked about twice.
- `Scenarios` (`scenarios.dfy`): the repository's test cases, stated on the
  specification that the methods are proved to meet, and as calls of the
  methods themselves.

Termination:

- `GetMap` takes a ghost finite `bound` that contains every reachable cell.
  The source loops forever on an infinite reachable region.
- `GetMapWithSumDigitsLimit` needs no precondition. It builds such a bound
  itself. Write `W` for the number made of K nines, with K greater than the
  limit plus the start's coordinate magnitudes. `W` has digit sum 9K, more
  than the limit. So no walk crosses the lines |x| = W or |y| = W, even
  though infinitely many cells (such as (10^k, 0)) are admitted.

The postcondition of `GetMap` states the result cell by cell. So two calls
with the same arguments return the same set.

## Model

| member | source | states |
|---|---|---|
| Cells.AdjacentCells | travelant/travel.py:47-58 | the neighbour set has exactly four cells, does not contain the cell, and holds exactly the cells one unit move away |
| Cells.AdjacentIsManhattanUnit | travelant/travel.py:4 | the movement rule is exactly Manhattan distance 1 |
| Digits.DigitSum | travelant/travel.py:88-99 | the digit sum of a non-negative number is at most the number and is zero only for zero |
| Digits.SumDigits | travelant/travel.py:88-99 | the loop returns the digit sum of the absolute value; `s + DigitSum(n)` is invariant and `n` strictly decreases |
| Digits.DigitStep | travelant/travel.py:96-98 | taking off the last decimal digit `d` leaves a number whose digit sum is `d` less |
| Digits.DigitSumOfDecimal | travelant/travel.py:88-99 | the digit sum of the number written by any decimal digit string is the sum of those digits |
| Digits.DigitSumIgnoresSign | travelant/travel.py:93 | negating a number does not change its digit sum |
| Digits.NinesDigitSum | travelant/travel.py:78-83 | a run of k nines is at least k and has digit sum 9k, so digit sums grow without bound |
| Reachability.ReachableIffWithin | travelant/travel.py:33-44 | a cell ends an admitted walk exactly when it is reachable within some number of moves |
| Reachability.ReachedAtIsShortest | travelant/travel.py:33-42 | a cell is on the frontier of round k exactly when its shortest admitted walk from the start has exactly k moves |
| Reachability.WithinMonotonic | travelant/travel.py:33-42 | more rounds reach at least the same cells |
| Reachability.NextLevel | travelant/travel.py:34-42 | the cells first reached after k + 1 moves are exactly the new admitted neighbours of the cells first reached after k moves (of the start cell when k = 0) |
| Reachability.LevelsDisjoint | travelant/travel.py:36-42 | a cell sits on one frontier only, so no admitted cell is expanded twice |
| Reachability.EmptyLevelIsFinal | travelant/travel.py:33 | once a round reaches nothing new, no longer walk reaches anything new |
| Reachability.ClosedHoldsReachable | travelant/travel.py:33-44 | a set closed under admitted moves from the start and from its own cells holds every reachable cell |
| Reachability.ReachableIsAdmitted | travelant/travel.py:38-39 | every reachable cell is accepted by the predicate |
| Reachability.StartReachable | travelant/travel.py:30-31 | the start cell is reachable exactly when it is admitted and so is one of its neighbours |
| Reachability.ReachableMonotonic | travelant/travel.py:38 | a predicate that admits more cells makes more cells reachable |
| Travel.AdmitNeighbours | travelant/travel.py:37-40 | exactly the neighbours not on the map are checked; those accepted are added to the map and the next frontier, and nothing else is |
| Travel.ExpandRound | travelant/travel.py:34-42 | after a round, the next frontier is exactly the admitted neighbours of the frontier that were not on the map; the map grows by exactly that frontier; the predicate was asked only about cells not on the map, and at most once about each cell it admitted |
| Travel.ProbeLogJoin | travelant/travel.py:36-40 | call logs of two stretches of work combine when the second never asks about a cell the first admitted |
| Travel.RoundAdvancesLevel | travelant/travel.py:33-42 | if the map holds the cells within k moves and the frontier the cells first reached at k moves, a round yields exactly the cells first reached at k + 1 moves |
| Travel.FinalMapIsReachable | travelant/travel.py:33-44 | when a round finds nothing new, the map holds exactly the reachable cells |
| Travel.GetMap | travelant/travel.py:19-44 | the result is exactly the set of cells reachable through admitted cells; the predicate is asked at most once about each admitted cell; rejected cells may be asked again |
| Travel.CellAvailable | travelant/travel.py:78-83 | the availability rule, which `AvailabilityCheck(limit)` wraps as a one-line closure over the limit: a cell is available only under a non-negative limit; under limit 0 only the origin is available; every cell within Manhattan distance `limit` of the origin is available |
| Travel.CheckAvailabilityCell | travelant/travel.py:78-83 | running `_sum_digits` on both coordinates and comparing with the limit gives the closure's answer |
| Travel.ReachableIsBounded | travelant/travel.py:78-85 | under a digit-sum limit every reachable cell lies inside a finite box around the origin |
| Travel.WithinStaysInside | travelant/travel.py:78-85 | walks of any length under a digit-sum limit stay inside the wall of nines |
| Travel.GetMapWithSumDigitsLimit | travelant/travel.py:61-85 | it fails exactly when the limit is not positive and reports that limit; otherwise it returns exactly the cells reachable through cells whose coordinate digit sums add up to at most the limit, each of which satisfies the limit; it always terminates |
| Travel.LimitMonotonic | travelant/travel.py:78-83 | a larger limit never removes a cell from the travel map |
| Scenarios.AdjacentCellsOfOrigin | tests/test_travel.py:22-32 | the neighbours of (0, 0) are (-1, 0), (1, 0), (0, -1) and (0, 1) |
| Scenarios.DigitSumExamples | tests/test_travel.py:57-70 | the digit sums of 0, 123 and -123 are 0, 6 and 6 |
| Scenarios.BlockFromOrigin | tests/test_travel.py:16-20 | from (0, 0) with only the 3 x 3 block admitted, the map is exactly the nine cells of the block |
| Scenarios.NothingAdmitted | travelant/travel.py:30-31 | with a predicate that admits nothing, no cell, the start included, is on the map |
| Scenarios.LimitOneFromOrigin | tests/test_travel.py:48-54 | from (0, 0) with limit 1, the map is exactly the origin and its four neighbours |
| Scenarios.BlockMap | tests/test_travel.py:16-20 | `GetMap` from (0, 0) with the 3 x 3 block predicate returns exactly the nine block cells |
| Scenarios.EmptyMap | travelant/travel.py:30-31 | `GetMap` with a predicate that admits nothing returns the empty set, from any start |
| Scenarios.LimitOneMap | tests/test_travel.py:48-54 | `GetMapWithSumDigitsLimit` from (0, 0) with limit 1 succeeds with exactly the five cells of the cross |
| Scenarios.NegativeLimitFails | tests/test_travel.py:36-46 | `GetMapWithSumDigitsLimit` with limit -1 fails and reports -1 |

## Left out

- `travelant/app_web.py` and `travelant/app_cmd.py` are not part of this model. They are argument parsing, HTTP handling, template rendering and printing, all I/O.
- The `add_travel_cells_handler` parameter of `get_map_with_sum_digits_limit` is never called by the source, so it is not modelled.
- The text of the exception raised for a non-positive limit is not modelled. The failure is `Failure(NonPositiveLimit(limit))`. The repository's test expects a message that differs by one word from the one the code raises; only the code's condition (`<= 0`) is modelled.
- GetMap: the caller supplies a ghost finite `bound` holding every reachable cell, because the source loop does not terminate when the reachable region is infinite. The digit-sum variant discharges this precondition itself.
- GetMap: the predicate is a pure total function `Cell -> bool`. A predicate with side effects, or one that raises, is not modelled.
- Performance of round-based versus stack-based expansion is not modelled. Only the resulting set and the predicate calls are.
- The predicate passed by `GetMapWithSumDigitsLimit` is a function value, so it is written with the function `DigitSum` rather than the `_sum_digits` loop. `Travel.CheckAvailabilityCell` runs that loop and is proved to give the same answer for every cell.
- Python's unbounded integers are Dafny `int`, so no overflow is modelled.
- A limit of 0 is rejected as well, because the guard is `<= 0`. The model follows that guard: the limit must be strictly positive.
