# Subset-sum hill climber

A Dafny model of the hill climber in
`optimization-algorithms/Hill_Climbing/Hill_Climbing.py`. The climber looks for
a sub-list of a list of numbers whose sum comes as close as possible to a target
without exceeding it:

- `fitness` scores a candidate list by its sum, or by negative infinity when
  the sum overshoots the target;
- `get_neighbors` builds one neighbour per entry of `items`: the candidate
  with that item's first occurrence removed when it holds the item, the
  candidate with the item appended otherwise;
- `hill_climbing` starts from a random sample of `items` and, for a fixed number
  of iterations, scans all neighbours and moves to a neighbour only when its
  fitness is strictly above the best fitness seen so far.

Two files, one module each:

- `lists.dfy` (module `Lists`): the Python list built-ins the climber relies
  on, `sum`, `x in s` and `list.remove`, with their properties (first
  occurrence, multiset of values, sum, absence of repeats).
- `hill_climbing.dfy` (module `HillClimbing`): the score type `Score`
  (`NegInf | Val(int)`), Python's `>` on it (`Above`), `Fitness`, one neighbour
  (`Neighbor`) and all of them (`Neighbors`), the neighbour scan as a function
  (`Scan`), one iteration (`Step`), `n` iterations (`Run`), the two loops of the
  source as methods (`GetNeighbors`, `ChooseMove`, `Climb`) proved against
  those functions, and the lemmas about them.

The random initial sample of `hill_climbing` (line 21) is the parameter
`initial` of `Climb`. What `random.sample(items, random.randint(1, len(items)))`
guarantees becomes its precondition: `initial` is non-empty and, as a multiset,
drawn from `items` without replacement. An empty `items` cannot meet this
precondition; the source raises an error in that case.

Points where the code behaves in ways a reader may not expect, and which the
model follows:

- A non-positive `max_iterations` is not rejected by the code. `range` then
  yields nothing and the sample is returned unchanged. `Climb` does the same
  (`Iterations`).
- The candidate is always drawn from `items`: no value occurs in it more often
  than in `items`. This holds of the sample and every iteration keeps it,
  because an item is appended only when the candidate does not hold it. When
  `items` repeats a value, the candidate may hold that value as often as
  `items` does, and a removal then takes out only one copy. A start without
  repeats never gains one.
- `max_iterations` defaults to 1000, and so does `maxIterations` in `Climb`.
- The start is not required to be within the target. `Climb` promises
  instead that the result is the start itself, or else is within the target
  and strictly fitter than the start.

## Model

| member | source | states |
|---|---|---|
| `Lists.Sum` | optimization-algorithms/Hill_Climbing/Hill_Climbing.py:4 | `sum` over a list of integers, added from left to right from 0; its properties are `SumConcat` and the sum clauses of `RemoveFirstContents` and `NeighborSum` |
| `Lists.SumConcat` | optimization-algorithms/Hill_Climbing/Hill_Climbing.py:4 | `sum` of a concatenation is the sum of the parts |
| `Lists.FirstIndex` | optimization-algorithms/Hill_Climbing/Hill_Climbing.py:12 | the position `list.remove` deletes holds the value and no earlier position does |
| `Lists.RemoveFirst` | optimization-algorithms/Hill_Climbing/Hill_Climbing.py:11-12 | `remove` on a copy yields the list with exactly the first occurrence cut out, everything else kept in order |
| `Lists.RemoveFirstContents` | optimization-algorithms/Hill_Climbing/Hill_Climbing.py:11-12 | a removal shortens the list by one, removes one copy of the value from its multiset and lowers its sum by the value |
| `Lists.RemoveAppended` | optimization-algorithms/Hill_Climbing/Hill_Climbing.py:12-16 | removing a value just appended to a list without it gives the list back |
| `Lists.NoDupSubMultiset` | optimization-algorithms/Hill_Climbing/Hill_Climbing.py:21 | a sample without replacement from a list without repeats has no repeats |
| `Lists.NoDupRemove` | optimization-algorithms/Hill_Climbing/Hill_Climbing.py:10-13 | on a list without repeats a removal leaves no copy of the value, keeps every other value and adds no repeat |
| `Lists.NoDupAppend` | optimization-algorithms/Hill_Climbing/Hill_Climbing.py:14-17 | appending an absent value to a list without repeats adds no repeat |
| `HillClimbing.Above` | optimization-algorithms/Hill_Climbing/Hill_Climbing.py:29 | Python's `>` between two fitness values, negative infinity below every number and not above itself; `FitnessAbove` states what it means for two candidates |
| `HillClimbing.Fitness` | optimization-algorithms/Hill_Climbing/Hill_Climbing.py:3-5 | the score is negative infinity exactly when the sum exceeds the target; a finite score is the sum and never exceeds the target |
| `HillClimbing.FitnessAbove` | optimization-algorithms/Hill_Climbing/Hill_Climbing.py:3-5 | one candidate is strictly fitter than another exactly when it is within the target and the other overshoots or has a smaller sum |
| `HillClimbing.Neighbor` | optimization-algorithms/Hill_Climbing/Hill_Climbing.py:10-16 | the neighbour built for one item; its contents are given by `NeighborContents`, `NeighborSum`, `NeighborValues`, `NeighborDrawn`, `NeighborToggles` and `NeighborInverse` |
| `HillClimbing.NeighborContents` | optimization-algorithms/Hill_Climbing/Hill_Climbing.py:10-16 | a neighbour for a held item is one shorter with one copy of the item gone; for an absent item it is `current` followed by the item |
| `HillClimbing.NeighborSum` | optimization-algorithms/Hill_Climbing/Hill_Climbing.py:10-16 | a neighbour's sum is the candidate's sum minus a removed item or plus an appended one |
| `HillClimbing.NeighborValues` | optimization-algorithms/Hill_Climbing/Hill_Climbing.py:10-16 | every value of a neighbour is a value of the candidate or the toggled item |
| `HillClimbing.NeighborToggles` | optimization-algorithms/Hill_Climbing/Hill_Climbing.py:10-16 | on a candidate without repeats a neighbour flips the membership of its item only and has no repeats |
| `HillClimbing.NeighborDrawn` | optimization-algorithms/Hill_Climbing/Hill_Climbing.py:10-16 | a neighbour of a candidate drawn from `items`, for an entry of `items`, is still drawn from `items`: no value more often than in `items` |
| `HillClimbing.NeighborInverse` | optimization-algorithms/Hill_Climbing/Hill_Climbing.py:10-16 | toggling an absent item twice gives the candidate back; toggling a held item twice (no repeats) gives the same values with the item moved to the end |
| `HillClimbing.Neighbors` | optimization-algorithms/Hill_Climbing/Hill_Climbing.py:7-18 | exactly one neighbour per entry of `items` |
| `HillClimbing.NeighborsAt` | optimization-algorithms/Hill_Climbing/Hill_Climbing.py:9-17 | the i-th neighbour is the one built for `items[i]`, in `items` order |
| `HillClimbing.GetNeighbors` | optimization-algorithms/Hill_Climbing/Hill_Climbing.py:7-18 | the loop returns `len(items)` neighbours, the i-th built from `items[i]` from a copy of `current` |
| `HillClimbing.Scan` | optimization-algorithms/Hill_Climbing/Hill_Climbing.py:27-31 | the inner loop over the neighbours as a left-to-right fold of (move, best fitness); specified by `ScanResult` and `ScanConsistent` |
| `HillClimbing.ScanResult` | optimization-algorithms/Hill_Climbing/Hill_Climbing.py:26-32 | with no neighbour strictly above the best nothing changes; otherwise the move is the first neighbour reaching the largest fitness, which becomes the new best and is strictly above the old one |
| `HillClimbing.ScanConsistent` | optimization-algorithms/Hill_Climbing/Hill_Climbing.py:26-31 | the scan keeps "best fitness is the fitness of the chosen move" and never lowers the best fitness |
| `HillClimbing.ChooseMove` | optimization-algorithms/Hill_Climbing/Hill_Climbing.py:26-31 | the inner loop ends with the scan's move and best; the best is the move's fitness and is not below the starting best |
| `HillClimbing.Step` | optimization-algorithms/Hill_Climbing/Hill_Climbing.py:25-32 | one iteration of the outer loop: scan all neighbours of the candidate from its own fitness; specified by `StepChoice`, `StepImproves`, `StepValues` and `StepDrawn` |
| `HillClimbing.StepChoice` | optimization-algorithms/Hill_Climbing/Hill_Climbing.py:24-32 | an iteration stays put when no neighbour is strictly fitter; otherwise it moves to the first neighbour in `items` order with the largest fitness, strictly fitter than the candidate |
| `HillClimbing.StepImproves` | optimization-algorithms/Hill_Climbing/Hill_Climbing.py:26-32 | an iteration never lowers the fitness; a move raises it strictly and goes to a neighbour |
| `HillClimbing.StepValues` | optimization-algorithms/Hill_Climbing/Hill_Climbing.py:25-32 | an iteration keeps the values among those of `items` and adds no repeat |
| `HillClimbing.StepDrawn` | optimization-algorithms/Hill_Climbing/Hill_Climbing.py:25-32 | an iteration keeps a candidate drawn from `items` drawn from it: no value more often than in `items` |
| `HillClimbing.Iterations` | optimization-algorithms/Hill_Climbing/Hill_Climbing.py:24 | the number of values `range(max_iterations)` yields: `max_iterations`, or none when it is negative |
| `HillClimbing.Run` | optimization-algorithms/Hill_Climbing/Hill_Climbing.py:24-32 | the candidate after `n` iterations of the outer loop; specified by `RunKeeps`, `RunMonotone`, `RunFeasible`, `RunValues` and `RunSummary` |
| `HillClimbing.RunKeeps` | optimization-algorithms/Hill_Climbing/Hill_Climbing.py:24-32 | any property of the candidate that one iteration preserves holds after any number of iterations |
| `HillClimbing.RunMonotone` | optimization-algorithms/Hill_Climbing/Hill_Climbing.py:22-32 | the best fitness after `m` iterations is never above that after `n >= m` iterations |
| `HillClimbing.RunFeasible` | optimization-algorithms/Hill_Climbing/Hill_Climbing.py:22-32 | after any number of iterations the candidate is the start, or it is within the target and strictly fitter than the start |
| `HillClimbing.RunValues` | optimization-algorithms/Hill_Climbing/Hill_Climbing.py:20-32 | values come only from `items`; a start drawn from `items` (no value more often than there) stays drawn from it; a start without repeats never gains one |
| `HillClimbing.RunSummary` | optimization-algorithms/Hill_Climbing/Hill_Climbing.py:20-33 | for a sample of `items`: the result is no less fit than the sample, is the sample or within the target and strictly fitter, holds no value more often than `items` does, has values from `items` only, and has no repeats when `items` has none |
| `HillClimbing.Climb` | optimization-algorithms/Hill_Climbing/Hill_Climbing.py:20-33 | returns the candidate after exactly `max(max_iterations, 0)` iterations (`Run`; `max_iterations` defaults to 1000) and its sum; that candidate is no less fit than the sample, is the sample or within the target and strictly fitter, holds no value more often than `items` does, has values from `items` only, and has no repeats when `items` has none |

## Left out

- `optimization-algorithms/gradient/optimization_algorithms.py` (the objective, its gradient, gradient descent, momentum and Adam) is not part of this model: it is floating-point arithmetic with `sin`, `cos`, `sqrt` and real powers.
- The random choice of the initial sample (line 21) is left out; the sample is the parameter `initial`, constrained by what `random.sample` guarantees.
- The example data and the `print` calls at lines 35-41 are console I/O and are left out.
- Numbers are integers, as in the example data; floating-point items and targets (rounding in `sum`) are not modelled. Python's `-float('inf')` is the constructor `NegInf`.
- Lists are modelled as sequence values. `current.copy()` followed by `remove` or `append` on the copy is a new value, so that `get_neighbors` leaves `current` untouched holds by construction. For the same reason the aliasing `next_move = current` at line 26 is not modelled; nothing mutates either list afterwards.
- `Climb` returns the candidate and its sum, as the source does, not the best fitness. Its loop invariant ties the best fitness to the candidate's fitness.
- The inner loop of `hill_climbing` (lines 27-31) is the separate method `ChooseMove`, called from the outer loop of `Climb`. Both loops are modelled as loops.
