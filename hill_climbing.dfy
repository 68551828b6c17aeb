/** A hill climber over sub-lists of a list of integers that looks for a
    sub-list whose sum comes as close to a target as possible without going
    over it. Each iteration toggles one item at a time (removing it when the
    candidate holds it, appending it otherwise) and moves to the best strictly
    improving toggle, for a fixed number of iterations. */
module HillClimbing {
  import opened Lists

  /** A fitness score: a finite sum, or the negative-infinity sentinel that
      marks a candidate whose sum overshoots the target. */
  datatype Score = NegInf | Val(v: int)

  /** Python's `a > b` on such scores: negative infinity lies below every
      number and is not above itself. */
  predicate Above(a: Score, b: Score)
  {
    match a
    case NegInf => false
    case Val(x) => b == NegInf || x > b.v
  }

  /** Not being above is transitive. */
  lemma AtMostTransitive(a: Score, b: Score, c: Score)
    requires !Above(a, b) && !Above(b, c)
    ensures !Above(a, c)
  {
  }

  /** `fitness`: the sum of the candidate when it does not exceed the target,
      negative infinity otherwise. */
  function Fitness(subset: seq<int>, target: int): (r: Score)
    ensures r == NegInf <==> Sum(subset) > target
    ensures r.Val? ==> r.v == Sum(subset) && r.v <= target
  {
    var total := Sum(subset);
    if total <= target then Val(total) else NegInf
  }

  /** How the climber ranks two candidates: one is strictly fitter than
      another exactly when it is within the target and either the other
      overshoots it or its sum is larger. */
  lemma FitnessAbove(a: seq<int>, b: seq<int>, target: int)
    ensures Above(Fitness(a, target), Fitness(b, target)) <==>
            Sum(a) <= target && (Sum(b) > target || Sum(a) > Sum(b))
  {
  }

  /** A score that can beat another one is finite, so the candidate that has
      it is within the target. */
  lemma AboveIsFeasible(subset: seq<int>, target: int, other: Score)
    requires Above(Fitness(subset, target), other)
    ensures Sum(subset) <= target
  {
  }

  /** The neighbour of `current` built for `item`: a copy with the first
      occurrence of `item` removed when `current` holds it, a copy with `item`
      appended otherwise. */
  function Neighbor(current: seq<int>, item: int): seq<int>
  {
    if item in current then RemoveFirst(current, item) else current + [item]
  }

  /** A neighbour has one entry less or one entry more than `current`: one
      copy of `item` taken out when `current` holds it, `item` added at the
      end otherwise. */
  lemma NeighborContents(current: seq<int>, item: int)
    ensures item in current ==>
              |Neighbor(current, item)| == |current| - 1 &&
              multiset(Neighbor(current, item)) == multiset(current) - multiset{item}
    ensures item !in current ==>
              |Neighbor(current, item)| == |current| + 1 &&
              Neighbor(current, item)[..|current|] == current &&
              Neighbor(current, item)[|current|] == item &&
              multiset(Neighbor(current, item)) == multiset(current) + multiset{item}
  {
    if item in current {
      RemoveFirstContents(current, item);
    } else {
      assert Neighbor(current, item)[..|current|] == current;
    }
  }

  /** All neighbours of `current`, one per entry of `items`, in `items` order. */
  function Neighbors(current: seq<int>, items: seq<int>): (ns: seq<seq<int>>)
    ensures |ns| == |items|
  {
    if items == [] then []
    else [Neighbor(current, items[0])] + Neighbors(current, items[1..])
  }

  /** The i-th neighbour is the one built for `items[i]`. */
  lemma {:induction false} NeighborsAt(current: seq<int>, items: seq<int>)
    ensures forall i :: 0 <= i < |items| ==> Neighbors(current, items)[i] == Neighbor(current, items[i])
  {
    if items != [] {
      NeighborsAt(current, items[1..]);
      var ns := Neighbors(current, items);
      forall i | 0 < i < |items| ensures ns[i] == Neighbor(current, items[i]) {
        assert ns[i] == Neighbors(current, items[1..])[i - 1];
        assert items[1..][i - 1] == items[i];
      }
    }
  }

  /** The sum of a neighbour differs from that of `current` by the toggled
      item: minus it when removed, plus it when appended. */
  lemma NeighborSum(current: seq<int>, item: int)
    ensures item in current ==> Sum(Neighbor(current, item)) == Sum(current) - item
    ensures item !in current ==> Sum(Neighbor(current, item)) == Sum(current) + item
  {
    if item in current {
      RemoveFirstContents(current, item);
    } else {
      SumConcat(current, [item]);
    }
  }

  /** Every value of a neighbour is a value of `current` or the toggled item. */
  lemma NeighborValues(current: seq<int>, item: int)
    ensures forall y :: y in Neighbor(current, item) ==> y in current || y == item
  {
    var r := Neighbor(current, item);
    NeighborContents(current, item);
    forall y | y in r ensures y in current || y == item {
      assert y in multiset(r);
    }
  }

  /** A candidate drawn from `items` (no value more often than `items` has
      it) has neighbours drawn from `items` for every item of `items`: a
      removal lowers one count, and an append adds a value the candidate did
      not hold. */
  lemma NeighborDrawn(current: seq<int>, items: seq<int>, item: int)
    requires multiset(current) <= multiset(items) && item in items
    ensures multiset(Neighbor(current, item)) <= multiset(items)
  {
    NeighborContents(current, item);
    if item !in current {
      assert multiset(current)[item] == 0;
      assert item in multiset(items);
    }
  }

  /** On a candidate without repeats a neighbour flips exactly the membership
      of its item, and itself has no repeats. */
  lemma NeighborToggles(current: seq<int>, item: int)
    requires NoDup(current)
    ensures NoDup(Neighbor(current, item))
    ensures item in Neighbor(current, item) <==> item !in current
    ensures forall y :: y != item ==> (y in Neighbor(current, item) <==> y in current)
  {
    if item in current {
      NoDupRemove(current, item);
    } else {
      NoDupAppend(current, item);
    }
  }

  /** Toggling the same item twice undoes the first toggle: an appended item
      is removed again exactly; on a candidate without repeats a removed item
      comes back at the end, which gives back the same values. */
  lemma NeighborInverse(current: seq<int>, item: int)
    ensures item !in current ==> Neighbor(Neighbor(current, item), item) == current
    ensures item in current && NoDup(current) ==>
              Neighbor(Neighbor(current, item), item) == RemoveFirst(current, item) + [item] &&
              multiset(Neighbor(Neighbor(current, item), item)) == multiset(current)
  {
    var r := Neighbor(current, item);
    if item !in current {
      assert item in r by {
        NeighborContents(current, item);
      }
      RemoveAppended(current, item);
    } else if NoDup(current) {
      NeighborToggles(current, item);
      NeighborContents(current, item);
      assert item !in r;
      assert multiset(r + [item]) == multiset(r) + multiset{item};
    }
  }

  /** The outcome of scanning neighbours: the move chosen so far and the best
      fitness seen so far. */
  datatype Choice = Choice(move: seq<int>, best: Score)

  /** The inner loop of `hill_climbing`: walks the neighbours in order and
      takes one, with its fitness as the new best, whenever its fitness is
      strictly above the best so far. */
  function Scan(ns: seq<seq<int>>, target: int, move: seq<int>, best: Score): Choice
  {
    if ns == [] then Choice(move, best)
    else
      var f := Fitness(ns[0], target);
      if Above(f, best) then Scan(ns[1..], target, ns[0], f)
      else Scan(ns[1..], target, move, best)
  }

  /** No candidate in `ns` is strictly fitter than `best`. */
  ghost predicate NoneAbove(ns: seq<seq<int>>, target: int, best: Score)
  {
    forall j :: 0 <= j < |ns| ==> !Above(Fitness(ns[j], target), best)
  }

  /** `ns[k]` has the largest fitness in `ns`, and no earlier entry has it. */
  ghost predicate FirstBest(ns: seq<seq<int>>, target: int, k: int)
  {
    0 <= k < |ns| &&
    NoneAbove(ns, target, Fitness(ns[k], target)) &&
    forall j :: 0 <= j < k ==> Above(Fitness(ns[k], target), Fitness(ns[j], target))
  }

  /** What a scan ends with. When no neighbour is strictly above the starting
      best, nothing changes. Otherwise the chosen move is the first neighbour
      that reaches the largest fitness among all of them, and that fitness,
      strictly above the starting best, is the new best. */
  lemma {:induction false} ScanResult(ns: seq<seq<int>>, target: int, move: seq<int>, best: Score)
    ensures NoneAbove(ns, target, best) ==> Scan(ns, target, move, best) == Choice(move, best)
    ensures !NoneAbove(ns, target, best) ==>
              exists k :: FirstBest(ns, target, k) &&
                Scan(ns, target, move, best) == Choice(ns[k], Fitness(ns[k], target)) &&
                Above(Fitness(ns[k], target), best)
  {
    if ns != [] {
      var f := Fitness(ns[0], target);
      var rest := ns[1..];
      assert forall j :: 0 < j < |ns| ==> ns[j] == rest[j - 1];
      var c := Scan(ns, target, move, best);
      var b := if Above(f, best) then f else best;
      var m := if Above(f, best) then ns[0] else move;
      assert c == Scan(rest, target, m, b);
      ScanResult(rest, target, m, b);
      if !NoneAbove(rest, target, b) {
        var k :| FirstBest(rest, target, k) &&
                 c == Choice(rest[k], Fitness(rest[k], target)) &&
                 Above(Fitness(rest[k], target), b);
        assert FirstBest(ns, target, k + 1);
      } else if Above(f, best) {
        assert FirstBest(ns, target, 0);
      } else {
        assert NoneAbove(ns, target, best);
      }
    }
  }

  /** The fitness the scan ends with is the fitness of the move it ends with,
      provided it started that way; and it is never below the starting best. */
  lemma ScanConsistent(ns: seq<seq<int>>, target: int, move: seq<int>, best: Score)
    requires Fitness(move, target) == best
    ensures Fitness(Scan(ns, target, move, best).move, target) == Scan(ns, target, move, best).best
    ensures !Above(best, Scan(ns, target, move, best).best)
  {
    ScanResult(ns, target, move, best);
  }

  /** One iteration of `hill_climbing` from `current`, whose fitness is the
      best seen so far: the move the scan over all neighbours settles on. */
  function Step(items: seq<int>, target: int, current: seq<int>): seq<int>
  {
    Scan(Neighbors(current, items), target, current, Fitness(current, target)).move
  }

  /** One iteration either stays put, exactly when no neighbour is strictly
      fitter than `current`, or moves to the first neighbour in `items` order
      with the largest fitness, which is strictly fitter than `current`. */
  lemma StepChoice(items: seq<int>, target: int, current: seq<int>)
    ensures NoneAbove(Neighbors(current, items), target, Fitness(current, target)) ==>
              Step(items, target, current) == current
    ensures !NoneAbove(Neighbors(current, items), target, Fitness(current, target)) ==>
              exists k :: FirstBest(Neighbors(current, items), target, k) &&
                Step(items, target, current) == Neighbor(current, items[k]) &&
                Above(Fitness(Step(items, target, current), target), Fitness(current, target))
  {
    NeighborsAt(current, items);
    ScanResult(Neighbors(current, items), target, current, Fitness(current, target));
  }

  /** One iteration never lowers the fitness, and a move it makes raises the
      fitness strictly, to a neighbour of `current`. */
  lemma StepImproves(items: seq<int>, target: int, current: seq<int>)
    ensures !Above(Fitness(current, target), Fitness(Step(items, target, current), target))
    ensures Step(items, target, current) == current ||
            (Above(Fitness(Step(items, target, current), target), Fitness(current, target)) &&
             exists k :: 0 <= k < |items| && Step(items, target, current) == Neighbor(current, items[k]))
  {
    StepChoice(items, target, current);
  }

  /** One iteration keeps the candidate's values among those of `items` and
      its values free of repeats. */
  lemma StepValues(items: seq<int>, target: int, current: seq<int>)
    ensures (forall y :: y in current ==> y in items) ==>
              forall y :: y in Step(items, target, current) ==> y in items
    ensures NoDup(current) ==> NoDup(Step(items, target, current))
  {
    var s := Step(items, target, current);
    StepImproves(items, target, current);
    if s != current {
      var k :| 0 <= k < |items| && s == Neighbor(current, items[k]);
      NeighborValues(current, items[k]);
      if NoDup(current) {
        NeighborToggles(current, items[k]);
      }
    }
  }

  /** One iteration keeps the candidate drawn from `items`: no value occurs
      in it more often than in `items`. */
  lemma StepDrawn(items: seq<int>, target: int, current: seq<int>)
    requires multiset(current) <= multiset(items)
    ensures multiset(Step(items, target, current)) <= multiset(items)
  {
    var s := Step(items, target, current);
    StepImproves(items, target, current);
    if s != current {
      var k :| 0 <= k < |items| && s == Neighbor(current, items[k]);
      NeighborDrawn(current, items, items[k]);
    }
  }

  /** `range(n)` yields no value for a negative `n`. */
  function Iterations(maxIterations: int): nat
  {
    if maxIterations < 0 then 0 else maxIterations
  }

  /** The candidate after `n` iterations from `initial`. */
  function Run(items: seq<int>, target: int, n: nat, initial: seq<int>): seq<int>
  {
    if n == 0 then initial else Step(items, target, Run(items, target, n - 1, initial))
  }

  /** The best fitness never decreases from one iteration to a later one. */
  lemma {:induction false} RunMonotone(items: seq<int>, target: int, m: nat, n: nat, initial: seq<int>)
    requires m <= n
    ensures !Above(Fitness(Run(items, target, m, initial), target),
                   Fitness(Run(items, target, n, initial), target))
  {
    if m < n {
      var prev := Run(items, target, n - 1, initial);
      RunMonotone(items, target, m, n - 1, initial);
      StepImproves(items, target, prev);
      AtMostTransitive(Fitness(Run(items, target, m, initial), target), Fitness(prev, target),
                       Fitness(Step(items, target, prev), target));
    }
  }

  /** After any number of iterations the candidate is still `initial`, or it
      has moved, in which case it is within the target and strictly fitter
      than `initial`. */
  lemma {:induction false} RunFeasible(items: seq<int>, target: int, n: nat, initial: seq<int>)
    ensures var c := Run(items, target, n, initial);
      c == initial ||
      (Sum(c) <= target && Above(Fitness(c, target), Fitness(initial, target)))
  {
    if n > 0 {
      var prev := Run(items, target, n - 1, initial);
      RunFeasible(items, target, n - 1, initial);
      StepImproves(items, target, prev);
      var c := Step(items, target, prev);
      if c != prev {
        AboveIsFeasible(c, target, Fitness(prev, target));
      }
    }
  }

  /** Whatever one iteration preserves holds after any number of them. */
  lemma {:induction false} RunKeeps(items: seq<int>, target: int, n: nat, initial: seq<int>,
                                    inv: seq<int> -> bool)
    requires inv(initial)
    requires forall c :: inv(c) ==> inv(Step(items, target, c))
    ensures inv(Run(items, target, n, initial))
  {
    if n > 0 {
      RunKeeps(items, target, n - 1, initial, inv);
    }
  }

  /** Values only ever come from `items`; a start drawn from `items` stays
      drawn from it (no value more often than in `items`); a start without
      repeats never gains one. */
  lemma RunValues(items: seq<int>, target: int, n: nat, initial: seq<int>)
    ensures (forall y :: y in initial ==> y in items) ==>
              forall y :: y in Run(items, target, n, initial) ==> y in items
    ensures NoDup(initial) ==> NoDup(Run(items, target, n, initial))
    ensures multiset(initial) <= multiset(items) ==>
              multiset(Run(items, target, n, initial)) <= multiset(items)
  {
    var within := (c: seq<int>) => forall y :: y in c ==> y in items;
    var distinct := (c: seq<int>) => NoDup(c);
    var drawn := (c: seq<int>) => multiset(c) <= multiset(items);
    forall c ensures (within(c) ==> within(Step(items, target, c))) &&
                     (distinct(c) ==> distinct(Step(items, target, c))) {
      StepValues(items, target, c);
    }
    forall c | drawn(c) ensures drawn(Step(items, target, c)) {
      StepDrawn(items, target, c);
    }
    if within(initial) {
      RunKeeps(items, target, n, initial, within);
    }
    if distinct(initial) {
      RunKeeps(items, target, n, initial, distinct);
    }
    if drawn(initial) {
      RunKeeps(items, target, n, initial, drawn);
    }
  }

  /** What `hill_climbing` promises of its result after any number of
      iterations from a sample of `items`: it is no less fit than the sample,
      it is the sample or a strictly fitter candidate within the target, it
      holds no value more often than `items` does (so its values are values of
      `items`, without repeats when `items` has none). */
  lemma RunSummary(items: seq<int>, target: int, n: nat, initial: seq<int>)
    requires multiset(initial) <= multiset(items)
    ensures var c := Run(items, target, n, initial);
      !Above(Fitness(initial, target), Fitness(c, target)) &&
      (c == initial || (Sum(c) <= target && Above(Fitness(c, target), Fitness(initial, target)))) &&
      multiset(c) <= multiset(items) &&
      (forall y :: y in c ==> y in items) &&
      (NoDup(items) ==> NoDup(c))
  {
    RunMonotone(items, target, 0, n, initial);
    RunFeasible(items, target, n, initial);
    RunValues(items, target, n, initial);
    forall y | y in initial ensures y in items {
      assert y in multiset(items);
    }
    if NoDup(items) {
      NoDupSubMultiset(initial, items);
    }
  }

  /** `get_neighbors`: builds the neighbour list by copying `current` once
      per item and toggling that item in the copy. */
  method GetNeighbors(current: seq<int>, items: seq<int>) returns (neighbors: seq<seq<int>>)
    ensures |neighbors| == |items|
    ensures forall i :: 0 <= i < |items| ==> neighbors[i] == Neighbor(current, items[i])
  {
    neighbors := [];
    for k := 0 to |items|
      invariant |neighbors| == k
      invariant forall i :: 0 <= i < k ==> neighbors[i] == Neighbor(current, items[i])
    {
      var item := items[k];
      var neighbor := current;
      if item in current {
        neighbor := RemoveFirst(neighbor, item);
      } else {
        neighbor := neighbor + [item];
      }
      assert neighbor == Neighbor(current, item);
      neighbors := neighbors + [neighbor];
    }
  }

  /** The inner loop of `hill_climbing`: starting from `current` and the
      best fitness so far, walks the neighbours in order and keeps each one
      whose fitness is strictly above the best so far. */
  method ChooseMove(neighbors: seq<seq<int>>, target: int, current: seq<int>, bestFitness: Score)
    returns (nextMove: seq<int>, newBest: Score)
    requires Fitness(current, target) == bestFitness
    ensures Choice(nextMove, newBest) == Scan(neighbors, target, current, bestFitness)
    ensures Fitness(nextMove, target) == newBest
    ensures !Above(bestFitness, newBest)
  {
    nextMove, newBest := current, bestFitness;
    for j := 0 to |neighbors|
      invariant Scan(neighbors[j..], target, nextMove, newBest) ==
                Scan(neighbors, target, current, bestFitness)
    {
      assert neighbors[j..][1..] == neighbors[j + 1..];
      var f := Fitness(neighbors[j], target);
      if Above(f, newBest) {
        nextMove := neighbors[j];
        newBest := f;
      }
    }
    assert neighbors[|neighbors|..] == [];
    ScanConsistent(neighbors, target, current, bestFitness);
  }

  /** `hill_climbing`, with the random initial sample given as `initial`:
      `max_iterations` rounds of scanning the neighbours and moving to the
      first strictly best one; returns the candidate and its sum. */
  method Climb(items: seq<int>, target: int, initial: seq<int>, maxIterations: int := 1000)
    returns (current: seq<int>, total: int)
    requires 1 <= |initial| && multiset(initial) <= multiset(items)
    ensures current == Run(items, target, Iterations(maxIterations), initial)
    ensures total == Sum(current)
    ensures !Above(Fitness(initial, target), Fitness(current, target))
    ensures current == initial ||
            (total <= target && Above(Fitness(current, target), Fitness(initial, target)))
    ensures multiset(current) <= multiset(items)
    ensures forall y :: y in current ==> y in items
    ensures NoDup(items) ==> NoDup(current)
  {
    current := initial;
    var bestFitness := Fitness(current, target);
    var i := 0;
    while i < maxIterations
      invariant i <= Iterations(maxIterations)
      invariant current == Run(items, target, i, initial)
      invariant bestFitness == Fitness(current, target)
    {
      var neighbors := GetNeighbors(current, items);
      NeighborsAt(current, items);
      assert neighbors == Neighbors(current, items);
      var nextMove;
      nextMove, bestFitness := ChooseMove(neighbors, target, current, bestFitness);
      assert Run(items, target, i + 1, initial) == Step(items, target, current) == nextMove;
      current := nextMove;
      i := i + 1;
    }
    assert i == Iterations(maxIterations);
    total := Sum(current);
    RunSummary(items, target, i, initial);
  }
}
