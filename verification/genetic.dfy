/**
 * The genetic search of `DeliveryOptimizer.optimize_with_genetic_algorithm`
 * (route_optimization_code.py): fitness, tournament selection, crossover,
 * mutation and the best-so-far bookkeeping.  Every random outcome is a
 * parameter; routes are values.
 */
module Genetic {
  import opened Basics
  import opened Routing

  /** A candidate solution: a list of routes. */
  type Individual = seq<seq<nat>>

  predicate RoutesValid(ind: Individual, n: nat)
  {
    forall k :: 0 <= k < |ind| ==> ValidRoute(ind[k], n)
  }

  /** Sum of the route costs of an individual. */
  function TotalCost(customers: seq<Customer>, d: seq<seq<real>>, ind: Individual): real
    requires WellFormed(customers, d) && RoutesValid(ind, |customers|)
  {
    if ind == [] then 0.0
    else TotalCost(customers, d, ind[..|ind| - 1]) + RouteCost(customers, d, ind[|ind| - 1])
  }

  lemma {:induction false} TotalCostNonNegative(customers: seq<Customer>, d: seq<seq<real>>, ind: Individual)
    requires WellFormed(customers, d) && IsDistanceMatrix(d, |d|) && RoutesValid(ind, |customers|)
    ensures TotalCost(customers, d, ind) >= 0.0
  {
    if ind != [] {
      TotalCostNonNegative(customers, d, ind[..|ind| - 1]);
      RouteCostBounds(customers, d, ind[|ind| - 1]);
    }
  }

  /** The cost summed route by route, as the generator expression in the source does. */
  method IndividualCost(customers: seq<Customer>, d: seq<seq<real>>, ind: Individual) returns (cost: real)
    requires WellFormed(customers, d) && RoutesValid(ind, |customers|)
    ensures cost == TotalCost(customers, d, ind)
  {
    cost := 0.0;
    for k := 0 to |ind|
      invariant cost == TotalCost(customers, d, ind[..k])
    {
      var c := CalculateRouteCost(customers, d, ind[k]);
      assert ind[..k + 1][..k] == ind[..k];
      cost := cost + c;
    }
    assert ind[..|ind|] == ind;
  }

  /** The reciprocal of one plus the cost: higher for cheaper individuals. */
  function Fitness(cost: real): real
    requires cost >= 0.0
  {
    1.0 / (1.0 + cost)
  }

  /** Fitness is strictly decreasing in cost, so the fittest is the cheapest. */
  lemma FitnessReversesCost(a: real, b: real)
    requires 0.0 <= a < b
    ensures Fitness(a) > Fitness(b)
    ensures Fitness(a) > 0.0
  {
    var fa, fb := Fitness(a), Fitness(b);
    assert fa * (1.0 + a) == 1.0;
    assert fb * (1.0 + b) == 1.0;
    assert fa > 0.0 && fb > 0.0;
    assert fa * (1.0 + a) < fa * (1.0 + b);
    assert fb * (1.0 + b) < fa * (1.0 + b);
  }

  // ---------------------------------------------------------------- selection

  const TournamentSize: nat := 3

  /** Three distinct population indices, as the tournament draws them. */
  predicate ValidSample(sample: seq<nat>, size: nat)
  {
    |sample| == TournamentSize &&
    (forall k :: 0 <= k < |sample| ==> sample[k] < size) &&
    (forall i, j :: 0 <= i < j < |sample| ==> sample[i] != sample[j])
  }

  /** The tournament winner: the first sampled index of greatest fitness. */
  function FirstFittest(fitness: seq<real>, sample: seq<nat>): (w: nat)
    requires |sample| > 0 && forall k :: 0 <= k < |sample| ==> sample[k] < |fitness|
    ensures w in sample
    ensures forall k :: 0 <= k < |sample| ==> fitness[sample[k]] <= fitness[w]
    ensures exists k :: (0 <= k < |sample| && sample[k] == w &&
      forall j :: 0 <= j < k ==> fitness[sample[j]] < fitness[w])
  {
    if |sample| == 1 then sample[0]
    else
      var rest := FirstFittest(fitness, sample[1..]);
      if fitness[sample[0]] >= fitness[rest] then sample[0]
      else
        assert exists k :: (0 <= k < |sample| - 1 && sample[1..][k] == rest &&
          forall j :: 0 <= j < k ==> fitness[sample[1..][j]] < fitness[rest]);
        var k :| 0 <= k < |sample| - 1 && sample[1..][k] == rest &&
          forall j :: 0 <= j < k ==> fitness[sample[1..][j]] < fitness[rest];
        assert sample[k + 1] == rest;
        rest
  }

  /** `tournament_selection` with the sampled indices given. */
  function TournamentSelection(population: seq<Individual>, fitness: seq<real>, sample: seq<nat>): Individual
    requires |fitness| == |population| && ValidSample(sample, |population|)
  {
    population[FirstFittest(fitness, sample)]
  }

  // ---------------------------------------------------------------- crossover and mutation

  const CrossoverRate: real := 0.8
  const MutationRate: real := 0.1

  /**
   * `crossover` with the random outcomes given: `roll` stands for
   * `random.random()` and `pick1`, `pick2` (taken modulo the parents'
   * lengths) for the two `random.choice` draws.
   */
  function Crossover(parent1: Individual, parent2: Individual, roll: real, pick1: nat, pick2: nat): (child: Individual)
    ensures roll < CrossoverRate && parent1 != [] && parent2 != [] ==>
      |child| == 2 && child[0] in parent1 && child[1] in parent2
    ensures !(roll < CrossoverRate && parent1 != [] && parent2 != []) ==> child == parent1
  {
    if roll < CrossoverRate && parent1 != [] && parent2 != [] then
      [parent1[pick1 % |parent1|], parent2[pick2 % |parent2|]]
    else
      parent1
  }

  /** Two distinct positions below `m`, chosen by the raw draws `a` and `b`. */
  function DistinctPair(m: nat, a: nat, b: nat): (p: (nat, nat))
    requires m >= 2
    ensures p.0 < m && p.1 < m && p.0 != p.1
  {
    var i := a % m;
    (i, (i + 1 + b % (m - 1)) % m)
  }

  /** Exchange two distinct interior stops of a route with at least two customers. */
  function SwapInterior(route: seq<nat>, a: nat, b: nat): (r: seq<nat>)
    requires |route| > 3
    ensures |r| == |route| && r[0] == route[0] && r[|r| - 1] == route[|route| - 1]
    ensures multiset(r) == multiset(route)
    ensures exists i, j :: (1 <= i < |route| - 1 && 1 <= j < |route| - 1 && i != j &&
      r == route[i := route[j]][j := route[i]])
  {
    var p := DistinctPair(|route| - 2, a, b);
    var i, j := p.0 + 1, p.1 + 1;
    route[i := route[j]][j := route[i]]
  }

  /** The draws for route k: `swaps[k]`, or (0, 0) past its end. */
  function SwapDraw(swaps: seq<(nat, nat)>, k: nat): (nat, nat)
  {
    if k < |swaps| then swaps[k] else (0, 0)
  }

  /** Stops were only exchanged: same length, same depot ends, same stops. */
  ghost predicate Rearranged(r: seq<nat>, route: seq<nat>)
  {
    |r| == |route| && multiset(r) == multiset(route) &&
    (|route| > 0 ==> r[0] == route[0] && r[|r| - 1] == route[|route| - 1])
  }

  /** `r` is `route` with two distinct interior stops exchanged. */
  ghost predicate InteriorSwapped(r: seq<nat>, route: seq<nat>)
  {
    exists i, j :: 1 <= i < |route| - 1 && 1 <= j < |route| - 1 && i != j &&
      r == route[i := route[j]][j := route[i]]
  }

  /**
   * `mutate` with the random outcomes given: when `roll` is below the
   * mutation rate, every route with more than three stops has two interior
   * stops exchanged; otherwise nothing changes.
   */
  function Mutate(ind: Individual, roll: real, swaps: seq<(nat, nat)>): (r: Individual)
    ensures |r| == |ind|
    ensures forall k :: 0 <= k < |ind| ==> Rearranged(r[k], ind[k])
    ensures forall k :: 0 <= k < |ind| && |ind[k]| <= 3 ==> r[k] == ind[k]
    ensures roll < MutationRate ==> forall k :: 0 <= k < |ind| && |ind[k]| > 3 ==> InteriorSwapped(r[k], ind[k])
    ensures roll >= MutationRate ==> r == ind
  {
    seq(|ind|, k requires 0 <= k < |ind| =>
      if roll < MutationRate && |ind[k]| > 3 then SwapInterior(ind[k], SwapDraw(swaps, k).0, SwapDraw(swaps, k).1)
      else ind[k])
  }

  /** Mutation keeps every customer exactly as often as before across the whole individual. */
  lemma {:induction false} MutateKeepsCustomers(ind: Individual, roll: real, swaps: seq<(nat, nat)>)
    ensures multiset(Visited(Mutate(ind, roll, swaps))) == multiset(Visited(ind))
  {
    var r := Mutate(ind, roll, swaps);
    if ind != [] {
      var m := |ind| - 1;
      MutateKeepsCustomers(ind[..m], roll, swaps);
      assert Mutate(ind[..m], roll, swaps) == r[..m];
      InteriorRearranged(r[m], ind[m]);
    }
  }

  lemma InteriorRearranged(r: seq<nat>, route: seq<nat>)
    requires Rearranged(r, route)
    ensures multiset(Interior(r)) == multiset(Interior(route))
  {
    if |route| >= 2 {
      assert r == [r[0]] + Interior(r) + [r[|r| - 1]];
      assert route == [route[0]] + Interior(route) + [route[|route| - 1]];
      assert multiset(r) == multiset{r[0]} + multiset(Interior(r)) + multiset{r[|r| - 1]};
      assert multiset(route) == multiset{r[0]} + multiset(Interior(route)) + multiset{r[|r| - 1]};
      forall x ensures multiset(Interior(r))[x] == multiset(Interior(route))[x] {
        assert multiset(r)[x] == multiset(route)[x];
      }
    }
  }

  /**
   * Crossover does not keep the customers: taking one route from each parent
   * can repeat a customer and drop others.
   */
  lemma CrossoverMayRepeatCustomers()
    ensures var parent := [[0, 1, 0], [0, 2, 0]];
      Visited(Crossover(parent, parent, 0.5, 0, 0)) == [1, 1]
  {
    var parent: Individual := [[0, 1, 0], [0, 2, 0]];
    var child := Crossover(parent, parent, 0.5, 0, 0);
    assert child == [[0, 1, 0]] + [[0, 1, 0]];
    assert Interior([0, 1, 0]) == [1];
    VisitedAppend([], [0, 1, 0]);
    assert [] + [[0, 1, 0]] == [[0, 1, 0]];
    VisitedAppend([[0, 1, 0]], [0, 1, 0]);
  }

  // ---------------------------------------------------------------- one generation

  /** The random outcomes used to breed one child. */
  datatype ChildDraws = ChildDraws(
    sample1: seq<nat>, sample2: seq<nat>,
    crossoverRoll: real, pick1: nat, pick2: nat,
    mutationRoll: real, swaps: seq<(nat, nat)>)

  predicate ValidDraws(draws: ChildDraws, size: nat)
  {
    ValidSample(draws.sample1, size) && ValidSample(draws.sample2, size)
  }

  /** Two tournament winners, crossed over, then mutated. */
  function Child(population: seq<Individual>, fitness: seq<real>, draws: ChildDraws): Individual
    requires |fitness| == |population| && ValidDraws(draws, |population|)
  {
    var parent1 := TournamentSelection(population, fitness, draws.sample1);
    var parent2 := TournamentSelection(population, fitness, draws.sample2);
    Mutate(Crossover(parent1, parent2, draws.crossoverRoll, draws.pick1, draws.pick2),
           draws.mutationRoll, draws.swaps)
  }

  /** Every route of a child is a rearrangement of some route of some member of the population. */
  lemma ChildRoutesComeFromPopulation(population: seq<Individual>, fitness: seq<real>, draws: ChildDraws)
    requires |fitness| == |population| && ValidDraws(draws, |population|)
    ensures forall k :: 0 <= k < |Child(population, fitness, draws)| ==>
      exists p, q :: (0 <= p < |population| && 0 <= q < |population[p]| &&
        Rearranged(Child(population, fitness, draws)[k], population[p][q]))
  {
    var w1 := FirstFittest(fitness, draws.sample1);
    var w2 := FirstFittest(fitness, draws.sample2);
    var parent1, parent2 := population[w1], population[w2];
    var crossed := Crossover(parent1, parent2, draws.crossoverRoll, draws.pick1, draws.pick2);
    var child := Child(population, fitness, draws);
    forall k | 0 <= k < |child|
      ensures exists p, q :: (0 <= p < |population| && 0 <= q < |population[p]| &&
        Rearranged(child[k], population[p][q]))
    {
      assert Rearranged(child[k], crossed[k]);
      if draws.crossoverRoll < CrossoverRate && parent1 != [] && parent2 != [] {
        if k == 0 {
          var q :| 0 <= q < |parent1| && parent1[q] == crossed[0];
          assert Rearranged(child[k], population[w1][q]);
        } else {
          var q :| 0 <= q < |parent2| && parent2[q] == crossed[1];
          assert Rearranged(child[k], population[w2][q]);
        }
      } else {
        assert Rearranged(child[k], population[w1][k]);
      }
    }
  }

  lemma RearrangedValid(r: seq<nat>, route: seq<nat>, n: nat)
    requires Rearranged(r, route) && ValidRoute(route, n)
    ensures ValidRoute(r, n)
  {
    forall k | 0 <= k < |r| ensures r[k] <= n {
      assert r[k] in multiset(route);
    }
  }

  lemma ChildValid(population: seq<Individual>, fitness: seq<real>, draws: ChildDraws, n: nat)
    requires |fitness| == |population| && ValidDraws(draws, |population|)
    requires forall p :: 0 <= p < |population| ==> RoutesValid(population[p], n)
    ensures RoutesValid(Child(population, fitness, draws), n)
  {
    var child := Child(population, fitness, draws);
    ChildRoutesComeFromPopulation(population, fitness, draws);
    forall k | 0 <= k < |child| ensures ValidRoute(child[k], n) {
      var p, q :| 0 <= p < |population| && 0 <= q < |population[p]| && Rearranged(child[k], population[p][q]);
      RearrangedValid(child[k], population[p][q], n);
    }
  }

  /** The best individual found so far and its cost; `NoBest` stands for a best cost of infinity. */
  datatype Best = NoBest | Best(solution: Individual, cost: real)

  /** `next` is no worse than `prev`: once a best exists, its cost never rises. */
  predicate NoWorse(next: Best, prev: Best)
  {
    prev.Best? ==> next.Best? && next.cost <= prev.cost
  }

  /** The recorded cost is the true cost of the recorded solution. */
  ghost predicate Consistent(customers: seq<Customer>, d: seq<seq<real>>, best: Best)
    requires WellFormed(customers, d)
  {
    best.Best? ==> RoutesValid(best.solution, |customers|) && best.cost == TotalCost(customers, d, best.solution)
  }

  /**
   * The evaluation loop of one generation: the fitness of every individual,
   * and the best-so-far, replaced only by an individual of strictly smaller
   * total cost.
   */
  method EvaluatePopulation(customers: seq<Customer>, d: seq<seq<real>>, population: seq<Individual>, best: Best)
    returns (fitness: seq<real>, newBest: Best)
    requires WellFormed(customers, d) && IsDistanceMatrix(d, |d|)
    requires forall p :: 0 <= p < |population| ==> RoutesValid(population[p], |customers|)
    requires Consistent(customers, d, best)
    ensures |fitness| == |population|
    ensures forall p :: 0 <= p < |population| ==>
      TotalCost(customers, d, population[p]) >= 0.0 &&
      fitness[p] == Fitness(TotalCost(customers, d, population[p]))
    ensures Consistent(customers, d, newBest) && NoWorse(newBest, best)
    ensures newBest != best ==> newBest.solution in population && (best.Best? ==> newBest.cost < best.cost)
    ensures newBest != best ==> exists p :: 0 <= p < |population| && FirstCheapestAt(customers, d, population, p, newBest)
    ensures population != [] ==> newBest.Best?
    ensures newBest.Best? ==> forall p :: 0 <= p < |population| ==> newBest.cost <= TotalCost(customers, d, population[p])
  {
    fitness := [];
    newBest := best;
    for p := 0 to |population|
      invariant Evaluated(customers, d, population, p, fitness)
      invariant Tracked(customers, d, population, p, best, newBest)
    {
      var totalCost := IndividualCost(customers, d, population[p]);
      TotalCostNonNegative(customers, d, population[p]);
      EvaluatedStep(customers, d, population, p, fitness);
      fitness := fitness + [Fitness(totalCost)];
      ghost var previous := newBest;
      if newBest.NoBest? || totalCost < newBest.cost {
        newBest := Best(population[p], totalCost);
      }
      TrackedStep(customers, d, population, p, best, previous, newBest);
    }
  }

  /**
   * `b` is member p of the population, and every member before p costs
   * strictly more: with the strict `<`, a tie keeps the earliest member.
   */
  ghost predicate FirstCheapestAt(customers: seq<Customer>, d: seq<seq<real>>, population: seq<Individual>, p: nat, b: Best)
    requires WellFormed(customers, d)
    requires forall q :: 0 <= q < |population| ==> RoutesValid(population[q], |customers|)
  {
    p < |population| && b.Best? && b.solution == population[p] &&
    forall q :: 0 <= q < p ==> TotalCost(customers, d, population[q]) > b.cost
  }

  /** The fitness of the first p individuals is recorded. */
  ghost predicate Evaluated(customers: seq<Customer>, d: seq<seq<real>>, population: seq<Individual>, p: nat, fitness: seq<real>)
    requires WellFormed(customers, d) && p <= |population|
    requires forall q :: 0 <= q < |population| ==> RoutesValid(population[q], |customers|)
  {
    |fitness| == p &&
    forall q :: 0 <= q < p ==>
      TotalCost(customers, d, population[q]) >= 0.0 &&
      fitness[q] == Fitness(TotalCost(customers, d, population[q]))
  }

  lemma EvaluatedStep(customers: seq<Customer>, d: seq<seq<real>>, population: seq<Individual>, p: nat, fitness: seq<real>)
    requires WellFormed(customers, d) && p < |population|
    requires forall q :: 0 <= q < |population| ==> RoutesValid(population[q], |customers|)
    requires Evaluated(customers, d, population, p, fitness)
    requires TotalCost(customers, d, population[p]) >= 0.0
    ensures Evaluated(customers, d, population, p + 1, fitness + [Fitness(TotalCost(customers, d, population[p]))])
  {
    var next := fitness + [Fitness(TotalCost(customers, d, population[p]))];
    forall q | 0 <= q < p + 1
      ensures next[q] == Fitness(TotalCost(customers, d, population[q]))
    {
      if q < p {
        assert next[q] == fitness[q];
      }
    }
  }

  /** The best so far after the first p individuals: consistent, no worse, and no dearer than any of them. */
  ghost predicate Tracked(customers: seq<Customer>, d: seq<seq<real>>, population: seq<Individual>, p: nat, best: Best, newBest: Best)
    requires WellFormed(customers, d) && p <= |population|
    requires forall q :: 0 <= q < |population| ==> RoutesValid(population[q], |customers|)
  {
    Consistent(customers, d, newBest) && NoWorse(newBest, best) &&
    (newBest != best ==> newBest.solution in population && (best.Best? ==> newBest.cost < best.cost)) &&
    (newBest != best ==> exists q :: 0 <= q < p && FirstCheapestAt(customers, d, population, q, newBest)) &&
    (p > 0 ==> newBest.Best?) &&
    (newBest.Best? ==> forall q :: 0 <= q < p ==> newBest.cost <= TotalCost(customers, d, population[q]))
  }

  lemma TrackedStep(customers: seq<Customer>, d: seq<seq<real>>, population: seq<Individual>, p: nat,
                    best: Best, previous: Best, newBest: Best)
    requires WellFormed(customers, d) && p < |population|
    requires forall q :: 0 <= q < |population| ==> RoutesValid(population[q], |customers|)
    requires Tracked(customers, d, population, p, best, previous)
    requires var c := TotalCost(customers, d, population[p]);
      newBest == if previous.NoBest? || c < previous.cost then Best(population[p], c) else previous
    ensures Tracked(customers, d, population, p + 1, best, newBest)
  {
    var c := TotalCost(customers, d, population[p]);
    if previous.NoBest? || c < previous.cost {
      assert FirstCheapestAt(customers, d, population, p, newBest);
    } else if previous != best {
      var q :| 0 <= q < p && FirstCheapestAt(customers, d, population, q, previous);
      assert 0 <= q < p + 1 && FirstCheapestAt(customers, d, population, q, newBest);
    }
  }

  /** The breeding loop of one generation: one child per set of draws. */
  method Breed(population: seq<Individual>, fitness: seq<real>, draws: seq<ChildDraws>)
    returns (next: seq<Individual>)
    requires |fitness| == |population|
    requires forall k :: 0 <= k < |draws| ==> ValidDraws(draws[k], |population|)
    ensures |next| == |draws|
    ensures forall k :: 0 <= k < |draws| ==> next[k] == Child(population, fitness, draws[k])
  {
    next := [];
    for k := 0 to |draws|
      invariant |next| == k
      invariant forall j :: 0 <= j < k ==> next[j] == Child(population, fitness, draws[j])
    {
      var parent1 := TournamentSelection(population, fitness, draws[k].sample1);
      var parent2 := TournamentSelection(population, fitness, draws[k].sample2);
      var child := Crossover(parent1, parent2, draws[k].crossoverRoll, draws[k].pick1, draws[k].pick2);
      child := Mutate(child, draws[k].mutationRoll, draws[k].swaps);
      assert child == Child(population, fitness, draws[k]);
      next := next + [child];
    }
  }

  /** The fitness `1 / (1 + cost)` of every member of a population. */
  function Fitnesses(customers: seq<Customer>, d: seq<seq<real>>, population: seq<Individual>): (f: seq<real>)
    requires WellFormed(customers, d) && IsDistanceMatrix(d, |d|) && AllValid(population, |customers|)
    ensures |f| == |population|
  {
    seq(|population|, p requires 0 <= p < |population| =>
      TotalCostNonNegative(customers, d, population[p]);
      Fitness(TotalCost(customers, d, population[p])))
  }

  /** `children` is the population bred from `parents`: one child per set of draws. */
  ghost predicate BredFrom(customers: seq<Customer>, d: seq<seq<real>>, parents: seq<Individual>,
                           draws: seq<ChildDraws>, children: seq<Individual>)
    requires WellFormed(customers, d) && IsDistanceMatrix(d, |d|) && AllValid(parents, |customers|)
    requires forall k :: 0 <= k < |draws| ==> ValidDraws(draws[k], |parents|)
  {
    |children| == |draws| &&
    forall k :: 0 <= k < |draws| ==> children[k] == Child(parents, Fitnesses(customers, d, parents), draws[k])
  }

  /** A population of `n` copies of the same routes, the initial population. */
  function Copies(routes: seq<seq<nat>>, n: nat): (p: seq<Individual>)
    ensures |p| == n && forall k :: 0 <= k < n ==> p[k] == routes
  {
    seq(n, _ => routes)
  }

  /** All draws are valid for a population of the given size. */
  predicate DrawsFor(draws: seq<seq<ChildDraws>>, populationSize: nat)
  {
    forall g, k :: 0 <= g < |draws| && 0 <= k < |draws[g]| ==> ValidDraws(draws[g][k], populationSize)
  }

  /**
   * The populations evaluated in generations `0 .. |evaluated| - 1`: each of
   * the given size with valid routes, and each bred from the one before it
   * with that generation's draws.
   */
  ghost predicate GenerationsBred(customers: seq<Customer>, d: seq<seq<real>>, populationSize: nat,
                                  evaluated: seq<seq<Individual>>, draws: seq<seq<ChildDraws>>)
    requires WellFormed(customers, d) && IsDistanceMatrix(d, |d|)
    requires |evaluated| <= |draws| + 1 && DrawsFor(draws, populationSize)
  {
    (forall g :: 0 <= g < |evaluated| ==> |evaluated[g]| == populationSize && AllValid(evaluated[g], |customers|)) &&
    forall g :: 0 <= g < |evaluated| - 1 ==> BredFrom(customers, d, evaluated[g], draws[g], evaluated[g + 1])
  }

  /**
   * `best` is the cheapest individual evaluated so far: a member of some
   * evaluated population, no dearer than any member of any of them, and
   * missing only while every population was empty.
   */
  ghost predicate BestOfAll(customers: seq<Customer>, d: seq<seq<real>>, evaluated: seq<seq<Individual>>, best: Best)
    requires WellFormed(customers, d)
    requires forall g :: 0 <= g < |evaluated| ==> AllValid(evaluated[g], |customers|)
  {
    (best.NoBest? ==> forall g :: 0 <= g < |evaluated| ==> evaluated[g] == []) &&
    (best.Best? ==> exists g, p :: 0 <= g < |evaluated| && 0 <= p < |evaluated[g]| && best.solution == evaluated[g][p]) &&
    (best.Best? ==> forall g, p :: 0 <= g < |evaluated| && 0 <= p < |evaluated[g]| ==>
      assert AllValid(evaluated[g], |customers|);
      best.cost <= TotalCost(customers, d, evaluated[g][p]))
  }

  /** The routes of `nearest_neighbor_heuristic` when it ends: feasible, greedy, every customer once. */
  ghost predicate NearestNeighborPlan(customers: seq<Customer>, capacity: int, d: seq<seq<real>>, routes: seq<seq<nat>>)
    requires WellFormed(customers, d)
  {
    (forall r :: r in routes ==> FeasibleRoute(customers, capacity, d, r)) &&
    multiset(Visited(routes)) == multiset(Ids(|customers|)) &&
    forall i :: 0 <= i < |routes| ==> GreedyRouteAt(customers, capacity, d, routes, i)
  }

  /**
   * `optimize_with_genetic_algorithm` with the matrix already built and every
   * random outcome given (`draws[g]` for generation g).  The initial
   * population is `populationSize` copies of the nearest-neighbour routes
   * `initial`; `evaluated[g]` is the population evaluated in generation g and
   * `bestHistory[g]` the best-so-far after it.
   */
  method OptimizeWithGeneticAlgorithm(customers: seq<Customer>, capacity: int, d: seq<seq<real>>,
                                      generations: nat, populationSize: nat, draws: seq<seq<ChildDraws>>)
    returns (best: Best, ghost bestHistory: seq<Best>, ghost initial: seq<seq<nat>>, ghost evaluated: seq<seq<Individual>>)
    requires WellFormed(customers, d) && IsDistanceMatrix(d, |d|)
    requires populationSize > 0 ==> forall c :: 1 <= c <= |customers| ==> FeasibleFromDepot(customers, capacity, d, c)
    requires |draws| == generations
    requires forall g :: 0 <= g < generations ==> |draws[g]| == populationSize
    requires DrawsFor(draws, populationSize)
    ensures populationSize > 0 ==> NearestNeighborPlan(customers, capacity, d, initial)
    ensures |evaluated| == generations && GenerationsBred(customers, d, populationSize, evaluated, draws)
    ensures generations > 0 ==> evaluated[0] == Copies(initial, populationSize)
    ensures BestOfAll(customers, d, evaluated, best)
    ensures Consistent(customers, d, best)
    ensures generations > 0 && populationSize > 0 ==> best.Best?
    ensures |bestHistory| == generations
    ensures NeverWorse(bestHistory)
    ensures generations > 0 ==> best == bestHistory[generations - 1]
  {
    var routes: seq<seq<nat>> := [];
    if populationSize > 0 {
      var stalled;
      routes, stalled := NearestNeighborHeuristic(customers, capacity, d);
      FeasibleRoutesValid(customers, capacity, d, routes);
    }
    initial := routes;
    best, bestHistory, evaluated := Evolve(customers, d, generations, populationSize, draws, routes);
  }

  /**
   * The generation loop of `optimize_with_genetic_algorithm`, started from
   * `populationSize` copies of `initial`: evaluate, keep the best, breed.
   */
  method Evolve(customers: seq<Customer>, d: seq<seq<real>>, generations: nat, populationSize: nat,
                draws: seq<seq<ChildDraws>>, initial: seq<seq<nat>>)
    returns (best: Best, ghost bestHistory: seq<Best>, ghost evaluated: seq<seq<Individual>>)
    requires WellFormed(customers, d) && IsDistanceMatrix(d, |d|) && RoutesValid(initial, |customers|)
    requires |draws| == generations
    requires forall g :: 0 <= g < generations ==> |draws[g]| == populationSize
    requires DrawsFor(draws, populationSize)
    ensures |evaluated| == generations && GenerationsBred(customers, d, populationSize, evaluated, draws)
    ensures generations > 0 ==> evaluated[0] == Copies(initial, populationSize)
    ensures BestOfAll(customers, d, evaluated, best)
    ensures Consistent(customers, d, best)
    ensures generations > 0 && populationSize > 0 ==> best.Best?
    ensures |bestHistory| == generations
    ensures NeverWorse(bestHistory)
    ensures generations > 0 ==> best == bestHistory[generations - 1]
  {
    var population: seq<Individual> := Copies(initial, populationSize);
    best := NoBest;
    bestHistory, evaluated := [], [];
    StartSearch(customers, d, populationSize, draws, initial);
    for g := 0 to generations
      invariant Breeding(customers, d, populationSize, draws, initial, g, population, evaluated)
      invariant BestKept(customers, d, populationSize, evaluated, best, bestHistory)
    {
      var newBest, next := RunGeneration(customers, d, populationSize, draws, initial, g, population, best,
                                         evaluated, bestHistory);
      best, bestHistory, evaluated := newBest, bestHistory + [newBest], evaluated + [population];
      population := next;
    }
    GenerationsBredPrefix(customers, d, populationSize, evaluated, population, draws);
  }

  /**
   * One pass of the generation loop: evaluate `population` against the best
   * so far, then breed the next population with generation g's draws.
   */
  method RunGeneration(customers: seq<Customer>, d: seq<seq<real>>, populationSize: nat, draws: seq<seq<ChildDraws>>,
                       ghost initial: seq<seq<nat>>, g: nat, population: seq<Individual>, best: Best,
                       ghost evaluated: seq<seq<Individual>>, ghost bestHistory: seq<Best>)
    returns (newBest: Best, next: seq<Individual>)
    requires WellFormed(customers, d) && IsDistanceMatrix(d, |d|)
    requires g < |draws| && DrawsFor(draws, populationSize) && |draws[g]| == populationSize
    requires Breeding(customers, d, populationSize, draws, initial, g, population, evaluated)
    requires BestKept(customers, d, populationSize, evaluated, best, bestHistory)
    ensures Breeding(customers, d, populationSize, draws, initial, g + 1, next, evaluated + [population])
    ensures forall h :: 0 <= h < |evaluated| + 1 ==> AllValid((evaluated + [population])[h], |customers|)
    ensures BestKept(customers, d, populationSize, evaluated + [population], newBest, bestHistory + [newBest])
  {
    var fitness;
    fitness, newBest := EvaluatePopulation(customers, d, population, best);
    next := Breed(population, fitness, draws[g]);
    BreedingStep(customers, d, populationSize, draws, initial, g, population, evaluated, fitness, next);
    BestKeptStep(customers, d, populationSize, evaluated, best, bestHistory, population, newBest);
  }

  /**
   * The populations after g generations: the current one is the initial
   * population or bred from the last evaluated one, and every evaluated
   * population was bred from the one before it.
   */
  ghost predicate Breeding(customers: seq<Customer>, d: seq<seq<real>>, populationSize: nat, draws: seq<seq<ChildDraws>>,
                           initial: seq<seq<nat>>, g: nat, population: seq<Individual>, evaluated: seq<seq<Individual>>)
    requires WellFormed(customers, d) && IsDistanceMatrix(d, |d|)
    requires g <= |draws| && DrawsFor(draws, populationSize)
  {
    |population| == populationSize && AllValid(population, |customers|) &&
    |evaluated| == g && (forall h :: 0 <= h < g ==> AllValid(evaluated[h], |customers|)) &&
    GenerationsBred(customers, d, populationSize, evaluated + [population], draws) &&
    (evaluated + [population])[0] == Copies(initial, populationSize)
  }

  /**
   * The best after the evaluated populations: the cheapest of them all,
   * present once a non-empty population was evaluated, and recorded after
   * each generation in a history that never gets worse.
   */
  ghost predicate BestKept(customers: seq<Customer>, d: seq<seq<real>>, populationSize: nat,
                           evaluated: seq<seq<Individual>>, best: Best, bestHistory: seq<Best>)
    requires WellFormed(customers, d)
    requires forall h :: 0 <= h < |evaluated| ==> AllValid(evaluated[h], |customers|)
  {
    BestOfAll(customers, d, evaluated, best) && Consistent(customers, d, best) &&
    (|evaluated| > 0 && populationSize > 0 ==> best.Best?) &&
    |bestHistory| == |evaluated| && NeverWorse(bestHistory) &&
    (|evaluated| > 0 ==> best == bestHistory[|evaluated| - 1])
  }

  /** Before the first generation: the initial population, nothing evaluated, no best. */
  lemma StartSearch(customers: seq<Customer>, d: seq<seq<real>>, populationSize: nat, draws: seq<seq<ChildDraws>>,
                    initial: seq<seq<nat>>)
    requires WellFormed(customers, d) && IsDistanceMatrix(d, |d|) && DrawsFor(draws, populationSize)
    requires RoutesValid(initial, |customers|)
    ensures Breeding(customers, d, populationSize, draws, initial, 0, Copies(initial, populationSize), [])
    ensures BestKept(customers, d, populationSize, [], NoBest, [])
  {
  }

  /** Breeding one generation from the evaluated population keeps `Breeding`. */
  lemma BreedingStep(customers: seq<Customer>, d: seq<seq<real>>, populationSize: nat, draws: seq<seq<ChildDraws>>,
                     initial: seq<seq<nat>>, g: nat, population: seq<Individual>, evaluated: seq<seq<Individual>>,
                     fitness: seq<real>, next: seq<Individual>)
    requires WellFormed(customers, d) && IsDistanceMatrix(d, |d|)
    requires g < |draws| && DrawsFor(draws, populationSize) && |draws[g]| == populationSize
    requires Breeding(customers, d, populationSize, draws, initial, g, population, evaluated)
    requires |fitness| == |population|
    requires forall p :: 0 <= p < |population| ==>
      TotalCost(customers, d, population[p]) >= 0.0 &&
      fitness[p] == Fitness(TotalCost(customers, d, population[p]))
    requires |next| == |draws[g]| && forall k :: 0 <= k < |draws[g]| ==> next[k] == Child(population, fitness, draws[g][k])
    ensures Breeding(customers, d, populationSize, draws, initial, g + 1, next, evaluated + [population])
  {
    var e := evaluated + [population];
    assert e[g] == population;
    FitnessesAre(customers, d, population, fitness);
    BredValid(population, fitness, draws[g], next, |customers|);
    GenerationsBredExtend(customers, d, populationSize, e, draws, next);
    assert (e + [next])[0] == e[0];
  }

  /** Evaluating one more population keeps `BestKept`. */
  lemma BestKeptStep(customers: seq<Customer>, d: seq<seq<real>>, populationSize: nat, evaluated: seq<seq<Individual>>,
                     best: Best, bestHistory: seq<Best>, population: seq<Individual>, newBest: Best)
    requires WellFormed(customers, d)
    requires forall h :: 0 <= h < |evaluated| ==> AllValid(evaluated[h], |customers|)
    requires |population| == populationSize && AllValid(population, |customers|)
    requires BestKept(customers, d, populationSize, evaluated, best, bestHistory)
    requires Consistent(customers, d, newBest) && NoWorse(newBest, best)
    requires newBest != best ==> newBest.solution in population
    requires population != [] ==> newBest.Best?
    requires newBest.Best? ==> forall p :: 0 <= p < |population| ==> newBest.cost <= TotalCost(customers, d, population[p])
    ensures forall h :: 0 <= h < |evaluated| + 1 ==> AllValid((evaluated + [population])[h], |customers|)
    ensures BestKept(customers, d, populationSize, evaluated + [population], newBest, bestHistory + [newBest])
  {
    BestOfAllExtend(customers, d, evaluated, population, best, newBest);
    HistoryExtend(bestHistory, newBest);
  }

  /** A fitness list computed member by member is `Fitnesses`. */
  lemma FitnessesAre(customers: seq<Customer>, d: seq<seq<real>>, population: seq<Individual>, fitness: seq<real>)
    requires WellFormed(customers, d) && IsDistanceMatrix(d, |d|) && AllValid(population, |customers|)
    requires |fitness| == |population|
    requires forall p :: 0 <= p < |population| ==>
      TotalCost(customers, d, population[p]) >= 0.0 &&
      fitness[p] == Fitness(TotalCost(customers, d, population[p]))
    ensures fitness == Fitnesses(customers, d, population)
  {
  }

  /** Evaluating one more population keeps the best the cheapest of all evaluated so far. */
  lemma BestOfAllExtend(customers: seq<Customer>, d: seq<seq<real>>, evaluated: seq<seq<Individual>>,
                        population: seq<Individual>, best: Best, newBest: Best)
    requires WellFormed(customers, d)
    requires forall g :: 0 <= g < |evaluated| ==> AllValid(evaluated[g], |customers|)
    requires AllValid(population, |customers|)
    requires BestOfAll(customers, d, evaluated, best)
    requires NoWorse(newBest, best)
    requires newBest != best ==> newBest.solution in population
    requires population != [] ==> newBest.Best?
    requires newBest.Best? ==> forall p :: 0 <= p < |population| ==> newBest.cost <= TotalCost(customers, d, population[p])
    ensures BestOfAll(customers, d, evaluated + [population], newBest)
  {
    var e := evaluated + [population];
    var n := |evaluated|;
    assert e[n] == population;
    forall g | 0 <= g < n ensures e[g] == evaluated[g] {
    }
    if newBest.Best? {
      if newBest == best {
        var g, p :| 0 <= g < n && 0 <= p < |evaluated[g]| && best.solution == evaluated[g][p];
        assert newBest.solution == e[g][p];
      } else {
        var p :| 0 <= p < |population| && population[p] == newBest.solution;
        assert newBest.solution == e[n][p];
      }
      forall g, p | 0 <= g < |e| && 0 <= p < |e[g]| ensures newBest.cost <= TotalCost(customers, d, e[g][p]) {
        if g < n && best.Best? {
          assert best.cost <= TotalCost(customers, d, evaluated[g][p]);
        }
      }
    }
  }

  /** A population bred from the last of the bred generations extends them. */
  lemma GenerationsBredExtend(customers: seq<Customer>, d: seq<seq<real>>, populationSize: nat,
                              generations: seq<seq<Individual>>, draws: seq<seq<ChildDraws>>, next: seq<Individual>)
    requires WellFormed(customers, d) && IsDistanceMatrix(d, |d|)
    requires 0 < |generations| <= |draws| && DrawsFor(draws, populationSize)
    requires GenerationsBred(customers, d, populationSize, generations, draws)
    requires |next| == populationSize && AllValid(next, |customers|)
    requires BredFrom(customers, d, generations[|generations| - 1], draws[|generations| - 1], next)
    ensures GenerationsBred(customers, d, populationSize, generations + [next], draws)
  {
    var e := generations + [next];
    forall g | 0 <= g < |e| - 1 ensures BredFrom(customers, d, e[g], draws[g], e[g + 1]) {
      assert e[g] == generations[g];
    }
  }

  /** Dropping the last of the bred generations leaves bred generations. */
  lemma GenerationsBredPrefix(customers: seq<Customer>, d: seq<seq<real>>, populationSize: nat,
                              evaluated: seq<seq<Individual>>, population: seq<Individual>, draws: seq<seq<ChildDraws>>)
    requires WellFormed(customers, d) && IsDistanceMatrix(d, |d|)
    requires |evaluated| <= |draws| && DrawsFor(draws, populationSize)
    requires GenerationsBred(customers, d, populationSize, evaluated + [population], draws)
    ensures GenerationsBred(customers, d, populationSize, evaluated, draws)
  {
    var e := evaluated + [population];
    assert forall g :: 0 <= g < |evaluated| ==> e[g] == evaluated[g];
  }

  /** Every individual of the population has only valid routes. */
  predicate AllValid(population: seq<Individual>, n: nat)
  {
    forall p :: 0 <= p < |population| ==> RoutesValid(population[p], n)
  }

  /** Each recorded best is no worse than every earlier one. */
  predicate NeverWorse(history: seq<Best>)
  {
    forall g, h :: 0 <= g < h < |history| ==> NoWorse(history[h], history[g])
  }

  /** Appending a best that is no worse than the last keeps the history never worse. */
  lemma HistoryExtend(history: seq<Best>, next: Best)
    requires NeverWorse(history)
    requires history != [] ==> NoWorse(next, history[|history| - 1])
    ensures NeverWorse(history + [next])
  {
    var h := history + [next];
    forall i, j | 0 <= i < j < |h| ensures NoWorse(h[j], h[i]) {
      if j == |history| && i < |history| - 1 {
        assert NoWorse(history[|history| - 1], history[i]);
      }
    }
  }

  /** The feasible routes of the nearest-neighbour plan are valid routes. */
  lemma FeasibleRoutesValid(customers: seq<Customer>, capacity: int, d: seq<seq<real>>, routes: seq<seq<nat>>)
    requires WellFormed(customers, d)
    requires forall r :: r in routes ==> FeasibleRoute(customers, capacity, d, r)
    ensures RoutesValid(routes, |customers|)
  {
    forall k | 0 <= k < |routes| ensures ValidRoute(routes[k], |customers|) {
      assert FeasibleRoute(customers, capacity, d, routes[k]);
      var r := routes[k];
      assert r == [0] + Interior(r) + [0];
    }
  }

  /** Children bred from a valid population are valid. */
  lemma BredValid(population: seq<Individual>, fitness: seq<real>, draws: seq<ChildDraws>, next: seq<Individual>, n: nat)
    requires |fitness| == |population| && AllValid(population, n)
    requires forall k :: 0 <= k < |draws| ==> ValidDraws(draws[k], |population|)
    requires |next| == |draws|
    requires forall k :: 0 <= k < |draws| ==> next[k] == Child(population, fitness, draws[k])
    ensures AllValid(next, n)
  {
    forall k | 0 <= k < |next| ensures RoutesValid(next[k], n) {
      ChildValid(population, fitness, draws[k], n);
    }
  }

  // ---------------------------------------------------------------- shared route lists, as written

  /** The in-place exchange of two stops of a route held as a mutable list. */
  method SwapInPlace(route: array<nat>, i: nat, j: nat)
    requires i < route.Length && j < route.Length
    modifies route
    ensures route[..] == old(route[..])[i := old(route[j])][j := old(route[i])]
  {
    route[i], route[j] := route[j], route[i];
  }

  /**
   * As written, recording the best solution copies only its outer list, and
   * `crossover` hands on the parents' route lists themselves, so a
   * later in-place mutation of a child also rearranges the recorded best
   * solution while `best_cost` still holds the cost of the old stop order.
   * One individual with one route of three customers shows it: with the
   * customers on a line, the recorded route's cost moves from 6 to 8.
   */
  method SharedRouteWitness() returns (recordedBefore: seq<nat>, recordedAfter: seq<nat>)
    ensures recordedBefore == [0, 1, 2, 3, 0]
    ensures recordedAfter == [0, 2, 1, 3, 0]
    ensures RouteCost(LineCustomers(), LineDistances(), recordedAfter) !=
            RouteCost(LineCustomers(), LineDistances(), recordedBefore)
  {
    LineCosts();
    var route := new nat[5];
    route[0], route[1], route[2], route[3], route[4] := 0, 1, 2, 3, 0;
    var individual := [route];
    // the recorded best: a new outer list holding the same route object
    var bestSolution := individual;
    recordedBefore := bestSolution[0][..];
    // the child of crossover: again a new outer list over the parents' route objects
    var child := [individual[0]];
    // mutation exchanges two interior stops of the child's route in place
    SwapInPlace(child[0], 1, 2);
    recordedAfter := bestSolution[0][..];
  }

  /** Three customers at 1, 2 and 3 units from the depot along a line, with wide time windows. */
  function LineCustomers(): seq<Customer>
  {
    [Customer(Location(1.0, 0.0), 0, 1000, 0, 1),
     Customer(Location(2.0, 0.0), 0, 1000, 0, 1),
     Customer(Location(3.0, 0.0), 0, 1000, 0, 1)]
  }

  function LineDistances(): seq<seq<real>>
  {
    [[0.0, 1.0, 2.0, 3.0], [1.0, 0.0, 1.0, 2.0], [2.0, 1.0, 0.0, 1.0], [3.0, 2.0, 1.0, 0.0]]
  }

  /** Visiting the line in order costs 6; exchanging the first two stops costs 8. */
  lemma LineCosts()
    ensures RouteCost(LineCustomers(), LineDistances(), [0, 1, 2, 3, 0]) == 6.0
    ensures RouteCost(LineCustomers(), LineDistances(), [0, 2, 1, 3, 0]) == 8.0
  {
  }
}
