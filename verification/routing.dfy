/**
 * Route construction and route costing of the delivery optimiser
 * (`DeliveryOptimizer` in route_optimization_code.py).
 *
 * Stops are numbered as in the source: 0 is the depot and customer `c`
 * (1 <= c <= n) is `customers[c - 1]`.  Distances are a supplied square
 * matrix of reals; travel takes `MinutesPerUnit` minutes per distance unit.
 */
module Routing {
  import opened Basics

  /** A customer: location, time window and service duration in minutes, demand in units. */
  datatype Customer = Customer(location: Location, earliest: int, latest: int, serviceTime: int, demand: int)

  /** Travel minutes per distance unit. */
  const MinutesPerUnit: real := 2.0
  /** Cost added per minute of lateness. */
  const PenaltyPerMinute: real := 10.0

  /** `d` is an n-by-n matrix. */
  predicate IsSquare(d: seq<seq<real>>, n: nat)
  {
    |d| == n && forall i :: 0 <= i < n ==> |d[i]| == n
  }

  /** The matrix covers the depot and every customer. */
  predicate WellFormed(customers: seq<Customer>, d: seq<seq<real>>)
  {
    IsSquare(d, |customers| + 1)
  }

  /** Symmetric, non-negative, zero on the diagonal. */
  ghost predicate IsDistanceMatrix(d: seq<seq<real>>, n: nat)
  {
    IsSquare(d, n) &&
    (forall i, j :: 0 <= i < n && 0 <= j < n ==> d[i][j] >= 0.0) &&
    (forall i, j :: 0 <= i < n && 0 <= j < n ==> d[i][j] == d[j][i]) &&
    (forall i :: 0 <= i < n ==> d[i][i] == 0.0)
  }

  ghost predicate SymmetricNonNegative(dist: (Location, Location) -> real)
  {
    forall a, b :: dist(a, b) >= 0.0 && dist(a, b) == dist(b, a)
  }

  // ---------------------------------------------------------------- matrix

  /** The depot followed by the customers' locations. */
  function LocationsOf(depot: Location, customers: seq<Customer>): (locs: seq<Location>)
    ensures |locs| == |customers| + 1 && locs[0] == depot
    ensures forall i :: 0 <= i < |customers| ==> locs[i + 1] == customers[i].location
  {
    [depot] + seq(|customers|, i requires 0 <= i < |customers| => customers[i].location)
  }

  /** Entry (i, j) is the distance between locations i and j, and 0 on the diagonal. */
  function DistanceMatrix(locs: seq<Location>, dist: (Location, Location) -> real): seq<seq<real>>
  {
    seq(|locs|, i requires 0 <= i < |locs| =>
      seq(|locs|, j requires 0 <= j < |locs| => if i == j then 0.0 else dist(locs[i], locs[j])))
  }

  /** A symmetric, non-negative distance gives a distance matrix. */
  lemma DistanceMatrixIsSymmetric(locs: seq<Location>, dist: (Location, Location) -> real)
    requires SymmetricNonNegative(dist)
    ensures IsDistanceMatrix(DistanceMatrix(locs, dist), |locs|)
  {
  }

  /** The optimiser's state: depot, vehicle capacity, customers and the matrix once built. */
  class DeliveryOptimizer {
    const depot: Location
    const vehicleCapacity: int
    var customers: seq<Customer>
    /** `None` until `BuildDistanceMatrix` has run. */
    var matrix: Option<seq<seq<real>>>

    constructor (depot: Location, vehicleCapacity: int := 50)
      ensures this.depot == depot && this.vehicleCapacity == vehicleCapacity
      ensures customers == [] && matrix == None
    {
      this.depot := depot;
      this.vehicleCapacity := vehicleCapacity;
      customers := [];
      matrix := None;
    }

    method AddCustomer(c: Customer)
      modifies this`customers
      ensures customers == old(customers) + [c]
    {
      customers := customers + [c];
    }

    /** Fills the matrix row by row over the depot and all customers. */
    method BuildDistanceMatrix(dist: (Location, Location) -> real)
      modifies this`matrix
      ensures matrix == Some(DistanceMatrix(LocationsOf(depot, customers), dist))
      ensures WellFormed(customers, matrix.value)
    {
      var locs := LocationsOf(depot, customers);
      ghost var target := DistanceMatrix(locs, dist);
      var n := |locs|;
      var rows: seq<seq<real>> := [];
      var i := 0;
      while i < n
        invariant 0 <= i <= n && rows == target[..i]
      {
        var row := MatrixRow(locs, dist, i);
        assert target[..i + 1] == target[..i] + [target[i]];
        rows := rows + [row];
        i := i + 1;
      }
      assert target[..n] == target;
      matrix := Some(rows);
    }
  }

  /** The inner loop of the matrix fill: row `i`, the distance to every location and 0 on the diagonal. */
  method MatrixRow(locs: seq<Location>, dist: (Location, Location) -> real, i: nat) returns (row: seq<real>)
    requires i < |locs|
    ensures row == DistanceMatrix(locs, dist)[i]
  {
    row := [];
    var j := 0;
    while j < |locs|
      invariant 0 <= j <= |locs| && |row| == j
      invariant forall b :: 0 <= b < j ==> row[b] == (if i != b then dist(locs[i], locs[b]) else 0.0)
    {
      row := row + [if i != j then dist(locs[i], locs[j]) else 0.0];
      j := j + 1;
    }
  }

  // ---------------------------------------------------------------- route construction

  /** Customer ids 1..n in ascending order: the initial `unvisited` list. */
  function Ids(n: nat): (s: seq<nat>)
    ensures |s| == n
  {
    if n == 0 then [] else Ids(n - 1) + [n]
  }

  /** Position k of the initial list holds customer k + 1. */
  lemma {:induction false} IdsAscending(n: nat)
    ensures forall k :: 0 <= k < n ==> Ids(n)[k] == k + 1
    ensures ValidStops(Ids(n), n)
  {
    if n > 0 {
      IdsAscending(n - 1);
    }
  }

  lemma {:induction false} IdsOccurOnce(n: nat, c: nat)
    ensures multiset(Ids(n))[c] == if 1 <= c <= n then 1 else 0
  {
    if n > 0 {
      IdsOccurOnce(n - 1, c);
      var earlier := Ids(n - 1);
      assert Ids(n) == earlier + [n];
      assert multiset(earlier + [n]) == multiset(earlier) + multiset([n]);
    }
  }

  predicate ValidStops(s: seq<nat>, n: nat)
  {
    forall k :: 0 <= k < |s| ==> 1 <= s[k] <= n
  }

  /**
   * Customer `c` fits the route so far: its demand fits what is left of the
   * capacity, and travelling from `loc` starting at `time` arrives no later
   * than its latest bound.
   */
  predicate Feasible(customers: seq<Customer>, capacity: int, d: seq<seq<real>>,
                     loc: nat, load: int, time: real, c: nat)
    requires WellFormed(customers, d) && loc <= |customers| && 1 <= c <= |customers|
  {
    load + customers[c - 1].demand <= capacity &&
    time + MinutesPerUnit * d[loc][c] <= customers[c - 1].latest as real
  }

  /** `c` fits an empty route that leaves the depot at time 0. */
  predicate FeasibleFromDepot(customers: seq<Customer>, capacity: int, d: seq<seq<real>>, c: nat)
    requires WellFormed(customers, d) && 1 <= c <= |customers|
  {
    Feasible(customers, capacity, d, 0, 0, 0.0, c)
  }

  /**
   * The scan over `unvisited` (the inner `for` loop): the position of the
   * first feasible customer of least distance from `loc`, or `None` when no
   * customer is feasible.
   */
  method PickNearest(customers: seq<Customer>, capacity: int, d: seq<seq<real>>,
                     unvisited: seq<nat>, loc: nat, load: int, time: real)
    returns (best: Option<nat>)
    requires WellFormed(customers, d) && loc <= |customers| && ValidStops(unvisited, |customers|)
    ensures best.Some? ==>
      best.value < |unvisited| && Feasible(customers, capacity, d, loc, load, time, unvisited[best.value])
    ensures best.Some? ==> forall j ::
      (0 <= j < |unvisited| && Feasible(customers, capacity, d, loc, load, time, unvisited[j])) ==>
        d[loc][unvisited[best.value]] <= d[loc][unvisited[j]]
    ensures best.Some? ==> forall j ::
      (0 <= j < best.value && Feasible(customers, capacity, d, loc, load, time, unvisited[j])) ==>
        d[loc][unvisited[best.value]] < d[loc][unvisited[j]]
    ensures best.None? <==> forall j :: 0 <= j < |unvisited| ==>
      !Feasible(customers, capacity, d, loc, load, time, unvisited[j])
  {
    best := None;
    var minDistance := 0.0;
    for k := 0 to |unvisited|
      invariant best.None? <==> forall j :: 0 <= j < k ==>
        !Feasible(customers, capacity, d, loc, load, time, unvisited[j])
      invariant best.Some? ==>
        best.value < k && minDistance == d[loc][unvisited[best.value]] &&
        Feasible(customers, capacity, d, loc, load, time, unvisited[best.value])
      invariant best.Some? ==> forall j ::
        (0 <= j < k && Feasible(customers, capacity, d, loc, load, time, unvisited[j])) ==>
          minDistance <= d[loc][unvisited[j]]
      invariant best.Some? ==> forall j ::
        (0 <= j < best.value && Feasible(customers, capacity, d, loc, load, time, unvisited[j])) ==>
          minDistance < d[loc][unvisited[j]]
    {
      var c := unvisited[k];
      if !Feasible(customers, capacity, d, loc, load, time, c) {
        continue;
      }
      var distance := d[loc][c];
      if best.None? || distance < minDistance {
        minDistance := distance;
        best := Some(k);
      }
    }
  }

  /** Service starts on arrival or at the earliest bound, whichever is later; departure follows the service. */
  function Depart(time: real, legDistance: real, c: Customer): real
  {
    Max(time + MinutesPerUnit * legDistance, c.earliest as real) + c.serviceTime as real
  }

  /** Service never starts before arrival nor before the earliest bound, and starts at one of the two. */
  lemma DepartBounds(time: real, legDistance: real, c: Customer)
    ensures Depart(time, legDistance, c) - c.serviceTime as real >= time + MinutesPerUnit * legDistance
    ensures Depart(time, legDistance, c) - c.serviceTime as real >= c.earliest as real
    ensures Depart(time, legDistance, c) - c.serviceTime as real == time + MinutesPerUnit * legDistance ||
            Depart(time, legDistance, c) - c.serviceTime as real == c.earliest as real
  {
  }

  /** The stop before position k of the stop list `s` (the depot before the first). */
  function Prev(s: seq<nat>, k: nat): nat
    requires k <= |s|
  {
    if k == 0 then 0 else s[k - 1]
  }

  /** Clock after serving the stops `s` in order, leaving the depot at time 0. */
  function Clock(customers: seq<Customer>, d: seq<seq<real>>, s: seq<nat>): real
    requires WellFormed(customers, d) && ValidStops(s, |customers|)
  {
    if s == [] then 0.0
    else
      var init := s[..|s| - 1];
      var c := s[|s| - 1];
      Depart(Clock(customers, d, init), d[Prev(init, |init|)][c], customers[c - 1])
  }

  /** Each stop of `s` is reached no later than its customer's latest bound. */
  ghost predicate OnTime(customers: seq<Customer>, d: seq<seq<real>>, s: seq<nat>)
    requires WellFormed(customers, d) && ValidStops(s, |customers|)
  {
    forall k :: 0 <= k < |s| ==> OnTimeAt(customers, d, s, k)
  }

  /** Summed demand of the stops `s`. */
  function Demand(customers: seq<Customer>, s: seq<nat>): int
    requires ValidStops(s, |customers|)
  {
    if s == [] then 0 else Demand(customers, s[..|s| - 1]) + customers[s[|s| - 1] - 1].demand
  }

  /** Every non-empty prefix of `s` stays within `capacity`. */
  ghost predicate WithinCapacity(customers: seq<Customer>, capacity: int, s: seq<nat>)
    requires ValidStops(s, |customers|)
  {
    forall k :: 1 <= k <= |s| ==> FitsAt(customers, capacity, s, k)
  }

  /** The first k stops of `s` stay within `capacity`. */
  ghost predicate FitsAt(customers: seq<Customer>, capacity: int, s: seq<nat>, k: nat)
    requires ValidStops(s, |customers|) && k <= |s|
  {
    Demand(customers, s[..k]) <= capacity
  }

  /** The customer stops of a route: everything between the depot bookends. */
  function Interior(r: seq<nat>): seq<nat>
  {
    if |r| < 2 then [] else r[1..|r| - 1]
  }

  /** Depot first and last, at least one customer in between, all customer ids in range. */
  predicate IsRoute(r: seq<nat>, n: nat)
  {
    |r| >= 3 && r[0] == 0 && r[|r| - 1] == 0 && ValidStops(Interior(r), n)
  }

  /** All customer stops of all routes, route after route. */
  function Visited(routes: seq<seq<nat>>): seq<nat>
  {
    if routes == [] then [] else Visited(routes[..|routes| - 1]) + Interior(routes[|routes| - 1])
  }

  lemma VisitedAppend(routes: seq<seq<nat>>, r: seq<nat>)
    ensures Visited(routes + [r]) == Visited(routes) + Interior(r)
  {
    assert (routes + [r])[..|routes|] == routes;
  }

  lemma PrefixOfExtended(s: seq<nat>, c: nat, k: nat)
    requires k <= |s|
    ensures (s + [c])[..k] == s[..k]
  {
  }

  /** Extending the stop list by `c` keeps every prefix within capacity when `c` fits. */
  lemma {:induction false} ExtendWithinCapacity(customers: seq<Customer>, capacity: int, s: seq<nat>, c: nat)
    requires ValidStops(s, |customers|) && 1 <= c <= |customers|
    requires WithinCapacity(customers, capacity, s)
    requires Demand(customers, s) + customers[c - 1].demand <= capacity
    ensures ValidStops(s + [c], |customers|)
    ensures Demand(customers, s + [c]) == Demand(customers, s) + customers[c - 1].demand
    ensures WithinCapacity(customers, capacity, s + [c])
  {
    var t := s + [c];
    DemandExtend(customers, s, c);
    forall k | 1 <= k <= |t| ensures FitsAt(customers, capacity, t, k) {
      PrefixDemand(customers, capacity, s, c, k);
    }
  }

  lemma DemandExtend(customers: seq<Customer>, s: seq<nat>, c: nat)
    requires ValidStops(s, |customers|) && 1 <= c <= |customers|
    ensures ValidStops(s + [c], |customers|)
    ensures Demand(customers, s + [c]) == Demand(customers, s) + customers[c - 1].demand
  {
    assert (s + [c])[..|s|] == s;
  }

  lemma PrefixDemand(customers: seq<Customer>, capacity: int, s: seq<nat>, c: nat, k: nat)
    requires ValidStops(s, |customers|) && 1 <= c <= |customers| && 1 <= k <= |s| + 1
    requires WithinCapacity(customers, capacity, s)
    requires Demand(customers, s + [c]) <= capacity
    ensures ValidStops(s + [c], |customers|)
    ensures FitsAt(customers, capacity, s + [c], k)
  {
    if k <= |s| {
      PrefixOfExtended(s, c, k);
      assert FitsAt(customers, capacity, s, k);
    } else {
      assert (s + [c])[..k] == s + [c];
    }
  }

  lemma ClockExtend(customers: seq<Customer>, d: seq<seq<real>>, s: seq<nat>, c: nat)
    requires WellFormed(customers, d) && ValidStops(s, |customers|) && 1 <= c <= |customers|
    ensures ValidStops(s + [c], |customers|)
    ensures Clock(customers, d, s + [c]) == Depart(Clock(customers, d, s), d[Prev(s, |s|)][c], customers[c - 1])
    ensures Prev(s + [c], |s| + 1) == c
  {
    ValidStopsConcat(s, [c], |customers|);
    ClockStep(customers, d, s, c);
  }

  lemma ClockStep(customers: seq<Customer>, d: seq<seq<real>>, s: seq<nat>, c: nat)
    requires WellFormed(customers, d) && ValidStops(s, |customers|) && 1 <= c <= |customers|
    requires ValidStops(s + [c], |customers|)
    ensures Clock(customers, d, s + [c]) == Depart(Clock(customers, d, s), d[Prev(s, |s|)][c], customers[c - 1])
  {
    var t := s + [c];
    assert t[..|t| - 1] == s && t[|t| - 1] == c by {
      SnocParts(s, c);
    }
    ClockLast(customers, d, t);
  }

  lemma SnocParts(s: seq<nat>, c: nat)
    ensures |s + [c]| == |s| + 1 && (s + [c])[..|s|] == s && (s + [c])[|s|] == c
  {
    assert (s + [c])[..|s|] == s;
  }

  lemma ClockLast(customers: seq<Customer>, d: seq<seq<real>>, t: seq<nat>)
    requires WellFormed(customers, d) && ValidStops(t, |customers|) && t != []
    ensures ValidStops(t[..|t| - 1], |customers|)
    ensures Clock(customers, d, t) ==
      Depart(Clock(customers, d, t[..|t| - 1]), d[Prev(t[..|t| - 1], |t| - 1)][t[|t| - 1]], customers[t[|t| - 1] - 1])
  {
  }

  /** Stop k of `s` is reached no later than its latest bound. */
  ghost predicate OnTimeAt(customers: seq<Customer>, d: seq<seq<real>>, s: seq<nat>, k: nat)
    requires WellFormed(customers, d) && ValidStops(s, |customers|) && k < |s|
  {
    Clock(customers, d, s[..k]) + MinutesPerUnit * d[Prev(s, k)][s[k]] <= customers[s[k] - 1].latest as real
  }

  lemma OnTimeAtExtend(customers: seq<Customer>, d: seq<seq<real>>, s: seq<nat>, c: nat, k: nat)
    requires WellFormed(customers, d) && ValidStops(s, |customers|) && 1 <= c <= |customers| && k < |s|
    requires OnTimeAt(customers, d, s, k)
    ensures ValidStops(s + [c], |customers|) && OnTimeAt(customers, d, s + [c], k)
  {
    PrefixOfExtended(s, c, k);
  }

  /** Extending the stop list by `c` keeps every stop on time when `c` is reached on time. */
  lemma {:induction false} ExtendOnTime(customers: seq<Customer>, d: seq<seq<real>>, s: seq<nat>, c: nat)
    requires WellFormed(customers, d) && ValidStops(s, |customers|) && 1 <= c <= |customers|
    requires OnTime(customers, d, s)
    requires Clock(customers, d, s) + MinutesPerUnit * d[Prev(s, |s|)][c] <= customers[c - 1].latest as real
    ensures ValidStops(s + [c], |customers|)
    ensures OnTime(customers, d, s + [c])
  {
    var t := s + [c];
    assert t[..|s|] == s;
    forall k | 0 <= k < |t| ensures OnTimeAt(customers, d, t, k) {
      if k < |s| {
        assert OnTimeAt(customers, d, s, k);
        OnTimeAtExtend(customers, d, s, c, k);
      }
    }
  }

  /** A route that respects capacity at every prefix and reaches every stop on time. */
  ghost predicate FeasibleRoute(customers: seq<Customer>, capacity: int, d: seq<seq<real>>, r: seq<nat>)
    requires WellFormed(customers, d)
  {
    IsRoute(r, |customers|) &&
    WithinCapacity(customers, capacity, Interior(r)) &&
    OnTime(customers, d, Interior(r))
  }

  /** Removing position k from `u` takes exactly `u[k]` out of its multiset. */
  lemma RemoveAt(u: seq<nat>, k: nat, n: nat)
    requires k < |u| && ValidStops(u, n)
    ensures multiset(u[..k] + u[k + 1..]) + multiset{u[k]} == multiset(u)
    ensures ValidStops(u[..k] + u[k + 1..], n)
  {
    assert u == u[..k] + [u[k]] + u[k + 1..];
  }

  /** Strictly ascending ids: the order `unvisited` keeps from `range(1, n + 1)` under removals. */
  predicate Ascending(u: seq<nat>)
  {
    forall i, j :: 0 <= i < j < |u| ==> u[i] < u[j]
  }

  /** The ids occurring in `u`. */
  function Members(u: seq<nat>): set<nat>
  {
    set x | x in u
  }

  /**
   * After the stops `p`, customer `c` is the inner loop's pick among the
   * candidates of `pool` not yet in `p`: it fits, no fitting candidate is
   * nearer to the current stop, and every fitting candidate of smaller id
   * (one scanned before it in the ascending list) is strictly farther.
   */
  ghost predicate NearestChoice(customers: seq<Customer>, capacity: int, d: seq<seq<real>>,
                                pool: set<nat>, p: seq<nat>, c: nat)
    requires WellFormed(customers, d) && ValidStops(p, |customers|) && 1 <= c <= |customers|
  {
    var loc, load, time := Prev(p, |p|), Demand(customers, p), Clock(customers, d, p);
    Feasible(customers, capacity, d, loc, load, time, c) &&
    forall x :: 1 <= x <= |customers| && x in pool && x !in p && Feasible(customers, capacity, d, loc, load, time, x) ==>
      d[loc][c] <= d[loc][x] && (x < c ==> d[loc][c] < d[loc][x])
  }

  /** Stop k of `s` is the nearest-neighbour pick after the stops before it. */
  ghost predicate NearestStop(customers: seq<Customer>, capacity: int, d: seq<seq<real>>,
                              pool: set<nat>, s: seq<nat>, k: nat)
    requires WellFormed(customers, d) && ValidStops(s, |customers|) && k < |s|
  {
    NearestChoice(customers, capacity, d, pool, s[..k], s[k])
  }

  /** Every stop of `s` is the nearest-neighbour pick at its time. */
  ghost predicate Greedy(customers: seq<Customer>, capacity: int, d: seq<seq<real>>, pool: set<nat>, s: seq<nat>)
    requires WellFormed(customers, d) && ValidStops(s, |customers|)
  {
    forall k :: 0 <= k < |s| ==> NearestStop(customers, capacity, d, pool, s, k)
  }

  /** No candidate of `pool` left out of `s` fits after the last stop of `s`: the route closes there. */
  ghost predicate Closes(customers: seq<Customer>, capacity: int, d: seq<seq<real>>, pool: set<nat>, s: seq<nat>)
    requires WellFormed(customers, d) && ValidStops(s, |customers|)
  {
    forall x :: 1 <= x <= |customers| && x in pool && x !in s ==>
      !Feasible(customers, capacity, d, Prev(s, |s|), Demand(customers, s), Clock(customers, d, s), x)
  }

  /**
   * One pass of the inner loop of `nearest_neighbor_heuristic`: starting at
   * the depot at time 0 with an empty load, repeatedly append the customer
   * chosen by `PickNearest` and advance the clock, until no unvisited customer
   * is feasible.  Returns the customer stops `s` and what is left unvisited.
   */
  method BuildRoute(customers: seq<Customer>, capacity: int, d: seq<seq<real>>, unvisited: seq<nat>)
    returns (s: seq<nat>, rest: seq<nat>)
    requires WellFormed(customers, d) && ValidStops(unvisited, |customers|) && Ascending(unvisited)
    ensures InnerLoopDone(customers, capacity, d, unvisited, s, rest)
  {
    var loc := 0;
    var load := 0;
    var time := 0.0;
    s, rest := [], unvisited;
    StartGrowing(customers, capacity, d, unvisited);
    while rest != []
      invariant Growing(customers, capacity, d, unvisited, s, rest, loc, load, time)
      decreases |rest|
    {
      var best := PickNearest(customers, capacity, d, rest, loc, load, time);
      if best.None? {
        Closing(customers, capacity, d, unvisited, s, rest, loc, load, time);
        break;
      }
      var k := best.value;
      var c := rest[k];
      PickStep(customers, capacity, d, unvisited, s, rest, k, loc, load, time);
      s := s + [c];
      rest := rest[..k] + rest[k + 1..];
      load := load + customers[c - 1].demand;
      time := Depart(time, d[loc][c], customers[c - 1]);
      loc := c;
    }
    if rest == [] {
      Closing(customers, capacity, d, unvisited, s, rest, loc, load, time);
    }
    RouteBuilt(customers, capacity, d, unvisited, s, rest, loc, load, time);
  }

  /**
   * The inner loop's outcome: the stops `s` and the `rest` split `unvisited`;
   * every prefix of `s` is within capacity and on time; every stop is the
   * nearest-neighbour pick at its time and no candidate left in `rest` fits
   * after the last stop; `rest` is still ascending; and an empty route
   * leaves `unvisited` as it was, none of it fitting a fresh route.
   */
  ghost predicate InnerLoopDone(customers: seq<Customer>, capacity: int, d: seq<seq<real>>,
                                unvisited: seq<nat>, s: seq<nat>, rest: seq<nat>)
    requires WellFormed(customers, d)
  {
    ValidStops(s, |customers|) && ValidStops(rest, |customers|) &&
    multiset(s) + multiset(rest) == multiset(unvisited) && |s| + |rest| == |unvisited| &&
    WithinCapacity(customers, capacity, s) && OnTime(customers, d, s) &&
    Greedy(customers, capacity, d, Members(unvisited), s) &&
    Closes(customers, capacity, d, Members(unvisited), s) &&
    Ascending(rest) &&
    (s == [] ==> rest == unvisited) &&
    (s == [] ==> forall j :: 0 <= j < |unvisited| ==> !FeasibleFromDepot(customers, capacity, d, unvisited[j]))
  }

  /** What the inner loop's invariant and its closing condition give once the loop is over. */
  lemma RouteBuilt(customers: seq<Customer>, capacity: int, d: seq<seq<real>>,
                   unvisited: seq<nat>, s: seq<nat>, rest: seq<nat>, loc: nat, load: int, time: real)
    requires WellFormed(customers, d) && Growing(customers, capacity, d, unvisited, s, rest, loc, load, time)
    requires Closes(customers, capacity, d, Members(unvisited), s)
    ensures InnerLoopDone(customers, capacity, d, unvisited, s, rest)
  {
    if s == [] {
      forall j | 0 <= j < |unvisited| ensures !FeasibleFromDepot(customers, capacity, d, unvisited[j]) {
        assert unvisited[j] in Members(unvisited);
      }
    }
  }

  /** What the inner loop keeps: the stops so far and the rest split `unvisited`, within capacity and on time. */
  ghost predicate Building(customers: seq<Customer>, capacity: int, d: seq<seq<real>>,
                           unvisited: seq<nat>, s: seq<nat>, rest: seq<nat>)
    requires WellFormed(customers, d)
  {
    ValidStops(rest, |customers|) && ValidStops(s, |customers|) &&
    multiset(s) + multiset(rest) == multiset(unvisited) && |s| + |rest| == |unvisited| &&
    (s == [] ==> rest == unvisited) &&
    WithinCapacity(customers, capacity, s) && OnTime(customers, d, s)
  }

  /** The inner loop's invariant: `Building`, `Tracks`, the rest still ascending and every stop the nearest pick. */
  ghost predicate Growing(customers: seq<Customer>, capacity: int, d: seq<seq<real>>,
                          unvisited: seq<nat>, s: seq<nat>, rest: seq<nat>, loc: nat, load: int, time: real)
    requires WellFormed(customers, d)
  {
    Building(customers, capacity, d, unvisited, s, rest) && Tracks(customers, d, s, loc, load, time) &&
    Ascending(rest) && Greedy(customers, capacity, d, Members(unvisited), s)
  }

  /** The inner loop's invariant holds at the depot with an empty load at time 0. */
  lemma StartGrowing(customers: seq<Customer>, capacity: int, d: seq<seq<real>>, unvisited: seq<nat>)
    requires WellFormed(customers, d) && ValidStops(unvisited, |customers|) && Ascending(unvisited)
    ensures Growing(customers, capacity, d, unvisited, [], unvisited, 0, 0, 0.0)
  {
  }

  /** Taking the pick of `PickNearest` keeps the inner loop's invariant. */
  lemma PickStep(customers: seq<Customer>, capacity: int, d: seq<seq<real>>,
                 unvisited: seq<nat>, s: seq<nat>, rest: seq<nat>, k: nat, loc: nat, load: int, time: real)
    requires WellFormed(customers, d) && Growing(customers, capacity, d, unvisited, s, rest, loc, load, time)
    requires k < |rest| && Feasible(customers, capacity, d, loc, load, time, rest[k])
    requires forall j :: (0 <= j < |rest| && Feasible(customers, capacity, d, loc, load, time, rest[j])) ==>
      d[loc][rest[k]] <= d[loc][rest[j]]
    requires forall j :: (0 <= j < k && Feasible(customers, capacity, d, loc, load, time, rest[j])) ==>
      d[loc][rest[k]] < d[loc][rest[j]]
    ensures Growing(customers, capacity, d, unvisited, s + [rest[k]], rest[..k] + rest[k + 1..], rest[k],
                    load + customers[rest[k] - 1].demand, Depart(time, d[loc][rest[k]], customers[rest[k] - 1]))
  {
    var c := rest[k];
    PickIsNearest(customers, capacity, d, unvisited, s, rest, k, loc, load, time);
    GreedyExtend(customers, capacity, d, Members(unvisited), s, c);
    AscendingRemove(rest, k);
    BuildStep(customers, capacity, d, unvisited, s, rest, k, loc, load, time);
  }

  /** The inner loop's running location, load and clock are those of the stops `s`. */
  ghost predicate Tracks(customers: seq<Customer>, d: seq<seq<real>>, s: seq<nat>, loc: nat, load: int, time: real)
    requires WellFormed(customers, d) && ValidStops(s, |customers|)
  {
    loc == Prev(s, |s|) && load == Demand(customers, s) && time == Clock(customers, d, s)
  }

  /** Appending the feasible customer `rest[k]` keeps the inner loop's invariant and advances load and clock. */
  lemma BuildStep(customers: seq<Customer>, capacity: int, d: seq<seq<real>>,
                  unvisited: seq<nat>, s: seq<nat>, rest: seq<nat>, k: nat, loc: nat, load: int, time: real)
    requires WellFormed(customers, d) && Building(customers, capacity, d, unvisited, s, rest)
    requires Tracks(customers, d, s, loc, load, time)
    requires k < |rest| && Feasible(customers, capacity, d, loc, load, time, rest[k])
    ensures Building(customers, capacity, d, unvisited, s + [rest[k]], rest[..k] + rest[k + 1..])
    ensures Tracks(customers, d, s + [rest[k]], rest[k], load + customers[rest[k] - 1].demand,
                   Depart(time, d[loc][rest[k]], customers[rest[k] - 1]))
  {
    var c := rest[k];
    ExtendWithinCapacity(customers, capacity, s, c);
    ExtendOnTime(customers, d, s, c);
    ClockExtend(customers, d, s, c);
    MoveStop(unvisited, s, rest, k, |customers|);
  }

  /** Moving `rest[k]` to the end of the stops keeps the split of `unvisited` between the two. */
  lemma MoveStop(unvisited: seq<nat>, s: seq<nat>, rest: seq<nat>, k: nat, n: nat)
    requires k < |rest| && ValidStops(rest, n)
    requires multiset(s) + multiset(rest) == multiset(unvisited) && |s| + |rest| == |unvisited|
    ensures ValidStops(rest[..k] + rest[k + 1..], n)
    ensures multiset(s + [rest[k]]) + multiset(rest[..k] + rest[k + 1..]) == multiset(unvisited)
    ensures |s + [rest[k]]| + |rest[..k] + rest[k + 1..]| == |unvisited|
  {
    RemoveAt(rest, k, n);
    assert multiset(s + [rest[k]]) == multiset(s) + multiset{rest[k]};
  }

  lemma AscendingRemove(u: seq<nat>, k: nat)
    requires Ascending(u) && k < |u|
    ensures Ascending(u[..k] + u[k + 1..])
  {
    var v := u[..k] + u[k + 1..];
    forall i, j | 0 <= i < j < |v| ensures v[i] < v[j] {
      var i' := if i < k then i else i + 1;
      var j' := if j < k then j else j + 1;
      assert v[i] == u[i'] && v[j] == u[j'];
    }
  }

  /** A candidate of `unvisited` that is not among the stops `s` is still in `rest`. */
  lemma StillUnvisited(unvisited: seq<nat>, s: seq<nat>, rest: seq<nat>, x: nat)
    requires multiset(s) + multiset(rest) == multiset(unvisited)
    requires x in unvisited && x !in s
    ensures x in rest
  {
    assert x in multiset(unvisited);
    assert x !in multiset(s);
  }

  /** The position `PickNearest` returns over `rest` is the nearest-neighbour choice after `s`. */
  lemma PickIsNearest(customers: seq<Customer>, capacity: int, d: seq<seq<real>>,
                      unvisited: seq<nat>, s: seq<nat>, rest: seq<nat>, k: nat, loc: nat, load: int, time: real)
    requires WellFormed(customers, d) && Building(customers, capacity, d, unvisited, s, rest)
    requires Tracks(customers, d, s, loc, load, time) && Ascending(rest)
    requires k < |rest| && Feasible(customers, capacity, d, loc, load, time, rest[k])
    requires forall j :: (0 <= j < |rest| && Feasible(customers, capacity, d, loc, load, time, rest[j])) ==>
      d[loc][rest[k]] <= d[loc][rest[j]]
    requires forall j :: (0 <= j < k && Feasible(customers, capacity, d, loc, load, time, rest[j])) ==>
      d[loc][rest[k]] < d[loc][rest[j]]
    ensures NearestChoice(customers, capacity, d, Members(unvisited), s, rest[k])
  {
    var c := rest[k];
    forall x | 1 <= x <= |customers| && x in Members(unvisited) && x !in s &&
               Feasible(customers, capacity, d, loc, load, time, x)
      ensures d[loc][c] <= d[loc][x] && (x < c ==> d[loc][c] < d[loc][x])
    {
      StillUnvisited(unvisited, s, rest, x);
      var j :| 0 <= j < |rest| && rest[j] == x;
      if x < c {
        assert j < k;
      }
    }
  }

  /** When `PickNearest` finds nothing, no candidate left out of `s` fits: the route closes. */
  lemma Closing(customers: seq<Customer>, capacity: int, d: seq<seq<real>>,
                unvisited: seq<nat>, s: seq<nat>, rest: seq<nat>, loc: nat, load: int, time: real)
    requires WellFormed(customers, d) && Building(customers, capacity, d, unvisited, s, rest)
    requires Tracks(customers, d, s, loc, load, time)
    requires forall j :: 0 <= j < |rest| ==> !Feasible(customers, capacity, d, loc, load, time, rest[j])
    ensures Closes(customers, capacity, d, Members(unvisited), s)
  {
    forall x | 1 <= x <= |customers| && x in Members(unvisited) && x !in s
      ensures !Feasible(customers, capacity, d, loc, load, time, x)
    {
      StillUnvisited(unvisited, s, rest, x);
      var j :| 0 <= j < |rest| && rest[j] == x;
    }
  }

  /** Appending the nearest-neighbour pick keeps every stop a nearest-neighbour pick. */
  lemma GreedyExtend(customers: seq<Customer>, capacity: int, d: seq<seq<real>>, pool: set<nat>, s: seq<nat>, c: nat)
    requires WellFormed(customers, d) && ValidStops(s, |customers|) && 1 <= c <= |customers|
    requires Greedy(customers, capacity, d, pool, s) && NearestChoice(customers, capacity, d, pool, s, c)
    ensures ValidStops(s + [c], |customers|) && Greedy(customers, capacity, d, pool, s + [c])
  {
    var t := s + [c];
    ValidStopsConcat(s, [c], |customers|);
    forall k | 0 <= k < |t| ensures NearestStop(customers, capacity, d, pool, t, k) {
      if k < |s| {
        assert t[..k] == s[..k] && t[k] == s[k];
        assert NearestStop(customers, capacity, d, pool, s, k);
      } else {
        assert t[..k] == s;
      }
    }
  }

  /** Customers still unvisited, together with those already routed, are 1..n once each. */
  lemma AccountedOnce(v: seq<nat>, unvisited: seq<nat>, n: nat)
    requires multiset(v) + multiset(unvisited) == multiset(Ids(n))
    ensures NoRepeats(v)
    ensures forall c :: 1 <= c <= n && c !in v ==> c in unvisited
  {
    forall x ensures multiset(v)[x] <= 1 {
      IdsOccurOnce(n, x);
    }
    forall c | 1 <= c <= n && c !in v ensures c in unvisited {
      IdsOccurOnce(n, c);
      assert multiset(unvisited)[c] == 1;
    }
  }

  /** When no unvisited customer fits a fresh route, some customer is unrouted and none of the unrouted fits. */
  lemma Stall(customers: seq<Customer>, capacity: int, d: seq<seq<real>>, v: seq<nat>, unvisited: seq<nat>)
    requires WellFormed(customers, d) && ValidStops(unvisited, |customers|) && unvisited != []
    requires multiset(v) + multiset(unvisited) == multiset(Ids(|customers|))
    requires forall j :: 0 <= j < |unvisited| ==> !FeasibleFromDepot(customers, capacity, d, unvisited[j])
    ensures NoRepeats(v)
    ensures exists c :: 1 <= c <= |customers| && c !in v
    ensures forall c :: 1 <= c <= |customers| && c !in v ==> !FeasibleFromDepot(customers, capacity, d, c)
  {
    var n := |customers|;
    AccountedOnce(v, unvisited, n);
    forall c | 1 <= c <= n && c !in v ensures !FeasibleFromDepot(customers, capacity, d, c) {
      var j :| 0 <= j < |unvisited| && unvisited[j] == c;
    }
    var c0 := unvisited[0];
    IdsOccurOnce(n, c0);
    assert multiset(unvisited)[c0] >= 1;
    assert c0 !in v;
  }

  /** Closing the stops `s` of a fresh route with the depot keeps every customer accounted for once. */
  lemma CloseRoute(customers: seq<Customer>, capacity: int, d: seq<seq<real>>, routes: seq<seq<nat>>,
                   unvisited: seq<nat>, s: seq<nat>, rest: seq<nat>)
    requires WellFormed(customers, d) && ValidStops(Visited(routes), |customers|)
    requires multiset(Visited(routes)) + multiset(unvisited) == multiset(Ids(|customers|))
    requires ValidStops(s, |customers|) && ValidStops(rest, |customers|) && s != []
    requires multiset(s) + multiset(rest) == multiset(unvisited)
    requires WithinCapacity(customers, capacity, s) && OnTime(customers, d, s)
    ensures FeasibleRoute(customers, capacity, d, [0] + s + [0])
    ensures ValidStops(Visited(routes + [[0] + s + [0]]), |customers|)
    ensures multiset(Visited(routes + [[0] + s + [0]])) + multiset(rest) == multiset(Ids(|customers|))
  {
    var n := |customers|;
    var route := [0] + s + [0];
    ClosedInterior(s, n);
    VisitedAppend(routes, route);
    ValidStopsConcat(Visited(routes), s, n);
    assert multiset(Visited(routes) + s) == multiset(Visited(routes)) + multiset(s);
  }

  lemma ClosedInterior(s: seq<nat>, n: nat)
    requires ValidStops(s, n) && s != []
    ensures Interior([0] + s + [0]) == s && IsRoute([0] + s + [0], n)
  {
    var route := [0] + s + [0];
    assert route[1..|route| - 1] == s;
  }

  lemma ValidStopsConcat(a: seq<nat>, b: seq<nat>, n: nat)
    requires ValidStops(a, n) && ValidStops(b, n)
    ensures ValidStops(a + b, n)
  {
    forall k | 0 <= k < |a + b|
      ensures 1 <= (a + b)[k] <= n
    {
      if k >= |a| {
        assert (a + b)[k] == b[k - |a|];
      }
    }
  }

  /** Customers 1..n not among `done`: those still unrouted once the routes covering `done` are built. */
  function Unrouted(n: nat, done: seq<nat>): set<nat>
  {
    set x | 1 <= x <= n && x !in done
  }

  /**
   * Route i is what the inner loop builds after routes 0..i-1: every stop is
   * the nearest fitting customer not yet routed (the smaller id on ties), and
   * no customer still unrouted fits after its last stop.
   */
  ghost predicate GreedyRouteAt(customers: seq<Customer>, capacity: int, d: seq<seq<real>>, routes: seq<seq<nat>>, i: nat)
    requires WellFormed(customers, d) && i < |routes|
  {
    var s := Interior(routes[i]);
    var pool := Unrouted(|customers|, Visited(routes[..i]));
    ValidStops(s, |customers|) && Greedy(customers, capacity, d, pool, s) && Closes(customers, capacity, d, pool, s)
  }

  /** Fewer candidates: a nearest-neighbour route over `pool` is one over any smaller pool. */
  lemma GreedyFewer(customers: seq<Customer>, capacity: int, d: seq<seq<real>>, pool: set<nat>, fewer: set<nat>, s: seq<nat>)
    requires WellFormed(customers, d) && ValidStops(s, |customers|) && fewer <= pool
    requires Greedy(customers, capacity, d, pool, s) && Closes(customers, capacity, d, pool, s)
    ensures Greedy(customers, capacity, d, fewer, s) && Closes(customers, capacity, d, fewer, s)
  {
    forall k | 0 <= k < |s| ensures NearestStop(customers, capacity, d, fewer, s, k) {
      assert NearestStop(customers, capacity, d, pool, s, k);
    }
  }

  /** Closing the greedily built stops `s` keeps every route a nearest-neighbour route. */
  lemma RouteGreedyStep(customers: seq<Customer>, capacity: int, d: seq<seq<real>>, routes: seq<seq<nat>>,
                        unvisited: seq<nat>, s: seq<nat>)
    requires WellFormed(customers, d) && ValidStops(s, |customers|) && s != []
    requires multiset(Visited(routes)) + multiset(unvisited) == multiset(Ids(|customers|))
    requires Greedy(customers, capacity, d, Members(unvisited), s) && Closes(customers, capacity, d, Members(unvisited), s)
    requires forall i :: 0 <= i < |routes| ==> GreedyRouteAt(customers, capacity, d, routes, i)
    ensures forall i :: 0 <= i < |routes| + 1 ==> GreedyRouteAt(customers, capacity, d, routes + [[0] + s + [0]], i)
  {
    var n := |customers|;
    var route := [0] + s + [0];
    var next := routes + [route];
    AccountedOnce(Visited(routes), unvisited, n);
    assert Unrouted(n, Visited(routes)) <= Members(unvisited);
    GreedyFewer(customers, capacity, d, Members(unvisited), Unrouted(n, Visited(routes)), s);
    ClosedInterior(s, n);
    forall i | 0 <= i < |next| ensures GreedyRouteAt(customers, capacity, d, next, i) {
      if i < |routes| {
        assert next[..i] == routes[..i] && next[i] == routes[i];
        assert GreedyRouteAt(customers, capacity, d, routes, i);
      } else {
        assert next[..i] == routes;
      }
    }
  }

  /**
   * `nearest_neighbor_heuristic`.  Routes are built one after another by
   * `BuildRoute`, each closed by a return to the depot, until every customer
   * is routed.  When a fresh route can take no customer at all while some
   * remain unvisited, the source appends `[0, 0]` for ever; the model stops
   * there and reports `stalled`.
   */
  method NearestNeighborHeuristic(customers: seq<Customer>, capacity: int, d: seq<seq<real>>)
    returns (routes: seq<seq<nat>>, stalled: bool)
    requires WellFormed(customers, d)
    ensures forall r :: r in routes ==> FeasibleRoute(customers, capacity, d, r)
    ensures NoRepeats(Visited(routes))
    ensures ValidStops(Visited(routes), |customers|)
    ensures !stalled ==> multiset(Visited(routes)) == multiset(Ids(|customers|))
    ensures stalled ==> exists c :: 1 <= c <= |customers| && c !in Visited(routes)
    ensures stalled ==> forall c :: 1 <= c <= |customers| && c !in Visited(routes) ==>
      !FeasibleFromDepot(customers, capacity, d, c)
    ensures (forall c :: 1 <= c <= |customers| ==> FeasibleFromDepot(customers, capacity, d, c)) ==> !stalled
    ensures forall i :: 0 <= i < |routes| ==> GreedyRouteAt(customers, capacity, d, routes, i)
  {
    var n := |customers|;
    var unvisited := Ids(n);
    IdsAscending(n);
    routes := [];
    stalled := false;
    while unvisited != []
      invariant ValidStops(unvisited, n) && ValidStops(Visited(routes), n) && Ascending(unvisited)
      invariant multiset(Visited(routes)) + multiset(unvisited) == multiset(Ids(n))
      invariant forall r :: r in routes ==> FeasibleRoute(customers, capacity, d, r)
      invariant forall i :: 0 <= i < |routes| ==> GreedyRouteAt(customers, capacity, d, routes, i)
      decreases |unvisited|
    {
      var s, rest := BuildRoute(customers, capacity, d, unvisited);
      if s == [] {
        // A fresh route takes nobody: the source loops for ever from here.
        Stall(customers, capacity, d, Visited(routes), unvisited);
        stalled := true;
        return;
      }
      var route := [0] + s + [0];
      RouteGreedyStep(customers, capacity, d, routes, unvisited, s);
      CloseRoute(customers, capacity, d, routes, unvisited, s, rest);
      routes := routes + [route];
      unvisited := rest;
    }
    AccountedOnce(Visited(routes), unvisited, n);
  }

  // ---------------------------------------------------------------- route cost

  /** Every stop of `route` is the depot or a customer. */
  predicate ValidRoute(route: seq<nat>, n: nat)
  {
    forall k :: 0 <= k < |route| ==> route[k] <= n
  }

  /** Sum of the distances between consecutive stops. */
  function PathLength(d: seq<seq<real>>, route: seq<nat>): real
    requires IsSquare(d, |d|) && forall k :: 0 <= k < |route| ==> route[k] < |d|
  {
    if |route| < 2 then 0.0
    else PathLength(d, route[..|route| - 1]) + d[route[|route| - 2]][route[|route| - 1]]
  }

  lemma {:induction false} PathLengthNonNegative(d: seq<seq<real>>, route: seq<nat>)
    requires IsDistanceMatrix(d, |d|) && forall k :: 0 <= k < |route| ==> route[k] < |d|
    ensures PathLength(d, route) >= 0.0
  {
    if |route| >= 2 {
      PathLengthNonNegative(d, route[..|route| - 1]);
      var a, b := route[|route| - 2], route[|route| - 1];
      assert 0 <= a < |d| && 0 <= b < |d|;
      assert d[a][b] >= 0.0;
    }
  }

  /** Running totals of `calculate_route_cost`: distance, lateness penalty and clock. */
  datatype CostState = CostState(distance: real, penalty: real, clock: real)

  /**
   * One leg from `from` to `to`.  The distance always counts; only a leg
   * into a customer moves the clock: an early arrival waits for the earliest
   * bound, a late one adds `PenaltyPerMinute` per minute past the latest bound,
   * and the service time follows.
   */
  function Leg(customers: seq<Customer>, d: seq<seq<real>>, st: CostState, from: nat, to: nat): CostState
    requires WellFormed(customers, d) && from <= |customers| && to <= |customers|
  {
    var dist := d[from][to];
    if to == 0 then st.(distance := st.distance + dist)
    else
      var c := customers[to - 1];
      var arrival := st.clock + MinutesPerUnit * dist;
      if arrival < c.earliest as real then
        CostState(st.distance + dist, st.penalty, c.earliest as real + c.serviceTime as real)
      else if arrival > c.latest as real then
        CostState(st.distance + dist, st.penalty + (arrival - c.latest as real) * PenaltyPerMinute,
                  arrival + c.serviceTime as real)
      else
        CostState(st.distance + dist, st.penalty, arrival + c.serviceTime as real)
  }

  /** Totals after the first k legs of `route`. */
  function CostAfter(customers: seq<Customer>, d: seq<seq<real>>, route: seq<nat>, k: nat): CostState
    requires WellFormed(customers, d) && ValidRoute(route, |customers|) && (k == 0 || k < |route|)
  {
    if k == 0 then CostState(0.0, 0.0, 0.0)
    else Leg(customers, d, CostAfter(customers, d, route, k - 1), route[k - 1], route[k])
  }

  /** Number of legs of a route. */
  function Legs(route: seq<nat>): nat
  {
    if route == [] then 0 else |route| - 1
  }

  /** Route cost: travelled distance plus lateness penalty, over all legs. */
  function RouteCost(customers: seq<Customer>, d: seq<seq<real>>, route: seq<nat>): real
    requires WellFormed(customers, d) && ValidRoute(route, |customers|)
  {
    var st := CostAfter(customers, d, route, Legs(route));
    st.distance + st.penalty
  }

  /** Late penalty accumulated over all legs. */
  function Lateness(customers: seq<Customer>, d: seq<seq<real>>, route: seq<nat>): real
    requires WellFormed(customers, d) && ValidRoute(route, |customers|)
  {
    CostAfter(customers, d, route, Legs(route)).penalty
  }

  /** After k legs the distance total is the length of the first k + 1 stops, and the penalty is non-negative. */
  lemma {:induction false} CostAfterTotals(customers: seq<Customer>, d: seq<seq<real>>, route: seq<nat>, k: nat)
    requires WellFormed(customers, d) && ValidRoute(route, |customers|) && k < |route|
    ensures CostAfter(customers, d, route, k).distance == PathLength(d, route[..k + 1])
    ensures CostAfter(customers, d, route, k).penalty >= 0.0
  {
    if k > 0 {
      CostAfterTotals(customers, d, route, k - 1);
      assert route[..k + 1][..k] == route[..k];
    }
  }

  /**
   * The cost is the path length plus a non-negative lateness penalty, so it is
   * never below the distance travelled, which itself is non-negative for a
   * distance matrix.
   */
  lemma RouteCostBounds(customers: seq<Customer>, d: seq<seq<real>>, route: seq<nat>)
    requires WellFormed(customers, d) && ValidRoute(route, |customers|)
    ensures Lateness(customers, d, route) >= 0.0
    ensures RouteCost(customers, d, route) == PathLength(d, route) + Lateness(customers, d, route)
    ensures RouteCost(customers, d, route) >= PathLength(d, route)
    ensures IsDistanceMatrix(d, |d|) ==> RouteCost(customers, d, route) >= 0.0
  {
    if route != [] {
      CostAfterTotals(customers, d, route, |route| - 1);
      assert route[..|route|] == route;
    }
    if IsDistanceMatrix(d, |d|) {
      PathLengthNonNegative(d, route);
    }
  }

  /** `calculate_route_cost`: accumulates distance, penalty and clock leg by leg. */
  method CalculateRouteCost(customers: seq<Customer>, d: seq<seq<real>>, route: seq<nat>) returns (cost: real)
    requires WellFormed(customers, d) && ValidRoute(route, |customers|)
    ensures cost == RouteCost(customers, d, route)
  {
    var totalDistance := 0.0;
    var timePenalty := 0.0;
    var currentTime := 0.0;
    var i := 0;
    while i < |route| - 1
      invariant 0 <= i && (i == 0 || i < |route|)
      invariant CostState(totalDistance, timePenalty, currentTime) == CostAfter(customers, d, route, i)
    {
      var fromIdx := route[i];
      var toIdx := route[i + 1];
      var distance := d[fromIdx][toIdx];
      totalDistance := totalDistance + distance;
      if toIdx != 0 {
        currentTime := currentTime + distance * MinutesPerUnit;
        var customer := customers[toIdx - 1];
        if currentTime < customer.earliest as real {
          currentTime := customer.earliest as real;
        } else if currentTime > customer.latest as real {
          timePenalty := timePenalty + (currentTime - customer.latest as real) * PenaltyPerMinute;
        }
        currentTime := currentTime + customer.serviceTime as real;
      }
      i := i + 1;
    }
    cost := totalDistance + timePenalty;
  }

  /** Along a depot-bookended route, the cost clock agrees with the construction clock and stays penalty-free while on time. */
  lemma {:induction false} OnTimeLegs(customers: seq<Customer>, d: seq<seq<real>>, s: seq<nat>, k: nat)
    requires WellFormed(customers, d) && ValidStops(s, |customers|) && OnTime(customers, d, s) && k <= |s|
    ensures ValidRoute([0] + s + [0], |customers|)
    ensures CostAfter(customers, d, [0] + s + [0], k).clock == Clock(customers, d, s[..k])
    ensures CostAfter(customers, d, [0] + s + [0], k).penalty == 0.0
  {
    var route := [0] + s + [0];
    if k > 0 {
      OnTimeLegs(customers, d, s, k - 1);
      assert OnTimeAt(customers, d, s, k - 1);
      assert s[..k][..k - 1] == s[..k - 1];
      assert route[k - 1] == Prev(s, k - 1) && route[k] == s[k - 1];
      assert Prev(s[..k], k - 1) == Prev(s, k - 1);
    }
  }

  /**
   * A route that reaches every customer on time, as every route built by
   * `NearestNeighborHeuristic` does, costs exactly its length: no lateness
   * penalty arises.
   */
  lemma OnTimeRouteCostsItsLength(customers: seq<Customer>, d: seq<seq<real>>, r: seq<nat>, capacity: int)
    requires WellFormed(customers, d) && FeasibleRoute(customers, capacity, d, r)
    ensures ValidRoute(r, |customers|)
    ensures RouteCost(customers, d, r) == PathLength(d, r)
  {
    var s := Interior(r);
    assert r == [0] + s + [0];
    OnTimeLegs(customers, d, s, |s|);
    var st := CostAfter(customers, d, r, |s|);
    assert CostAfter(customers, d, r, |s| + 1) == Leg(customers, d, st, r[|s|], 0);
    RouteCostBounds(customers, d, r);
  }

  // ---------------------------------------------------------------- delivery schedule

  /** Minutes spent at a stop by the schedule clock: nothing at the depot, the service time at a customer. */
  function StopService(customers: seq<Customer>, c: nat): real
    requires c <= |customers|
  {
    if c == 0 then 0.0 else customers[c - 1].serviceTime as real
  }

  function ServiceTotal(customers: seq<Customer>, route: seq<nat>): real
    requires ValidRoute(route, |customers|)
  {
    if route == [] then 0.0
    else ServiceTotal(customers, route[..|route| - 1]) + StopService(customers, route[|route| - 1])
  }

  /** Minutes the schedule shows the vehicle at the depot (display only; the clock does not advance). */
  const DepotDwell: real := 15.0

  /** Minutes between a stop's shown arrival and shown departure. */
  function Dwell(customers: seq<Customer>, c: nat): real
    requires c <= |customers|
  {
    if c == 0 then DepotDwell else customers[c - 1].serviceTime as real
  }

  lemma PrefixesExtend(customers: seq<Customer>, d: seq<seq<real>>, route: seq<nat>, i: nat)
    requires WellFormed(customers, d) && ValidRoute(route, |customers|) && i + 1 < |route|
    ensures PathLength(d, route[..i + 2]) == PathLength(d, route[..i + 1]) + d[route[i]][route[i + 1]]
    ensures ServiceTotal(customers, route[..i + 1]) == ServiceTotal(customers, route[..i]) + StopService(customers, route[i])
  {
    assert route[..i + 2][..i + 1] == route[..i + 1];
    assert route[..i + 1][..i] == route[..i];
  }

  /** Scheduled arrival at stop i: all travel up to it and all service before it. */
  function ArrivalAt(customers: seq<Customer>, d: seq<seq<real>>, route: seq<nat>, start: real, i: nat): real
    requires WellFormed(customers, d) && ValidRoute(route, |customers|) && i < |route|
  {
    start + MinutesPerUnit * PathLength(d, route[..i + 1]) + ServiceTotal(customers, route[..i])
  }

  lemma ArrivalStep(customers: seq<Customer>, d: seq<seq<real>>, route: seq<nat>, start: real, i: nat)
    requires WellFormed(customers, d) && ValidRoute(route, |customers|) && i + 1 < |route|
    ensures ArrivalAt(customers, d, route, start, i + 1) ==
      ArrivalAt(customers, d, route, start, i) + StopService(customers, route[i]) + MinutesPerUnit * d[route[i]][route[i + 1]]
  {
    PrefixesExtend(customers, d, route, i);
  }

  lemma ArrivalLast(customers: seq<Customer>, d: seq<seq<real>>, route: seq<nat>, start: real)
    requires WellFormed(customers, d) && ValidRoute(route, |customers|) && route != []
    ensures ArrivalAt(customers, d, route, start, |route| - 1) + StopService(customers, route[|route| - 1]) ==
      start + MinutesPerUnit * PathLength(d, route) + ServiceTotal(customers, route)
  {
    var i := |route| - 1;
    assert route[..i + 1] == route;
  }

  /**
   * The clock of `generate_delivery_schedule` for one route, starting at
   * `start` (the source uses 08:00 of the current day).  Each stop is reached
   * at the running clock; a customer's departure is its arrival plus its
   * service time, the depot's is shown 15 minutes later without moving the
   * clock; travel to the next stop adds `MinutesPerUnit` per distance unit.
   * There is no waiting for the earliest bound here.
   */
  method DeliverySchedule(customers: seq<Customer>, d: seq<seq<real>>, route: seq<nat>, start: real)
    returns (arrivals: seq<real>, departures: seq<real>, finish: real, totalDemand: int)
    requires WellFormed(customers, d) && ValidRoute(route, |customers|)
    ensures totalDemand == RouteDemand(customers, route)
    ensures IsRoute(route, |customers|) ==> totalDemand == Demand(customers, Interior(route))
    ensures |arrivals| == |route| && |departures| == |route|
    ensures |route| > 0 ==> arrivals[0] == start
    ensures forall i :: 0 <= i < |route| ==>
      departures[i] == arrivals[i] + Dwell(customers, route[i])
    ensures forall i :: 0 <= i < |route| - 1 ==>
      arrivals[i + 1] == arrivals[i] + StopService(customers, route[i]) + MinutesPerUnit * d[route[i]][route[i + 1]]
    ensures finish - start == MinutesPerUnit * PathLength(d, route) + ServiceTotal(customers, route)
  {
    var current := start;
    arrivals, departures, totalDemand := [], [], 0;
    var i := 0;
    while i < |route|
      invariant i <= |route| && ScheduleLoop(customers, d, route, start, i, arrivals, departures, current, totalDemand)
    {
      var stop := route[i];
      ScheduleStep(customers, d, route, start, i, arrivals, departures, current, totalDemand);
      totalDemand := totalDemand + StopDemand(customers, stop);
      // The depot shows a 15-minute dwell but leaves the clock alone; a customer's service moves it.
      arrivals := arrivals + [current];
      departures := departures + [current + Dwell(customers, stop)];
      current := current + StopService(customers, stop);
      if i < |route| - 1 {
        current := current + MinutesPerUnit * d[stop][route[i + 1]];
      }
      i := i + 1;
    }
    ScheduleDone(customers, d, route, start, arrivals, departures, current, totalDemand);
    finish := current;
  }

  /** Once every stop is shown, the loop's invariant gives the schedule's whole contract. */
  lemma ScheduleDone(customers: seq<Customer>, d: seq<seq<real>>, route: seq<nat>, start: real,
                     arrivals: seq<real>, departures: seq<real>, finish: real, totalDemand: int)
    requires WellFormed(customers, d) && ValidRoute(route, |customers|)
    requires ScheduleLoop(customers, d, route, start, |route|, arrivals, departures, finish, totalDemand)
    ensures totalDemand == RouteDemand(customers, route)
    ensures IsRoute(route, |customers|) ==> totalDemand == Demand(customers, Interior(route))
    ensures |arrivals| == |route| && |departures| == |route|
    ensures |route| > 0 ==> arrivals[0] == start
    ensures forall i :: 0 <= i < |route| ==>
      departures[i] == arrivals[i] + Dwell(customers, route[i])
    ensures forall i :: 0 <= i < |route| - 1 ==>
      arrivals[i + 1] == arrivals[i] + StopService(customers, route[i]) + MinutesPerUnit * d[route[i]][route[i + 1]]
    ensures finish - start == MinutesPerUnit * PathLength(d, route) + ServiceTotal(customers, route)
  {
    ScheduledSteps(customers, d, route, start, arrivals, departures);
    if route != [] {
      ArrivalLast(customers, d, route, start);
    }
    assert route[..|route|] == route;
    if IsRoute(route, |customers|) {
      RouteDemandInterior(customers, route);
    }
  }

  /** What the schedule loop has built once stops `..i` are shown. */
  ghost predicate ScheduleLoop(customers: seq<Customer>, d: seq<seq<real>>, route: seq<nat>, start: real, i: nat,
                               arrivals: seq<real>, departures: seq<real>, current: real, totalDemand: int)
    requires WellFormed(customers, d) && ValidRoute(route, |customers|) && i <= |route|
  {
    |arrivals| == i && |departures| == i &&
    totalDemand == RouteDemand(customers, route[..i]) &&
    Scheduled(customers, d, route, start, arrivals, departures) &&
    (i < |route| ==> current == ArrivalAt(customers, d, route, start, i)) &&
    (i == |route| > 0 ==> current == arrivals[i - 1] + StopService(customers, route[i - 1])) &&
    (route == [] ==> current == start)
  }

  /** Showing stop i at the running clock, and travelling on, keeps the loop's invariant. */
  lemma ScheduleStep(customers: seq<Customer>, d: seq<seq<real>>, route: seq<nat>, start: real, i: nat,
                     arrivals: seq<real>, departures: seq<real>, current: real, totalDemand: int)
    requires WellFormed(customers, d) && ValidRoute(route, |customers|) && i < |route|
    requires ScheduleLoop(customers, d, route, start, i, arrivals, departures, current, totalDemand)
    ensures ScheduleLoop(customers, d, route, start, i + 1,
      arrivals + [current], departures + [current + Dwell(customers, route[i])],
      current + StopService(customers, route[i]) +
        (if i < |route| - 1 then MinutesPerUnit * d[route[i]][route[i + 1]] else 0.0),
      totalDemand + StopDemand(customers, route[i]))
  {
    RouteDemandStep(customers, route, i);
    ScheduledExtend(customers, d, route, start, arrivals, departures, current, current + Dwell(customers, route[i]));
    if i < |route| - 1 {
      ArrivalStep(customers, d, route, start, i);
    }
  }

  /** Demand of one stop: nothing at the depot. */
  function StopDemand(customers: seq<Customer>, c: nat): int
    requires c <= |customers|
  {
    if c == 0 then 0 else customers[c - 1].demand
  }

  /** Demand of the customers a route visits. */
  function RouteDemand(customers: seq<Customer>, route: seq<nat>): int
    requires ValidRoute(route, |customers|)
  {
    if route == [] then 0
    else RouteDemand(customers, route[..|route| - 1]) + StopDemand(customers, route[|route| - 1])
  }

  lemma RouteDemandStep(customers: seq<Customer>, route: seq<nat>, i: nat)
    requires ValidRoute(route, |customers|) && i < |route|
    ensures RouteDemand(customers, route[..i + 1]) == RouteDemand(customers, route[..i]) + StopDemand(customers, route[i])
  {
    assert route[..i + 1][..i] == route[..i];
  }

  /** On a route proper, the demand is that of its interior stops. */
  lemma RouteDemandInterior(customers: seq<Customer>, route: seq<nat>)
    requires ValidRoute(route, |customers|) && IsRoute(route, |customers|)
    ensures RouteDemand(customers, route) == Demand(customers, Interior(route))
  {
    var n := |route|;
    assert route[..n - 1][1..] == Interior(route);
    RouteDemandStops(customers, route[..n - 1]);
  }

  /** A depot stop followed by customers only: the demand of those customers. */
  lemma {:induction false} RouteDemandStops(customers: seq<Customer>, s: seq<nat>)
    requires ValidRoute(s, |customers|) && |s| >= 1 && s[0] == 0 && ValidStops(s[1..], |customers|)
    ensures RouteDemand(customers, s) == Demand(customers, s[1..])
  {
    var m := |s| - 1;
    if m == 0 {
      assert s[..0] == [];
    } else {
      var t := s[..m];
      assert t[1..] == s[1..][..m - 1];
      RouteDemandStops(customers, t);
    }
  }

  /** The first |arrivals| stops are shown at their scheduled arrival, and leave after their dwell. */
  ghost predicate Scheduled(customers: seq<Customer>, d: seq<seq<real>>, route: seq<nat>, start: real,
                            arrivals: seq<real>, departures: seq<real>)
    requires WellFormed(customers, d) && ValidRoute(route, |customers|)
    requires |arrivals| <= |route| && |departures| == |arrivals|
  {
    forall j :: 0 <= j < |arrivals| ==>
      arrivals[j] == ArrivalAt(customers, d, route, start, j) && departures[j] == arrivals[j] + Dwell(customers, route[j])
  }

  lemma ScheduledExtend(customers: seq<Customer>, d: seq<seq<real>>, route: seq<nat>, start: real,
                        arrivals: seq<real>, departures: seq<real>, arrival: real, departure: real)
    requires WellFormed(customers, d) && ValidRoute(route, |customers|)
    requires |arrivals| < |route| && |departures| == |arrivals|
    requires Scheduled(customers, d, route, start, arrivals, departures)
    requires arrival == ArrivalAt(customers, d, route, start, |arrivals|)
    requires departure == arrival + Dwell(customers, route[|arrivals|])
    ensures Scheduled(customers, d, route, start, arrivals + [arrival], departures + [departure])
  {
    var nextArrivals, nextDepartures := arrivals + [arrival], departures + [departure];
    forall j | 0 <= j < |nextArrivals|
      ensures nextArrivals[j] == ArrivalAt(customers, d, route, start, j)
      ensures nextDepartures[j] == nextArrivals[j] + Dwell(customers, route[j])
    {
      if j < |arrivals| {
        assert nextArrivals[j] == arrivals[j] && nextDepartures[j] == departures[j];
      }
    }
  }

  lemma ScheduledSteps(customers: seq<Customer>, d: seq<seq<real>>, route: seq<nat>, start: real,
                       arrivals: seq<real>, departures: seq<real>)
    requires WellFormed(customers, d) && ValidRoute(route, |customers|)
    requires |arrivals| == |route| && |departures| == |route|
    requires Scheduled(customers, d, route, start, arrivals, departures)
    ensures |route| > 0 ==> arrivals[0] == start
    ensures forall i :: 0 <= i < |route| ==> departures[i] == arrivals[i] + Dwell(customers, route[i])
    ensures forall i :: 0 <= i < |route| - 1 ==>
      arrivals[i + 1] == arrivals[i] + StopService(customers, route[i]) + MinutesPerUnit * d[route[i]][route[i + 1]]
  {
    forall j | 0 <= j < |route| - 1
      ensures arrivals[j + 1] == arrivals[j] + StopService(customers, route[j]) + MinutesPerUnit * d[route[j]][route[j + 1]]
    {
      ArrivalStep(customers, d, route, start, j);
    }
    if |route| > 0 {
      assert route[..1] == [route[0]] && route[..0] == [];
    }
  }
}
