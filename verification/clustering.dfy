/**
 * Geographical clustering of orders, vehicle matching and the delivery
 * reordering of the smart packing system (smart_packing_system.py).
 * Distances come from the parameter `dist`; orders and vehicles are the
 * values of module Packing, compared by value as the source's dataclasses are.
 */
module Clustering {
  import opened Basics
  import opened StableSort
  import opened Packing

  /** A result, or the `TypeError` the tuple sort raises when it has to compare two orders. */
  datatype Outcome<T> = Ok(value: T) | Unorderable

  /** Distance of an order's customer from a point. */
  function DistanceTo(dist: (Location, Location) -> real, from: Location, o: Order): real
  {
    dist(from, o.location)
  }

  function SumLat(cluster: seq<Order>): real
  {
    if cluster == [] then 0.0 else SumLat(cluster[..|cluster| - 1]) + cluster[|cluster| - 1].location.lat
  }

  function SumLng(cluster: seq<Order>): real
  {
    if cluster == [] then 0.0 else SumLng(cluster[..|cluster| - 1]) + cluster[|cluster| - 1].location.lng
  }

  /** `_calculate_cluster_center`: the mean latitude and longitude, or the depot for an empty cluster. */
  function Centroid(depot: Location, cluster: seq<Order>): Location
  {
    if cluster == [] then depot
    else Location(SumLat(cluster) / |cluster| as real, SumLng(cluster) / |cluster| as real)
  }

  lemma {:induction false} SumLatBounds(cluster: seq<Order>, lo: real, hi: real)
    requires forall k :: 0 <= k < |cluster| ==> lo <= cluster[k].location.lat <= hi
    ensures |cluster| as real * lo <= SumLat(cluster) <= |cluster| as real * hi
  {
    if cluster != [] {
      SumLatBounds(cluster[..|cluster| - 1], lo, hi);
    }
  }

  /** The centre of a non-empty cluster lies within the latitude band of its members. */
  lemma CentroidWithinBand(depot: Location, cluster: seq<Order>, lo: real, hi: real)
    requires cluster != []
    requires forall k :: 0 <= k < |cluster| ==> lo <= cluster[k].location.lat <= hi
    ensures lo <= Centroid(depot, cluster).lat <= hi
  {
    SumLatBounds(cluster, lo, hi);
    var n := |cluster| as real;
    var c := SumLat(cluster) / n;
    assert c * n == SumLat(cluster);
    if c < lo {
      assert c * n < lo * n;
    }
    if c > hi {
      assert c * n > hi * n;
    }
  }

  /** The centre of a one-order cluster is that order's location. */
  lemma CentroidOfOne(depot: Location, o: Order)
    ensures Centroid(depot, [o]) == o.location
  {
    assert [o][..0] == [];
    assert SumLat([o]) == o.location.lat && SumLng([o]) == o.location.lng;
  }

  /**
   * The scan `if distance < min_distance` from an infinite start: the first
   * order of minimal distance from `from`.
   */
  method NearestIndex(dist: (Location, Location) -> real, from: Location, s: seq<Order>)
    returns (best: nat, minDistance: real)
    requires s != []
    ensures best < |s| && minDistance == DistanceTo(dist, from, s[best])
    ensures forall j :: 0 <= j < |s| ==> minDistance <= DistanceTo(dist, from, s[j])
    ensures forall j :: 0 <= j < best ==> minDistance < DistanceTo(dist, from, s[j])
  {
    var closest: Option<nat> := None;
    minDistance := 0.0;
    for k := 0 to |s|
      invariant closest.None? <==> k == 0
      invariant closest.Some? ==> closest.value < k && minDistance == DistanceTo(dist, from, s[closest.value])
      invariant forall j :: 0 <= j < k ==> minDistance <= DistanceTo(dist, from, s[j])
      invariant closest.Some? ==> forall j :: 0 <= j < closest.value ==> minDistance < DistanceTo(dist, from, s[j])
    {
      var distance := DistanceTo(dist, from, s[k]);
      if closest.None? || distance < minDistance {
        minDistance := distance;
        closest := Some(k);
      }
    }
    best := closest.value;
  }

  /**
   * Two different orders at exactly the same distance from the depot: the
   * tuples `(distance, order)` then tie on the distance and the sort has to
   * compare the orders themselves, which define no ordering.
   */
  predicate HasTie(depot: Location, dist: (Location, Location) -> real, s: seq<Order>)
  {
    exists i, j :: 0 <= i < |s| && 0 <= j < |s| && s[i] != s[j] &&
      DistanceTo(dist, depot, s[i]) == DistanceTo(dist, depot, s[j])
  }

  lemma TieInLarger(depot: Location, dist: (Location, Location) -> real, small: seq<Order>, large: seq<Order>)
    requires multiset(small) <= multiset(large) && HasTie(depot, dist, small)
    ensures HasTie(depot, dist, large)
  {
    var i, j :| 0 <= i < |small| && 0 <= j < |small| && small[i] != small[j] &&
      DistanceTo(dist, depot, small[i]) == DistanceTo(dist, depot, small[j]);
    assert small[i] in multiset(large) && small[j] in multiset(large);
    var i', j' :| 0 <= i' < |large| && 0 <= j' < |large| && large[i'] == small[i] && large[j'] == small[j];
  }

  lemma RemoveIndex<T>(s: seq<T>, i: nat)
    requires i < |s|
    ensures multiset(s[..i] + s[i + 1..]) + multiset{s[i]} == multiset(s)
  {
    assert s == s[..i] + [s[i]] + s[i + 1..];
  }

  /** The largest size the growth loop allows: the seed always, more only below `maxClusterSize`. */
  function SizeBound(maxClusterSize: int): nat
  {
    if maxClusterSize < 1 then 1 else maxClusterSize
  }

  /**
   * Member k (after the seed) was the order nearest the centre of the
   * members before it, closer than 10 km, and no order that came after it,
   * in the cluster or in `rest`, is nearer to that centre.
   */
  ghost predicate JoinedNearest(depot: Location, dist: (Location, Location) -> real,
                                cluster: seq<Order>, k: nat, rest: multiset<Order>)
    requires 1 <= k < |cluster|
  {
    var center := Centroid(depot, cluster[..k]);
    var d := DistanceTo(dist, center, cluster[k]);
    d < 10.0 &&
    (forall o :: o in rest ==> d <= DistanceTo(dist, center, o)) &&
    forall m :: k < m < |cluster| ==> d <= DistanceTo(dist, center, cluster[m])
  }

  ghost predicate Grown(depot: Location, dist: (Location, Location) -> real, cluster: seq<Order>, rest: multiset<Order>)
  {
    forall k :: 1 <= k < |cluster| ==> JoinedNearest(depot, dist, cluster, k, rest)
  }

  lemma GrowStep(depot: Location, dist: (Location, Location) -> real, cluster: seq<Order>,
                 rest: seq<Order>, i: nat)
    requires cluster != [] && i < |rest| && Grown(depot, dist, cluster, multiset(rest))
    requires var center := Centroid(depot, cluster);
      DistanceTo(dist, center, rest[i]) < 10.0 &&
      forall j :: 0 <= j < |rest| ==> DistanceTo(dist, center, rest[i]) <= DistanceTo(dist, center, rest[j])
    ensures Grown(depot, dist, cluster + [rest[i]], multiset(rest[..i] + rest[i + 1..]))
  {
    var grown := cluster + [rest[i]];
    var after := rest[..i] + rest[i + 1..];
    RemoveIndex(rest, i);
    assert grown[..|cluster|] == cluster;
    forall k | 1 <= k < |grown| ensures JoinedNearest(depot, dist, grown, k, multiset(after)) {
      assert grown[..k] == cluster[..k];
      if k < |cluster| {
        assert JoinedNearest(depot, dist, cluster, k, multiset(rest));
        assert rest[i] in multiset(rest);
      } else {
        var center := Centroid(depot, cluster);
        forall o | o in multiset(after) ensures DistanceTo(dist, center, rest[i]) <= DistanceTo(dist, center, o) {
          assert o in multiset(rest);
        }
      }
    }
  }

  /**
   * The growth loop of `create_geographical_clusters`: starting from `seed`,
   * repeatedly take the remaining order nearest the cluster's centre while
   * the cluster is under `maxClusterSize` and that order is within 10 km.
   */
  method GrowCluster(depot: Location, dist: (Location, Location) -> real, seed: Order,
                     remaining: seq<Order>, maxClusterSize: int)
    returns (cluster: seq<Order>, rest: seq<Order>)
    ensures |cluster| >= 1 && cluster[0] == seed && |cluster| <= SizeBound(maxClusterSize)
    ensures multiset(cluster[1..]) + multiset(rest) == multiset(remaining)
    ensures Grown(depot, dist, cluster, multiset(rest))
    ensures |cluster| < maxClusterSize && rest != [] ==>
      forall o :: o in rest ==> DistanceTo(dist, Centroid(depot, cluster), o) >= 10.0
  {
    cluster, rest := [seed], remaining;
    while |cluster| < maxClusterSize && rest != []
      invariant |cluster| >= 1 && cluster[0] == seed && |cluster| <= SizeBound(maxClusterSize)
      invariant multiset(cluster[1..]) + multiset(rest) == multiset(remaining)
      invariant Grown(depot, dist, cluster, multiset(rest))
      decreases |rest|
    {
      var center := Centroid(depot, cluster);
      var closest, minDistance := NearestIndex(dist, center, rest);
      if minDistance < 10.0 {
        GrowStep(depot, dist, cluster, rest, closest);
        RemoveIndex(rest, closest);
        assert (cluster + [rest[closest]])[1..] == cluster[1..] + [rest[closest]];
        cluster := cluster + [rest[closest]];
        rest := rest[..closest] + rest[closest + 1..];
      } else {
        break;
      }
    }
  }

  /**
   * What one finished cluster satisfies, given the orders `after` still
   * unclustered once it was complete: a seed of least depot distance, each
   * further member the nearest to the centre so far and within 10 km, and
   * growth stopped only by the size bound, by running out of orders, or
   * because every remaining order was 10 km or more from the centre.
   */
  ghost predicate ClusterOk(depot: Location, dist: (Location, Location) -> real, maxClusterSize: int,
                            cluster: seq<Order>, after: multiset<Order>)
  {
    1 <= |cluster| <= SizeBound(maxClusterSize) &&
    (forall o :: o in after ==> DistanceTo(dist, depot, cluster[0]) <= DistanceTo(dist, depot, o)) &&
    (forall k :: 0 <= k < |cluster| ==> DistanceTo(dist, depot, cluster[0]) <= DistanceTo(dist, depot, cluster[k])) &&
    Grown(depot, dist, cluster, after) &&
    (|cluster| < maxClusterSize && after != multiset{} ==>
      forall o :: o in after ==> DistanceTo(dist, Centroid(depot, cluster), o) >= 10.0)
  }

  function Flatten(clusters: seq<seq<Order>>): seq<Order>
  {
    if clusters == [] then [] else Flatten(clusters[..|clusters| - 1]) + clusters[|clusters| - 1]
  }

  lemma FlattenAppend(clusters: seq<seq<Order>>, c: seq<Order>)
    ensures Flatten(clusters + [c]) == Flatten(clusters) + c
  {
    assert (clusters + [c])[..|clusters|] == clusters;
  }

  /** The orders clustered after cluster c, together with those not yet clustered. */
  ghost function Later(clusters: seq<seq<Order>>, c: nat, remaining: seq<Order>): multiset<Order>
    requires c < |clusters|
  {
    multiset(Flatten(clusters[c + 1..])) + multiset(remaining)
  }

  lemma LaterAppend(clusters: seq<seq<Order>>, c: nat, remaining: seq<Order>, cluster: seq<Order>, rest: seq<Order>)
    requires c < |clusters| && multiset(cluster) + multiset(rest) == multiset(remaining)
    ensures Later(clusters + [cluster], c, rest) == Later(clusters, c, remaining)
  {
    assert (clusters + [cluster])[c + 1..] == clusters[c + 1..] + [cluster];
    FlattenAppend(clusters[c + 1..], cluster);
  }

  /** The seed is nearest the depot among the remaining orders, and so nearer than the rest of its cluster. */
  lemma SeedOk(depot: Location, dist: (Location, Location) -> real, maxClusterSize: int,
               remaining: seq<Order>, s: nat, cluster: seq<Order>, rest: seq<Order>)
    requires s < |remaining|
    requires forall j :: 0 <= j < |remaining| ==> DistanceTo(dist, depot, remaining[s]) <= DistanceTo(dist, depot, remaining[j])
    requires |cluster| >= 1 && cluster[0] == remaining[s] && |cluster| <= SizeBound(maxClusterSize)
    requires multiset(cluster[1..]) + multiset(rest) == multiset(remaining[..s] + remaining[s + 1..])
    requires Grown(depot, dist, cluster, multiset(rest))
    requires |cluster| < maxClusterSize && rest != [] ==>
      forall o :: o in rest ==> DistanceTo(dist, Centroid(depot, cluster), o) >= 10.0
    ensures ClusterOk(depot, dist, maxClusterSize, cluster, multiset(rest))
    ensures multiset(cluster) + multiset(rest) == multiset(remaining)
  {
    RemoveIndex(remaining, s);
    assert cluster == [cluster[0]] + cluster[1..];
    forall o | o in multiset(rest) ensures DistanceTo(dist, depot, cluster[0]) <= DistanceTo(dist, depot, o) {
      assert o in multiset(remaining);
    }
    forall k | 0 <= k < |cluster| ensures DistanceTo(dist, depot, cluster[0]) <= DistanceTo(dist, depot, cluster[k]) {
      if k > 0 {
        assert cluster[k] == cluster[1..][k - 1];
        assert cluster[k] in multiset(remaining);
      }
    }
    if |cluster| < maxClusterSize && multiset(rest) != multiset{} {
      assert rest != [];
    }
  }

  lemma ClusterOkSame(depot: Location, dist: (Location, Location) -> real, maxClusterSize: int,
                      cluster: seq<Order>, cluster': seq<Order>, after: multiset<Order>, after': multiset<Order>)
    requires cluster == cluster' && after == after' && ClusterOk(depot, dist, maxClusterSize, cluster, after)
    ensures ClusterOk(depot, dist, maxClusterSize, cluster', after')
  {
  }

  lemma KeepEarlier(depot: Location, dist: (Location, Location) -> real, maxClusterSize: int,
                    clusters: seq<seq<Order>>, c: nat, remaining: seq<Order>, cluster: seq<Order>, rest: seq<Order>)
    requires c < |clusters| && multiset(cluster) + multiset(rest) == multiset(remaining)
    requires ClusterOk(depot, dist, maxClusterSize, clusters[c], Later(clusters, c, remaining))
    ensures ClusterOk(depot, dist, maxClusterSize, (clusters + [cluster])[c], Later(clusters + [cluster], c, rest))
  {
    LaterAppend(clusters, c, remaining, cluster, rest);
    ClusterOkSame(depot, dist, maxClusterSize, clusters[c], (clusters + [cluster])[c],
                  Later(clusters, c, remaining), Later(clusters + [cluster], c, rest));
  }

  /** Appending a finished cluster keeps every earlier cluster's guarantee and the partition of the orders. */
  lemma ExtendClusters(depot: Location, dist: (Location, Location) -> real, maxClusterSize: int,
                       clusters: seq<seq<Order>>, remaining: seq<Order>, cluster: seq<Order>, rest: seq<Order>)
    requires forall c :: 0 <= c < |clusters| ==>
      ClusterOk(depot, dist, maxClusterSize, clusters[c], Later(clusters, c, remaining))
    requires ClusterOk(depot, dist, maxClusterSize, cluster, multiset(rest))
    requires multiset(cluster) + multiset(rest) == multiset(remaining)
    ensures forall c :: 0 <= c < |clusters| + 1 ==>
      ClusterOk(depot, dist, maxClusterSize, (clusters + [cluster])[c], Later(clusters + [cluster], c, rest))
  {
    var extended := clusters + [cluster];
    forall c | 0 <= c < |extended|
      ensures ClusterOk(depot, dist, maxClusterSize, extended[c], Later(extended, c, rest))
    {
      if c < |clusters| {
        KeepEarlier(depot, dist, maxClusterSize, clusters, c, remaining, cluster, rest);
      } else {
        assert extended[|clusters| + 1..] == [];
        ClusterOkSame(depot, dist, maxClusterSize, cluster, extended[c], multiset(rest), Later(extended, c, rest));
      }
    }
  }

  lemma ExtendPartition(orders: seq<Order>, clusters: seq<seq<Order>>, remaining: seq<Order>, cluster: seq<Order>, rest: seq<Order>)
    requires multiset(Flatten(clusters)) + multiset(remaining) == multiset(orders)
    requires multiset(cluster) + multiset(rest) == multiset(remaining)
    ensures multiset(Flatten(clusters + [cluster])) + multiset(rest) == multiset(orders)
  {
    FlattenAppend(clusters, cluster);
  }

  /**
   * `create_geographical_clusters`: clusters whose concatenation is a
   * permutation of the orders, each satisfying `ClusterOk` with respect to
   * the orders clustered after it; `Unorderable` exactly when two different
   * orders lie at the same distance from the depot.
   */
  method CreateGeographicalClusters(depot: Location, dist: (Location, Location) -> real,
                                    orders: seq<Order>, maxClusterSize: int)
    returns (result: Outcome<seq<seq<Order>>>)
    ensures orders == [] ==> result == Ok([])
    ensures result.Unorderable? <==> HasTie(depot, dist, orders)
    ensures result.Ok? ==> multiset(Flatten(result.value)) == multiset(orders)
    ensures result.Ok? ==> forall c :: 0 <= c < |result.value| ==>
      ClusterOk(depot, dist, maxClusterSize, result.value[c], Later(result.value, c, []))
  {
    if orders == [] {
      return Ok([]);
    }
    var clusters: seq<seq<Order>> := [];
    var remaining := orders;
    while remaining != []
      invariant multiset(Flatten(clusters)) + multiset(remaining) == multiset(orders)
      invariant clusters == [] ==> remaining == orders
      invariant clusters != [] ==> !HasTie(depot, dist, orders)
      invariant forall c :: 0 <= c < |clusters| ==>
        ClusterOk(depot, dist, maxClusterSize, clusters[c], Later(clusters, c, remaining))
      decreases |remaining|
    {
      if HasTie(depot, dist, remaining) {
        assert multiset(remaining) <= multiset(orders);
        TieInLarger(depot, dist, remaining, orders);
        return Unorderable;
      }
      var s, _ := NearestIndex(dist, depot, remaining);
      var cluster, rest := GrowCluster(depot, dist, remaining[s], remaining[..s] + remaining[s + 1..], maxClusterSize);
      SeedOk(depot, dist, maxClusterSize, remaining, s, cluster, rest);
      ExtendClusters(depot, dist, maxClusterSize, clusters, remaining, cluster, rest);
      ExtendPartition(orders, clusters, remaining, cluster, rest);
      clusters := clusters + [cluster];
      remaining := rest;
    }
    return Ok(clusters);
  }

  // ---------------------------------------------------------------- vehicle matching

  /** Sort key for vehicles: descending weight capacity. */
  function CapacityKey(v: Vehicle): seq<real>
  {
    [-v.capacityWeight]
  }

  /** The vehicles by descending weight capacity; Python keeps a reversed sort stable. */
  function SortVehicles(vehicles: seq<Vehicle>): seq<Vehicle>
  {
    SortBy(vehicles, CapacityKey)
  }

  /**
   * The vehicles are tried largest capacity first, every vehicle exactly as
   * often as given, and vehicles of equal capacity in their given order.
   */
  lemma SortVehiclesCorrect(vehicles: seq<Vehicle>)
    ensures var r := SortVehicles(vehicles);
      multiset(r) == multiset(vehicles) &&
      (forall i, j :: 0 <= i < j < |r| ==> r[i].capacityWeight >= r[j].capacityWeight) &&
      forall k :: WithKey(r, CapacityKey, k) == WithKey(vehicles, CapacityKey, k)
  {
    var r := SortVehicles(vehicles);
    SortByCorrect(vehicles, CapacityKey);
    forall i, j | 0 <= i < j < |r| ensures r[i].capacityWeight >= r[j].capacityWeight {
      assert LexLe(CapacityKey(r[i]), CapacityKey(r[j]));
    }
    forall k ensures WithKey(r, CapacityKey, k) == WithKey(vehicles, CapacityKey, k) {
      SortByStable(vehicles, CapacityKey, k);
    }
  }

  /** Both capacities can be divided by. */
  predicate NonZeroCapacity(v: Vehicle)
  {
    v.capacityWeight != 0.0 && v.capacityVolume != 0.0
  }

  /** `min(weight_util, volume_util) * 100` for the orders a vehicle would take. */
  function Utilization(v: Vehicle, orders: seq<Order>): real
    requires NonZeroCapacity(v)
  {
    Min(OrdersWeight(orders) / v.capacityWeight, OrdersVolume(orders) / v.capacityVolume) * 100.0
  }

  /**
   * The vehicle scan divides by the capacities of every vehicle not yet
   * taken that can handle part of the cluster, and of no other.
   */
  predicate ScoresDefined(vehicles: seq<Vehicle>, used: seq<Vehicle>, cluster: seq<Order>)
  {
    forall j :: 0 <= j < |vehicles| && vehicles[j] !in used && Compatible(vehicles[j], cluster) != [] ==>
      NonZeroCapacity(vehicles[j])
  }

  /**
   * Not yet assigned, able to take part of the cluster, and with a score in
   * (0, 100]. Where the scan's divisions are defined, a vehicle meeting the
   * first two conditions has non-zero capacities.
   */
  predicate Candidate(v: Vehicle, used: seq<Vehicle>, cluster: seq<Order>)
  {
    v !in used && Compatible(v, cluster) != [] && NonZeroCapacity(v) &&
    0.0 < Utilization(v, Compatible(v, cluster)) <= 100.0
  }

  /**
   * The inner vehicle loop of `generate_master_packing_plan`: the index of
   * the first candidate of greatest score, if any.
   */
  method ChooseVehicle(vehicles: seq<Vehicle>, used: seq<Vehicle>, cluster: seq<Order>)
    returns (best: Option<nat>, bestUtilization: real)
    requires ScoresDefined(vehicles, used, cluster)
    ensures best.Some? ==> (best.value < |vehicles| && Candidate(vehicles[best.value], used, cluster) &&
      bestUtilization == Utilization(vehicles[best.value], Compatible(vehicles[best.value], cluster)))
    ensures best.Some? ==> forall j :: 0 <= j < |vehicles| && Candidate(vehicles[j], used, cluster) ==>
      Utilization(vehicles[j], Compatible(vehicles[j], cluster)) <= bestUtilization
    ensures best.Some? ==> forall j :: 0 <= j < best.value && Candidate(vehicles[j], used, cluster) ==>
      Utilization(vehicles[j], Compatible(vehicles[j], cluster)) < bestUtilization
    ensures best.None? <==> forall j :: 0 <= j < |vehicles| ==> !Candidate(vehicles[j], used, cluster)
  {
    best, bestUtilization := None, 0.0;
    for i := 0 to |vehicles|
      invariant best.None? ==> bestUtilization == 0.0
      invariant best.None? <==> forall j :: 0 <= j < i ==> !Candidate(vehicles[j], used, cluster)
      invariant best.Some? ==> (best.value < i && Candidate(vehicles[best.value], used, cluster) &&
        bestUtilization == Utilization(vehicles[best.value], Compatible(vehicles[best.value], cluster)))
      invariant forall j :: 0 <= j < i && Candidate(vehicles[j], used, cluster) ==>
        Utilization(vehicles[j], Compatible(vehicles[j], cluster)) <= bestUtilization
      invariant best.Some? ==> forall j :: 0 <= j < best.value && Candidate(vehicles[j], used, cluster) ==>
        Utilization(vehicles[j], Compatible(vehicles[j], cluster)) < bestUtilization
    {
      var v := vehicles[i];
      if v in used {
        continue;
      }
      var compatible := Compatible(v, cluster);
      if compatible == [] {
        continue;
      }
      var score := Utilization(v, compatible);
      if score > bestUtilization && score <= 100.0 {
        bestUtilization := score;
        best := Some(i);
      }
    }
  }

  /** Only the smaller utilisation is bounded: a chosen vehicle may be loaded past its weight capacity. */
  lemma OverweightCandidate()
    ensures var p := Package("p", "c", 8.0, 1.0, 1.0, 1.0, false, false, false, 0.0);
      var o := Order("o", "c", Location(0.0, 0.0), "a", Normal, 0.0, 0.0, [p], "");
      var v := Vehicle("v", 10.0, 20.0, "d", Location(0.0, 0.0), 0.0, []);
      Candidate(v, [], [o, o]) && OrdersWeight(Compatible(v, [o, o])) > v.capacityWeight
  {
    var p := Package("p", "c", 8.0, 1.0, 1.0, 1.0, false, false, false, 0.0);
    var o := Order("o", "c", Location(0.0, 0.0), "a", Normal, 0.0, 0.0, [p], "");
    var v := Vehicle("v", 10.0, 20.0, "d", Location(0.0, 0.0), 0.0, []);
    SingleTotals(p);
    assert CanHandleOrder(v, o);
    PairOrders(v, o);
    assert Utilization(v, [o, o]) == 10.0;
  }

  lemma SingleTotals(p: Package)
    ensures TotalWeight([p]) == p.weight && TotalVolume([p]) == Volume(p)
  {
    assert [p][..0] == [];
  }

  /** Two copies of an order the vehicle can handle are both kept, and their totals double. */
  lemma PairOrders(v: Vehicle, o: Order)
    requires CanHandleOrder(v, o)
    ensures Compatible(v, [o, o]) == [o, o]
    ensures OrdersWeight([o, o]) == 2.0 * TotalWeight(o.packages)
    ensures OrdersVolume([o, o]) == 2.0 * TotalVolume(o.packages)
  {
    assert [o, o][..1] == [o] && [o][..0] == [];
    assert Compatible(v, [o]) == [o];
    assert OrdersWeight([o]) == TotalWeight(o.packages);
    assert OrdersVolume([o]) == TotalVolume(o.packages);
  }

  /** A cluster given a vehicle: its index, the vehicle, the orders it takes and their loading plan. */
  datatype Assignment = Assignment(cluster: nat, vehicle: Vehicle, orders: seq<Order>, plan: LoadingPlan)

  function Vehicles(assignments: seq<Assignment>): (r: seq<Vehicle>)
    ensures |r| == |assignments| && forall a :: 0 <= a < |r| ==> r[a] == assignments[a].vehicle
  {
    seq(|assignments|, a requires 0 <= a < |assignments| => assignments[a].vehicle)
  }

  function AssignedCount(assignments: seq<Assignment>): nat
  {
    if assignments == [] then 0
    else AssignedCount(assignments[..|assignments| - 1]) + |assignments[|assignments| - 1].orders|
  }

  /** The vehicles assigned to clusters before cluster c. */
  function UsedBefore(assignments: seq<Assignment>, c: nat): seq<Vehicle>
  {
    if assignments == [] then []
    else
      var last := assignments[|assignments| - 1];
      UsedBefore(assignments[..|assignments| - 1], c) + if last.cluster < c then [last.vehicle] else []
  }

  lemma {:induction false} UsedBeforeAll(assignments: seq<Assignment>, c: nat)
    requires forall a :: 0 <= a < |assignments| ==> assignments[a].cluster < c
    ensures UsedBefore(assignments, c) == Vehicles(assignments)
  {
    if assignments != [] {
      UsedBeforeAll(assignments[..|assignments| - 1], c);
    }
  }

  lemma {:induction false} UsedBeforeAppend(assignments: seq<Assignment>, a: Assignment, c: nat)
    requires a.cluster >= c
    ensures UsedBefore(assignments + [a], c) == UsedBefore(assignments, c)
  {
    assert (assignments + [a])[..|assignments|] == assignments;
  }

  /** Some assignment names cluster c. */
  predicate Assigned(assignments: seq<Assignment>, c: nat)
  {
    exists a :: 0 <= a < |assignments| && assignments[a].cluster == c
  }

  lemma AssignedExtend(assignments: seq<Assignment>, x: Assignment, c: nat)
    ensures Assigned(assignments + [x], c) <==> Assigned(assignments, c) || x.cluster == c
  {
    var e := assignments + [x];
    if Assigned(e, c) && x.cluster != c {
      var b :| 0 <= b < |e| && e[b].cluster == c;
      assert b < |assignments| && assignments[b] == e[b];
    }
    if Assigned(assignments, c) {
      var b :| 0 <= b < |assignments| && assignments[b].cluster == c;
      assert e[b] == assignments[b];
    }
    assert e[|assignments|] == x;
  }

  /** No vehicle of the list is a candidate for the cluster. */
  predicate NoCandidate(vehicles: seq<Vehicle>, used: seq<Vehicle>, cluster: seq<Order>)
  {
    forall j :: 0 <= j < |vehicles| ==> !Candidate(vehicles[j], used, cluster)
  }

  /** The clusters, among the first `n`, that no assignment names, concatenated in order. */
  function UnassignedOf(clusters: seq<seq<Order>>, n: nat, assignments: seq<Assignment>): seq<Order>
    requires n <= |clusters|
  {
    if n == 0 then []
    else (UnassignedOf(clusters, n - 1, assignments) +
      if Assigned(assignments, n - 1) then [] else clusters[n - 1])
  }

  lemma {:induction false} UnassignedOfExtend(clusters: seq<seq<Order>>, n: nat, assignments: seq<Assignment>, a: Assignment)
    requires n <= |clusters| && a.cluster >= n
    ensures UnassignedOf(clusters, n, assignments + [a]) == UnassignedOf(clusters, n, assignments)
  {
    if n > 0 {
      UnassignedOfExtend(clusters, n - 1, assignments, a);
      AssignedExtend(assignments, a, n - 1);
    }
  }

  /** Assignment a is what the loop decides for its cluster, given the vehicles taken before it. */
  ghost predicate AssignmentOk(depot: Location, dist: (Location, Location) -> real, clusters: seq<seq<Order>>,
                               vehicles: seq<Vehicle>, assignments: seq<Assignment>, a: nat)
    requires a < |assignments|
  {
    var x := assignments[a];
    x.cluster < |clusters| &&
    exists i :: 0 <= i < |vehicles| && vehicles[i] == x.vehicle &&
      Candidate(x.vehicle, UsedBefore(assignments, x.cluster), clusters[x.cluster]) &&
      (forall j :: 0 <= j < |vehicles| && Candidate(vehicles[j], UsedBefore(assignments, x.cluster), clusters[x.cluster]) ==>
        Utilization(vehicles[j], Compatible(vehicles[j], clusters[x.cluster])) <=
        Utilization(x.vehicle, Compatible(x.vehicle, clusters[x.cluster]))) &&
      (forall j :: 0 <= j < i && Candidate(vehicles[j], UsedBefore(assignments, x.cluster), clusters[x.cluster]) ==>
        Utilization(vehicles[j], Compatible(vehicles[j], clusters[x.cluster])) <
        Utilization(x.vehicle, Compatible(x.vehicle, clusters[x.cluster]))) &&
      x.orders == Compatible(x.vehicle, clusters[x.cluster]) &&
      PlanFor(depot, dist, x.vehicle, x.orders, x.plan)
  }

  /** Every assignment names a cluster before c. */
  predicate Before(assignments: seq<Assignment>, c: nat)
  {
    forall a :: 0 <= a < |assignments| ==> assignments[a].cluster < c
  }

  /** Assignments come in ascending cluster order, each with a vehicle of its own. */
  predicate Increasing(assignments: seq<Assignment>)
  {
    forall a, b :: 0 <= a < b < |assignments| ==>
      assignments[a].cluster < assignments[b].cluster && assignments[a].vehicle != assignments[b].vehicle
  }

  /** Every assignment is what the loop decides for its cluster. */
  ghost predicate AllOk(depot: Location, dist: (Location, Location) -> real, clusters: seq<seq<Order>>,
                        vehicles: seq<Vehicle>, assignments: seq<Assignment>)
  {
    forall a :: 0 <= a < |assignments| ==> AssignmentOk(depot, dist, clusters, vehicles, assignments, a)
  }

  /** Every cluster before c left unassigned had no candidate vehicle when its turn came. */
  predicate Skipped(clusters: seq<seq<Order>>, vehicles: seq<Vehicle>, c: nat, assignments: seq<Assignment>)
    requires c <= |clusters|
  {
    forall e :: 0 <= e < c && !Assigned(assignments, e) ==>
      NoCandidate(vehicles, UsedBefore(assignments, e), clusters[e])
  }

  /** What the cluster loop has established once clusters `..c` are decided. */
  ghost predicate Progress(depot: Location, dist: (Location, Location) -> real, clusters: seq<seq<Order>>,
                           vehicles: seq<Vehicle>, c: nat, assignments: seq<Assignment>, unassigned: seq<Order>)
    requires c <= |clusters|
  {
    Before(assignments, c) && Increasing(assignments) &&
    AllOk(depot, dist, clusters, vehicles, assignments) &&
    unassigned == UnassignedOf(clusters, c, assignments) &&
    Skipped(clusters, vehicles, c, assignments) &&
    AssignedCount(assignments) + |unassigned| <= |Flatten(clusters[..c])|
  }

  /**
   * The scan of every cluster divides by the capacities of every vehicle
   * that can handle part of it: a vehicle is only ever taken after its
   * score was computed, so it is never skipped as taken before that.
   */
  predicate NonZeroCapacities(vehicles: seq<Vehicle>, clusters: seq<seq<Order>>)
  {
    forall c, j :: 0 <= c < |clusters| && 0 <= j < |vehicles| && Compatible(vehicles[j], clusters[c]) != [] ==>
      NonZeroCapacity(vehicles[j])
  }

  /**
   * The cluster loop of `generate_master_packing_plan`: each cluster gets
   * the best candidate vehicle not yet taken, which carries exactly the
   * cluster's orders it can handle (the others are dropped); a cluster no
   * vehicle can take goes whole to the unassigned orders.
   */
  method AssignVehicles(depot: Location, dist: (Location, Location) -> real, clusters: seq<seq<Order>>, vehicles: seq<Vehicle>)
    returns (assignments: seq<Assignment>, unassigned: seq<Order>)
    requires NonZeroCapacities(vehicles, clusters)
    ensures forall a, b :: 0 <= a < b < |assignments| ==>
      assignments[a].cluster < assignments[b].cluster && assignments[a].vehicle != assignments[b].vehicle
    ensures forall a :: 0 <= a < |assignments| ==> AssignmentOk(depot, dist, clusters, vehicles, assignments, a)
    ensures unassigned == UnassignedOf(clusters, |clusters|, assignments)
    ensures forall c :: 0 <= c < |clusters| && !Assigned(assignments, c) ==>
      NoCandidate(vehicles, UsedBefore(assignments, c), clusters[c])
    ensures AssignedCount(assignments) + |unassigned| <= |Flatten(clusters)|
  {
    assignments, unassigned := [], [];
    for c := 0 to |clusters|
      invariant Progress(depot, dist, clusters, vehicles, c, assignments, unassigned)
    {
      UsedBeforeAll(assignments, c);
      var choice, _ := ChooseVehicle(vehicles, Vehicles(assignments), clusters[c]);
      if choice.Some? {
        var v := vehicles[choice.value];
        var compatible := Compatible(v, clusters[c]);
        var plan := CreateLoadingPlan(depot, dist, v, compatible);
        var x := Assignment(c, v, compatible, plan);
        assert BestChoice(depot, dist, clusters, vehicles, c, assignments, x, choice.value);
        AssignStep(depot, dist, clusters, vehicles, c, assignments, unassigned, x, choice.value);
        assignments := assignments + [x];
      } else {
        SkipStep(depot, dist, clusters, vehicles, c, assignments, unassigned);
        unassigned := unassigned + clusters[c];
      }
    }
    assert clusters[..|clusters|] == clusters;
  }

  /**
   * x is the loop's decision for cluster c once `assignments` are made:
   * vehicle i, the best candidate not yet taken, with the cluster's orders it
   * can handle and their loading plan.
   */
  ghost predicate BestChoice(depot: Location, dist: (Location, Location) -> real, clusters: seq<seq<Order>>,
                             vehicles: seq<Vehicle>, c: nat, assignments: seq<Assignment>, x: Assignment, i: nat)
    requires c < |clusters| && i < |vehicles|
  {
    x.cluster == c && x.vehicle == vehicles[i] &&
    Candidate(x.vehicle, Vehicles(assignments), clusters[c]) &&
    (forall j :: 0 <= j < |vehicles| && Candidate(vehicles[j], Vehicles(assignments), clusters[c]) ==>
      Utilization(vehicles[j], Compatible(vehicles[j], clusters[c])) <= Utilization(x.vehicle, Compatible(x.vehicle, clusters[c]))) &&
    (forall j :: 0 <= j < i && Candidate(vehicles[j], Vehicles(assignments), clusters[c]) ==>
      Utilization(vehicles[j], Compatible(vehicles[j], clusters[c])) < Utilization(x.vehicle, Compatible(x.vehicle, clusters[c]))) &&
    x.orders == Compatible(x.vehicle, clusters[c]) &&
    PlanFor(depot, dist, x.vehicle, x.orders, x.plan)
  }

  /** Taking cluster c with the best candidate, x, keeps the loop's progress. */
  lemma AssignStep(depot: Location, dist: (Location, Location) -> real, clusters: seq<seq<Order>>, vehicles: seq<Vehicle>,
                   c: nat, assignments: seq<Assignment>, unassigned: seq<Order>, x: Assignment, i: nat)
    requires c < |clusters| && i < |vehicles|
    requires Progress(depot, dist, clusters, vehicles, c, assignments, unassigned)
    requires BestChoice(depot, dist, clusters, vehicles, c, assignments, x, i)
    ensures Progress(depot, dist, clusters, vehicles, c + 1, assignments + [x], unassigned)
  {
    AssignStepOk(depot, dist, clusters, vehicles, c, assignments, x, i);
    AssignStepOrder(assignments, c, x);
    AssignStepSkipped(clusters, vehicles, c, assignments, x);
    AssignStepUnassigned(clusters, c, assignments, x);
    AssignedCountStep(clusters, c, assignments, unassigned, x);
  }

  /** An assignment for cluster c leaves the unassigned orders of clusters `..c + 1` as those of `..c`. */
  lemma AssignStepUnassigned(clusters: seq<seq<Order>>, c: nat, assignments: seq<Assignment>, x: Assignment)
    requires c < |clusters| && x.cluster == c
    ensures UnassignedOf(clusters, c + 1, assignments + [x]) == UnassignedOf(clusters, c, assignments)
  {
    UnassignedOfExtend(clusters, c, assignments, x);
    AssignedExtend(assignments, x, c);
  }

  /** A new assignment for cluster c with a vehicle not yet taken keeps the order of the assignments. */
  lemma AssignStepOrder(assignments: seq<Assignment>, c: nat, x: Assignment)
    requires Before(assignments, c) && Increasing(assignments) && x.cluster == c
    requires x.vehicle !in Vehicles(assignments)
    ensures Before(assignments + [x], c + 1) && Increasing(assignments + [x])
  {
    var e := assignments + [x];
    forall a | 0 <= a < |assignments| ensures assignments[a].vehicle != x.vehicle {
      assert Vehicles(assignments)[a] == assignments[a].vehicle;
    }
    forall a, b | 0 <= a < b < |e| ensures e[a].cluster < e[b].cluster && e[a].vehicle != e[b].vehicle {
      if b == |assignments| {
        assert e[a] == assignments[a] && e[b] == x;
      } else {
        assert e[a] == assignments[a] && e[b] == assignments[b];
      }
    }
  }

  /** Assigning cluster c leaves the record of skipped clusters before it as it was. */
  lemma AssignStepSkipped(clusters: seq<seq<Order>>, vehicles: seq<Vehicle>, c: nat, assignments: seq<Assignment>, x: Assignment)
    requires c < |clusters| && x.cluster == c
    requires Skipped(clusters, vehicles, c, assignments)
    ensures Skipped(clusters, vehicles, c + 1, assignments + [x])
  {
    var e := assignments + [x];
    AssignedExtend(assignments, x, c);
    forall f | 0 <= f < c + 1 && !Assigned(e, f) ensures NoCandidate(vehicles, UsedBefore(e, f), clusters[f]) {
      UsedBeforeAppend(assignments, x, f);
      AssignedExtend(assignments, x, f);
    }
  }

  lemma AssignStepOk(depot: Location, dist: (Location, Location) -> real, clusters: seq<seq<Order>>, vehicles: seq<Vehicle>,
                     c: nat, assignments: seq<Assignment>, x: Assignment, i: nat)
    requires c < |clusters| && i < |vehicles|
    requires Before(assignments, c) && AllOk(depot, dist, clusters, vehicles, assignments)
    requires BestChoice(depot, dist, clusters, vehicles, c, assignments, x, i)
    ensures AllOk(depot, dist, clusters, vehicles, assignments + [x])
  {
    var e := assignments + [x];
    UsedBeforeAll(assignments, c);
    forall a | 0 <= a < |e| ensures AssignmentOk(depot, dist, clusters, vehicles, e, a) {
      if a < |assignments| {
        assert e[a] == assignments[a];
        UsedBeforeAppend(assignments, x, assignments[a].cluster);
        assert AssignmentOk(depot, dist, clusters, vehicles, assignments, a);
      } else {
        UsedBeforeAppend(assignments, x, c);
      }
    }
  }

  lemma AssignedCountStep(clusters: seq<seq<Order>>, c: nat, assignments: seq<Assignment>, unassigned: seq<Order>, x: Assignment)
    requires c < |clusters| && |x.orders| <= |clusters[c]|
    requires AssignedCount(assignments) + |unassigned| <= |Flatten(clusters[..c])|
    ensures AssignedCount(assignments + [x]) + |unassigned| <= |Flatten(clusters[..c + 1])|
  {
    assert (assignments + [x])[..|assignments|] == assignments;
    assert clusters[..c + 1] == clusters[..c] + [clusters[c]];
    FlattenAppend(clusters[..c], clusters[c]);
  }

  /** Leaving cluster c to the unassigned orders, when no vehicle is a candidate, keeps the loop's progress. */
  lemma SkipStep(depot: Location, dist: (Location, Location) -> real, clusters: seq<seq<Order>>, vehicles: seq<Vehicle>,
                 c: nat, assignments: seq<Assignment>, unassigned: seq<Order>)
    requires c < |clusters|
    requires Progress(depot, dist, clusters, vehicles, c, assignments, unassigned)
    requires NoCandidate(vehicles, Vehicles(assignments), clusters[c])
    ensures Progress(depot, dist, clusters, vehicles, c + 1, assignments, unassigned + clusters[c])
  {
    SkipStepSkipped(clusters, vehicles, c, assignments);
    SkippedCountStep(clusters, c, assignments, unassigned);
  }

  /** Cluster c, which no assignment names and no vehicle can take, joins the skipped clusters. */
  lemma SkipStepSkipped(clusters: seq<seq<Order>>, vehicles: seq<Vehicle>, c: nat, assignments: seq<Assignment>)
    requires c < |clusters|
    requires Before(assignments, c) && Skipped(clusters, vehicles, c, assignments)
    requires NoCandidate(vehicles, Vehicles(assignments), clusters[c])
    ensures !Assigned(assignments, c) && Before(assignments, c + 1)
    ensures Skipped(clusters, vehicles, c + 1, assignments)
  {
    UsedBeforeAll(assignments, c);
  }

  lemma SkippedCountStep(clusters: seq<seq<Order>>, c: nat, assignments: seq<Assignment>, unassigned: seq<Order>)
    requires c < |clusters|
    requires AssignedCount(assignments) + |unassigned| <= |Flatten(clusters[..c])|
    ensures AssignedCount(assignments) + |unassigned + clusters[c]| <= |Flatten(clusters[..c + 1])|
  {
    assert clusters[..c + 1] == clusters[..c] + [clusters[c]];
    FlattenAppend(clusters[..c], clusters[c]);
  }

  // ---------------------------------------------------------------- master plan

  /** Sort key of the master plan: priority value, then end of the time window. */
  function UrgencyKey(o: Order): seq<real>
  {
    [PriorityValue(o.priority) as real, o.latest]
  }

  function SortOrders(orders: seq<Order>): seq<Order>
  {
    SortBy(orders, UrgencyKey)
  }

  /**
   * The orders are taken in ascending priority value, a tie broken by the
   * earlier end of the time window, and orders equal on both keep their order.
   */
  lemma SortOrdersCorrect(orders: seq<Order>)
    ensures var r := SortOrders(orders);
      multiset(r) == multiset(orders) &&
      (forall i, j :: 0 <= i < j < |r| ==>
        PriorityValue(r[i].priority) < PriorityValue(r[j].priority) ||
        (r[i].priority == r[j].priority && r[i].latest <= r[j].latest)) &&
      forall k :: WithKey(r, UrgencyKey, k) == WithKey(orders, UrgencyKey, k)
  {
    var r := SortOrders(orders);
    SortByCorrect(orders, UrgencyKey);
    forall i, j | 0 <= i < j < |r| ensures
      PriorityValue(r[i].priority) < PriorityValue(r[j].priority) ||
      (r[i].priority == r[j].priority && r[i].latest <= r[j].latest)
    {
      var a, b := UrgencyKey(r[i]), UrgencyKey(r[j]);
      assert LexLe(a, b);
      assert a[1..] == [r[i].latest] && b[1..] == [r[j].latest];
      if PriorityValue(r[i].priority) == PriorityValue(r[j].priority) {
        assert r[i].priority == r[j].priority;
        assert LexLe(a[1..], b[1..]);
      }
    }
    forall k ensures WithKey(r, UrgencyKey, k) == WithKey(orders, UrgencyKey, k) {
      SortByStable(orders, UrgencyKey, k);
    }
  }

  /** Every vehicle that can handle one of the orders has non-zero capacities. */
  predicate HandlersNonZero(vehicles: seq<Vehicle>, orders: seq<Order>)
  {
    forall j, o :: 0 <= j < |vehicles| && o in orders && CanHandleOrder(vehicles[j], o) ==> NonZeroCapacity(vehicles[j])
  }

  /** Clustering and sorting the fleet keep every division of the vehicle scans defined. */
  lemma FleetNonZero(orders: seq<Order>, clusters: seq<seq<Order>>, vehicles: seq<Vehicle>, fleet: seq<Vehicle>)
    requires HandlersNonZero(vehicles, orders)
    requires multiset(fleet) == multiset(vehicles) && multiset(Flatten(clusters)) == multiset(orders)
    ensures NonZeroCapacities(fleet, clusters)
  {
    forall c, j | 0 <= c < |clusters| && 0 <= j < |fleet| && Compatible(fleet[j], clusters[c]) != []
      ensures NonZeroCapacity(fleet[j])
    {
      var o := Compatible(fleet[j], clusters[c])[0];
      CompatibleHandled(fleet[j], clusters[c]);
      assert CanHandleOrder(fleet[j], o) && o in clusters[c];
      FlattenMember(clusters, c, o);
      assert o in multiset(orders);
      assert fleet[j] in multiset(vehicles);
      var k :| 0 <= k < |vehicles| && vehicles[k] == fleet[j];
      assert o in orders && CanHandleOrder(vehicles[k], o);
    }
  }

  /** The summary block of the master plan. */
  datatype Summary = Summary(totalOrders: nat, assignedOrders: nat, unassignedOrders: nat,
                             assignmentRate: real, vehiclesUsed: nat, vehiclesAvailable: nat)

  datatype MasterPlan = MasterPlan(assignments: seq<Assignment>, unassigned: seq<Order>, summary: Summary)

  /** Every assigned order can be handled by its vehicle. */
  lemma CompatibleHandled(v: Vehicle, orders: seq<Order>)
    ensures forall o :: o in Compatible(v, orders) ==> CanHandleOrder(v, o) && o in orders
  {
    CompatibleCounts(v, orders);
    forall o | o in Compatible(v, orders) ensures CanHandleOrder(v, o) && o in orders {
      assert o in multiset(Compatible(v, orders));
    }
  }

  /** The assignment rate lies between 0 and 100 when no more orders are assigned than exist. */
  lemma RateBounds(taken: nat, total: nat)
    requires taken <= total
    ensures var rate := if total > 0 then taken as real / total as real * 100.0 else 0.0;
      0.0 <= rate <= 100.0
  {
    if total > 0 {
      var q := taken as real / total as real;
      assert q * total as real == taken as real;
    }
  }

  /**
   * p is the outcome of the cluster loop over `clusters`, a clustering into
   * clusters of at most 8 of the orders sorted by urgency, with the vehicles
   * sorted by descending capacity: every assignment is the loop's decision
   * for its cluster, the unassigned orders are the clusters no vehicle took,
   * and those clusters had no candidate when their turn came.
   */
  ghost predicate PlannedFrom(depot: Location, dist: (Location, Location) -> real, orders: seq<Order>,
                              vehicles: seq<Vehicle>, clusters: seq<seq<Order>>, p: MasterPlan)
  {
    (orders == [] ==> clusters == []) &&
    multiset(Flatten(clusters)) == multiset(SortOrders(orders)) &&
    (forall c :: 0 <= c < |clusters| ==> ClusterOk(depot, dist, 8, clusters[c], Later(clusters, c, []))) &&
    Increasing(p.assignments) &&
    AllOk(depot, dist, clusters, SortVehicles(vehicles), p.assignments) &&
    p.unassigned == UnassignedOf(clusters, |clusters|, p.assignments) &&
    Skipped(clusters, SortVehicles(vehicles), |clusters|, p.assignments)
  }

  /**
   * `generate_master_packing_plan`: orders sorted by urgency, clustered,
   * and each cluster matched with a vehicle from the capacity-sorted list.
   * Fails exactly when the clustering sort has to compare two orders.
   */
  method GenerateMasterPackingPlan(depot: Location, dist: (Location, Location) -> real,
                                   orders: seq<Order>, vehicles: seq<Vehicle>)
    returns (result: Outcome<MasterPlan>, ghost clustering: seq<seq<Order>>)
    requires !HasTie(depot, dist, orders) ==> HandlersNonZero(vehicles, orders)
    ensures result.Unorderable? <==> HasTie(depot, dist, orders)
    ensures result.Ok? ==> PlannedFrom(depot, dist, orders, vehicles, clustering, result.value)
    ensures result.Ok? ==> var p := result.value;
      (forall a :: 0 <= a < |p.assignments| ==>
        p.assignments[a].vehicle in vehicles &&
        forall o :: o in p.assignments[a].orders ==> o in orders && CanHandleOrder(p.assignments[a].vehicle, o)) &&
      (forall a, b :: 0 <= a < b < |p.assignments| ==> p.assignments[a].vehicle != p.assignments[b].vehicle) &&
      multiset(p.unassigned) <= multiset(orders)
    ensures result.Ok? ==> var s := result.value.summary;
      s.totalOrders == |orders| && s.vehiclesAvailable == |vehicles| &&
      s.assignedOrders == AssignedCount(result.value.assignments) &&
      s.unassignedOrders == |result.value.unassigned| &&
      s.vehiclesUsed == |result.value.assignments| &&
      s.assignedOrders + s.unassignedOrders <= s.totalOrders &&
      0.0 <= s.assignmentRate <= 100.0 && (s.totalOrders == 0 ==> s.assignmentRate == 0.0) &&
      (s.totalOrders > 0 ==> s.assignmentRate == s.assignedOrders as real / s.totalOrders as real * 100.0)
  {
    clustering := [];
    var sorted := SortOrders(orders);
    SortOrdersCorrect(orders);
    var clustered := CreateGeographicalClusters(depot, dist, sorted, 8);
    if clustered.Unorderable? {
      TieInLarger(depot, dist, sorted, orders);
      return Unorderable, clustering;
    }
    if HasTie(depot, dist, orders) {
      TieInLarger(depot, dist, orders, sorted);
      assert false;
    }
    var clusters := clustered.value;
    var fleet := SortVehicles(vehicles);
    SortVehiclesCorrect(vehicles);
    FleetNonZero(orders, clusters, vehicles, fleet);
    var assignments, unassigned := AssignVehicles(depot, dist, clusters, fleet);
    assert |Flatten(clusters)| == |orders| by {
      assert |multiset(Flatten(clusters))| == |multiset(orders)|;
    }
    var taken := AssignedCount(assignments);
    RateBounds(taken, |orders|);
    var rate := if |orders| > 0 then taken as real / |orders| as real * 100.0 else 0.0;
    PlanMembers(depot, dist, orders, clusters, fleet, vehicles, assignments, unassigned);
    var summary := Summary(|orders|, taken, |unassigned|, rate, |assignments|, |vehicles|);
    return Ok(MasterPlan(assignments, unassigned, summary)), clusters;
  }

  /** Where the assigned and unassigned orders and the chosen vehicles come from. */
  lemma PlanMembers(depot: Location, dist: (Location, Location) -> real, orders: seq<Order>,
                    clusters: seq<seq<Order>>, fleet: seq<Vehicle>, vehicles: seq<Vehicle>,
                    assignments: seq<Assignment>, unassigned: seq<Order>)
    requires multiset(fleet) == multiset(vehicles)
    requires multiset(Flatten(clusters)) == multiset(orders)
    requires forall a :: 0 <= a < |assignments| ==> AssignmentOk(depot, dist, clusters, fleet, assignments, a)
    requires unassigned == UnassignedOf(clusters, |clusters|, assignments)
    ensures forall a :: 0 <= a < |assignments| ==>
      assignments[a].vehicle in vehicles &&
      forall o :: o in assignments[a].orders ==> o in orders && CanHandleOrder(assignments[a].vehicle, o)
    ensures multiset(unassigned) <= multiset(orders)
  {
    AssignedMembers(depot, dist, orders, clusters, fleet, vehicles, assignments);
    UnassignedMembers(orders, clusters, assignments, unassigned);
  }

  lemma AssignedMembers(depot: Location, dist: (Location, Location) -> real, orders: seq<Order>,
                        clusters: seq<seq<Order>>, fleet: seq<Vehicle>, vehicles: seq<Vehicle>,
                        assignments: seq<Assignment>)
    requires multiset(fleet) == multiset(vehicles)
    requires multiset(Flatten(clusters)) == multiset(orders)
    requires forall a :: 0 <= a < |assignments| ==> AssignmentOk(depot, dist, clusters, fleet, assignments, a)
    ensures forall a :: 0 <= a < |assignments| ==>
      assignments[a].vehicle in vehicles &&
      forall o :: o in assignments[a].orders ==> o in orders && CanHandleOrder(assignments[a].vehicle, o)
  {
    forall a | 0 <= a < |assignments| ensures
      assignments[a].vehicle in vehicles &&
      forall o :: o in assignments[a].orders ==> o in orders && CanHandleOrder(assignments[a].vehicle, o)
    {
      AssignmentMembers(depot, dist, orders, clusters, fleet, vehicles, assignments, a);
    }
  }

  lemma UnassignedMembers(orders: seq<Order>, clusters: seq<seq<Order>>, assignments: seq<Assignment>, unassigned: seq<Order>)
    requires multiset(Flatten(clusters)) == multiset(orders)
    requires unassigned == UnassignedOf(clusters, |clusters|, assignments)
    ensures multiset(unassigned) <= multiset(orders)
  {
    UnassignedOfSub(clusters, |clusters|, assignments);
    assert clusters[..|clusters|] == clusters;
  }

  lemma AssignmentMembers(depot: Location, dist: (Location, Location) -> real, orders: seq<Order>,
                          clusters: seq<seq<Order>>, fleet: seq<Vehicle>, vehicles: seq<Vehicle>,
                          assignments: seq<Assignment>, a: nat)
    requires multiset(fleet) == multiset(vehicles)
    requires multiset(Flatten(clusters)) == multiset(orders)
    requires a < |assignments| && AssignmentOk(depot, dist, clusters, fleet, assignments, a)
    ensures assignments[a].vehicle in vehicles
    ensures forall o :: o in assignments[a].orders ==> o in orders && CanHandleOrder(assignments[a].vehicle, o)
  {
    var x := assignments[a];
    var i :| 0 <= i < |fleet| && fleet[i] == x.vehicle;
    assert x.vehicle in multiset(fleet);
    assert x.orders == Compatible(x.vehicle, clusters[x.cluster]);
    CompatibleHandled(x.vehicle, clusters[x.cluster]);
    forall o | o in x.orders ensures o in orders {
      FlattenMember(clusters, x.cluster, o);
      assert o in multiset(orders);
    }
  }

  lemma {:induction false} FlattenMember(clusters: seq<seq<Order>>, c: nat, o: Order)
    requires c < |clusters| && o in clusters[c]
    ensures o in Flatten(clusters)
  {
    var n := |clusters| - 1;
    FlattenAppend(clusters[..n], clusters[n]);
    assert clusters == clusters[..n] + [clusters[n]];
    if c < n {
      FlattenMember(clusters[..n], c, o);
    }
  }

  lemma {:induction false} UnassignedOfSub(clusters: seq<seq<Order>>, n: nat, assignments: seq<Assignment>)
    requires n <= |clusters|
    ensures multiset(UnassignedOf(clusters, n, assignments)) <= multiset(Flatten(clusters[..n]))
  {
    if n > 0 {
      UnassignedOfSub(clusters, n - 1, assignments);
      UnassignedOfStep(clusters, n, assignments);
      FlattenPrefixStep(clusters, n);
    }
  }

  lemma UnassignedOfStep(clusters: seq<seq<Order>>, n: nat, assignments: seq<Assignment>)
    requires 0 < n <= |clusters|
    ensures multiset(UnassignedOf(clusters, n, assignments)) <=
      multiset(UnassignedOf(clusters, n - 1, assignments)) + multiset(clusters[n - 1])
  {
    var prev := UnassignedOf(clusters, n - 1, assignments);
    var tail := if Assigned(assignments, n - 1) then [] else clusters[n - 1];
    assert UnassignedOf(clusters, n, assignments) == prev + tail;
    assert multiset(prev + tail) == multiset(prev) + multiset(tail);
  }

  lemma FlattenPrefixStep(clusters: seq<seq<Order>>, n: nat)
    requires 0 < n <= |clusters|
    ensures multiset(Flatten(clusters[..n])) == multiset(Flatten(clusters[..n - 1])) + multiset(clusters[n - 1])
  {
    assert clusters[..n] == clusters[..n - 1] + [clusters[n - 1]];
    FlattenAppend(clusters[..n - 1], clusters[n - 1]);
  }

  // ---------------------------------------------------------------- delivery order

  /** Where the vehicle stands before the k-th stop: the depot, then the previous customer. */
  function PrevLocation(depot: Location, route: seq<Order>, k: nat): Location
    requires k <= |route|
  {
    if k == 0 then depot else route[k - 1].location
  }

  /** Stop k is at least as near its predecessor as every later stop and every order in `rest`. */
  ghost predicate StepNearest(depot: Location, dist: (Location, Location) -> real,
                              route: seq<Order>, k: nat, rest: multiset<Order>)
    requires k < |route|
  {
    var from := PrevLocation(depot, route, k);
    var d := DistanceTo(dist, from, route[k]);
    (forall o :: o in rest ==> d <= DistanceTo(dist, from, o)) &&
    forall m :: k < m < |route| ==> d <= DistanceTo(dist, from, route[m])
  }

  ghost predicate GreedyRoute(depot: Location, dist: (Location, Location) -> real, route: seq<Order>, rest: multiset<Order>)
  {
    forall k :: 0 <= k < |route| ==> StepNearest(depot, dist, route, k, rest)
  }

  lemma RouteStep(depot: Location, dist: (Location, Location) -> real, route: seq<Order>, unvisited: seq<Order>, i: nat)
    requires i < |unvisited| && GreedyRoute(depot, dist, route, multiset(unvisited))
    requires var from := PrevLocation(depot, route, |route|);
      forall j :: 0 <= j < |unvisited| ==> DistanceTo(dist, from, unvisited[i]) <= DistanceTo(dist, from, unvisited[j])
    ensures GreedyRoute(depot, dist, route + [unvisited[i]], multiset(unvisited[..i] + unvisited[i + 1..]))
  {
    var longer := route + [unvisited[i]];
    var after := unvisited[..i] + unvisited[i + 1..];
    RemoveIndex(unvisited, i);
    forall k | 0 <= k < |route| ensures StepNearest(depot, dist, longer, k, multiset(after)) {
      StepNearestKept(depot, dist, route, unvisited[i], k, multiset(unvisited), multiset(after));
    }
    var from := PrevLocation(depot, route, |route|);
    assert PrevLocation(depot, longer, |route|) == from;
    forall o | o in multiset(after) ensures DistanceTo(dist, from, unvisited[i]) <= DistanceTo(dist, from, o) {
      assert o in multiset(unvisited);
    }
    assert StepNearest(depot, dist, longer, |route|, multiset(after));
  }

  /** A step that was nearest stays nearest when a remaining order is appended and the rest shrinks. */
  lemma StepNearestKept(depot: Location, dist: (Location, Location) -> real, route: seq<Order>, x: Order, k: nat,
                        rest: multiset<Order>, rest': multiset<Order>)
    requires k < |route| && StepNearest(depot, dist, route, k, rest)
    requires x in rest && rest' <= rest
    ensures StepNearest(depot, dist, route + [x], k, rest')
  {
    var longer := route + [x];
    assert PrevLocation(depot, longer, k) == PrevLocation(depot, route, k);
    assert longer[k] == route[k];
    var from := PrevLocation(depot, route, k);
    forall m | k < m < |longer| ensures DistanceTo(dist, from, longer[k]) <= DistanceTo(dist, from, longer[m]) {
      if m == |route| {
        assert longer[m] == x;
      } else {
        assert longer[m] == route[m];
      }
    }
  }

  /**
   * `_nearest_neighbor_route`: starting at the depot, repeatedly visit the
   * remaining order nearest the current position (the first such on ties),
   * until none remain.
   */
  method NearestNeighborRoute(depot: Location, dist: (Location, Location) -> real, orders: seq<Order>)
    returns (route: seq<Order>)
    ensures multiset(route) == multiset(orders)
    ensures GreedyRoute(depot, dist, route, multiset{})
  {
    var unvisited := orders;
    var current := depot;
    route := [];
    while unvisited != []
      invariant multiset(route) + multiset(unvisited) == multiset(orders)
      invariant current == PrevLocation(depot, route, |route|)
      invariant GreedyRoute(depot, dist, route, multiset(unvisited))
      decreases |unvisited|
    {
      var i, _ := NearestIndex(dist, current, unvisited);
      var nearest := unvisited[i];
      RouteStep(depot, dist, route, unvisited, i);
      RemoveIndex(unvisited, i);
      route := route + [nearest];
      unvisited := unvisited[..i] + unvisited[i + 1..];
      current := nearest.location;
    }
  }
}
