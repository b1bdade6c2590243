# Delivery route and packing optimiser, modelled in Dafny

This project models the decision logic of two optimiser scripts of a
delivery-management system:

- `route_optimization_code.py` — the `DeliveryOptimizer`: distance-matrix
  fill, greedy nearest-feasible route construction under a vehicle capacity
  and a latest-arrival bound, route cost (distance plus lateness penalty),
  the genetic search (fitness, tournament, crossover, mutation, best-so-far
  bookkeeping) and the clock of the delivery schedule.
- `smart_packing_system.py` (identical to `src/smart_packing_system.py`) —
  packages, orders and vehicles, vehicle/order compatibility, the five-key
  loading order, loading zones, handling instructions, the per-vehicle
  loading plan, geographical clustering, vehicle matching, the master plan
  and the nearest-neighbour delivery order.

Modules, one per concern:

| file | module | models |
|---|---|---|
| basics.dfy | Basics | `Option`, `Location`, `Min`/`Max`, no-repeat multisets |
| sorting.dfy | StableSort | Python's stable `sorted` with a tuple key (lexicographic on reals) |
| routing.dfy | Routing | `DeliveryOptimizer` state, matrix fill, route construction, route cost, schedule clock |
| genetic.dfy | Genetic | the genetic search with all random outcomes as parameters |
| packing.dfy | Packing | packages, orders, vehicles, loading sequence and loading plan |
| clustering.dfy | Clustering | clusters, vehicle matching, master plan, nearest-neighbour reordering |

Distances are parameters: a square matrix of reals in `Routing`, a total
function `dist` on locations in `Packing` and `Clustering`. Weights,
volumes, times and utilisations are exact reals. Stops are numbered as in
the source: 0 is the depot, and customer `c` is `customers[c - 1]`.
Python's dataclass equality is datatype value equality. So "vehicle already
assigned" and `list.remove` compare by value.

Python's tuple sort raises a `TypeError` when two different orders lie at
exactly the same distance from the depot. This happens in
`create_geographical_clusters`, whose sort has to compare the orders
themselves. It is modelled as the `Unorderable` outcome. The loop of
`nearest_neighbor_heuristic` never ends once a route comes out empty,
because no unrouted customer fits a fresh route. It is modelled as
returning `stalled = true` at that point. With arbitrary distances, a
customer that fits no fresh route may still be reached in time through
another stop. Suppose instead that distances obey the triangle
inequality, as the haversine distances of the source do, and demands and
service times are non-negative. Then a customer that fits no fresh route
fits no route at all, and the loop stalls exactly when some customer fits
no fresh route.

## Model

| member | source | states |
|---|---|---|
| Routing.DeliveryOptimizer.constructor | route_optimization_code.py:15-20 | a new optimiser keeps depot and capacity (50 unless given), has no customers and no matrix yet |
| Routing.DeliveryOptimizer.AddCustomer | route_optimization_code.py:22-34 | the customer is appended; nothing else changes |
| Routing.DeliveryOptimizer.BuildDistanceMatrix | route_optimization_code.py:53-64 | the nested loops fill entry (i, j) with the distance between locations i and j (depot first), 0 on the diagonal; the matrix then covers depot and all customers |
| Routing.MatrixRow | route_optimization_code.py:60-64 | the inner loop fills row i with the distance from location i to every location, 0 at column i |
| Routing.LocationsOf | route_optimization_code.py:55 | the depot comes first, then every customer's location in order |
| Routing.DistanceMatrixIsSymmetric | route_optimization_code.py:57-64 | a symmetric non-negative distance yields a symmetric, non-negative matrix with zero diagonal |
| Routing.Ids | route_optimization_code.py:68 | the initial unvisited list has one entry per customer |
| Routing.IdsAscending | route_optimization_code.py:68 | entry k of the initial unvisited list is k + 1, so it holds valid customer ids only |
| Routing.IdsOccurOnce | route_optimization_code.py:68 | each customer id occurs exactly once in it, nothing else occurs |
| Routing.PickNearest | route_optimization_code.py:82-101 | the pick fits capacity and arrives by its latest bound, is at least as near as every such customer and strictly nearer than those before it in `unvisited`; none is picked iff no unvisited customer fits |
| Routing.DepartBounds | route_optimization_code.py:113-116 | service starts at the later of arrival and earliest bound, departure follows the service time |
| Routing.ExtendWithinCapacity | route_optimization_code.py:86-110 | adding a customer that fits keeps every prefix of the route within capacity |
| Routing.ExtendOnTime | route_optimization_code.py:90-116 | adding a customer reached by its latest bound keeps every stop on time |
| Routing.BuildStep | route_optimization_code.py:106-116 | taking the picked customer moves it from `unvisited` to the route, keeps the route within capacity and on time, and advances load and clock by its demand and departure |
| Routing.CloseRoute | route_optimization_code.py:118-119 | closing the stops with the depot gives a feasible route, and routed plus unvisited customers remain 1..n once each |
| Routing.PickIsNearest | route_optimization_code.py:82-101 | the customer picked at position k of the ascending remaining list is feasible, no farther than any feasible customer not yet routed, and strictly nearer than any such customer of smaller id |
| Routing.PickStep | route_optimization_code.py:82-116 | taking the picked customer keeps the inner loop's invariant: the stops so far are each the nearest feasible choice at their time, smaller id on ties |
| Routing.RouteBuilt | route_optimization_code.py:72-117 | when the inner loop ends with no feasible customer left, the stops meet the whole contract of `BuildRoute` |
| Routing.BuildRoute | route_optimization_code.py:72-117 | the inner loop's stops are taken from `unvisited` (multiset split), stay within capacity and on time at every prefix; each stop is the nearest feasible unvisited customer at its time, the smaller id on ties; the loop ends only when no unvisited customer is feasible; an empty route means no unvisited customer fits a fresh route |
| Routing.RouteGreedyStep | route_optimization_code.py:66-119 | a route built from the unvisited customers is greedy and closed with respect to the customers no earlier route took |
| Routing.AccountedOnce | route_optimization_code.py:68-108 | routed plus unvisited customers are 1..n once each, so no customer is routed twice |
| Routing.Stall | route_optimization_code.py:71-119 | when nothing fits a fresh route, some customer is unrouted and no unrouted customer fits |
| Routing.NearestNeighborHeuristic | route_optimization_code.py:66-121 | every route is depot-bookended, within capacity and on time; each stop of route i is the nearest feasible customer not on routes 0..i-1 or earlier on route i, the smaller id on ties, and route i ends only when no such customer is feasible; no customer appears twice; without a stall every customer is routed; a stall happens only if some customer fits no fresh route |
| Routing.PathLengthNonNegative | route_optimization_code.py:129-135 | summed leg distances are non-negative for a distance matrix |
| Routing.CostAfterTotals | route_optimization_code.py:129-150 | after k legs the distance total is the path length so far and the penalty is non-negative |
| Routing.RouteCostBounds | route_optimization_code.py:123-152 | cost is path length plus non-negative lateness, so cost is at least the path length and non-negative |
| Routing.CalculateRouteCost | route_optimization_code.py:123-152 | the accumulating loop returns the route cost of the leg-by-leg definition |
| Routing.OnTimeLegs | route_optimization_code.py:113-150 | on a constructed route the cost clock agrees with the construction clock and no penalty accrues |
| Routing.OnTimeRouteCostsItsLength | route_optimization_code.py:123-152 | a constructed (capacity- and time-feasible) route costs exactly its length |
| Routing.ArrivalStep | route_optimization_code.py:277-285 | the next arrival is this arrival plus service here plus 2 minutes per distance unit |
| Routing.ArrivalLast | route_optimization_code.py:277-287 | the final clock is start plus all travel and all service |
| Routing.DeliverySchedule | route_optimization_code.py:245-287 | arrivals start at the start time, each departure is arrival plus dwell, consecutive arrivals differ by service plus travel, and the finish is start plus 2 × path length plus service total; the total demand is that of the customer stops, so on a route that of its interior |
| Routing.RouteDemandInterior | route_optimization_code.py:245-264 | the demand summed over a route's customer stops equals the demand of its interior stops |
| Genetic.TotalCostNonNegative | route_optimization_code.py:172 | an individual's summed route costs are non-negative |
| Genetic.IndividualCost | route_optimization_code.py:172 | the route-by-route sum equals the total cost of the individual |
| Genetic.FitnessReversesCost | route_optimization_code.py:173 | fitness is positive and strictly decreasing in cost |
| Genetic.FirstFittest | route_optimization_code.py:199 | the winner is a sampled index of maximal fitness, the first such in the sample |
| Genetic.Crossover | route_optimization_code.py:202-212 | below rate 0.8 with both parents non-empty the child is `[r1, r2]` with r1 from parent1 and r2 from parent2; otherwise it equals parent1 |
| Genetic.DistinctPair | route_optimization_code.py:220 | two distinct positions in range |
| Genetic.SwapInterior | route_optimization_code.py:218-221 | two distinct interior stops are exchanged: same length, depot ends kept, same stops |
| Genetic.Mutate | route_optimization_code.py:214-222 | each route is only rearranged (same length, same depot ends, same stops); below rate 0.1 every route of more than three stops has exactly two distinct interior stops exchanged; routes of length ≤ 3 are unchanged, and nothing changes at a roll ≥ 0.1 |
| Genetic.MutateKeepsCustomers | route_optimization_code.py:214-222 | mutation keeps the multiset of visited customers of the whole individual |
| Genetic.InteriorRearranged | route_optimization_code.py:218-221 | a rearranged route visits the same customers |
| Genetic.CrossoverMayRepeatCustomers | route_optimization_code.py:207-211 | a crossover child can visit a customer twice |
| Genetic.ChildRoutesComeFromPopulation | route_optimization_code.py:183-188 | every route of a child rearranges some route of some population member |
| Genetic.ChildValid | route_optimization_code.py:183-189 | children of valid individuals have only valid routes |
| Genetic.EvaluatePopulation | route_optimization_code.py:170-177 | fitness `1 / (1 + cost)` per individual; the best is replaced only by a strictly cheaper member, and then by the first member of minimal cost (the earliest of equally cheap ones); it stays consistent and ends no worse than any member |
| Genetic.HistoryExtend | route_optimization_code.py:175-177 | a best no worse than the last recorded one keeps the history of bests never worse |
| Genetic.Breed | route_optimization_code.py:180-191 | the next population is one child per set of draws |
| Genetic.OptimizeWithGeneticAlgorithm | route_optimization_code.py:154-194 | with a positive population size the initial routes are the nearest-neighbour plan (feasible, greedy, every customer once); generation 0 evaluates copies of them and each later population is one child per draw of the population before it; the best is a member of some evaluated population, no dearer than any evaluated individual, its recorded cost is its true cost, it exists after a non-empty run, and the best cost never rises across generations |
| Genetic.Evolve | route_optimization_code.py:165-191 | the generation loop from copies of the initial routes: the evaluated populations are bred generation by generation from the draws, and the best is the cheapest individual of all of them, recorded after every generation in a history that never gets worse |
| Genetic.RunGeneration | route_optimization_code.py:169-191 | one generation keeps both loop invariants: the populations bred so far and the best of all evaluated ones |
| Genetic.StartSearch | route_optimization_code.py:160-166 | before the first generation the population is the copies of the initial routes, nothing is evaluated and there is no best |
| Genetic.BreedingStep | route_optimization_code.py:179-191 | the population bred with generation g's draws from the evaluated one extends the bred generations |
| Genetic.BestKeptStep | route_optimization_code.py:170-177 | evaluating one more population keeps the best the cheapest of all evaluated individuals and the history never worse |
| Genetic.BestOfAllExtend | route_optimization_code.py:170-177 | a best no dearer than the new population and taken from it whenever it changes is the cheapest of all populations evaluated so far |
| Genetic.GenerationsBredExtend | route_optimization_code.py:180-191 | a population bred from the last of the bred generations with the next draws extends them |
| Genetic.FitnessesAre | route_optimization_code.py:170-173 | the fitness list of the evaluation loop is `1 / (1 + cost)` of every member, in order |
| Genetic.SwapInPlace | route_optimization_code.py:221 | the two array cells are exchanged |
| Genetic.SharedRouteWitness | route_optimization_code.py:177-221 | the recorded best route changes from [0,1,2,3,0] to [0,2,1,3,0] through a later in-place mutation, and with three customers on a line its cost changes (6 to 8) while the recorded cost does not |
| StableSort.SortByCorrect | src/smart_packing_system.py:230 | the sort is a permutation, ascending by the tuple key |
| StableSort.SortByStable | src/smart_packing_system.py:230 | elements with equal keys keep their input order |
| Packing.PriorityValue | src/smart_packing_system.py:11-15 | the enum value lies in 1..4, 1 exactly for URGENT |
| Packing.Volume | src/smart_packing_system.py:36-39 | non-negative for non-negative dimensions, zero when a dimension is zero |
| Packing.MaxDimension | src/smart_packing_system.py:44 | the largest of the three dimensions |
| Packing.SizeCategory | src/smart_packing_system.py:41-52 | each tier iff its bounds hold strictly and no earlier tier's do |
| Packing.SizeCategoryMonotone | src/smart_packing_system.py:41-52 | heavier and longer never gives a smaller tier |
| Packing.TotalsAppend | src/smart_packing_system.py:66-74 | totals of joined package lists add up |
| Packing.TotalsNonNegative | src/smart_packing_system.py:66-74 | non-negative measures give non-negative totals |
| Packing.TotalWeightNonNegative | src/smart_packing_system.py:66-69 | non-negative weights give a non-negative total weight |
| Packing.AnyFlagged | src/smart_packing_system.py:76-80 | true iff some package is fragile, temperature-sensitive or hazardous |
| Packing.FlaggedCount | src/smart_packing_system.py:214-217 | at most the package count, zero iff no package is flagged |
| Packing.AllEquipped | src/smart_packing_system.py:101-108 | true iff the vehicle carries the equipment every package's flags call for |
| Packing.CanHandleOrder | src/smart_packing_system.py:93-110 | true iff weight and volume fit and every flagged package's equipment is present |
| Packing.LoadKey | src/smart_packing_system.py:202-228 | the five-component key |
| Packing.LoadingSequenceCorrect | src/smart_packing_system.py:199-230 | the loading order is a permutation, ascending by the five-key tuple |
| Packing.LoadingSequenceStable | src/smart_packing_system.py:230 | orders with equal keys keep their input order |
| Packing.UrgentFirst | src/smart_packing_system.py:222-230 | a smaller priority value always loads earlier |
| Packing.LoadingZone | src/smart_packing_system.py:304-314 | by 1-based position i + 1 among n orders: FRONT iff it lies beyond two thirds (3(i+1) > 2n), BACK iff within the first third (3(i+1) ≤ n), MIDDLE in between |
| Packing.LoadingZoneMonotone | src/smart_packing_system.py:304-314 | zones never go backwards along the sequence |
| Packing.LoadingZoneEnds | src/smart_packing_system.py:304-314 | the last order goes in front; with three or more the first goes at the back |
| Packing.AppendIf | src/smart_packing_system.py:320-329 | one conditional step extends the correct instruction list by one rank |
| Packing.HandlingInstructions | src/smart_packing_system.py:316-331 | exactly the applicable instructions, each once, in the fixed order |
| Packing.UpToRankAll | src/smart_packing_system.py:316-331 | after the last conditional step the list is exactly the applicable instructions in rank order |
| Packing.SpecialHandlingNote | src/smart_packing_system.py:333-345 | a note is present iff some package has its flag; non-empty iff the order needs special handling |
| Packing.Compatible | src/smart_packing_system.py:235 | the filter is no longer than its input |
| Packing.CompatibleCounts | src/smart_packing_system.py:235 | handled orders are kept as often as given, others dropped |
| Packing.AnnotatePackages | src/smart_packing_system.py:267-275 | each package carries exactly its handling instructions |
| Packing.PrefixStep | src/smart_packing_system.py:256-300 | running totals and special list grow by one order at a time |
| Packing.LoadingEntries | src/smart_packing_system.py:255-300 | entry i is numbered i+1, has its zone, its order's totals and running totals over entries 0..i; one special line per order needing special handling |
| Packing.CreateLoadingPlan | src/smart_packing_system.py:232-302 | carries the vehicle's and driver's ids and loads the compatible orders in loading order; totals, utilisations, entry count and entries as above |
| Packing.LoadedAreCompatible | src/smart_packing_system.py:235-238 | every loaded order can be handled, and each handled order is loaded as often as given |
| Packing.CumulativeWeightMonotone | src/smart_packing_system.py:256-289 | with non-negative weights the running weight never decreases |
| Clustering.CentroidWithinBand | smart_packing_system.py:189-197 | the centre of a non-empty cluster lies within its members' latitude band |
| Clustering.CentroidOfOne | smart_packing_system.py:189-197 | the centre of one order is its location |
| Clustering.NearestIndex | smart_packing_system.py:170-177 | the first order of minimal distance from the point |
| Clustering.TieInLarger | smart_packing_system.py:156-160 | a depot-distance tie among some orders is a tie in any superset |
| Clustering.GrowStep | smart_packing_system.py:167-181 | adding the nearest order within 10 keeps every member nearest-at-its-time |
| Clustering.GrowCluster | smart_packing_system.py:166-183 | the seed first, size within the bound, orders taken from the remaining, each the nearest to the centre and within 10; growth stops early only when every remaining order is 10 or more away |
| Clustering.SeedOk | smart_packing_system.py:156-163 | a grown cluster from a depot-nearest seed satisfies the cluster property |
| Clustering.ExtendClusters | smart_packing_system.py:154-185 | earlier clusters keep their property when a cluster is added |
| Clustering.ExtendPartition | smart_packing_system.py:152-185 | clusters plus remaining orders stay a permutation of the input |
| Clustering.CreateGeographicalClusters | smart_packing_system.py:146-187 | empty input gives no clusters; fails iff two different orders tie on depot distance; otherwise the clusters partition the input and each has a depot-nearest seed, nearest-to-centre members within 10, and at most the size bound |
| Clustering.SortVehiclesCorrect | smart_packing_system.py:360 | vehicles by descending capacity, a permutation, stable for equal capacities |
| Clustering.ChooseVehicle | smart_packing_system.py:366-387 | the chosen vehicle is an unused candidate with a score in (0, 100], at least every candidate's score and strictly above earlier ones; none iff no candidate; only the unused vehicles with compatible orders need non-zero capacities |
| Clustering.OverweightCandidate | smart_packing_system.py:378-385 | a vehicle can be chosen though its load exceeds its weight capacity |
| Clustering.Vehicles | smart_packing_system.py:367 | the vehicles of the assignments, in order |
| Clustering.AssignVehicles | smart_packing_system.py:362-401 | clusters in order; each assignment is the best candidate, strictly better than every candidate earlier in the fleet, takes exactly the compatible orders and the whole loading plan `create_loading_plan` makes for them (ids, loading order, totals, utilisations, numbered entries with zones and running totals, special instructions); vehicles distinct; the unassigned list is the concatenation of the clusters no vehicle could take; assigned plus unassigned ≤ clustered orders |
| Clustering.AssignStep | smart_packing_system.py:389-397 | assigning the chosen vehicle keeps the loop's invariant |
| Clustering.SkipStep | smart_packing_system.py:398-401 | sending a cluster to the unassigned list keeps the loop's invariant |
| Clustering.SortOrdersCorrect | smart_packing_system.py:350 | orders by priority value, then end of window, a stable permutation |
| Clustering.CompatibleHandled | smart_packing_system.py:390 | every order given to a vehicle can be handled by it |
| Clustering.RateBounds | smart_packing_system.py:411 | the assignment rate lies in [0, 100] |
| Clustering.FleetNonZero | smart_packing_system.py:360-380 | if every vehicle that can handle some order has non-zero capacities, every division of every vehicle scan is defined |
| Clustering.GenerateMasterPackingPlan | smart_packing_system.py:347-418 | fails iff two different orders tie on depot distance; otherwise the plan comes from a clustering (clusters of at most 8, each with a depot-nearest seed and nearest-to-centre members within 10) of the urgency-sorted orders: each assignment is the best untaken candidate of the capacity-sorted fleet for its cluster, strictly better than earlier ones, carrying exactly the cluster's compatible orders with their whole loading plan; the unassigned orders are the clusters no vehicle took, which had no candidate at their turn; vehicles come from the fleet and are distinct, and the summary counts add up to at most the order count; the assignment rate is assigned / total × 100, or 0 without orders |
| Clustering.PlanMembers | smart_packing_system.py:389-401 | assigned orders and unassigned orders come from the input orders |
| Clustering.RouteStep | smart_packing_system.py:555-565 | appending the nearest unvisited order keeps every stop nearest at its time |
| Clustering.NearestNeighborRoute | smart_packing_system.py:548-567 | the route is a permutation of the orders, and each stop is at least as near its predecessor (the depot first) as every later stop |

## Left out

- The haversine distance is not modelled. Distances are supplied values: a matrix in `Routing`, a function on locations in `Packing` and `Clustering`.
- Randomness is not modelled. The rolls, samples and choices of the genetic search are parameters (`ChildDraws`, `swaps`).
- Genetic.FirstFittest, Genetic.OptimizeWithGeneticAlgorithm: a population smaller than three makes the source's tournament sample fail. The model does not capture that error; valid draws are a precondition instead.
- Genetic.Mutate: the model works on values, so in-place update and aliasing are not captured. One consequence is the recorded-best corruption under "## Findings". Another is that routes shared within one generation change together.
- Genetic.OptimizeWithGeneticAlgorithm: with a positive population size, the precondition asks every customer to fit a fresh route, so that `nearest_neighbor_heuristic` ends. For metric distances with non-negative demands and service times, this is exactly the condition under which the source's loop ends. For other supplied matrices, it may exclude inputs on which the source ends, e.g. a customer reached in time only through another stop. A population size of 0 never runs the heuristic and needs nothing.
- Genetic.OptimizeWithGeneticAlgorithm: the matrix must already be built. The source would crash on the `None` matrix; the model makes "built" a precondition.
- Packing.CreateLoadingPlan: a vehicle of zero capacity makes the source divide by zero. Non-zero capacities of the given vehicle are a precondition.
- Clustering.ChooseVehicle, Clustering.AssignVehicles, Clustering.GenerateMasterPackingPlan: the source divides by zero when a vehicle of zero capacity can handle an order of some cluster. A vehicle is only taken after its score is computed, so such a vehicle is never skipped as taken. The precondition excludes exactly these inputs: only the vehicles the scan divides by need non-zero capacities, and none do when the clustering fails first.
- Routing.DeliverySchedule does not repeat the route's `total_distance`, which is Routing.RouteCost of the route. It does not model wall-clock times, `datetime.now()` or the HH:MM formatting. The start time is a parameter. The depot dwell is display-only and, as in the source, does not advance the clock. There is no wait for the earliest bound.
- Routing.NearestNeighborHeuristic: where the source loops forever, the model stops and reports `stalled`.
- Clustering.GrowCluster: among remaining orders equally near the centre, the contract does not say which one joins. The code takes the earliest in the remaining list; the model keeps the remaining orders as a multiset, so positions are not tracked.
- Clustering.CreateGeographicalClusters: for the same reason, the contract does not say which of several equally near orders joins a cluster.
- Clustering.NearestNeighborRoute: among equally near orders, the contract does not say which one comes first. The code takes the earliest in the remaining list.
- Clustering.GenerateMasterPackingPlan: the clusters are described only by the contract of Clustering.CreateGeographicalClusters on the sorted orders. So, as for Clustering.GrowCluster, the contract does not fix which of several equally near orders joins a cluster.
- Clustering.GenerateMasterPackingPlan leaves out the following. They are float statistics and report formatting:
  - the detailed assignment records;
  - the route suggestions;
  - `_calculate_optimization_metrics`;
  - the load-balance score;
  - the generation timestamp.
- Packing.CreateLoadingPlan does not format package ids, priority names or time-window strings.
- Packing.SpecialHandlingNote models the deduplicated notes as a set. The joined string is not modelled, because its order is unspecified.
- All export functions, `main()`, and the pandas/matplotlib plumbing are left out.
- tracking_system.py is not part of this model.
- The crossover child does not keep "no repeated customer". The code returns two routes taken from two parents, which may share customers. Genetic.CrossoverMayRepeatCustomers shows it.

## Findings

| source | as written | input that shows it | evidently intended | confidence | as-written member | corrected member |
|---|---|---|---|---|---|---|
| route_optimization_code.py:177, 211-212, 221 | the recorded best is a shallow copy; crossover hands on the parents' route lists; mutation swaps inside them in place | one individual with route [0,1,2,3,0] recorded as best, then a child sharing that route mutated at positions 1 and 2: the recorded route becomes [0,2,1,3,0] while the best cost is unchanged | the recorded best solution keeps the stop order whose cost was recorded | not executed | Genetic.SharedRouteWitness | Genetic.OptimizeWithGeneticAlgorithm |
