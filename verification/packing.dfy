/**
 * Packages, orders, vehicles and the per-vehicle loading plan of the smart
 * packing system (src/smart_packing_system.py).  Weights are kilograms,
 * dimensions centimetres, volumes cubic centimetres and time-window bounds
 * timestamps in seconds, all exact reals.  The distance between two points
 * is a parameter `dist`.
 */
module Packing {
  import opened Basics
  import opened StableSort

  datatype Priority = Urgent | High | Normal | Low

  /** The enum value: 1 is most urgent. */
  function PriorityValue(p: Priority): (v: int)
    ensures 1 <= v <= 4
    ensures p == Urgent <==> v == 1
  {
    match p
    case Urgent => 1
    case High => 2
    case Normal => 3
    case Low => 4
  }

  datatype PackageSize = Small | Medium | Large | ExtraLarge

  datatype Package = Package(
    orderId: string, customerId: string,
    weight: real, length: real, width: real, height: real,
    fragile: bool, temperatureSensitive: bool, hazardous: bool,
    value: real)

  /** Length times width times height. */
  function Volume(p: Package): (v: real)
    ensures p.length >= 0.0 && p.width >= 0.0 && p.height >= 0.0 ==> v >= 0.0
    ensures p.length == 0.0 || p.width == 0.0 || p.height == 0.0 ==> v == 0.0
  {
    p.length * p.width * p.height
  }

  function MaxDimension(p: Package): (m: real)
    ensures m >= p.length && m >= p.width && m >= p.height
    ensures m == p.length || m == p.width || m == p.height
  {
    Max(Max(p.length, p.width), p.height)
  }

  /** The first tier whose weight and largest-dimension bounds the package is strictly under. */
  function SizeCategory(p: Package): (c: PackageSize)
    ensures c == Small <==> p.weight < 1.0 && MaxDimension(p) < 30.0
    ensures c == Medium <==>
      !(p.weight < 1.0 && MaxDimension(p) < 30.0) && p.weight < 5.0 && MaxDimension(p) < 60.0
    ensures c == Large <==>
      !(p.weight < 5.0 && MaxDimension(p) < 60.0) && p.weight < 20.0 && MaxDimension(p) < 100.0
    ensures c == ExtraLarge <==> !(p.weight < 20.0 && MaxDimension(p) < 100.0)
  {
    var m := MaxDimension(p);
    if p.weight < 1.0 && m < 30.0 then Small
    else if p.weight < 5.0 && m < 60.0 then Medium
    else if p.weight < 20.0 && m < 100.0 then Large
    else ExtraLarge
  }

  function SizeRank(c: PackageSize): nat
  {
    match c
    case Small => 0
    case Medium => 1
    case Large => 2
    case ExtraLarge => 3
  }

  /** A package at least as heavy and as long as another never lands in a smaller tier. */
  lemma SizeCategoryMonotone(p: Package, q: Package)
    requires p.weight <= q.weight && MaxDimension(p) <= MaxDimension(q)
    ensures SizeRank(SizeCategory(p)) <= SizeRank(SizeCategory(q))
  {
  }

  /** Fragile, temperature-sensitive or hazardous. */
  predicate Flagged(p: Package)
  {
    p.fragile || p.temperatureSensitive || p.hazardous
  }

  datatype Order = Order(
    orderId: string, customerId: string,
    location: Location, address: string,
    priority: Priority,
    earliest: real, latest: real,
    packages: seq<Package>,
    specialInstructions: string)

  function TotalWeight(packages: seq<Package>): real
  {
    if packages == [] then 0.0
    else TotalWeight(packages[..|packages| - 1]) + packages[|packages| - 1].weight
  }

  function TotalVolume(packages: seq<Package>): real
  {
    if packages == [] then 0.0
    else TotalVolume(packages[..|packages| - 1]) + Volume(packages[|packages| - 1])
  }

  /** The totals of two package lists together are the sums of their totals. */
  lemma {:induction false} TotalsAppend(a: seq<Package>, b: seq<Package>)
    ensures TotalWeight(a + b) == TotalWeight(a) + TotalWeight(b)
    ensures TotalVolume(a + b) == TotalVolume(a) + TotalVolume(b)
  {
    if b == [] {
      assert a + b == a;
    } else {
      var m := |b| - 1;
      TotalsAppend(a, b[..m]);
      assert (a + b)[..|a + b| - 1] == a + b[..m];
    }
  }

  /** Weights and volumes of packages with non-negative measures add up to non-negative totals. */
  lemma {:induction false} TotalsNonNegative(packages: seq<Package>)
    requires forall k :: 0 <= k < |packages| ==>
      packages[k].weight >= 0.0 && packages[k].length >= 0.0 &&
      packages[k].width >= 0.0 && packages[k].height >= 0.0
    ensures TotalWeight(packages) >= 0.0 && TotalVolume(packages) >= 0.0
  {
    if packages != [] {
      TotalsNonNegative(packages[..|packages| - 1]);
      var last := packages[|packages| - 1];
      assert Volume(last) >= 0.0;
    }
  }

  /** True iff some package is flagged. */
  function AnyFlagged(packages: seq<Package>): (b: bool)
    ensures b <==> exists k :: 0 <= k < |packages| && Flagged(packages[k])
  {
    if packages == [] then false
    else (Flagged(packages[0]) || (
      assert forall k :: 1 <= k < |packages| ==> packages[k] == packages[1..][k - 1];
      AnyFlagged(packages[1..])))
  }

  function RequiresSpecialHandling(o: Order): bool
  {
    AnyFlagged(o.packages)
  }

  /** How many packages are flagged. */
  function FlaggedCount(packages: seq<Package>): (n: nat)
    ensures n <= |packages|
    ensures n == 0 <==> !AnyFlagged(packages)
  {
    if packages == [] then 0
    else (if Flagged(packages[0]) then 1 else 0) + FlaggedCount(packages[1..])
  }

  datatype Vehicle = Vehicle(
    vehicleId: string,
    capacityWeight: real, capacityVolume: real,
    driverId: string, location: Location, availableFrom: real,
    specialEquipment: seq<string>)

  /** The vehicle carries the equipment each flag of the package calls for. */
  predicate Equipped(v: Vehicle, p: Package)
  {
    (p.temperatureSensitive ==> "refrigeration" in v.specialEquipment) &&
    (p.fragile ==> "fragile_handling" in v.specialEquipment) &&
    (p.hazardous ==> "hazardous_handling" in v.specialEquipment)
  }

  /** The package loop of `can_handle_order`: stops at the first package the vehicle is not equipped for. */
  function AllEquipped(v: Vehicle, packages: seq<Package>): (b: bool)
    ensures b <==> forall k :: 0 <= k < |packages| ==> Equipped(v, packages[k])
  {
    if packages == [] then true
    else if !Equipped(v, packages[0]) then false
    else
      assert forall k :: 1 <= k < |packages| ==> packages[k] == packages[1..][k - 1];
      AllEquipped(v, packages[1..])
  }

  /**
   * Capacity first, then equipment; the equipment loop runs only when some
   * package is flagged, which changes nothing because an unflagged package
   * needs no equipment.
   */
  function CanHandleOrder(v: Vehicle, o: Order): (ok: bool)
    ensures ok <==>
      TotalWeight(o.packages) <= v.capacityWeight &&
      TotalVolume(o.packages) <= v.capacityVolume &&
      forall k :: 0 <= k < |o.packages| ==> Equipped(v, o.packages[k])
  {
    if TotalWeight(o.packages) > v.capacityWeight then false
    else if TotalVolume(o.packages) > v.capacityVolume then false
    else if RequiresSpecialHandling(o) then AllEquipped(v, o.packages)
    else
      assert forall k :: 0 <= k < |o.packages| ==> !Flagged(o.packages[k]);
      true
  }

  // ---------------------------------------------------------------- loading order

  /**
   * The loading key: priority value, latest delivery time, heavier first,
   * number of flagged packages, distance from the depot.
   */
  function LoadKey(depot: Location, dist: (Location, Location) -> real, o: Order): (key: seq<real>)
    ensures |key| == 5
  {
    [PriorityValue(o.priority) as real,
     o.latest,
     -(TotalWeight(o.packages) + TotalVolume(o.packages) / 1000.0),
     FlaggedCount(o.packages) as real,
     dist(depot, o.location)]
  }

  /** The orders stably sorted by the loading key. */
  function OptimizeLoadingSequence(depot: Location, dist: (Location, Location) -> real, orders: seq<Order>): seq<Order>
  {
    SortBy(orders, o => LoadKey(depot, dist, o))
  }

  /** The loading order is a permutation of the orders, ascending by the loading key. */
  lemma LoadingSequenceCorrect(depot: Location, dist: (Location, Location) -> real, orders: seq<Order>)
    ensures var r := OptimizeLoadingSequence(depot, dist, orders);
      multiset(r) == multiset(orders) &&
      forall i, j :: 0 <= i < j < |r| ==> LexLe(LoadKey(depot, dist, r[i]), LoadKey(depot, dist, r[j]))
  {
    var key := o => LoadKey(depot, dist, o);
    SortByCorrect(orders, key);
    var r := SortBy(orders, key);
    forall i, j | 0 <= i < j < |r| ensures LexLe(LoadKey(depot, dist, r[i]), LoadKey(depot, dist, r[j])) {
      assert LexLe(key(r[i]), key(r[j]));
    }
  }

  /** Orders with equal loading keys keep their relative order. */
  lemma LoadingSequenceStable(depot: Location, dist: (Location, Location) -> real, orders: seq<Order>, k: seq<real>)
    ensures var key := o => LoadKey(depot, dist, o);
      WithKey(OptimizeLoadingSequence(depot, dist, orders), key, k) == WithKey(orders, key, k)
  {
    SortByStable(orders, o => LoadKey(depot, dist, o), k);
  }

  /** A more urgent priority is always loaded first, whatever the other keys. */
  lemma UrgentFirst(depot: Location, dist: (Location, Location) -> real, orders: seq<Order>, i: nat, j: nat)
    requires var r := OptimizeLoadingSequence(depot, dist, orders);
      i < |r| && j < |r| && PriorityValue(r[i].priority) < PriorityValue(r[j].priority)
    ensures i < j
  {
    var r := OptimizeLoadingSequence(depot, dist, orders);
    LoadingSequenceCorrect(depot, dist, orders);
    forall a, b | 0 <= a < b < |r| ensures PriorityValue(r[a].priority) <= PriorityValue(r[b].priority) {
      var ka, kb := LoadKey(depot, dist, r[a]), LoadKey(depot, dist, r[b]);
      assert LexLe(ka, kb);
      assert ka[0] <= kb[0];
    }
  }

  // ---------------------------------------------------------------- zones and annotations

  datatype Zone = Back | Middle | Front

  function ZoneRank(z: Zone): nat
  {
    match z
    case Back => 0
    case Middle => 1
    case Front => 2
  }

  /**
   * Last third of the sequence in front, middle third in the middle, first
   * third at the back: with the floor divisions of the source, the order at
   * 1-based position `sequence + 1` goes in front exactly when that position
   * lies beyond two thirds of the orders, and at the back exactly when it
   * lies within the first third.
   */
  function LoadingZone(sequence: nat, totalOrders: nat): (z: Zone)
    ensures z == Front <==> 3 * (sequence + 1) > 2 * totalOrders
    ensures z == Middle <==> totalOrders < 3 * (sequence + 1) <= 2 * totalOrders
    ensures z == Back <==> 3 * (sequence + 1) <= totalOrders
  {
    if sequence >= totalOrders * 2 / 3 then Front
    else if sequence >= totalOrders / 3 then Middle
    else Back
  }

  /** Zones never move backwards along the loading sequence, so they form Back, Middle, Front blocks. */
  lemma LoadingZoneMonotone(i: nat, j: nat, n: nat)
    requires i <= j
    ensures ZoneRank(LoadingZone(i, n)) <= ZoneRank(LoadingZone(j, n))
  {
  }

  /** The last order loaded goes in front; with at least three orders the first goes at the back. */
  lemma LoadingZoneEnds(n: nat)
    requires n >= 1
    ensures LoadingZone(n - 1, n) == Front
    ensures n >= 3 ==> LoadingZone(0, n) == Back
  {
  }

  datatype Handling = HandleWithCare | KeepCool | SafetyProtocols | HeavyLift | TeamLift

  function HandlingRank(h: Handling): nat
  {
    match h
    case HandleWithCare => 0
    case KeepCool => 1
    case SafetyProtocols => 2
    case HeavyLift => 3
    case TeamLift => 4
  }

  /** The condition on the package that calls for each instruction. */
  predicate Applies(h: Handling, p: Package)
  {
    match h
    case HandleWithCare => p.fragile
    case KeepCool => p.temperatureSensitive
    case SafetyProtocols => p.hazardous
    case HeavyLift => p.weight > 20.0
    case TeamLift => MaxDimension(p) > 100.0
  }

  /** Exactly the applicable instructions, each once, in the fixed order. */
  predicate InstructionsFor(instructions: seq<Handling>, p: Package)
  {
    (HandleWithCare in instructions <==> Applies(HandleWithCare, p)) &&
    (KeepCool in instructions <==> Applies(KeepCool, p)) &&
    (SafetyProtocols in instructions <==> Applies(SafetyProtocols, p)) &&
    (HeavyLift in instructions <==> Applies(HeavyLift, p)) &&
    (TeamLift in instructions <==> Applies(TeamLift, p)) &&
    forall i, j :: 0 <= i < j < |instructions| ==> HandlingRank(instructions[i]) < HandlingRank(instructions[j])
  }

  /** The instructions of rank below `n` that apply, each once, in rank order. */
  predicate UpToRank(instructions: seq<Handling>, p: Package, n: nat)
  {
    (forall i :: 0 <= i < |instructions| ==> HandlingRank(instructions[i]) < n && Applies(instructions[i], p)) &&
    (forall h :: HandlingRank(h) < n && Applies(h, p) ==> h in instructions) &&
    forall i, j :: 0 <= i < j < |instructions| ==> HandlingRank(instructions[i]) < HandlingRank(instructions[j])
  }

  /** Appending the instruction of rank `n` when it applies extends the instructions up to rank `n + 1`. */
  lemma UpToRankStep(instructions: seq<Handling>, p: Package, h: Handling)
    requires UpToRank(instructions, p, HandlingRank(h))
    ensures Applies(h, p) ==> UpToRank(instructions + [h], p, HandlingRank(h) + 1)
    ensures !Applies(h, p) ==> UpToRank(instructions, p, HandlingRank(h) + 1)
  {
    forall g | HandlingRank(g) == HandlingRank(h) ensures g == h {
    }
  }

  /** One conditional step of the handling list: add instruction `h` when its condition holds. */
  method AppendIf(instructions: seq<Handling>, p: Package, condition: bool, h: Handling) returns (r: seq<Handling>)
    requires condition == Applies(h, p) && UpToRank(instructions, p, HandlingRank(h))
    ensures UpToRank(r, p, HandlingRank(h) + 1)
    ensures r == if condition then instructions + [h] else instructions
  {
    UpToRankStep(instructions, p, h);
    if condition {
      r := instructions + [h];
    } else {
      r := instructions;
    }
  }

  /** `_get_handling_instructions`. */
  method HandlingInstructions(p: Package) returns (instructions: seq<Handling>)
    ensures InstructionsFor(instructions, p)
  {
    instructions := [];
    instructions := AppendIf(instructions, p, p.fragile, HandleWithCare);
    instructions := AppendIf(instructions, p, p.temperatureSensitive, KeepCool);
    instructions := AppendIf(instructions, p, p.hazardous, SafetyProtocols);
    instructions := AppendIf(instructions, p, p.weight > 20.0, HeavyLift);
    instructions := AppendIf(instructions, p, MaxDimension(p) > 100.0, TeamLift);
    UpToRankAll(instructions, p);
  }

  /** Up to the last rank, the instructions are exactly those that apply. */
  lemma UpToRankAll(instructions: seq<Handling>, p: Package)
    requires UpToRank(instructions, p, HandlingRank(TeamLift) + 1)
    ensures InstructionsFor(instructions, p)
  {
    forall h ensures h in instructions <==> Applies(h, p) {
      if h in instructions {
        var i :| 0 <= i < |instructions| && instructions[i] == h;
      }
    }
  }

  datatype Note = ContainsFragile | NeedsTemperatureControl | ContainsHazardous

  predicate Marks(n: Note, p: Package)
  {
    match n
    case ContainsFragile => p.fragile
    case NeedsTemperatureControl => p.temperatureSensitive
    case ContainsHazardous => p.hazardous
  }

  /** A note is present iff some package carries its flag. */
  ghost predicate NotesFor(notes: set<Note>, o: Order)
  {
    forall n :: n in notes <==> exists k :: 0 <= k < |o.packages| && Marks(n, o.packages[k])
  }

  /**
   * `_get_special_handling_note`: the notes of all packages, collected in a
   * list and deduplicated through a set; the joined string is the set's
   * elements in unspecified order, so the set is the result.
   */
  method SpecialHandlingNote(o: Order) returns (notes: set<Note>)
    ensures NotesFor(notes, o)
    ensures notes != {} <==> RequiresSpecialHandling(o)
  {
    var collected: seq<Note> := [];
    for k := 0 to |o.packages|
      invariant forall n :: n in collected <==> exists j :: 0 <= j < k && Marks(n, o.packages[j])
    {
      var p := o.packages[k];
      if p.fragile {
        collected := collected + [ContainsFragile];
      }
      if p.temperatureSensitive {
        collected := collected + [NeedsTemperatureControl];
      }
      if p.hazardous {
        collected := collected + [ContainsHazardous];
      }
    }
    notes := set n | n in collected;
    if RequiresSpecialHandling(o) {
      var k :| 0 <= k < |o.packages| && Flagged(o.packages[k]);
      var p := o.packages[k];
      var n := if p.fragile then ContainsFragile else if p.temperatureSensitive then NeedsTemperatureControl else ContainsHazardous;
      assert Marks(n, p);
      assert n in notes;
    }
  }

  // ---------------------------------------------------------------- loading plan

  /** The orders the vehicle can handle, in their given order. */
  function Compatible(v: Vehicle, orders: seq<Order>): (r: seq<Order>)
    ensures |r| <= |orders|
  {
    if orders == [] then []
    else (Compatible(v, orders[..|orders| - 1]) +
      if CanHandleOrder(v, orders[|orders| - 1]) then [orders[|orders| - 1]] else [])
  }

  /** The filter keeps every order the vehicle can handle, as often as it occurs, and nothing else. */
  lemma {:induction false} CompatibleCounts(v: Vehicle, orders: seq<Order>)
    ensures forall o :: multiset(Compatible(v, orders))[o] == if CanHandleOrder(v, o) then multiset(orders)[o] else 0
  {
    if orders != [] {
      var m := |orders| - 1;
      CompatibleCounts(v, orders[..m]);
      assert orders == orders[..m] + [orders[m]];
    }
  }

  function OrdersWeight(orders: seq<Order>): real
  {
    if orders == [] then 0.0 else OrdersWeight(orders[..|orders| - 1]) + TotalWeight(orders[|orders| - 1].packages)
  }

  function OrdersVolume(orders: seq<Order>): real
  {
    if orders == [] then 0.0 else OrdersVolume(orders[..|orders| - 1]) + TotalVolume(orders[|orders| - 1].packages)
  }

  datatype PackageInstruction = PackageInstruction(package: Package, handling: seq<Handling>)

  /** One line of the loading sequence; the order carries id, customer, address, priority and window. */
  datatype LoadingEntry = LoadingEntry(
    sequence: nat, order: Order, zone: Zone,
    totalPackages: nat, orderWeight: real, orderVolume: real,
    packages: seq<PackageInstruction>,
    cumulativeWeight: real, cumulativeVolume: real)

  datatype SpecialInstruction = SpecialInstruction(orderId: string, notes: set<Note>)

  datatype LoadingPlan = LoadingPlan(
    vehicleId: string, driverId: string,
    totalOrders: nat, totalWeight: real, totalVolume: real,
    weightUtilization: real, volumeUtilization: real,
    entries: seq<LoadingEntry>,
    specialInstructions: seq<SpecialInstruction>)

  function EntryOrders(entries: seq<LoadingEntry>): (r: seq<Order>)
    ensures |r| == |entries| && forall i :: 0 <= i < |r| ==> r[i] == entries[i].order
  {
    seq(|entries|, i requires 0 <= i < |entries| => entries[i].order)
  }

  /** The orders that need special handling, in loading order. */
  function SpecialOrders(orders: seq<Order>): seq<Order>
  {
    if orders == [] then []
    else (SpecialOrders(orders[..|orders| - 1]) +
      if RequiresSpecialHandling(orders[|orders| - 1]) then [orders[|orders| - 1]] else [])
  }

  /** The package instructions of an order: every package with exactly its handling instructions. */
  ghost predicate PackagesAnnotated(instructions: seq<PackageInstruction>, o: Order)
  {
    |instructions| == |o.packages| &&
    forall k :: 0 <= k < |instructions| ==>
      instructions[k].package == o.packages[k] && InstructionsFor(instructions[k].handling, o.packages[k])
  }

  /** Entry i describes the i-th loaded order: numbering from 1, zone, running totals, annotations. */
  ghost predicate EntryFor(e: LoadingEntry, loaded: seq<Order>, i: nat)
    requires i < |loaded|
  {
    var o := loaded[i];
    e.sequence == i + 1 && e.order == o &&
    e.zone == LoadingZone(i, |loaded|) &&
    e.totalPackages == |o.packages| &&
    e.orderWeight == TotalWeight(o.packages) && e.orderVolume == TotalVolume(o.packages) &&
    e.cumulativeWeight == OrdersWeight(loaded[..i + 1]) &&
    e.cumulativeVolume == OrdersVolume(loaded[..i + 1]) &&
    PackagesAnnotated(e.packages, o)
  }

  /** Annotate every package of an order (the inner loop of `create_loading_plan`). */
  method AnnotatePackages(o: Order) returns (instructions: seq<PackageInstruction>)
    ensures PackagesAnnotated(instructions, o)
  {
    instructions := [];
    for k := 0 to |o.packages|
      invariant |instructions| == k
      invariant forall j :: 0 <= j < k ==>
        instructions[j].package == o.packages[j] && InstructionsFor(instructions[j].handling, o.packages[j])
    {
      var handling := HandlingInstructions(o.packages[k]);
      instructions := instructions + [PackageInstruction(o.packages[k], handling)];
    }
  }

  /** The running totals and the special-handling list grow by one order at a time. */
  lemma PrefixStep(loaded: seq<Order>, i: nat)
    requires i < |loaded|
    ensures OrdersWeight(loaded[..i + 1]) == OrdersWeight(loaded[..i]) + TotalWeight(loaded[i].packages)
    ensures OrdersVolume(loaded[..i + 1]) == OrdersVolume(loaded[..i]) + TotalVolume(loaded[i].packages)
    ensures SpecialOrders(loaded[..i + 1]) ==
      SpecialOrders(loaded[..i]) + if RequiresSpecialHandling(loaded[i]) then [loaded[i]] else []
  {
    assert loaded[..i + 1][..i] == loaded[..i];
  }

  /** One special instruction per order needing special handling, in order, with that order's notes. */
  ghost predicate SpecialFor(special: seq<SpecialInstruction>, orders: seq<Order>)
  {
    var flagged := SpecialOrders(orders);
    |special| == |flagged| &&
    forall k :: 0 <= k < |special| ==>
      special[k].orderId == flagged[k].orderId && NotesFor(special[k].notes, flagged[k])
  }

  /** The entries of the first n orders loaded. */
  ghost predicate EntriesFor(entries: seq<LoadingEntry>, loaded: seq<Order>, n: nat)
    requires n <= |loaded|
  {
    |entries| == n && forall j :: 0 <= j < n ==> EntryFor(entries[j], loaded, j)
  }

  lemma EntriesStep(entries: seq<LoadingEntry>, loaded: seq<Order>, i: nat, entry: LoadingEntry)
    requires i < |loaded| && EntriesFor(entries, loaded, i) && EntryFor(entry, loaded, i)
    ensures EntriesFor(entries + [entry], loaded, i + 1)
  {
    var e := entries + [entry];
    forall j | 0 <= j < i + 1 ensures EntryFor(e[j], loaded, j) {
      if j < i {
        assert e[j] == entries[j];
      }
    }
  }

  /** A special instruction with the notes of order i extends the special list by that order. */
  lemma SpecialStep(special: seq<SpecialInstruction>, loaded: seq<Order>, i: nat, notes: set<Note>)
    requires i < |loaded| && SpecialFor(special, loaded[..i])
    requires RequiresSpecialHandling(loaded[i]) && NotesFor(notes, loaded[i])
    ensures SpecialFor(special + [SpecialInstruction(loaded[i].orderId, notes)], loaded[..i + 1])
  {
    PrefixStep(loaded, i);
  }

  /** An order needing no special handling leaves the special list as it was. */
  lemma SpecialSkip(special: seq<SpecialInstruction>, loaded: seq<Order>, i: nat)
    requires i < |loaded| && SpecialFor(special, loaded[..i])
    requires !RequiresSpecialHandling(loaded[i])
    ensures SpecialFor(special, loaded[..i + 1])
  {
    PrefixStep(loaded, i);
  }

  /**
   * The loop of `create_loading_plan` over the orders in loading order: one
   * entry per order with running totals, and a special instruction for each
   * order that needs special handling.
   */
  method LoadingEntries(loaded: seq<Order>) returns (entries: seq<LoadingEntry>, special: seq<SpecialInstruction>)
    ensures |entries| == |loaded|
    ensures forall i :: 0 <= i < |entries| ==> EntryFor(entries[i], loaded, i)
    ensures SpecialFor(special, loaded)
  {
    entries, special := [], [];
    var currentWeight, currentVolume := 0.0, 0.0;
    for i := 0 to |loaded|
      invariant EntriesFor(entries, loaded, i)
      invariant currentWeight == OrdersWeight(loaded[..i]) && currentVolume == OrdersVolume(loaded[..i])
      invariant SpecialFor(special, loaded[..i])
    {
      var o := loaded[i];
      PrefixStep(loaded, i);
      currentWeight := currentWeight + TotalWeight(o.packages);
      currentVolume := currentVolume + TotalVolume(o.packages);
      var zone := LoadingZone(i, |loaded|);
      var instructions := AnnotatePackages(o);
      var entry := LoadingEntry(i + 1, o, zone, |o.packages|, TotalWeight(o.packages), TotalVolume(o.packages),
                                instructions, currentWeight, currentVolume);
      assert EntryFor(entry, loaded, i);
      EntriesStep(entries, loaded, i, entry);
      entries := entries + [entry];
      if RequiresSpecialHandling(o) {
        var notes := SpecialHandlingNote(o);
        SpecialStep(special, loaded, i, notes);
        special := special + [SpecialInstruction(o.orderId, notes)];
      } else {
        SpecialSkip(special, loaded, i);
      }
    }
    assert loaded[..|loaded|] == loaded;
  }

  /**
   * `plan` is the loading plan of vehicle `v` for `orders`: the vehicle's
   * ids, the orders it can handle in loading order, their totals, the
   * utilisation percentages of its capacities, one entry per loaded order
   * and a special instruction per loaded order that needs special handling.
   */
  ghost predicate PlanFor(depot: Location, dist: (Location, Location) -> real, v: Vehicle, orders: seq<Order>,
                          plan: LoadingPlan)
    requires v.capacityWeight != 0.0 && v.capacityVolume != 0.0
  {
    var loaded := OptimizeLoadingSequence(depot, dist, Compatible(v, orders));
    plan.vehicleId == v.vehicleId && plan.driverId == v.driverId &&
    EntryOrders(plan.entries) == loaded &&
    plan.totalOrders == |plan.entries| &&
    plan.totalWeight == OrdersWeight(loaded) && plan.totalVolume == OrdersVolume(loaded) &&
    plan.weightUtilization == plan.totalWeight / v.capacityWeight * 100.0 &&
    plan.volumeUtilization == plan.totalVolume / v.capacityVolume * 100.0 &&
    (forall i :: 0 <= i < |plan.entries| ==> EntryFor(plan.entries[i], loaded, i)) &&
    SpecialFor(plan.specialInstructions, loaded)
  }

  /**
   * `create_loading_plan`: the orders the vehicle can handle, in loading
   * order, each with its sequence number, zone, running totals and package
   * annotations, and a special instruction for each order that needs
   * special handling.  The utilisation percentages divide by the vehicle's
   * capacities, which must not be zero.
   */
  method CreateLoadingPlan(depot: Location, dist: (Location, Location) -> real, v: Vehicle, orders: seq<Order>)
    returns (plan: LoadingPlan)
    requires v.capacityWeight != 0.0 && v.capacityVolume != 0.0
    ensures PlanFor(depot, dist, v, orders, plan)
  {
    var compatible := Compatible(v, orders);
    var loaded := OptimizeLoadingSequence(depot, dist, compatible);
    var totalWeight := OrdersWeight(loaded);
    var totalVolume := OrdersVolume(loaded);
    var entries, special := LoadingEntries(loaded);
    plan := LoadingPlan(v.vehicleId, v.driverId, |entries|, totalWeight, totalVolume,
                        totalWeight / v.capacityWeight * 100.0, totalVolume / v.capacityVolume * 100.0,
                        entries, special);
  }

  /** Every loaded order is one the vehicle can handle, and each compatible order is loaded as often as given. */
  lemma LoadedAreCompatible(depot: Location, dist: (Location, Location) -> real, v: Vehicle, orders: seq<Order>)
    ensures var loaded := OptimizeLoadingSequence(depot, dist, Compatible(v, orders));
      (forall i :: 0 <= i < |loaded| ==> CanHandleOrder(v, loaded[i])) &&
      forall o :: CanHandleOrder(v, o) ==> multiset(loaded)[o] == multiset(orders)[o]
  {
    var compatible := Compatible(v, orders);
    var loaded := OptimizeLoadingSequence(depot, dist, compatible);
    LoadingSequenceCorrect(depot, dist, compatible);
    CompatibleCounts(v, orders);
    forall i | 0 <= i < |loaded| ensures CanHandleOrder(v, loaded[i]) {
      assert multiset(compatible)[loaded[i]] > 0;
    }
  }

  /** With non-negative package weights, the running weight never decreases along the loading sequence. */
  lemma {:induction false} CumulativeWeightMonotone(loaded: seq<Order>, i: nat, j: nat)
    requires i <= j <= |loaded|
    requires forall k, m :: 0 <= k < |loaded| && 0 <= m < |loaded[k].packages| ==> loaded[k].packages[m].weight >= 0.0
    ensures OrdersWeight(loaded[..i]) <= OrdersWeight(loaded[..j])
  {
    if i < j {
      CumulativeWeightMonotone(loaded, i, j - 1);
      assert loaded[..j][..j - 1] == loaded[..j - 1];
      var last := loaded[j - 1].packages;
      TotalWeightNonNegative(last);
    }
  }

  lemma {:induction false} TotalWeightNonNegative(packages: seq<Package>)
    requires forall k :: 0 <= k < |packages| ==> packages[k].weight >= 0.0
    ensures TotalWeight(packages) >= 0.0
  {
    if packages != [] {
      TotalWeightNonNegative(packages[..|packages| - 1]);
    }
  }
}
