/** The planet of internal/earth/earth.go: cities in a graph, aliens placed
    on them, and the day-by-day movement and battles. */
module Earth {
  import opened Wrappers
  import opened Strings
  import opened DataStructure
  import RandomSource
  import Aliens

  /** Direction labels; `Stay` is the extra choice of an alien that does not move. */
  const North: int := 0
  const East: int := 1
  const South: int := 2
  const West: int := 3
  const Stay: int := 4

  /** The layout New takes: each city's neighbours by direction. */
  type Layout = map<string, map<int, string>>

  /** A battle: the aliens that met in a city. */
  datatype BattleReport = BattleReport(involvedAliens: seq<string>, city: string)

  datatype EarthError = InvalidDirection | Graph(cause: GraphError)

  /** A deferred `AddEdge(dir, from, to)` call. */
  datatype EdgeCall = EdgeCall(dir: int, from: string, to: string)

  /** Some direction of a city's neighbour map is not one of the four. */
  ghost predicate HasInvalidDirection(dirs: map<int, string>) {
    exists d :: d in dirs && d > West
  }

  /** The calls that add each of a city's roads. */
  ghost function CallsOf(city: string, dirs: map<int, string>): set<EdgeCall> {
    set d | d in dirs :: EdgeCall(d, city, dirs[d])
  }

  /** The calls for the directions of `order`, in that order. */
  function CallsAlong(city: string, dirs: map<int, string>, order: seq<int>): (calls: seq<EdgeCall>)
    requires forall k :: 0 <= k < |order| ==> order[k] in dirs
    ensures |calls| == |order|
    ensures forall k :: 0 <= k < |order| ==> calls[k] == EdgeCall(order[k], city, dirs[order[k]])
  {
    seq(|order|, k requires 0 <= k < |order| => EdgeCall(order[k], city, dirs[order[k]]))
  }

  /** Distinct directions give distinct calls, one per direction. */
  lemma CallsAlongAll(city: string, dirs: map<int, string>, order: seq<int>)
    requires forall k :: 0 <= k < |order| ==> order[k] in dirs
    requires Distinct(order) && (set d | d in order) == dirs.Keys
    ensures Distinct(CallsAlong(city, dirs, order))
    ensures (set c | c in CallsAlong(city, dirs, order)) == CallsOf(city, dirs)
  {
    var calls := CallsAlong(city, dirs, order);
    forall c ensures c in calls <==> c in CallsOf(city, dirs) {
      if c in calls {
        var k :| 0 <= k < |calls| && calls[k] == c;
      }
      if c in CallsOf(city, dirs) {
        var d :| d in dirs && c == EdgeCall(d, city, dirs[d]);
        assert d in set d | d in order;
        var k :| 0 <= k < |order| && order[k] == d;
        assert calls[k] == c;
      }
    }
  }

  /** Loop state of buildAddEdgeCalls: the directions of `order` are the ones
      already visited, each valid and visited once, and `calls` holds theirs. */
  ghost predicate Scanned(city: string, dirs: map<int, string>, remaining: set<int>, order: seq<int>, calls: seq<EdgeCall>) {
    remaining <= dirs.Keys &&
    (forall k :: 0 <= k < |order| ==> order[k] in dirs && order[k] <= West) &&
    Distinct(order) &&
    (set d | d in order) == dirs.Keys - remaining &&
    calls == CallsAlong(city, dirs, order)
  }

  /** Visiting one more valid direction keeps the loop state. */
  lemma ScanStep(city: string, dirs: map<int, string>, remaining: set<int>, order: seq<int>, calls: seq<EdgeCall>, d: int)
    requires Scanned(city, dirs, remaining, order, calls) && d in remaining && d <= West
    ensures Scanned(city, dirs, remaining - {d}, order + [d], calls + [EdgeCall(d, city, dirs[d])])
  {
    assert d !in set d | d in order;
    AppendFresh(order, d);
    assert (set e | e in order + [d]) == (set e | e in order) + {d};
  }

  /** buildAddEdgeCalls: one deferred call per direction, or an error as soon
      as a direction greater than West shows up. Negative directions pass. */
  method BuildAddEdgeCalls(city: string, adjacentCities: map<int, string>) returns (r: Result<seq<EdgeCall>, EarthError>)
    ensures r.Err? <==> HasInvalidDirection(adjacentCities)
    ensures r.Err? ==> r.error == InvalidDirection
    ensures r.Ok? ==> (set c | c in r.value) == CallsOf(city, adjacentCities) && Distinct(r.value)
  {
    var calls: seq<EdgeCall> := [];
    var remaining := adjacentCities.Keys;
    ghost var order: seq<int> := [];
    while remaining != {}
      invariant Scanned(city, adjacentCities, remaining, order, calls)
      decreases |remaining|
    {
      IntsInhabited(remaining);
      var direction :| direction in remaining;
      if direction > West {
        return Err(InvalidDirection);
      }
      ScanStep(city, adjacentCities, remaining, order, calls, direction);
      calls := calls + [EdgeCall(direction, city, adjacentCities[direction])];
      order := order + [direction];
      remaining := remaining - {direction};
    }
    CallsAlongAll(city, adjacentCities, order);
    assert !HasInvalidDirection(adjacentCities) by {
      forall d | d in adjacentCities ensures d <= West {
        assert d in set d | d in order;
      }
    }
    return Ok(calls);
  }

  /** newRandomSelector: hands out items at random, never one already handed
      out while some item has not been; after that, any item. */
  class RandomSelector<T(==)> {
    const items: seq<T>
    const rnd: RandomSource.Randomizer
    var selected: set<T>
    var selectedCount: nat

    ghost predicate Valid()
      reads this
    {
      Distinct(items) && selectedCount == |selected| && selected <= (set x | x in items)
    }

    constructor (rnd: RandomSource.Randomizer, items: seq<T>)
      requires Distinct(items)
      ensures Valid() && this.items == items && this.rnd == rnd
      ensures selected == {} && selectedCount == 0
    {
      this.items := items;
      this.rnd := rnd;
      selected := {};
      selectedCount := 0;
    }

    /** One call of the selector closure. While some item is unselected, the
        draw is repeated until it hits one, which becomes selected. */
    method Next() returns (item: T)
      requires Valid() && |items| > 0 && rnd.Fair(|items|)
      modifies this, rnd
      ensures Valid()
      ensures item in items
      ensures old(selectedCount) < |items| ==>
                item !in old(selected) && selected == old(selected) + {item} && selectedCount == old(selectedCount) + 1
      ensures old(selectedCount) >= |items| ==>
                selected == old(selected) && selectedCount == old(selectedCount) && item == items[rnd.Draw(old(rnd.draws), |items|)]
    {
      if selectedCount >= |items| {
        var k := rnd.Intn(|items|);
        return items[k];
      }
      var v := Unselected();
      assert rnd.Recurs(rnd.draws, v, |items|);
      ghost var goal: nat :| rnd.draws <= goal && rnd.Draw(goal, |items|) == v;
      while true
        invariant Valid() && selectedCount < |items|
        invariant selected == old(selected) && selectedCount == old(selectedCount)
        invariant rnd.draws <= goal
        decreases goal - rnd.draws
      {
        ghost var t := rnd.draws;
        var k := rnd.Intn(|items|);
        item := items[k];
        if item !in selected {
          selected := selected + {item};
          selectedCount := selectedCount + 1;
          return;
        }
        assert t != goal;
      }
    }

    /** While fewer items are selected than exist, one is not. */
    lemma Unselected() returns (v: nat)
      requires Valid() && selectedCount < |items|
      ensures v < |items| && items[v] !in selected
    {
      DistinctCard(items);
      if forall i :: 0 <= i < |items| ==> items[i] in selected {
        assert (set x | x in items) <= selected;
        SubsetCard((set x | x in items), selected);
        assert false;
      }
      v :| 0 <= v < |items| && items[v] !in selected;
    }
  }

  // ---------------------------------------------------------------------
  // The state of a day: where the aliens are, and who meets whom.

  /** Every alien stands on a city of the arena that is not destroyed. */
  ghost predicate OnEnabledCities(vs: seq<Vertex>, aliens: map<string, nat>) {
    forall a :: a in aliens ==> aliens[a] < |vs| && !vs[aliens[a]].disabled
  }

  /** `cache` maps cities of an arena of `n` vertices to the aliens standing
      there, each listed once, and lists every alien under its city. */
  ghost predicate Groups(aliens: map<string, nat>, cache: map<nat, seq<string>>, n: nat) {
    (forall v :: v in cache ==>
       v < n && Distinct(cache[v]) && forall a :: a in cache[v] ==> a in aliens && aliens[a] == v) &&
    (forall a :: a in aliens ==> aliens[a] in cache && a in cache[aliens[a]])
  }

  /** No two aliens share a city. */
  ghost predicate Alone(aliens: map<string, nat>) {
    forall a, b :: a in aliens && b in aliens && a != b ==> aliens[a] != aliens[b]
  }

  /** The cities where more than one alien stands. */
  ghost function Contested(cache: map<nat, seq<string>>): set<nat> {
    set v | v in cache && |cache[v]| > 1
  }

  /** The aliens listed under the given cities. */
  ghost function AliensOf(cache: map<nat, seq<string>>, cities: set<nat>): set<string> {
    set v, a | v in cities && v in cache && a in cache[v] :: a
  }

  /** The aliens that die: those in a contested city. */
  ghost function Casualties(cache: map<nat, seq<string>>): set<string> {
    AliensOf(cache, Contested(cache))
  }

  /** One report per contested city, naming the city by its Id. */
  ghost function ReportsOf(cache: map<nat, seq<string>>, vs: seq<Vertex>): set<BattleReport>
    requires forall v :: v in cache ==> v < |vs|
  {
    set v | v in cache && |cache[v]| > 1 :: BattleReport(cache[v], vs[v].id)
  }

  /** The arena with every city of `cities` destroyed. */
  ghost function DisabledAll(vs: seq<Vertex>, cities: set<nat>): seq<Vertex> {
    seq(|vs|, i requires 0 <= i < |vs| => if i in cities then vs[i].(disabled := true) else vs[i])
  }

  /** The aliens that survive a day are alone in their cities. */
  lemma SurvivorsAlone(aliens: map<string, nat>, cache: map<nat, seq<string>>, n: nat)
    requires Groups(aliens, cache, n)
    ensures Alone(aliens - Casualties(cache))
  {
    var rest := aliens - Casualties(cache);
    forall a, b | a in rest && b in rest && a != b ensures rest[a] != rest[b] {
      if rest[a] == rest[b] {
        TwoMembers(cache[aliens[a]], a, b);
        assert false;
      }
    }
  }

  /** A sequence holding two different elements has more than one. */
  lemma TwoMembers<T>(s: seq<T>, a: T, b: T)
    requires a in s && b in s && a != b
    ensures |s| > 1
  {
  }

  /** The survivors of a day stand on cities the day did not destroy. */
  lemma SurvivorsSafe(vs: seq<Vertex>, aliens: map<string, nat>, cache: map<nat, seq<string>>)
    requires OnEnabledCities(vs, aliens) && Groups(aliens, cache, |vs|)
    ensures OnEnabledCities(DisabledAll(vs, Contested(cache)), aliens - Casualties(cache))
  {
    var rest := aliens - Casualties(cache);
    forall a | a in rest ensures !DisabledAll(vs, Contested(cache))[rest[a]].disabled {
      var v := aliens[a];
      if v in Contested(cache) {
        assert false;
      }
    }
  }

  /** Destroying cities keeps the arena well formed and changes nothing but
      the flags. */
  lemma DisabledAllWellFormed(vs: seq<Vertex>, cities: set<nat>)
    requires WellFormed(vs)
    ensures WellFormed(DisabledAll(vs, cities)) && Ids(DisabledAll(vs, cities)) == Ids(vs)
  {
    assert Ids(DisabledAll(vs, cities)) == Ids(vs);
  }

  /** Destroying one more city extends the destroyed set by it. */
  lemma DisabledAllStep(vs: seq<Vertex>, cities: set<nat>, v: nat)
    requires v < |vs|
    ensures Disabled(DisabledAll(vs, cities), v) == DisabledAll(vs, cities + {v})
  {
  }

  /** An alien dies exactly when a report names it. */
  lemma CasualtiesReported(cache: map<nat, seq<string>>, vs: seq<Vertex>, a: string)
    requires forall v :: v in cache ==> v < |vs|
    ensures a in Casualties(cache) <==> exists r :: r in ReportsOf(cache, vs) && a in r.involvedAliens
  {
    if a in Casualties(cache) {
      var v :| v in Contested(cache) && v in cache && a in cache[v];
      assert BattleReport(cache[v], vs[v].id) in ReportsOf(cache, vs);
    }
    if exists r :: r in ReportsOf(cache, vs) && a in r.involvedAliens {
      var r :| r in ReportsOf(cache, vs) && a in r.involvedAliens;
      var v :| v in cache && |cache[v]| > 1 && r == BattleReport(cache[v], vs[v].id);
      assert v in Contested(cache);
    }
  }

  // The first loop of processDay, as its own method.

  /** The reports for the cities of `order`, in that order. */
  ghost function ReportsAlong(cache: map<nat, seq<string>>, vs: seq<Vertex>, order: seq<nat>): (reports: seq<BattleReport>)
    requires forall k :: 0 <= k < |order| ==> order[k] in cache && order[k] < |vs|
    ensures |reports| == |order|
  {
    seq(|order|, k requires 0 <= k < |order| => BattleReport(cache[order[k]], vs[order[k]].id))
  }

  /** Loop state of the survey: the cities visited so far are `cache`'s keys
      outside `remaining`; `order` lists the contested ones among them, once
      each, and the reports, dead aliens and destroyed cities are theirs. */
  ghost predicate Surveyed(cache: map<nat, seq<string>>, vs: seq<Vertex>, remaining: set<nat>, order: seq<nat>,
                           reports: seq<BattleReport>, destroyedAliens: seq<string>, destroyedCities: set<nat>) {
    remaining <= cache.Keys &&
    (forall k :: 0 <= k < |order| ==> order[k] in cache && order[k] < |vs|) &&
    Distinct(order) && Distinct(reports) &&
    destroyedCities == (set v | v in order) &&
    destroyedCities == Contested(cache) - remaining &&
    reports == ReportsAlong(cache, vs, order) &&
    (set a | a in destroyedAliens) == AliensOf(cache, destroyedCities)
  }

  /** Visiting a city keeps the survey's state: a contested city adds its
      report, its aliens and itself; any other city adds nothing. */
  lemma SurveyStep(cache: map<nat, seq<string>>, vs: seq<Vertex>, remaining: set<nat>, order: seq<nat>,
                   reports: seq<BattleReport>, destroyedAliens: seq<string>, destroyedCities: set<nat>, v: nat)
    requires Distinct(Ids(vs)) && v < |vs| && v in remaining
    requires Surveyed(cache, vs, remaining, order, reports, destroyedAliens, destroyedCities)
    ensures |cache[v]| > 1 ==>
              Surveyed(cache, vs, remaining - {v}, order + [v], reports + [BattleReport(cache[v], vs[v].id)],
                       destroyedAliens + cache[v], destroyedCities + {v})
    ensures |cache[v]| <= 1 ==>
              Surveyed(cache, vs, remaining - {v}, order, reports, destroyedAliens, destroyedCities)
  {
    if |cache[v]| > 1 {
      assert v !in set w | w in order;
      AppendFresh(order, v);
      var report := BattleReport(cache[v], vs[v].id);
      assert report !in reports by {
        forall k | 0 <= k < |reports| ensures reports[k] != report {
          assert reports[k].city == Ids(vs)[order[k]];
          assert order[k] != v;
        }
      }
      AppendFresh(reports, report);
      assert (set w | w in order + [v]) == (set w | w in order) + {v};
      assert ReportsAlong(cache, vs, order + [v]) == reports + [report];
      assert (set a | a in destroyedAliens + cache[v]) == (set a | a in destroyedAliens) + (set a | a in cache[v]);
      AliensOfStep(cache, destroyedCities, v);
    }
  }

  /** Adding a city adds its aliens. */
  lemma AliensOfStep(cache: map<nat, seq<string>>, cities: set<nat>, v: nat)
    requires v in cache
    ensures AliensOf(cache, cities + {v}) == AliensOf(cache, cities) + (set a | a in cache[v])
  {
  }

  /** The first loop of processDay: a report, the dead aliens and the
      destroyed city for every city holding more than one alien. */
  method Survey(cache: map<nat, seq<string>>, vs: seq<Vertex>)
      returns (reports: seq<BattleReport>, destroyedAliens: seq<string>, destroyedCities: set<nat>)
    requires WellFormed(vs) && forall v :: v in cache ==> v < |vs|
    ensures (set r | r in reports) == ReportsOf(cache, vs) && Distinct(reports)
    ensures (set a | a in destroyedAliens) == Casualties(cache)
    ensures destroyedCities == Contested(cache)
  {
    reports, destroyedAliens, destroyedCities := [], [], {};
    var remaining := cache.Keys;
    ghost var order: seq<nat> := [];
    while remaining != {}
      invariant Surveyed(cache, vs, remaining, order, reports, destroyedAliens, destroyedCities)
      decreases |remaining|
    {
      var city := PickCity(remaining);
      var aliens := cache[city];
      SurveyStep(cache, vs, remaining, order, reports, destroyedAliens, destroyedCities, city);
      if |aliens| > 1 {
        destroyedAliens := destroyedAliens + aliens;
        destroyedCities := destroyedCities + {city};
        reports := reports + [BattleReport(aliens, vs[city].id)];
        order := order + [city];
      }
      remaining := remaining - {city};
    }
    ReportsAlongSet(cache, vs, order);
  }

  /** The reports along the contested cities are the reports of the day. */
  lemma ReportsAlongSet(cache: map<nat, seq<string>>, vs: seq<Vertex>, order: seq<nat>)
    requires forall v :: v in cache ==> v < |vs|
    requires forall k :: 0 <= k < |order| ==> order[k] in cache
    requires (set v | v in order) == Contested(cache)
    ensures (set r | r in ReportsAlong(cache, vs, order)) == ReportsOf(cache, vs)
  {
    var along := ReportsAlong(cache, vs, order);
    forall r ensures r in along <==> r in ReportsOf(cache, vs) {
      if r in along {
        var k :| 0 <= k < |along| && along[k] == r;
        assert order[k] in Contested(cache);
      }
      if r in ReportsOf(cache, vs) {
        var v :| v in cache && |cache[v]| > 1 && r == BattleReport(cache[v], vs[v].id);
        assert v in Contested(cache);
        assert v in set w | w in order;
        var k :| 0 <= k < |order| && order[k] == v;
        assert along[k] == r;
      }
    }
  }

  /** Some city of a non-empty set, in Go's map iteration order. */
  method PickCity(cities: set<nat>) returns (v: nat)
    requires cities != {}
    ensures v in cities
  {
    NatsInhabited(cities);
    v :| v in cities;
  }

  /** A non-empty set of naturals has an element. */
  lemma NatsInhabited(s: set<nat>)
    requires s != {}
    ensures exists x :: x in s
  {
    if forall x :: x !in s {
      assert false;
    }
  }

  /** A legal move of one day: stay, or follow a road to a city that is not
      destroyed. */
  ghost predicate Legal(vs: seq<Vertex>, from: nat, to: nat)
    requires from < |vs|
  {
    to < |vs| && !vs[to].disabled && (to == from || to in vs[from].adjacent.Values)
  }

  /** Loop state of the movements: the aliens outside `remaining` have made a
      legal move and are listed under their new city in `updated`; the others
      have not moved. */
  ghost predicate Moving(vs: seq<Vertex>, before: map<string, nat>, aliens: map<string, nat>,
                         remaining: set<string>, updated: map<nat, seq<string>>) {
    aliens.Keys == before.Keys && remaining <= before.Keys &&
    OnEnabledCities(vs, before) &&
    (forall a :: a in remaining ==> aliens[a] == before[a]) &&
    (forall a :: a in aliens && a !in remaining ==> Legal(vs, before[a], aliens[a])) &&
    (forall v :: v in updated ==>
       updated[v] != [] && Distinct(updated[v]) && forall a :: a in updated[v] ==> a in aliens && a !in remaining && aliens[a] == v) &&
    (forall a :: a in aliens && a !in remaining ==> aliens[a] in updated && a in updated[aliens[a]])
  }

  /** Moving one more alien keeps the loop state. */
  lemma MoveStep(vs: seq<Vertex>, before: map<string, nat>, aliens: map<string, nat>,
                 remaining: set<string>, updated: map<nat, seq<string>>, a: string, dest: nat)
    requires Moving(vs, before, aliens, remaining, updated) && a in remaining
    requires Legal(vs, before[a], dest)
    ensures var listed := if dest in updated then updated[dest] else [];
            Moving(vs, before, aliens[a := dest], remaining - {a}, updated[dest := listed + [a]])
  {
    var listed := if dest in updated then updated[dest] else [];
    assert a !in listed;
    AppendFresh(listed, a);
  }

  /** After the movements every alien has moved legally, and `updated` groups
      them by their new city. */
  lemma MovedAll(vs: seq<Vertex>, before: map<string, nat>, aliens: map<string, nat>, updated: map<nat, seq<string>>)
    requires Moving(vs, before, aliens, {}, updated)
    ensures Groups(aliens, updated, |vs|) && OnEnabledCities(vs, aliens)
  {
    forall v | v in updated ensures v < |vs| {
      assert updated[v][0] in updated[v];
    }
  }

  class Planet {
    const graph: Graph
    const rnd: RandomSource.Randomizer
    /** Each alien's city (Go's Aliens, name to vertex). */
    var aliens: map<string, nat>
    /** The grouping of aliens by city made by New, used once by the first
        day; None once used (Go's nil map). */
    var dayZeroCache: Option<map<nat, seq<string>>>

    /** The graph is well formed, every alien stands on a city not yet
        destroyed, and a pending day-zero grouping is exact. */
    ghost predicate Valid()
      reads this, graph
    {
      graph.Valid() && OnEnabledCities(graph.vertices, aliens) &&
      (dayZeroCache.Some? ==> Groups(aliens, dayZeroCache.value, |graph.vertices|))
    }

    /** The planet New starts from: an empty graph, no aliens, an empty
        day-zero grouping. */
    constructor (rnd: RandomSource.Randomizer)
      ensures fresh(graph) && graph.vertices == [] && this.rnd == rnd
      ensures aliens == map[] && dayZeroCache == Some(map[])
    {
      graph := new Graph();
      this.rnd := rnd;
      aliens := map[];
      dayZeroCache := Some(map[]);
    }

    /** processDay: the cities where several aliens meet are destroyed, with
        those aliens, and each such battle is reported once. */
    method ProcessDay(cache: map<nat, seq<string>>) returns (reports: seq<BattleReport>)
      requires graph.Valid() && OnEnabledCities(graph.vertices, aliens) && Groups(aliens, cache, |graph.vertices|)
      modifies this, graph
      ensures graph.Valid() && OnEnabledCities(graph.vertices, aliens) && Alone(aliens)
      ensures (set r | r in reports) == ReportsOf(cache, old(graph.vertices)) && Distinct(reports)
      ensures aliens == old(aliens) - Casualties(cache)
      ensures graph.vertices == DisabledAll(old(graph.vertices), Contested(cache))
      ensures dayZeroCache == old(dayZeroCache)
    {
      var destroyedAliens, destroyedCities;
      reports, destroyedAliens, destroyedCities := Survey(cache, graph.vertices);
      RemoveAliens(destroyedAliens);
      DisableCities(destroyedCities);
      SurvivorsAlone(old(aliens), cache, |old(graph.vertices)|);
      SurvivorsSafe(old(graph.vertices), old(aliens), cache);
    }

    /** The second loop of processDay: the dead aliens are deleted. */
    method RemoveAliens(destroyedAliens: seq<string>)
      modifies this
      ensures aliens == old(aliens) - (set a | a in destroyedAliens)
      ensures dayZeroCache == old(dayZeroCache)
    {
      for k := 0 to |destroyedAliens|
        invariant aliens == old(aliens) - (set a | a in destroyedAliens[..k])
        invariant dayZeroCache == old(dayZeroCache)
      {
        aliens := aliens - {destroyedAliens[k]};
      }
      assert destroyedAliens[..|destroyedAliens|] == destroyedAliens;
    }

    /** The third loop of processDay: the destroyed cities are disabled. */
    method DisableCities(destroyedCities: set<nat>)
      requires graph.Valid() && forall v :: v in destroyedCities ==> v < |graph.vertices|
      modifies graph
      ensures graph.Valid()
      ensures graph.vertices == DisabledAll(old(graph.vertices), destroyedCities)
    {
      var remaining := destroyedCities;
      while remaining != {}
        invariant remaining <= destroyedCities && graph.Valid()
        invariant graph.vertices == DisabledAll(old(graph.vertices), destroyedCities - remaining)
        decreases |remaining|
      {
        var city := PickCity(remaining);
        DisabledAllStep(old(graph.vertices), destroyedCities - remaining, city);
        graph.Disable(city);
        assert destroyedCities - remaining + {city} == destroyedCities - (remaining - {city});
        remaining := remaining - {city};
      }
    }

    /** One alien's move: a random pick among the roads to cities not
        destroyed and the choice to stay. */
    method Destination(location: nat) returns (destination: nat)
      requires graph.Valid() && location < |graph.vertices| && !graph.vertices[location].disabled
      modifies rnd
      ensures Legal(graph.vertices, location, destination)
      ensures rnd.draws == old(rnd.draws) + 1
    {
      var edges := graph.AllEdges(location);
      edges := edges + [Stay];
      var k := rnd.Intn(|edges|);
      var destinationEdge := edges[k];
      if destinationEdge == Stay {
        destination := location;
      } else {
        assert destinationEdge in EnabledEdges(graph.vertices, location);
        destination := graph.GetAdjacent(location, destinationEdge).value;
        assert destination in graph.vertices[location].adjacent.Values;
      }
    }

    /** NextDay: the first day fights where New placed the aliens; every
        later day each alien first moves (or stays), then the cities with
        several aliens are destroyed with them. */
    method NextDay() returns (reports: seq<BattleReport>, ghost moved: map<string, nat>, ghost cache: map<nat, seq<string>>)
      requires Valid()
      modifies this, graph, rnd
      ensures Valid() && dayZeroCache == None && Alone(aliens)
      // the positions the day's battles are fought on, and their grouping by city
      ensures Groups(moved, cache, |old(graph.vertices)|) && moved.Keys == old(aliens).Keys
      ensures old(dayZeroCache).Some? ==> moved == old(aliens) && cache == old(dayZeroCache).value
      ensures forall a :: a in moved ==> Legal(old(graph.vertices), old(aliens)[a], moved[a])
      // one report per city holding several aliens, which dies with them
      ensures (set r | r in reports) == ReportsOf(cache, old(graph.vertices)) && Distinct(reports)
      ensures aliens == moved - Casualties(cache)
      ensures graph.vertices == DisabledAll(old(graph.vertices), Contested(cache))
      ensures forall v :: 0 <= v < |graph.vertices| ==>
                (graph.vertices[v].disabled <==> old(graph.vertices)[v].disabled || (v in cache && |cache[v]| > 1))
      // consequences stated on the old and new state alone
      ensures aliens.Keys <= old(aliens).Keys
      ensures forall a :: a in aliens ==> Legal(old(graph.vertices), old(aliens)[a], aliens[a])
      ensures forall r :: r in reports ==>
                |r.involvedAliens| > 1 && forall a :: a in r.involvedAliens ==> a in old(aliens) && a !in aliens
      ensures forall a :: a in old(aliens) && a !in aliens ==>
                exists r :: r in reports && a in r.involvedAliens
      ensures |graph.vertices| == |old(graph.vertices)| && Ids(graph.vertices) == Ids(old(graph.vertices))
      ensures forall v :: 0 <= v < |graph.vertices| ==> graph.vertices[v].adjacent == old(graph.vertices)[v].adjacent
    {
      ghost var vs := graph.vertices;
      var day: map<nat, seq<string>>;
      if dayZeroCache.Some? {
        day := dayZeroCache.value;
        StayLegal(vs, aliens);
      } else {
        day := MoveAliens();
      }
      moved, cache := aliens, day;
      dayZeroCache := None;
      reports := ProcessDay(day);
      DayOutcome(vs, old(aliens), moved, cache, graph.vertices, aliens, reports);
    }

    /** One pass of the movement loop: the alien moves, and is listed under
        its new city. */
    method MoveAlien(alienId: string, updated: map<nat, seq<string>>, ghost before: map<string, nat>, ghost remaining: set<string>)
        returns (next: map<nat, seq<string>>)
      requires graph.Valid() && Moving(graph.vertices, before, aliens, remaining, updated) && alienId in remaining
      modifies this, rnd
      ensures Moving(graph.vertices, before, aliens, remaining - {alienId}, next)
      ensures dayZeroCache == old(dayZeroCache)
    {
      var newDestination := Destination(aliens[alienId]);
      MoveStep(graph.vertices, before, aliens, remaining, updated, alienId, newDestination);
      aliens := aliens[alienId := newDestination];
      var listed := if newDestination in updated then updated[newDestination] else [];
      next := updated[newDestination := listed + [alienId]];
    }

    /** The movement loop of NextDay: each alien, in map iteration order,
        moves legally; the result groups the aliens by their new city. */
    method MoveAliens() returns (updated: map<nat, seq<string>>)
      requires graph.Valid() && OnEnabledCities(graph.vertices, aliens)
      modifies this, rnd
      ensures Groups(aliens, updated, |graph.vertices|) && OnEnabledCities(graph.vertices, aliens)
      ensures aliens.Keys == old(aliens).Keys
      ensures forall a :: a in aliens ==> Legal(graph.vertices, old(aliens)[a], aliens[a])
      ensures dayZeroCache == old(dayZeroCache)
    {
      updated := map[];
      var remaining := aliens.Keys;
      ghost var before, vs := aliens, graph.vertices;
      while remaining != {}
        invariant graph.vertices == vs
        invariant Moving(vs, before, aliens, remaining, updated)
        invariant dayZeroCache == old(dayZeroCache)
        decreases |remaining|
      {
        StringsInhabited(remaining);
        var alienId :| alienId in remaining;
        updated := MoveAlien(alienId, updated, before, remaining);
        remaining := remaining - {alienId};
      }
      MovedAll(vs, before, aliens, updated);
    }

    /** New's first loop: every city of the layout is added to the graph, in
        map iteration order, with an empty day-zero list, and its AddEdge
        calls are collected; the first city with a direction greater than
        West stops New with an error. */
    method AddCities(layout: Layout) returns (r: Result<seq<EdgeCall>, EarthError>, cities: seq<nat>)
      requires graph.Valid() && graph.vertices == [] && dayZeroCache == Some(map[])
      modifies this, graph
      ensures graph.Valid() && aliens == old(aliens)
      ensures r.Err? <==> InvalidDirections(layout)
      ensures r.Err? ==> r.error == InvalidDirection
      ensures r.Ok? ==> Declared(layout, {}, graph.vertices, r.value) && |graph.vertices| == |layout|
      ensures r.Ok? ==> cities == Indices(|graph.vertices|) && dayZeroCache == Some(EmptyGroups(|graph.vertices|))
    {
      var addEdgeCalls: seq<EdgeCall> := [];
      cities := [];
      var remaining := layout.Keys;
      while remaining != {}
        invariant graph.Valid() && aliens == old(aliens)
        invariant Declared(layout, remaining, graph.vertices, addEdgeCalls)
        invariant cities == Indices(|graph.vertices|) && dayZeroCache == Some(EmptyGroups(|graph.vertices|))
        decreases |remaining|
      {
        StringsInhabited(remaining);
        var city :| city in remaining;
        var cityCalls := AddCity(layout, city, remaining, addEdgeCalls);
        cities := cities + [|graph.vertices| - 1];
        if cityCalls.Err? {
          return Err(cityCalls.error), cities;
        }
        addEdgeCalls := addEdgeCalls + cityCalls.value;
        remaining := remaining - {city};
      }
      r := Ok(addEdgeCalls);
      assert !InvalidDirections(layout);
      IdSetSize(graph.vertices);
    }

    /** One pass of New's first loop: AddVertex (which cannot fail, as map
        keys are distinct), the city's empty day-zero list, and
        buildAddEdgeCalls. */
    method AddCity(layout: Layout, city: string, ghost remaining: set<string>, ghost calls: seq<EdgeCall>)
        returns (r: Result<seq<EdgeCall>, EarthError>)
      requires graph.Valid() && Declared(layout, remaining, graph.vertices, calls) && city in remaining
      requires dayZeroCache == Some(EmptyGroups(|graph.vertices|))
      modifies this, graph
      ensures graph.Valid() && aliens == old(aliens)
      ensures graph.vertices == old(graph.vertices) + [Vertex(city, map[], false)]
      ensures dayZeroCache == Some(EmptyGroups(|graph.vertices|))
      ensures r.Err? <==> HasInvalidDirection(layout[city])
      ensures r.Err? ==> r.error == InvalidDirection
      ensures r.Ok? ==> Declared(layout, remaining - {city}, graph.vertices, calls + r.value)
    {
      NotFound(graph.vertices, city);
      var added := graph.AddVertex(city);
      var cityRef := added.value;
      dayZeroCache := Some(dayZeroCache.value[cityRef := []]);
      assert dayZeroCache.value == EmptyGroups(|graph.vertices|);
      r := BuildAddEdgeCalls(city, layout[city]);
      if r.Ok? {
        DeclareStep(layout, remaining, old(graph.vertices), calls, city, r.value);
      }
    }

    /** New's second loop: the collected AddEdge calls run in order. A road
        to a city already reached from the same city is a duplicate, which
        is ignored; a neighbour that is not a city stops New. */
    method AddRoads(layout: Layout, calls: seq<EdgeCall>) returns (err: Option<EarthError>)
      requires graph.Valid() && Declared(layout, {}, graph.vertices, calls)
      modifies graph
      ensures graph.Valid()
      ensures err.Some? <==> MissingNeighbour(layout)
      ensures err.Some? ==> err.value == Graph(VertexNotFound)
      ensures err.None? ==> Built(layout, graph.vertices) && |graph.vertices| == |layout|
    {
      DeclaredPaved(layout, graph.vertices, calls);
      for k := 0 to |calls|
        invariant graph.Valid() && Paved(layout, calls, k, graph.vertices)
      {
        var e := AddRoad(layout, calls, k);
        if e.Some? {
          MissingFound(layout, calls, k);
          return Some(Graph(e.value));
        }
      }
      PavedComplete(layout, calls, graph.vertices);
      IdSetSize(graph.vertices);
      return None;
    }

    /** One AddEdge closure of buildAddEdgeCalls: AddEdge, with
        EdgeDuplicated turned into success. */
    method AddRoad(layout: Layout, calls: seq<EdgeCall>, k: nat) returns (err: Option<GraphError>)
      requires graph.Valid() && Paved(layout, calls, k, graph.vertices) && k < |calls|
      modifies graph
      ensures graph.Valid()
      ensures err.Some? <==> calls[k].to !in layout
      ensures err.Some? ==> err.value == VertexNotFound
      ensures err.None? ==> Paved(layout, calls, k + 1, graph.vertices)
    {
      var call := calls[k];
      ghost var vs := graph.vertices;
      assert call in LayoutCalls(layout, layout.Keys);
      var f := Found(vs, call.from);
      err := graph.AddEdge(call.dir, call.from, call.to);
      if err.Some? && err.value == EdgeDuplicated {
        err := None;
      }
      if call.to !in layout {
        NotFound(vs, call.to);
      } else {
        var t := Found(vs, call.to);
        if t in vs[f].adjacent.Values {
          RoadPresent(layout, calls, k, vs, f, t);
        } else {
          RoadStep(layout, calls, k, vs, f, t);
        }
      }
    }

    /** New's last step: the aliens get their names and, one by one, a city
        from the selector, which spreads them over distinct cities while
        there are cities left. */
    method PlaceAliens(aliensAmount: nat, cities: seq<nat>)
      requires graph.Valid() && aliens == map[] && cities == Indices(|graph.vertices|)
      requires dayZeroCache == Some(EmptyGroups(|graph.vertices|))
      requires forall i :: 0 <= i < |graph.vertices| ==> !graph.vertices[i].disabled
      requires aliensAmount > 0 ==> |cities| > 0 && rnd.Fair(|cities|)
      modifies this, rnd
      ensures Valid() && dayZeroCache.Some? && dayZeroCache.value.Keys == old(dayZeroCache).value.Keys
      ensures aliens.Keys == set n | n in Aliens.AlienNames(Aliens.DrawnBases(rnd, old(rnd.draws), aliensAmount))
      ensures |aliens| == aliensAmount
      ensures aliensAmount <= |cities| ==> Alone(aliens)
    {
      var randomCitySelector := new RandomSelector(rnd, cities);
      var alienNames := Aliens.RandomAlienNames(aliensAmount, rnd);
      LandAliens(alienNames, randomCitySelector);
    }

    /** New's last loop: each named alien, in order, lands on the city the
        selector hands out and is added to that city's day-zero list. */
    method LandAliens(alienNames: array<string>, randomCitySelector: RandomSelector<nat>)
      requires Distinct(alienNames[..])
      requires graph.Valid() && aliens == map[] && dayZeroCache == Some(EmptyGroups(|graph.vertices|))
      requires forall i :: 0 <= i < |graph.vertices| ==> !graph.vertices[i].disabled
      requires randomCitySelector.Valid() && randomCitySelector.rnd == rnd
      requires randomCitySelector.items == Indices(|graph.vertices|)
      requires randomCitySelector.selected == {} && randomCitySelector.selectedCount == 0
      requires alienNames.Length > 0 ==> |graph.vertices| > 0 && rnd.Fair(|graph.vertices|)
      modifies this, rnd, randomCitySelector
      ensures Valid() && dayZeroCache.Some? && dayZeroCache.value.Keys == old(dayZeroCache).value.Keys
      ensures aliens.Keys == set n | n in alienNames[..]
      ensures |aliens| == alienNames.Length
      ensures alienNames.Length <= |graph.vertices| ==> Alone(aliens)
    {
      ghost var names, vs := alienNames[..], graph.vertices;
      var cache := dayZeroCache.value;
      ghost var keys := cache.Keys;
      for i := 0 to alienNames.Length
        invariant cache.Keys == keys && graph.vertices == vs
        invariant randomCitySelector.Valid()
        invariant aliens.Keys == set n | n in names[..i]
        invariant Groups(aliens, cache, |vs|) && OnEnabledCities(vs, aliens)
        invariant Spread(aliens, randomCitySelector.selected, randomCitySelector.selectedCount, i, |vs|)
      {
        NotEarlier(names, i);
        ghost var before := aliens;
        cache := LandAlien(alienNames[i], cache, randomCitySelector, i);
        PrefixStep(names, i, before.Keys, aliens.Keys);
      }
      dayZeroCache := Some(cache);
      assert names[..alienNames.Length] == names;
      KeysCount(aliens, names);
      ghost var selected, count := randomCitySelector.selected, randomCitySelector.selectedCount;
      SpreadAlone(aliens, selected, count, alienNames.Length, |vs|);
    }

    /** One pass of New's last loop. */
    method LandAlien(alienName: string, cache: map<nat, seq<string>>, randomCitySelector: RandomSelector<nat>, ghost i: nat)
        returns (next: map<nat, seq<string>>)
      requires alienName !in aliens && (forall v: nat :: v in cache <==> v < |graph.vertices|)
      requires Groups(aliens, cache, |graph.vertices|) && OnEnabledCities(graph.vertices, aliens)
      requires forall v :: 0 <= v < |graph.vertices| ==> !graph.vertices[v].disabled
      requires randomCitySelector.Valid() && randomCitySelector.rnd == rnd
      requires randomCitySelector.items == Indices(|graph.vertices|) && |graph.vertices| > 0 && rnd.Fair(|graph.vertices|)
      requires Spread(aliens, randomCitySelector.selected, randomCitySelector.selectedCount, i, |graph.vertices|)
      modifies this, rnd, randomCitySelector
      ensures aliens.Keys == old(aliens).Keys + {alienName} && next.Keys == cache.Keys
      ensures Groups(aliens, next, |graph.vertices|) && OnEnabledCities(graph.vertices, aliens)
      ensures randomCitySelector.Valid()
      ensures Spread(aliens, randomCitySelector.selected, randomCitySelector.selectedCount, i + 1, |graph.vertices|)
      ensures dayZeroCache == old(dayZeroCache)
    {
      ghost var selected, count := randomCitySelector.selected, randomCitySelector.selectedCount;
      var city := randomCitySelector.Next();
      PlaceStep(aliens, cache, |graph.vertices|, alienName, city);
      SpreadStep(aliens, selected, count, i, |graph.vertices|, alienName, city, randomCitySelector.selected);
      aliens := aliens[alienName := city];
      next := cache[city := cache[city] + [alienName]];
    }

    /** New: a planet whose graph has one city per layout key and exactly
        the roads the layout names, with the aliens placed; or the error of
        the first check that fails: a direction greater than West anywhere,
        then a neighbour that is not a city. Go's New panics when there are
        aliens but no cities; the randomness must let the selector finish. */
    static method New(layout: Layout, aliensAmount: nat, rnd: RandomSource.Randomizer) returns (r: Result<Planet, EarthError>)
      requires aliensAmount > 0 ==> |layout| > 0 && rnd.Fair(|layout|)
      modifies rnd
      ensures InvalidDirections(layout) ==> r == Err(InvalidDirection)
      ensures !InvalidDirections(layout) && MissingNeighbour(layout) ==> r == Err(Graph(VertexNotFound))
      ensures !InvalidDirections(layout) && !MissingNeighbour(layout) ==> r.Ok?
      ensures r.Ok? ==>
                var p := r.value;
                fresh(p) && fresh(p.graph) && p.rnd == rnd && p.Valid() &&
                Built(layout, p.graph.vertices) && |p.graph.vertices| == |layout| &&
                p.dayZeroCache.Some? && (forall v: nat :: v in p.dayZeroCache.value <==> v < |layout|) &&
                p.aliens.Keys == (set n | n in Aliens.AlienNames(Aliens.DrawnBases(rnd, old(rnd.draws), aliensAmount))) &&
                |p.aliens| == aliensAmount &&
                (aliensAmount <= |layout| ==> Alone(p.aliens))
    {
      var p := new Planet(rnd);
      var addEdgeCalls, cities := p.AddCities(layout);
      if addEdgeCalls.Err? {
        return Err(addEdgeCalls.error);
      }
      var err := p.AddRoads(layout, addEdgeCalls.value);
      if err.Some? {
        return Err(err.value);
      }
      p.PlaceAliens(aliensAmount, cities);
      return Ok(p);
    }
  }

  /** Staying is a legal move for an alien on a city not destroyed. */
  lemma StayLegal(vs: seq<Vertex>, aliens: map<string, nat>)
    requires OnEnabledCities(vs, aliens)
    ensures forall a :: a in aliens ==> Legal(vs, aliens[a], aliens[a])
  {
  }

  /** What one day amounts to, from the aliens' moves and processDay's
      outcome: survivors moved legally, every report names aliens that died,
      every alien that died is in a report, and the arena only loses cities. */
  lemma DayOutcome(vs: seq<Vertex>, before: map<string, nat>, moved: map<string, nat>, cache: map<nat, seq<string>>,
                   ws: seq<Vertex>, after: map<string, nat>, reports: seq<BattleReport>)
    requires WellFormed(vs) && OnEnabledCities(vs, before) && Groups(moved, cache, |vs|)
    requires moved.Keys == before.Keys && forall a :: a in moved ==> Legal(vs, before[a], moved[a])
    requires (set r | r in reports) == ReportsOf(cache, vs)
    requires after == moved - Casualties(cache) && ws == DisabledAll(vs, Contested(cache))
    ensures after.Keys <= before.Keys
    ensures forall a :: a in after ==> Legal(vs, before[a], after[a])
    ensures forall r :: r in reports ==>
              |r.involvedAliens| > 1 && forall a :: a in r.involvedAliens ==> a in before && a !in after
    ensures forall a :: a in before && a !in after ==> exists r :: r in reports && a in r.involvedAliens
    ensures |ws| == |vs| && Ids(ws) == Ids(vs)
    ensures forall v :: 0 <= v < |ws| ==>
              ws[v].adjacent == vs[v].adjacent && (ws[v].disabled <==> vs[v].disabled || (v in cache && |cache[v]| > 1))
  {
    DisabledAllWellFormed(vs, Contested(cache));
    forall a | a in before && a !in after
      ensures exists r :: r in reports && a in r.involvedAliens
    {
      CasualtiesReported(cache, vs, a);
    }
    forall r | r in reports
      ensures |r.involvedAliens| > 1 && forall a :: a in r.involvedAliens ==> a in before && a !in after
    {
      assert r in ReportsOf(cache, vs);
      forall a | a in r.involvedAliens ensures a in before && a !in after {
        CasualtiesReported(cache, vs, a);
      }
    }
  }

  // ---------------------------------------------------------------------
  // Building the planet.

  /** Some city lists a direction greater than West. */
  ghost predicate InvalidDirections(layout: Layout) {
    exists c :: c in layout && HasInvalidDirection(layout[c])
  }

  /** Some city names a neighbour that is not itself declared as a city. */
  ghost predicate MissingNeighbour(layout: Layout) {
    exists c, d :: c in layout && d in layout[c] && layout[c][d] !in layout
  }

  /** The AddEdge calls for the roads of the given cities. */
  ghost function LayoutCalls(layout: Layout, cities: set<string>): set<EdgeCall> {
    set c, d | c in cities && c in layout && d in layout[c] :: EdgeCall(d, c, layout[c][d])
  }

  /** The Ids of an arena, as a set. */
  ghost function IdSet(vs: seq<Vertex>): set<string> {
    set i | 0 <= i < |vs| :: vs[i].id
  }

  /** The Ids of the cities reached by `vs[i]`'s roads. */
  ghost function DestIds(vs: seq<Vertex>, i: nat): set<string>
    requires i < |vs|
  {
    set d | d in vs[i].adjacent && vs[i].adjacent[d] < |vs| :: vs[vs[i].adjacent[d]].id
  }

  /** The arena positions 0, 1, ..., n - 1: New's `cities` slice. */
  function Indices(n: nat): (s: seq<nat>)
    ensures |s| == n && forall i :: 0 <= i < n ==> s[i] == i
  {
    seq(n, i requires 0 <= i < n => i)
  }

  /** The day-zero grouping before any alien lands: every city, no aliens. */
  function EmptyGroups(n: nat): (cache: map<nat, seq<string>>)
    ensures forall v: nat :: v in cache <==> v < n
    ensures forall v :: v in cache ==> cache[v] == []
  {
    var cache := map v | v in Indices(n) :: [];
    assert forall v: nat :: v in cache <==> v < n by {
      forall v: nat | v < n ensures v in cache {
        assert Indices(n)[v] == v;
      }
    }
    cache
  }

  /** Every road of the arena is one the layout asks for. */
  ghost predicate Sound(layout: Layout, vs: seq<Vertex>) {
    forall i :: 0 <= i < |vs| ==>
      vs[i].id in layout &&
      forall d :: d in vs[i].adjacent ==>
        d in layout[vs[i].id] && vs[i].adjacent[d] < |vs| && vs[vs[i].adjacent[d]].id == layout[vs[i].id][d]
  }

  /** Every neighbour the layout names is reached by a road. */
  ghost predicate Complete(layout: Layout, vs: seq<Vertex>) {
    forall i :: 0 <= i < |vs| ==> vs[i].id in layout && layout[vs[i].id].Values <= DestIds(vs, i)
  }

  /** The arena New builds from a layout: one enabled city per key, and
      roads that reach exactly the neighbours the layout names. */
  ghost predicate Built(layout: Layout, vs: seq<Vertex>) {
    IdSet(vs) == layout.Keys && (forall i :: 0 <= i < |vs| ==> !vs[i].disabled) &&
    Sound(layout, vs) && Complete(layout, vs)
  }

  /** In a built arena each city's roads lead to exactly the neighbours the
      layout names for it, under the directions it gives them. */
  lemma BuiltRoads(layout: Layout, vs: seq<Vertex>, i: nat)
    requires Built(layout, vs) && i < |vs|
    ensures DestIds(vs, i) == layout[vs[i].id].Values
    ensures forall d :: d in vs[i].adjacent ==> d in layout[vs[i].id]
  {
    forall w | w in DestIds(vs, i) ensures w in layout[vs[i].id].Values {
      var d :| d in vs[i].adjacent && vs[i].adjacent[d] < |vs| && w == vs[vs[i].adjacent[d]].id;
      assert layout[vs[i].id][d] == w;
    }
  }

  /** A well formed arena has as many cities as Ids. */
  lemma IdSetSize(vs: seq<Vertex>)
    requires WellFormed(vs)
    ensures |IdSet(vs)| == |vs|
  {
    DistinctCard(Ids(vs));
    assert IdSet(vs) == set x | x in Ids(vs);
  }

  /** Loop state of New's first loop: the cities outside `remaining` have
      been added, in order, enabled and without roads, their cities are valid,
      and `calls` holds their AddEdge calls. */
  ghost predicate Declared(layout: Layout, remaining: set<string>, vs: seq<Vertex>, calls: seq<EdgeCall>) {
    remaining <= layout.Keys &&
    IdSet(vs) == layout.Keys - remaining &&
    (forall i :: 0 <= i < |vs| ==> vs[i].adjacent == map[] && !vs[i].disabled) &&
    (forall c :: c in layout && c !in remaining ==> !HasInvalidDirection(layout[c])) &&
    (set c | c in calls) == LayoutCalls(layout, layout.Keys - remaining)
  }

  /** Adding a valid city and its calls keeps the first loop's state. */
  lemma DeclareStep(layout: Layout, remaining: set<string>, vs: seq<Vertex>, calls: seq<EdgeCall>,
                    city: string, cityCalls: seq<EdgeCall>)
    requires Declared(layout, remaining, vs, calls) && city in remaining
    requires !HasInvalidDirection(layout[city]) && (set c | c in cityCalls) == CallsOf(city, layout[city])
    ensures Declared(layout, remaining - {city}, vs + [Vertex(city, map[], false)], calls + cityCalls)
  {
    var ws := vs + [Vertex(city, map[], false)];
    assert IdSet(ws) == IdSet(vs) + {city} by {
      forall x ensures x in IdSet(ws) <==> x in IdSet(vs) + {city} {
        if x in IdSet(ws) {
          var i :| 0 <= i < |ws| && ws[i].id == x;
          if i < |vs| { assert vs[i].id == x; }
        }
        if x in IdSet(vs) {
          var i :| 0 <= i < |vs| && vs[i].id == x;
          assert ws[i].id == x;
        }
        if x == city { assert ws[|vs|].id == x; }
      }
    }
    assert layout.Keys - (remaining - {city}) == (layout.Keys - remaining) + {city};
    assert (set c | c in calls + cityCalls) == (set c | c in calls) + (set c | c in cityCalls);
    assert LayoutCalls(layout, (layout.Keys - remaining) + {city}) ==
           LayoutCalls(layout, layout.Keys - remaining) + CallsOf(city, layout[city]);
  }

  /** A city not among the Ids is not found. */
  lemma NotFound(vs: seq<Vertex>, id: string)
    requires id !in IdSet(vs)
    ensures Find(vs, id).None?
  {
    forall j | 0 <= j < |vs| ensures vs[j].id != id {
      assert vs[j].id in IdSet(vs);
    }
  }

  /** The city of an Id, in an arena with unique Ids. */
  lemma Found(vs: seq<Vertex>, id: string) returns (i: nat)
    requires Distinct(Ids(vs)) && id in IdSet(vs)
    ensures i < |vs| && vs[i].id == id && Find(vs, id) == Some(i)
  {
    i :| 0 <= i < |vs| && vs[i].id == id;
    FindUnique(vs, id, i);
  }

  /** The roads of `c.from` reach `c.to`. */
  ghost predicate Reached(vs: seq<Vertex>, c: EdgeCall) {
    forall i :: 0 <= i < |vs| && vs[i].id == c.from ==> c.to in DestIds(vs, i)
  }

  /** Loop state of New's second loop: every city is in the graph, enabled,
      all roads are ones the layout asks for, and the first `k` calls have
      their roads. */
  ghost predicate Paved(layout: Layout, calls: seq<EdgeCall>, k: nat, vs: seq<Vertex>) {
    k <= |calls| &&
    IdSet(vs) == layout.Keys && (forall i :: 0 <= i < |vs| ==> !vs[i].disabled) && Sound(layout, vs) &&
    (forall j :: 0 <= j < |calls| ==> calls[j] in LayoutCalls(layout, layout.Keys)) &&
    (forall j :: 0 <= j < k ==> calls[j].to in layout) && Served(calls, k, vs)
  }

  /** The first `k` calls have their roads. */
  ghost predicate Served(calls: seq<EdgeCall>, k: nat, vs: seq<Vertex>) {
    k <= |calls| && forall j :: 0 <= j < k ==> Reached(vs, calls[j])
  }

  /** Setting a road that a call asks for, to a city not yet reached, keeps
      every road one the layout asks for, and adds to the roads of `f`
      without replacing any. */
  lemma RoadSound(layout: Layout, vs: seq<Vertex>, c: EdgeCall, f: nat, t: nat)
    requires WellFormed(vs) && Sound(layout, vs) && c in LayoutCalls(layout, layout.Keys)
    requires f < |vs| && t < |vs| && vs[f].id == c.from && vs[t].id == c.to && t !in vs[f].adjacent.Values
    ensures c.dir !in vs[f].adjacent
    ensures Sound(layout, vs[f := vs[f].(adjacent := vs[f].adjacent[c.dir := t])])
  {
    var city, d :| city in layout && d in layout[city] && c == EdgeCall(d, city, layout[city][d]);
    var adj := vs[f].adjacent;
    if c.dir in adj {
      assert false;
    }
    var ws := vs[f := vs[f].(adjacent := adj[c.dir := t])];
    forall i | 0 <= i < |ws|
      ensures ws[i].id in layout &&
              forall e :: e in ws[i].adjacent ==>
                e in layout[ws[i].id] && ws[i].adjacent[e] < |ws| && ws[ws[i].adjacent[e]].id == layout[ws[i].id][e]
    {
      assert ws[i].id == vs[i].id;
      forall e | e in ws[i].adjacent
        ensures e in layout[ws[i].id] && ws[i].adjacent[e] < |ws| && ws[ws[i].adjacent[e]].id == layout[ws[i].id][e]
      {
        assert ws[ws[i].adjacent[e]].id == vs[ws[i].adjacent[e]].id;
      }
    }
  }

  /** A road that is set keeps the calls already served reached, and reaches
      the call's own city: New's second loop advances by one. */
  lemma RoadStep(layout: Layout, calls: seq<EdgeCall>, k: nat, vs: seq<Vertex>, f: nat, t: nat)
    requires WellFormed(vs) && Paved(layout, calls, k, vs) && k < |calls|
    requires f < |vs| && t < |vs| && vs[f].id == calls[k].from && vs[t].id == calls[k].to
    requires t !in vs[f].adjacent.Values
    ensures Paved(layout, calls, k + 1, vs[f := vs[f].(adjacent := vs[f].adjacent[calls[k].dir := t])])
  {
    var c := calls[k];
    RoadSound(layout, vs, c, f, t);
    var ws := vs[f := vs[f].(adjacent := vs[f].adjacent[c.dir := t])];
    assert Ids(ws) == Ids(vs);
    SameIdSet(vs, ws);
    assert vs[t].id in IdSet(vs);
    ServedStep(calls, k, vs, f, t);
  }

  /** Setting the road of call `k` serves it and keeps the earlier calls
      served. */
  lemma ServedStep(calls: seq<EdgeCall>, k: nat, vs: seq<Vertex>, f: nat, t: nat)
    requires Distinct(Ids(vs)) && Served(calls, k, vs) && k < |calls|
    requires f < |vs| && t < |vs| && vs[f].id == calls[k].from && vs[t].id == calls[k].to
    requires calls[k].dir !in vs[f].adjacent
    ensures Served(calls, k + 1, vs[f := vs[f].(adjacent := vs[f].adjacent[calls[k].dir := t])])
  {
    var c := calls[k];
    var ws := vs[f := vs[f].(adjacent := vs[f].adjacent[c.dir := t])];
    assert Ids(ws) == Ids(vs);
    forall j, i | 0 <= j < k + 1 && 0 <= i < |ws| && ws[i].id == calls[j].from
      ensures calls[j].to in DestIds(ws, i)
    {
      assert vs[i].id == Ids(ws)[i];
      if j == k {
        assert Ids(vs)[i] == Ids(vs)[f];
        assert ws[ws[f].adjacent[c.dir]].id == Ids(ws)[t] == c.to;
      } else {
        DestIdsGrow(vs, f, c.dir, t, i);
      }
    }
  }

  /** Two arenas with the same Ids have the same set of Ids. */
  lemma SameIdSet(vs: seq<Vertex>, ws: seq<Vertex>)
    requires Ids(vs) == Ids(ws)
    ensures IdSet(vs) == IdSet(ws)
  {
    forall x ensures x in IdSet(ws) <==> x in IdSet(vs) {
      if x in IdSet(ws) {
        var i :| 0 <= i < |ws| && ws[i].id == x;
        assert Ids(vs)[i] == x;
      }
      if x in IdSet(vs) {
        var i :| 0 <= i < |vs| && vs[i].id == x;
        assert Ids(ws)[i] == x;
      }
    }
  }

  /** Adding roads to a city, with the Ids unchanged, keeps every city it
      reached. */
  lemma DestIdsGrow(vs: seq<Vertex>, f: nat, dir: int, t: nat, i: nat)
    requires f < |vs| && i < |vs| && dir !in vs[f].adjacent
    ensures DestIds(vs, i) <= DestIds(vs[f := vs[f].(adjacent := vs[f].adjacent[dir := t])], i)
  {
    var ws := vs[f := vs[f].(adjacent := vs[f].adjacent[dir := t])];
    assert Ids(ws) == Ids(vs);
    forall w | w in DestIds(vs, i) ensures w in DestIds(ws, i) {
      var e :| e in vs[i].adjacent && vs[i].adjacent[e] < |vs| && w == vs[vs[i].adjacent[e]].id;
      assert e in ws[i].adjacent && ws[i].adjacent[e] == vs[i].adjacent[e];
      assert Ids(ws)[vs[i].adjacent[e]] == w;
    }
  }

  /** A call whose destination already has a road from its source city is
      served as it is. */
  lemma RoadPresent(layout: Layout, calls: seq<EdgeCall>, k: nat, vs: seq<Vertex>, f: nat, t: nat)
    requires WellFormed(vs) && Paved(layout, calls, k, vs) && k < |calls|
    requires f < |vs| && t < |vs| && vs[f].id == calls[k].from && vs[t].id == calls[k].to
    requires t in vs[f].adjacent.Values
    ensures Paved(layout, calls, k + 1, vs)
  {
    var d := KeyOf(vs[f].adjacent, t);
    assert calls[k].to in DestIds(vs, f);
    forall i | 0 <= i < |vs| && vs[i].id == calls[k].from ensures i == f {
      assert Ids(vs)[i] == Ids(vs)[f];
    }
    assert vs[t].id in IdSet(vs);
  }

  /** After every call is served, the layout's neighbours are all reached. */
  lemma PavedComplete(layout: Layout, calls: seq<EdgeCall>, vs: seq<Vertex>)
    requires WellFormed(vs) && Paved(layout, calls, |calls|, vs)
    requires (set c | c in calls) == LayoutCalls(layout, layout.Keys)
    ensures Built(layout, vs) && !MissingNeighbour(layout)
  {
    forall i | 0 <= i < |vs| ensures vs[i].id in layout && layout[vs[i].id].Values <= DestIds(vs, i) {
      assert vs[i].id in IdSet(vs);
      var city := vs[i].id;
      forall w | w in layout[city].Values ensures w in DestIds(vs, i) {
        var d := KeyOf(layout[city], w);
        var c := EdgeCall(d, city, w);
        assert c in LayoutCalls(layout, layout.Keys);
        var j :| 0 <= j < |calls| && calls[j] == c;
      }
    }
    forall city, d | city in layout && d in layout[city] ensures layout[city][d] in layout {
      var c := EdgeCall(d, city, layout[city][d]);
      assert c in LayoutCalls(layout, layout.Keys);
      var j :| 0 <= j < |calls| && calls[j] == c;
    }
  }

  /** A value of a map is the value of some key. */
  lemma KeyOf<K, V>(m: map<K, V>, v: V) returns (k: K)
    requires v in m.Values
    ensures k in m && m[k] == v
  {
    k :| k in m && m[k] == v;
  }

  /** A call whose city is not declared shows a missing neighbour. */
  lemma MissingFound(layout: Layout, calls: seq<EdgeCall>, k: nat)
    requires k < |calls| && calls[k] in LayoutCalls(layout, layout.Keys) && calls[k].to !in layout
    ensures MissingNeighbour(layout)
  {
  }

  /** Landing a new alien on a city of the grouping keeps it exact. */
  lemma PlaceStep(aliens: map<string, nat>, cache: map<nat, seq<string>>, n: nat, name: string, city: nat)
    requires Groups(aliens, cache, n) && name !in aliens && city in cache
    ensures Groups(aliens[name := city], cache[city := cache[city] + [name]], n)
  {
    assert name !in cache[city];
    AppendFresh(cache[city], name);
  }

  /** Once every city is declared, New's second loop can start. */
  lemma DeclaredPaved(layout: Layout, vs: seq<Vertex>, calls: seq<EdgeCall>)
    requires Declared(layout, {}, vs, calls)
    ensures Paved(layout, calls, 0, vs)
  {
    assert layout.Keys - {} == layout.Keys;
    forall i | 0 <= i < |vs| ensures vs[i].id in layout {
      assert vs[i].id in IdSet(vs);
    }
    forall j | 0 <= j < |calls| ensures calls[j] in LayoutCalls(layout, layout.Keys) {
      assert calls[j] in set c | c in calls;
    }
  }

  /** Loop state of the placement: while no more than `n` aliens have landed,
      the selector has handed out one city per alien, each alien's city is
      among them, and no two aliens share one. */
  ghost predicate Spread(aliens: map<string, nat>, selected: set<nat>, count: nat, i: nat, n: nat) {
    i <= n ==> count == i && (forall a :: a in aliens ==> aliens[a] in selected) && Alone(aliens)
  }

  /** A new alien landing on a city the selector had not handed out keeps
      the aliens spread out. */
  lemma SpreadStep(aliens: map<string, nat>, selected: set<nat>, count: nat, i: nat, n: nat,
                   name: string, city: nat, selected': set<nat>)
    requires Spread(aliens, selected, count, i, n) && name !in aliens
    requires count < n ==> city !in selected && selected' == selected + {city}
    ensures Spread(aliens[name := city], selected', if count < n then count + 1 else count, i + 1, n)
  {
  }

  /** In a sequence without repetitions, an element does not occur before its position. */
  lemma NotEarlier<T>(s: seq<T>, i: nat)
    requires Distinct(s) && i < |s|
    ensures s[i] !in s[..i]
  {
  }

  /** Adding the next element to the elements of a prefix. */
  lemma PrefixStep<T>(s: seq<T>, i: nat, before: set<T>, after: set<T>)
    requires i < |s| && before == (set x | x in s[..i]) && after == before + {s[i]}
    ensures var longer := s[..i + 1]; after == set x | x in longer
  {
    assert s[..i + 1] == s[..i] + [s[i]];
  }

  /** Keyed by the elements of a sequence without repetitions, a map has as
      many entries as the sequence has elements. */
  lemma KeysCount<V>(m: map<string, V>, s: seq<string>)
    requires Distinct(s) && m.Keys == set x | x in s
    ensures |m| == |s|
  {
    DistinctCard(s);
  }

  /** While no more aliens than cities have landed, they are alone. */
  lemma SpreadAlone(aliens: map<string, nat>, selected: set<nat>, count: nat, i: nat, n: nat)
    requires Spread(aliens, selected, count, i, n)
    ensures i <= n ==> Alone(aliens)
  {
  }
}
