/** The invasion driver of internal/simulation/simulation.go: it checks a
    loaded layout, converts it to the planet's direction numbers, builds the
    planet and advances it one day per tick. */
module Simulation {
  import opened Wrappers
  import opened Strings
  import opened DataStructure
  import opened Earth
  import RandomSource
  import System

  /** The direction words of a layout file and the planet's numbers for them. */
  const DirectionToEnum: map<string, int> := map["north" := North, "south" := South, "east" := East, "west" := West]

  /** The direction a road taken in a given direction must be declared in by
      the city it leads to. */
  const Opposite: map<string, string> := map["north" := "south", "south" := "north", "east" := "west", "west" := "east"]

  /** The word for a direction number. */
  function DirectionName(d: int): (name: string)
    requires North <= d <= West
    ensures name in DirectionToEnum && DirectionToEnum[name] == d
  {
    if d == North then "north" else if d == East then "east" else if d == South then "south" else "west"
  }

  /** Each direction word names a different number, and DirectionName reads it back. */
  lemma DirectionRoundTrip(k: string)
    requires k in DirectionToEnum
    ensures North <= DirectionToEnum[k] <= West && DirectionName(DirectionToEnum[k]) == k
  {
  }

  /** NewInvasion's refusal of a layout that fails the check. The planet's
      own errors, which Go passes on, cannot arise after the check. */
  datatype InvasionError = InvalidLayout

  /** What a tick reports: the day's battles, where the survivors stand (city
      name to the aliens there) and the tick's 0-based number. */
  datatype TickReport = TickReport(battles: seq<BattleReport>, alienPositions: map<string, seq<string>>, tick: int)

  // ---------------------------------------------------------------------
  // Layout validation and conversion.

  /** `dir` declared in `roads` leads to a declared city that itself declares
      a road in direction `back`, wherever that road goes. */
  function Answered(recs: System.LoadFileRecords, roads: map<string, string>, dir: string, back: string): bool {
    dir in roads ==> roads[dir] in recs && back in recs[roads[dir]]
  }

  /** One city's part of validateFileRecords. */
  function RoadsValid(recs: System.LoadFileRecords, roads: map<string, string>): bool {
    (forall key | key in roads :: key == "north" || key == "south" || key == "west" || key == "east") &&
    Answered(recs, roads, "south", "north") && Answered(recs, roads, "west", "east") &&
    Answered(recs, roads, "east", "west") && Answered(recs, roads, "north", "south")
  }

  /** validateFileRecords: every key is a direction, and every road leads to
      a declared city that declares a road back in the opposite direction. */
  function ValidateFileRecords(recs: System.LoadFileRecords): (valid: bool)
    ensures valid <==>
              forall c, k :: c in recs && k in recs[c] ==>
                k in Opposite && recs[c][k] in recs && Opposite[k] in recs[recs[c][k]]
  {
    ValidateSpec(recs);
    forall city | city in recs :: RoadsValid(recs, recs[city])
  }

  /** The per-direction checks are the one rule, for each declared key. */
  lemma ValidateSpec(recs: System.LoadFileRecords)
    ensures (forall city | city in recs :: RoadsValid(recs, recs[city])) <==>
            forall c, k :: c in recs && k in recs[c] ==>
              k in Opposite && recs[c][k] in recs && Opposite[k] in recs[recs[c][k]]
  {
    forall c | c in recs
      ensures RoadsValid(recs, recs[c]) <==>
              forall k :: k in recs[c] ==> k in Opposite && recs[c][k] in recs && Opposite[k] in recs[recs[c][k]]
    {
      var roads := recs[c];
      if forall k :: k in roads ==> k in Opposite && roads[k] in recs && Opposite[k] in recs[roads[k]] {
        assert "south" in roads ==> Opposite["south"] == "north";
      }
    }
  }

  /** Every road returns: the city it leads to has a road back to the city
      it leaves, in the opposite direction. */
  ghost predicate Reciprocal(recs: System.LoadFileRecords) {
    forall c, k :: c in recs && k in recs[c] ==>
      k in Opposite && recs[c][k] in recs && Opposite[k] in recs[recs[c][k]] && recs[recs[c][k]][Opposite[k]] == c
  }

  /** A reciprocal layout passes the check. */
  lemma ReciprocalValid(recs: System.LoadFileRecords)
    requires Reciprocal(recs)
    ensures ValidateFileRecords(recs)
  {
  }

  /** The check does not ask that the road back return to where it came
      from: here A's road south leads to B, whose road north leads to C. */
  lemma ValidNotReciprocal(recs: System.LoadFileRecords)
    requires recs == map["A" := map["south" := "B"], "B" := map["north" := "C"], "C" := map["south" := "B"]]
    ensures ValidateFileRecords(recs) && !Reciprocal(recs)
  {
    assert recs["A"]["south"] == "B" && recs["B"]["north"] == "C";
  }

  /** The check rejects a key that is not a direction. */
  lemma ValidRejectsWord(recs: System.LoadFileRecords, c: string, k: string)
    requires c in recs && k in recs[c] && k !in DirectionToEnum
    ensures !ValidateFileRecords(recs)
  {
  }

  /** Every key of every record is a direction word. */
  ghost predicate DirectionKeys(recs: System.LoadFileRecords) {
    forall c, k :: c in recs && k in recs[c] ==> k in DirectionToEnum
  }

  /** One city's roads, with the direction words replaced by their numbers:
      each road keeps its neighbour, and no other number appears. */
  function ConvertRoads(roads: map<string, string>): (dirs: map<int, string>)
    requires forall k :: k in roads ==> k in DirectionToEnum
    ensures forall k :: k in roads ==> DirectionToEnum[k] in dirs && dirs[DirectionToEnum[k]] == roads[k]
    ensures forall d :: d in dirs ==> North <= d <= West && DirectionName(d) in roads
  {
    var dirs := map d | d in DirectionToEnum.Values && DirectionName(d) in roads :: roads[DirectionName(d)];
    assert forall k :: k in roads ==> DirectionToEnum[k] in DirectionToEnum.Values && DirectionName(DirectionToEnum[k]) == k;
    dirs
  }

  /** The conversion of NewInvasion: the same cities, each road under its
      direction number and leading to the same neighbour. Only a checked
      layout reaches it, so every key is a direction. */
  function ToEarthLayout(recs: System.LoadFileRecords): (layout: Layout)
    requires DirectionKeys(recs)
    ensures layout.Keys == recs.Keys
    ensures forall c :: c in recs ==> layout[c] == ConvertRoads(recs[c])
  {
    map c | c in recs :: ConvertRoads(recs[c])
  }

  /** A checked layout converts to one the planet accepts: no direction
      number is out of range and no road leads to an undeclared city. */
  lemma ConvertedAccepted(recs: System.LoadFileRecords)
    requires ValidateFileRecords(recs)
    ensures DirectionKeys(recs)
    ensures !InvalidDirections(ToEarthLayout(recs)) && !MissingNeighbour(ToEarthLayout(recs))
    ensures |ToEarthLayout(recs)| == |recs|
  {
    var layout := ToEarthLayout(recs);
    forall c | c in layout ensures !HasInvalidDirection(layout[c]) {
      assert forall d :: d in layout[c] ==> d <= West;
    }
    forall c, d | c in layout && d in layout[c] ensures layout[c][d] in layout {
      assert layout[c][d] == recs[c][DirectionName(d)];
    }
    assert layout.Keys == recs.Keys;
  }

  // ---------------------------------------------------------------------
  // Alien positions.

  /** The keys of `positions` are the cities the aliens of `done` occupy. */
  ghost predicate GroupKeys(vs: seq<Vertex>, aliens: map<string, nat>, done: set<string>, positions: map<string, seq<string>>)
    requires forall a :: a in aliens ==> aliens[a] < |vs|
    requires done <= aliens.Keys
  {
    positions.Keys == (set a | a in done :: vs[aliens[a]].id)
  }

  /** Each list of `positions` holds aliens of `done` standing in that city,
      each once. */
  ghost predicate GroupLists(vs: seq<Vertex>, aliens: map<string, nat>, done: set<string>, positions: map<string, seq<string>>)
    requires forall a :: a in aliens ==> aliens[a] < |vs|
    requires done <= aliens.Keys
  {
    forall c :: c in positions ==>
      Distinct(positions[c]) && forall x :: x in positions[c] ==> x in done && vs[aliens[x]].id == c
  }

  /** Each alien of `done` is listed under its city. */
  ghost predicate GroupMembers(vs: seq<Vertex>, aliens: map<string, nat>, done: set<string>, positions: map<string, seq<string>>)
    requires forall a :: a in aliens ==> aliens[a] < |vs|
    requires done <= aliens.Keys
  {
    forall a :: a in done ==> vs[aliens[a]].id in positions && a in positions[vs[aliens[a]].id]
  }

  /** `positions` lists each alien of `done`, once, under the name of its
      city, and has a key for exactly the cities these aliens occupy. */
  ghost predicate Grouped(vs: seq<Vertex>, aliens: map<string, nat>, done: set<string>, positions: map<string, seq<string>>)
    requires forall a :: a in aliens ==> aliens[a] < |vs|
    requires done <= aliens.Keys
  {
    GroupKeys(vs, aliens, done, positions) && GroupLists(vs, aliens, done, positions) &&
    GroupMembers(vs, aliens, done, positions)
  }

  /** `positions` with `alien` appended to the list of city `id`. */
  function Enlist(positions: map<string, seq<string>>, id: string, alien: string): map<string, seq<string>> {
    positions[id := (if id in positions then positions[id] else []) + [alien]]
  }

  /** `positions` lists every alien, once, under the name of its city, and
      has a key for exactly the occupied cities. */
  ghost predicate Positioned(vs: seq<Vertex>, aliens: map<string, nat>, positions: map<string, seq<string>>)
    requires forall a :: a in aliens ==> aliens[a] < |vs|
  {
    Grouped(vs, aliens, aliens.Keys, positions)
  }

  /** alienPositions: the aliens grouped by the name of their city, in map
      iteration order, which the model leaves open. */
  method AlienPositions(vs: seq<Vertex>, aliens: map<string, nat>) returns (positions: map<string, seq<string>>)
    requires forall a :: a in aliens ==> aliens[a] < |vs|
    ensures Positioned(vs, aliens, positions)
  {
    positions := map[];
    var remaining := aliens.Keys;
    while remaining != {}
      invariant remaining <= aliens.Keys
      invariant Grouped(vs, aliens, aliens.Keys - remaining, positions)
      decreases |remaining|
    {
      StringsInhabited(remaining);
      var alien :| alien in remaining;
      assert aliens.Keys - (remaining - {alien}) == (aliens.Keys - remaining) + {alien};
      PositionStep(vs, aliens, aliens.Keys - remaining, positions, alien);
      positions := Enlist(positions, vs[aliens[alien]].id, alien);
      remaining := remaining - {alien};
    }
    assert aliens.Keys - remaining == aliens.Keys;
  }

  /** Listing one more alien under its city keeps the grouping exact. */
  lemma PositionStep(vs: seq<Vertex>, aliens: map<string, nat>, done: set<string>,
                     positions: map<string, seq<string>>, alien: string)
    requires forall a :: a in aliens ==> aliens[a] < |vs|
    requires done <= aliens.Keys && alien in aliens && alien !in done
    requires Grouped(vs, aliens, done, positions)
    ensures Grouped(vs, aliens, done + {alien}, Enlist(positions, vs[aliens[alien]].id, alien))
  {
    PositionKeys(vs, aliens, done, positions, alien);
    PositionLists(vs, aliens, done, positions, alien);
    PositionMembers(vs, aliens, done, positions, alien);
  }

  /** The keys after listing one more alien: its city is added. */
  lemma PositionKeys(vs: seq<Vertex>, aliens: map<string, nat>, done: set<string>,
                     positions: map<string, seq<string>>, alien: string)
    requires forall a :: a in aliens ==> aliens[a] < |vs|
    requires done <= aliens.Keys && alien in aliens
    requires GroupKeys(vs, aliens, done, positions)
    ensures GroupKeys(vs, aliens, done + {alien}, Enlist(positions, vs[aliens[alien]].id, alien))
  {
    assert Enlist(positions, vs[aliens[alien]].id, alien).Keys == positions.Keys + {vs[aliens[alien]].id};
  }

  /** The lists after listing one more alien stay exact and repetition-free. */
  lemma PositionLists(vs: seq<Vertex>, aliens: map<string, nat>, done: set<string>,
                      positions: map<string, seq<string>>, alien: string)
    requires forall a :: a in aliens ==> aliens[a] < |vs|
    requires done <= aliens.Keys && alien in aliens && alien !in done
    requires GroupLists(vs, aliens, done, positions)
    ensures GroupLists(vs, aliens, done + {alien}, Enlist(positions, vs[aliens[alien]].id, alien))
  {
    var id := vs[aliens[alien]].id;
    var listed := if id in positions then positions[id] else [];
    var next := Enlist(positions, id, alien);
    assert alien !in listed;
    forall c | c in next
      ensures Distinct(next[c]) && forall x :: x in next[c] ==> x in done + {alien} && vs[aliens[x]].id == c
    {
      if c == id {
        assert next[c] == listed + [alien];
      } else {
        assert next[c] == positions[c];
      }
    }
  }

  /** After listing one more alien, every listed alien is under its city. */
  lemma PositionMembers(vs: seq<Vertex>, aliens: map<string, nat>, done: set<string>,
                        positions: map<string, seq<string>>, alien: string)
    requires forall a :: a in aliens ==> aliens[a] < |vs|
    requires done <= aliens.Keys && alien in aliens
    requires GroupMembers(vs, aliens, done, positions)
    ensures GroupMembers(vs, aliens, done + {alien}, Enlist(positions, vs[aliens[alien]].id, alien))
  {
    var id := vs[aliens[alien]].id;
    var next := Enlist(positions, id, alien);
    forall a | a in done + {alien} ensures vs[aliens[a]].id in next && a in next[vs[aliens[a]].id] {
      if a != alien && vs[aliens[a]].id == id {
        assert a in positions[id];
      }
    }
  }

  // ---------------------------------------------------------------------
  // The invasion.

  class Invasion {
    const planet: Planet
    /** How many ticks have been run. */
    var tickCount: int
    /** The tick count at which Tick stops asking to be called again. */
    const tickLimit: int
    /** The converted layout the planet was built from (Go's CityLayout). */
    const cityLayout: Layout

    ghost predicate Valid()
      reads this, planet, planet.graph
    {
      planet.Valid()
    }

    constructor (planet: Planet, tickLimit: int, cityLayout: Layout)
      ensures this.planet == planet && this.tickLimit == tickLimit && this.cityLayout == cityLayout
      ensures tickCount == 0
    {
      this.planet := planet;
      this.tickLimit := tickLimit;
      this.cityLayout := cityLayout;
      tickCount := 0;
    }

    /** NewInvasion once the records are loaded: a layout that fails the
        check is refused; otherwise it is converted and the planet built,
        which then cannot fail. */
    static method New(recs: System.LoadFileRecords, aliensAmount: nat, tickLimit: int, rnd: RandomSource.Randomizer)
        returns (r: Result<Invasion, InvasionError>)
      requires aliensAmount > 0 ==> |recs| > 0 && rnd.Fair(|recs|)
      modifies rnd
      ensures !ValidateFileRecords(recs) <==> r == Err(InvalidLayout)
      ensures ValidateFileRecords(recs) ==> r.Ok?
      ensures r.Ok? ==>
                var inv := r.value;
                fresh(inv) && fresh(inv.planet) && fresh(inv.planet.graph) && inv.planet.rnd == rnd &&
                inv.Valid() && inv.tickCount == 0 && inv.tickLimit == tickLimit &&
                DirectionKeys(recs) && inv.cityLayout == ToEarthLayout(recs) &&
                Built(inv.cityLayout, inv.planet.graph.vertices) && |inv.planet.aliens| == aliensAmount
    {
      if !ValidateFileRecords(recs) {
        return Err(InvalidLayout);
      }
      ConvertedAccepted(recs);
      var earthCityLayout := ToEarthLayout(recs);
      var planet := Planet.New(earthCityLayout, aliensAmount, rnd);
      // The planet's own error cases cannot arise after the check.
      var inv := new Invasion(planet.value, tickLimit, earthCityLayout);
      r := Ok(inv);
    }

    /** Cities: a copy of the converted layout, city by city and road by road. */
    method Cities() returns (mapCopy: Layout)
      ensures mapCopy == cityLayout
    {
      mapCopy := map[];
      var remaining := cityLayout.Keys;
      while remaining != {}
        invariant remaining <= cityLayout.Keys
        invariant mapCopy.Keys == cityLayout.Keys - remaining
        invariant forall k :: k in mapCopy ==> mapCopy[k] == cityLayout[k]
        decreases |remaining|
      {
        StringsInhabited(remaining);
        var k :| k in remaining;
        var roads := CopyRoads(cityLayout[k]);
        mapCopy := mapCopy[k := roads];
        remaining := remaining - {k};
      }
      assert mapCopy.Keys == cityLayout.Keys;
    }

    /** Tick: counts the tick, runs the planet's next day, and reports the
        battles, the positions after them and the tick's 0-based number. */
    method Tick() returns (cont: bool, report: TickReport, ghost moved: map<string, nat>, ghost cache: map<nat, seq<string>>)
      requires Valid()
      modifies this, planet, planet.graph, planet.rnd
      ensures Valid() && Alone(planet.aliens) && planet.dayZeroCache == None
      ensures tickCount == old(tickCount) + 1 && cont == (tickCount < tickLimit) && report.tick == old(tickCount)
      // the day's positions and their grouping by city
      ensures Groups(moved, cache, |old(planet.graph.vertices)|) && moved.Keys == old(planet.aliens).Keys
      ensures old(planet.dayZeroCache).Some? ==> moved == old(planet.aliens) && cache == old(planet.dayZeroCache).value
      ensures forall a :: a in moved ==> Legal(old(planet.graph.vertices), old(planet.aliens)[a], moved[a])
      // one battle per city holding several aliens, which dies with them
      ensures (set b | b in report.battles) == ReportsOf(cache, old(planet.graph.vertices)) && Distinct(report.battles)
      ensures planet.aliens == moved - Casualties(cache)
      ensures planet.graph.vertices == DisabledAll(old(planet.graph.vertices), Contested(cache))
      ensures forall b :: b in report.battles ==>
                |b.involvedAliens| > 1 && forall a :: a in b.involvedAliens ==> a in old(planet.aliens) && a !in planet.aliens
      ensures forall a :: a in old(planet.aliens) && a !in planet.aliens ==>
                exists b :: b in report.battles && a in b.involvedAliens
      // the positions after the battles
      ensures Positioned(planet.graph.vertices, planet.aliens, report.alienPositions)
      ensures forall b, a, c :: b in report.battles && a in b.involvedAliens && c in report.alienPositions ==>
                a !in report.alienPositions[c]
    {
      tickCount := tickCount + 1;
      cont := tickCount < tickLimit;
      var battles;
      battles, moved, cache := planet.NextDay();
      var positions := AlienPositions(planet.graph.vertices, planet.aliens);
      report := TickReport(battles, positions, tickCount - 1);
    }
  }

  /** The inner loop of Cities: a copy of one city's roads. */
  method CopyRoads(roads: map<int, string>) returns (copy: map<int, string>)
    ensures copy == roads
  {
    copy := map[];
    var remaining := roads.Keys;
    while remaining != {}
      invariant remaining <= roads.Keys
      invariant copy.Keys == roads.Keys - remaining
      invariant forall d :: d in copy ==> copy[d] == roads[d]
      decreases |remaining|
    {
      IntsInhabited(remaining);
      var d :| d in remaining;
      copy := copy[d := roads[d]];
      remaining := remaining - {d};
    }
    assert forall d :: d in copy <==> d in roads;
    assert forall d :: d in copy ==> copy[d] == roads[d];
  }
}
