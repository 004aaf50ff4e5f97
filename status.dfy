/** The client's display bookkeeping: a table of cities with their aliens and
    counters of standing and destroyed cities and of living and dead aliens,
    plus the emoji formatting of each city for the terminal. */
module Client {
  import opened Wrappers
  import opened Strings

  /** A city as the display knows it. */
  datatype City = City(name: string, aliens: seq<string>, destroyed: bool)

  const Skull: string := "\U{1F480}\U{FE0F}"
  const AlienFace: string := "\U{1F47D}"
  const Fire: char := '\U{1F525}'
  const House: char := '\U{1F3E0}'
  const Tree: char := '\U{1F333}'

  /** The mark before each alien name: a skull in a destroyed city, an alien face otherwise. */
  function Badge(destroyed: bool): (b: string)
    ensures |b| > 0
  {
    if destroyed then Skull else AlienFace
  }

  /** Each name with the mark in front. */
  function Badged(names: seq<string>, mark: string): (marked: seq<string>)
    ensures |marked| == |names| && forall k :: 0 <= k < |names| ==> marked[k] == mark + names[k]
  {
    seq(|names|, k requires 0 <= k < |names| => mark + names[k])
  }

  /** `city.FmtAliens`: nothing for no aliens, otherwise the names joined by
      ", " with the mark glued to the first and repeated after every separator. */
  function FmtAliens(c: City): string {
    if |c.aliens| == 0 then ""
    else Badge(c.destroyed) + Join(c.aliens, ", " + Badge(c.destroyed))
  }

  /** Gluing the mark to the front of a join whose separator ends with the
      mark is joining the marked names. */
  lemma {:induction false} MarkedJoin(names: seq<string>, mark: string)
    requires |names| > 0
    ensures mark + Join(names, ", " + mark) == Join(Badged(names, mark), ", ")
    decreases |names|
  {
    var marked := Badged(names, mark);
    if |names| > 1 {
      MarkedJoin(names[1..], mark);
      assert marked[1..] == Badged(names[1..], mark);
      var rest := Join(names[1..], ", " + mark);
      calc {
        mark + Join(names, ", " + mark);
        mark + (names[0] + (", " + mark) + rest);
        (mark + names[0]) + ", " + (mark + rest);
        marked[0] + ", " + Join(marked[1..], ", ");
        Join(marked, ", ");
      }
    }
  }

  /** The aliens of a city are shown each with its mark, separated by ", ";
      the text is empty exactly when the city has no aliens. */
  lemma AliensShown(c: City)
    ensures FmtAliens(c) == Join(Badged(c.aliens, Badge(c.destroyed)), ", ")
    ensures FmtAliens(c) == "" <==> |c.aliens| == 0
  {
    if |c.aliens| > 0 {
      MarkedJoin(c.aliens, Badge(c.destroyed));
    }
  }

  /** The two emoji framing a name on each side: fire for a destroyed city,
      a house and a tree for a standing one. */
  function Frame(destroyed: bool): (left: string)
    ensures |left| == 2
  {
    if destroyed then [Fire, Fire] else [House, Tree]
  }

  /** The frame read backwards, for the right side of the name. */
  function Mirrored(s: string): (r: string)
    ensures |r| == |s| && forall k :: 0 <= k < |s| ==> r[k] == s[|s| - 1 - k]
  {
    seq(|s|, k requires 0 <= k < |s| => s[|s| - 1 - k])
  }

  /** `city.fmtName`: the name between its frame and the mirrored frame. */
  function FmtName(c: City): string {
    if c.destroyed then [Fire, Fire] + c.name + [Fire, Fire]
    else [House, Tree] + c.name + [Tree, House]
  }

  /** Reads a formatted name back: the name and whether the city is destroyed. */
  function ParseName(s: string): Option<(string, bool)> {
    if |s| < 4 then None
    else if s[..2] == Frame(true) && s[|s| - 2..] == Mirrored(Frame(true)) then Some((s[2..|s| - 2], true))
    else if s[..2] == Frame(false) && s[|s| - 2..] == Mirrored(Frame(false)) then Some((s[2..|s| - 2], false))
    else None
  }

  /** A formatted name is the frame, the name and the mirrored frame, and it
      reads back as the name and the destroyed flag. */
  lemma NameRoundTrip(c: City)
    ensures FmtName(c) == Frame(c.destroyed) + c.name + Mirrored(Frame(c.destroyed))
    ensures ParseName(FmtName(c)) == Some((c.name, c.destroyed))
  {
    var s := FmtName(c);
    var f := Frame(c.destroyed);
    assert Mirrored(f) == [f[1], f[0]];
    assert s[..2] == f && s[|s| - 2..] == Mirrored(f);
    assert s[2..|s| - 2] == c.name;
  }

  /** Whatever reads back as a name is the formatting of that name. */
  lemma ParseNameFormatted(s: string, name: string, destroyed: bool, aliens: seq<string>)
    requires ParseName(s) == Some((name, destroyed))
    ensures FmtName(City(name, aliens, destroyed)) == s
  {
    var f := Frame(destroyed);
    assert Mirrored(f) == [f[1], f[0]];
    assert s == s[..2] + s[2..|s| - 2] + s[|s| - 2..];
  }

  /** One display entry: the formatted name, then the aliens in parentheses. */
  function Entry(c: City): string {
    FmtName(c) + "(" + FmtAliens(c) + ")"
  }

  /** An entry begins with the city's formatted name and ends with its aliens
      in parentheses; the parentheses are empty exactly when no alien is there. */
  lemma EntryShape(c: City)
    ensures var e := Entry(c); var k := |FmtName(c)|;
            k < |e| && ParseName(e[..k]) == Some((c.name, c.destroyed)) && e[k] == '('
            && e[k + 1..] == FmtAliens(c) + ")"
            && (e[k + 1..] == ")" <==> |c.aliens| == 0)
  {
    var e := Entry(c);
    var k := |FmtName(c)|;
    NameRoundTrip(c);
    AliensShown(c);
    assert e[..k] == FmtName(c);
    assert e[k + 1..] == FmtAliens(c) + ")";
  }

  /** The number of destroyed cities in a table. */
  function DestroyedCount(cities: seq<City>): (n: nat)
    ensures n <= |cities|
  {
    if |cities| == 0 then 0
    else DestroyedCount(cities[..|cities| - 1]) + (if cities[|cities| - 1].destroyed then 1 else 0)
  }

  /** Appending a city adds one to the count exactly when it is destroyed. */
  lemma DestroyedCountAppend(cities: seq<City>, c: City)
    ensures DestroyedCount(cities + [c]) == DestroyedCount(cities) + (if c.destroyed then 1 else 0)
  {
    assert (cities + [c])[..|cities|] == cities;
  }

  /** Replacing one city changes the count by the change of that city's flag. */
  lemma {:induction false} DestroyedCountUpdate(cities: seq<City>, i: nat, c: City)
    requires i < |cities|
    ensures DestroyedCount(cities[i := c]) + (if cities[i].destroyed then 1 else 0)
            == DestroyedCount(cities) + (if c.destroyed then 1 else 0)
    decreases |cities|
  {
    var last := |cities| - 1;
    var updated := cities[i := c];
    if i == last {
      assert updated[..last] == cities[..last];
    } else {
      DestroyedCountUpdate(cities[..last], i, c);
      assert updated[..last] == cities[..last][i := c];
    }
  }

  /** Each name indexes the one position holding it, and every position is indexed. */
  ghost predicate Indexed(cities: seq<City>, index: map<string, int>) {
    && (forall name :: name in index ==> 0 <= index[name] < |cities| && cities[index[name]].name == name)
    && (forall k :: 0 <= k < |cities| ==> cities[k].name in index && index[cities[k].name] == k)
  }

  /** Replacing the city at a name's position by a city of that name keeps the index. */
  lemma IndexedReplace(cities: seq<City>, index: map<string, int>, c: City)
    requires Indexed(cities, index) && c.name in index
    ensures Indexed(cities[index[c.name] := c], index)
  {
    var i := index[c.name];
    var updated := cities[i := c];
    forall k | 0 <= k < |updated|
      ensures updated[k].name == cities[k].name
    {
    }
  }

  /** Appending a city of an unseen name and indexing it at the end keeps the index. */
  lemma IndexedAppend(cities: seq<City>, index: map<string, int>, c: City)
    requires Indexed(cities, index) && c.name !in index
    ensures Indexed(cities + [c], index[c.name := |cities|])
  {
    var grown := cities + [c];
    forall k | 0 <= k < |cities|
      ensures grown[k] == cities[k]
    {
    }
  }

  /** An indexed table has no name twice. */
  lemma IndexedDistinct(cities: seq<City>, index: map<string, int>)
    requires Indexed(cities, index)
    ensures forall a, b :: 0 <= a < b < |cities| ==> cities[a].name != cities[b].name
  {
  }

  /** A city after `clear`: a standing city loses its aliens, a destroyed one keeps them. */
  function ClearedCity(c: City): City {
    if c.destroyed then c else c.(aliens := [])
  }

  /** The table after `clear`. */
  function Cleared(cities: seq<City>): (r: seq<City>)
    ensures |r| == |cities| && forall k :: 0 <= k < |cities| ==> r[k] == ClearedCity(cities[k])
  {
    seq(|cities|, k requires 0 <= k < |cities| => ClearedCity(cities[k]))
  }

  /** Clearing keeps every name and flag, so the index and the destroyed
      count; it leaves no alien in a standing city, and clearing again changes nothing. */
  lemma {:induction false} ClearedKeeps(cities: seq<City>, index: map<string, int>)
    ensures Indexed(cities, index) ==> Indexed(Cleared(cities), index)
    ensures DestroyedCount(Cleared(cities)) == DestroyedCount(cities)
    ensures forall k :: 0 <= k < |cities| && !Cleared(cities)[k].destroyed ==> Cleared(cities)[k].aliens == []
    ensures Cleared(Cleared(cities)) == Cleared(cities)
    decreases |cities|
  {
    if |cities| > 0 {
      var last := |cities| - 1;
      ClearedKeeps(cities[..last], index);
      assert Cleared(cities)[..last] == Cleared(cities[..last]);
    }
  }

  /** The whole state of the display table. */
  datatype Table = Table(cities: seq<City>, citiesIndex: map<string, int>,
                         notDestroyed: int, destroyed: int, alive: int, dead: int)

  /** Every indexed position lies inside the table, as indexing the slice needs. */
  ghost predicate InRange(t: Table) {
    forall name :: name in t.citiesIndex ==> 0 <= t.citiesIndex[name] < |t.cities|
  }

  /** The index matches the table and the two city counters add up to its size. */
  ghost predicate ValidTable(t: Table) {
    Indexed(t.cities, t.citiesIndex) && t.notDestroyed + t.destroyed == |t.cities|
  }

  /** The destroyed counter is the number of destroyed cities. */
  ghost predicate Tallied(t: Table) {
    t.destroyed == DestroyedCount(t.cities)
  }

  /** The table after `save` of city `c`. */
  function Saved(t: Table, c: City): Table
    requires InRange(t)
  {
    if c.name in t.citiesIndex then
      var i := t.citiesIndex[c.name];
      if t.cities[i].destroyed then t
      else if c.destroyed then
        t.(cities := t.cities[i := c], notDestroyed := t.notDestroyed - 1, destroyed := t.destroyed + 1,
           alive := t.alive - |c.aliens|, dead := t.dead + |c.aliens|)
      else t.(cities := t.cities[i := c])
    else
      t.(cities := t.cities + [c], citiesIndex := t.citiesIndex[c.name := |t.cities|],
         notDestroyed := t.notDestroyed + 1)
  }

  /** `save` keeps the index matching the table and the counters adding up. */
  lemma SavedValid(t: Table, c: City)
    requires ValidTable(t)
    ensures ValidTable(Saved(t, c))
  {
    if c.name in t.citiesIndex {
      IndexedReplace(t.cities, t.citiesIndex, c);
    } else {
      IndexedAppend(t.cities, t.citiesIndex, c);
    }
  }

  /** After `save` the name is indexed and holds `c`, unless a destroyed city of
      that name was there, which stays; no city is lost or renamed, no
      destroyed city changes, and no alien is gained or lost overall. */
  lemma SavedStores(t: Table, c: City)
    requires ValidTable(t)
    ensures var u := Saved(t, c);
            && c.name in u.citiesIndex
            && (u.cities[u.citiesIndex[c.name]] == c
                || (c.name in t.citiesIndex && t.cities[t.citiesIndex[c.name]].destroyed && u == t))
            && |u.cities| >= |t.cities|
            && (forall k :: 0 <= k < |t.cities| ==> u.cities[k].name == t.cities[k].name)
            && (forall k :: 0 <= k < |t.cities| && t.cities[k].destroyed ==> u.cities[k] == t.cities[k])
            && u.alive + u.dead == t.alive + t.dead
  {
    SavedValid(t, c);
  }

  /** Saving the same city twice is saving it once. */
  lemma SavedIdempotent(t: Table, c: City)
    requires ValidTable(t)
    ensures InRange(Saved(t, c)) && Saved(Saved(t, c), c) == Saved(t, c)
  {
    SavedValid(t, c);
    var u := Saved(t, c);
    if c.name in t.citiesIndex {
      var i := t.citiesIndex[c.name];
      assert u.citiesIndex == t.citiesIndex;
      if !t.cities[i].destroyed {
        assert u.cities[i] == c;
        assert u.cities[i := c] == u.cities;
      }
    } else {
      assert u.cities[|t.cities|] == c;
      assert u.cities[|t.cities| := c] == u.cities;
    }
  }

  /** Saving a city already in the table, or a standing one, keeps the destroyed
      counter equal to the number of destroyed cities. */
  lemma SavedTallied(t: Table, c: City)
    requires InRange(t) && Tallied(t) && (c.name in t.citiesIndex || !c.destroyed)
    ensures Tallied(Saved(t, c))
  {
    if c.name in t.citiesIndex {
      DestroyedCountUpdate(t.cities, t.citiesIndex[c.name], c);
    } else {
      DestroyedCountAppend(t.cities, c);
    }
  }

  /** A city first seen already destroyed counts as standing. */
  lemma SavedFreshDestroyed(t: Table, c: City)
    requires InRange(t) && Tallied(t) && c.name !in t.citiesIndex && c.destroyed
    ensures !Tallied(Saved(t, c))
    ensures DestroyedCount(Saved(t, c).cities) == Saved(t, c).destroyed + 1
  {
    DestroyedCountAppend(t.cities, c);
  }

  /** The table after `clear`. */
  function ClearedTable(t: Table): (u: Table)
    ensures u.citiesIndex == t.citiesIndex
  {
    t.(cities := Cleared(t.cities))
  }

  /** `clear` keeps the index, the counters and the tally, and clearing twice is clearing once. */
  lemma ClearedTableKeeps(t: Table)
    ensures ValidTable(t) ==> ValidTable(ClearedTable(t))
    ensures Tallied(t) ==> Tallied(ClearedTable(t))
    ensures ClearedTable(ClearedTable(t)) == ClearedTable(t)
  {
    ClearedKeeps(t.cities, t.citiesIndex);
  }

  class WorldMap {
    var cities: seq<City>
    var citiesIndex: map<string, int>
    var notDestroyed: int
    var destroyed: int
    var alive: int
    var dead: int

    /** The fields as one value. */
    function State(): Table
      reads this
    {
      Table(cities, citiesIndex, notDestroyed, destroyed, alive, dead)
    }

    /** The client's starting table: no cities, all `aliens` alive. */
    constructor (aliens: int)
      ensures State() == Table([], map[], 0, 0, aliens, 0)
      ensures ValidTable(State()) && Tallied(State())
    {
      cities := [];
      citiesIndex := map[];
      notDestroyed := 0;
      destroyed := 0;
      alive := aliens;
      dead := 0;
    }

    /** `save`: an unseen name is appended and indexed and counts as standing;
        a known standing city is replaced in place, moving the counters when
        the new version is destroyed; a destroyed city is never changed. */
    method Save(c: City)
      requires InRange(State())
      modifies this
      ensures State() == Saved(old(State()), c)
    {
      if c.name in citiesIndex {
        var i := citiesIndex[c.name];
        var existing := cities[i];
        if existing.destroyed {
          return;
        }
        if c.destroyed {
          notDestroyed := notDestroyed - 1;
          destroyed := destroyed + 1;
          alive := alive - |c.aliens|;
          dead := dead + |c.aliens|;
        }
        cities := cities[i := c];
        return;
      }
      notDestroyed := notDestroyed + 1;
      cities := cities + [c];
      citiesIndex := citiesIndex[c.name := |cities| - 1];
    }

    /** `clear`: every standing city loses its aliens; destroyed cities, the
        index and the counters stay as they are. */
    method Clear()
      modifies this
      ensures State() == ClearedTable(old(State()))
    {
      var table := cities;
      var i := 0;
      while i < |table|
        invariant 0 <= i <= |table| == |cities|
        invariant forall k :: 0 <= k < i ==> table[k] == ClearedCity(cities[k])
        invariant forall k :: i <= k < |table| ==> table[k] == cities[k]
      {
        if !table[i].destroyed {
          table := table[i := table[i].(aliens := [])];
        }
        i := i + 1;
      }
      cities := table;
    }

    /** `prettySlice`: one entry per city, in table order. */
    method PrettySlice() returns (output: seq<string>)
      ensures |output| == |cities| && forall k :: 0 <= k < |cities| ==> output[k] == Entry(cities[k])
    {
      output := [];
      for i := 0 to |cities|
        invariant |output| == i && forall k :: 0 <= k < i ==> output[k] == Entry(cities[k])
      {
        output := output + [FmtName(cities[i]) + "(" + FmtAliens(cities[i]) + ")"];
      }
    }
  }
}
