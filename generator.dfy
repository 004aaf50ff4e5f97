/** The layout generator of internal/simulation/generator.go: it places
    numbered city names at random on a square grid and writes one layout
    line per occupied cell, naming the occupied cells next to it. */
module Generator {
  import opened Wrappers
  import opened Strings
  import opened Numeric
  import RandomSource
  import System
  import Simulation

  /** The names given to the first cities. */
  const CityPool: seq<string> := ["new_york", "los_angeles", "buenos_aires", "paris", "phoenix", "shanghai",
    "san_antonio", "new_delhi", "dallas", "san_jose", "austin", "jacksonville", "fort_worth", "columbus",
    "san_francisco", "brasilia", "south_africa", "denver", "washington", "medellin"]

  /** The characters of the pool's names. */
  const PoolChars: set<char> := set c: char | 'a' <= c <= 'z' || c == '_'

  /** The name of city `i`: a pool name, then once the pool is used up the
      pool names again with an underscore and a Roman numeral counting the
      cities past the pool. */
  function CityName(i: nat): (name: string)
    ensures |name| > 0
  {
    if i < |CityPool| then CityPool[i]
    else
      RomanOfPositive(i - |CityPool| + 1);
      CityPool[(i - |CityPool|) % |CityPool|] + "_" + RomanOf(i - |CityPool| + 1)
  }

  /** The pool names are distinct non-empty words of lower-case letters and underscores. */
  lemma PoolShape()
    ensures Distinct(CityPool)
    ensures forall p :: 0 <= p < |CityPool| ==> |CityPool[p]| > 0 && forall c :: c in CityPool[p] ==> c in PoolChars
  {
  }

  /** Every name has letters, digits of a numeral and underscores only: no
      space, '=' or line break. */
  lemma NameChars(i: nat)
    ensures forall c :: c in CityName(i) ==> c in PoolChars || c in RomanDigits
    ensures ' ' !in CityName(i) && '=' !in CityName(i) && '\n' !in CityName(i)
  {
    PoolShape();
    if i >= |CityPool| {
      RomanOfDigits(i - |CityPool| + 1);
    }
  }

  /** The piece after the last separator of `a + [sep] + r` is `r`. */
  lemma LastPiece(a: string, r: string, sep: char)
    requires sep !in r
    ensures var s := a + [sep] + r;
            s[|s| - |r| - 1] == sep && forall k :: |s| - |r| <= k < |s| ==> s[k] != sep
  {
    var s := a + [sep] + r;
    forall k | |s| - |r| <= k < |s| ensures s[k] != sep {
      assert s[k] == r[k - (|s| - |r|)];
    }
  }

  /** Two strings that agree after their last separator agree there. */
  lemma SameLastPiece(a: string, r1: string, b: string, r2: string, sep: char)
    requires sep !in r1 && sep !in r2 && a + [sep] + r1 == b + [sep] + r2
    ensures r1 == r2
  {
    var s := a + [sep] + r1;
    LastPiece(a, r1, sep);
    LastPiece(b, r2, sep);
    assert |r1| == |r2|;
    assert r1 == s[|s| - |r1|..];
  }

  /** A name past the pool: its pool name, an underscore and its numeral. */
  lemma PastPoolName(k: nat)
    requires |CityPool| <= k
    ensures var n := |CityPool|;
            CityName(k) == CityPool[(k - n) % n] + ['_'] + RomanOf(k - n + 1)
            && '_' !in RomanOf(k - n + 1) && |RomanOf(k - n + 1)| > 0
            && forall c :: c in RomanOf(k - n + 1) ==> c in RomanDigits
  {
    var n := |CityPool|;
    RomanOfDigits(k - n + 1);
    RomanOfPositive(k - n + 1);
  }

  /** Names past the pool are told apart by their numerals. */
  lemma PastPoolInjective(i: nat, j: nat)
    requires |CityPool| <= i && |CityPool| <= j && CityName(i) == CityName(j)
    ensures i == j
  {
    var n := |CityPool|;
    PastPoolName(i);
    PastPoolName(j);
    var a, r1 := CityPool[(i - n) % n], RomanOf(i - n + 1);
    var b, r2 := CityPool[(j - n) % n], RomanOf(j - n + 1);
    assert a + ['_'] + r1 == b + ['_'] + r2;
    SameLastPiece(a, r1, b, r2, '_');
    RomanInjective(i - n + 1, j - n + 1);
  }

  /** The last character of `a + [sep] + r`, for a non-empty `r`, is the last of `r`. */
  lemma LastChar(a: string, sep: char, r: string)
    requires |r| > 0
    ensures (a + [sep] + r)[|a + [sep] + r| - 1] == r[|r| - 1]
  {
  }

  /** A name past the pool ends in a numeral digit. */
  lemma PastPoolEnd(k: nat)
    requires |CityPool| <= k
    ensures CityName(k)[|CityName(k)| - 1] in RomanDigits
  {
    var n := |CityPool|;
    PastPoolName(k);
    LastChar(CityPool[(k - n) % n], '_', RomanOf(k - n + 1));
  }

  /** A name past the pool ends in a numeral digit, so it is no pool name. */
  lemma PastPoolNotInPool(k: nat, p: nat)
    requires |CityPool| <= k && p < |CityPool|
    ensures CityName(k) != CityName(p)
  {
    PoolEndsLower(p);
    PastPoolEnd(k);
  }

  /** Every pool name ends in a lower-case letter. */
  lemma PoolEndsLower(p: nat)
    requires p < |CityPool|
    ensures |CityName(p)| > 0 && 'a' <= CityName(p)[|CityName(p)| - 1] <= 'z'
  {
  }

  /** Different cities get different names. */
  lemma CityNameInjective(i: nat, j: nat)
    requires CityName(i) == CityName(j)
    ensures i == j
  {
    var n := |CityPool|;
    if i >= n && j >= n {
      PastPoolInjective(i, j);
    } else if i >= n {
      PastPoolNotInPool(i, j);
    } else if j >= n {
      PastPoolNotInPool(j, i);
    } else {
      PoolShape();
    }
  }

  // ---------------------------------------------------------------------
  // The grid and the text written from it.

  /** The direction words in the order the generator writes them. */
  const Directions: seq<string> := ["north", "south", "east", "west"]

  /** A grid of cells, row by row; "" marks an empty cell. */
  type Grid = seq<seq<string>>

  /** `n` rows of `n` cells. */
  ghost predicate Square(g: Grid, n: nat) {
    |g| == n && forall i :: 0 <= i < n ==> |g[i]| == n
  }

  /** The cells of a two-dimensional array, row by row. */
  function GridOf(a: array2<string>): (g: Grid)
    reads a
    ensures |g| == a.Length0 && forall i :: 0 <= i < a.Length0 ==> |g[i]| == a.Length1
    ensures forall i, j :: 0 <= i < a.Length0 && 0 <= j < a.Length1 ==> g[i][j] == a[i, j]
  {
    seq(a.Length0, i reads a requires 0 <= i < a.Length0 => seq(a.Length1, j reads a requires 0 <= j < a.Length1 => a[i, j]))
  }

  /** The cell one step from (i, j) in direction `dir`: north is the row
      above, west the column to the left. */
  function Offset(i: int, j: int, dir: string): (int, int) {
    if dir == "north" then (i - 1, j)
    else if dir == "south" then (i + 1, j)
    else if dir == "west" then (i, j - 1)
    else if dir == "east" then (i, j + 1)
    else (i, j)
  }

  /** (x, y) is a cell of the grid and holds a city. */
  predicate Occupied(g: Grid, n: nat, x: int, y: int)
    requires Square(g, n)
  {
    0 <= x < n && 0 <= y < n && g[x][y] != ""
  }

  /** The roads written for cell (i, j) over the first `k` directions: the
      direction word and the neighbour's name, for each occupied neighbour. */
  function Roads(g: Grid, n: nat, i: int, j: int, k: nat): (roads: seq<(string, string)>)
    requires Square(g, n) && k <= |Directions|
  {
    if k == 0 then []
    else
      var (x, y) := Offset(i, j, Directions[k - 1]);
      Roads(g, n, i, j, k - 1) + (if Occupied(g, n, x, y) then [(Directions[k - 1], g[x][y])] else [])
  }

  /** The occupied neighbours of (i, j), by direction word. */
  ghost function Neighbours(g: Grid, n: nat, i: int, j: int): map<string, string>
    requires Square(g, n)
  {
    map d | d in Directions && Occupied(g, n, Offset(i, j, d).0, Offset(i, j, d).1) :: g[Offset(i, j, d).0][Offset(i, j, d).1]
  }

  /** A record line: the key, then ` word=name` for each pair. */
  function FormatRecord(key: string, pairs: seq<(string, string)>): string {
    if |pairs| == 0 then key
    else FormatRecord(key, pairs[..|pairs| - 1]) + " " + pairs[|pairs| - 1].0 + "=" + pairs[|pairs| - 1].1
  }

  /** The line written for cell (i, j). */
  function Line(g: Grid, n: nat, i: int, j: int): string
    requires Square(g, n) && 0 <= i < n && 0 <= j < n
  {
    FormatRecord(g[i][j], Roads(g, n, i, j, |Directions|))
  }

  /** The occupied cells of row `i` left of column `j`, left to right. */
  function RowCells(g: Grid, n: nat, i: nat, j: nat): (cells: seq<(int, int)>)
    requires Square(g, n) && i < n && j <= n
    ensures forall k :: 0 <= k < |cells| ==> cells[k].0 == i && 0 <= cells[k].1 < j && g[i][cells[k].1] != ""
  {
    if j == 0 then []
    else RowCells(g, n, i, j - 1) + (if g[i][j - 1] != "" then [(i as int, (j - 1) as int)] else [])
  }

  /** The occupied cells of the rows above row `i`, in row-major order. */
  function CellsUpTo(g: Grid, n: nat, i: nat): (cells: seq<(int, int)>)
    requires Square(g, n) && i <= n
    ensures forall k :: 0 <= k < |cells| ==> 0 <= cells[k].0 < i && 0 <= cells[k].1 < n && Occupied(g, n, cells[k].0, cells[k].1)
  {
    if i == 0 then []
    else
      var above := CellsUpTo(g, n, i - 1);
      var row := RowCells(g, n, i - 1, n);
      assert forall k :: |above| <= k < |above + row| ==> (above + row)[k] == row[k - |above|];
      above + row
  }

  /** The lines written for the given cells, in their order. */
  function LinesOf(g: Grid, n: nat, cells: seq<(int, int)>): (lines: seq<string>)
    requires Square(g, n) && forall k :: 0 <= k < |cells| ==> 0 <= cells[k].0 < n && 0 <= cells[k].1 < n
    ensures |lines| == |cells|
  {
    seq(|cells|, k requires 0 <= k < |cells| => Line(g, n, cells[k].0, cells[k].1))
  }

  /** Each line followed by a line break. */
  function Text(lines: seq<string>): string {
    if |lines| == 0 then "" else Text(lines[..|lines| - 1]) + lines[|lines| - 1] + "\n"
  }

  /** The text generateCities writes for a grid. */
  function Serialised(g: Grid, n: nat): string
    requires Square(g, n)
  {
    Text(LinesOf(g, n, CellsUpTo(g, n, n)))
  }

  /** The writing half of generateCities: for each occupied cell in row-major
      order, its name, its occupied neighbours north, south, east and west,
      and a line break. */
  method Serialise(cities: array2<string>) returns (result: string)
    requires cities.Length0 == cities.Length1
    ensures result == Serialised(GridOf(cities), cities.Length0)
  {
    var size := cities.Length0;
    ghost var g := GridOf(cities);
    result := "";
    for i := 0 to size
      invariant result == Text(LinesOf(g, size, CellsUpTo(g, size, i)))
    {
      var row := WriteRow(cities, i);
      CellsStep(g, size, i);
      result := result + row;
    }
  }

  /** The inner writing loop: the lines of the occupied cells of row `i`. */
  method WriteRow(cities: array2<string>, i: nat) returns (text: string)
    requires cities.Length0 == cities.Length1 && i < cities.Length0
    ensures text == Text(LinesOf(GridOf(cities), cities.Length0, RowCells(GridOf(cities), cities.Length0, i, cities.Length0)))
  {
    var size := cities.Length0;
    ghost var g := GridOf(cities);
    text := "";
    for j := 0 to size
      invariant text == Text(LinesOf(g, size, RowCells(g, size, i, j)))
    {
      assert g[i][j] == cities[i, j];
      RowStep(g, size, i, j);
      if cities[i, j] != "" {
        var line := WriteCity(cities, i, j);
        text := text + line + "\n";
      }
    }
  }

  /** The body of the writing loop for an occupied cell: its name, then
      ` word=name` for each occupied neighbour, north, south, east, west. */
  method WriteCity(cities: array2<string>, i: nat, j: nat) returns (line: string)
    requires cities.Length0 == cities.Length1 && i < cities.Length0 && j < cities.Length1
    ensures line == Line(GridOf(cities), cities.Length0, i, j)
  {
    var size := cities.Length0;
    ghost var g := GridOf(cities);
    line := cities[i, j];
    for k := 0 to |Directions|
      invariant line == FormatRecord(g[i][j], Roads(g, size, i, j, k))
    {
      var dir := Directions[k];
      var (x, y) := Offset(i, j, dir);
      RoadStep(g, size, i, j, k);
      if x >= 0 && x < size && y >= 0 && y < size && cities[x, y] != "" {
        assert g[x][y] == cities[x, y];
        line := line + " " + dir + "=" + cities[x, y];
      }
    }
  }

  /** One more direction adds ` word=name` when that neighbour is occupied. */
  lemma RoadStep(g: Grid, n: nat, i: int, j: int, k: nat)
    requires Square(g, n) && 0 <= i < n && 0 <= j < n && k < |Directions|
    ensures var (x, y) := Offset(i, j, Directions[k]);
            FormatRecord(g[i][j], Roads(g, n, i, j, k + 1)) ==
            FormatRecord(g[i][j], Roads(g, n, i, j, k)) + (if Occupied(g, n, x, y) then " " + Directions[k] + "=" + g[x][y] else "")
  {
    var (x, y) := Offset(i, j, Directions[k]);
    if Occupied(g, n, x, y) {
      assert Roads(g, n, i, j, k + 1) == Roads(g, n, i, j, k) + [(Directions[k], g[x][y])];
      FormatAppend(g[i][j], Roads(g, n, i, j, k), (Directions[k], g[x][y]));
    } else {
      assert Roads(g, n, i, j, k + 1) == Roads(g, n, i, j, k);
    }
  }

  /** Writing one more pair adds ` word=name` at the end. */
  lemma FormatAppend(key: string, pairs: seq<(string, string)>, p: (string, string))
    ensures FormatRecord(key, pairs + [p]) == FormatRecord(key, pairs) + " " + p.0 + "=" + p.1
  {
    assert (pairs + [p])[..|pairs|] == pairs;
  }

  /** The text of two runs of lines is the text of the one, then the other. */
  lemma {:induction false} TextConcat(a: seq<string>, b: seq<string>)
    ensures Text(a + b) == Text(a) + Text(b)
    decreases |b|
  {
    if |b| > 0 {
      var b' := b[..|b| - 1];
      assert (a + b)[..|a + b| - 1] == a + b';
      assert (a + b)[|a + b| - 1] == b[|b| - 1];
      TextConcat(a, b');
    } else {
      assert a + b == a;
    }
  }

  /** Writing two runs of cells writes the lines of the one, then the other. */
  lemma LinesConcat(g: Grid, n: nat, c1: seq<(int, int)>, c2: seq<(int, int)>)
    requires Square(g, n)
    requires forall k :: 0 <= k < |c1| ==> 0 <= c1[k].0 < n && 0 <= c1[k].1 < n
    requires forall k :: 0 <= k < |c2| ==> 0 <= c2[k].0 < n && 0 <= c2[k].1 < n
    ensures Text(LinesOf(g, n, c1 + c2)) == Text(LinesOf(g, n, c1)) + Text(LinesOf(g, n, c2))
  {
    assert LinesOf(g, n, c1 + c2) == LinesOf(g, n, c1) + LinesOf(g, n, c2);
    TextConcat(LinesOf(g, n, c1), LinesOf(g, n, c2));
  }

  /** One more column of row `i` adds the line of its cell, if occupied. */
  lemma RowStep(g: Grid, n: nat, i: nat, j: nat)
    requires Square(g, n) && i < n && j < n
    ensures Text(LinesOf(g, n, RowCells(g, n, i, j + 1))) ==
            Text(LinesOf(g, n, RowCells(g, n, i, j))) + (if g[i][j] != "" then Line(g, n, i, j) + "\n" else "")
  {
    var cells := RowCells(g, n, i, j);
    if g[i][j] != "" {
      assert RowCells(g, n, i, j + 1) == cells + [(i as int, j as int)];
      LinesStep(g, n, cells, (i, j));
    } else {
      assert RowCells(g, n, i, j + 1) == cells;
    }
  }

  /** One more row adds the lines of its occupied cells. */
  lemma CellsStep(g: Grid, n: nat, i: nat)
    requires Square(g, n) && i < n
    ensures Text(LinesOf(g, n, CellsUpTo(g, n, i + 1))) ==
            Text(LinesOf(g, n, CellsUpTo(g, n, i))) + Text(LinesOf(g, n, RowCells(g, n, i, n)))
  {
    LinesConcat(g, n, CellsUpTo(g, n, i), RowCells(g, n, i, n));
  }

  /** Writing one more cell adds its line and a line break. */
  lemma LinesStep(g: Grid, n: nat, cells: seq<(int, int)>, c: (int, int))
    requires Square(g, n) && forall k :: 0 <= k < |cells| ==> 0 <= cells[k].0 < n && 0 <= cells[k].1 < n
    requires 0 <= c.0 < n && 0 <= c.1 < n
    ensures Text(LinesOf(g, n, cells + [c])) == Text(LinesOf(g, n, cells)) + Line(g, n, c.0, c.1) + "\n"
  {
    assert LinesOf(g, n, cells + [c])[..|cells|] == LinesOf(g, n, cells);
  }

  // ---------------------------------------------------------------------
  // Reading the written text back.

  /** A word the reader takes whole: no space, '=' or line break in it. */
  predicate Word(w: string) {
    ' ' !in w && '=' !in w && '\n' !in w
  }

  /** The key and the pairs are words and no pair's first word repeats. */
  ghost predicate Readable(key: string, pairs: seq<(string, string)>) {
    Word(key) &&
    (forall k :: 0 <= k < |pairs| ==> Word(pairs[k].0) && Word(pairs[k].1)) &&
    (forall a, b :: 0 <= a < b < |pairs| ==> pairs[a].0 != pairs[b].0)
  }

  /** `m` binds each pair's first word to its second, and nothing else. */
  ghost predicate PairMap(pairs: seq<(string, string)>, m: map<string, string>) {
    (forall k :: 0 <= k < |pairs| ==> pairs[k].0 in m && m[pairs[k].0] == pairs[k].1) &&
    (forall w :: w in m ==> exists k :: 0 <= k < |pairs| && pairs[k].0 == w)
  }

  /** The `word=name` tokens of the pairs. */
  function PairTokens(pairs: seq<(string, string)>): (tokens: seq<string>)
    ensures |tokens| == |pairs|
    ensures forall k :: 0 <= k < |pairs| ==> tokens[k] == pairs[k].0 + "=" + pairs[k].1
  {
    seq(|pairs|, k requires 0 <= k < |pairs| => pairs[k].0 + "=" + pairs[k].1)
  }

  /** A record line is its key and its tokens joined by spaces. */
  lemma {:induction false} FormatJoin(key: string, pairs: seq<(string, string)>)
    ensures FormatRecord(key, pairs) == Join([key] + PairTokens(pairs), " ")
    decreases |pairs|
  {
    if |pairs| == 0 {
      assert [key] + PairTokens(pairs) == [key];
    } else {
      var init := pairs[..|pairs| - 1];
      var last := pairs[|pairs| - 1];
      var token := last.0 + "=" + last.1;
      FormatJoin(key, init);
      assert PairTokens(pairs) == PairTokens(init) + [token];
      assert [key] + PairTokens(pairs) == ([key] + PairTokens(init)) + [token];
      JoinAppend([key] + PairTokens(init), " ", token);
      assert FormatRecord(key, pairs) == FormatRecord(key, init) + " " + token;
    }
  }

  /** A record line has no line break when its words have none. */
  lemma {:induction false} FormatNoBreak(key: string, pairs: seq<(string, string)>)
    requires Readable(key, pairs)
    ensures '\n' !in FormatRecord(key, pairs)
    decreases |pairs|
  {
    if |pairs| > 0 {
      FormatNoBreak(key, pairs[..|pairs| - 1]);
    }
  }

  /** A record line splits on spaces into its key and its tokens. */
  lemma RecordSplit(key: string, pairs: seq<(string, string)>)
    requires Readable(key, pairs)
    ensures Split(FormatRecord(key, pairs), ' ') == [key] + PairTokens(pairs)
  {
    var parts := [key] + PairTokens(pairs);
    FormatJoin(key, pairs);
    forall i | 0 <= i < |parts|
      ensures ' ' !in parts[i]
    {
      if i > 0 {
        assert parts[i] == pairs[i - 1].0 + "=" + pairs[i - 1].1;
      }
    }
    SplitJoin(parts, ' ');
  }

  /** The tokens of readable pairs are acceptable, each token giving back its pair. */
  lemma TokensAcceptable(key: string, pairs: seq<(string, string)>)
    requires Readable(key, pairs)
    ensures forall i :: 0 <= i < |pairs| ==>
              (System.WellFormedToken(PairTokens(pairs)[i]) &&
               System.TokenKey(PairTokens(pairs)[i]) == pairs[i].0 && System.TokenValue(PairTokens(pairs)[i]) == pairs[i].1)
    ensures System.Acceptable(PairTokens(pairs), map[])
  {
    var tokens := PairTokens(pairs);
    forall i | 0 <= i < |tokens|
      ensures System.WellFormedToken(tokens[i])
      ensures System.TokenKey(tokens[i]) == pairs[i].0 && System.TokenValue(tokens[i]) == pairs[i].1
    {
      System.TokenSplit(tokens[i], pairs[i].0, pairs[i].1);
    }
  }

  /** processLoadFileRecord reads a written record back: its key, and a map
      holding exactly its pairs. */
  lemma FormatParses(key: string, pairs: seq<(string, string)>)
    requires Readable(key, pairs)
    ensures System.ProcessRecord(FormatRecord(key, pairs)).Ok?
    ensures System.FirstWord(FormatRecord(key, pairs)) == key
    ensures PairMap(pairs, System.ProcessRecord(FormatRecord(key, pairs)).value.1)
  {
    var tokens := PairTokens(pairs);
    var s := FormatRecord(key, pairs);
    RecordSplit(key, pairs);
    assert Split(s, ' ')[1..] == tokens;
    TokensAcceptable(key, pairs);
    System.ProcessRecordSpec(s);
    PairsMap(key, pairs, System.ProcessRecord(s).value.1);
  }

  /** The map parsed from the tokens of readable pairs holds exactly the pairs. */
  lemma PairsMap(key: string, pairs: seq<(string, string)>, m: map<string, string>)
    requires Readable(key, pairs)
    requires System.Acceptable(PairTokens(pairs), map[]) && System.Pairs(PairTokens(pairs), map[], m)
    ensures PairMap(pairs, m)
  {
    var tokens := PairTokens(pairs);
    TokensAcceptable(key, pairs);
    forall w | w in m
      ensures exists k :: 0 <= k < |pairs| && pairs[k].0 == w
    {
      var i :| 0 <= i < |tokens| && System.TokenKey(tokens[i]) == w;
    }
  }

  /** Splitting the text of some lines, followed by `w`, on line breaks. */
  lemma {:induction false} TextThen(lines: seq<string>, w: string)
    requires forall k :: 0 <= k < |lines| ==> '\n' !in lines[k]
    requires '\n' !in w
    ensures Split(Text(lines) + w, '\n') == lines + [w]
    decreases |lines|
  {
    if |lines| == 0 {
      assert Text(lines) + w == w;
      SplitWord(w, '\n');
    } else {
      var init := lines[..|lines| - 1];
      var last := lines[|lines| - 1];
      TextThen(init, last);
      assert Text(lines) + w == (Text(init) + last) + ['\n'] + w;
      SplitAppend(Text(init) + last, '\n', w);
      assert init + [last] == lines;
    }
  }

  /** The text splits on line breaks into its lines and a final empty piece. */
  lemma TextSplit(lines: seq<string>)
    requires forall k :: 0 <= k < |lines| ==> '\n' !in lines[k]
    ensures Split(Text(lines), '\n') == lines + [""]
  {
    TextThen(lines, "");
    assert Text(lines) + "" == Text(lines);
  }

  /** The direction words are distinct words. */
  lemma DirectionWords()
    ensures Distinct(Directions)
    ensures forall d :: d in Directions ==> Word(d)
  {
  }

  /** `p` is a road from (i, j): a direction word and the name in the
      occupied cell that way. */
  ghost predicate Road(g: Grid, n: nat, i: int, j: int, p: (string, string))
    requires Square(g, n)
  {
    var (x, y) := Offset(i, j, p.0);
    p.0 in Directions && Occupied(g, n, x, y) && p.1 == g[x][y]
  }

  /** The roads over the first `k` directions are roads in those directions. */
  lemma {:induction false} RoadsAreRoads(g: Grid, n: nat, i: int, j: int, k: nat)
    requires Square(g, n) && k <= |Directions|
    ensures forall r :: 0 <= r < |Roads(g, n, i, j, k)| ==>
              Road(g, n, i, j, Roads(g, n, i, j, k)[r]) && Roads(g, n, i, j, k)[r].0 in Directions[..k]
    decreases k
  {
    if k > 0 {
      RoadsAreRoads(g, n, i, j, k - 1);
      var before := Roads(g, n, i, j, k - 1);
      var d := Directions[k - 1];
      var (x, y) := Offset(i, j, d);
      var roads := Roads(g, n, i, j, k);
      assert Directions[..k] == Directions[..k - 1] + [d];
      if Occupied(g, n, x, y) {
        assert roads == before + [(d, g[x][y])];
      } else {
        assert roads == before;
      }
      forall r | 0 <= r < |roads|
        ensures Road(g, n, i, j, roads[r]) && roads[r].0 in Directions[..k]
      {
        if r < |before| {
          assert roads[r] == before[r];
        }
      }
    }
  }

  /** The roads over the first `k` directions name each occupied neighbour in
      those directions. */
  lemma {:induction false} RoadsCover(g: Grid, n: nat, i: int, j: int, k: nat)
    requires Square(g, n) && k <= |Directions|
    ensures Covers(g, n, i, j, Directions[..k], Roads(g, n, i, j, k))
    decreases k
  {
    if k > 0 {
      RoadsCover(g, n, i, j, k - 1);
      var before := Roads(g, n, i, j, k - 1);
      var d := Directions[k - 1];
      var (x, y) := Offset(i, j, d);
      assert Directions[..k] == Directions[..k - 1] + [d];
      var roads := Roads(g, n, i, j, k);
      if Occupied(g, n, x, y) {
        assert roads == before + [(d, g[x][y])];
      } else {
        assert roads == before;
      }
      forall e | e in Directions[..k] && Occupied(g, n, Offset(i, j, e).0, Offset(i, j, e).1)
        ensures exists r :: 0 <= r < |roads| && roads[r].0 == e
      {
        if e == d {
          assert roads[|before|].0 == e;
        } else {
          var r :| 0 <= r < |before| && before[r].0 == e;
          assert roads[r] == before[r];
        }
      }
    } else {
      assert Directions[..k] == [];
    }
  }

  /** Each occupied neighbour in the directions `dirs` has a road in `roads`. */
  ghost predicate Covers(g: Grid, n: nat, i: int, j: int, dirs: seq<string>, roads: seq<(string, string)>)
    requires Square(g, n)
  {
    forall d :: d in dirs && Occupied(g, n, Offset(i, j, d).0, Offset(i, j, d).1) ==>
      exists r :: 0 <= r < |roads| && roads[r].0 == d
  }

  /** No direction has two roads. */
  lemma {:induction false} RoadsDistinct(g: Grid, n: nat, i: int, j: int, k: nat)
    requires Square(g, n) && k <= |Directions|
    ensures forall a, b :: 0 <= a < b < |Roads(g, n, i, j, k)| ==> Roads(g, n, i, j, k)[a].0 != Roads(g, n, i, j, k)[b].0
    decreases k
  {
    if k > 0 {
      RoadsDistinct(g, n, i, j, k - 1);
      RoadsAreRoads(g, n, i, j, k - 1);
      DirectionWords();
      var before := Roads(g, n, i, j, k - 1);
      var d := Directions[k - 1];
      var (x, y) := Offset(i, j, d);
      assert d !in Directions[..k - 1];
      if Occupied(g, n, x, y) {
        assert Roads(g, n, i, j, k) == before + [(d, g[x][y])];
      } else {
        assert Roads(g, n, i, j, k) == before;
      }
    }
  }

  /** The roads over all four directions: each is a road, each occupied
      neighbour has one, and no direction has two. */
  lemma RoadsShape(g: Grid, n: nat, i: int, j: int)
    requires Square(g, n)
    ensures forall r :: 0 <= r < |Roads(g, n, i, j, |Directions|)| ==> Road(g, n, i, j, Roads(g, n, i, j, |Directions|)[r])
    ensures forall d :: d in Directions && Occupied(g, n, Offset(i, j, d).0, Offset(i, j, d).1) ==>
              exists r :: 0 <= r < |Roads(g, n, i, j, |Directions|)| && Roads(g, n, i, j, |Directions|)[r].0 == d
    ensures forall a, b :: 0 <= a < b < |Roads(g, n, i, j, |Directions|)| ==>
              Roads(g, n, i, j, |Directions|)[a].0 != Roads(g, n, i, j, |Directions|)[b].0
  {
    RoadsAreRoads(g, n, i, j, |Directions|);
    RoadsCover(g, n, i, j, |Directions|);
    RoadsDistinct(g, n, i, j, |Directions|);
    assert Directions[..|Directions|] == Directions;
  }

  /** A map holding exactly the roads of (i, j) is its map of neighbours. */
  lemma RoadsNeighbours(g: Grid, n: nat, i: int, j: int, m: map<string, string>)
    requires Square(g, n) && PairMap(Roads(g, n, i, j, |Directions|), m)
    ensures m == Neighbours(g, n, i, j)
  {
    var roads := Roads(g, n, i, j, |Directions|);
    var nb := Neighbours(g, n, i, j);
    RoadsShape(g, n, i, j);
    forall w | w in m
      ensures w in nb && m[w] == nb[w]
    {
      var r :| 0 <= r < |roads| && roads[r].0 == w;
      assert Road(g, n, i, j, roads[r]);
    }
    forall w | w in nb
      ensures w in m
    {
      var r :| 0 <= r < |roads| && roads[r].0 == w;
    }
  }

  /** Every occupied cell holds a word. */
  ghost predicate WordNames(g: Grid, n: nat)
    requires Square(g, n)
  {
    forall x, y :: Occupied(g, n, x, y) ==> Word(g[x][y])
  }

  /** No name is in two cells. */
  ghost predicate UniqueNames(g: Grid, n: nat)
    requires Square(g, n)
  {
    forall x1, y1, x2, y2 :: Occupied(g, n, x1, y1) && Occupied(g, n, x2, y2) && g[x1][y1] == g[x2][y2] ==>
      x1 == x2 && y1 == y2
  }

  /** The line of an occupied cell reads back as its name and the map of its
      occupied neighbours, and has no line break. */
  lemma LineReads(g: Grid, n: nat, i: int, j: int)
    requires Square(g, n) && WordNames(g, n) && Occupied(g, n, i, j)
    ensures System.ProcessRecord(Line(g, n, i, j)) == Ok((g[i][j], Neighbours(g, n, i, j)))
    ensures System.FirstWord(Line(g, n, i, j)) == g[i][j]
    ensures '\n' !in Line(g, n, i, j)
  {
    var roads := Roads(g, n, i, j, |Directions|);
    RoadsShape(g, n, i, j);
    DirectionWords();
    forall r | 0 <= r < |roads|
      ensures Word(roads[r].0) && Word(roads[r].1)
    {
      assert Road(g, n, i, j, roads[r]);
    }
    assert Readable(g[i][j], roads);
    FormatParses(g[i][j], roads);
    FormatNoBreak(g[i][j], roads);
    RoadsNeighbours(g, n, i, j, System.ProcessRecord(Line(g, n, i, j)).value.1);
  }

  /** Cell `p` comes before cell `q` in row-major order. */
  predicate Before(p: (int, int), q: (int, int)) {
    p.0 < q.0 || (p.0 == q.0 && p.1 < q.1)
  }

  /** The cells of a row go left to right and include every occupied cell
      left of column `j`. */
  lemma {:induction false} RowCellsShape(g: Grid, n: nat, i: nat, j: nat)
    requires Square(g, n) && i < n && j <= n
    ensures forall a, b :: 0 <= a < b < |RowCells(g, n, i, j)| ==> RowCells(g, n, i, j)[a].1 < RowCells(g, n, i, j)[b].1
    ensures forall y :: 0 <= y < j && g[i][y] != "" ==> (i as int, y) in RowCells(g, n, i, j)
    decreases j
  {
    if j > 0 {
      RowCellsShape(g, n, i, j - 1);
      var before := RowCells(g, n, i, j - 1);
      if g[i][j - 1] != "" {
        assert RowCells(g, n, i, j) == before + [(i as int, (j - 1) as int)];
      } else {
        assert RowCells(g, n, i, j) == before;
      }
    }
  }

  /** The cells of the rows above row `i` come in row-major order. */
  lemma {:induction false} CellsOrdered(g: Grid, n: nat, i: nat)
    requires Square(g, n) && i <= n
    ensures forall a, b :: 0 <= a < b < |CellsUpTo(g, n, i)| ==> Before(CellsUpTo(g, n, i)[a], CellsUpTo(g, n, i)[b])
    decreases i
  {
    if i > 0 {
      CellsOrdered(g, n, i - 1);
      RowCellsShape(g, n, i - 1, n);
      var above := CellsUpTo(g, n, i - 1);
      var row := RowCells(g, n, i - 1, n);
      var cells := above + row;
      assert CellsUpTo(g, n, i) == cells;
      forall a, b | 0 <= a < b < |cells|
        ensures Before(cells[a], cells[b])
      {
        if b < |above| {
          assert cells[a] == above[a] && cells[b] == above[b];
        } else if a < |above| {
          assert cells[a] == above[a] && cells[b] == row[b - |above|];
        } else {
          assert cells[a] == row[a - |above|] && cells[b] == row[b - |above|];
        }
      }
    }
  }

  /** The cells of the rows above row `i` include every occupied cell of those rows. */
  lemma {:induction false} CellsCover(g: Grid, n: nat, i: nat)
    requires Square(g, n) && i <= n
    ensures forall x, y :: 0 <= x < i && Occupied(g, n, x, y) ==> (x, y) in CellsUpTo(g, n, i)
    decreases i
  {
    if i > 0 {
      CellsCover(g, n, i - 1);
      RowCellsShape(g, n, i - 1, n);
      var above := CellsUpTo(g, n, i - 1);
      var row := RowCells(g, n, i - 1, n);
      assert CellsUpTo(g, n, i) == above + row;
      forall x, y | 0 <= x < i && Occupied(g, n, x, y)
        ensures (x, y) in above + row
      {
        if x < i - 1 {
          assert (x, y) in above;
        } else {
          assert g[i - 1][y] != "";
          assert (x, y) in row;
        }
      }
    }
  }

  /** The lines written for a grid. */
  ghost function GridLines(g: Grid, n: nat): (lines: seq<string>)
    requires Square(g, n)
    ensures |lines| == |CellsUpTo(g, n, n)|
  {
    LinesOf(g, n, CellsUpTo(g, n, n))
  }

  /** The text written for a grid splits into its lines, each of which
      parses, with a distinct first word each when no name is in two cells. */
  lemma GridLinesParse(g: Grid, n: nat)
    requires Square(g, n) && WordNames(g, n) && UniqueNames(g, n)
    ensures Split(Serialised(g, n), '\n') == GridLines(g, n) + [""]
    ensures System.AllParse(GridLines(g, n))
    ensures Distinct(System.FirstWords(GridLines(g, n)))
  {
    var cells := CellsUpTo(g, n, n);
    var lines := GridLines(g, n);
    forall k | 0 <= k < |lines|
      ensures '\n' !in lines[k] && System.ProcessRecord(lines[k]).Ok? && System.FirstWord(lines[k]) == g[cells[k].0][cells[k].1]
    {
      LineReads(g, n, cells[k].0, cells[k].1);
    }
    TextSplit(lines);
    CellsOrdered(g, n, n);
    forall a, b | 0 <= a < b < |lines|
      ensures System.FirstWords(lines)[a] != System.FirstWords(lines)[b]
    {
      assert Before(cells[a], cells[b]);
    }
  }

  /** A map the written lines load to binds each occupied cell's name to its
      neighbours. */
  lemma GridLoadedCells(g: Grid, n: nat, m: System.LoadFileRecords)
    requires Square(g, n) && WordNames(g, n) && System.LoadedFrom(GridLines(g, n), m)
    ensures forall x, y :: Occupied(g, n, x, y) ==> g[x][y] in m && m[g[x][y]] == Neighbours(g, n, x, y)
  {
    var cells := CellsUpTo(g, n, n);
    var lines := GridLines(g, n);
    CellsCover(g, n, n);
    forall x, y | Occupied(g, n, x, y)
      ensures g[x][y] in m && m[g[x][y]] == Neighbours(g, n, x, y)
    {
      var k :| 0 <= k < |cells| && cells[k] == (x, y);
      LineReads(g, n, x, y);
      assert lines[k] == Line(g, n, x, y);
    }
  }

  /** A map the written lines load to holds only names of occupied cells. */
  lemma GridLoadedNames(g: Grid, n: nat, m: System.LoadFileRecords)
    requires Square(g, n) && WordNames(g, n) && System.LoadedFrom(GridLines(g, n), m)
    ensures forall c :: c in m ==> exists x, y :: Occupied(g, n, x, y) && g[x][y] == c
  {
    var cells := CellsUpTo(g, n, n);
    var lines := GridLines(g, n);
    forall c | c in m
      ensures exists x, y :: Occupied(g, n, x, y) && g[x][y] == c
    {
      var l :| l in lines && System.FirstWord(l) == c;
      var k :| 0 <= k < |lines| && lines[k] == l;
      LineReads(g, n, cells[k].0, cells[k].1);
    }
  }

  /** Going one way and then the opposite way returns to the start. */
  lemma OffsetOpposite(i: int, j: int, d: string)
    requires d in Directions
    ensures d in Simulation.Opposite && Simulation.Opposite[d] in Directions
    ensures Offset(Offset(i, j, d).0, Offset(i, j, d).1, Simulation.Opposite[d]) == (i, j)
  {
  }

  /** A map the written lines load to is reciprocal: every road has its road
      back, so the layout passes validation. */
  lemma GridReciprocal(g: Grid, n: nat, m: System.LoadFileRecords)
    requires Square(g, n) && WordNames(g, n) && System.LoadedFrom(GridLines(g, n), m)
    ensures Simulation.Reciprocal(m)
    ensures Simulation.ValidateFileRecords(m)
  {
    GridLoadedCells(g, n, m);
    GridLoadedNames(g, n, m);
    forall c, d | c in m && d in m[c]
      ensures d in Simulation.Opposite && m[c][d] in m && Simulation.Opposite[d] in m[m[c][d]] &&
              m[m[c][d]][Simulation.Opposite[d]] == c
    {
      var x, y :| Occupied(g, n, x, y) && g[x][y] == c;
      var (u, v) := Offset(x, y, d);
      OffsetOpposite(x, y, d);
      assert Occupied(g, n, u, v) && m[c][d] == g[u][v];
    }
    Simulation.ReciprocalValid(m);
  }

  // ---------------------------------------------------------------------
  // Placing the cities.

  /** The cells of the first `r` rows of an `n`-column grid. */
  ghost function GridCells(r: nat, n: nat): set<(int, int)> {
    set x, y | 0 <= x < r && 0 <= y < n :: (x, y)
  }

  /** The cells of row `x` left of column `c`. */
  ghost function RowSet(x: int, c: nat): set<(int, int)> {
    set y | 0 <= y < c :: (x, y)
  }

  /** A row has one cell per column. */
  lemma {:induction false} RowSetCard(x: int, c: nat)
    ensures |RowSet(x, c)| == c
    decreases c
  {
    if c > 0 {
      RowSetCard(x, c - 1);
      assert RowSet(x, c) == RowSet(x, c - 1) + {(x, c - 1)};
    }
  }

  /** A grid has one cell per row and column. */
  lemma {:induction false} GridCellsCard(r: nat, n: nat)
    ensures |GridCells(r, n)| == r * n
    decreases r
  {
    if r > 0 {
      GridCellsCard(r - 1, n);
      RowSetCard(r - 1, n);
      GridCellsSplit(r - 1, n);
      MulStep(r, n);
    }
  }

  /** One more row adds its cells, none of which was there before. */
  lemma GridCellsSplit(r: nat, n: nat)
    ensures GridCells(r + 1, n) == GridCells(r, n) + RowSet(r, n)
    ensures GridCells(r, n) * RowSet(r, n) == {}
  {
    forall c | c in GridCells(r + 1, n)
      ensures c in GridCells(r, n) + RowSet(r, n)
    {
      if c.0 == r {
        assert c in RowSet(r, n);
      }
    }
  }

  /** One more row of `n` cells. */
  lemma MulStep(r: nat, n: nat)
    requires r > 0
    ensures (r - 1) * n + n == r * n
  {
  }

  /** `placed[k]` is the cell city `k` went to: the placed cells are distinct
      cells of the grid holding the names of cities 0 to `count - 1`, and
      every occupied cell is one of them. */
  ghost predicate Placement(g: Grid, n: nat, count: nat, placed: seq<(int, int)>) {
    Square(g, n) && |placed| == count && Distinct(placed) &&
    (forall k :: 0 <= k < count ==>
       0 <= placed[k].0 < n && 0 <= placed[k].1 < n && g[placed[k].0][placed[k].1] == CityName(k)) &&
    (forall x, y :: Occupied(g, n, x, y) ==> (x, y) in placed)
  }

  /** While fewer cities are placed than there are cells, a cell is free. */
  lemma FreeCell(g: Grid, n: nat, count: nat, placed: seq<(int, int)>) returns (x: nat, y: nat)
    requires Placement(g, n, count, placed) && count < n * n
    ensures x < n && y < n && g[x][y] == ""
  {
    var all := GridCells(n, n);
    var taken := set p | p in placed;
    DistinctCard(placed);
    GridCellsCard(n, n);
    assert !(all <= taken) by {
      if all <= taken {
        SubsetCard(all, taken);
      }
    }
    var c :| c in all && c !in taken;
    x, y := c.0, c.1;
  }

  /** Writing city `count`'s name into a free cell places it. */
  lemma PlaceStep(g: Grid, n: nat, count: nat, placed: seq<(int, int)>, x: nat, y: nat)
    requires Placement(g, n, count, placed) && x < n && y < n && g[x][y] == ""
    ensures Placement(g[x := g[x][y := CityName(count)]], n, count + 1, placed + [(x, y)])
  {
    var g' := g[x := g[x][y := CityName(count)]];
    var placed' := placed + [(x, y)];
    assert (x, y) !in placed;
    forall k | 0 <= k < count + 1
      ensures 0 <= placed'[k].0 < n && 0 <= placed'[k].1 < n && g'[placed'[k].0][placed'[k].1] == CityName(k)
    {
      if k < count {
        assert placed'[k] == placed[k] != (x, y);
      }
    }
    forall u, v | Occupied(g', n, u, v)
      ensures (u, v) in placed'
    {
      if (u, v) != (x, y) {
        assert Occupied(g, n, u, v);
      }
    }
  }

  /** How the placing loop names city `i`. */
  method NameCity(i: nat) returns (name: string)
    ensures name == CityName(i)
  {
    if i < |CityPool| {
      name := CityPool[i];
    } else {
      var numeral := ToRomanSystem(i - |CityPool| + 1);
      name := CityPool[(i - |CityPool|) % |CityPool|] + "_" + numeral;
    }
  }

  /** The placing loop of generateCities: each city in turn goes to a cell
      drawn at random, both coordinates being drawn again while the cell drawn
      is taken. Go's loop would not end with more cities than cells; fairness
      of the draws is what makes each redrawing loop end. */
  method PlaceCities(numCities: nat, size: nat, rnd: RandomSource.Randomizer)
      returns (cities: array2<string>, ghost placed: seq<(int, int)>)
    requires numCities <= size * size
    requires numCities > 0 ==> rnd.PairFair(size)
    modifies rnd
    ensures fresh(cities) && cities.Length0 == size && cities.Length1 == size
    ensures Placement(GridOf(cities), size, numCities, placed)
  {
    cities := new string[size, size]((_, _) => "");
    placed := [];
    for i := 0 to numCities
      invariant Placement(GridOf(cities), size, i, placed)
    {
      placed := PlaceCity(cities, size, rnd, i, placed);
    }
  }

  /** One round of the placing loop: city `i` goes to a free cell drawn at
      random. */
  method PlaceCity(cities: array2<string>, size: nat, rnd: RandomSource.Randomizer, i: nat, ghost placed: seq<(int, int)>)
      returns (ghost placed': seq<(int, int)>)
    requires cities.Length0 == size && cities.Length1 == size
    requires Placement(GridOf(cities), size, i, placed) && i < size * size && rnd.PairFair(size)
    modifies cities, rnd
    ensures Placement(GridOf(cities), size, i + 1, placed')
    ensures placed' == placed + [placed'[i]]
  {
    ghost var g := GridOf(cities);
    ghost var fx, fy := FreeCell(g, size, i, placed);
    assert rnd.PairRecurs(rnd.draws, fx, fy, size);
    ghost var goal: nat :| rnd.Draw(rnd.draws + 2 * goal, size) == fx && rnd.Draw(rnd.draws + 2 * goal + 1, size) == fy;
    var x, y, tries := DrawFreeCell(cities, size, rnd, goal);
    var name := NameCity(i);
    PlaceStep(g, size, i, placed, x, y);
    ghost var g' := g[x := g[x][y := CityName(i)]];
    assert forall a, b :: 0 <= a < size && 0 <= b < size ==> g[a][b] == cities[a, b];
    cities[x, y] := name;
    assert forall a, b :: 0 <= a < size && 0 <= b < size ==> g'[a][b] == cities[a, b];
    GridEqual(GridOf(cities), g', size);
    placed' := placed + [(x, y)];
  }

  /** The first `t` pairs of draws from draw `from` on all hit taken cells. */
  ghost predicate TakenPairs(cities: array2<string>, size: nat, rnd: RandomSource.Randomizer, from: nat, t: nat)
    requires cities.Length0 == size && cities.Length1 == size && size > 0
    reads cities
  {
    forall u: nat :: u < t ==> cities[rnd.Draw(from + 2 * u, size), rnd.Draw(from + 2 * u + 1, size)] != ""
  }

  /** The redrawing loop: two draws give a cell, drawn again while it is
      taken. The cell found is the last pair of `tries + 1` pairs drawn, and
      every pair before it hit a taken cell. The loop ends because pair number
      `goal` of the draws to come hits a free cell. */
  method DrawFreeCell(cities: array2<string>, size: nat, rnd: RandomSource.Randomizer, ghost goal: nat)
      returns (x: nat, y: nat, ghost tries: nat)
    requires cities.Length0 == size && cities.Length1 == size && size > 0
    requires cities[rnd.Draw(rnd.draws + 2 * goal, size), rnd.Draw(rnd.draws + 2 * goal + 1, size)] == ""
    modifies rnd
    ensures x < size && y < size && cities[x, y] == ""
    ensures rnd.draws == old(rnd.draws) + 2 * tries + 2
    ensures x == rnd.Draw(old(rnd.draws) + 2 * tries, size) && y == rnd.Draw(old(rnd.draws) + 2 * tries + 1, size)
    ensures TakenPairs(cities, size, rnd, old(rnd.draws), tries)
  {
    ghost var from := rnd.draws;
    ghost var goalAt := from + 2 * goal;
    tries := 0;
    while true
      invariant rnd.draws == from + 2 * tries && rnd.draws <= goalAt
      invariant TakenPairs(cities, size, rnd, from, tries)
      decreases goalAt - rnd.draws
    {
      ghost var at := rnd.draws;
      x := rnd.Intn(size);
      y := rnd.Intn(size);
      if cities[x, y] == "" {
        return;
      }
      assert at != goalAt;
      TakenStep(cities, size, rnd, from, tries, at);
      tries := tries + 1;
    }
  }

  /** One more taken pair. */
  lemma TakenStep(cities: array2<string>, size: nat, rnd: RandomSource.Randomizer, from: nat, t: nat, at: nat)
    requires cities.Length0 == size && cities.Length1 == size && size > 0
    requires TakenPairs(cities, size, rnd, from, t) && at == from + 2 * t
    requires cities[rnd.Draw(at, size), rnd.Draw(at + 1, size)] != ""
    ensures TakenPairs(cities, size, rnd, from, t + 1)
  {
  }

  /** Two square grids with the same cells are equal. */
  lemma GridEqual(g1: Grid, g2: Grid, n: nat)
    requires Square(g1, n) && Square(g2, n)
    requires forall a, b :: 0 <= a < n && 0 <= b < n ==> g1[a][b] == g2[a][b]
    ensures g1 == g2
  {
    forall a | 0 <= a < n
      ensures g1[a] == g2[a]
    {
    }
  }

  // ---------------------------------------------------------------------
  // The whole generator.

  /** A placement names its cells with words, and no name twice. */
  lemma PlacementNames(g: Grid, n: nat, count: nat, placed: seq<(int, int)>)
    requires Placement(g, n, count, placed)
    ensures WordNames(g, n) && UniqueNames(g, n)
  {
    forall x, y | Occupied(g, n, x, y)
      ensures Word(g[x][y])
    {
      var k :| 0 <= k < |placed| && placed[k] == (x, y);
      NameChars(k);
    }
    forall x1, y1, x2, y2 | Occupied(g, n, x1, y1) && Occupied(g, n, x2, y2) && g[x1][y1] == g[x2][y2]
      ensures x1 == x2 && y1 == y2
    {
      var k1 :| 0 <= k1 < |placed| && placed[k1] == (x1, y1);
      var k2 :| 0 <= k2 < |placed| && placed[k2] == (x2, y2);
      CityNameInjective(k1, k2);
    }
  }

  /** Each line written for a placement starts with the name of a city placed. */
  lemma GridNamesPlaced(g: Grid, n: nat, count: nat, placed: seq<(int, int)>)
    requires Placement(g, n, count, placed)
    ensures forall l :: l in GridLines(g, n) ==> System.FirstWord(l) in (set k | 0 <= k < count :: CityName(k))
  {
    var cells := CellsUpTo(g, n, n);
    var lines := GridLines(g, n);
    PlacementNames(g, n, count, placed);
    forall l | l in lines
      ensures System.FirstWord(l) in (set k | 0 <= k < count :: CityName(k))
    {
      var i :| 0 <= i < |lines| && lines[i] == l;
      LineReads(g, n, cells[i].0, cells[i].1);
      var k :| 0 <= k < |placed| && placed[k] == cells[i];
    }
  }

  /** Each city placed starts a line. */
  lemma GridNamesWritten(g: Grid, n: nat, count: nat, placed: seq<(int, int)>)
    requires Placement(g, n, count, placed)
    ensures forall k :: 0 <= k < count ==> CityName(k) in (set l | l in GridLines(g, n) :: System.FirstWord(l))
  {
    var cells := CellsUpTo(g, n, n);
    var lines := GridLines(g, n);
    PlacementNames(g, n, count, placed);
    CellsCover(g, n, n);
    forall k | 0 <= k < count
      ensures CityName(k) in (set l | l in lines :: System.FirstWord(l))
    {
      var (x, y) := placed[k];
      assert Occupied(g, n, x, y);
      var i :| 0 <= i < |cells| && cells[i] == (x, y);
      LineReads(g, n, x, y);
      assert lines[i] == Line(g, n, x, y);
    }
  }

  /** The lines written for a placement start with the names of the cities
      placed, each of them. */
  lemma GridNames(g: Grid, n: nat, count: nat, placed: seq<(int, int)>)
    requires Placement(g, n, count, placed)
    ensures (set l | l in GridLines(g, n) :: System.FirstWord(l)) == (set k | 0 <= k < count :: CityName(k))
  {
    GridNamesPlaced(g, n, count, placed);
    GridNamesWritten(g, n, count, placed);
  }

  /** The text is lines, each ending in a line break, which all parse, begin
      with distinct names, the names of cities 0 to `count - 1`, and load to
      a reciprocal layout that passes validation. */
  ghost predicate Generated(text: string, count: nat) {
    var pieces := Split(text, '\n');
    var lines := pieces[..|pieces| - 1];
    pieces[|pieces| - 1] == "" &&
    System.AllParse(lines) && Distinct(System.FirstWords(lines)) &&
    (set l | l in lines :: System.FirstWord(l)) == (set k | 0 <= k < count :: CityName(k)) &&
    forall m :: System.LoadedFrom(lines, m) ==> Simulation.Reciprocal(m) && Simulation.ValidateFileRecords(m)
  }

  /** What is written for a placement is generated text. */
  lemma PlacementGenerated(g: Grid, n: nat, count: nat, placed: seq<(int, int)>)
    requires Placement(g, n, count, placed)
    ensures Generated(Serialised(g, n), count)
  {
    var lines := GridLines(g, n);
    PlacementNames(g, n, count, placed);
    GridLinesParse(g, n);
    assert (lines + [""])[..|lines|] == lines;
    GridNames(g, n, count, placed);
    forall m | System.LoadedFrom(lines, m)
      ensures Simulation.Reciprocal(m) && Simulation.ValidateFileRecords(m)
    {
      GridReciprocal(g, n, m);
    }
  }

  /** With no city placed nothing is written. */
  lemma EmptyPlacement(g: Grid, n: nat, placed: seq<(int, int)>)
    requires Placement(g, n, 0, placed)
    ensures Serialised(g, n) == ""
  {
    assert placed == [];
    assert forall x, y :: 0 <= x < n && 0 <= y < n ==> g[x][y] == "" by {
      forall x, y | 0 <= x < n && 0 <= y < n
        ensures g[x][y] == ""
      {
        assert (x, y) !in placed;
      }
    }
    EmptyCells(g, n, n);
  }

  /** A grid with no occupied cell has no cells to write. */
  lemma {:induction false} EmptyCells(g: Grid, n: nat, i: nat)
    requires Square(g, n) && i <= n && forall x, y :: 0 <= x < n && 0 <= y < n ==> g[x][y] == ""
    ensures |CellsUpTo(g, n, i)| == 0
    decreases i
  {
    if i == 0 {
      assert CellsUpTo(g, n, i) == [];
    } else {
      EmptyCells(g, n, i - 1);
      EmptyRow(g, n, i - 1, n);
      var above, row := CellsUpTo(g, n, i - 1), RowCells(g, n, i - 1, n);
      assert |above| == 0 && |row| == 0;
      assert CellsUpTo(g, n, i) == above + row;
      assert |above + row| == 0;
    }
  }

  /** A row with no occupied cell has no cells to write. */
  lemma {:induction false} EmptyRow(g: Grid, n: nat, i: nat, j: nat)
    requires Square(g, n) && i < n && j <= n && forall x, y :: 0 <= x < n && 0 <= y < n ==> g[x][y] == ""
    ensures |RowCells(g, n, i, j)| == 0
    decreases j
  {
    if j > 0 {
      EmptyRow(g, n, i, j - 1);
      assert g[i][j - 1] == "";
    }
  }

  /** generateCities: `numCities` cities at random cells of a `size` by
      `size` grid, written one line per city. */
  method GenerateCities(numCities: nat, size: nat, rnd: RandomSource.Randomizer) returns (result: string)
    requires numCities <= size * size
    requires numCities > 0 ==> rnd.PairFair(size)
    modifies rnd
    ensures Generated(result, numCities)
    ensures numCities == 0 ==> result == ""
  {
    var cities, placed := PlaceCities(numCities, size, rnd);
    result := Serialise(cities);
    PlacementGenerated(GridOf(cities), size, numCities, placed);
    if numCities == 0 {
      EmptyPlacement(GridOf(cities), size, placed);
    }
  }
}
