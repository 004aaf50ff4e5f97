# Alien invasion simulator — a Dafny model

This project is a Dafny model of the core of the alien invasion simulator. The simulator reads a map of cities joined by roads in four directions. It lands a number of named aliens on those cities, and then runs day after day. Each day every alien moves along a road or stays put. A city where two or more aliens meet is destroyed together with those aliens, and the battle is reported. When no map file is given, one is generated by placing cities at random on a square grid. A terminal client keeps a table of the cities, their aliens and running totals for display.

The model follows the program's packages, one module per source file:

- `DataStructure` (`graph.go`): the city graph. It is an arena of vertices, where an edge names its destination by position. It covers AddVertex, GetVertex and AddEdge with their integrity checks, AllEdges, Enabled, Disable and GetAdjacent.
- `Aliens` (`alien.go`): random alien names. A name drawn again gets the Roman numeral of its count, and every name given is proved distinct.
- `Numeric` (`roman.go`): the greedy Roman numeral encoder. It is proved to write the classic digit-by-digit numeral and to be readable back, hence injective. The test table is checked case by case.
- `RandomSource`: the random source, as an abstract stream of draws.
- `Earth` (`earth.go`): the planet.
  - New: cities first, then roads, then aliens placed through the selector that prefers cities not yet picked.
  - buildAddEdgeCalls and newRandomSelector.
  - NextDay: the moves, then processDay with its reports, deaths and destroyed cities.
- `System` (`file.go`): parsing one record line, and the per-line fold of LoadFile with its duplicate-key check.
- `Simulation` (`simulation.go`): the direction table, validateFileRecords, the layout conversion of NewInvasion, Cities, alienPositions and Tick.
- `Generator` (`generator.go`): generateCities.
  - The placement loop over a `size` by `size` `array2` grid.
  - The naming of cities: pool names, then pool names with an underscore and a numeral.
  - The writer.
  - The main result: the generated text is proved to load, with distinct keys, to exactly the placed names. It also forms a reciprocal layout that passes validateFileRecords.
- `Client` (`status.go`): the display table `worldMap`, with `save`, `clear`, `prettySlice` and the two formatters.
- `Strings` and `Wrappers`: Go's `strings.Split` (on one character) and `strings.Join`, and Option/Result for Go's nil and error returns.

Several design choices follow from the source:

- **Randomness.** Draw number `t` of the stream is `oracle(t)` reduced into range, so every sequence of in-range draws is one choice of oracle. Two loops redraw until they hit a free item: the city selector and the grid placement. Their termination rests on a fairness precondition on the oracle (`Fair`, `PairFair`): every value, or every pair of consecutive values, keeps coming up.
- **Map iteration order.** Go's map iteration order is left open: those loops pick an arbitrary remaining key. The properties are therefore stated over sets and maps.
- **Stateful code.** The code that updates state in place is modelled with classes: the graph, the planet, the selector, the invasion, the display table and the random source. Each method is tied to a pure function of the old state, or states its new state outright.

Where the design text and the code disagree, the model follows the code:

- validateFileRecords only checks that the neighbour declares *some* road in the opposite direction. It does not check that this road leads back (`Simulation.ValidNotReciprocal`).
- processLoadFileRecord's `len(line) < 1` check can never fire.
- A city first saved already destroyed counts as standing (`Client.SavedFreshDestroyed`). The client always saves every city standing first, so the counters stay exact in use (`Client.SavedTallied`).

## Model

| member | source | states |
|---|---|---|
| Strings.Split | internal/platform/system/file.go:72 | strings.Split on one character: at least one piece, none containing the separator |
| Strings.JoinSplit | internal/platform/system/file.go:72 | joining the pieces of a split with the separator gives the string back |
| Strings.SplitJoin | internal/platform/system/file.go:72 | splitting a join of separator-free pieces gives the pieces back |
| Strings.JoinAppend | cmd/client/status.go:39-42 | joining one more piece adds the separator and the piece at the end |
| Strings.SplitAppend | internal/platform/system/file.go:82 | splitting a string followed by the separator and a separator-free word gives the string's pieces and the word |
| Strings.SplitWord | internal/platform/system/file.go:82 | a separator-free word splits into itself |
| Strings.DistinctCard | internal/earth/earth.go:118-140 | a sequence without repetitions has as many distinct elements as entries |
| RandomSource.Randomizer.constructor | internal/earth/earth.go:43 | a new source has made no draws and reads its values from the given stream |
| RandomSource.Randomizer.Intn | internal/earth/earth.go:124 | the next draw of the stream, in [0, n), advancing the draw counter by one |
| RandomSource.Randomizer.Draw | internal/earth/earth.go:124 | draw number t lies in [0, n) |
| DataStructure.Find | internal/platform/datastructure/graph.go:72-80 | the first vertex carrying the Id; None exactly when no vertex carries it |
| DataStructure.FindUnique | internal/platform/datastructure/graph.go:72-80 | with unique Ids the vertex found is the one with that Id |
| DataStructure.SetEdge | internal/platform/datastructure/graph.go:99-106 | setting an edge to a destination not yet reached keeps unique Ids, edges inside the graph and one edge per destination |
| DataStructure.Graph.constructor | internal/platform/datastructure/graph.go:10-12 | a new graph has no vertices and is well formed |
| DataStructure.Graph.AddVertex | internal/platform/datastructure/graph.go:53-69 | a duplicate Id gives VertexDuplicated and changes nothing; a fresh Id is appended with no edges, enabled, and its position returned |
| DataStructure.Graph.GetVertex | internal/platform/datastructure/graph.go:72-80 | returns the position of the vertex with the Id, or None when there is none |
| DataStructure.Graph.AddEdge | internal/platform/datastructure/graph.go:83-108 | a missing endpoint gives VertexNotFound, an existing edge to the same destination under any label gives EdgeDuplicated, both changing nothing; otherwise only the label of `from` is (re)set; well-formedness kept |
| DataStructure.Graph.AllEdges | internal/platform/datastructure/graph.go:24-33 | exactly the labels whose destination is not disabled, each once |
| DataStructure.Graph.Enabled | internal/platform/datastructure/graph.go:35-37 | true exactly when the vertex is not disabled |
| DataStructure.Graph.Disable | internal/platform/datastructure/graph.go:39-41 | the vertex becomes disabled and nothing else changes |
| DataStructure.Graph.GetAdjacent | internal/platform/datastructure/graph.go:43-45 | the destination under the label, or None exactly when there is no such edge |
| DataStructure.Disabled | internal/platform/datastructure/graph.go:39-41 | same Ids and edges, the vertex disabled, every other vertex untouched |
| DataStructure.DisableIdempotent | internal/platform/datastructure/graph.go:39-41 | disabling twice is disabling once |
| DataStructure.DisablePermanent | internal/platform/datastructure/graph.go:39-41 | a disabled vertex stays disabled |
| Aliens.AlienNames | internal/earth/alien.go:27-37 | one name per base name, in order; each is the Disambiguated form of its base given the base names before it |
| Aliens.AlienNameAt | internal/earth/alien.go:27-37 | alien `i` is named from its own base name and the base names before it |
| Aliens.DrawBaseName | internal/earth/alien.go:22-25 | draws a prefix, then a suffix, and joins them with a space; two draws are used |
| Aliens.DrawnAll | internal/earth/alien.go:21-25 | the base names drawn in the loop are those of DrawnBases |
| Aliens.NameAlien | internal/earth/alien.go:27-37 | a base name seen before gets its incremented count as a Roman numeral, a new one is used as it is, and the counts stay exact |
| Aliens.CountStep | internal/earth/alien.go:27-37 | the counter map counts the base names seen, before and after one more name |
| Aliens.RandomAlienNames | internal/earth/alien.go:11-41 | `amount` names, equal to AlienNames of the drawn base names, using two draws per alien, all different |
| Aliens.BaseTwoWords | internal/earth/alien.go:12-13 | every drawn base name splits into exactly two words |
| Aliens.CountGrows | internal/earth/alien.go:27-31 | a base name that occurred before occurs at least once more by any later position |
| Aliens.BaseNotNumbered | internal/earth/alien.go:32 | a two-word base name never equals a base name followed by a numeral |
| Aliens.SameNumbered | internal/earth/alien.go:32 | names with numerals agree only when base names and counts agree |
| Aliens.SameName | internal/earth/alien.go:27-37 | equal names come from equal base names that occurred equally often before |
| Aliens.NameDistinct | internal/earth/alien.go:27-37 | two aliens never get the same name |
| Aliens.NamesDistinct | internal/earth/alien.go:27-37 | all names given to aliens with two-word base names are different |
| Aliens.NumberedSame | internal/earth/alien.go:32 | a base name, a space and a space-free numeral determine both parts |
| Aliens.NotNumbered | internal/earth/alien.go:32 | a two-word base name never equals a base name followed by a Roman numeral |
| Numeric.ToRomanSystem | internal/platform/numeric/roman.go:7-37 | the loop emits exactly RomanOf(number), the greedy scan of the table |
| Numeric.TokensShape | internal/platform/numeric/roman.go:29-34 | the greedy scan takes table entries in table order, largest value first |
| Numeric.TokensTotal | internal/platform/numeric/roman.go:29-34 | the values of the entries taken add up to the number, for a non-negative number |
| Numeric.RomanOfValue | internal/platform/numeric/roman.go:5-37 | the numeral of a non-negative number spells entries in non-increasing value order that add up to it |
| Numeric.NonPositiveIsEmpty | internal/platform/numeric/roman.go:30 | a number that is not positive takes no entry |
| Numeric.RomanOfNonPositive | internal/platform/numeric/roman.go:6-7 | zero and negative numbers give the empty numeral |
| Numeric.RomanOfPositive | internal/platform/numeric/roman.go:6-7 | a positive number gives a non-empty numeral |
| Numeric.SpellDigits | internal/platform/numeric/roman.go:12-24 | a spelled sequence of entries uses only the seven Roman digits |
| Numeric.RomanOfDigits | internal/platform/numeric/roman.go:12-24 | every character of a numeral is one of M, D, C, L, X, V, I |
| Numeric.RomanNoSpace | internal/platform/numeric/roman.go:12-24 | a numeral contains no space |
| Numeric.TablePrefixFree | internal/platform/numeric/roman.go:12-24 | the table's symbols are read apart by their first two characters |
| Numeric.DecodeSpell | internal/platform/numeric/roman.go:29-34 | reading back ordered entries gives their total |
| Numeric.DecodeRoman | internal/platform/numeric/roman.go:5-37 | reading a numeral back gives the non-negative number it was written for |
| Numeric.RomanInjective | internal/platform/numeric/roman.go:5-37 | distinct non-negative numbers have distinct numerals |
| Numeric.RomanOfDigitsParts | internal/platform/numeric/roman.go:12-34 | the numeral of q thousands and digits a, b, c is q copies of M and the classic numerals of the three digits |
| Numeric.RomanOfClassic | internal/platform/numeric/roman.go:5-37 | the greedy encoder writes the classic digit-by-digit Roman numeral of every natural number |
| Numeric.RomanCase1 | internal/platform/numeric/roman_test.go:13 | 1 is written "I" |
| Numeric.RomanCase2 | internal/platform/numeric/roman_test.go:14 | 2 is written "II" |
| Numeric.RomanCase3 | internal/platform/numeric/roman_test.go:15 | 3 is written "III" |
| Numeric.RomanCase4 | internal/platform/numeric/roman_test.go:16 | 4 is written "IV" |
| Numeric.RomanCase5 | internal/platform/numeric/roman_test.go:17 | 5 is written "V" |
| Numeric.RomanCase6 | internal/platform/numeric/roman_test.go:18 | 6 is written "VI" |
| Numeric.RomanCase7 | internal/platform/numeric/roman_test.go:19 | 7 is written "VII" |
| Numeric.RomanCase8 | internal/platform/numeric/roman_test.go:20 | 8 is written "VIII" |
| Numeric.RomanCase9 | internal/platform/numeric/roman_test.go:21 | 9 is written "IX" |
| Numeric.RomanCase10 | internal/platform/numeric/roman_test.go:22 | 10 is written "X" |
| Numeric.RomanCase11 | internal/platform/numeric/roman_test.go:23 | 11 is written "XI" |
| Numeric.RomanCase14 | internal/platform/numeric/roman_test.go:24 | 14 is written "XIV" |
| Numeric.RomanCase15 | internal/platform/numeric/roman_test.go:25 | 15 is written "XV" |
| Numeric.RomanCase19 | internal/platform/numeric/roman_test.go:26 | 19 is written "XIX" |
| Numeric.RomanCase20 | internal/platform/numeric/roman_test.go:27 | 20 is written "XX" |
| Numeric.RomanCase39 | internal/platform/numeric/roman_test.go:28 | 39 is written "XXXIX" |
| Numeric.RomanCase40 | internal/platform/numeric/roman_test.go:29 | 40 is written "XL" |
| Numeric.RomanCase49 | internal/platform/numeric/roman_test.go:30 | 49 is written "XLIX" |
| Numeric.RomanCase50 | internal/platform/numeric/roman_test.go:31 | 50 is written "L" |
| Numeric.RomanCase89 | internal/platform/numeric/roman_test.go:32 | 89 is written "LXXXIX" |
| Numeric.RomanCase90 | internal/platform/numeric/roman_test.go:33 | 90 is written "XC" |
| Numeric.RomanCase99 | internal/platform/numeric/roman_test.go:34 | 99 is written "XCIX" |
| Numeric.RomanCase100 | internal/platform/numeric/roman_test.go:35 | 100 is written "C" |
| Numeric.RomanCase399 | internal/platform/numeric/roman_test.go:36 | 399 is written "CCCXCIX" |
| Numeric.RomanCase400 | internal/platform/numeric/roman_test.go:37 | 400 is written "CD" |
| Numeric.RomanCase499 | internal/platform/numeric/roman_test.go:38 | 499 is written "CDXCIX" |
| Numeric.RomanCase500 | internal/platform/numeric/roman_test.go:39 | 500 is written "D" |
| Numeric.RomanCase899 | internal/platform/numeric/roman_test.go:40 | 899 is written "DCCCXCIX" |
| Numeric.RomanCase900 | internal/platform/numeric/roman_test.go:41 | 900 is written "CM" |
| Numeric.RomanCase999 | internal/platform/numeric/roman_test.go:42 | 999 is written "CMXCIX" |
| Numeric.RomanCase1000 | internal/platform/numeric/roman_test.go:43 | 1000 is written "M" |
| Numeric.RomanCase3999 | internal/platform/numeric/roman_test.go:44 | 3999 is written "MMMCMXCIX" |
| Earth.CallsAlong | internal/earth/earth.go:100-113 | one call per visited direction, in visiting order, adding the road from the city to that direction's neighbour |
| Earth.CallsAlongAll | internal/earth/earth.go:100-113 | visiting every direction once gives each road's call exactly once |
| Earth.BuildAddEdgeCalls | internal/earth/earth.go:97-116 | Err(InvalidDirection) exactly when some direction is greater than West; otherwise exactly one call per road, none twice |
| Earth.RandomSelector.Next | internal/earth/earth.go:118-140 | while some item was never handed out, hands out such an item and records it; afterwards returns the item of a single draw and records nothing |
| Earth.RandomSelector.Unselected | internal/earth/earth.go:123-136 | while fewer items have been handed out than exist, some item has not been |
| Earth.Survey | internal/earth/earth.go:181-191 | one report per city holding more than one alien, naming the city and its aliens; the dead aliens are exactly those, the destroyed cities exactly those cities |
| Earth.ReportsAlongSet | internal/earth/earth.go:185-191 | the reports collected along the contested cities are the reports of the day |
| Earth.CasualtiesReported | internal/earth/earth.go:185-195 | an alien dies exactly when some report names it |
| Earth.SurvivorsAlone | internal/earth/earth.go:180-201 | after processDay no two aliens share a city |
| Earth.SurvivorsSafe | internal/earth/earth.go:180-201 | after processDay every surviving alien stands on a city that is not destroyed |
| Earth.DisabledAllWellFormed | internal/earth/earth.go:197-199 | destroying cities keeps the graph well formed and changes nothing but the flags |
| Earth.Planet.constructor | internal/earth/earth.go:45-50 | an empty graph, no aliens, an empty day-zero grouping and the given random source |
| Earth.Planet.ProcessDay | internal/earth/earth.go:180-202 | reports each contested city once, deletes exactly the aliens there, disables exactly those cities; the survivors are alone on standing cities |
| Earth.Planet.RemoveAliens | internal/earth/earth.go:193-195 | exactly the listed aliens are deleted |
| Earth.Planet.DisableCities | internal/earth/earth.go:197-199 | exactly the listed cities become disabled |
| Earth.Planet.Destination | internal/earth/earth.go:154-164 | the alien stays or follows a road to a city not destroyed, using one draw |
| Earth.Planet.MoveAlien | internal/earth/earth.go:153-174 | one alien makes a legal move and is listed under its new city |
| Earth.Planet.MoveAliens | internal/earth/earth.go:150-174 | every alien makes a legal move, no alien appears or vanishes, and the result lists each alien once under its new city |
| Earth.MovedAll | internal/earth/earth.go:150-174 | after the movement loop every alien has moved legally and is grouped under its new city |
| Earth.StayLegal | internal/earth/earth.go:160-161 | staying put is a legal move for an alien on a standing city |
| Earth.Planet.NextDay | internal/earth/earth.go:142-202 | the day's positions are the day-zero ones on the first day and one legal move per alien later; with them grouped by city, the reports are exactly one per city holding several aliens, those aliens and only those die, and exactly those cities become destroyed; survivors are alone on standing cities, and the day-zero grouping is gone afterwards |
| Earth.DayOutcome | internal/earth/earth.go:142-202 | one day: survivors moved legally, reports name only dead aliens and every dead alien, and a city is destroyed afterwards exactly when it was before or the day put several aliens in it |
| Earth.Planet.AddCity | internal/earth/earth.go:59-74 | one city is appended enabled without roads with an empty day-zero list; Err(InvalidDirection) exactly when its map has a direction greater than West |
| Earth.Planet.AddCities | internal/earth/earth.go:56-74 | every city of the layout is added; Err(InvalidDirection) exactly when some city has a direction greater than West |
| Earth.Planet.AddRoad | internal/earth/earth.go:105-112 | one collected call: Err(VertexNotFound) exactly when the neighbour is no city; a duplicate road is accepted as it is |
| Earth.Planet.AddRoads | internal/earth/earth.go:76-81 | an error exactly when some neighbour is not a city; otherwise every road of the graph is one the layout names, under its direction, and every named neighbour is reached (a second road to the same neighbour is dropped as a duplicate) |
| Earth.PavedComplete | internal/earth/earth.go:76-81 | once every call has run, every neighbour the layout names is reached by a road |
| Earth.BuiltRoads | internal/earth/earth.go:42-95 | in the built graph each city's roads reach exactly the neighbours the layout names for it, under the layout's directions |
| Earth.Planet.PlaceAliens | internal/earth/earth.go:83-92 | as many aliens as asked, named by randomAlienNames, each on a standing city; no two share a city while there are at least as many cities as aliens |
| Earth.Planet.LandAliens | internal/earth/earth.go:88-92 | each named alien lands on the city the selector hands out and is added to that city's day-zero list |
| Earth.Planet.LandAlien | internal/earth/earth.go:89-91 | one alien lands, the grouping stays exact, and the aliens stay spread over distinct cities |
| Earth.SpreadAlone | internal/earth/earth.go:118-140 | while no more aliens than cities have landed, no two share a city |
| Earth.Planet.New | internal/earth/earth.go:42-95 | Err(InvalidDirection) when any direction is greater than West, else Err(VertexNotFound) when a neighbour is not a city, else a planet whose graph holds one city per layout key, whose every road is one the layout names and which reaches every named neighbour, the named aliens placed, alone when cities suffice |
| System.ParseTokens | internal/platform/system/file.go:81-94 | the loop over the pairs: the result keeps every key already present |
| System.ParseTokensOk | internal/platform/system/file.go:81-94 | the pairs parse exactly when every token splits on '=' into two parts and no key repeats |
| System.ParseTokensPairs | internal/platform/system/file.go:81-94 | parsing acceptable tokens adds exactly their key/value pairs |
| System.ParseTokensError | internal/platform/system/file.go:81-94 | the first wrong token decides the error: InvalidFormat when it does not split into two parts, DuplicatedKey when its key was seen |
| System.ProcessRecord | internal/platform/system/file.go:69-97 | a parsed record's key is the line's first word |
| System.ProcessRecordSpec | internal/platform/system/file.go:69-97 | the line parses exactly when its words after the first are acceptable pairs, and then the record holds exactly those pairs |
| System.FirstWords | internal/platform/system/file.go:78 | the key of every line, in order |
| System.LoadedFromUnique | internal/platform/system/file.go:49-60 | the lines determine the records they load to |
| System.LoadLines | internal/platform/system/file.go:49-60 | succeeds exactly when every line parses and no key repeats, the result mapping each key to its line's pairs; otherwise fails with the error of the first failing line |
| System.LoadStep | internal/platform/system/file.go:59 | loading one more line with a fresh key adds exactly its record |
| System.NotAllParse | internal/platform/system/file.go:50-53 | a line that does not parse keeps the file from loading |
| System.NotDistinctFirst | internal/platform/system/file.go:55-57 | a repeated key keeps the file from loading |
| System.FoldStep | internal/platform/system/file.go:55-59 | accepting one more line keeps every loaded line parsed with distinct keys |
| System.SplitOf | internal/platform/system/file.go:72 | splitting a join of separator-free parts gives the parts back |
| System.TokenSplit | internal/platform/system/file.go:82 | a key=value token with no '=' in either part splits into the two |
| System.SecondLineSplit | internal/platform/system/file_test.go:34 | the second example line splits into its key and two pairs |
| System.SecondLineTokens | internal/platform/system/file_test.go:34 | the two pairs of the second example line split into south and Foo, and into west and Bee |
| System.ExampleSecondRecord | internal/platform/system/file_test.go:34-55 | the second example line loads as Bar with south=Foo and west=Bee |
| System.MalformedLineSplit | internal/platform/system/file_test.go:60 | the malformed line splits into its key and one token |
| System.MalformedTokenSplit | internal/platform/system/file_test.go:60 | the malformed token splits on '=' into four parts |
| System.ExampleInvalidFormat | internal/platform/system/file_test.go:60-66 | a token with two '=' makes the line fail with InvalidFormat |
| Simulation.DirectionName | internal/simulation/simulation.go:31-36 | each of the four direction numbers has a word that the table maps back to it |
| Simulation.DirectionRoundTrip | internal/simulation/simulation.go:31-36 | every direction word maps to one of the four numbers, and DirectionName gives the word back |
| Simulation.ValidateFileRecords | internal/simulation/simulation.go:108-156 | true exactly when every key of every record is a direction and its neighbour is a declared city that declares a road in the opposite direction |
| Simulation.ValidateSpec | internal/simulation/simulation.go:109-153 | the per-direction checks amount to that one rule for every declared key |
| Simulation.ReciprocalValid | internal/simulation/simulation.go:108-156 | a layout whose every road returns to where it came from passes the check |
| Simulation.ValidNotReciprocal | internal/simulation/simulation.go:121-128 | the check accepts a road back that leads somewhere else: it does not demand full reciprocity |
| Simulation.ValidRejectsWord | internal/simulation/simulation.go:110-114 | a key that is not a direction word fails the check |
| Simulation.ConvertRoads | internal/simulation/simulation.go:73-76 | each road keeps its neighbour under its direction number, and no other number appears |
| Simulation.ToEarthLayout | internal/simulation/simulation.go:71-77 | the same cities, each with its converted roads |
| Simulation.ConvertedAccepted | internal/simulation/simulation.go:67-79 | a checked layout converts to one the planet accepts: no direction out of range, no undeclared neighbour, as many cities |
| Simulation.AlienPositions | internal/simulation/simulation.go:87-95 | every alien listed once under the name of its city, with a key for exactly the occupied cities |
| Simulation.PositionStep | internal/simulation/simulation.go:90-92 | listing one more alien under its city keeps the grouping exact |
| Simulation.Invasion.constructor | internal/simulation/simulation.go:84 | the planet, tick limit and layout given, and no tick counted |
| Simulation.Invasion.New | internal/simulation/simulation.go:62-85 | Err(InvalidLayout) exactly when the check fails; otherwise an invasion at tick 0 over a planet built from the converted layout |
| Simulation.Invasion.Cities | internal/simulation/simulation.go:39-49 | a copy equal to the layout |
| Simulation.CopyRoads | internal/simulation/simulation.go:42-45 | a copy equal to one city's roads |
| Simulation.Invasion.Tick | internal/simulation/simulation.go:98-106 | counts the tick, continues while below the limit, numbers the report from 0; the battles are exactly one per city where the day put several aliens, those aliens and only those die, exactly those cities are destroyed, moves are legal, survivors are alone, and the positions are those after the day |
| Generator.CityName | internal/simulation/generator.go:52-56 | every city name is non-empty |
| Generator.PoolShape | internal/simulation/generator.go:42 | the twenty pool names are distinct non-empty words of lower-case letters and underscores |
| Generator.NameChars | internal/simulation/generator.go:52-56 | a city name holds letters, numeral digits and underscores only, so no space, '=' or line break |
| Generator.PastPoolName | internal/simulation/generator.go:54-55 | a name past the pool is a pool name, an underscore and the non-empty numeral of its rank past the pool |
| Generator.PastPoolInjective | internal/simulation/generator.go:54-55 | two names past the pool are equal only for the same city number |
| Generator.PastPoolEnd | internal/simulation/generator.go:55 | a name past the pool ends in a numeral digit |
| Generator.PoolEndsLower | internal/simulation/generator.go:42 | every pool name ends in a lower-case letter |
| Generator.PastPoolNotInPool | internal/simulation/generator.go:52-56 | a name past the pool is never a pool name |
| Generator.CityNameInjective | internal/simulation/generator.go:52-56 | different city numbers get different names, so the loop writes distinct names |
| Generator.NameCity | internal/simulation/generator.go:52-56 | the name the loop gives city i is CityName(i) |
| Generator.FreeCell | internal/simulation/generator.go:45-51 | while fewer cities are placed than there are cells, some cell is free |
| Generator.PlaceStep | internal/simulation/generator.go:45-57 | writing name i into a free cell keeps the placement exact: cities 0..i each in its own cell, every occupied cell one of them |
| Generator.DrawFreeCell | internal/simulation/generator.go:46-51 | draws two coordinates per try until the cell is free; the cell returned is free, and every earlier try hit an occupied cell |
| Generator.PlaceCity | internal/simulation/generator.go:45-57 | one pass of the placement loop writes the next name into a free cell |
| Generator.PlaceCities | internal/simulation/generator.go:33-57 | an n by n grid with cities 0..numCities-1 each in its own cell and no other cell occupied |
| Generator.GridCellsCard | internal/simulation/generator.go:33-39 | an r by n grid has r times n cells |
| Generator.RoadStep | internal/simulation/generator.go:65-79 | the roads found after one more direction of the inner loop |
| Generator.WriteCity | internal/simulation/generator.go:63-80 | the text written for an occupied cell is its name followed by its roads, without the line break |
| Generator.WriteRow | internal/simulation/generator.go:62-82 | the text written for a row is the lines of its occupied cells, left to right |
| Generator.Serialise | internal/simulation/generator.go:59-84 | the text written is the lines of all occupied cells in row-major order, each ended by a line break |
| Generator.FormatJoin | internal/simulation/generator.go:64-77 | a written line is its name and its direction=name tokens joined by spaces |
| Generator.RecordSplit | internal/simulation/generator.go:64-77 | splitting a written line on spaces gives its name and its tokens |
| Generator.FormatParses | internal/simulation/generator.go:64-77 | a written line parses, as the loader reads it, to its name and exactly its pairs |
| Generator.TextSplit | internal/simulation/generator.go:80 | splitting the text on line breaks gives its lines and a last empty piece |
| Generator.DirectionWords | internal/simulation/generator.go:59 | the four directions are distinct words |
| Generator.RoadsAreRoads | internal/simulation/generator.go:65-79 | every road written leads, in its direction, to an occupied cell and names it |
| Generator.RoadsCover | internal/simulation/generator.go:65-79 | every occupied neighbour gets a road |
| Generator.RoadsDistinct | internal/simulation/generator.go:65-79 | no direction is written twice on a line |
| Generator.RoadsShape | internal/simulation/generator.go:65-79 | the roads of a cell are exactly one per occupied neighbour, in distinct directions |
| Generator.RoadsNeighbours | internal/simulation/generator.go:65-79 | the pairs read back from a line are the cell's map of neighbours |
| Generator.LineReads | internal/simulation/generator.go:63-80 | a written line parses to the cell's name and its map of neighbours |
| Generator.RowCellsShape | internal/simulation/generator.go:62-63 | the occupied cells of a row go left to right and include all of that row's occupied cells |
| Generator.CellsOrdered | internal/simulation/generator.go:61-63 | the lines are written in row-major order |
| Generator.CellsCover | internal/simulation/generator.go:61-63 | every occupied cell gets a line |
| Generator.GridLinesParse | internal/simulation/generator.go:59-84 | the written text splits into the grid's lines and a last empty piece; every line parses, and no name starts two lines |
| Generator.GridLoadedCells | internal/simulation/generator.go:59-84 | loading the text maps every name to its cell's neighbours |
| Generator.GridLoadedNames | internal/simulation/generator.go:59-84 | loading the text gives keys only for occupied cells |
| Generator.OffsetOpposite | internal/simulation/generator.go:66-75 | stepping in a direction and then in the opposite one returns to the cell |
| Generator.GridReciprocal | internal/simulation/generator.go:59-84 | the loaded layout is reciprocal and passes validateFileRecords |
| Generator.GridNames | internal/simulation/generator.go:45-84 | the names starting the lines are exactly the names of cities 0..numCities-1 |
| Generator.PlacementGenerated | internal/simulation/generator.go:45-84 | what is written for a placement is generated text: the lines load, with exactly the placed names, to a layout that passes the check |
| Generator.EmptyPlacement | internal/simulation/generator.go:59-84 | with no city placed the text is empty |
| Generator.GenerateCities | internal/simulation/generator.go:32-85 | the text loads with distinct keys exactly the names of cities 0..numCities-1, into a reciprocal layout that passes validateFileRecords; no city gives the empty text |
| Client.MarkedJoin | cmd/client/status.go:39-42 | marking the first name and ending the separator with the mark is marking every name and joining with ", " |
| Client.AliensShown | cmd/client/status.go:33-43 | the aliens are shown each with a skull (destroyed) or alien face, joined by ", "; the text is empty exactly when there are no aliens |
| Client.NameRoundTrip | cmd/client/status.go:45-51 | a city name is framed by two fire emoji on each side when destroyed, by a house and a tree (mirrored on the right) otherwise, and reads back as the name and the flag |
| Client.ParseNameFormatted | cmd/client/status.go:45-51 | whatever reads back as a name and flag is that city's formatted name |
| Client.EntryShape | cmd/client/status.go:27 | an entry is the formatted name followed by the aliens in parentheses, which are empty exactly when there are no aliens |
| Client.DestroyedCountAppend | cmd/client/status.go:80-83 | appending a city raises the count of destroyed cities exactly when that city is destroyed |
| Client.DestroyedCountUpdate | cmd/client/status.go:76 | replacing a city changes the count of destroyed cities by the change of that city's flag |
| Client.IndexedReplace | cmd/client/status.go:76 | replacing the city at a name's position by a city of that name keeps the index exact |
| Client.IndexedAppend | cmd/client/status.go:82-83 | appending a city with a new name and indexing it at the end keeps the index exact |
| Client.IndexedDistinct | cmd/client/status.go:63-83 | an exact index means no name occurs twice in the table |
| Client.ClearedKeeps | cmd/client/status.go:54-60 | clearing keeps every name and flag, the index and the destroyed count, leaves no alien in a standing city, and clearing twice is clearing once |
| Client.SavedValid | cmd/client/status.go:62-84 | save keeps the index exact and notDestroyed + destroyed equal to the number of cities |
| Client.SavedStores | cmd/client/status.go:62-84 | after save the name is indexed and holds the new city unless a destroyed city of that name was kept; no city is lost or renamed, no destroyed city changes, and alive + dead is unchanged |
| Client.SavedIdempotent | cmd/client/status.go:62-84 | saving the same city twice is saving it once |
| Client.SavedTallied | cmd/client/status.go:62-84 | saving a known city or a standing one keeps destroyed equal to the number of destroyed cities |
| Client.SavedFreshDestroyed | cmd/client/status.go:80-83 | a city first saved already destroyed is counted as standing |
| Client.ClearedTableKeeps | cmd/client/status.go:54-60 | clear keeps the index, the counters and the tally, and clearing twice is clearing once |
| Client.WorldMap.constructor | cmd/client/client.go:42 | an empty table with all aliens alive and none dead |
| Client.WorldMap.Save | cmd/client/status.go:62-84 | the new state is Saved of the old state and the city |
| Client.WorldMap.Clear | cmd/client/status.go:54-60 | the new state is ClearedTable of the old state |
| Client.WorldMap.PrettySlice | cmd/client/status.go:23-31 | one entry per city, in table order, each the formatted name with the aliens in parentheses |

## Left out

- File and terminal I/O are not modelled: opening, scanning and closing the map file, LoadFile's warning log, and generateFile's `os.Create` and `io.Copy`. LoadFile is modelled from the lines it reads.
- Removing the generated file, and the part of NewInvasion (internal/simulation/simulation.go:52-62) that generates and loads the file, are not modelled. The model starts NewInvasion from the loaded records.
- The `bufio.Scanner` line splitting is not modelled. The lines are an input.
- The generated text is related to the lines by `Split` on line breaks, which leaves a final empty piece.
- The `math/rand` algorithm and its time-based seeding are replaced by the abstract draw stream. Concrete seeded outputs are not reproduced.
- The client's `Run` loop, its goroutine, channels and sleeps are not modelled. Neither are `killLog`, `randomInt`, `createMockFile`, the terminal UI, the cobra command line and `main`.
- Earth.Planet.New: Go's `Intn(0)` panics when there are aliens but no cities. The model makes this a precondition, together with the fairness that lets the selector finish.
- Generator.GenerateCities: with more cities than cells Go's placement loop never ends, so `numCities <= size * size` is a precondition. The same holds for drawing coordinates in an empty grid.
- Generator.GenerateCities: the grid, a `[][]string` in Go, is an `array2`. The model does not capture the rows being separate slices.
- Earth.Planet.New: the error path after the layout check in NewInvasion is proved unreachable rather than modelled. Go would return the planet's error, and the check rules every such error out.
- Simulation.ToEarthLayout: it requires every key to be a direction word. Only a layout that passed validateFileRecords reaches the conversion in Go.
- The error values carry no message text. Go's wrapped messages (`%w: %q`) are reduced to the error kind.
- Go closures (the deferred AddEdge calls) are modelled as data: the direction, the source and the destination of each call. Each call keeps its own iteration's direction and neighbour. This is the loop-variable rule of Go 1.22 and later. No go.mod is part of this model, so the language version is an assumption. Before Go 1.22, every closure of a city would see the last pair of the loop. The repeated calls would then fail as duplicates, that error would be swallowed, and each city would keep a single road.
- Simulation.Invasion.Tick: `tickCount` is an unbounded integer, so Go's `int` overflow is not modelled.
- Earth.Planet.NextDay: the day-zero grouping is cleared before processDay runs rather than after. processDay does not look at it, so no result differs.
- The test at internal/platform/system/file_test.go:68-75 depends on earlier writes left in the same file, so it is not modelled. The first example line of that test is covered only through the general parsing lemmas.
- Client: the counters are unbounded integers.
- Earth.Planet.New, Aliens.RandomAlienNames, Simulation.Invasion.New, Generator.GenerateCities: the Go `int` counts `aliensAmount`, `amount`, `numCities` and `size` are typed `nat`, so negative values are outside the model. In Go, a negative alien count panics in `make` (internal/earth/alien.go:19). A negative `size` panics in `make` (internal/simulation/generator.go:33). A negative `numCities` with a valid `size` skips the placement loop and returns the empty text (internal/simulation/generator.go:45).
- The client's own copy of generateCities (cmd/client/client.go:137-191) matches the simulator's, which is modelled once as `Generator`.
