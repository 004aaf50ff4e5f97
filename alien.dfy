/** Alien names (internal/earth/alien.go): a random prefix and suffix, and
    from the second alien with the same pair on, a Roman numeral counting it. */
module Aliens {
  import opened Strings
  import Numeric
  import RandomSource

  const Prefixes: seq<string> := ["Zorg", "Vort", "Gork", "Gorbl", "Borg", "Krel", "Mort", "Snag", "Thrag", "Zug"]
  const Suffixes: seq<string> := ["on", "ax", "ik", "ar", "or", "ul", "ith", "ol", "arx", "ath"]

  /** How often `x` occurs in `s`. */
  function Count(s: seq<string>, x: string): (c: nat)
    ensures c <= |s|
  {
    if |s| == 0 then 0
    else Count(s[..|s| - 1], x) + (if s[|s| - 1] == x then 1 else 0)
  }

  /** The two-word name made of prefix `p` and suffix `q`. */
  function BaseName(p: nat, q: nat): string
    requires p < |Prefixes| && q < |Suffixes|
  {
    Prefixes[p] + " " + Suffixes[q]
  }

  /** The base name of alien `i` among those drawn from draw `t0` on: its
      prefix is draw `t0 + 2i`, its suffix the draw after. */
  function DrawnBase(rnd: RandomSource.Randomizer, t0: nat, i: nat): string {
    BaseName(rnd.Draw(t0 + 2 * i, |Prefixes|), rnd.Draw(t0 + 2 * i + 1, |Suffixes|))
  }

  /** The base names drawn for `amount` aliens from draw `t0` on. */
  function DrawnBases(rnd: RandomSource.Randomizer, t0: nat, amount: nat): (bases: seq<string>)
    ensures |bases| == amount && forall i :: 0 <= i < amount ==> bases[i] == DrawnBase(rnd, t0, i)
  {
    seq(amount, i requires 0 <= i < amount => DrawnBase(rnd, t0, i))
  }

  /** `seen` holds the base names drawn from draw `t0` on, in order. */
  ghost predicate DrawnSoFar(rnd: RandomSource.Randomizer, t0: nat, seen: seq<string>) {
    forall j {:trigger DrawnBase(rnd, t0, j)} :: 0 <= j < |seen| ==> seen[j] == DrawnBase(rnd, t0, j)
  }

  /** The next base name is the one drawn at the next two draws. */
  lemma DrawnStep(rnd: RandomSource.Randomizer, t0: nat, seen: seq<string>, name: string)
    requires DrawnSoFar(rnd, t0, seen) && name == DrawnBase(rnd, t0 + 2 * |seen|, 0)
    ensures DrawnSoFar(rnd, t0, seen + [name])
  {
    forall j | 0 <= j < |seen| + 1 ensures (seen + [name])[j] == DrawnBase(rnd, t0, j) {
      if j < |seen| {
        assert (seen + [name])[j] == seen[j];
      }
    }
  }

  /** The base names drawn so far are those of `DrawnBases`. */
  lemma DrawnAll(rnd: RandomSource.Randomizer, t0: nat, seen: seq<string>)
    requires DrawnSoFar(rnd, t0, seen)
    ensures seen == DrawnBases(rnd, t0, |seen|)
  {
  }

  /** The name of an alien whose base name occurred `Count(earlier, base)`
      times before: the base itself the first time, then the base followed by
      the Roman numeral of its rank (II for the second, III for the third). */
  function Disambiguated(earlier: seq<string>, base: string): string {
    var c := Count(earlier, base);
    if c == 0 then base else base + " " + Numeric.RomanOf(c + 1)
  }

  /** The names given to aliens with these base names, in order. */
  function AlienNames(bases: seq<string>): (names: seq<string>)
    ensures |names| == |bases|
  {
    if |bases| == 0 then []
    else
      var earlier := bases[..|bases| - 1];
      AlienNames(earlier) + [Disambiguated(earlier, bases[|bases| - 1])]
  }

  /** Naming one more alien appends its name. */
  lemma AlienNamesNext(seen: seq<string>, base: string)
    ensures AlienNames(seen + [base]) == AlienNames(seen) + [Disambiguated(seen, base)]
  {
    assert (seen + [base])[..|seen|] == seen;
  }

  /** Alien `i` is named after its base name and the base names before it. */
  lemma {:induction false} AlienNameAt(bases: seq<string>, i: nat)
    requires i < |bases|
    ensures AlienNames(bases)[i] == Disambiguated(bases[..i], bases[i])
    decreases |bases|
  {
    var earlier := bases[..|bases| - 1];
    if i < |bases| - 1 {
      AlienNameAt(earlier, i);
      assert earlier[..i] == bases[..i];
    }
  }

  /** A random prefix and a random suffix, drawn in that order. */
  method DrawBaseName(rnd: RandomSource.Randomizer) returns (name: string)
    modifies rnd
    ensures rnd.draws == old(rnd.draws) + 2
    ensures name == DrawnBase(rnd, old(rnd.draws), 0)
  {
    var p := rnd.Intn(|Prefixes|);
    var q := rnd.Intn(|Suffixes|);
    name := Prefixes[p] + " " + Suffixes[q];
  }

  /** The body of randomAlienNames' loop for one base name: a base name
      seen before gets its incremented count as a Roman numeral, a new one is
      used as it is; `nameCounts` counts it either way. */
  method NameAlien(name: string, nameCounts: map<string, nat>, ghost seen: seq<string>)
    returns (alienName: string, counts: map<string, nat>)
    requires Counts(nameCounts, seen)
    ensures alienName == Disambiguated(seen, name)
    ensures Counts(counts, seen + [name])
  {
    CountStep(nameCounts, seen, name);
    if name in nameCounts {
      var count := nameCounts[name] + 1;
      counts := nameCounts[name := count];
      var numeral := Numeric.ToRomanSystem(count);
      alienName := name + " " + numeral;
    } else {
      counts := nameCounts[name := 1];
      alienName := name;
    }
  }

  /** randomAlienNames: draws a prefix and a suffix per alien and counts the
      base names seen so far in `nameCounts`; the result holds as many names
      as asked for, all different. */
  method RandomAlienNames(amount: nat, rnd: RandomSource.Randomizer) returns (names: array<string>)
    modifies rnd
    ensures fresh(names)
    ensures names[..] == AlienNames(DrawnBases(rnd, old(rnd.draws), amount))
    ensures rnd.draws == old(rnd.draws) + 2 * amount
    ensures Distinct(names[..])
  {
    ghost var t0 := rnd.draws;
    ghost var seen: seq<string> := [];
    var nameCounts: map<string, nat> := map[];
    names := new string[amount];
    for i := 0 to amount
      invariant rnd.draws == t0 + 2 * i
      invariant |seen| == i && DrawnSoFar(rnd, t0, seen)
      invariant Counts(nameCounts, seen)
      invariant names[..i] == AlienNames(seen)
    {
      var name := DrawBaseName(rnd);
      DrawnStep(rnd, t0, seen, name);
      AlienNamesNext(seen, name);
      names[i], nameCounts := NameAlien(name, nameCounts, seen);
      seen := seen + [name];
      assert names[..i + 1] == names[..i] + [names[i]];
    }
    assert names[..] == names[..amount];
    DrawnAll(rnd, t0, seen);
    forall k | 0 <= k < amount ensures |Split(seen[k], ' ')| == 2 {
      BaseTwoWords(rnd, t0, k);
    }
    NamesDistinct(seen);
  }

  /** `counts` holds, for each base name occurring in `s`, how often it does. */
  ghost predicate Counts(counts: map<string, nat>, s: seq<string>) {
    forall b {:trigger Count(s, b)} :: if b in counts then counts[b] == Count(s, b) > 0 else Count(s, b) == 0
  }

  /** One step of the counting loop: the name the next alien gets, and the
      counts after it. */
  lemma CountStep(counts: map<string, nat>, seen: seq<string>, name: string)
    requires Counts(counts, seen)
    ensures name in counts ==>
              Disambiguated(seen, name) == name + " " + Numeric.RomanOf(counts[name] + 1) &&
              Counts(counts[name := counts[name] + 1], seen + [name])
    ensures name !in counts ==>
              Disambiguated(seen, name) == name && Counts(counts[name := 1], seen + [name])
  {
    var next := if name in counts then counts[name := counts[name] + 1] else counts[name := 1];
    assert (seen + [name])[..|seen|] == seen;
    forall b ensures if b in next then next[b] == Count(seen + [name], b) > 0 else Count(seen + [name], b) == 0 {
      assert Count(seen + [name], b) == Count(seen, b) + (if b == name then 1 else 0);
    }
  }

  /** Every prefix and suffix is one word. */
  lemma WordsSpaceFree()
    ensures forall p :: 0 <= p < |Prefixes| ==> ' ' !in Prefixes[p]
    ensures forall q :: 0 <= q < |Suffixes| ==> ' ' !in Suffixes[q]
  {
  }

  /** Every drawn base name has exactly two words. */
  lemma BaseTwoWords(rnd: RandomSource.Randomizer, t0: nat, i: nat)
    ensures |Split(DrawnBase(rnd, t0, i), ' ')| == 2
  {
    WordsSpaceFree();
    var p, q := rnd.Draw(t0 + 2 * i, |Prefixes|), rnd.Draw(t0 + 2 * i + 1, |Suffixes|);
    SplitPrefix(Prefixes[p], ' ', Suffixes[q]);
    SplitWord(Suffixes[q], ' ');
  }

  /** A base name that has occurred before appears again later on. */
  lemma {:induction false} CountGrows(s: seq<string>, i: nat, j: nat)
    requires i < j <= |s|
    ensures Count(s[..j], s[i]) >= Count(s[..i], s[i]) + 1
    decreases j - i
  {
    assert s[..j][..j - 1] == s[..j - 1];
    if j > i + 1 {
      CountGrows(s, i, j - 1);
    }
  }

  /** A two-word base name never equals a name with a numeral. */
  lemma BaseNotNumbered(b1: string, b2: string, r: string)
    requires |Split(b1, ' ')| == 2 && |Split(b2, ' ')| == 2 && ' ' !in r
    ensures b1 != b2 + " " + r
  {
    SplitAppend(b2, ' ', r);
  }

  /** Two names with numerals are equal only when base and numeral are. */
  lemma NumberedSame(b1: string, r1: string, b2: string, r2: string)
    requires ' ' !in r1 && ' ' !in r2 && b1 + " " + r1 == b2 + " " + r2
    ensures b1 == b2 && r1 == r2
  {
    SplitAppend(b1, ' ', r1);
    SplitAppend(b2, ' ', r2);
    var s1, s2 := Split(b1, ' '), Split(b2, ' ');
    assert s1 + [r1] == s2 + [r2];
    assert |s1| == |s2|;
    assert s1 == (s1 + [r1])[..|s1|];
    assert s2 == (s2 + [r2])[..|s2|];
    JoinSplit(b1, ' ');
    JoinSplit(b2, ' ');
  }

  /** A two-word base name never equals one followed by a numeral. */
  lemma NotNumbered(b1: string, b2: string, c: int)
    requires |Split(b1, ' ')| == 2 && |Split(b2, ' ')| == 2
    ensures b1 != b2 + " " + Numeric.RomanOf(c)
  {
    Numeric.RomanNoSpace(c);
    BaseNotNumbered(b1, b2, Numeric.RomanOf(c));
  }

  /** Names with numerals agree only when bases and numbers do. */
  lemma SameNumbered(b1: string, c1: nat, b2: string, c2: nat)
    requires b1 + " " + Numeric.RomanOf(c1) == b2 + " " + Numeric.RomanOf(c2)
    ensures b1 == b2 && c1 == c2
  {
    Numeric.RomanNoSpace(c1);
    Numeric.RomanNoSpace(c2);
    NumberedSame(b1, Numeric.RomanOf(c1), b2, Numeric.RomanOf(c2));
    Numeric.RomanInjective(c1, c2);
  }

  /** Equal names come from equal base names that occurred equally often
      before. */
  lemma SameName(e1: seq<string>, b1: string, e2: seq<string>, b2: string)
    requires |Split(b1, ' ')| == 2 && |Split(b2, ' ')| == 2
    requires Disambiguated(e1, b1) == Disambiguated(e2, b2)
    ensures b1 == b2 && Count(e1, b1) == Count(e2, b2)
  {
    var c1, c2 := Count(e1, b1), Count(e2, b2);
    if c1 == 0 && c2 != 0 {
      NotNumbered(b1, b2, c2 + 1);
    } else if c1 != 0 && c2 == 0 {
      NotNumbered(b2, b1, c1 + 1);
    } else if c1 != 0 && c2 != 0 {
      SameNumbered(b1, c1 + 1, b2, c2 + 1);
    }
  }

  /** Two aliens never get the same name. */
  lemma NameDistinct(bases: seq<string>, i: nat, j: nat)
    requires forall k :: 0 <= k < |bases| ==> |Split(bases[k], ' ')| == 2
    requires i < j < |bases|
    ensures AlienNames(bases)[i] != AlienNames(bases)[j]
  {
    AlienNameAt(bases, i);
    AlienNameAt(bases, j);
    if AlienNames(bases)[i] == AlienNames(bases)[j] {
      SameName(bases[..i], bases[i], bases[..j], bases[j]);
      CountGrows(bases, i, j);
      assert false;
    }
  }

  /** The names of aliens with two-word base names are all different. */
  lemma NamesDistinct(bases: seq<string>)
    requires forall k :: 0 <= k < |bases| ==> |Split(bases[k], ' ')| == 2
    ensures Distinct(AlienNames(bases))
  {
    var names := AlienNames(bases);
    forall i, j | 0 <= i < j < |names| ensures names[i] != names[j] {
      NameDistinct(bases, i, j);
    }
  }
}
