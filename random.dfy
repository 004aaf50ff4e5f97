/** The pseudo-random source (`*rand.Rand` and the global `math/rand`), as an
    abstract stream of draws.  The generator's algorithm and its seeding are
    not modelled: draw number `t` is `oracle(t)`, reduced into range, so every
    sequence of in-range draws is one choice of `oracle`. */
module RandomSource {

  class Randomizer {
    /** The raw value of each draw, by draw number. */
    const oracle: nat -> nat
    /** How many draws have been made. */
    var draws: nat

    constructor (oracle: nat -> nat)
      ensures this.oracle == oracle && draws == 0
    {
      this.oracle := oracle;
      draws := 0;
    }

    /** Draw number `t` reduced into [0, n). */
    function Draw(t: nat, n: nat): (r: nat)
      requires n > 0
      ensures r < n
    {
      oracle(t) % n
    }

    /** rand.Intn: the next draw, in [0, n). Go panics for n <= 0. */
    method Intn(n: nat) returns (r: nat)
      requires n > 0
      modifies this
      ensures r == Draw(old(draws), n)
      ensures draws == old(draws) + 1
    {
      r := oracle(draws) % n;
      draws := draws + 1;
    }

    /** Value `v` of `Intn(n)` comes up again at some draw from `from` on. */
    ghost predicate Recurs(from: nat, v: nat, n: nat)
      requires n > 0
    {
      exists t: nat :: from <= t && Draw(t, n) == v
    }

    /** Every value of `Intn(n)` keeps coming up: what a rejection loop over
        `Intn(n)` needs in order to finish. */
    ghost predicate Fair(n: nat) {
      n > 0 && forall from: nat, v: nat :: v < n ==> Recurs(from, v, n)
    }

    /** Values `x` then `y` of two consecutive `Intn(n)` draws come up again
        together, at an even distance from draw `from`. */
    ghost predicate PairRecurs(from: nat, x: nat, y: nat, n: nat)
      requires n > 0
    {
      exists m: nat :: Draw(from + 2 * m, n) == x && Draw(from + 2 * m + 1, n) == y
    }

    /** Every pair of values of two consecutive `Intn(n)` draws keeps coming up:
        what a rejection loop drawing two coordinates needs in order to finish. */
    ghost predicate PairFair(n: nat) {
      n > 0 && forall from: nat, x: nat, y: nat :: x < n && y < n ==> PairRecurs(from, x, y, n)
    }
  }
}
