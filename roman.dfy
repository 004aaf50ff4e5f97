/** Roman numerals by the greedy subtractive-notation encoder of
    internal/platform/numeric/roman.go. */
module Numeric {

  /** The encoder's table, largest value first. */
  const Values: seq<int> := [1000, 900, 500, 400, 100, 90, 50, 40, 10, 9, 5, 4, 1]
  const Symbols: seq<string> := ["M", "CM", "D", "CD", "C", "XC", "L", "XL", "X", "IX", "V", "IV", "I"]
  const TableSize: nat := 13

  /** The characters any table symbol is made of. */
  const RomanDigits: set<char> := {'M', 'D', 'C', 'L', 'X', 'V', 'I'}

  /** An index into the table. */
  type Entry = k: nat | k < 13

  /** Table indices in non-decreasing order, i.e. symbols in non-increasing value order. */
  ghost predicate Ordered(ts: seq<Entry>) {
    forall i, j :: 0 <= i < j < |ts| ==> ts[i] <= ts[j]
  }

  /** Every index names a table entry from `k` on. */
  ghost predicate InTable(ts: seq<Entry>, k: nat) {
    forall i :: 0 <= i < |ts| ==> k <= ts[i]
  }

  /** The table entries the greedy encoder emits for `n`, scanning the table from entry `k`. */
  function Tokens(n: int, k: nat): seq<Entry>
    requires k <= TableSize
    decreases TableSize - k, n
  {
    if k == TableSize then []
    else if n >= Values[k] then [k] + Tokens(n - Values[k], k)
    else Tokens(n, k + 1)
  }

  /** The symbols of the given entries, concatenated. */
  function Spell(ts: seq<Entry>): string {
    if ts == [] then "" else Symbols[ts[0]] + Spell(ts[1..])
  }

  /** The sum of the values of the given entries. */
  function Total(ts: seq<Entry>): int {
    if ts == [] then 0 else Values[ts[0]] + Total(ts[1..])
  }

  /** The encoder scans the table in order: from entry `k` on, in non-increasing value order. */
  lemma {:induction false} TokensShape(n: int, k: nat)
    requires k <= TableSize
    ensures InTable(Tokens(n, k), k) && Ordered(Tokens(n, k))
    decreases TableSize - k, n
  {
    if k < TableSize {
      if n >= Values[k] {
        TokensShape(n - Values[k], k);
      } else {
        TokensShape(n, k + 1);
      }
    }
  }

  /** The numeral the encoder produces for `n`. */
  function RomanOf(n: int): string {
    Spell(Tokens(n, 0))
  }

  /** ToRomanSystem: for each table entry in turn, emit its symbol while the
      remaining number is at least its value. */
  method ToRomanSystem(number: int) returns (result: string)
    ensures result == RomanOf(number)
  {
    ValuesPositive();
    var n := number;
    result := "";
    for i := 0 to TableSize
      invariant result + Spell(Tokens(n, i)) == RomanOf(number)
      invariant 0 < i ==> n < Values[i - 1]
    {
      while n >= Values[i]
        invariant result + Spell(Tokens(n, i)) == RomanOf(number)
        decreases n
      {
        TakeStep(n, i);
        result := result + Symbols[i];
        n := n - Values[i];
      }
      SkipStep(n, i);
    }
  }

  lemma ValuesPositive()
    ensures forall k :: 0 <= k < TableSize ==> Values[k] >= 1
  {
  }

  lemma TakeStep(n: int, k: nat)
    requires k < TableSize && n >= Values[k]
    ensures Spell(Tokens(n, k)) == Symbols[k] + Spell(Tokens(n - Values[k], k))
  {
    var ts := Tokens(n, k);
    assert ts == [k] + Tokens(n - Values[k], k);
    assert ts[1..] == Tokens(n - Values[k], k);
  }

  lemma SkipStep(n: int, k: nat)
    requires k < TableSize && n < Values[k]
    ensures Tokens(n, k) == Tokens(n, k + 1)
  {
  }

  /** A number that is not positive gives the empty numeral. */
  lemma {:induction false} NonPositiveIsEmpty(n: int, k: nat)
    requires n <= 0 && k <= TableSize
    ensures Tokens(n, k) == []
    decreases TableSize - k
  {
    if k < TableSize {
      NonPositiveIsEmpty(n, k + 1);
    }
  }

  lemma RomanOfNonPositive(n: int)
    requires n <= 0
    ensures RomanOf(n) == ""
  {
    NonPositiveIsEmpty(n, 0);
  }

  /** The emitted values add up to the number. */
  lemma {:induction false} TokensTotal(n: int, k: nat)
    requires 0 <= n && k < TableSize
    ensures Total(Tokens(n, k)) == n
    decreases TableSize - k, n
  {
    if n >= Values[k] {
      TokensTotal(n - Values[k], k);
      assert Tokens(n, k)[1..] == Tokens(n - Values[k], k);
    } else if k + 1 < TableSize {
      TokensTotal(n, k + 1);
    } else {
      assert n == 0;
    }
  }

  /** RomanOf spells greedy entries, in non-increasing value order, whose values add up to n. */
  lemma RomanOfValue(n: int)
    requires 0 <= n
    ensures var ts := Tokens(n, 0);
            RomanOf(n) == Spell(ts) && Total(ts) == n &&
            forall i, j :: 0 <= i < j < |ts| ==> Values[ts[i]] >= Values[ts[j]]
  {
    TokensTotal(n, 0);
    TokensShape(n, 0);
    var ts := Tokens(n, 0);
    forall i, j | 0 <= i < j < |ts| ensures Values[ts[i]] >= Values[ts[j]] {
      ValuesDecrease(ts[i], ts[j]);
    }
  }

  lemma ValuesDecrease(a: nat, b: nat)
    requires a <= b < TableSize
    ensures Values[a] >= Values[b]
  {
  }

  /** Every character of a numeral is a Roman digit. */
  lemma {:induction false} SpellDigits(ts: seq<Entry>)
    ensures forall c :: c in Spell(ts) ==> c in RomanDigits
  {
    if ts != [] {
      SpellDigits(ts[1..]);
      var k := ts[0];
      assert forall c :: c in Symbols[k] ==> c in RomanDigits;
    }
  }

  lemma RomanOfDigits(n: int)
    ensures forall c :: c in RomanOf(n) ==> c in RomanDigits
  {
    SpellDigits(Tokens(n, 0));
  }

  /** A numeral never contains a space. */
  lemma RomanNoSpace(n: int)
    ensures ' ' !in RomanOf(n)
  {
    RomanOfDigits(n);
  }

  /** A positive number has a non-empty numeral. */
  lemma RomanOfPositive(n: int)
    requires 0 < n
    ensures |RomanOf(n)| > 0
  {
    assert Tokens(n, 0) != [] by {
      TokensTotal(n, 0);
    }
  }

  /** Reading a numeral back: scanning the table from entry `k`, take the entry's
      value and stay on it while its symbol starts the rest, otherwise move on. */
  function Decode(s: string, k: nat): int
    requires k <= TableSize
    decreases TableSize - k, |s|
  {
    if k == TableSize then 0
    else if Symbols[k] <= s then Values[k] + Decode(s[|Symbols[k]|..], k)
    else Decode(s, k + 1)
  }

  /** Two table facts behind unique reading: a symbol that starts like an earlier
      entry's symbol differs from it in the second character, or is a single
      character after which no later symbol starts with that second character. */
  lemma TablePrefixFree(k: nat, j: nat)
    requires k < j < TableSize
    ensures Symbols[j][0] != Symbols[k][0] ||
            (|Symbols[k]| == 2 &&
             ((|Symbols[j]| == 2 && Symbols[j][1] != Symbols[k][1]) ||
              (|Symbols[j]| == 1 && forall i :: j <= i < TableSize ==> Symbols[i][0] != Symbols[k][1])))
  {
  }

  lemma {:induction false} SpellStart(ts: seq<Entry>)
    requires ts != []
    ensures Spell(ts) == Symbols[ts[0]] + Spell(ts[1..])
    ensures |Spell(ts)| >= |Symbols[ts[0]]| >= 1
  {
  }

  /** The greedy reading never takes entry `k` when the numeral only uses later entries. */
  lemma NotPrefix(ts: seq<Entry>, k: nat)
    requires InTable(ts, k + 1) && Ordered(ts) && k < TableSize
    ensures !(Symbols[k] <= Spell(ts))
  {
    if ts != [] {
      var j := ts[0];
      var s := Spell(ts);
      SpellStart(ts);
      TablePrefixFree(k, j);
      assert s[0] == Symbols[j][0];
      if |Symbols[j]| == 2 {
        assert s[1] == Symbols[j][1];
      } else if |ts| > 1 {
        var rest := ts[1..];
        SpellStart(rest);
        assert s[1] == Symbols[rest[0]][0];
        assert j <= rest[0];
      } else {
        assert |s| == 1;
      }
    }
  }

  /** Reading back ordered entries from `k` on gives their total value. */
  lemma {:induction false} DecodeSpell(ts: seq<Entry>, k: nat)
    requires k <= TableSize && InTable(ts, k) && Ordered(ts)
    ensures Decode(Spell(ts), k) == Total(ts)
    decreases TableSize - k, |ts|
  {
    if k == TableSize {
      assert ts == [];
    } else if ts != [] && ts[0] == k {
      SpellStart(ts);
      var s := Spell(ts);
      assert Symbols[k] <= s;
      assert s[|Symbols[k]|..] == Spell(ts[1..]);
      DecodeSpell(ts[1..], k);
    } else {
      NotPrefix(ts, k);
      DecodeSpell(ts, k + 1);
    }
  }

  /** Decode inverts the encoder on the naturals. */
  lemma DecodeRoman(n: int)
    requires 0 <= n
    ensures Decode(RomanOf(n), 0) == n
  {
    TokensTotal(n, 0);
    TokensShape(n, 0);
    DecodeSpell(Tokens(n, 0), 0);
  }

  /** Distinct natural numbers have distinct numerals. */
  lemma RomanInjective(n: int, m: int)
    requires 0 <= n && 0 <= m
    ensures RomanOf(n) == RomanOf(m) ==> n == m
  {
    DecodeRoman(n);
    DecodeRoman(m);
  }

  /** `d` copies of `s`. */
  function Repeat(s: string, d: nat): string {
    if d == 0 then "" else s + Repeat(s, d - 1)
  }

  /** The classic numeral of one decimal digit, from the decade's one, five and ten symbols. */
  function DigitNumeral(d: nat, one: string, five: string, ten: string): string
    requires d < 10
  {
    if d == 9 then one + ten
    else if d >= 5 then five + Repeat(one, d - 5)
    else if d == 4 then one + five
    else Repeat(one, d)
  }

  /** Roman numerals written digit by digit: thousands as repeated M, then the
      hundreds, tens and units digits. */
  function Classic(n: nat): string {
    var h := n % 1000;
    var t := h % 100;
    Repeat("M", n / 1000)
      + DigitNumeral(h / 100, "C", "D", "M")
      + DigitNumeral(t / 10, "X", "L", "C")
      + DigitNumeral(t % 10, "I", "V", "X")
  }

  /** `d` copies of entry `k`. */
  function Rep(k: Entry, d: nat): seq<Entry> {
    seq(d, _ => k)
  }

  lemma {:induction false} SpellConcat(a: seq<Entry>, b: seq<Entry>)
    ensures Spell(a + b) == Spell(a) + Spell(b)
    decreases |a|
  {
    if a != [] {
      SpellConcat(a[1..], b);
      assert (a + b)[1..] == a[1..] + b;
    } else {
      assert a + b == b;
    }
  }

  lemma {:induction false} SpellRep(k: Entry, d: nat)
    ensures Spell(Rep(k, d)) == Repeat(Symbols[k], d)
    decreases d
  {
    if d > 0 {
      SpellRep(k, d - 1);
      assert Rep(k, d)[1..] == Rep(k, d - 1);
    }
  }

  /** Taking entry `k` (of value `u`) `d` times before moving past it. */
  lemma TokensRep(r: int, d: nat, k: Entry, u: int)
    requires Values[k] == u && 0 <= r < u
    ensures Tokens(r + d * u, k) == Rep(k, d) + Tokens(r, k + 1)
  {
    RepeatedTake(r, d, k, u);
    assert Multiple(d, u) == d * u;
  }

  /** `d` times `u`, by repeated addition. */
  ghost function Multiple(d: nat, u: int): (m: int)
    ensures m == d * u
  {
    if d == 0 then 0 else Multiple(d - 1, u) + u
  }

  lemma {:induction false} RepeatedTake(r: int, d: nat, k: Entry, u: int)
    requires Values[k] == u && 0 <= r < u
    ensures Tokens(r + Multiple(d, u), k) == Rep(k, d) + Tokens(r, k + 1)
    decreases d
  {
    if d > 0 {
      var m' := r + Multiple(d - 1, u);
      RepeatedTake(r, d - 1, k, u);
      NonNegativeMultiple(d - 1, u);
      assert Tokens(m' + u, k) == [k] + Tokens(m', k);
      assert Rep(k, d) == [k] + Rep(k, d - 1);
    } else {
      assert Tokens(r, k) == Tokens(r, k + 1);
    }
  }

  lemma {:induction false} NonNegativeMultiple(d: nat, u: int)
    requires u >= 0
    ensures Multiple(d, u) >= 0
    decreases d
  {
    if d > 0 {
      NonNegativeMultiple(d - 1, u);
    }
  }

  /** The entries a decimal digit takes in the decade starting at entry `k`
      (9, 5, 4 and 1 times the decade's unit). */
  function DigitTokens(d: nat, k: nat): seq<Entry>
    requires d < 10 && k + 3 < TableSize
  {
    if d == 9 then [k]
    else if d >= 5 then [k + 1] + Rep(k + 3, d - 5)
    else if d == 4 then [k + 2]
    else Rep(k + 3, d)
  }

  /** The facts about one decade of the table: entries k..k+3 are 9u, 5u, 4u and u. */
  ghost predicate DecadeAt(k: nat, u: int) {
    k + 4 <= TableSize && u >= 1 &&
    Values[k] == 9 * u && Values[k + 1] == 5 * u && Values[k + 2] == 4 * u && Values[k + 3] == u
  }

  /** The hundreds, tens and units decades of the table. */
  lemma TableDecades()
    ensures DecadeAt(1, 100) && DecadeAt(5, 10) && DecadeAt(9, 1)
  {
  }

  /** The hundreds decade of the greedy scan, for the digit d. */
  lemma Hundreds(d: nat, r: int)
    requires d < 10 && 0 <= r < 100
    ensures Tokens(d * 100 + r, 1) == DigitTokens(d, 1) + Tokens(r, 5)
  {
    TableDecades();
    if d == 9 {
      DecadeNine(r, 1, 100);
    } else if d >= 5 {
      DecadeFive(r + (d - 5) * 100, 1, 100);
      TokensRep(r, d - 5, 4, 100);
    } else if d == 4 {
      DecadeFour(r, 1, 100);
    } else {
      PastDecadeTop(d * 100 + r, 1, 100);
      TokensRep(r, d, 4, 100);
    }
  }

  /** The tens decade of the greedy scan, for the digit d. */
  lemma Tens(d: nat, r: int)
    requires d < 10 && 0 <= r < 10
    ensures Tokens(d * 10 + r, 5) == DigitTokens(d, 5) + Tokens(r, 9)
  {
    TableDecades();
    if d == 9 {
      DecadeNine(r, 5, 10);
    } else if d >= 5 {
      DecadeFive(r + (d - 5) * 10, 5, 10);
      TokensRep(r, d - 5, 8, 10);
    } else if d == 4 {
      DecadeFour(r, 5, 10);
    } else {
      PastDecadeTop(d * 10 + r, 5, 10);
      TokensRep(r, d, 8, 10);
    }
  }

  /** The units decade of the greedy scan, for the digit d. */
  lemma Units(d: nat, r: int)
    requires d < 10 && 0 <= r < 1
    ensures Tokens(d * 1 + r, 9) == DigitTokens(d, 9) + Tokens(r, 13)
  {
    TableDecades();
    if d == 9 {
      DecadeNine(r, 9, 1);
    } else if d >= 5 {
      DecadeFive(r + (d - 5) * 1, 9, 1);
      TokensRep(r, d - 5, 12, 1);
    } else if d == 4 {
      DecadeFour(r, 9, 1);
    } else {
      PastDecadeTop(d * 1 + r, 9, 1);
      TokensRep(r, d, 12, 1);
    }
  }

  /** Below four units, the first three entries of the decade are skipped. */
  lemma PastDecadeTop(m: int, k: nat, u: int)
    requires DecadeAt(k, u) && m < 4 * u
    ensures Tokens(m, k) == Tokens(m, k + 3)
  {
    assert Tokens(m, k) == Tokens(m, k + 1);
    assert Tokens(m, k + 1) == Tokens(m, k + 2);
  }

  lemma DecadeNine(r: int, k: nat, u: int)
    requires DecadeAt(k, u) && 0 <= r < u
    ensures Tokens(r + 9 * u, k) == [k] + Tokens(r, k + 4)
  {
    assert Tokens(r + 9 * u, k) == [k] + Tokens(r, k);
    PastDecadeTop(r, k, u);
  }

  lemma DecadeFive(m: int, k: nat, u: int)
    requires DecadeAt(k, u) && 0 <= m < 4 * u
    ensures Tokens(m + 5 * u, k) == [k + 1] + Tokens(m, k + 3)
  {
    assert Tokens(m + 5 * u, k) == Tokens(m + 5 * u, k + 1);
    assert Tokens(m + 5 * u, k + 1) == [k + 1] + Tokens(m, k + 1);
    assert Tokens(m, k + 1) == Tokens(m, k + 2);
  }

  lemma DecadeFour(r: int, k: nat, u: int)
    requires DecadeAt(k, u) && 0 <= r < u
    ensures Tokens(r + 4 * u, k) == [k + 2] + Tokens(r, k + 4)
  {
    assert Tokens(r + 4 * u, k) == Tokens(r + 4 * u, k + 1);
    assert Tokens(r + 4 * u, k + 1) == Tokens(r + 4 * u, k + 2);
    assert Tokens(r + 4 * u, k + 2) == [k + 2] + Tokens(r, k + 2);
    assert Tokens(r, k + 2) == Tokens(r, k + 3);
  }

  /** The hundreds, tens and units decades' symbols: one, five and ten. */
  ghost predicate DecadeSymbols(k: nat, one: string, five: string, ten: string) {
    k + 3 < TableSize &&
    Symbols[k] == one + ten && Symbols[k + 1] == five && Symbols[k + 2] == one + five && Symbols[k + 3] == one
  }

  lemma SymbolDecades()
    ensures DecadeSymbols(1, "C", "D", "M") && DecadeSymbols(5, "X", "L", "C") && DecadeSymbols(9, "I", "V", "X")
  {
    assert "C" + "M" == "CM" && "C" + "D" == "CD";
    assert "X" + "C" == "XC" && "X" + "L" == "XL";
    assert "I" + "X" == "IX" && "I" + "V" == "IV";
  }

  lemma SpellDigit(d: nat, k: nat, one: string, five: string, ten: string)
    requires d < 10 && DecadeSymbols(k, one, five, ten)
    ensures Spell(DigitTokens(d, k)) == DigitNumeral(d, one, five, ten)
  {
    if d == 9 || d == 4 {
    } else if d >= 5 {
      SpellConcat([k + 1], Rep(k + 3, d - 5));
      SpellRep(k + 3, d - 5);
    } else {
      SpellRep(k + 3, d);
    }
  }

  /** The entries the encoder takes for the number with thousands q and decimal digits a, b, c. */
  lemma TokensByDigits(q: nat, a: nat, b: nat, c: nat)
    requires a < 10 && b < 10 && c < 10
    ensures Tokens(q * 1000 + a * 100 + b * 10 + c, 0) ==
            Rep(0, q) + (DigitTokens(a, 1) + (DigitTokens(b, 5) + DigitTokens(c, 9)))
  {
    var h := a * 100 + b * 10 + c;
    TokensRep(h, q, 0, 1000);
    assert h + q * 1000 == q * 1000 + a * 100 + b * 10 + c;
    TokensBelowThousand(a, b, c);
  }

  /** The entries the encoder takes, from entry 1 on, for the number with decimal digits a, b, c. */
  lemma TokensBelowThousand(a: nat, b: nat, c: nat)
    requires a < 10 && b < 10 && c < 10
    ensures Tokens(a * 100 + b * 10 + c, 1) == DigitTokens(a, 1) + (DigitTokens(b, 5) + DigitTokens(c, 9))
  {
    Hundreds(a, b * 10 + c);
    Tens(b, c);
    Units(c, 0);
    assert c * 1 + 0 == c;
    assert Tokens(0, 13) == [];
  }

  /** The classic numeral of the number with thousands q and decimal digits a, b, c. */
  lemma RomanOfDigitsParts(q: nat, a: nat, b: nat, c: nat)
    requires a < 10 && b < 10 && c < 10
    ensures RomanOf(q * 1000 + a * 100 + b * 10 + c) ==
            Repeat("M", q) + DigitNumeral(a, "C", "D", "M") + DigitNumeral(b, "X", "L", "C") + DigitNumeral(c, "I", "V", "X")
  {
    TokensByDigits(q, a, b, c);
    SymbolDecades();
    var w, x, y, z := Rep(0, q), DigitTokens(a, 1), DigitTokens(b, 5), DigitTokens(c, 9);
    var sw, sx, sy, sz := Repeat("M", q), DigitNumeral(a, "C", "D", "M"), DigitNumeral(b, "X", "L", "C"), DigitNumeral(c, "I", "V", "X");
    assert Spell(y + z) == sy + sz by {
      SpellConcat(y, z);
      SpellDigit(b, 5, "X", "L", "C");
      SpellDigit(c, 9, "I", "V", "X");
    }
    assert Spell(x + (y + z)) == sx + (sy + sz) by {
      SpellConcat(x, y + z);
      SpellDigit(a, 1, "C", "D", "M");
    }
    assert Spell(w + (x + (y + z))) == sw + (sx + (sy + sz)) by {
      SpellConcat(w, x + (y + z));
      SpellRep(0, q);
    }
    Reassociate(sw, sx, sy, sz);
  }

  lemma Reassociate(w: string, x: string, y: string, z: string)
    ensures w + (x + (y + z)) == w + x + y + z
  {
  }

  /** The greedy encoder writes the classic digit-by-digit numeral. */
  lemma RomanOfClassic(n: nat)
    ensures RomanOf(n) == Classic(n)
  {
    var q, h := n / 1000, n % 1000;
    var a, t := h / 100, h % 100;
    var b, c := t / 10, t % 10;
    assert n == q * 1000 + h;
    assert h == a * 100 + t;
    assert t == b * 10 + c;
    RomanOfDigitsParts(q, a, b, c);
  }

  /** The cases of the encoder's test table, one per lemma. */
  lemma RomanCase1() ensures RomanOf(1) == "I" { RomanOfClassic(1); }
  lemma RomanCase2() ensures RomanOf(2) == "II" { RomanOfClassic(2); }
  lemma RomanCase3() ensures RomanOf(3) == "III" { RomanOfClassic(3); }
  lemma RomanCase4() ensures RomanOf(4) == "IV" { RomanOfClassic(4); }
  lemma RomanCase5() ensures RomanOf(5) == "V" { RomanOfClassic(5); }
  lemma RomanCase6() ensures RomanOf(6) == "VI" { RomanOfClassic(6); }
  lemma RomanCase7() ensures RomanOf(7) == "VII" { RomanOfClassic(7); }
  lemma RomanCase8() ensures RomanOf(8) == "VIII" { RomanOfClassic(8); }
  lemma RomanCase9() ensures RomanOf(9) == "IX" { RomanOfClassic(9); }
  lemma RomanCase10() ensures RomanOf(10) == "X" { RomanOfClassic(10); }
  lemma RomanCase11() ensures RomanOf(11) == "XI" { RomanOfClassic(11); }
  lemma RomanCase14() ensures RomanOf(14) == "XIV" { RomanOfClassic(14); }
  lemma RomanCase15() ensures RomanOf(15) == "XV" { RomanOfClassic(15); }
  lemma RomanCase19() ensures RomanOf(19) == "XIX" { RomanOfClassic(19); }
  lemma RomanCase20() ensures RomanOf(20) == "XX" { RomanOfClassic(20); }
  lemma RomanCase39() ensures RomanOf(39) == "XXXIX" { RomanOfClassic(39); }
  lemma RomanCase40() ensures RomanOf(40) == "XL" { RomanOfClassic(40); }
  lemma RomanCase49() ensures RomanOf(49) == "XLIX" { RomanOfClassic(49); }
  lemma RomanCase50() ensures RomanOf(50) == "L" { RomanOfClassic(50); }
  lemma RomanCase89() ensures RomanOf(89) == "LXXXIX" { RomanOfClassic(89); }
  lemma RomanCase90() ensures RomanOf(90) == "XC" { RomanOfClassic(90); }
  lemma RomanCase99() ensures RomanOf(99) == "XCIX" { RomanOfClassic(99); }
  lemma RomanCase100() ensures RomanOf(100) == "C" { RomanOfClassic(100); }
  lemma RomanCase399() ensures RomanOf(399) == "CCCXCIX" { RomanOfClassic(399); }
  lemma RomanCase400() ensures RomanOf(400) == "CD" { RomanOfClassic(400); }
  lemma RomanCase499() ensures RomanOf(499) == "CDXCIX" { RomanOfClassic(499); }
  lemma RomanCase500() ensures RomanOf(500) == "D" { RomanOfClassic(500); }
  lemma RomanCase899() ensures RomanOf(899) == "DCCCXCIX" { RomanOfClassic(899); }
  lemma RomanCase900() ensures RomanOf(900) == "CM" { RomanOfClassic(900); }
  lemma RomanCase999() ensures RomanOf(999) == "CMXCIX" { RomanOfClassic(999); }
  lemma RomanCase1000() ensures RomanOf(1000) == "M" { RomanOfClassic(1000); }
  lemma RomanCase3999() ensures RomanOf(3999) == "MMMCMXCIX" { RomanOfClassic(3999); }
}
