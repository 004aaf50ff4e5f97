/** The layout file reader of internal/platform/system/file.go. A line is a
    city name followed by space-separated `direction=neighbour` tokens; the
    file is its sequence of lines. */
module System {
  import opened Wrappers
  import opened Strings

  datatype LoadError = InvalidFormat | DuplicatedKey

  /** One line's record: its first word and its `key=value` pairs. */
  type Record = (string, map<string, string>)

  /** The whole file: each line's first word to that line's pairs. */
  type LoadFileRecords = map<string, map<string, string>>

  /** The first space-separated word of a line: the record's key. */
  function FirstWord(line: string): string {
    Split(line, ' ')[0]
  }

  /** A token splits on '=' into exactly two parts. */
  predicate WellFormedToken(token: string) {
    |Split(token, '=')| == 2
  }

  /** The part of a well formed token before '='. */
  function TokenKey(token: string): string
    requires WellFormedToken(token)
  {
    Split(token, '=')[0]
  }

  /** The part of a well formed token after '='. */
  function TokenValue(token: string): string
    requires WellFormedToken(token)
  {
    Split(token, '=')[1]
  }

  /** The tokens are well formed, and no key repeats one before it nor one of `recs`. */
  ghost predicate Acceptable(tokens: seq<string>, recs: map<string, string>) {
    (forall i :: 0 <= i < |tokens| ==> WellFormedToken(tokens[i])) &&
    (forall i :: 0 <= i < |tokens| ==> TokenKey(tokens[i]) !in recs) &&
    (forall i, j :: 0 <= i < j < |tokens| ==> TokenKey(tokens[i]) != TokenKey(tokens[j]))
  }

  /** The loop of processLoadFileRecord, from token to token: a token that
      does not split into two parts, or whose key is already present, ends it
      with an error. */
  function ParseTokens(tokens: seq<string>, recs: map<string, string>): (r: Result<map<string, string>, LoadError>)
    ensures r.Ok? ==> recs.Keys <= r.value.Keys
    decreases |tokens|
  {
    if |tokens| == 0 then Ok(recs)
    else
      var lineSplit := Split(tokens[0], '=');
      if |lineSplit| != 2 then Err(InvalidFormat)
      else if lineSplit[0] in recs then Err(DuplicatedKey)
      else ParseTokens(tokens[1..], recs[lineSplit[0] := lineSplit[1]])
  }

  /** processLoadFileRecord: the key is the first word; the other words are
      the pairs. Go's `len(line) < 1` check never fires, as a split always
      has a part. */
  function ProcessRecord(s: string): (r: Result<Record, LoadError>)
    ensures r.Ok? ==> r.value.0 == FirstWord(s)
  {
    var line := Split(s, ' ');
    match ParseTokens(line[1..], map[])
    case Ok(recs) => Ok((line[0], recs))
    case Err(e) => Err(e)
  }

  /** The tokens parse exactly when they are acceptable. */
  lemma {:induction false} ParseTokensOk(tokens: seq<string>, recs: map<string, string>)
    ensures ParseTokens(tokens, recs).Ok? <==> Acceptable(tokens, recs)
    decreases |tokens|
  {
    if |tokens| > 0 {
      if WellFormedToken(tokens[0]) && TokenKey(tokens[0]) !in recs {
        ParseTokensOk(tokens[1..], recs[TokenKey(tokens[0]) := TokenValue(tokens[0])]);
        AcceptableStep(tokens, recs);
      } else {
        assert !Acceptable(tokens, recs) by {
          if WellFormedToken(tokens[0]) { assert TokenKey(tokens[0]) in recs; }
        }
      }
    }
  }

  /** `m` is `recs` with each token's pair added, and nothing else. */
  ghost predicate Pairs(tokens: seq<string>, recs: map<string, string>, m: map<string, string>)
    requires forall i :: 0 <= i < |tokens| ==> WellFormedToken(tokens[i])
  {
    (forall k :: k in recs ==> k in m && m[k] == recs[k]) &&
    (forall i :: 0 <= i < |tokens| ==> TokenKey(tokens[i]) in m && m[TokenKey(tokens[i])] == TokenValue(tokens[i])) &&
    (forall k :: k in m ==> k in recs || exists i :: 0 <= i < |tokens| && TokenKey(tokens[i]) == k)
  }

  /** Parsing acceptable tokens adds exactly their pairs to `recs`. */
  lemma {:induction false} ParseTokensPairs(tokens: seq<string>, recs: map<string, string>)
    requires Acceptable(tokens, recs)
    ensures ParseTokens(tokens, recs).Ok? && Pairs(tokens, recs, ParseTokens(tokens, recs).value)
    decreases |tokens|
  {
    if |tokens| > 0 {
      var rest := tokens[1..];
      var recs' := recs[TokenKey(tokens[0]) := TokenValue(tokens[0])];
      AcceptableStep(tokens, recs);
      ParseTokensPairs(rest, recs');
      PairsStep(tokens, recs, ParseTokens(rest, recs').value);
    }
  }

  /** The pairs of the rest of the tokens, over `recs` with the first pair
      added, are the pairs of all the tokens over `recs`. */
  lemma PairsStep(tokens: seq<string>, recs: map<string, string>, m: map<string, string>)
    requires |tokens| > 0 && forall i :: 0 <= i < |tokens| ==> WellFormedToken(tokens[i])
    requires TokenKey(tokens[0]) !in recs
    requires Pairs(tokens[1..], recs[TokenKey(tokens[0]) := TokenValue(tokens[0])], m)
    ensures Pairs(tokens, recs, m)
  {
    var rest, recs' := tokens[1..], recs[TokenKey(tokens[0]) := TokenValue(tokens[0])];
    forall i | 0 <= i < |tokens|
      ensures TokenKey(tokens[i]) in m && m[TokenKey(tokens[i])] == TokenValue(tokens[i])
    {
      if i > 0 { assert tokens[i] == rest[i - 1]; }
    }
    forall k | k in m ensures k in recs || exists i :: 0 <= i < |tokens| && TokenKey(tokens[i]) == k {
      if k !in recs' {
        var i :| 0 <= i < |rest| && TokenKey(rest[i]) == k;
        assert tokens[i + 1] == rest[i];
      } else if k !in recs {
        assert TokenKey(tokens[0]) == k;
      }
    }
  }

  /** An acceptable token list is its first token, acceptable, followed by
      the rest, acceptable once the first pair is added. */
  lemma AcceptableStep(tokens: seq<string>, recs: map<string, string>)
    requires |tokens| > 0 && WellFormedToken(tokens[0]) && TokenKey(tokens[0]) !in recs
    ensures Acceptable(tokens, recs) <==>
            Acceptable(tokens[1..], recs[TokenKey(tokens[0]) := TokenValue(tokens[0])])
  {
    var rest, recs' := tokens[1..], recs[TokenKey(tokens[0]) := TokenValue(tokens[0])];
    if Acceptable(tokens, recs) {
      forall i | 0 <= i < |rest| ensures WellFormedToken(rest[i]) && TokenKey(rest[i]) !in recs' {
        assert rest[i] == tokens[i + 1];
      }
      forall i, j | 0 <= i < j < |rest| ensures TokenKey(rest[i]) != TokenKey(rest[j]) {
        assert rest[i] == tokens[i + 1] && rest[j] == tokens[j + 1];
      }
    }
    if Acceptable(rest, recs') {
      forall i | 0 <= i < |tokens| ensures WellFormedToken(tokens[i]) && TokenKey(tokens[i]) !in recs {
        if i > 0 { assert tokens[i] == rest[i - 1]; }
      }
      forall i, j | 0 <= i < j < |tokens| ensures TokenKey(tokens[i]) != TokenKey(tokens[j]) {
        if i > 0 { assert tokens[i] == rest[i - 1]; }
        assert tokens[j] == rest[j - 1];
      }
    }
  }

  /** The first token that is wrong decides the error: malformed gives
      InvalidFormat, a repeated key gives DuplicatedKey. */
  lemma {:induction false} ParseTokensError(tokens: seq<string>, recs: map<string, string>, k: nat)
    requires k < |tokens| && Acceptable(tokens[..k], recs)
    ensures !WellFormedToken(tokens[k]) ==> ParseTokens(tokens, recs) == Err(InvalidFormat)
    ensures WellFormedToken(tokens[k]) &&
            (TokenKey(tokens[k]) in recs || exists i :: 0 <= i < k && TokenKey(tokens[i]) == TokenKey(tokens[k])) ==>
              ParseTokens(tokens, recs) == Err(DuplicatedKey)
    decreases k
  {
    if k > 0 {
      assert tokens[..k][0] == tokens[0];
      var recs' := recs[TokenKey(tokens[0]) := TokenValue(tokens[0])];
      var rest := tokens[1..];
      assert rest[..k - 1] == tokens[..k][1..];
      AcceptableStep(tokens[..k], recs);
      ParseTokensError(rest, recs', k - 1);
      assert rest[k - 1] == tokens[k];
      if WellFormedToken(tokens[k]) && TokenKey(tokens[k]) !in recs {
        if exists i :: 0 <= i < k && TokenKey(tokens[i]) == TokenKey(tokens[k]) {
          var i :| 0 <= i < k && TokenKey(tokens[i]) == TokenKey(tokens[k]);
          if i > 0 {
            assert TokenKey(rest[i - 1]) == TokenKey(tokens[k]);
          } else {
            assert TokenKey(tokens[k]) in recs';
          }
        }
      }
    }
  }

  /** The line parses exactly when its tokens after the first word are well
      formed with distinct keys; then the record is the first word and
      exactly the tokens' pairs. */
  lemma ProcessRecordSpec(s: string)
    ensures var tokens := Split(s, ' ')[1..];
            ProcessRecord(s).Ok? <==> Acceptable(tokens, map[])
    ensures var tokens := Split(s, ' ')[1..];
            ProcessRecord(s).Ok? ==> Pairs(tokens, map[], ProcessRecord(s).value.1)
  {
    var tokens := Split(s, ' ')[1..];
    ParseTokensOk(tokens, map[]);
    if Acceptable(tokens, map[]) {
      ParseTokensPairs(tokens, map[]);
    }
  }

  // ---------------------------------------------------------------------
  // The fold of LoadFile over the lines.

  /** The first words of the lines. */
  function FirstWords(lines: seq<string>): (keys: seq<string>)
    ensures |keys| == |lines| && forall i :: 0 <= i < |lines| ==> keys[i] == FirstWord(lines[i])
  {
    seq(|lines|, i requires 0 <= i < |lines| => FirstWord(lines[i]))
  }

  /** Every line parses. */
  ghost predicate AllParse(lines: seq<string>) {
    forall i :: 0 <= i < |lines| ==> ProcessRecord(lines[i]).Ok?
  }

  /** Line `i` is the first that fails, with error `e`: every earlier line
      parses with a new first word, and line `i` does not parse, with `e`, or
      repeats an earlier first word, giving DuplicatedKey. */
  ghost predicate FailsAt(lines: seq<string>, i: nat, e: LoadError) {
    i < |lines| && AllParse(lines[..i]) && Distinct(FirstWords(lines[..i])) &&
    (ProcessRecord(lines[i]) == Err(e) ||
     (ProcessRecord(lines[i]).Ok? && FirstWord(lines[i]) in FirstWords(lines[..i]) && e == DuplicatedKey))
  }

  /** The state after the first `n` lines were loaded: they parse, with
      distinct first words, and `output` maps each first word to its line's
      pairs and has no other key. */
  ghost predicate Loaded(lines: seq<string>, n: nat, output: LoadFileRecords)
    requires n <= |lines|
  {
    AllParse(lines[..n]) && Distinct(FirstWords(lines[..n])) &&
    output.Keys == (set l | l in lines[..n] :: FirstWord(l)) &&
    forall i :: 0 <= i < n ==>
      FirstWord(lines[i]) in output && ProcessRecord(lines[i]) == Ok((FirstWord(lines[i]), output[FirstWord(lines[i])]))
  }

  /** `output` is what the lines load to: a key per line's first word,
      bound to that line's pairs. */
  ghost predicate LoadedFrom(lines: seq<string>, output: LoadFileRecords) {
    output.Keys == (set l | l in lines :: FirstWord(l)) &&
    forall i :: 0 <= i < |lines| ==>
      FirstWord(lines[i]) in output && ProcessRecord(lines[i]) == Ok((FirstWord(lines[i]), output[FirstWord(lines[i])]))
  }

  /** The lines determine what they load to. */
  lemma LoadedFromUnique(lines: seq<string>, m1: LoadFileRecords, m2: LoadFileRecords)
    requires LoadedFrom(lines, m1) && LoadedFrom(lines, m2)
    ensures m1 == m2
  {
    forall k | k in m1 ensures m1[k] == m2[k] {
      var l :| l in lines && FirstWord(l) == k;
      var i :| 0 <= i < |lines| && lines[i] == l;
    }
  }

  /** The loop of LoadFile: each line is parsed, and a parse error or a key
      already seen stops the load with no partial result; otherwise each key
      maps to its line's pairs. */
  method LoadLines(lines: seq<string>) returns (r: Result<LoadFileRecords, LoadError>)
    ensures r.Ok? <==> AllParse(lines) && Distinct(FirstWords(lines))
    ensures r.Ok? ==> LoadedFrom(lines, r.value)
    ensures r.Err? ==> exists i :: FailsAt(lines, i, r.error)
  {
    var output: LoadFileRecords := map[];
    for n := 0 to |lines|
      invariant Loaded(lines, n, output)
    {
      var record := ProcessRecord(lines[n]);
      if record.Err? {
        assert FailsAt(lines, n, record.error);
        NotAllParse(lines, n);
        return Err(record.error);
      }
      var (key, values) := record.value;
      if key in output {
        SeenKey(lines, n);
        assert FailsAt(lines, n, DuplicatedKey);
        NotDistinctFirst(lines, n);
        return Err(DuplicatedKey);
      }
      LoadStep(lines, n, output);
      output := output[key := values];
    }
    assert lines[..|lines|] == lines;
    r := Ok(output);
  }

  /** Loading one more line, which parses to a new key, adds its record. */
  lemma LoadStep(lines: seq<string>, n: nat, output: LoadFileRecords)
    requires n < |lines| && Loaded(lines, n, output)
    requires ProcessRecord(lines[n]).Ok? && FirstWord(lines[n]) !in output
    ensures Loaded(lines, n + 1, output[FirstWord(lines[n]) := ProcessRecord(lines[n]).value.1])
  {
    FoldStep(lines, n, output.Keys);
  }

  /** A line that does not parse keeps the file from parsing. */
  lemma NotAllParse(lines: seq<string>, n: nat)
    requires n < |lines| && ProcessRecord(lines[n]).Err?
    ensures !AllParse(lines)
  {
  }

  /** A first word already among the earlier lines' is one of their first words. */
  lemma SeenKey(lines: seq<string>, n: nat)
    requires n < |lines| && FirstWord(lines[n]) in (set l | l in lines[..n] :: FirstWord(l))
    ensures FirstWord(lines[n]) in FirstWords(lines[..n])
  {
    var l :| l in lines[..n] && FirstWord(l) == FirstWord(lines[n]);
    var i :| 0 <= i < n && lines[..n][i] == l;
    assert FirstWords(lines[..n])[i] == FirstWord(lines[n]);
  }

  /** A repeated first word keeps the file's first words from being distinct. */
  lemma NotDistinctFirst(lines: seq<string>, n: nat)
    requires n < |lines| && FirstWord(lines[n]) in FirstWords(lines[..n])
    ensures !Distinct(FirstWords(lines))
  {
    var i :| 0 <= i < n && FirstWords(lines[..n])[i] == FirstWord(lines[n]);
    assert FirstWords(lines)[i] == FirstWords(lines)[n];
  }

  /** Accepting line `n` extends the fold's state by it. */
  lemma FoldStep(lines: seq<string>, n: nat, keys: set<string>)
    requires n < |lines| && ProcessRecord(lines[n]).Ok?
    requires AllParse(lines[..n]) && Distinct(FirstWords(lines[..n]))
    requires keys == (set l | l in lines[..n] :: FirstWord(l)) && FirstWord(lines[n]) !in keys
    ensures AllParse(lines[..n + 1]) && Distinct(FirstWords(lines[..n + 1]))
    ensures keys + {FirstWord(lines[n])} == (set l | l in lines[..n + 1] :: FirstWord(l))
  {
    assert lines[..n + 1] == lines[..n] + [lines[n]];
    forall i | 0 <= i < n ensures FirstWords(lines[..n])[i] != FirstWord(lines[n]) {
      assert FirstWords(lines[..n])[i] == FirstWord(lines[..n][i]);
      assert lines[..n][i] in lines[..n];
    }
  }

  /** Splitting a string that is a join of separator-free parts gives the parts. */
  lemma SplitOf(s: string, sep: char, parts: seq<string>)
    requires |parts| >= 1 && forall i :: 0 <= i < |parts| ==> sep !in parts[i]
    requires s == Join(parts, [sep])
    ensures Split(s, sep) == parts
  {
    SplitJoin(parts, sep);
  }

  /** How the second example line splits into words. */
  lemma SecondLineSplit()
    ensures Split("Bar south=Foo west=Bee", ' ') == ["Bar", "south=Foo", "west=Bee"]
  {
    assert Join(["south=Foo", "west=Bee"], " ") == "south=Foo west=Bee";
    SplitOf("Bar south=Foo west=Bee", ' ', ["Bar", "south=Foo", "west=Bee"]);
  }

  /** How the malformed example line splits into words. */
  lemma MalformedLineSplit()
    ensures Split("Bar south=Foo=west=Bee", ' ') == ["Bar", "south=Foo=west=Bee"]
  {
    SplitOf("Bar south=Foo=west=Bee", ' ', ["Bar", "south=Foo=west=Bee"]);
  }

  /** A `key=value` token with no '=' in either part splits into the two. */
  lemma TokenSplit(token: string, key: string, value: string)
    requires '=' !in key && '=' !in value && token == key + "=" + value
    ensures Split(token, '=') == [key, value]
  {
    assert Join([key, value], "=") == token;
    SplitOf(token, '=', [key, value]);
  }

  /** How the two tokens of the second example line split on '='. */
  lemma SecondLineTokens()
    ensures Split("south=Foo", '=') == ["south", "Foo"]
    ensures Split("west=Bee", '=') == ["west", "Bee"]
  {
    assert Split("south=Foo", '=') == ["south", "Foo"] by {
      TokenSplit("south=Foo", "south", "Foo");
    }
    assert Split("west=Bee", '=') == ["west", "Bee"] by {
      TokenSplit("west=Bee", "west", "Bee");
    }
  }

  /** The malformed example token splits into four parts. */
  lemma MalformedTokenSplit()
    ensures |Split("south=Foo=west=Bee", '=')| == 4
  {
    assert Join(["Foo", "west", "Bee"], "=") == "Foo=west=Bee" by {
      assert Join(["west", "Bee"], "=") == "west=Bee";
    }
    SplitOf("south=Foo=west=Bee", '=', ["south", "Foo", "west", "Bee"]);
  }

  /** The second line of the parser's example makes the record it shows. */
  lemma ExampleSecondRecord(line: string)
    requires line == "Bar south=Foo west=Bee"
    ensures ProcessRecord(line) == Ok(("Bar", map["south" := "Foo", "west" := "Bee"]))
  {
    SecondLineSplit();
    SecondLineTokens();
    var tokens := ["south=Foo", "west=Bee"];
    assert Split("Bar south=Foo west=Bee", ' ')[1..] == tokens;
    assert ParseTokens(tokens[1..], map["south" := "Foo"]) == Ok(map["south" := "Foo", "west" := "Bee"]);
  }

  /** A token with two '=' is malformed, whatever follows. */
  lemma ExampleInvalidFormat(line: string)
    requires line == "Bar south=Foo=west=Bee"
    ensures ProcessRecord(line) == Err(InvalidFormat)
  {
    MalformedLineSplit();
    MalformedTokenSplit();
    assert Split("Bar south=Foo=west=Bee", ' ')[1..] == ["south=Foo=west=Bee"];
  }
}
