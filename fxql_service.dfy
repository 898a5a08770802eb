/** `FxqlService.parseFxql` (src/fxql.service.ts): split the request into
    statements, refuse more than 1000 of them, parse each in turn with its
    0-based ordinal, stop at the first that fails, and keep one entry per
    currency pair (the last one written) in the order each pair first
    appeared. */
module FxqlService {
  import opened Results
  import opened JsStrings
  import opened Splitter
  import opened StatementParser
  import opened PairMaps

  /** The most statements one request may hold. */
  const MaxStatements := 1000

  /** Written in two parts so that proofs can read its first character;
      `LimitMessageText` states it is the message as one literal. */
  const LimitMessage := "Maximum 1000 currency pairs" + " per request allowed"

  lemma LimitMessageText()
    ensures LimitMessage == "Maximum 1000 currency pairs per request allowed"
  {
  }

  /** The key an entry is stored under: `SOURCE-DESTINATION`. */
  function PairKey(e: Entry): string {
    e.sourceCurrency + "-" + e.destinationCurrency
  }

  const StatementPrefix := "Error in statement "

  /** The catch block around each statement: a parse error goes out as it
      is; any other error becomes a bad request naming the statement's
      1-based number. */
  function StatementError(error: FxqlError, index: nat): (r: FxqlError)
    ensures error.ParseFailed? ==> r == error
    ensures error.BadRequest? ==>
      && r.BadRequest?
      && exists number ::
           && r.message == StatementPrefix + number + ": " + error.message
           && AllDigits(number) && DigitsValue(number) == index + 1
           && (|number| == 1 || number[0] != '0')
  {
    match error
    case ParseFailed(_) => error
    case BadRequest(message) =>
      var number := NatToString(index + 1);
      NatToStringRoundTrip(index + 1);
      assert |number| == 1 || number[0] != '0';
      BadRequest(StatementPrefix + number + ": " + message)
  }

  /** How one statement is parsed, given its 0-based ordinal. */
  type StatementParse = (string, nat) -> Result<Entry, FxqlError>

  /** `parseStatement` with the repository fixed. */
  function Parsing(save: Save): StatementParse {
    (statement: string, ordinal: nat) => StatementResult(statement, ordinal, save)
  }

  /** The statement loop without the map: the entries of the statements,
      in order, or the error of the first statement that fails. */
  function ParseAll(statements: seq<string>, parse: StatementParse): (r: Result<seq<Entry>, FxqlError>)
    ensures r.Success? ==> |r.value| == |statements|
  {
    if statements == [] then Success([])
    else
      var n := |statements| - 1;
      match ParseAll(statements[..n], parse)
      case Failure(e) => Failure(e)
      case Success(entries) =>
        match parse(statements[n], n)
        case Failure(e) => Failure(StatementError(e, n))
        case Success(entry) => Success(entries + [entry])
  }

  /** Two entries whose source codes have three letters, as every parsed
      entry's do, share a key exactly when they are for the same pair, so
      keeping one entry per key keeps one entry per currency pair. */
  lemma SamePairKey(a: Entry, b: Entry)
    requires |a.sourceCurrency| == 3 && |b.sourceCurrency| == 3
    ensures PairKey(a) == PairKey(b) <==>
      a.sourceCurrency == b.sourceCurrency && a.destinationCurrency == b.destinationCurrency
  {
    if PairKey(a) == PairKey(b) {
      assert a.sourceCurrency == PairKey(a)[..3] && a.destinationCurrency == PairKey(a)[4..];
      assert b.sourceCurrency == PairKey(b)[..3] && b.destinationCurrency == PairKey(b)[4..];
    }
  }

  /** The entries paired with their keys, in order. */
  function Keyed(entries: seq<Entry>): (pairs: seq<(string, Entry)>)
    ensures |pairs| == |entries|
    ensures forall i :: 0 <= i < |entries| ==> pairs[i] == (PairKey(entries[i]), entries[i])
  {
    seq(|entries|, i requires 0 <= i < |entries| => (PairKey(entries[i]), entries[i]))
  }

  /** What the map hands back: each entry `set` under its key, then the
      values in key order. */
  function Dedup(entries: seq<Entry>): seq<Entry> {
    Values(PutAll(Keyed(entries)))
  }

  /** `parseFxql` as a function of the (already decoded) request and the
      repository. */
  function Parsed(fxql: string, save: Save): Result<seq<Entry>, FxqlError> {
    var statements := SplitStatements(fxql);
    if |statements| > MaxStatements then Failure(BadRequest(LimitMessage))
    else
      match ParseAll(statements, Parsing(save))
      case Failure(e) => Failure(e)
      case Success(entries) => Success(Dedup(entries))
  }

  /** `parseFxql`. */
  method ParseFxql(fxql: string, save: Save) returns (r: Result<seq<Entry>, FxqlError>)
    ensures r == Parsed(fxql, save)
  {
    var statements := SplitStatements(fxql);
    if |statements| > MaxStatements {
      return Failure(BadRequest(LimitMessage));
    }
    var processedPairs := new PairMap<string, Entry>();
    ghost var entries: seq<Entry> := [];
    var index := 0;
    while index < |statements|
      invariant 0 <= index <= |statements|
      invariant ParseAll(statements[..index], Parsing(save)) == Success(entries)
      invariant processedPairs.Ready() && processedPairs.Model() == PutAll(Keyed(entries))
    {
      var entry := ParseStatement(statements[index], index, save);
      ParseAllStep(statements, index, Parsing(save));
      if entry.Failure? {
        ParseAllStops(statements, index + 1, Parsing(save));
        return Failure(StatementError(entry.error, index));
      }
      processedPairs.Set(PairKey(entry.value), entry.value);
      CollectStep(entries, entry.value);
      entries := entries + [entry.value];
      index := index + 1;
    }
    assert statements[..index] == statements;
    var values := processedPairs.ValueList();
    return Success(values);
  }

  /** Writing one more entry into the map. */
  lemma CollectStep(entries: seq<Entry>, e: Entry)
    ensures PutAll(Keyed(entries + [e])) == Put(PutAll(Keyed(entries)), PairKey(e), e)
  {
    var pairs := Keyed(entries + [e]);
    assert pairs[..|entries|] == Keyed(entries);
    assert pairs[|pairs| - 1] == (PairKey(e), e);
  }

  /** One more turn of the statement loop. */
  lemma ParseAllStep(statements: seq<string>, n: nat, parse: StatementParse)
    requires n < |statements|
    ensures ParseAll(statements[..n + 1], parse) ==
      match ParseAll(statements[..n], parse)
      case Failure(e) => Failure(e)
      case Success(entries) =>
        match parse(statements[n], n)
        case Failure(e) => Failure(StatementError(e, n))
        case Success(entry) => Success(entries + [entry])
  {
    assert statements[..n + 1][..n] == statements[..n];
  }

  /** Once a prefix of the statements fails, the whole run fails with the
      same error: later statements are never parsed. */
  lemma {:induction false} ParseAllStops(statements: seq<string>, n: nat, parse: StatementParse)
    requires n <= |statements|
    requires ParseAll(statements[..n], parse).Failure?
    ensures ParseAll(statements, parse) == ParseAll(statements[..n], parse)
    decreases |statements| - n
  {
    if n < |statements| {
      var m := |statements| - 1;
      assert statements[..n] == statements[..m][..n];
      ParseAllStops(statements[..m], n, parse);
    } else {
      assert statements[..n] == statements;
    }
  }

  /** The run succeeds exactly when every statement does, and then holds
      each statement's entry at the statement's position. */
  lemma {:induction false} ParseAllSuccess(statements: seq<string>, parse: StatementParse)
    ensures ParseAll(statements, parse).Success? <==>
      forall i :: 0 <= i < |statements| ==> parse(statements[i], i).Success?
    ensures ParseAll(statements, parse).Success? ==>
      forall i :: 0 <= i < |statements| ==>
        parse(statements[i], i) == Success(ParseAll(statements, parse).value[i])
  {
    if statements != [] {
      var n := |statements| - 1;
      var init := statements[..n];
      ParseAllSuccess(init, parse);
      assert forall i :: 0 <= i < n ==> init[i] == statements[i];
    }
  }

  /** A failed run carries the error of its first failing statement, as
      the catch block passes it on. */
  lemma {:induction false} ParseAllFirstFailure(statements: seq<string>, parse: StatementParse)
    requires ParseAll(statements, parse).Failure?
    ensures exists i ::
      && 0 <= i < |statements|
      && (forall j :: 0 <= j < i ==> parse(statements[j], j).Success?)
      && parse(statements[i], i).Failure?
      && ParseAll(statements, parse).error == StatementError(parse(statements[i], i).error, i)
  {
    var n := |statements| - 1;
    var init := statements[..n];
    assert forall i :: 0 <= i < n ==> init[i] == statements[i];
    if ParseAll(init, parse).Failure? {
      ParseAllFirstFailure(init, parse);
      var i :|
        && 0 <= i < |init|
        && (forall j :: 0 <= j < i ==> parse(init[j], j).Success?)
        && parse(init[i], i).Failure?
        && ParseAll(init, parse).error == StatementError(parse(init[i], i).error, i);
      assert init[i] == statements[i];
    } else {
      ParseAllSuccess(init, parse);
      assert parse(statements[n], n).Failure?;
    }
  }

  /** Each entry handed back is the last entry written for its pair. */
  lemma DedupLast(entries: seq<Entry>, j: nat)
    requires j < |Dedup(entries)|
    ensures var out := Dedup(entries);
      exists i ::
        && 0 <= i < |entries| && out[j] == entries[i]
        && PairKey(out[j]) == PutAll(Keyed(entries)).keys[j]
        && forall k :: i < k < |entries| ==> PairKey(entries[k]) != PairKey(entries[i])
  {
    var pairs := Keyed(entries);
    var m := PutAll(pairs);
    PutAllValue(pairs, m.keys[j]);
  }

  /** No pair is handed back twice. */
  lemma DedupDistinct(entries: seq<Entry>)
    ensures var out := Dedup(entries);
      forall a, b :: 0 <= a < b < |out| ==> PairKey(out[a]) != PairKey(out[b])
  {
    var out := Dedup(entries);
    forall a, b | 0 <= a < b < |out|
      ensures PairKey(out[a]) != PairKey(out[b])
    {
      DedupLast(entries, a);
      DedupLast(entries, b);
    }
  }

  /** Every pair written is handed back, with the last entry written for
      it. */
  lemma DedupComplete(entries: seq<Entry>, i: nat)
    requires i < |entries|
    requires forall k :: i < k < |entries| ==> PairKey(entries[k]) != PairKey(entries[i])
    ensures entries[i] in Dedup(entries)
  {
    var pairs := Keyed(entries);
    var m := PutAll(pairs);
    PutAllLastWins(pairs, i);
    var j :| 0 <= j < |m.keys| && m.keys[j] == PairKey(entries[i]);
    assert Dedup(entries)[j] == entries[i];
  }

  /** The pairs come back in the order each was first written. */
  lemma DedupOrder(entries: seq<Entry>)
    ensures var out := Dedup(entries);
      forall a, b :: 0 <= a < b < |out| ==>
        FirstIndex(Keyed(entries), PairKey(out[a])) < FirstIndex(Keyed(entries), PairKey(out[b]))
  {
    var out := Dedup(entries);
    var keys := PutAll(Keyed(entries)).keys;
    PutAllOrder(Keyed(entries));
    forall a, b | 0 <= a < b < |out|
      ensures FirstIndex(Keyed(entries), PairKey(out[a])) < FirstIndex(Keyed(entries), PairKey(out[b]))
    {
      DedupLast(entries, a);
      DedupLast(entries, b);
      assert FirstIndex(Keyed(entries), keys[a]) < FirstIndex(Keyed(entries), keys[b]);
    }
  }

  /** With every pair written once, the entries come back as they were
      written. */
  lemma DedupNoRepeats(entries: seq<Entry>)
    requires forall i, j :: 0 <= i < j < |entries| ==> PairKey(entries[i]) != PairKey(entries[j])
    ensures Dedup(entries) == entries
  {
    PutAllDistinct(Keyed(entries));
  }

  /** More than 1000 statements, and only that, gives the limit error,
      whatever the statements hold. */
  lemma LimitRule(fxql: string, save: Save)
    ensures |SplitStatements(fxql)| > MaxStatements <==>
      Parsed(fxql, save) == Failure(BadRequest(LimitMessage))
  {
    var statements := SplitStatements(fxql);
    if |statements| <= MaxStatements && ParseAll(statements, Parsing(save)).Failure? {
      ParseAllFirstFailure(statements, Parsing(save));
      assert LimitMessage[0] == 'M' && StatementPrefix[0] == 'E';
    }
  }

  /** The statement loop with any statement parser: it succeeds exactly
      when each statement does, and then yields their entries in order;
      otherwise it fails with the first failing statement's error. */
  lemma ParseAllOutcome(statements: seq<string>, parse: StatementParse)
    ensures
      && (ParseAll(statements, parse).Success? <==>
            forall i :: 0 <= i < |statements| ==> parse(statements[i], i).Success?)
      && (ParseAll(statements, parse).Success? ==>
            ParseAll(statements, parse).value ==
              seq(|statements|, i requires 0 <= i < |statements| && parse(statements[i], i).Success?
                => parse(statements[i], i).value))
      && (ParseAll(statements, parse).Failure? ==>
            exists i ::
              && 0 <= i < |statements|
              && (forall j :: 0 <= j < i ==> parse(statements[j], j).Success?)
              && parse(statements[i], i).Failure?
              && ParseAll(statements, parse).error == StatementError(parse(statements[i], i).error, i))
  {
    ParseAllSuccess(statements, parse);
    if ParseAll(statements, parse).Failure? {
      ParseAllFirstFailure(statements, parse);
    }
  }

  /** A request within the limit succeeds exactly when each statement
      does, numbered from 0; the result is then the statements' entries,
      one per pair, the last written, in order of first appearance.
      Otherwise it fails with the first failing statement's error. */
  lemma ParsedOutcome(fxql: string, save: Save)
    requires |SplitStatements(fxql)| <= MaxStatements
    ensures var statements := SplitStatements(fxql);
      var parse := Parsing(save);
      && (Parsed(fxql, save).Success? <==>
            forall i :: 0 <= i < |statements| ==> parse(statements[i], i).Success?)
      && (Parsed(fxql, save).Success? ==>
            Parsed(fxql, save).value ==
              Dedup(seq(|statements|, i requires 0 <= i < |statements| && parse(statements[i], i).Success?
                => parse(statements[i], i).value)))
      && (Parsed(fxql, save).Failure? ==>
            exists i ::
              && 0 <= i < |statements|
              && (forall j :: 0 <= j < i ==> parse(statements[j], j).Success?)
              && parse(statements[i], i).Failure?
              && Parsed(fxql, save).error == StatementError(parse(statements[i], i).error, i))
  {
    ParseAllOutcome(SplitStatements(fxql), Parsing(save));
  }
}
