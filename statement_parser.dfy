/** The statement and field parser of the FXQL engine (`parseStatement`,
    `parseValues` and `isValidCurrency`, src/fxql.service.ts). A statement
    must open with `XXX-YYY {`; its BUY, SELL and CAP values are then looked
    up, in that order, by the first `FIELD <whitespace> <number>` in it. The
    source's regular expressions are written out as recognisers, and the
    numbers it parses are kept as exact decimals. */
module StatementParser {
  import opened Results
  import opened JsStrings
  import opened ParserUtils

  /** A number as an exact decimal: `mantissa` times ten to the power
      `-scale`. `0.90` is Number(90, 2). */
  datatype Number = Number(mantissa: int, scale: nat)

  /** One parsed quote: an FxqlEntry without the columns the database fills
      in (EntryId, createdAt). */
  datatype Entry = Entry(
    sourceCurrency: string,
    destinationCurrency: string,
    buyPrice: Number,
    sellPrice: Number,
    capAmount: Number)

  /** What `parseStatement` can throw: the structured parse error, or a
      BadRequestException carrying the message of any other error. */
  datatype FxqlError = ParseFailed(error: FxqlParseError) | BadRequest(message: string)

  /** The repository's `save`, which the model cannot see: None when it
      stores the entry, Some(message) when it throws. */
  type Save = Entry -> Option<string>

  const InvalidPairFormat := "Invalid currency pair format"

  function InvalidCurrencyMessage(code: string): string {
    "Invalid currency code: " + code
  }

  function MissingFieldMessage(field: string): string {
    "Missing or invalid " + field + " value"
  }

  function InvalidFieldMessage(field: string, literal: string): string {
    "Invalid " + field + " value: " + literal
  }

  // ---------------------------------------------------------------------
  // The currency pair: /^([A-Z]{3})-([A-Z]{3})\s*{/

  /** What the pair expression captures: the whole match and its two
      groups. */
  datatype PairMatch = PairMatch(whole: string, source: string, destination: string)

  function MatchPair(statement: string): (m: Option<PairMatch>)
  {
    if && |statement| >= 7
       && IsUpper(statement[0]) && IsUpper(statement[1]) && IsUpper(statement[2])
       && statement[3] == '-'
       && IsUpper(statement[4]) && IsUpper(statement[5]) && IsUpper(statement[6])
    then
      var brace := SkipWhile(statement, 7, IsWhitespace);
      if brace < |statement| && statement[brace] == '{' then
        Some(PairMatch(statement[..brace + 1], statement[..3], statement[4..7]))
      else None
    else None
  }

  /** `/^[A-Z]{3}$/.test(currency)` */
  predicate IsValidCurrency(currency: string) {
    |currency| == 3 && forall i :: 0 <= i < 3 ==> IsUpper(currency[i])
  }

  /** The statement opens the way the pair expression asks: three capital
      letters, a hyphen, three capital letters, any whitespace, then `{`. */
  predicate OpensWithPair(statement: string) {
    && |statement| >= 8
    && IsValidCurrency(statement[..3]) && statement[3] == '-' && IsValidCurrency(statement[4..7])
    && exists brace :: 7 <= brace < |statement| && AllWhitespace(statement[7..brace]) && statement[brace] == '{'
  }

  /** The recogniser matches exactly the statements the expression
      matches, and captures the two codes and the text up to the brace. */
  lemma MatchPairIff(statement: string)
    ensures MatchPair(statement).Some? <==> OpensWithPair(statement)
    ensures MatchPair(statement).Some? ==>
      var m := MatchPair(statement).value;
      && m.source == statement[..3] && m.destination == statement[4..7]
      && statement[..|m.whole|] == m.whole
  {
    if OpensWithPair(statement) {
      PairOpeningMatches(statement);
    }
    if MatchPair(statement).Some? {
      var brace := SkipWhile(statement, 7, IsWhitespace);
      assert AllWhitespace(statement[7..brace]);
    }
  }

  lemma PairOpeningMatches(statement: string)
    requires OpensWithPair(statement)
    ensures MatchPair(statement).Some?
  {
    var brace :| 7 <= brace < |statement| && AllWhitespace(statement[7..brace]) && statement[brace] == '{';
    assert statement[..3][0] == statement[0] && statement[..3][1] == statement[1] && statement[..3][2] == statement[2];
    assert statement[4..7][0] == statement[4] && statement[4..7][1] == statement[5] && statement[4..7][2] == statement[6];
    forall k | 7 <= k < brace
      ensures IsWhitespace(statement[k])
    {
      assert statement[k] == statement[7..brace][k - 7];
    }
    SkipWhileIs(statement, 7, brace, IsWhitespace);
  }

  /** The currency-code check after a match never fails: each captured
      group is three capital letters by construction. */
  lemma CurrencyCheckNeverFails(statement: string)
    requires MatchPair(statement).Some?
    ensures IsValidCurrency(MatchPair(statement).value.source)
    ensures IsValidCurrency(MatchPair(statement).value.destination)
  {
  }

  /** The malformed pairs of the test suite: a two-letter code, a
      four-letter code, lower-case letters. */
  lemma MalformedPairsRejected(rest: string)
    ensures MatchPair("US-GBP" + rest).None?
    ensures MatchPair("USDD-GBP" + rest).None?
    ensures MatchPair("usd-gbp" + rest).None?
  {
    assert ("US-GBP" + rest)[2] == '-';
    assert ("USDD-GBP" + rest)[3] == 'D';
    assert ("usd-gbp" + rest)[0] == 'u';
  }

  // ---------------------------------------------------------------------
  // A field: new RegExp(`${field}\\s+(\\d+(?:\\.\\d+)?)`)

  /** `\d+(\.\d+)?` as a whole string. */
  predicate IsNumericLiteral(literal: string) {
    var i := SkipWhile(literal, 0, IsDigit);
    i > 0 && (i == |literal| || (i + 1 < |literal| && literal[i] == '.' && AllDigits(literal[i + 1..])))
  }

  function IntegerDigits(literal: string): (d: string)
    ensures AllDigits(d)
  {
    literal[..SkipWhile(literal, 0, IsDigit)]
  }

  function FractionDigits(literal: string): (d: string)
    requires IsNumericLiteral(literal)
    ensures AllDigits(d)
  {
    var i := SkipWhile(literal, 0, IsDigit);
    if i < |literal| then literal[i + 1..] else []
  }

  /** Where the greedy `\d+(?:\.\d+)?` that starts at `digits` ends: the
      digit run, and the fraction only when a dot and a digit follow it. */
  function LiteralEnd(statement: string, digits: nat): (end: nat)
    requires digits <= |statement|
    ensures digits <= end <= |statement|
  {
    var point := SkipWhile(statement, digits, IsDigit);
    if point + 1 < |statement| && statement[point] == '.' && IsDigit(statement[point + 1])
    then SkipWhile(statement, point + 1, IsDigit)
    else point
  }

  /** The field expression tried at exactly `p`: the captured number, or
      None. `\s+` and `\d+` are greedy, and the fraction is taken when a
      dot and a digit follow; no backtracking can change the outcome,
      because the rest of the expression is optional. */
  function FieldMatchAt(statement: string, field: string, p: nat): (literal: Option<string>)
  {
    if OccursAt(statement, field, p) then
      var afterName := p + |field|;
      var digits := SkipWhile(statement, afterName, IsWhitespace);
      if digits > afterName && digits < |statement| && IsDigit(statement[digits]) then
        Some(statement[digits..LiteralEnd(statement, digits)])
      else None
    else None
  }

  /** A match of the field expression: where it starts and what it
      captured. */
  datatype FieldMatch = FieldMatch(at: nat, literal: string)

  /** `statement.match(regex)` from position `p` on: the leftmost match. */
  function FindFieldFrom(statement: string, field: string, p: nat): Option<FieldMatch>
    requires p <= |statement|
    decreases |statement| - p
  {
    match FieldMatchAt(statement, field, p)
    case Some(literal) => Some(FieldMatch(p, literal))
    case None => if p == |statement| then None else FindFieldFrom(statement, field, p + 1)
  }

  /** The search finds the leftmost position where the field expression
      matches, and None only when it matches nowhere. */
  lemma {:induction false} FindFieldFromLeftmost(statement: string, field: string, p: nat)
    requires p <= |statement|
    ensures var m := FindFieldFrom(statement, field, p);
      && (m.Some? ==>
            && p <= m.value.at <= |statement|
            && FieldMatchAt(statement, field, m.value.at) == Some(m.value.literal))
      && forall k :: p <= k <= |statement| && (m.None? || k < m.value.at) ==>
           FieldMatchAt(statement, field, k).None?
    decreases |statement| - p
  {
    var here := FieldMatchAt(statement, field, p);
    if here.None? && p < |statement| {
      FindFieldFromLeftmost(statement, field, p + 1);
      var m := FindFieldFrom(statement, field, p + 1);
      assert FindFieldFrom(statement, field, p) == m;
      forall k | p <= k <= |statement| && (m.None? || k < m.value.at)
        ensures FieldMatchAt(statement, field, k).None?
      {
        if k > p {
          assert p + 1 <= k;
        }
      }
    }
  }

  function FindField(statement: string, field: string): Option<FieldMatch> {
    FindFieldFrom(statement, field, 0)
  }

  /** Digits from `lo` to `point`, then either nothing or a dot and at
      least one more digit up to `hi`, form a decimal literal. */
  lemma DecimalSlice(s: string, lo: nat, point: nat, hi: nat)
    requires lo < point <= hi <= |s|
    requires forall k :: lo <= k < point ==> IsDigit(s[k])
    requires point == hi || (point + 1 < hi && s[point] == '.' && forall k :: point + 1 <= k < hi ==> IsDigit(s[k]))
    ensures IsNumericLiteral(s[lo..hi])
  {
    var literal := s[lo..hi];
    var i := point - lo;
    forall k | 0 <= k < i
      ensures IsDigit(literal[k])
    {
      assert literal[k] == s[lo + k];
    }
    if point < hi {
      assert literal[i] == s[point];
      var rest := literal[i + 1..];
      forall k | 0 <= k < |rest|
        ensures IsDigit(rest[k])
      {
        assert rest[k] == s[point + 1 + k];
      }
    }
    SkipWhileIs(literal, 0, i, IsDigit);
  }

  /** What the field expression captures is always a plain decimal
      literal: digits, then optionally a dot and more digits. */
  lemma FieldLiteralIsNumeric(statement: string, field: string, p: nat)
    requires FieldMatchAt(statement, field, p).Some?
    ensures IsNumericLiteral(FieldMatchAt(statement, field, p).value)
  {
    var digits := SkipWhile(statement, p + |field|, IsWhitespace);
    var point := SkipWhile(statement, digits, IsDigit);
    var end := LiteralEnd(statement, digits);
    assert FieldMatchAt(statement, field, p).value == statement[digits..end];
    assert IsDigit(statement[digits]);
    DecimalSlice(statement, digits, point, end);
  }

  /** The field expression matching at `p` with its capture from `d` to
      `e`: the name at `p`, at least one whitespace character up to `d`, a
      decimal literal from `d` to `e`, and after it nothing that the greedy
      `\d+` or the optional fraction would still take. */
  predicate FieldMatchShape(statement: string, field: string, p: nat, d: nat, e: nat) {
    && OccursAt(statement, field, p)
    && p + |field| < d <= e <= |statement|
    && (forall k :: p + |field| <= k < d ==> IsWhitespace(statement[k]))
    && IsNumericLiteral(statement[d..e])
    && (e == |statement| || !IsDigit(statement[e]))
    && ('.' !in statement[d..e] ==>
          !(e + 1 < |statement| && statement[e] == '.' && IsDigit(statement[e + 1])))
  }

  lemma FieldMatchHasShape(statement: string, field: string, p: nat) returns (d: nat, e: nat)
    requires FieldMatchAt(statement, field, p).Some?
    ensures FieldMatchShape(statement, field, p, d, e)
    ensures FieldMatchAt(statement, field, p).value == statement[d..e]
  {
    d := SkipWhile(statement, p + |field|, IsWhitespace);
    var point := SkipWhile(statement, d, IsDigit);
    e := LiteralEnd(statement, d);
    assert FieldMatchAt(statement, field, p).value == statement[d..e];
    FieldLiteralIsNumeric(statement, field, p);
    if e != point {
      assert statement[d..e][point - d] == '.';
    }
  }

  /** Inside a statement, the digit run of a literal starting at `d` ends
      where the literal's own integer digits end. */
  lemma IntegerRunIn(statement: string, d: nat, e: nat)
    requires d < e <= |statement| && IsNumericLiteral(statement[d..e])
    requires e == |statement| || !IsDigit(statement[e])
    ensures SkipWhile(statement, d, IsDigit) == d + SkipWhile(statement[d..e], 0, IsDigit)
  {
    var literal := statement[d..e];
    var i := SkipWhile(literal, 0, IsDigit);
    forall k | d <= k < d + i
      ensures IsDigit(statement[k])
    {
      assert statement[k] == literal[k - d];
    }
    if i < |literal| {
      assert statement[d + i] == literal[i];
    }
    SkipWhileIs(statement, d, d + i, IsDigit);
  }

  /** Inside a statement, the greedy `\d+(?:\.\d+)?` from `d` ends at `e`
      when a literal runs from `d` to `e` and nothing after it extends it. */
  lemma LiteralRunIn(statement: string, d: nat, e: nat)
    requires d < e <= |statement| && IsNumericLiteral(statement[d..e])
    requires e == |statement| || !IsDigit(statement[e])
    requires '.' !in statement[d..e] ==>
      !(e + 1 < |statement| && statement[e] == '.' && IsDigit(statement[e + 1]))
    ensures LiteralEnd(statement, d) == e
  {
    var literal := statement[d..e];
    var i := SkipWhile(literal, 0, IsDigit);
    IntegerRunIn(statement, d, e);
    if i == |literal| {
      assert '.' !in literal by {
        assert AllDigits(literal);
      }
    } else {
      assert statement[d + i] == literal[i];
      var fraction := literal[i + 1..];
      assert statement[d + i + 1] == fraction[0];
      forall k | d + i + 1 <= k < e
        ensures IsDigit(statement[k])
      {
        assert statement[k] == fraction[k - (d + i + 1)];
      }
      SkipWhileIs(statement, d + i + 1, e, IsDigit);
    }
  }

  lemma ShapeIsFieldMatch(statement: string, field: string, p: nat, d: nat, e: nat)
    requires FieldMatchShape(statement, field, p, d, e)
    ensures FieldMatchAt(statement, field, p) == Some(statement[d..e])
  {
    var literal := statement[d..e];
    assert IsDigit(statement[d]) by {
      assert statement[d] == literal[0];
    }
    SkipWhileIs(statement, p + |field|, d, IsWhitespace);
    LiteralRunIn(statement, d, e);
  }

  /** The field expression `FIELD\s+(\d+(?:\.\d+)?)` matches at `p` and
      captures `literal` exactly when the statement has that shape there:
      both the positions that match and the longest literal captured. */
  lemma FieldMatchAtIff(statement: string, field: string, p: nat, literal: string)
    ensures FieldMatchAt(statement, field, p) == Some(literal) <==>
      exists d: nat, e: nat :: FieldMatchShape(statement, field, p, d, e) && literal == statement[d..e]
  {
    if FieldMatchAt(statement, field, p) == Some(literal) {
      var d, e := FieldMatchHasShape(statement, field, p);
    }
    forall d: nat, e: nat | FieldMatchShape(statement, field, p, d, e)
      ensures FieldMatchAt(statement, field, p) == Some(statement[d..e])
    {
      ShapeIsFieldMatch(statement, field, p, d, e);
    }
  }

  /** A decimal price from the test suite is captured whole. */
  lemma FieldMatchBuyExample()
    ensures FieldMatchAt("BUY 0.85", "BUY", 0) == Some("0.85")
  {
    var s := "BUY 0.85";
    assert s[0..3] == "BUY" && s[3] == ' ';
    assert s[4..8] == "0.85";
    SkipWhileIs("0.85", 0, 1, IsDigit);
    assert "0.85"[2..] == "85";
    assert FieldMatchShape(s, "BUY", 0, 4, 8);
    ShapeIsFieldMatch(s, "BUY", 0, 4, 8);
  }

  /** A whole amount after several spaces is captured whole. */
  lemma FieldMatchCapExample()
    ensures FieldMatchAt("CAP  93800", "CAP", 0) == Some("93800")
  {
    var s := "CAP  93800";
    assert s[0..3] == "CAP" && s[3] == ' ' && s[4] == ' ';
    assert s[5..10] == "93800";
    SkipWhileIs("93800", 0, 5, IsDigit);
    assert FieldMatchShape(s, "CAP", 0, 5, 10);
    ShapeIsFieldMatch(s, "CAP", 0, 5, 10);
  }

  /** A field name whose whitespace is followed by anything but a digit
      (a sign, a letter) does not match there. */
  lemma NoDigitNoMatch(statement: string, field: string, p: nat)
    requires OccursAt(statement, field, p)
    requires var digits := SkipWhile(statement, p + |field|, IsWhitespace);
      digits == |statement| || !IsDigit(statement[digits])
    ensures FieldMatchAt(statement, field, p).None?
  {
  }

  // ---------------------------------------------------------------------
  // parseInt and parseFloat

  /** Where a number starts after leading whitespace and an optional sign:
      whether it is negative, and the index of its first digit. */
  function SignEnd(text: string): (r: (bool, nat))
    ensures r.1 <= |text|
  {
    var i := SkipWhile(text, 0, IsWhitespace);
    if i < |text| && (text[i] == '-' || text[i] == '+') then (text[i] == '-', i + 1) else (false, i)
  }

  /** `parseInt(text, 10)`: leading whitespace, an optional sign, then the
      longest run of digits; None (NaN) when there is no digit. */
  function ParseInt(text: string): Option<int> {
    var (negative, j) := SignEnd(text);
    var k := SkipWhile(text, j, IsDigit);
    if k == j then None
    else
      assert AllDigits(text[j..k]);
      var magnitude: int := DigitsValue(text[j..k]);
      Some(if negative then -magnitude else magnitude)
  }

  /** `parseFloat(text)` for decimal notation: leading whitespace, an
      optional sign, digits, and a fraction after a dot; None (NaN) when
      there is no digit on either side of the dot. */
  function ParseFloat(text: string): Option<Number> {
    var (negative, j) := SignEnd(text);
    var k := SkipWhile(text, j, IsDigit);
    var f := if k < |text| && text[k] == '.' then SkipWhile(text, k + 1, IsDigit) else k;
    var fraction := if f > k then text[k + 1..f] else [];
    if k == j && fraction == [] then None
    else
      assert AllDigits(text[j..k] + fraction);
      var magnitude: int := DigitsValue(text[j..k] + fraction);
      Some(Number(if negative then -magnitude else magnitude, |fraction|))
  }

  /** On a decimal literal neither parse yields NaN or a negative number:
      `parseInt` keeps the integer digits (a fraction is cut off) and
      `parseFloat` keeps all the digits, scaled by the fraction's length. */
  lemma ParseNumericLiteral(literal: string)
    requires IsNumericLiteral(literal)
    ensures ParseInt(literal) == Some(DigitsValue(IntegerDigits(literal)))
    ensures ParseFloat(literal)
      == Some(Number(DigitsValue(IntegerDigits(literal) + FractionDigits(literal)), |FractionDigits(literal)|))
  {
    UnsignedStart(literal);
    var i := SkipWhile(literal, 0, IsDigit);
    if i < |literal| {
      forall k | i + 1 <= k < |literal|
        ensures IsDigit(literal[k])
      {
        assert literal[k] == literal[i + 1..][k - (i + 1)];
      }
      SkipWhileIs(literal, i + 1, |literal|, IsDigit);
      assert literal[i + 1..|literal|] == FractionDigits(literal);
    }
  }

  /** A literal that starts with a digit has no whitespace and no sign. */
  lemma UnsignedStart(literal: string)
    requires |literal| > 0 && IsDigit(literal[0])
    ensures SignEnd(literal) == (false, 0)
  {
    SkipWhileIs(literal, 0, 0, IsWhitespace);
  }

  // ---------------------------------------------------------------------
  // parseValues

  /** The fields, in the order they are looked up. */
  const Fields: seq<string> := ["BUY", "SELL", "CAP"]

  /** The property a field's value is stored under: the name capitalised,
      then `Price`, or `Amount` for CAP. */
  function ValueKey(field: string): (key: string)
    requires |field| >= 1
    ensures field == "BUY" ==> key == "BuyPrice"
    ensures field == "SELL" ==> key == "SellPrice"
    ensures field == "CAP" ==> key == "CapAmount"
  {
    var name := [UpperChar(field[0])] + LowerCase(field[1..]);
    var suffix := if field != "CAP" then "Price" else "Amount";
    var key := name + suffix;
    assert field == "BUY" ==> name == "Buy";
    assert field == "SELL" ==> name == "Sell";
    assert field == "CAP" ==> name == "Cap";
    key
  }

  /** The offset a missing field is reported at: where its name first
      occurs, or the end of the statement. */
  function MissingFieldIndex(statement: string, field: string): (index: nat)
    ensures index <= |statement|
    ensures Contains(statement, field) ==>
      OccursAt(statement, field, index) && forall j :: 0 <= j < index ==> !OccursAt(statement, field, j)
    ensures !Contains(statement, field) ==> index == |statement|
  {
    if IndexOf(statement, field) != -1 then IndexOf(statement, field) else |statement|
  }

  /** The error for a field with no match. The line and column are those of
      the offset plus the statement's ordinal; the snippet is taken at the
      offset alone. */
  function MissingFieldError(statement: string, ordinal: nat, field: string): FxqlParseError {
    var errorIndex := MissingFieldIndex(statement, field);
    var pos := FindPosition(statement, errorIndex + ordinal);
    FxqlParseError(MissingFieldMessage(field), pos.line, pos.column, ContextSnippet(statement, errorIndex))
  }

  /** The number a field's literal parses to: `parseInt` for CAP,
      `parseFloat` for the prices; None for NaN. */
  function FieldNumber(field: string, literal: string): Option<Number> {
    if field == "CAP" then
      match ParseInt(literal)
      case Some(n) => Some(Number(n, 0))
      case None => None
    else ParseFloat(literal)
  }

  /** The error for a field whose number is NaN, or a negative CAP. */
  function InvalidFieldError(statement: string, ordinal: nat, field: string, literal: string): FxqlParseError {
    var errorIndex := IndexOf(statement, literal);
    var pos := FindPosition(statement, errorIndex + ordinal);
    FxqlParseError(InvalidFieldMessage(field, literal), pos.line, pos.column, ContextSnippet(statement, errorIndex))
  }

  /** One turn of the field loop: match the field, parse its number and
      check it. */
  function FieldValue(statement: string, ordinal: nat, field: string): Result<Number, FxqlParseError> {
    match FindField(statement, field)
    case None => Failure(MissingFieldError(statement, ordinal, field))
    case Some(m) =>
      var value := FieldNumber(field, m.literal);
      if value.None? || (field == "CAP" && value.value.mantissa < 0) then
        Failure(InvalidFieldError(statement, ordinal, field, m.literal))
      else Success(value.value)
  }

  /** A field succeeds exactly when its expression matches, and fails only
      as missing: the "Invalid value" branch never fires. BUY and SELL keep
      every digit of the literal, however many decimals it has; CAP keeps
      the integer digits only. */
  lemma FieldValueOutcome(statement: string, ordinal: nat, field: string)
    ensures FieldValue(statement, ordinal, field).Success? <==> FindField(statement, field).Some?
    ensures FieldValue(statement, ordinal, field).Failure? ==>
      FieldValue(statement, ordinal, field).error == MissingFieldError(statement, ordinal, field)
    ensures FindField(statement, field).Some? ==>
      var literal := FindField(statement, field).value.literal;
      && IsNumericLiteral(literal)
      && FieldValue(statement, ordinal, field).value ==
           if field == "CAP" then Number(DigitsValue(IntegerDigits(literal)), 0)
           else Number(DigitsValue(IntegerDigits(literal) + FractionDigits(literal)), |FractionDigits(literal)|)
  {
    match FindField(statement, field)
    case None =>
    case Some(m) =>
      FindFieldFromLeftmost(statement, field, 0);
      FieldLiteralIsNumeric(statement, field, m.at);
      ParseNumericLiteral(m.literal);
  }

  /** A field whose only occurrence is followed, after whitespace, by a
      sign or a letter (`CAP -10000`, `SELL abc`) is reported as missing,
      at the offset of its name plus the statement's ordinal. */
  lemma NonNumericFieldIsMissing(statement: string, ordinal: nat, field: string, p: nat)
    requires OccursAt(statement, field, p)
    requires forall k :: k != p ==> !OccursAt(statement, field, k)
    requires var digits := SkipWhile(statement, p + |field|, IsWhitespace);
      digits == |statement| || !IsDigit(statement[digits])
    ensures var pos := FindPosition(statement, p + ordinal);
      FieldValue(statement, ordinal, field)
        == Failure(FxqlParseError(MissingFieldMessage(field), pos.line, pos.column, ContextSnippet(statement, p)))
  {
    OnlyOccurrenceNoMatch(statement, field, p);
    OnlyOccurrenceIndex(statement, field, p);
    MissingFieldAt(statement, ordinal, field, p);
  }

  lemma MissingFieldAt(statement: string, ordinal: nat, field: string, p: nat)
    requires FindField(statement, field).None? && MissingFieldIndex(statement, field) == p
    ensures var pos := FindPosition(statement, p + ordinal);
      FieldValue(statement, ordinal, field)
        == Failure(FxqlParseError(MissingFieldMessage(field), pos.line, pos.column, ContextSnippet(statement, p)))
  {
    assert FieldValue(statement, ordinal, field) == Failure(MissingFieldError(statement, ordinal, field));
  }

  lemma OnlyOccurrenceNoMatch(statement: string, field: string, p: nat)
    requires OccursAt(statement, field, p)
    requires forall k :: k != p ==> !OccursAt(statement, field, k)
    requires var digits := SkipWhile(statement, p + |field|, IsWhitespace);
      digits == |statement| || !IsDigit(statement[digits])
    ensures FindField(statement, field).None?
  {
    forall k | 0 <= k <= |statement|
      ensures FieldMatchAt(statement, field, k).None?
    {
      if k == p {
        NoDigitNoMatch(statement, field, p);
      }
    }
    FindFieldFromLeftmost(statement, field, 0);
  }

  lemma OnlyOccurrenceIndex(statement: string, field: string, p: nat)
    requires OccursAt(statement, field, p)
    requires forall k :: k != p ==> !OccursAt(statement, field, k)
    ensures MissingFieldIndex(statement, field) == p
  {
    assert Contains(statement, field);
  }

  /** `parseValues`, as a function of the statement: the values of BUY,
      SELL and CAP under their property names, or the error of the first of
      them, in that order, that fails. */
  function FieldValues(statement: string, ordinal: nat): (r: Result<map<string, Number>, FxqlParseError>)
    ensures r.Success? ==> r.value.Keys == {"BuyPrice", "SellPrice", "CapAmount"}
  {
    match FieldValue(statement, ordinal, "BUY")
    case Failure(e) => Failure(e)
    case Success(buy) =>
      match FieldValue(statement, ordinal, "SELL")
      case Failure(e) => Failure(e)
      case Success(sell) =>
        match FieldValue(statement, ordinal, "CAP")
        case Failure(e) => Failure(e)
        case Success(cap) => Success(map["BuyPrice" := buy, "SellPrice" := sell, "CapAmount" := cap])
  }

  /** The fields are checked in the order BUY, SELL, CAP: the values are
      there exactly when all three match, and otherwise the error is that of
      the first field without a match. */
  lemma FieldValuesOrder(statement: string, ordinal: nat)
    ensures var r := FieldValues(statement, ordinal);
      var buy, sell, cap := FindField(statement, "BUY"), FindField(statement, "SELL"), FindField(statement, "CAP");
      && (r.Success? <==> buy.Some? && sell.Some? && cap.Some?)
      && (buy.None? ==> r == Failure(MissingFieldError(statement, ordinal, "BUY")))
      && (buy.Some? && sell.None? ==> r == Failure(MissingFieldError(statement, ordinal, "SELL")))
      && (buy.Some? && sell.Some? && cap.None? ==> r == Failure(MissingFieldError(statement, ordinal, "CAP")))
  {
    FieldValueOutcome(statement, ordinal, "BUY");
    FieldValueOutcome(statement, ordinal, "SELL");
    FieldValueOutcome(statement, ordinal, "CAP");
  }

  /** The field loop from some point on: the fields still to be read and
      the values read so far. */
  function ValuesFrom(statement: string, ordinal: nat, fields: seq<string>, values: map<string, Number>)
    : Result<map<string, Number>, FxqlParseError>
    requires forall j :: 0 <= j < |fields| ==> |fields[j]| >= 1
  {
    if fields == [] then Success(values)
    else match FieldValue(statement, ordinal, fields[0])
      case Failure(e) => Failure(e)
      case Success(v) => ValuesFrom(statement, ordinal, fields[1..], values[ValueKey(fields[0]) := v])
  }

  lemma SliceCons<T>(xs: seq<T>, i: nat)
    requires i < |xs|
    ensures xs[i..] == [xs[i]] + xs[i + 1..]
  {
  }

  /** One field more of the loop. */
  lemma ValuesFromCons(statement: string, ordinal: nat, field: string, rest: seq<string>, values: map<string, Number>)
    requires |field| >= 1 && forall j :: 0 <= j < |rest| ==> |rest[j]| >= 1
    ensures ValuesFrom(statement, ordinal, [field] + rest, values) ==
      match FieldValue(statement, ordinal, field)
      case Failure(e) => Failure(e)
      case Success(v) => ValuesFrom(statement, ordinal, rest, values[ValueKey(field) := v])
  {
    assert ([field] + rest)[0] == field && ([field] + rest)[1..] == rest;
  }

  /** The loop run over all three fields is `FieldValues`. */
  lemma ValuesFromFields(statement: string, ordinal: nat)
    ensures ValuesFrom(statement, ordinal, Fields, map[]) == FieldValues(statement, ordinal)
  {
    var sellCap: seq<string> := ["SELL", "CAP"];
    var cap: seq<string> := ["CAP"];
    assert Fields == ["BUY"] + sellCap && sellCap == ["SELL"] + cap && cap == ["CAP"] + [];
    ValuesFromCons(statement, ordinal, "BUY", sellCap, map[]);
    match FieldValue(statement, ordinal, "BUY")
    case Failure(_) =>
    case Success(buy) =>
      var afterBuy := map["BuyPrice" := buy];
      ValuesFromCons(statement, ordinal, "SELL", cap, afterBuy);
      match FieldValue(statement, ordinal, "SELL")
      case Failure(_) =>
      case Success(sell) =>
        var afterSell := afterBuy["SellPrice" := sell];
        ValuesFromCons(statement, ordinal, "CAP", [], afterSell);
  }

  /** `parseValues`: the loop over BUY, SELL and CAP that fills the values
      record and stops at the first field that fails. */
  method ParseValues(statement: string, ordinal: nat) returns (r: Result<map<string, Number>, FxqlParseError>)
    ensures r == FieldValues(statement, ordinal)
  {
    var values: map<string, Number> := map[];
    var i := 0;
    while i < |Fields|
      invariant 0 <= i <= |Fields|
      invariant ValuesFrom(statement, ordinal, Fields[i..], values) == ValuesFrom(statement, ordinal, Fields, map[])
    {
      var field := Fields[i];
      var value := FieldValue(statement, ordinal, field);
      SliceCons(Fields, i);
      ValuesFromCons(statement, ordinal, field, Fields[i + 1..], values);
      if value.Failure? {
        ValuesFromFields(statement, ordinal);
        return Failure(value.error);
      }
      values := values[ValueKey(field) := value.value];
      i := i + 1;
    }
    ValuesFromFields(statement, ordinal);
    return Success(values);
  }

  // ---------------------------------------------------------------------
  // parseStatement

  /** `parseStatement`, as a function of the statement, its 0-based ordinal
      and the repository's `save`. */
  function StatementResult(statement: string, ordinal: nat, save: Save): (r: Result<Entry, FxqlError>)
  {
    match MatchPair(statement)
    case None =>
      var pos := FindPosition(statement, 0);
      Failure(ParseFailed(FxqlParseError(InvalidPairFormat, pos.line, pos.column, ContextSnippet(statement, 0))))
    case Some(m) =>
      if !IsValidCurrency(m.source) || !IsValidCurrency(m.destination) then
        var errorIndex := IndexOf(statement, m.whole);
        var pos := FindPosition(statement, errorIndex);
        var code := if !IsValidCurrency(m.source) then m.source else m.destination;
        Failure(ParseFailed(FxqlParseError(
          InvalidCurrencyMessage(code), pos.line, pos.column, ContextSnippet(statement, errorIndex))))
      else
        match FieldValues(statement, ordinal)
        case Failure(e) => Failure(ParseFailed(e))
        case Success(values) =>
          var entry := Entry(m.source, m.destination, values["BuyPrice"], values["SellPrice"], values["CapAmount"]);
          match save(entry)
          case Some(message) => Failure(BadRequest(message))
          case None => Success(entry)
  }

  /** A statement that does not open with a currency pair fails with
      "Invalid currency pair format" at line 1, column 1, whatever its
      ordinal, and only such a statement fails that way. */
  lemma PairFormatFailure(statement: string, ordinal: nat, save: Save)
    ensures MatchPair(statement).None? <==>
      StatementResult(statement, ordinal, save)
        == Failure(ParseFailed(FxqlParseError(InvalidPairFormat, 1, 1, ContextSnippet(statement, 0))))
  {
    if MatchPair(statement).None? {
      FindPositionEdges(statement, 0);
    } else {
      CurrencyCheckNeverFails(statement);
      FieldValuesOrder(statement, ordinal);
      assert InvalidPairFormat[0] == 'I';
      assert forall field :: MissingFieldMessage(field)[0] == 'M';
    }
  }

  /** No statement fails with "Invalid currency code": a parse error is
      either the pair format or a missing field, and a field error is the
      statement's error exactly when the pair matched. */
  lemma StatementParseErrors(statement: string, ordinal: nat, save: Save)
    ensures var r := StatementResult(statement, ordinal, save);
      && (r.Failure? && r.error.ParseFailed? ==>
            || r.error.error.message == InvalidPairFormat
            || r.error.error.message == MissingFieldMessage("BUY")
            || r.error.error.message == MissingFieldMessage("SELL")
            || r.error.error.message == MissingFieldMessage("CAP"))
      && (MatchPair(statement).Some? && FieldValues(statement, ordinal).Failure? ==>
            r == Failure(ParseFailed(FieldValues(statement, ordinal).error)))
  {
    if MatchPair(statement).Some? {
      CurrencyCheckNeverFails(statement);
      FieldValuesOrder(statement, ordinal);
    }
  }

  /** An entry is built only from a statement that opens with a pair and
      has all three fields, and only when the repository accepts it; it
      carries the two codes from the head of the statement and the three
      field values, CAP as a whole number, none of them negative. Once the
      pair and the fields match, only the repository can make the
      statement fail. */
  lemma StatementEntry(statement: string, ordinal: nat, save: Save)
    ensures var r := StatementResult(statement, ordinal, save);
      && (r.Success? ==>
            && MatchPair(statement).Some?
            && FindField(statement, "BUY").Some? && FindField(statement, "SELL").Some?
            && FindField(statement, "CAP").Some?
            && save(r.value).None?
            && r.value.sourceCurrency == statement[..3]
            && r.value.destinationCurrency == statement[4..7]
            && IsValidCurrency(r.value.sourceCurrency) && IsValidCurrency(r.value.destinationCurrency)
            && FieldValue(statement, ordinal, "BUY") == Success(r.value.buyPrice)
            && FieldValue(statement, ordinal, "SELL") == Success(r.value.sellPrice)
            && FieldValue(statement, ordinal, "CAP") == Success(r.value.capAmount)
            && r.value.capAmount.scale == 0
            && r.value.buyPrice.mantissa >= 0 && r.value.sellPrice.mantissa >= 0
            && r.value.capAmount.mantissa >= 0)
      && (&& MatchPair(statement).Some?
          && FindField(statement, "BUY").Some? && FindField(statement, "SELL").Some?
          && FindField(statement, "CAP").Some?
          ==> r.Success? || r.error.BadRequest?)
  {
    if MatchPair(statement).Some? {
      MatchPairIff(statement);
      CurrencyCheckNeverFails(statement);
      FieldValuesOrder(statement, ordinal);
      FieldValueOutcome(statement, ordinal, "BUY");
      FieldValueOutcome(statement, ordinal, "SELL");
      FieldValueOutcome(statement, ordinal, "CAP");
    }
  }

  /** The success path: once the pair and all three fields match, the
      entry is built from the head's two codes and the three field values
      and handed to the repository; the statement yields that entry when
      the repository accepts it, and a bad request carrying the
      repository's own message when it does not. */
  lemma StatementAccepted(statement: string, ordinal: nat, save: Save)
    requires MatchPair(statement).Some?
    requires FindField(statement, "BUY").Some? && FindField(statement, "SELL").Some?
    requires FindField(statement, "CAP").Some?
    ensures |statement| >= 7
    ensures FieldValue(statement, ordinal, "BUY").Success? && FieldValue(statement, ordinal, "SELL").Success?
    ensures FieldValue(statement, ordinal, "CAP").Success?
    ensures var e := Entry(statement[..3], statement[4..7],
        FieldValue(statement, ordinal, "BUY").value, FieldValue(statement, ordinal, "SELL").value,
        FieldValue(statement, ordinal, "CAP").value);
      StatementResult(statement, ordinal, save)
        == if save(e).None? then Success(e) else Failure(BadRequest(save(e).value))
  {
    MatchPairIff(statement);
    CurrencyCheckNeverFails(statement);
    FieldValueOutcome(statement, ordinal, "BUY");
    FieldValueOutcome(statement, ordinal, "SELL");
    FieldValueOutcome(statement, ordinal, "CAP");
  }

  /** `parseStatement`: match the pair, check the codes, parse the values,
      build the entry and hand it to the repository. */
  method ParseStatement(statement: string, ordinal: nat, save: Save) returns (r: Result<Entry, FxqlError>)
    ensures r == StatementResult(statement, ordinal, save)
  {
    var m := MatchPair(statement);
    if m.None? {
      var pos := FindPosition(statement, 0);
      return Failure(ParseFailed(FxqlParseError(InvalidPairFormat, pos.line, pos.column, ContextSnippet(statement, 0))));
    }
    var source, destination := m.value.source, m.value.destination;
    if !IsValidCurrency(source) || !IsValidCurrency(destination) {
      var errorIndex := IndexOf(statement, m.value.whole);
      var pos := FindPosition(statement, errorIndex);
      var code := if !IsValidCurrency(source) then source else destination;
      return Failure(ParseFailed(FxqlParseError(
        InvalidCurrencyMessage(code), pos.line, pos.column, ContextSnippet(statement, errorIndex))));
    }
    var values := ParseValues(statement, ordinal);
    if values.Failure? {
      return Failure(ParseFailed(values.error));
    }
    var entry := Entry(source, destination, values.value["BuyPrice"], values.value["SellPrice"], values.value["CapAmount"]);
    var saved := save(entry);
    if saved.Some? {
      return Failure(BadRequest(saved.value));
    }
    return Success(entry);
  }
}
