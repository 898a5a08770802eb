/** The statement splitter of the FXQL engine (`splitStatements`,
    src/fxql.service.ts). Input arrives in one of two shapes: with newlines
    written as the two-character escape `\n`, or with real newline
    characters. The two regular expressions the source splits with are
    written out here as hand-made recognisers. */
module Splitter {
  import opened Results
  import opened JsStrings

  /** The separator of the escaped shape: two escapes in a row, `\n\n`. */
  const EscapedBlankLine: string := "\\n\\n"

  /** `\w+-\w+` matches at `e`: a run of word characters, a hyphen, and at
      least one more word character. */
  predicate PairTokenAt(s: string, e: nat)
    requires e <= |s|
  {
    var w := SkipWhile(s, e, IsWordChar);
    w > e && w + 1 < |s| && s[w] == '-' && IsWordChar(s[w + 1])
  }

  /** The delimiter `}\s*(?=\w+-\w+|$)` tried at exactly `q`, as a `split`
      tries it: the end of the match, or None. The greedy `\s*` takes the
      whole run of whitespace; giving any of it back cannot help, because
      the lookahead never starts on whitespace. */
  function DelimiterEnd(s: string, q: nat): (r: Option<nat>)
    requires q <= |s|
    ensures r.Some? ==> q < r.value <= |s|
  {
    if q < |s| && s[q] == '}' then
      var e := SkipWhile(s, q + 1, IsWhitespace);
      if e == |s| || PairTokenAt(s, e) then Some(e) else None
    else None
  }

  /** The delimiter as the regular expression reads it, with any amount of
      whitespace after the brace. */
  predicate DelimiterMatch(s: string, q: nat, e: nat) {
    && q < e <= |s| && s[q] == '}' && AllWhitespace(s[q + 1..e])
    && (e == |s| || PairTokenAt(s, e))
  }

  /** The recogniser accepts exactly where the regular expression matches,
      and ends where it does: whitespace-only stretches cannot be followed
      by a word character, so only the longest one can succeed. */
  lemma DelimiterEndMatches(s: string, q: nat, e: nat)
    requires q <= |s|
    ensures DelimiterEnd(s, q) == Some(e) <==> DelimiterMatch(s, q, e)
  {
  }

  /** Where a delimiter match starting at each offset of `s` ends, if one
      does. */
  function DelimiterEnds(s: string): (ends: seq<Option<nat>>)
    ensures EndsWithin(s, ends)
    ensures forall q :: 0 <= q < |s| ==> ends[q] == DelimiterEnd(s, q)
  {
    seq(|s|, q requires 0 <= q < |s| => DelimiterEnd(s, q))
  }

  /** A table of match ends for `s`: one entry per offset, and every match
      ends after it starts and within `s`. */
  predicate EndsWithin(s: string, ends: seq<Option<nat>>) {
    && |ends| == |s|
    && forall q :: 0 <= q < |s| && ends[q].Some? ==> q < ends[q].value <= |s|
  }

  /** `split` on a pattern whose matches are tabled in `ends`, scanning
      from `q` while the current piece started at `start`: a match at `q`
      ends the piece there, and the next piece starts where the match
      ends. */
  function CutFrom(s: string, ends: seq<Option<nat>>, start: nat, q: nat): (parts: seq<string>)
    requires EndsWithin(s, ends) && start <= q <= |s|
    ensures |parts| >= 1
    decreases |s| - q
  {
    if q == |s| then [s[start..]]
    else match ends[q]
      case Some(e) => [s[start..q]] + CutFrom(s, ends, e, e)
      case None => CutFrom(s, ends, start, q + 1)
  }

  /** `s.split(/}\s*(?=\w+-\w+|$)/)` */
  function BraceSplit(s: string): (parts: seq<string>)
    ensures |parts| >= 1
  {
    CutFrom(s, DelimiterEnds(s), 0, 0)
  }

  /** Where each piece of `CutFrom` lies in the input: its start and end
      offsets, in order. */
  ghost function CutSpansFrom(s: string, ends: seq<Option<nat>>, start: nat, q: nat): (spans: seq<(nat, nat)>)
    requires EndsWithin(s, ends) && start <= q <= |s|
    ensures |spans| >= 1 && spans[0].0 == start && spans[|spans| - 1].1 == |s|
    ensures forall i :: 0 <= i < |spans| ==> start <= spans[i].0 <= spans[i].1 <= |s|
    decreases |s| - q
  {
    if q == |s| then [(start, |s|)]
    else match ends[q]
      case Some(e) => [(start, q)] + CutSpansFrom(s, ends, e, e)
      case None => CutSpansFrom(s, ends, start, q + 1)
  }

  /** Each piece is the text of the span at the same place. */
  ghost predicate PiecesAreSpans(s: string, parts: seq<string>, spans: seq<(nat, nat)>) {
    && |spans| == |parts|
    && forall i :: 0 <= i < |spans| ==>
         spans[i].0 <= spans[i].1 <= |s| && parts[i] == s[spans[i].0..spans[i].1]
  }

  lemma PiecesAreSpansCons(s: string, a: nat, b: nat, parts: seq<string>, spans: seq<(nat, nat)>)
    requires a <= b <= |s| && PiecesAreSpans(s, parts, spans)
    ensures PiecesAreSpans(s, [s[a..b]] + parts, [(a, b)] + spans)
  {
    var ps, ss := [s[a..b]] + parts, [(a, b)] + spans;
    forall i | 1 <= i < |ss|
      ensures ss[i].0 <= ss[i].1 <= |s| && ps[i] == s[ss[i].0..ss[i].1]
    {
      assert ss[i] == spans[i - 1] && ps[i] == parts[i - 1];
    }
  }

  /** Each piece is the text of its span. */
  lemma {:induction false} CutSpans(s: string, ends: seq<Option<nat>>, start: nat, q: nat)
    requires EndsWithin(s, ends) && start <= q <= |s|
    ensures PiecesAreSpans(s, CutFrom(s, ends, start, q), CutSpansFrom(s, ends, start, q))
    decreases |s| - q
  {
    if q < |s| {
      match ends[q]
      case Some(e) =>
        CutSpans(s, ends, e, e);
        PiecesAreSpansCons(s, start, q, CutFrom(s, ends, e, e), CutSpansFrom(s, ends, e, e));
      case None =>
        CutSpans(s, ends, start, q + 1);
    }
  }

  /** Between two neighbouring spans lies one tabled match, from the end of
      the one to the start of the next. */
  ghost predicate GapsAreCuts(ends: seq<Option<nat>>, spans: seq<(nat, nat)>) {
    forall i :: 0 <= i < |spans| - 1 ==>
      spans[i].1 < |ends| && ends[spans[i].1] == Some(spans[i + 1].0)
  }

  lemma GapsAreCutsCons(ends: seq<Option<nat>>, a: nat, b: nat, spans: seq<(nat, nat)>)
    requires GapsAreCuts(ends, spans) && |spans| >= 1
    requires b < |ends| && ends[b] == Some(spans[0].0)
    ensures GapsAreCuts(ends, [(a, b)] + spans)
  {
    var ss := [(a, b)] + spans;
    forall i | 1 <= i < |ss| - 1
      ensures ss[i].1 < |ends| && ends[ss[i].1] == Some(ss[i + 1].0)
    {
      assert ss[i] == spans[i - 1] && ss[i + 1] == spans[i];
    }
  }

  lemma {:induction false} CutGaps(s: string, ends: seq<Option<nat>>, start: nat, q: nat)
    requires EndsWithin(s, ends) && start <= q <= |s|
    ensures GapsAreCuts(ends, CutSpansFrom(s, ends, start, q))
    decreases |s| - q
  {
    if q < |s| {
      match ends[q]
      case Some(e) =>
        CutGaps(s, ends, e, e);
        GapsAreCutsCons(ends, start, q, CutSpansFrom(s, ends, e, e));
      case None =>
        CutGaps(s, ends, start, q + 1);
    }
  }

  /** `[lo, hi)` lies in the table and no offset in it holds a match. */
  ghost predicate Uncut(ends: seq<Option<nat>>, lo: nat, hi: nat) {
    hi <= |ends| && forall k :: lo <= k < hi ==> ends[k].None?
  }

  /** No offset inside a span, from `q` on, holds a tabled match. */
  ghost predicate NoCutInside(ends: seq<Option<nat>>, spans: seq<(nat, nat)>, q: nat) {
    forall i :: 0 <= i < |spans| ==>
      Uncut(ends, if spans[i].0 < q then q else spans[i].0, spans[i].1)
  }

  lemma NoCutInsideCons(ends: seq<Option<nat>>, a: nat, b: nat, spans: seq<(nat, nat)>, e: nat)
    requires NoCutInside(ends, spans, e) && b <= e && b <= |ends|
    requires forall i :: 0 <= i < |spans| ==> e <= spans[i].0
    ensures NoCutInside(ends, [(a, b)] + spans, b)
  {
    var ss := [(a, b)] + spans;
    forall i | 0 <= i < |ss|
      ensures Uncut(ends, if ss[i].0 < b then b else ss[i].0, ss[i].1)
    {
      if i > 0 {
        assert ss[i] == spans[i - 1];
        assert Uncut(ends, spans[i - 1].0, spans[i - 1].1);
      }
    }
  }

  lemma NoCutInsideWiden(ends: seq<Option<nat>>, spans: seq<(nat, nat)>, q: nat)
    requires NoCutInside(ends, spans, q + 1) && q < |ends| && ends[q].None?
    ensures NoCutInside(ends, spans, q)
  {
    forall i | 0 <= i < |spans|
      ensures Uncut(ends, if spans[i].0 < q then q else spans[i].0, spans[i].1)
    {
      assert Uncut(ends, if spans[i].0 < q + 1 then q + 1 else spans[i].0, spans[i].1);
    }
  }

  lemma {:induction false} CutOnlyAtMatches(s: string, ends: seq<Option<nat>>, start: nat, q: nat)
    requires EndsWithin(s, ends) && start <= q <= |s|
    ensures NoCutInside(ends, CutSpansFrom(s, ends, start, q), q)
    decreases |s| - q
  {
    if q < |s| {
      match ends[q]
      case Some(e) =>
        CutOnlyAtMatches(s, ends, e, e);
        NoCutInsideCons(ends, start, q, CutSpansFrom(s, ends, e, e), e);
      case None =>
        CutOnlyAtMatches(s, ends, start, q + 1);
        NoCutInsideWiden(ends, CutSpansFrom(s, ends, start, q + 1), q);
    }
  }

  /** The pieces of the real-newline split, located in the input. */
  ghost function BraceSpans(s: string): seq<(nat, nat)> {
    CutSpansFrom(s, DelimiterEnds(s), 0, 0)
  }

  /** The real-newline split cuts exactly at the matches of
      `}\s*(?=\w+-\w+|$)`: its pieces tile the input in order, between
      two neighbouring pieces lies one match, and no match begins inside a
      piece. */
  lemma BraceSplitExact(s: string)
    ensures var spans := BraceSpans(s);
      && spans[0].0 == 0 && spans[|spans| - 1].1 == |s|
      && PiecesAreSpans(s, BraceSplit(s), spans)
      && (forall i :: 0 <= i < |spans| - 1 ==> DelimiterMatch(s, spans[i].1, spans[i + 1].0))
      && (forall i, k :: 0 <= i < |spans| && spans[i].0 <= k < spans[i].1 ==> DelimiterEnd(s, k).None?)
  {
    var ends := DelimiterEnds(s);
    CutSpans(s, ends, 0, 0);
    CutGaps(s, ends, 0, 0);
    CutOnlyAtMatches(s, ends, 0, 0);
    var spans := BraceSpans(s);
    forall i | 0 <= i < |spans| - 1
      ensures DelimiterMatch(s, spans[i].1, spans[i + 1].0)
    {
      DelimiterEndMatches(s, spans[i].1, spans[i + 1].0);
    }
    forall i, k | 0 <= i < |spans| && spans[i].0 <= k < spans[i].1
      ensures DelimiterEnd(s, k).None?
    {
      assert Uncut(ends, spans[i].0, spans[i].1);
      assert ends[k].None?;
    }
  }

  /** A piece of the real-newline split holds only what the input
      holds. */
  lemma BraceSplitKeepsAbsence(s: string, t: string)
    requires !Contains(s, t)
    ensures forall p :: p in BraceSplit(s) ==> !Contains(p, t)
  {
    var spans := BraceSpans(s);
    CutSpans(s, DelimiterEnds(s), 0, 0);
    forall p | p in BraceSplit(s)
      ensures !Contains(p, t)
    {
      var i :| 0 <= i < |BraceSplit(s)| && BraceSplit(s)[i] == p;
      if Contains(p, t) {
        ContainsInSlice(s, spans[i].0, spans[i].1, t);
      }
    }
  }

  /** `.filter(Boolean)` on strings: drops the empty ones. */
  function DropEmpty(xs: seq<string>): (r: seq<string>)
    ensures forall x :: x in r <==> x in xs && x != []
    ensures |r| <= |xs|
  {
    if xs == [] then []
    else if xs[0] == [] then DropEmpty(xs[1..])
    else [xs[0]] + DropEmpty(xs[1..])
  }

  /** The filter works element by element and keeps the order: a single
      statement is kept exactly when it is non-empty, and filtering a
      concatenation concatenates the filtered halves. */
  lemma {:induction false} DropEmptyAppend(a: seq<string>, b: seq<string>)
    ensures DropEmpty(a + b) == DropEmpty(a) + DropEmpty(b)
    decreases |a|
  {
    if a != [] {
      assert (a + b)[1..] == a[1..] + b;
      DropEmptyAppend(a[1..], b);
    } else {
      assert a + b == b;
    }
  }

  lemma DropEmptySingle(x: string)
    ensures DropEmpty([x]) == if x == [] then [] else [x]
  {
    assert [x][1..] == [];
  }

  /** `splitStatements`. With an escape anywhere in the input: split at the
      escaped blank lines and trim each piece, keeping empty ones and
      leaving the escapes in place. Otherwise: split after each closing
      brace (and the whitespace after it) that comes before a `XXX-YYY`
      token or the end of the input, unescape and trim each piece, and drop
      the empty ones. */
  function SplitStatements(fxql: string): (statements: seq<string>)
  {
    if Contains(fxql, Escape) then
      var parts := Split(fxql, EscapedBlankLine);
      seq(|parts|, i requires 0 <= i < |parts| => Trim(parts[i]))
    else
      var parts := BraceSplit(fxql);
      DropEmpty(seq(|parts|, i requires 0 <= i < |parts| => Trim(Unescape(parts[i]))))
  }

  /** The escaped shape: one statement per piece between escaped blank
      lines, in input order, each the trimmed piece; the pieces joined back
      with the separator are the input. Empty statements are kept. */
  lemma EscapedShape(fxql: string)
    requires Contains(fxql, Escape)
    ensures var parts := Split(fxql, EscapedBlankLine);
      var statements := SplitStatements(fxql);
      && Join(parts, EscapedBlankLine) == fxql
      && |statements| == |parts| == CountSeparators(fxql, EscapedBlankLine) + 1
      && forall i :: 0 <= i < |statements| ==> statements[i] == Trim(parts[i])
  {
    SplitJoin(fxql, EscapedBlankLine);
    SplitLength(fxql, EscapedBlankLine);
  }

  /** The real-newline shape: the statements are the pieces between
      delimiters, trimmed, with the empty ones dropped, so none is empty
      and none starts or ends with whitespace. Unescaping changes nothing,
      because there is no escape to replace. */
  lemma NewlineShape(fxql: string)
    requires !Contains(fxql, Escape)
    ensures var parts := BraceSplit(fxql);
      var statements := SplitStatements(fxql);
      && statements == DropEmpty(seq(|parts|, i requires 0 <= i < |parts| => Trim(parts[i])))
      && forall st :: st in statements ==>
           st != [] && !IsWhitespace(st[0]) && !IsWhitespace(st[|st| - 1])
  {
    var parts := BraceSplit(fxql);
    BraceSplitKeepsAbsence(fxql, Escape);
    forall i | 0 <= i < |parts|
      ensures Unescape(parts[i]) == parts[i]
    {
      UnescapeIdentity(parts[i]);
    }
    assert seq(|parts|, i requires 0 <= i < |parts| => Trim(Unescape(parts[i])))
        == seq(|parts|, i requires 0 <= i < |parts| => Trim(parts[i]));
    forall st | st in SplitStatements(fxql)
      ensures st != [] && !IsWhitespace(st[0]) && !IsWhitespace(st[|st| - 1])
    {
      var i :| 0 <= i < |parts| && st == Trim(parts[i]);
      TrimShape(parts[i]);
    }
  }

  /** Unlike the real-newline shape, the escaped shape does not drop empty
      pieces: two escaped blank lines and nothing else are two empty
      statements. */
  lemma EscapedShapeKeepsEmptyStatements()
    ensures SplitStatements(EscapedBlankLine) == ["", ""]
  {
    var s := EscapedBlankLine;
    assert OccursAt(s, Escape, 0);
    assert OccursAt(s, EscapedBlankLine, 0);
    assert IndexOf(s, EscapedBlankLine) == 0;
    assert s[4..] == [];
    assert Split(s[4..], EscapedBlankLine) == [[]];
    assert Split(s, EscapedBlankLine) == [[], []];
  }
}
