/** Diagnostics of the FXQL engine: the line/column of a character offset,
    the context snippet around it, and the structured parse error that
    carries both (src/utils/parser.utils.ts). */
module ParserUtils {
  import opened JsStrings

  /** A 1-based line and column. */
  datatype Position = Position(line: int, column: int)

  /** The structured parse error. Its fields are set once, when it is built,
      and are read-only afterwards: a datatype value. */
  datatype FxqlParseError = FxqlParseError(message: string, line: int, column: int, snippet: string)

  /** The start of the last line of `t`: just past its last newline, or 0. */
  function LastLineStart(t: string): (k: nat)
    ensures k <= |t|
    ensures forall i :: k <= i < |t| ==> t[i] != '\n'
    ensures k > 0 ==> t[k - 1] == '\n'
  {
    if t == [] then 0
    else if t[|t| - 1] == '\n' then |t|
    else LastLineStart(t[..|t| - 1])
  }

  /** What `input.slice(0, index)` keeps: the text before the offset. */
  function TextBefore(input: string, index: int): (t: string)
    ensures t == input[..ClampIndex(|input|, index)]
  {
    Slice(input, 0, index)
  }

  lemma NewlineAt(t: string, j: int)
    ensures OccursAt(t, "\n", j) <==> 0 <= j < |t| && t[j] == '\n'
  {
    if 0 <= j < |t| {
      assert t[j..j + 1] == [t[j]];
    }
  }

  /** The last line of `t` is the last line of whatever follows a newline
      at `k`. */
  lemma LastLineStartPast(t: string, k: nat)
    requires k < |t| && t[k] == '\n'
    ensures LastLineStart(t) == k + 1 + LastLineStart(t[k + 1..])
  {
    var rest := t[k + 1..];
    var m := LastLineStart(rest);
    var n := LastLineStart(t);
    assert forall i :: k + 1 + m <= i < |t| ==> t[i] != '\n' by {
      assert forall i :: k + 1 + m <= i < |t| ==> t[i] == rest[i - (k + 1)];
    }
    assert t[k + m] == '\n' by {
      if m > 0 {
        assert t[k + m] == rest[m - 1];
      }
    }
  }

  /** The newlines of `t` are the one at `k`, when it is the first, and
      those after it. */
  lemma CountPastFirstNewline(t: string, k: nat)
    requires k < |t| && t[k] == '\n'
    requires forall j :: 0 <= j < k ==> t[j] != '\n'
    ensures Count(t, '\n') == 1 + Count(t[k + 1..], '\n')
  {
    var rest := t[k + 1..];
    CountAbsent(t[..k], '\n');
    assert t == t[..k] + ([t[k]] + rest);
    CountAppend(t[..k], [t[k]] + rest, '\n');
    CountAppend([t[k]], rest, '\n');
    assert Count([t[k]], '\n') == 1 by {
      assert [t[k]][..0] == [];
    }
  }

  /** Splitting at newlines gives one piece more than there are newlines,
      and the last piece is the text after the last newline. */
  lemma {:induction false} SplitAtNewlines(t: string)
    ensures var lines := Split(t, "\n");
      |lines| == Count(t, '\n') + 1 && lines[|lines| - 1] == t[LastLineStart(t)..]
    decreases |t|
  {
    var k := IndexOf(t, "\n");
    if k < 0 {
      forall j | 0 <= j < |t|
        ensures t[j] != '\n'
      {
        NewlineAt(t, j);
      }
      CountAbsent(t, '\n');
    } else {
      NewlineAt(t, k);
      var rest := t[k + 1..];
      var tail := Split(rest, "\n");
      assert Split(t, "\n") == [t[..k]] + tail;
      SplitAtNewlines(rest);
      forall j | 0 <= j < k
        ensures t[j] != '\n'
      {
        NewlineAt(t, j);
      }
      CountPastFirstNewline(t, k);
      var lines := Split(t, "\n");
      assert lines[|lines| - 1] == tail[|tail| - 1];
      var m := LastLineStart(rest);
      LastLineStartPast(t, k);
      assert t[k + 1 + m..] == rest[m..];
    }
  }

  /** `ParserUtils.findPosition`: the 1-based line and column of `index` in
      `input`. The line is one more than the number of newlines before the
      offset; the column is one more than the number of characters between
      the last of those newlines (or the start of the input) and the
      offset. Both are at least 1. */
  function FindPosition(input: string, index: int): (pos: Position)
    ensures var before := TextBefore(input, index);
      && pos.line == Count(before, '\n') + 1
      && pos.column == |before| - LastLineStart(before) + 1
    ensures pos.line >= 1 && pos.column >= 1
  {
    var lines := Split(TextBefore(input, index), "\n");
    SplitAtNewlines(TextBefore(input, index));
    Position(|lines|, |lines[|lines| - 1]| + 1)
  }

  /** Offset 0 is line 1, column 1, whatever the input; an offset past the
      end reads as the end, and a negative one counts back from the end, as
      `slice` does. */
  lemma FindPositionEdges(input: string, index: int)
    ensures FindPosition(input, 0) == Position(1, 1)
    ensures index >= |input| ==> FindPosition(input, index) == FindPosition(input, |input|)
    ensures index < 0 ==> FindPosition(input, index) == FindPosition(input, ClampIndex(|input|, index))
  {
    assert TextBefore(input, 0) == [];
  }

  /** How far the snippet reaches on either side of the offset. */
  const SnippetRadius := 20

  /** The ellipsis that wraps every snippet. */
  const Ellipsis := "..."

  /** `ParserUtils.getContextSnippet`: up to 20 characters either side of
      `index`, between two ellipses. */
  function ContextSnippet(input: string, index: int): (snippet: string)
    ensures |snippet| >= 2 * |Ellipsis|
    ensures snippet[..|Ellipsis|] == Ellipsis && snippet[|snippet| - |Ellipsis|..] == Ellipsis
  {
    var start := if index - SnippetRadius > 0 then index - SnippetRadius else 0;
    var end := if |input| < index + SnippetRadius then |input| else index + SnippetRadius;
    Ellipsis + Slice(input, start, end) + Ellipsis
  }

  /** For any offset the engine uses, the part between the ellipses is the
      contiguous window `[index - 20, index + 20)` of the input, clipped to
      it: at most 40 characters, empty once the offset is 20 or more past
      the end, and the ellipses are there even when nothing was cut. */
  lemma ContextSnippetWindow(input: string, index: int)
    requires index >= 0
    ensures var snippet := ContextSnippet(input, index);
      var inner := snippet[|Ellipsis|..|snippet| - |Ellipsis|];
      var lo := if index - SnippetRadius > 0 then index - SnippetRadius else 0;
      var hi := if |input| < index + SnippetRadius then |input| else index + SnippetRadius;
      && snippet == Ellipsis + inner + Ellipsis
      && inner == (if lo < |input| then input[lo..hi] else [])
      && |inner| <= 2 * SnippetRadius
      && (inner == [] <==> index >= |input| + SnippetRadius || input == [])
  {
  }
}
