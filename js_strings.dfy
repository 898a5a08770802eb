/** The JavaScript string built-ins the FXQL engine relies on, over
    `seq<char>`: the character classes of its regular expressions (`\s`,
    `\d`, `\w`, `[A-Z]`), `slice`, `indexOf`/`includes`, `split` on a
    literal separator, `trim`, the `\\n` unescaping `replace`, and the
    decimal rendering of a number in a template literal. */
module JsStrings {

  /** `\s` of a JavaScript regular expression; `trim` strips exactly the same
      set (WhiteSpace and LineTerminator of ECMA-262). */
  predicate IsWhitespace(c: char) {
    || c == '\t' || c == '\n' || c == '\U{000B}' || c == '\U{000C}' || c == '\r'
    || c == ' ' || c == '\U{00A0}' || c == '\U{1680}'
    || ('\U{2000}' <= c <= '\U{200A}')
    || c == '\U{2028}' || c == '\U{2029}' || c == '\U{202F}' || c == '\U{205F}'
    || c == '\U{3000}' || c == '\U{FEFF}'
  }

  /** `\d` */
  predicate IsDigit(c: char) {
    '0' <= c <= '9'
  }

  /** `[A-Z]` */
  predicate IsUpper(c: char) {
    'A' <= c <= 'Z'
  }

  /** `\w` */
  predicate IsWordChar(c: char) {
    ('a' <= c <= 'z') || ('A' <= c <= 'Z') || IsDigit(c) || c == '_'
  }

  predicate AllWhitespace(s: string) {
    forall i :: 0 <= i < |s| ==> IsWhitespace(s[i])
  }

  predicate AllDigits(s: string) {
    forall i :: 0 <= i < |s| ==> IsDigit(s[i])
  }

  /** The end of the longest run of characters satisfying `p` that starts at
      `i`: what a greedy `p*` consumes from there. */
  function SkipWhile(s: string, i: nat, p: char -> bool): (j: nat)
    requires i <= |s|
    ensures i <= j <= |s|
    ensures forall k :: i <= k < j ==> p(s[k])
    ensures j == |s| || !p(s[j])
    decreases |s| - i
  {
    if i < |s| && p(s[i]) then SkipWhile(s, i + 1, p) else i
  }

  /** A run that starts at `i`, satisfies `p` up to `j` and stops there is
      the one SkipWhile finds. */
  lemma {:induction false} SkipWhileIs(s: string, i: nat, j: nat, p: char -> bool)
    requires i <= j <= |s|
    requires forall k :: i <= k < j ==> p(s[k])
    requires j == |s| || !p(s[j])
    ensures SkipWhile(s, i, p) == j
    decreases j - i
  {
    if i < j {
      SkipWhileIs(s, i + 1, j, p);
    }
  }

  // ---------------------------------------------------------------------
  // String.prototype.slice

  /** How `slice` reads one of its arguments: a negative index counts from
      the end, and the result is clamped to `[0, len]`. */
  function ClampIndex(len: nat, i: int): (k: nat)
    ensures k <= len
    ensures 0 <= i <= len ==> k == i
    ensures i > len ==> k == len
    ensures i < 0 ==> k == if len + i < 0 then 0 else len + i
  {
    if i < 0 then (if len + i < 0 then 0 else len + i)
    else if i > len then len
    else i
  }

  /** `s.slice(from, to)` */
  function Slice(s: string, from: int, to: int): string {
    var a := ClampIndex(|s|, from);
    var b := ClampIndex(|s|, to);
    if a < b then s[a..b] else ""
  }

  // ---------------------------------------------------------------------
  // String.prototype.indexOf and includes

  predicate OccursAt(s: string, t: string, k: int) {
    0 <= k && k + |t| <= |s| && s[k..k + |t|] == t
  }

  /** `s.includes(t)` */
  predicate Contains(s: string, t: string) {
    exists k :: 0 <= k <= |s| && OccursAt(s, t, k)
  }

  function IndexOfFrom(s: string, t: string, k: nat): (r: int)
    requires k <= |s|
    ensures r == -1 || (k <= r && OccursAt(s, t, r))
    ensures forall j :: k <= j && (r == -1 || j < r) ==> !OccursAt(s, t, j)
    decreases |s| - k
  {
    if k + |t| > |s| then -1
    else if s[k..k + |t|] == t then k
    else
      assert |t| > 0;
      IndexOfFrom(s, t, k + 1)
  }

  /** `s.indexOf(t)`: the first position at which `t` occurs, or -1. */
  function IndexOf(s: string, t: string): (r: int)
    ensures r == -1 <==> !Contains(s, t)
    ensures r != -1 ==> OccursAt(s, t, r)
    ensures forall j :: 0 <= j < r ==> !OccursAt(s, t, j)
  {
    IndexOfFrom(s, t, 0)
  }

  /** An occurrence inside a slice is an occurrence in the whole string. */
  lemma OccursInSlice(s: string, a: nat, b: nat, t: string, j: int)
    requires a <= b <= |s|
    requires OccursAt(s[a..b], t, j)
    ensures OccursAt(s, t, a + j)
  {
    var u, v := s[a..b][j..j + |t|], s[a + j..a + j + |t|];
    assert forall i | 0 <= i < |t| :: u[i] == v[i];
  }

  lemma ContainsInSlice(s: string, a: nat, b: nat, t: string)
    requires a <= b <= |s|
    requires Contains(s[a..b], t)
    ensures Contains(s, t)
  {
    var j :| OccursAt(s[a..b], t, j);
    OccursInSlice(s, a, b, t, j);
  }

  // ---------------------------------------------------------------------
  // String.prototype.split with a literal separator

  /** `s.split(sep)` for a non-empty separator: the pieces between the
      non-overlapping occurrences of `sep`, found left to right. */
  function Split(s: string, sep: string): (parts: seq<string>)
    requires sep != []
    ensures |parts| >= 1
    decreases |s|
  {
    var k := IndexOf(s, sep);
    if k < 0 then [s] else [s[..k]] + Split(s[k + |sep|..], sep)
  }

  /** `parts.join(sep)` */
  function Join(parts: seq<string>, sep: string): string
    decreases |parts|
  {
    if |parts| == 0 then ""
    else if |parts| == 1 then parts[0]
    else parts[0] + sep + Join(parts[1..], sep)
  }

  /** Splitting loses nothing but the separators: joining the pieces back
      gives the input, and no piece holds the separator. */
  lemma {:induction false} SplitJoin(s: string, sep: string)
    requires sep != []
    ensures Join(Split(s, sep), sep) == s
    ensures forall p :: p in Split(s, sep) ==> !Contains(p, sep)
    ensures Contains(s, sep) ==> Split(s, sep)[0] == s[..IndexOf(s, sep)]
    ensures var parts := Split(s, sep);
      forall i :: 0 <= i < |parts| - 1 ==> IndexOf(parts[i] + sep, sep) == |parts[i]|
    decreases |s|
  {
    var k := IndexOf(s, sep);
    if k >= 0 {
      var rest := s[k + |sep|..];
      SplitJoin(rest, sep);
      assert s[..k] + sep + rest == s by {
        assert s[k..k + |sep|] == sep;
      }
      if Contains(s[..k], sep) {
        var j :| OccursAt(s[..k], sep, j);
        OccursInSlice(s, 0, k, sep, j);
        assert false;
      }
      var parts := Split(s, sep);
      forall i | 0 <= i < |parts| - 1
        ensures IndexOf(parts[i] + sep, sep) == |parts[i]|
      {
        if i == 0 {
          CutAtFirst(s, sep);
        } else {
          assert parts[i] == Split(rest, sep)[i - 1];
        }
      }
    }
  }

  /** The piece before the first cut, with the separator put back, holds
      its first occurrence of the separator at its end. */
  lemma CutAtFirst(s: string, sep: string)
    requires Contains(s, sep)
    ensures IndexOf(s[..IndexOf(s, sep)] + sep, sep) == IndexOf(s, sep)
  {
    var k := IndexOf(s, sep);
    var u := s[..k] + sep;
    assert u == s[..k + |sep|];
    assert OccursAt(u, sep, k);
    var r := IndexOf(u, sep);
    OccursInSlice(s, 0, k + |sep|, sep, r);
  }

  /** A piece whose first occurrence of the separator is the one appended
      to it keeps that property whatever follows. */
  lemma FirstAtEnd(p: string, sep: string, w: string)
    requires IndexOf(p + sep, sep) == |p|
    ensures IndexOf(p + sep + w, sep) == |p|
  {
    var u := p + sep + w;
    assert OccursAt(u, sep, |p|) by {
      assert u[|p|..|p| + |sep|] == sep;
    }
    forall j | 0 <= j <= |p| && OccursAt(u, sep, j)
      ensures OccursAt(p + sep, sep, j)
    {
      assert (p + sep)[j..j + |sep|] == u[j..j + |sep|];
    }
  }

  /** A piece cut at its first occurrence of the separator is split off
      first, and the rest is split on its own. */
  lemma SplitAfterFirst(p: string, sep: string, w: string)
    requires sep != [] && IndexOf(p + sep, sep) == |p|
    ensures Split(p + sep + w, sep) == [p] + Split(w, sep)
  {
    var s := p + sep + w;
    FirstAtEnd(p, sep, w);
    assert s[..|p|] == p;
    assert s[|p| + |sep|..] == w;
  }

  /** The clauses of `SplitJoin` determine the split: any pieces that join
      back to the input, each cut at the first occurrence after the
      previous one, with no separator in the last, are `Split`'s. */
  lemma {:induction false} SplitUnique(parts: seq<string>, sep: string)
    requires sep != [] && |parts| >= 1
    requires forall i :: 0 <= i < |parts| - 1 ==> IndexOf(parts[i] + sep, sep) == |parts[i]|
    requires !Contains(parts[|parts| - 1], sep)
    ensures Split(Join(parts, sep), sep) == parts
    decreases |parts|
  {
    if |parts| > 1 {
      var tail := parts[1..];
      forall i | 0 <= i < |tail| - 1
        ensures IndexOf(tail[i] + sep, sep) == |tail[i]|
      {
        assert tail[i] == parts[i + 1];
      }
      SplitUnique(tail, sep);
      SplitUniqueStep(parts, sep);
    }
  }

  lemma SplitUniqueStep(parts: seq<string>, sep: string)
    requires sep != [] && |parts| > 1 && IndexOf(parts[0] + sep, sep) == |parts[0]|
    requires Split(Join(parts[1..], sep), sep) == parts[1..]
    ensures Split(Join(parts, sep), sep) == parts
  {
    var tail := parts[1..];
    assert Join(parts, sep) == parts[0] + sep + Join(tail, sep);
    SplitAfterFirst(parts[0], sep, Join(tail, sep));
    assert parts == [parts[0]] + tail;
  }

  /** `s.split(sep).length` is one more than the number of occurrences of
      `sep` that the split consumes. */
  function CountSeparators(s: string, sep: string): (n: nat)
    requires sep != []
    decreases |s|
  {
    var k := IndexOf(s, sep);
    if k < 0 then 0 else 1 + CountSeparators(s[k + |sep|..], sep)
  }

  lemma {:induction false} SplitLength(s: string, sep: string)
    requires sep != []
    ensures |Split(s, sep)| == CountSeparators(s, sep) + 1
    ensures Contains(s, sep) <==> |Split(s, sep)| > 1
    decreases |s|
  {
    var k := IndexOf(s, sep);
    if k >= 0 {
      SplitLength(s[k + |sep|..], sep);
    }
  }

  // ---------------------------------------------------------------------
  // Character counting, used for line numbers

  function Count(s: string, c: char): (n: nat)
    ensures n <= |s|
  {
    if s == [] then 0 else Count(s[..|s| - 1], c) + (if s[|s| - 1] == c then 1 else 0)
  }

  lemma {:induction false} CountAppend(a: string, b: string, c: char)
    ensures Count(a + b, c) == Count(a, c) + Count(b, c)
    decreases |b|
  {
    if b == [] {
      assert a + b == a;
    } else {
      assert (a + b)[..|a + b| - 1] == a + b[..|b| - 1];
      CountAppend(a, b[..|b| - 1], c);
    }
  }

  lemma {:induction false} CountAbsent(s: string, c: char)
    requires forall i :: 0 <= i < |s| ==> s[i] != c
    ensures Count(s, c) == 0
  {
    if s != [] {
      CountAbsent(s[..|s| - 1], c);
    }
  }

  // ---------------------------------------------------------------------
  // String.prototype.trim

  /** The start of the longest run of characters satisfying `p` that ends
      at `j`. */
  function SkipBackWhile(s: string, j: nat, p: char -> bool): (i: nat)
    requires j <= |s|
    ensures i <= j
    ensures forall k :: i <= k < j ==> p(s[k])
    ensures i == 0 || !p(s[i - 1])
  {
    if j > 0 && p(s[j - 1]) then SkipBackWhile(s, j - 1, p) else j
  }

  /** `trimStart`: drops the leading whitespace and nothing else. */
  function TrimStart(s: string): (r: string)
    ensures |r| <= |s| && r == s[|s| - |r|..]
    ensures AllWhitespace(s[..|s| - |r|])
    ensures r == [] || !IsWhitespace(r[0])
  {
    s[SkipWhile(s, 0, IsWhitespace)..]
  }

  /** `trimEnd`: drops the trailing whitespace and nothing else. */
  function TrimEnd(s: string): (r: string)
    ensures |r| <= |s| && r == s[..|r|]
    ensures AllWhitespace(s[|r|..])
    ensures r == [] || !IsWhitespace(r[|r| - 1])
  {
    s[..SkipBackWhile(s, |s|, IsWhitespace)]
  }

  /** `s.trim()` */
  function Trim(s: string): string {
    TrimEnd(TrimStart(s))
  }

  /** `trim` cuts a whitespace-only head and tail off its input and leaves a
      string that neither starts nor ends with whitespace. */
  lemma TrimShape(s: string)
    ensures var r := Trim(s);
      exists a: nat :: a + |r| <= |s| && r == s[a..a + |r|]
        && AllWhitespace(s[..a]) && AllWhitespace(s[a + |r|..])
    ensures Trim(s) == [] || (!IsWhitespace(Trim(s)[0]) && !IsWhitespace(Trim(s)[|Trim(s)| - 1]))
    ensures AllWhitespace(s) <==> Trim(s) == []
  {
    var t := TrimStart(s);
    var r := TrimEnd(t);
    var a := |s| - |t|;
    assert r == s[a..a + |r|];
    assert s[a + |r|..] == t[|r|..];
    if r != [] {
      assert r[0] == t[0];
    }
    TrimEmpty(s);
  }

  lemma TrimEmpty(s: string)
    ensures AllWhitespace(s) <==> Trim(s) == []
  {
    var t := TrimStart(s);
    var a := |s| - |t|;
    if Trim(s) == [] {
      assert AllWhitespace(t[0..]);
      assert t == [];
      assert s[..a] == s;
    } else {
      assert t[0] == s[a];
    }
  }

  /** A string with no whitespace at either end is its own `trim`. */
  lemma TrimOfTrimmed(s: string)
    requires s == [] || (!IsWhitespace(s[0]) && !IsWhitespace(s[|s| - 1]))
    ensures Trim(s) == s
  {
  }

  /** `trim` is idempotent. */
  lemma TrimIdempotent(s: string)
    ensures Trim(Trim(s)) == Trim(s)
  {
    TrimShape(s);
    TrimOfTrimmed(Trim(s));
  }

  // ---------------------------------------------------------------------
  // replace(/\\n/g, '\n')

  /** The two-character escape: a backslash followed by the letter n. */
  const Escape: string := "\\n"

  /** `s.replace(/\\n/g, '\n')`: every escape, left to right and without
      overlap, becomes a newline character. */
  function Unescape(s: string): string {
    if |s| < 2 then s
    else if s[0] == '\\' && s[1] == 'n' then "\n" + Unescape(s[2..])
    else [s[0]] + Unescape(s[1..])
  }

  lemma EscapeAt(s: string, k: nat)
    ensures OccursAt(s, Escape, k) <==> k + 1 < |s| && s[k] == '\\' && s[k + 1] == 'n'
  {
    if k + 1 < |s| && s[k] == '\\' && s[k + 1] == 'n' {
      assert s[k..k + 2] == Escape;
    }
  }

  /** A string without escapes is left as it is. */
  lemma {:induction false} UnescapeIdentity(s: string)
    requires !Contains(s, Escape)
    ensures Unescape(s) == s
  {
    if |s| >= 2 {
      EscapeAt(s, 0);
      if Contains(s[1..], Escape) {
        assert s[1..|s|] == s[1..];
        ContainsInSlice(s, 1, |s|, Escape);
      }
      UnescapeIdentity(s[1..]);
    }
  }

  // ---------------------------------------------------------------------
  // toUpperCase / toLowerCase, for the ASCII letters they meet here

  function UpperChar(c: char): char {
    if 'a' <= c <= 'z' then (c as int - 32) as char else c
  }

  function LowerChar(c: char): char {
    if 'A' <= c <= 'Z' then (c as int + 32) as char else c
  }

  function LowerCase(s: string): (r: string)
    ensures |r| == |s|
    ensures forall i :: 0 <= i < |s| ==> r[i] == LowerChar(s[i])
  {
    if s == [] then [] else [LowerChar(s[0])] + LowerCase(s[1..])
  }

  // ---------------------------------------------------------------------
  // Decimal digit strings

  function DigitValue(c: char): nat
    requires IsDigit(c)
  {
    (c as int - '0' as int) as nat
  }

  /** The value of a string of decimal digits (0 for the empty string). */
  function DigitsValue(d: string): nat
    requires AllDigits(d)
  {
    if d == [] then 0 else DigitsValue(d[..|d| - 1]) * 10 + DigitValue(d[|d| - 1])
  }

  /** `${n}` for a non-negative integer. */
  function NatToString(n: nat): (r: string)
    ensures |r| >= 1 && AllDigits(r)
    ensures |r| == 1 <==> n < 10
    ensures r[0] == '0' ==> n == 0
  {
    var digit := ['0' + (n % 10) as char];
    if n < 10 then digit else NatToString(n / 10) + digit
  }

  /** Rendering a number and reading it back gives the number. */
  lemma {:induction false} NatToStringRoundTrip(n: nat)
    ensures DigitsValue(NatToString(n)) == n
  {
    var r := NatToString(n);
    if n >= 10 {
      NatToStringRoundTrip(n / 10);
      assert r[..|r| - 1] == NatToString(n / 10);
    }
  }
}
