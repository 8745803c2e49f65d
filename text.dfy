/**
 * The handful of Python `str` operations the notebook scripts rely on, written
 * out on `seq<char>`: whitespace and digit classes, `int()` of a digit string,
 * `str()` of a number, `strip()`, `"".join`, and `splitlines` on '\n' only.
 */
module Text {
  import opened Wrappers

  /** Python's `str.isspace()`, which is also what `\s` matches and what `strip()` removes. */
  predicate IsSpace(c: char) {
    var n := c as int;
    9 <= n <= 13 || 28 <= n <= 32 || n == 0x85 || n == 0xA0 || n == 0x1680 ||
    0x2000 <= n <= 0x200A || n == 0x2028 || n == 0x2029 || n == 0x202F ||
    n == 0x205F || n == 0x3000
  }

  predicate IsNonSpace(c: char) { !IsSpace(c) }

  /** ASCII decimal digits (what `\d` matches on the tools' ASCII output). */
  predicate IsDigit(c: char) { '0' <= c <= '9' }

  predicate AllSpaces(s: string) { forall i :: 0 <= i < |s| ==> IsSpace(s[i]) }

  predicate AllDigits(s: string) { forall i :: 0 <= i < |s| ==> IsDigit(s[i]) }

  predicate AllNonSpaces(s: string) { forall i :: 0 <= i < |s| ==> IsNonSpace(s[i]) }

  /** True when `s` is empty or does not start with whitespace. */
  predicate NoLeadingSpace(s: string) { s == [] || !IsSpace(s[0]) }

  /** The length of the longest all-whitespace prefix (what a greedy `\s*` takes). */
  function Blanks(s: string): (n: nat)
    ensures n <= |s| && AllSpaces(s[..n])
    ensures n == |s| || !IsSpace(s[n])
  {
    if s == [] || !IsSpace(s[0]) then 0
    else
      var n := 1 + Blanks(s[1..]);
      assert s[..n] == [s[0]] + s[1..][..n - 1];
      n
  }

  /** The length of the longest all-digit prefix (what a greedy `\d*` takes). */
  function Digits(s: string): (n: nat)
    ensures n <= |s| && AllDigits(s[..n])
    ensures n == |s| || !IsDigit(s[n])
  {
    if s == [] || !IsDigit(s[0]) then 0
    else
      var n := 1 + Digits(s[1..]);
      assert s[..n] == [s[0]] + s[1..][..n - 1];
      n
  }

  /** The length of the longest prefix without whitespace (what a greedy `\S*` takes). */
  function NonBlanks(s: string): (n: nat)
    ensures n <= |s| && AllNonSpaces(s[..n])
    ensures n == |s| || IsSpace(s[n])
  {
    if s == [] || IsSpace(s[0]) then 0
    else
      var n := 1 + NonBlanks(s[1..]);
      assert s[..n] == [s[0]] + s[1..][..n - 1];
      n
  }

  /** Every prefix of the longest non-blank prefix is non-blank. */
  lemma NonBlanksPrefix(s: string, n: nat)
    requires n <= NonBlanks(s)
    ensures AllNonSpaces(s[..n])
  {
    var m := NonBlanks(s);
    assert forall i :: 0 <= i < n ==> s[..n][i] == s[..m][i];
  }

  /** A greedy `\s*` over `a + b` stops at the border when `a` is blank and `b` does not start blank. */
  lemma BlanksConcat(a: string, b: string)
    requires AllSpaces(a) && NoLeadingSpace(b)
    ensures Blanks(a + b) == |a|
    ensures (a + b)[..|a|] == a && (a + b)[|a|..] == b
  {
    var n := Blanks(a + b);
    assert forall i :: 0 <= i < |a| ==> (a + b)[i] == a[i];
    assert forall i :: 0 <= i < n ==> (a + b)[..n][i] == (a + b)[i];
    assert b != [] ==> (a + b)[|a|] == b[0];
  }

  /** A greedy `\d*` over `a + b` stops at the border when `a` is digits and `b` does not start with one. */
  lemma DigitsConcat(a: string, b: string)
    requires AllDigits(a) && (b == [] || !IsDigit(b[0]))
    ensures Digits(a + b) == |a|
    ensures (a + b)[..|a|] == a && (a + b)[|a|..] == b
  {
    var n := Digits(a + b);
    assert forall i :: 0 <= i < |a| ==> (a + b)[i] == a[i];
    assert forall i :: 0 <= i < n ==> (a + b)[..n][i] == (a + b)[i];
    assert b != [] ==> (a + b)[|a|] == b[0];
  }

  /** A greedy `\S*` over `a + b` stops at the border when `a` has no blank and `b` starts with one. */
  lemma NonBlanksConcat(a: string, b: string)
    requires AllNonSpaces(a) && (b == [] || IsSpace(b[0]))
    ensures NonBlanks(a + b) == |a|
    ensures (a + b)[..|a|] == a && (a + b)[|a|..] == b
  {
    var n := NonBlanks(a + b);
    assert forall i :: 0 <= i < |a| ==> (a + b)[i] == a[i];
    assert forall i :: 0 <= i < n ==> (a + b)[..n][i] == (a + b)[i];
    assert b != [] ==> (a + b)[|a|] == b[0];
  }

  /** Digits, then a non-digit separator: the run stops at the separator, and the pieces come back apart. */
  lemma DigitsThen(a: string, sep: string, b: string)
    requires AllDigits(a) && sep != [] && !IsDigit(sep[0])
    ensures var u := a + (sep + b);
      Digits(u) == |a| && u[..|a|] == a && |a| + |sep| <= |u| &&
      u[|a|..|a| + |sep|] == sep && u[|a| + |sep|..] == b
  {
    DigitsConcat(a, sep + b);
    var u := a + (sep + b);
    assert u[|a|..] == sep + b;
    assert (sep + b)[..|sep|] == sep && (sep + b)[|sep|..] == b;
  }

  /** The digit run stops at or before the first non-digit. */
  lemma {:induction false} DigitsBefore(s: string, p: nat)
    requires p < |s| && !IsDigit(s[p])
    ensures Digits(s) <= p
  {
    if p > 0 && IsDigit(s[0]) {
      DigitsBefore(s[1..], p - 1);
    }
  }

  /** Blanks, then a word that does not start blank: the run stops at the word, and the pieces come back apart. */
  lemma BlanksThen(a: string, word: string, b: string)
    requires AllSpaces(a) && word != [] && !IsSpace(word[0])
    ensures var u := a + (word + b);
      Blanks(u) == |a| && u[..|a|] == a && |a| + |word| <= |u| &&
      u[|a|..|a| + |word|] == word && u[|a| + |word|..] == b
  {
    BlanksConcat(a, word + b);
    var u := a + (word + b);
    assert u[|a|..] == word + b;
    assert (word + b)[..|word|] == word && (word + b)[|word|..] == b;
  }

  function DigitValue(c: char): nat
    requires IsDigit(c)
  {
    c as int - '0' as int
  }

  /** Python's `int(d)` for a string of ASCII digits. */
  function DecimalValue(d: string): nat
    requires AllDigits(d)
  {
    if d == [] then 0 else 10 * DecimalValue(d[..|d| - 1]) + DigitValue(d[|d| - 1])
  }

  /** Python's `str(n)` for a natural number: no leading zero unless `n` is 0. */
  function Decimal(n: nat): (d: string)
    ensures d != [] && AllDigits(d)
    ensures DecimalValue(d) == n
    ensures d[0] == '0' <==> n == 0
    ensures n == 0 ==> |d| == 1
  {
    var last := ['0' + (n % 10) as char];
    if n < 10 then last
    else
      var d := Decimal(n / 10) + last;
      assert d[..|d| - 1] == Decimal(n / 10);
      d
  }

  /** The prefix before the first '\n', i.e. what a regex `.*` matches. */
  function UpToNewline(s: string): (r: string)
    ensures r <= s
    ensures '\n' !in r
    ensures |r| < |s| ==> s[|r|] == '\n'
  {
    if s == [] || s[0] == '\n' then [] else [s[0]] + UpToNewline(s[1..])
  }

  /** `.*` stops at the line break that follows a text without one. */
  lemma {:induction false} UpToNewlineBefore(s: string, rest: string)
    requires '\n' !in s && rest != [] && rest[0] == '\n'
    ensures UpToNewline(s + rest) == s
    decreases |s|
  {
    if s == [] {
      assert s + rest == rest;
    } else {
      var t := s + rest;
      assert t[0] == s[0] && s[0] in s;
      assert t[1..] == s[1..] + rest;
      assert s == [s[0]] + s[1..];
      UpToNewlineBefore(s[1..], rest);
    }
  }

  /** On a text without a line break, `.*` takes all of it. */
  lemma {:induction false} UpToNewlineWhole(s: string)
    requires '\n' !in s
    ensures UpToNewline(s) == s
    decreases |s|
  {
    if s != [] {
      assert s == [s[0]] + s[1..];
      UpToNewlineWhole(s[1..]);
    }
  }

  /** Python's `"".join(parts)`. */
  function Concat(parts: seq<string>): string {
    if parts == [] then [] else parts[0] + Concat(parts[1..])
  }

  /**
   * Python's `s.splitlines(keepends=True)` with '\n' as the only line
   * boundary: every line keeps its '\n', the last may lack one, and
   * `""` has no lines at all. Joining the lines gives the text back.
   */
  function SplitLinesKeepEnds(s: string): (lines: seq<string>)
    ensures Concat(lines) == s
    decreases |s|
  {
    if s == [] then []
    else
      var k := |UpToNewline(s)|;
      if k == |s| then [s]
      else
        assert s[..k + 1] + s[k + 1..] == s;
        [s[..k + 1]] + SplitLinesKeepEnds(s[k + 1..])
  }

  /**
   * The lines are non-empty, a '\n' can only be the last character of a
   * line, and every line but the last ends with one.
   */
  lemma SplitLinesShape(s: string)
    ensures var lines := SplitLinesKeepEnds(s);
      (forall i :: 0 <= i < |lines| ==> lines[i] != []) &&
      (forall i :: 0 <= i < |lines| ==> '\n' !in lines[i][..|lines[i]| - 1]) &&
      (forall i :: 0 <= i < |lines| - 1 ==> lines[i][|lines[i]| - 1] == '\n')
  {
    var lines := SplitLinesKeepEnds(s);
    forall i | 0 <= i < |lines|
      ensures lines[i] != [] && '\n' !in lines[i][..|lines[i]| - 1]
      ensures i < |lines| - 1 ==> lines[i][|lines[i]| - 1] == '\n'
    {
      SplitLineAt(s, i);
    }
  }

  /** The shape of line `i`, by induction on the lines before it. */
  lemma {:induction false} SplitLineAt(s: string, i: nat)
    requires i < |SplitLinesKeepEnds(s)|
    ensures var lines := SplitLinesKeepEnds(s);
      lines[i] != [] && '\n' !in lines[i][..|lines[i]| - 1] &&
      (i < |lines| - 1 ==> lines[i][|lines[i]| - 1] == '\n')
    decreases |s|
  {
    if i == 0 {
      FirstLine(s);
    } else {
      var k := |UpToNewline(s)|;
      var rest := s[k + 1..];
      assert SplitLinesKeepEnds(s) == [s[..k + 1]] + SplitLinesKeepEnds(rest);
      SplitLineAt(rest, i - 1);
    }
  }

  /** The first line runs up to and including the first '\n', or is the whole text. */
  lemma FirstLine(s: string)
    requires s != []
    ensures var lines := SplitLinesKeepEnds(s);
      lines[0] != [] && '\n' !in lines[0][..|lines[0]| - 1] &&
      (|lines| > 1 ==> lines[0][|lines[0]| - 1] == '\n')
  {
    var line := UpToNewline(s);
    var k := |line|;
    assert s[..k] == line;
    if k < |s| {
      assert SplitLinesKeepEnds(s)[0] == s[..k + 1];
      assert s[..k + 1][..k] == line;
    } else {
      assert SplitLinesKeepEnds(s) == [s];
      assert s[..|s| - 1] == line[..k - 1];
    }
  }

  /** `len(s.splitlines())`: the number of lines Python counts in `s`. */
  function LineCount(s: string): nat {
    |SplitLinesKeepEnds(s)|
  }

  /** Python's count: one line per '\n', plus one for an unterminated last line. */
  lemma {:induction false} LineCountByNewlines(s: string)
    ensures LineCount(s) == multiset(s)['\n'] + (if s != [] && s[|s| - 1] != '\n' then 1 else 0)
    decreases |s|
  {
    if s != [] {
      var line := UpToNewline(s);
      var k := |line|;
      assert s[..k] == line;
      if k == |s| {
        assert s == line;
        assert multiset(line)['\n'] == 0;
      } else {
        var rest := s[k + 1..];
        LineCountByNewlines(rest);
        assert s == line + ['\n'] + rest;
        LineCountStep(s, line, rest);
        NewlinesAcrossLine(line, rest);
      }
    }
  }

  lemma LineCountStep(s: string, line: string, rest: string)
    requires s != [] && line == UpToNewline(s) && |line| < |s| && rest == s[|line| + 1..]
    ensures LineCount(s) == 1 + LineCount(rest)
    ensures rest != [] ==> s[|s| - 1] == rest[|rest| - 1]
    ensures rest == [] ==> s[|s| - 1] == '\n'
  {
    var k := |line|;
    assert SplitLinesKeepEnds(s) == [s[..k + 1]] + SplitLinesKeepEnds(rest);
    assert s[k] == '\n';
    if rest != [] {
      assert s[|s| - 1] == s[k + 1..][|rest| - 1];
    }
  }

  lemma NewlinesAcrossLine(line: string, rest: string)
    requires '\n' !in line
    ensures multiset(line + ['\n'] + rest)['\n'] == 1 + multiset(rest)['\n']
  {
    assert multiset(line + ['\n'] + rest) == multiset(line) + multiset(['\n']) + multiset(rest);
    assert multiset(line)['\n'] == 0;
  }

  /** Python's `s.strip()`: drops leading and trailing whitespace. */
  function Strip(s: string): (r: string)
    ensures exists i, j :: 0 <= i <= j <= |s| && r == s[i..j] && AllSpaces(s[..i]) && AllSpaces(s[j..])
    ensures r == [] || (!IsSpace(r[0]) && !IsSpace(r[|r| - 1]))
  {
    var i := Blanks(s);
    var j := |s| - Blanks(Reverse(s[i..]));
    assert AllSpaces(s[..i]);
    TrailingSpaces(s, i);
    s[i..j]
  }

  function Reverse(s: string): (r: string)
    ensures |r| == |s|
    ensures forall k :: 0 <= k < |s| ==> r[k] == s[|s| - 1 - k]
  {
    if s == [] then [] else Reverse(s[1..]) + [s[0]]
  }

  /** The trailing-whitespace run found through `Reverse` is exactly what `Strip` cuts off. */
  lemma TrailingSpaces(s: string, i: nat)
    requires i <= |s| && (i == |s| || !IsSpace(s[i]))
    ensures var j := |s| - Blanks(Reverse(s[i..]));
      i <= j <= |s| && AllSpaces(s[j..]) &&
      (i == j || (!IsSpace(s[i]) && !IsSpace(s[j - 1])))
  {
    var t := s[i..];
    var m := Blanks(Reverse(t));
    var j := |s| - m;
    forall k | 0 <= k < |s| - j
      ensures IsSpace(s[j..][k])
    {
      assert Reverse(t)[m - 1 - k] == t[|t| - 1 - (m - 1 - k)];
    }
    if i < j {
      assert Reverse(t)[m] == t[|t| - 1 - m];
    }
  }

  /** `pat` occurs in `s` starting at index `i`. */
  predicate OccursAt(s: string, pat: string, i: nat) {
    i + |pat| <= |s| && s[i..i + |pat|] == pat
  }

  /** Python's `s.find(pat, from)`, as an option: the least index at or after `from` where `pat` occurs. */
  function IndexOfFrom(s: string, pat: string, from: nat): (r: Option<nat>)
    ensures r.Some? ==> from <= r.value && OccursAt(s, pat, r.value)
    ensures r.Some? ==> forall k :: from <= k < r.value ==> !OccursAt(s, pat, k)
    ensures r.None? ==> forall k :: from <= k ==> !OccursAt(s, pat, k)
    decreases |s| - from
  {
    if from + |pat| > |s| then None
    else if OccursAt(s, pat, from) then Some(from)
    else IndexOfFrom(s, pat, from + 1)
  }

  /** The first occurrence at or after `from` is the one `IndexOfFrom` finds. */
  lemma IndexOfFromIs(s: string, pat: string, from: nat, j: nat)
    requires from <= j && OccursAt(s, pat, j)
    requires forall k :: from <= k < j ==> !OccursAt(s, pat, k)
    ensures IndexOfFrom(s, pat, from) == Some(j)
  {
    var r := IndexOfFrom(s, pat, from);
    assert r.Some?;
    assert !(r.value < j);
    assert !(j < r.value);
  }
}
