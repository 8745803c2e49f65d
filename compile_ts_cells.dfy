/**
 * The compile script: the code cells of a TypeScript notebook are joined
 * into one file, `tsc --noEmit` type-checks it, each diagnostic line of the
 * form `file(row,col): error RULE: message` is parsed and mapped back to a
 * cell, and the notebook counts as changed exactly when `tsc` fails. The
 * notebook itself is never rewritten.
 */
module CompileTsCells {
  import opened Wrappers
  import opened Text
  import opened Notebooks
  import opened CellSplit

  /** One parsed diagnostic; note that the message comes before the rule here. */
  datatype CompileResult = CompileResult(line: nat, column: nat, message: string, ruleId: string)

  /**
   * The rule group `(.*?)` followed by `:\s+`: the lazy group stops at the
   * first ':' that is followed by whitespace, and `.` never crosses a line break.
   */
  predicate LazyRule(rule: string) {
    NoLeadingSpace(rule) && '\n' !in rule && forall i :: 0 <= i < |rule| ==> !ColonBlankAt(rule, i)
  }

  /** Position `i` of `s` holds a ':' followed by whitespace. */
  predicate ColonBlankAt(s: string, i: int) {
    0 <= i && i + 1 < |s| && s[i] == ':' && IsSpace(s[i + 1])
  }

  /**
   * A line that `^\s*(\S+)\((\d+),(\d+)\):\s+error\s+(.*?):\s+(.*)` matches,
   * cut into the pieces the pattern consumes.
   */
  datatype TscLine = TscLine(lead: string, file: string, row: string, column: string,
                             gap1: string, gap2: string, rule: string, gap3: string, msg: string)

  predicate WellFormed(l: TscLine) {
    AllSpaces(l.lead) && l.file != [] && AllNonSpaces(l.file) &&
    l.row != [] && AllDigits(l.row) && l.column != [] && AllDigits(l.column) &&
    l.gap1 != [] && AllSpaces(l.gap1) && l.gap2 != [] && AllSpaces(l.gap2) &&
    LazyRule(l.rule) && l.gap3 != [] && AllSpaces(l.gap3) && NoLeadingSpace(l.msg)
  }

  function Render(l: TscLine): string {
    l.lead + (l.file + ("(" + (l.row + ("," + (l.column + ("):" + (l.gap1 + ("error" +
      (l.gap2 + (l.rule + (":" + (l.gap3 + l.msg))))))))))))
  }

  /**
   * Where the lazy rule group ends: the least index at or after `from` that
   * holds ':' followed by whitespace, provided no line break comes first.
   */
  function RuleEnd(y: string, from: nat): (r: Option<nat>)
    requires from <= |y|
    ensures r.Some? ==> from <= r.value && ColonBlankAt(y, r.value)
    ensures r.Some? ==> forall i :: from <= i < r.value ==> y[i] != '\n'
    ensures r.Some? ==> forall i :: from <= i < r.value ==> !ColonBlankAt(y, i)
    decreases |y| - from
  {
    if from + 1 >= |y| || y[from] == '\n' then None
    else if ColonBlankAt(y, from) then Some(from)
    else RuleEnd(y, from + 1)
  }

  /** The whole pattern, anchored at the start of the line, one stage per piece. */
  function MatchLine(s: string): (m: Option<TscLine>)
    ensures m.Some? ==> WellFormed(m.value) && Render(m.value) == s
  {
    var a := Blanks(s);
    assert s == s[..a] + s[a..];
    SplitAt(s[..a], s[a..], NonBlanks(s[a..]))
  }

  /**
   * `(\S+)\(` by backtracking: the file name is the longest prefix of the
   * non-blank run, of length at most `len`, that is followed by '(' and
   * from which the rest of the pattern matches.
   */
  function SplitAt(lead: string, t: string, len: nat): (m: Option<TscLine>)
    requires AllSpaces(lead) && len <= NonBlanks(t)
    ensures m.Some? ==> WellFormed(m.value) && Render(m.value) == lead + t
    decreases len
  {
    if len == 0 then None
    else if len == |t| then SplitAt(lead, t, len - 1)
    else
      NonBlanksPrefix(t, len);
      match TryFile(lead, t, len)
      case Some(l) => Some(l)
      case None => SplitAt(lead, t, len - 1)
  }

  /** One split point: the first `len` characters as the file name, then '(' and the rest of the pattern. */
  function TryFile(lead: string, t: string, len: nat): (m: Option<TscLine>)
    requires AllSpaces(lead) && 0 < len < |t| && AllNonSpaces(t[..len])
    ensures m.Some? ==> WellFormed(m.value) && Render(m.value) == lead + t
  {
    if t[len] != '(' then None
    else
      assert t == t[..len] + ("(" + t[len + 1..]);
      MatchPosition(lead, t[..len], t[len + 1..])
  }

  /** `(\d+),` after the '(' that ends the file name. */
  function MatchPosition(lead: string, file: string, u: string): (m: Option<TscLine>)
    requires AllSpaces(lead) && file != [] && AllNonSpaces(file)
    ensures m.Some? ==> WellFormed(m.value) && Render(m.value) == lead + (file + ("(" + u))
  {
    var d := Digits(u);
    if d == 0 || d == |u| || u[d] != ',' then None
    else
      assert u == u[..d] + ("," + u[d + 1..]);
      MatchColumn(lead, file, u[..d], u[d + 1..])
  }

  /** `(\d+)\):` after the comma. */
  function MatchColumn(lead: string, file: string, row: string, v: string): (m: Option<TscLine>)
    requires AllSpaces(lead) && file != [] && AllNonSpaces(file) && row != [] && AllDigits(row)
    ensures m.Some? ==> WellFormed(m.value) && Render(m.value) == lead + (file + ("(" + (row + ("," + v))))
  {
    var d := Digits(v);
    if d == 0 || d + 2 > |v| || v[d..d + 2] != "):" then None
    else
      assert v == v[..d] + ("):" + v[d + 2..]);
      MatchError(lead, file, row, v[..d], v[d + 2..])
  }

  /** `\s+error` after `):`. */
  function MatchError(lead: string, file: string, row: string, column: string, w: string): (m: Option<TscLine>)
    requires AllSpaces(lead) && file != [] && AllNonSpaces(file) && row != [] && AllDigits(row)
    requires column != [] && AllDigits(column)
    ensures m.Some? ==>
      WellFormed(m.value) && Render(m.value) == lead + (file + ("(" + (row + ("," + (column + ("):" + w))))))
  {
    var g := Blanks(w);
    if g == 0 || g + 5 > |w| || w[g..g + 5] != "error" then None
    else
      assert w == w[..g] + ("error" + w[g + 5..]);
      MatchGap(lead, file, row, column, w[..g], w[g + 5..])
  }

  /** `\s+` after `error`. */
  function MatchGap(lead: string, file: string, row: string, column: string, gap1: string, x: string): (m: Option<TscLine>)
    requires AllSpaces(lead) && file != [] && AllNonSpaces(file) && row != [] && AllDigits(row)
    requires column != [] && AllDigits(column) && gap1 != [] && AllSpaces(gap1)
    ensures m.Some? ==>
      WellFormed(m.value) && Render(m.value) == lead + (file + ("(" + (row + ("," + (column + ("):" + (gap1 + ("error" + x))))))))
  {
    var g := Blanks(x);
    if g == 0 then None
    else
      assert x == x[..g] + x[g..];
      MatchRule(lead, file, row, column, gap1, x[..g], x[g..])
  }

  /** `(.*?):\s+(.*)` after the blanks that follow `error`. */
  function MatchRule(lead: string, file: string, row: string, column: string,
                     gap1: string, gap2: string, y: string): (m: Option<TscLine>)
    requires AllSpaces(lead) && file != [] && AllNonSpaces(file) && row != [] && AllDigits(row)
    requires column != [] && AllDigits(column) && gap1 != [] && AllSpaces(gap1)
    requires gap2 != [] && AllSpaces(gap2) && NoLeadingSpace(y)
    ensures m.Some? ==>
      WellFormed(m.value) && Render(m.value) == lead + (file + ("(" + (row + ("," + (column + ("):" + (gap1 + ("error" + (gap2 + y)))))))))
  {
    match RuleEnd(y, 0)
    case None => None
    case Some(j) =>
      var rule := y[..j];
      var z := y[j + 1..];
      var g := Blanks(z);
      assert y == rule + (":" + (z[..g] + z[g..]));
      assert forall i :: 0 <= i < j ==> rule[i] == y[i];
      assert forall i :: 0 <= i < j ==> ColonBlankAt(rule, i) ==> ColonBlankAt(y, i);
      assert LazyRule(rule);
      Some(TscLine(lead, file, row, column, gap1, gap2, rule, z[..g], z[g..]))
  }

  /** `parse_lint_output` of the compile script. */
  function ParseLintOutput(line: string): (r: CompileResult)
    ensures '\n' !in r.message && '\n' !in r.ruleId
    ensures forall i :: 0 <= i < |r.ruleId| ==> !ColonBlankAt(r.ruleId, i)
  {
    match MatchLine(line)
    case None => CompileResult(0, 0, "", "")
    case Some(l) => CompileResult(DecimalValue(l.row), DecimalValue(l.column), UpToNewline(l.msg), l.rule)
  }

  /**
   * What the parser returns: the numbers, the message up to the first line
   * break and the rule of some well-formed diagnostic that renders to the
   * line, and zeros with empty strings when there is none.
   */
  lemma ParseShape(line: string)
    ensures var r := ParseLintOutput(line);
      (r == CompileResult(0, 0, "", "") && MatchLine(line).None?) ||
      exists l :: WellFormed(l) && Render(l) == line &&
        r == CompileResult(DecimalValue(l.row), DecimalValue(l.column), UpToNewline(l.msg), l.rule)
  {
  }

  /** The lazy rule group ends at the first ':' followed by whitespace, which for a `LazyRule` is its end. */
  lemma RuleEndAt(y: string, from: nat, j: nat)
    requires from <= j && ColonBlankAt(y, j)
    requires forall i :: from <= i < j ==> y[i] != '\n'
    requires forall i :: from <= i < j ==> !ColonBlankAt(y, i)
    ensures RuleEnd(y, from) == Some(j)
  {
    var n := j;
    RuleEndStep(y, n);
    while n > from
      invariant from <= n <= j
      invariant RuleEnd(y, n) == Some(j)
    {
      n := n - 1;
      RuleEndStep(y, n);
    }
  }

  /** One step of the scan: a colon and blank ends it, any other character but a line break moves it on. */
  lemma RuleEndStep(y: string, n: nat)
    requires n + 1 < |y| && y[n] != '\n'
    ensures ColonBlankAt(y, n) ==> RuleEnd(y, n) == Some(n)
    ensures !ColonBlankAt(y, n) ==> RuleEnd(y, n) == RuleEnd(y, n + 1)
  {
    assert !(n + 1 >= |y| || y[n] == '\n');
  }

  lemma RuleStage(l: TscLine)
    requires WellFormed(l)
    ensures NoLeadingSpace(l.rule + (":" + (l.gap3 + l.msg)))
    ensures MatchRule(l.lead, l.file, l.row, l.column, l.gap1, l.gap2, l.rule + (":" + (l.gap3 + l.msg))) == Some(l)
  {
    var j := |l.rule|;
    var y := l.rule + (":" + (l.gap3 + l.msg));
    RuleEndOf(l.rule, l.gap3, l.msg);
    ColonThen(l.rule, l.gap3 + l.msg);
    BlanksConcat(l.gap3, l.msg);
    var z := y[j + 1..];
    var g := Blanks(z);
    assert y[..j] == l.rule && z == l.gap3 + l.msg && g == |l.gap3|;
    assert z[..g] == l.gap3 && z[g..] == l.msg;
  }

  /** The lazy group of a `LazyRule` followed by `:` and blanks ends exactly at that colon. */
  lemma RuleEndOf(rule: string, gap3: string, msg: string)
    requires LazyRule(rule) && gap3 != [] && AllSpaces(gap3)
    ensures RuleEnd(rule + (":" + (gap3 + msg)), 0) == Some(|rule|)
  {
    var y := rule + (":" + (gap3 + msg));
    var j := |rule|;
    assert y[j] == ':' && y[j + 1] == gap3[0];
    forall i | 0 <= i < j
      ensures y[i] != '\n' && !ColonBlankAt(y, i)
    {
      assert y[i] == rule[i];
      assert y[i] != '\n';
      if i + 1 < j {
        assert y[i + 1] == rule[i + 1];
        assert !ColonBlankAt(rule, i);
      } else {
        assert !IsSpace(y[i + 1]);
      }
    }
    RuleEndAt(y, 0, j);
  }

  /** Cutting `rule:rest` at the colon gives both pieces back; the text starts with the rule, or the colon. */
  lemma ColonThen(rule: string, rest: string)
    ensures var y := rule + (":" + rest);
      |rule| < |y| && y[..|rule|] == rule && y[|rule| + 1..] == rest &&
      y[0] == (if rule == [] then ':' else rule[0])
  {
    var y := rule + (":" + rest);
    assert y[|rule|..] == ":" + rest;
  }

  lemma GapStage(lead: string, file: string, row: string, column: string, gap1: string, gap2: string, y: string)
    requires AllSpaces(lead) && file != [] && AllNonSpaces(file) && row != [] && AllDigits(row)
    requires column != [] && AllDigits(column) && gap1 != [] && AllSpaces(gap1)
    requires gap2 != [] && AllSpaces(gap2) && NoLeadingSpace(y)
    ensures MatchGap(lead, file, row, column, gap1, gap2 + y) == MatchRule(lead, file, row, column, gap1, gap2, y)
  {
    BlanksConcat(gap2, y);
  }

  lemma ErrorStage(lead: string, file: string, row: string, column: string, gap1: string, x: string)
    requires AllSpaces(lead) && file != [] && AllNonSpaces(file) && row != [] && AllDigits(row)
    requires column != [] && AllDigits(column) && gap1 != [] && AllSpaces(gap1)
    ensures MatchError(lead, file, row, column, gap1 + ("error" + x)) == MatchGap(lead, file, row, column, gap1, x)
  {
    var w := gap1 + ("error" + x);
    BlanksThen(gap1, "error", x);
    var g := Blanks(w);
    assert g == |gap1| && w[..g] == gap1 && w[g + 5..] == x;
    assert !(g == 0 || g + 5 > |w| || w[g..g + 5] != "error");
  }

  lemma ColumnStage(lead: string, file: string, row: string, column: string, w: string)
    requires AllSpaces(lead) && file != [] && AllNonSpaces(file) && row != [] && AllDigits(row)
    requires column != [] && AllDigits(column)
    ensures MatchColumn(lead, file, row, column + ("):" + w)) == MatchError(lead, file, row, column, w)
  {
    var v := column + ("):" + w);
    DigitsThen(column, "):", w);
    assert !(|column| == 0 || |column| + 2 > |v| || v[|column|..|column| + 2] != "):");
  }

  lemma PositionStage(lead: string, file: string, row: string, v: string)
    requires AllSpaces(lead) && file != [] && AllNonSpaces(file) && row != [] && AllDigits(row)
    ensures MatchPosition(lead, file, row + ("," + v)) == MatchColumn(lead, file, row, v)
  {
    var u := row + ("," + v);
    DigitsThen(row, ",", v);
    assert u[|row|] == ',';
    assert !(|row| == 0 || |row| == |u| || u[|row|] != ',');
  }

  /** The non-blank run that starts with the file name ends right after `):`, and holds no '(' past the file name. */
  lemma FileRun(file: string, row: string, column: string, w: string)
    requires file != [] && AllNonSpaces(file) && row != [] && AllDigits(row) && column != [] && AllDigits(column)
    requires w != [] && IsSpace(w[0])
    ensures var t := file + ("(" + (row + ("," + (column + ("):" + w)))));
      NonBlanks(t) == |file| + |row| + |column| + 4 &&
      forall i :: |file| < i <= NonBlanks(t) && i < |t| ==> t[i] != '('
  {
    var u := row + ("," + (column + ("):" + w)));
    var t := file + ("(" + u);
    var m := |file| + |row| + |column| + 4;
    forall q | 0 <= q < m - |file| - 1
      ensures !IsSpace(u[q]) && u[q] != '('
    {
      if q < |row| {
        assert u[q] == row[q];
      } else if q == |row| {
        assert u[q] == ',';
      } else if q < |row| + 1 + |column| {
        assert u[q] == column[q - |row| - 1];
      } else if q == |row| + 1 + |column| {
        assert u[q] == ')';
      } else {
        assert u[q] == ':';
      }
    }
    forall i | 0 <= i < m
      ensures !IsSpace(t[..m][i]) && (|file| < i ==> t[i] != '(')
    {
      if i > |file| {
        assert t[i] == u[i - |file| - 1];
      } else if i < |file| {
        assert t[i] == file[i];
      }
    }
    assert u[m - |file| - 1] == w[0];
    assert t[m] == w[0];
    NonBlanksConcat(t[..m], t[m..]);
    assert t[..m] + t[m..] == t;
  }

  /** Backtracking past positions that hold no '(' changes nothing. */
  lemma SplitSkip(lead: string, t: string, k: nat, len: nat)
    requires AllSpaces(lead) && k <= len <= NonBlanks(t)
    requires forall i :: k < i <= len && i < |t| ==> t[i] != '('
    ensures SplitAt(lead, t, len) == SplitAt(lead, t, k)
  {
    var n := len;
    while n > k
      invariant k <= n <= len
      invariant SplitAt(lead, t, len) == SplitAt(lead, t, n)
    {
      SplitStep(lead, t, n);
      n := n - 1;
    }
  }

  /** A split point with no '(' after it falls through to the next shorter one. */
  lemma SplitStep(lead: string, t: string, len: nat)
    requires AllSpaces(lead) && 0 < len <= NonBlanks(t) && (len == |t| || t[len] != '(')
    ensures SplitAt(lead, t, len) == SplitAt(lead, t, len - 1)
  {
    if len < |t| {
      NonBlanksPrefix(t, len);
      assert TryFile(lead, t, len).None?;
    }
  }

  /** The backtracking split lands on the last '(' of the run, the one that ends the file name. */
  lemma FileStage(lead: string, file: string, row: string, column: string, w: string)
    requires AllSpaces(lead) && file != [] && AllNonSpaces(file) && row != [] && AllDigits(row)
    requires column != [] && AllDigits(column) && w != [] && IsSpace(w[0])
    requires MatchPosition(lead, file, row + ("," + (column + ("):" + w)))).Some?
    ensures var t := file + ("(" + (row + ("," + (column + ("):" + w)))));
      SplitAt(lead, t, NonBlanks(t)) == MatchPosition(lead, file, row + ("," + (column + ("):" + w))))
  {
    var u := row + ("," + (column + ("):" + w)));
    FileSkip(lead, file, row, column, w);
    SplitHere(lead, file, u);
  }

  /** Backtracking from the end of the non-blank run reaches the end of the file name unchanged. */
  lemma FileSkip(lead: string, file: string, row: string, column: string, w: string)
    requires AllSpaces(lead) && file != [] && AllNonSpaces(file) && row != [] && AllDigits(row)
    requires column != [] && AllDigits(column) && w != [] && IsSpace(w[0])
    ensures var t := file + ("(" + (row + ("," + (column + ("):" + w)))));
      |file| <= NonBlanks(t) && SplitAt(lead, t, NonBlanks(t)) == SplitAt(lead, t, |file|)
  {
    var t := file + ("(" + (row + ("," + (column + ("):" + w)))));
    FileRun(file, row, column, w);
    SplitSkip(lead, t, |file|, NonBlanks(t));
  }

  /** Cutting `file(rest` at the '(' after the file name gives both pieces back. */
  lemma ParenThen(file: string, rest: string)
    ensures var t := file + ("(" + rest);
      |file| < |t| && t[..|file|] == file && t[|file|] == '(' && t[|file| + 1..] == rest
  {
    var t := file + ("(" + rest);
    assert t[|file|..] == "(" + rest;
  }

  /** A split point that matches is the one taken. */
  lemma SplitHere(lead: string, file: string, u: string)
    requires AllSpaces(lead) && file != [] && AllNonSpaces(file) && MatchPosition(lead, file, u).Some?
    requires |file| <= NonBlanks(file + ("(" + u))
    ensures SplitAt(lead, file + ("(" + u), |file|) == MatchPosition(lead, file, u)
  {
    var t := file + ("(" + u);
    ParenThen(file, u);
    NonBlanksPrefix(t, |file|);
    assert TryFile(lead, t, |file|) == MatchPosition(lead, file, u);
    assert |file| != 0 && |file| != |t|;
  }

  lemma LineStage(lead: string, t: string)
    requires AllSpaces(lead) && NoLeadingSpace(t)
    ensures MatchLine(lead + t) == SplitAt(lead, t, NonBlanks(t))
  {
    BlanksConcat(lead, t);
  }

  /** Every well-formed diagnostic line is matched, and cut back into the same pieces. */
  lemma MatchRender(l: TscLine)
    requires WellFormed(l)
    ensures MatchLine(Render(l)) == Some(l)
  {
    var y := l.rule + (":" + (l.gap3 + l.msg));
    var x := l.gap2 + y;
    var w := l.gap1 + ("error" + x);
    var v := l.column + ("):" + w);
    var u := l.row + ("," + v);
    var t := l.file + ("(" + u);
    RuleStage(l);
    GapStage(l.lead, l.file, l.row, l.column, l.gap1, l.gap2, y);
    ErrorStage(l.lead, l.file, l.row, l.column, l.gap1, x);
    ColumnStage(l.lead, l.file, l.row, l.column, w);
    PositionStage(l.lead, l.file, l.row, v);
    FileStage(l.lead, l.file, l.row, l.column, w);
    assert t[0] == l.file[0];
    LineStage(l.lead, t);
  }

  /** A well-formed diagnostic line parses to its own numbers, message and rule. */
  lemma ParseRender(l: TscLine)
    requires WellFormed(l)
    ensures ParseLintOutput(Render(l)) ==
      CompileResult(DecimalValue(l.row), DecimalValue(l.column), UpToNewline(l.msg), l.rule)
  {
    MatchRender(l);
  }

  /** A diagnostic as `tsc` prints it: `file(row,col): error TSnnnn: message`. */
  function Diagnostic(file: string, row: nat, column: nat, code: nat, message: string): string {
    file + ("(" + (Decimal(row) + ("," + (Decimal(column) + ("):" + (" " + ("error" +
      (" " + (("TS" + Decimal(code)) + (":" + (" " + message)))))))))))
  }

  /** Such a diagnostic parses to its row, column, message and rule code. */
  lemma ParseDiagnostic(file: string, row: nat, column: nat, code: nat, message: string)
    requires file != [] && AllNonSpaces(file)
    requires '\n' !in message && NoLeadingSpace(message)
    ensures ParseLintOutput(Diagnostic(file, row, column, code, message)) ==
      CompileResult(row, column, message, "TS" + Decimal(code))
  {
    var l := DiagnosticPieces(file, row, column, code, message);
    ParseRender(l);
    UpToNewlineWhole(message);
  }

  /** The pieces of a printed diagnostic, which form a well-formed line. */
  function DiagnosticPieces(file: string, row: nat, column: nat, code: nat, message: string): (l: TscLine)
    requires file != [] && AllNonSpaces(file) && NoLeadingSpace(message)
    ensures WellFormed(l) && Render(l) == Diagnostic(file, row, column, code, message)
    ensures l.row == Decimal(row) && l.column == Decimal(column) && l.rule == "TS" + Decimal(code) && l.msg == message
  {
    var rule := "TS" + Decimal(code);
    TsRule(code);
    var l := TscLine([], file, Decimal(row), Decimal(column), " ", " ", rule, " ", message);
    assert AllSpaces(" ");
    assert [] + Diagnostic(file, row, column, code, message) == Diagnostic(file, row, column, code, message);
    l
  }

  /** A `TSnnnn` code holds no colon, so the lazy group takes all of it. */
  lemma TsRule(code: nat)
    ensures LazyRule("TS" + Decimal(code))
  {
    var rule := "TS" + Decimal(code);
    assert forall i :: 2 <= i < |rule| ==> rule[i] == Decimal(code)[i - 2];
  }

  /**
   * A `warning` diagnostic never parses: at the '(' after the file name the
   * pattern needs `error` after the blanks, and at every '(' inside the file
   * name `):` comes too early, before the blank that the pattern needs.
   */
  lemma WarningNeverMatches(lead: string, file: string, row: string, column: string, gap: string, rest: string)
    requires AllSpaces(lead) && file != [] && AllNonSpaces(file) && row != [] && AllDigits(row)
    requires column != [] && AllDigits(column) && gap != [] && AllSpaces(gap)
    ensures ParseLintOutput(lead + (file + ("(" + (row + ("," + (column + ("):" + (gap + ("warning" + rest))))))))) ==
      CompileResult(0, 0, "", "")
  {
    var w := gap + ("warning" + rest);
    var u := row + ("," + (column + ("):" + w)));
    var t := file + ("(" + u);
    ParenThen(file, u);
    assert t[0] == file[0];
    LineStage(lead, t);
    FileSkip(lead, file, row, column, w);
    FileRun(file, row, column, w);
    WarningAtFileSplit(lead, file, row, column, gap, rest);
    EarlySplitsFail(lead, t, |file|);
    assert MatchLine(lead + t).None?;
  }

  /** At the '(' after the file name, `warning` is not `error`: the split falls through to a shorter one. */
  lemma WarningAtFileSplit(lead: string, file: string, row: string, column: string, gap: string, rest: string)
    requires AllSpaces(lead) && file != [] && AllNonSpaces(file) && row != [] && AllDigits(row)
    requires column != [] && AllDigits(column) && gap != [] && AllSpaces(gap)
    ensures var t := file + ("(" + (row + ("," + (column + ("):" + (gap + ("warning" + rest)))))));
      |file| <= NonBlanks(t) && SplitAt(lead, t, |file|) == SplitAt(lead, t, |file| - 1)
  {
    var w := gap + ("warning" + rest);
    var v := column + ("):" + w);
    var u := row + ("," + v);
    var t := file + ("(" + u);
    FileRun(file, row, column, w);
    ParenThen(file, u);
    NonBlanksPrefix(t, |file|);
    PositionStage(lead, file, row, v);
    ColumnStage(lead, file, row, column, w);
    ErrorRejectsWarning(lead, file, row, column, gap, rest);
    assert TryFile(lead, t, |file|) == MatchPosition(lead, file, u);
    assert |file| != |t|;
  }

  /** Every split shorter than `k`, where `t` holds a '(' two places or more before the end of its non-blank run, fails. */
  lemma EarlySplitsFail(lead: string, t: string, k: nat)
    requires AllSpaces(lead) && 0 < k && k + 2 < NonBlanks(t) && t[k] == '('
    ensures SplitAt(lead, t, k - 1).None?
  {
    var n := 0;
    while n < k - 1
      invariant 0 <= n <= k - 1
      invariant SplitAt(lead, t, n).None?
    {
      n := n + 1;
      EarlySplitFails(lead, t, k, n);
    }
  }

  /** A split at a '(' inside the file name fails: the '(' after the file name is neither a digit nor a comma. */
  lemma EarlySplitFails(lead: string, t: string, k: nat, len: nat)
    requires AllSpaces(lead) && 0 < len < k && k + 2 < NonBlanks(t) && t[k] == '('
    ensures SplitAt(lead, t, len) == SplitAt(lead, t, len - 1)
  {
    NonBlanksPrefix(t, len);
    if t[len] == '(' {
      EarlyPositionFails(lead, t, k, len);
      assert TryFile(lead, t, len) == MatchPosition(lead, t[..len], t[len + 1..]);
    }
    assert TryFile(lead, t, len).None?;
    assert len != |t|;
  }

  lemma EarlyPositionFails(lead: string, t: string, k: nat, len: nat)
    requires AllSpaces(lead) && 0 < len < k && k + 2 < NonBlanks(t) && t[k] == '(' && AllNonSpaces(t[..len])
    ensures MatchPosition(lead, t[..len], t[len + 1..]).None?
  {
    var u := t[len + 1..];
    var m := NonBlanks(t);
    forall i | 0 <= i <= k - len + 1
      ensures !IsSpace(u[i])
    {
      assert u[i] == t[..m][len + 1 + i];
    }
    assert u[k - len - 1] == t[k];
    PositionBlocked(lead, t[..len], u, k - len - 1);
  }

  /** `(\d+),(\d+):` cannot reach past a '(', and the blank the pattern then needs is not there. */
  lemma PositionBlocked(lead: string, file: string, u: string, p: nat)
    requires AllSpaces(lead) && file != [] && AllNonSpaces(file)
    requires p + 2 < |u| && u[p] == '(' && forall i :: 0 <= i <= p + 2 ==> !IsSpace(u[i])
    ensures MatchPosition(lead, file, u).None?
  {
    var d := Digits(u);
    DigitsBefore(u, p);
    if d != 0 && d < |u| && u[d] == ',' {
      ColumnBlocked(lead, file, u[..d], u[d + 1..], p - d - 1);
    }
  }

  lemma ColumnBlocked(lead: string, file: string, row: string, v: string, q: nat)
    requires AllSpaces(lead) && file != [] && AllNonSpaces(file) && row != [] && AllDigits(row)
    requires q + 2 < |v| && v[q] == '(' && forall i :: 0 <= i <= q + 2 ==> !IsSpace(v[i])
    ensures MatchColumn(lead, file, row, v).None?
  {
    var d := Digits(v);
    DigitsBefore(v, q);
    if d != 0 && d + 2 <= |v| && v[d..d + 2] == "):" {
      assert v[d] == v[d..d + 2][0] && v[d + 1] == v[d..d + 2][1];
      var w := v[d + 2..];
      assert w[0] == v[d + 2];
    }
  }

  lemma ErrorRejectsWarning(lead: string, file: string, row: string, column: string, gap: string, rest: string)
    requires AllSpaces(lead) && file != [] && AllNonSpaces(file) && row != [] && AllDigits(row)
    requires column != [] && AllDigits(column) && AllSpaces(gap)
    ensures MatchError(lead, file, row, column, gap + ("warning" + rest)).None?
  {
    var w := gap + ("warning" + rest);
    BlanksConcat(gap, "warning" + rest);
    assert w[|gap|..|gap| + 5][0] == 'w';
  }

  /** Where a diagnostic lands: its cell (or -1), the row relative to that cell, its column and message. */
  datatype Location = Location(cell: int, row: int, column: nat, message: string)

  /**
   * One round of the report loop: the stripped output line is parsed, and
   * a parse with a nonzero line and column is mapped back to a cell.
   */
  method LocateLine(codes: seq<string>, outputLine: string) returns (loc: Option<Location>)
    ensures var p := ParseLintOutput(Strip(outputLine));
      (loc.Some? <==> p.line != 0 && p.column != 0) &&
      (loc.Some? ==> loc.value.column == p.column && loc.value.message == p.message)
    ensures loc.Some? && loc.value.cell == -1 ==>
      (codes == [] || Offset(codes, |codes|) <= ParseLintOutput(Strip(outputLine)).line) &&
      loc.value.row == ParseLintOutput(Strip(outputLine)).line + 1
    ensures loc.Some? && loc.value.cell != -1 ==>
      0 <= loc.value.cell < |codes| &&
      loc.value.row == ParseLintOutput(Strip(outputLine)).line - Offset(codes, loc.value.cell) &&
      0 <= loc.value.row < LineCount(codes[loc.value.cell]) + 4
  {
    var parsed := ParseLintOutput(Strip(outputLine));
    if parsed.line != 0 && parsed.column != 0 {
      var cellIndex, startRow := FindCellFromGlobalLine(codes, parsed.line);
      loc := Some(Location(cellIndex, parsed.line - startRow, parsed.column, parsed.message));
    } else {
      loc := None;
    }
  }

  /**
   * `process_notebook` of the compile script, with `tsc`'s exit code on the
   * joined code cells as a parameter: a notebook counts as changed exactly
   * when it is TypeScript, has a code cell, and `tsc` fails on its cells.
   */
  function ProcessNotebook(nb: Notebook, tsc: string -> int): (changed: bool)
    ensures changed ==> IsTypeScript(nb) && exists i :: 0 <= i < |nb.cells| && IsCode(nb.cells[i])
    ensures IsTypeScript(nb) && (exists i :: 0 <= i < |nb.cells| && IsCode(nb.cells[i])) ==>
      (changed <==> tsc(Join(CodeTexts(nb.cells))) != 0)
  {
    CodeTextsEmpty(nb.cells);
    IsTypeScript(nb) && CodeTexts(nb.cells) != [] && tsc(Join(CodeTexts(nb.cells))) != 0
  }
}
