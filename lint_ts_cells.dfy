/**
 * The ESLint wrapper: it reads ESLint's report lines, maps each reported
 * line back to a notebook cell, and, in fix mode, writes the cells ESLint
 * rewrote back into the notebook.
 */
module LintTsCells {
  import opened Wrappers
  import opened Text
  import opened Notebooks
  import opened CellSplit

  /** `LintResult`: one parsed report line; `(0, 0, "", "")` when the line did not match. */
  datatype LintResult = LintResult(line: nat, column: nat, message: string, ruleId: string)

  /**
   * The pieces of a report line matched by `^\s*(\d+):(\d+)\s+error\s+(.*)`:
   * leading blanks, the row and column digits, the blank runs around the
   * word `error`, and everything after the second run.
   */
  datatype EslintLine = EslintLine(lead: string, row: string, column: string, gap1: string, gap2: string, rest: string)

  /** The shape the pattern accepts, with each blank run taken as long as possible. */
  predicate WellFormed(l: EslintLine) {
    AllSpaces(l.lead) &&
    l.row != [] && AllDigits(l.row) && l.column != [] && AllDigits(l.column) &&
    l.gap1 != [] && AllSpaces(l.gap1) && l.gap2 != [] && AllSpaces(l.gap2) &&
    NoLeadingSpace(l.rest)
  }

  function Render(l: EslintLine): string {
    l.lead + (l.row + (":" + (l.column + (l.gap1 + ("error" + (l.gap2 + l.rest))))))
  }

  /**
   * The regular expression as a character-level matcher, one stage per
   * piece. Every quantifier in it is followed by a character it cannot
   * match, so the greedy choice is the only one and nothing backtracks.
   */
  function MatchLine(s: string): (m: Option<EslintLine>)
    ensures m.Some? ==> WellFormed(m.value) && Render(m.value) == s
  {
    var a := Blanks(s);
    assert s == s[..a] + s[a..];
    MatchRow(s[..a], s[a..])
  }

  /** `(\d+):` after the leading blanks. */
  function MatchRow(lead: string, t: string): (m: Option<EslintLine>)
    requires AllSpaces(lead)
    ensures m.Some? ==> WellFormed(m.value) && Render(m.value) == lead + t
  {
    var d := Digits(t);
    if d == 0 || d == |t| || t[d] != ':' then None
    else
      assert t == t[..d] + (":" + t[d + 1..]);
      MatchColumn(lead, t[..d], t[d + 1..])
  }

  /** `(\d+)\s+error` after the colon. */
  function MatchColumn(lead: string, row: string, u: string): (m: Option<EslintLine>)
    requires AllSpaces(lead) && row != [] && AllDigits(row)
    ensures m.Some? ==> WellFormed(m.value) && Render(m.value) == lead + (row + (":" + u))
  {
    var d := Digits(u);
    var v := u[d..];
    var w := Blanks(v);
    if d == 0 || w == 0 || !(w + 5 <= |v| && v[w..w + 5] == "error") then None
    else
      assert v == v[..w] + ("error" + v[w + 5..]);
      assert u == u[..d] + v;
      MatchMessage(lead, row, u[..d], v[..w], v[w + 5..])
  }

  /** `\s+(.*)` after the word `error`. */
  function MatchMessage(lead: string, row: string, column: string, gap1: string, x: string): (m: Option<EslintLine>)
    requires AllSpaces(lead) && row != [] && AllDigits(row) && column != [] && AllDigits(column)
    requires gap1 != [] && AllSpaces(gap1)
    ensures m.Some? ==>
      WellFormed(m.value) && Render(m.value) == lead + (row + (":" + (column + (gap1 + ("error" + x)))))
  {
    var w := Blanks(x);
    if w == 0 then None
    else
      assert x == x[..w] + x[w..];
      Some(EslintLine(lead, row, column, gap1, x[..w], x[w..]))
  }

  /** Every line of the accepted shape matches, and is cut into exactly its pieces. */
  lemma MatchRender(l: EslintLine)
    requires WellFormed(l)
    ensures MatchLine(Render(l)) == Some(l)
  {
    var x := l.gap2 + l.rest;
    var u := l.column + (l.gap1 + ("error" + x));
    MessageStage(l);
    ColumnStage(l.lead, l.row, l.column, l.gap1, x);
    RowStage(l.lead, l.row, u);
    LineStage(l.lead, l.row + (":" + u));
  }

  lemma RowStage(lead: string, row: string, u: string)
    requires AllSpaces(lead) && row != [] && AllDigits(row)
    ensures MatchRow(lead, row + (":" + u)) == MatchColumn(lead, row, u)
  {
    var t := row + (":" + u);
    DigitsThen(row, ":", u);
    assert !(|row| == 0 || |row| == |t| || t[|row|] != ':');
  }

  lemma ColumnStage(lead: string, row: string, column: string, gap1: string, x: string)
    requires AllSpaces(lead) && row != [] && AllDigits(row) && column != [] && AllDigits(column)
    requires gap1 != [] && AllSpaces(gap1)
    ensures MatchColumn(lead, row, column + (gap1 + ("error" + x))) == MatchMessage(lead, row, column, gap1, x)
  {
    var v := gap1 + ("error" + x);
    var u := column + v;
    DigitsConcat(column, v);
    BlanksThen(gap1, "error", x);
    assert !(|column| == 0 || |gap1| == 0 || !(|gap1| + 5 <= |v| && v[|gap1|..|gap1| + 5] == "error"));
  }

  lemma MessageStage(l: EslintLine)
    requires WellFormed(l)
    ensures MatchMessage(l.lead, l.row, l.column, l.gap1, l.gap2 + l.rest) == Some(l)
  {
    BlanksConcat(l.gap2, l.rest);
    assert Blanks(l.gap2 + l.rest) != 0;
  }

  /** `parse_lint_output`: the row, column and message of an `error` line; the rule id is never filled in. */
  function ParseLintOutput(line: string): (r: LintResult)
    ensures r.ruleId == []
    ensures '\n' !in r.message
  {
    match MatchLine(line)
    case Some(l) => LintResult(DecimalValue(l.row), DecimalValue(l.column), UpToNewline(l.rest), "")
    case None => LintResult(0, 0, "", "")
  }

  /**
   * A line of the accepted shape parses to its row, column and the rest of
   * the line up to the first line break; every other line gives the empty record.
   */
  lemma ParseShape(line: string)
    ensures (exists l :: WellFormed(l) && Render(l) == line) ==>
      exists l :: WellFormed(l) && Render(l) == line &&
        ParseLintOutput(line) == LintResult(DecimalValue(l.row), DecimalValue(l.column), UpToNewline(l.rest), "")
    ensures !(exists l :: WellFormed(l) && Render(l) == line) ==> ParseLintOutput(line) == LintResult(0, 0, "", "")
  {
    if l :| WellFormed(l) && Render(l) == line {
      MatchRender(l);
    }
  }

  /** The line ESLint prints for an error parses back to that error's row, column and message. */
  lemma ParseReportedError(row: nat, column: nat, message: string)
    requires '\n' !in message && NoLeadingSpace(message)
    ensures ParseLintOutput(ReportLine(row, column, message)) == LintResult(row, column, message, "")
  {
    var l := if message == [] then EslintLine("  ", Decimal(row), Decimal(column), "  ", "  \n", [])
             else EslintLine("  ", Decimal(row), Decimal(column), "  ", "  ", message + "\n");
    assert AllSpaces("  ") && AllSpaces("  \n");
    assert Render(l) == ReportLine(row, column, message);
    assert WellFormed(l);
    MatchRender(l);
    if message != [] {
      UpToNewlineBefore(message, "\n");
    }
  }

  /** How ESLint's stylish format prints one error: indent, `row:column`, `error`, message. */
  function ReportLine(row: nat, column: nat, message: string): string {
    "  " + (Decimal(row) + (":" + (Decimal(column) + ("  " + ("error" + ("  " + (message + "\n")))))))
  }

  /** A `warning` report line never parses, whatever its row, column and blank runs. */
  lemma WarningNeverParses(lead: string, row: string, column: string, gap: string, rest: string)
    requires AllSpaces(lead) && AllDigits(row) && AllDigits(column) && AllSpaces(gap)
    ensures ParseLintOutput(lead + (row + (":" + (column + (gap + ("warning" + rest)))))) == LintResult(0, 0, "", "")
  {
    var u := column + (gap + ("warning" + rest));
    var t := row + (":" + u);
    LineStage(lead, t);
    if row == [] {
      assert t[0] == ':';
      assert Digits(t) == 0;
    } else {
      RowStage(lead, row, u);
      WarningColumn(lead, row, column, gap, rest);
    }
  }

  lemma LineStage(lead: string, t: string)
    requires AllSpaces(lead) && NoLeadingSpace(t)
    ensures MatchLine(lead + t) == MatchRow(lead, t)
  {
    BlanksConcat(lead, t);
  }

  lemma WarningColumn(lead: string, row: string, column: string, gap: string, rest: string)
    requires AllSpaces(lead) && row != [] && AllDigits(row) && AllDigits(column) && AllSpaces(gap)
    ensures MatchColumn(lead, row, column + (gap + ("warning" + rest))) == None
  {
    var y := "warning" + rest;
    var v := gap + y;
    DigitsConcat(column, v);
    BlanksConcat(gap, y);
    assert |gap| + 5 <= |v| ==> v[|gap|..|gap| + 5] == "warni";
  }

  /** Where a reported problem is shown: cell index, row in the cell, column, and message. */
  datatype Location = Location(cell: int, row: int, column: nat, message: string)

  /**
   * The body of the report loop for one line of ESLint's output: a line
   * that parses with a non-zero row and column is mapped to a cell and a
   * row relative to that cell's start (`(-1, -1)` beyond the last cell).
   */
  method LocateLine(codes: seq<string>, outputLine: string) returns (loc: Option<Location>)
    ensures var p := ParseLintOutput(outputLine);
      (loc.Some? <==> p.line != 0 && p.column != 0) &&
      (loc.Some? ==> loc.value.column == p.column && loc.value.message == p.message)
    ensures loc.Some? && loc.value.cell == -1 ==>
      (codes == [] || Offset(codes, |codes|) <= ParseLintOutput(outputLine).line) &&
      loc.value.row == ParseLintOutput(outputLine).line + 1
    ensures loc.Some? && loc.value.cell != -1 ==>
      0 <= loc.value.cell < |codes| &&
      loc.value.row == ParseLintOutput(outputLine).line - Offset(codes, loc.value.cell) &&
      0 <= loc.value.row < LineCount(codes[loc.value.cell]) + 4
  {
    var parsed := ParseLintOutput(outputLine);
    if parsed.line != 0 && parsed.column != 0 {
      var cellIndex, startRow := FindCellFromGlobalLine(codes, parsed.line);
      loc := Some(Location(cellIndex, parsed.line - startRow, parsed.column, parsed.message));
    } else {
      loc := None;
    }
  }

  /**
   * What the ESLint run leaves behind: the temporary file's contents
   * afterwards, as read back in text mode (so "\r\n" and "\r" already read
   * as "\n"), and the exit code.
   */
  datatype EslintRun = EslintRun(fileAfter: string, returnCode: int)

  /**
   * `lint_cells` without the file plumbing: ESLint (with `--fix` unless
   * checking) runs on the joined cells, and the file it leaves is split back
   * into cells.
   */
  function LintCells(codes: seq<string>, check: bool, eslint: (string, bool) -> EslintRun): (r: (seq<string>, int))
    ensures r.0 != []
    ensures Join(r.0) == eslint(Join(codes), !check).fileAfter
    ensures r.1 == eslint(Join(codes), !check).returnCode
    ensures codes != [] && (forall k :: 0 <= k < |codes| ==> !ContainsMarker(codes[k])) &&
            eslint(Join(codes), !check).fileAfter == Join(codes)
            ==> r.0 == codes
  {
    var run := eslint(Join(codes), !check);
    JoinSplit(run.fileAfter);
    var r := (Split(run.fileAfter), run.returnCode);
    if codes != [] && (forall k :: 0 <= k < |codes| ==> !ContainsMarker(codes[k])) then
      SplitJoin(codes); r
    else r
  }

  /** The first loop of `process_notebook`: the positions and texts of the code cells. */
  method CollectCodeCells(cells: seq<Cell>) returns (cellIndices: seq<nat>, codeCells: seq<string>)
    ensures cellIndices == CodeIndices(cells)
    ensures codeCells == CodeTexts(cells)
  {
    cellIndices, codeCells := [], [];
    for i := 0 to |cells|
      invariant cellIndices == CodeIndices(cells[..i])
      invariant |codeCells| == |cellIndices|
      invariant forall k :: 0 <= k < |codeCells| ==> codeCells[k] == CellText(cells[cellIndices[k]])
    {
      assert cells[..i + 1][..i] == cells[..i];
      if IsCode(cells[i]) {
        codeCells := codeCells + [CellText(cells[i])];
        cellIndices := cellIndices + [i];
      }
    }
    assert cells[..|cells|] == cells;
  }

  /** How many pairs `zip` forms from the two lists: the length of the shorter. */
  function ZipLength<A, B>(xs: seq<A>, ys: seq<B>): (n: nat)
    ensures n <= |xs| && n <= |ys| && (n == |xs| || n == |ys|)
  {
    if |xs| < |ys| then |xs| else |ys|
  }

  /** One of the first `n` cells came back from ESLint with a different text, or ESLint failed. */
  predicate Differs(fixedCells: seq<string>, codeCells: seq<string>, returnCode: int, n: nat)
    requires n <= |fixedCells| && n <= |codeCells|
  {
    exists k :: 0 <= k < n && (fixedCells[k] != codeCells[k] || returnCode != 0)
  }

  /** The cell the second loop of `process_notebook` leaves for one code cell. */
  function RelintedCell(c: Cell, fixedCode: string, returnCode: int, check: bool): Cell {
    if !check && (fixedCode != CellText(c) || returnCode != 0)
    then Cell(c.cellType, SplitLinesKeepEnds(fixedCode))
    else c
  }

  /**
   * A rewritten cell keeps its type, and its new lines join back to exactly
   * ESLint's text; a cell left alone keeps its text.
   */
  lemma RelintedCellText(c: Cell, fixedCode: string, returnCode: int, check: bool)
    ensures RelintedCell(c, fixedCode, returnCode, check).cellType == c.cellType
    ensures CellText(RelintedCell(c, fixedCode, returnCode, check)) ==
      if !check && (fixedCode != CellText(c) || returnCode != 0) then fixedCode else CellText(c)
  {
  }

  /**
   * The second loop of `process_notebook`: walks the code cells and the
   * split file side by side (`zip` stops at the shorter), flags a change
   * where the cell text differs or ESLint failed, and outside check mode
   * replaces such a cell's source by the lines of ESLint's text.
   */
  method RelintCells(cells: seq<Cell>, cellIndices: seq<nat>, codeCells: seq<string>,
                     fixedCells: seq<string>, returnCode: int, check: bool)
    returns (newCells: seq<Cell>, changed: bool)
    requires |codeCells| == |cellIndices|
    requires forall k :: 0 <= k < |cellIndices| ==>
      cellIndices[k] < |cells| && IsCode(cells[cellIndices[k]]) && codeCells[k] == CellText(cells[cellIndices[k]])
    requires forall k, l :: 0 <= k < l < |cellIndices| ==> cellIndices[k] < cellIndices[l]
    ensures |newCells| == |cells|
    ensures check ==> newCells == cells
    ensures forall i :: 0 <= i < |cells| && !IsCode(cells[i]) ==> newCells[i] == cells[i]
    ensures forall k :: 0 <= k < ZipLength(cellIndices, fixedCells) ==>
      newCells[cellIndices[k]] == RelintedCell(cells[cellIndices[k]], fixedCells[k], returnCode, check)
    ensures forall k :: ZipLength(cellIndices, fixedCells) <= k < |cellIndices| ==>
      newCells[cellIndices[k]] == cells[cellIndices[k]]
    ensures changed <==> Differs(fixedCells, codeCells, returnCode, ZipLength(cellIndices, fixedCells))
  {
    var n := ZipLength(cellIndices, fixedCells);
    newCells := cells;
    changed := false;
    for k := 0 to n
      invariant |newCells| == |cells|
      invariant check ==> newCells == cells
      invariant forall i :: 0 <= i < |cells| && !IsCode(cells[i]) ==> newCells[i] == cells[i]
      invariant !check ==> forall j :: 0 <= j < k ==>
        newCells[cellIndices[j]] == RelintedCell(cells[cellIndices[j]], fixedCells[j], returnCode, check)
      invariant forall j :: k <= j < |cellIndices| ==> newCells[cellIndices[j]] == cells[cellIndices[j]]
      invariant changed <==> Differs(fixedCells, codeCells, returnCode, k)
    {
      var idx := cellIndices[k];
      var fixedCode := fixedCells[k];
      var originalCode := CellText(newCells[idx]);
      if fixedCode != originalCode || returnCode != 0 {
        changed := true;
        if !check {
          newCells := newCells[idx := Cell(newCells[idx].cellType, SplitLinesKeepEnds(fixedCode))];
        }
      }
    }
  }

  /**
   * `process_notebook` without the JSON file: returns the notebook as it is
   * in memory at the end (the one written back when something changed and
   * the run is not a check) and whether anything changed.
   */
  method ProcessNotebook(nb: Notebook, check: bool, eslint: (string, bool) -> EslintRun)
    returns (result: Notebook, changed: bool)
    ensures !IsTypeScript(nb) || CodeTexts(nb.cells) == [] ==> result == nb && !changed
    ensures check ==> result == nb
    ensures result.language == nb.language && |result.cells| == |nb.cells|
    ensures forall i :: 0 <= i < |nb.cells| && !IsCode(nb.cells[i]) ==> result.cells[i] == nb.cells[i]
    ensures IsTypeScript(nb) && CodeTexts(nb.cells) != [] ==>
      var idx := CodeIndices(nb.cells);
      var lint := LintCells(CodeTexts(nb.cells), check, eslint);
      var n := ZipLength(idx, lint.0);
      (changed <==> exists k :: 0 <= k < n && (lint.0[k] != CodeTexts(nb.cells)[k] || lint.1 != 0)) &&
      (forall k :: 0 <= k < n ==> result.cells[idx[k]] == RelintedCell(nb.cells[idx[k]], lint.0[k], lint.1, check)) &&
      (forall k :: n <= k < |idx| ==> result.cells[idx[k]] == nb.cells[idx[k]])
    ensures IsTypeScript(nb) && CodeTexts(nb.cells) != [] && LintCells(CodeTexts(nb.cells), check, eslint).1 != 0 ==> changed
    ensures var codes := CodeTexts(nb.cells);
      var run := eslint(Join(codes), !check);
      IsTypeScript(nb) && codes != [] && (forall k :: 0 <= k < |codes| ==> !ContainsMarker(codes[k])) &&
      run.fileAfter == Join(codes)
      ==> (changed <==> run.returnCode != 0) && (run.returnCode == 0 ==> result == nb)
  {
    if !IsTypeScript(nb) {
      return nb, false;
    }
    var cellIndices, codeCells := CollectCodeCells(nb.cells);
    if |codeCells| == 0 {
      return nb, false;
    }
    var lint := LintCells(codeCells, check, eslint);
    var fixedCells, returnCode := lint.0, lint.1;
    var cells;
    cells, changed := RelintCells(nb.cells, cellIndices, codeCells, fixedCells, returnCode, check);
    assert returnCode != 0 ==> fixedCells[0] != codeCells[0] || returnCode != 0;
    result := Notebook(nb.language, cells);
    if fixedCells == codeCells && returnCode == 0 {
      forall i | 0 <= i < |cells|
        ensures cells[i] == nb.cells[i]
      {
        if IsCode(nb.cells[i]) {
          var k :| 0 <= k < |cellIndices| && cellIndices[k] == i;
        }
      }
    }
  }
}
