/**
 * The formatting script: every code cell of a TypeScript notebook is piped
 * through Prettier, and a cell whose formatted text differs is rewritten
 * with the formatted lines. In check mode nothing is rewritten.
 */
module FormatTsCells {
  import opened Text
  import opened Notebooks

  /** What one Prettier run returns: its standard output and its exit code. */
  datatype PrettierRun = PrettierRun(stdout: string, returnCode: int)

  /** `format_code`: Prettier's output, or the code itself when Prettier fails. */
  function FormatCode(code: string, prettier: string -> PrettierRun): (r: string)
    ensures prettier(code).returnCode == 0 ==> r == prettier(code).stdout
    ensures prettier(code).returnCode != 0 ==> r == code
  {
    var run := prettier(code);
    if run.returnCode != 0 then code else run.stdout
  }

  /** A code cell whose formatted text differs from its text. */
  predicate NeedsFormatting(c: Cell, prettier: string -> PrettierRun) {
    IsCode(c) && FormatCode(CellText(c), prettier) != CellText(c)
  }

  /** The cell after the rewrite: the formatted text cut into lines when it needs formatting, else as it was. */
  function Reformatted(c: Cell, prettier: string -> PrettierRun): Cell {
    if NeedsFormatting(c, prettier)
    then Cell(c.cellType, SplitLinesKeepEnds(FormatCode(CellText(c), prettier)))
    else c
  }

  /**
   * A reformatted cell keeps its type and holds exactly Prettier's output; a
   * cell Prettier fails on is left as it was.
   */
  lemma ReformattedText(c: Cell, prettier: string -> PrettierRun)
    ensures Reformatted(c, prettier).cellType == c.cellType
    ensures NeedsFormatting(c, prettier) ==>
      prettier(CellText(c)).returnCode == 0 &&
      CellText(Reformatted(c, prettier)) == prettier(CellText(c)).stdout
    ensures prettier(CellText(c)).returnCode != 0 ==> Reformatted(c, prettier) == c
  {
  }

  /**
   * Once formatted, a cell stays as it is on a second run, provided Prettier
   * leaves its own output unchanged.
   */
  lemma ReformatIdempotent(c: Cell, prettier: string -> PrettierRun)
    requires var out := prettier(CellText(c)).stdout; FormatCode(out, prettier) == out
    ensures Reformatted(Reformatted(c, prettier), prettier) == Reformatted(c, prettier)
  {
    ReformattedText(c, prettier);
  }

  /**
   * `process_notebook` as written: the rewritten notebook (the one saved when
   * something changed outside check mode) and the returned flag. In check
   * mode a cell that needs formatting is only reported and skipped before
   * `changed` is set, so the flag is always false there.
   */
  method ProcessNotebook(nb: Notebook, check: bool, prettier: string -> PrettierRun)
    returns (result: Notebook, changed: bool)
    ensures !IsTypeScript(nb) ==> result == nb && !changed
    ensures check ==> result == nb && !changed
    ensures result.language == nb.language && |result.cells| == |nb.cells|
    ensures IsTypeScript(nb) && !check ==>
      (forall i :: 0 <= i < |nb.cells| ==> result.cells[i] == Reformatted(nb.cells[i], prettier)) &&
      (changed <==> exists i :: 0 <= i < |nb.cells| && NeedsFormatting(nb.cells[i], prettier))
    ensures forall i :: 0 <= i < |nb.cells| && !NeedsFormatting(nb.cells[i], prettier) ==> result.cells[i] == nb.cells[i]
  {
    changed := false;
    if !IsTypeScript(nb) {
      return nb, false;
    }
    var cells := nb.cells;
    for i := 0 to |cells|
      invariant |cells| == |nb.cells|
      invariant check ==> cells == nb.cells && !changed
      invariant !check ==> forall j :: 0 <= j < i ==> cells[j] == Reformatted(nb.cells[j], prettier)
      invariant forall j :: i <= j < |cells| ==> cells[j] == nb.cells[j]
      invariant !check ==> (changed <==> exists j :: 0 <= j < i && NeedsFormatting(nb.cells[j], prettier))
    {
      if IsCode(cells[i]) {
        var originalCode := CellText(cells[i]);
        var formatted := FormatCode(originalCode, prettier);
        if formatted != originalCode {
          if check {
            continue;
          }
          cells := cells[i := Cell(cells[i].cellType, SplitLinesKeepEnds(formatted))];
          changed := true;
        }
      }
    }
    if check {
      return nb, changed;
    }
    result := Notebook(nb.language, cells);
  }

  /**
   * `process_notebook` with the check mode the option's help text describes:
   * the same rewrite outside check mode, and in check mode a true result
   * exactly when some code cell needs formatting.
   */
  method ProcessNotebookCorrected(nb: Notebook, check: bool, prettier: string -> PrettierRun)
    returns (result: Notebook, changed: bool)
    ensures !IsTypeScript(nb) ==> result == nb && !changed
    ensures check ==> result == nb
    ensures result.language == nb.language && |result.cells| == |nb.cells|
    ensures IsTypeScript(nb) ==>
      (changed <==> exists i :: 0 <= i < |nb.cells| && NeedsFormatting(nb.cells[i], prettier))
    ensures IsTypeScript(nb) && !check ==>
      forall i :: 0 <= i < |nb.cells| ==> result.cells[i] == Reformatted(nb.cells[i], prettier)
    ensures forall i :: 0 <= i < |nb.cells| && !NeedsFormatting(nb.cells[i], prettier) ==> result.cells[i] == nb.cells[i]
  {
    changed := false;
    if !IsTypeScript(nb) {
      return nb, false;
    }
    var cells := nb.cells;
    for i := 0 to |cells|
      invariant |cells| == |nb.cells|
      invariant check ==> cells == nb.cells
      invariant !check ==> forall j :: 0 <= j < i ==> cells[j] == Reformatted(nb.cells[j], prettier)
      invariant forall j :: i <= j < |cells| ==> cells[j] == nb.cells[j]
      invariant changed <==> exists j :: 0 <= j < i && NeedsFormatting(nb.cells[j], prettier)
    {
      if IsCode(cells[i]) {
        var originalCode := CellText(cells[i]);
        var formatted := FormatCode(originalCode, prettier);
        if formatted != originalCode {
          changed := true;
          if check {
            continue;
          }
          cells := cells[i := Cell(cells[i].cellType, SplitLinesKeepEnds(formatted))];
        }
      }
    }
    if check {
      return nb, changed;
    }
    result := Notebook(nb.language, cells);
  }

  /** A one-cell TypeScript notebook whose cell Prettier would change. */
  const UnformattedNotebook: Notebook := Notebook("typescript", [Cell("code", ["let x=1"])])

  function AddSpaces(code: string): PrettierRun {
    PrettierRun("let x = 1;\n", 0)
  }

  /**
   * The notebook above needs formatting, so a check should fail on it; the
   * as-written `ProcessNotebook` still returns false in check mode, and
   * `ProcessNotebookCorrected` returns true.
   */
  lemma CheckModeMissesUnformattedCell()
    ensures IsTypeScript(UnformattedNotebook)
    ensures exists i :: 0 <= i < |UnformattedNotebook.cells| && NeedsFormatting(UnformattedNotebook.cells[i], AddSpaces)
  {
    var c := UnformattedNotebook.cells[0];
    assert CellText(c) == "let x=1";
    assert FormatCode(CellText(c), AddSpaces) == "let x = 1;\n";
    assert NeedsFormatting(c, AddSpaces);
  }
}
