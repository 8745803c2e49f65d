/**
 * A Jupyter notebook as the three scripts see it once the JSON is loaded:
 * the kernel's language name and a list of cells, each with a type and a
 * source given as a list of strings that are joined to get the cell's text.
 */
module Notebooks {
  import opened Text

  datatype Cell = Cell(cellType: string, source: seq<string>)

  /** `language` is `metadata.language_info.name`; a notebook without one has any other name. */
  datatype Notebook = Notebook(language: string, cells: seq<Cell>)

  predicate IsCode(c: Cell) { c.cellType == "code" }

  predicate IsTypeScript(nb: Notebook) { nb.language == "typescript" }

  /** `"".join(cell["source"])`. */
  function CellText(c: Cell): string { Concat(c.source) }

  /** The positions of the code cells, in notebook order. */
  function CodeIndices(cells: seq<Cell>): (idx: seq<nat>)
    ensures forall k :: 0 <= k < |idx| ==> idx[k] < |cells| && IsCode(cells[idx[k]])
    ensures forall k, l :: 0 <= k < l < |idx| ==> idx[k] < idx[l]
    ensures forall i :: 0 <= i < |cells| && IsCode(cells[i]) ==> i in idx
  {
    if cells == [] then []
    else
      var last := |cells| - 1;
      assert forall i :: 0 <= i < last ==> cells[..last][i] == cells[i];
      CodeIndices(cells[..last]) + (if IsCode(cells[last]) then [last] else [])
  }

  /**
   * The texts of the code cells, in notebook order: exactly one entry per
   * code cell and none for any other cell.
   */
  function CodeTexts(cells: seq<Cell>): (texts: seq<string>)
    ensures |texts| == |CodeIndices(cells)|
    ensures forall k :: 0 <= k < |texts| ==> texts[k] == CellText(cells[CodeIndices(cells)[k]])
  {
    var idx := CodeIndices(cells);
    seq(|idx|, k requires 0 <= k < |idx| => CellText(cells[idx[k]]))
  }

  /** There is a code cell exactly when the list of code-cell texts is non-empty. */
  lemma CodeTextsEmpty(cells: seq<Cell>)
    ensures CodeTexts(cells) == [] <==> forall i :: 0 <= i < |cells| ==> !IsCode(cells[i])
  {
    if CodeTexts(cells) != [] {
      assert IsCode(cells[CodeIndices(cells)[0]]);
    }
  }
}
