# Notebook tooling scripts, modelled in Dafny

The repository ships three maintenance scripts for its TypeScript Jupyter
notebooks, plus a helper module:

- `lint_ts_cells.py` joins a notebook's code cells into one TypeScript file,
  runs ESLint on it (with `--fix` unless checking), maps each reported
  error back to a cell, then splits the file back into cells and writes the
  changed cells into the notebook.
- `compile_ts_cells.py` joins the code cells the same way, runs `tsc`
  on them, maps each diagnostic back to a cell, and reports a notebook as
  changed when `tsc` fails.
- `format_ts_cells.py` pipes every code cell through Prettier and
  rewrites the cells whose formatted text differs.
- `utils.py` holds `diff_strings`, a line-set difference of two texts.

This project models the text-processing core of these scripts:

- the separator join and split of cells;
- the running line count that maps a global line number to a cell;
- the two report-line parsers, written as character-level matchers that
  behave like the scripts' regular expressions;
- the in-memory notebook update rules and the `changed` results;
- `diff_strings`.

The external tools are parameters of the model:

- ESLint is `(text, fix) -> (file contents afterwards, exit code)`. The
  contents are the file as Python reads it back in text mode, so "\r\n"
  and "\r" in it already read as "\n";
- `tsc` is `text -> exit code`;
- Prettier is `text -> (stdout, exit code)`.

A notebook is a value `Notebook(language, cells)`. Each cell is
`Cell(cellType, source)`, and joining `source` gives its text. The lint
and format `ProcessNotebook` members return the notebook as it stands in
memory at the end, together with the returned flag. The script writes
that notebook back to disk only outside check mode, and only when the
flag is true. The compile `ProcessNotebook` returns only the flag, since
that script never rewrites a notebook.

Modules, one file each:

- `Wrappers` (`wrappers.dfy`): `Option`.
- `Text` (`text.dfy`): the Python string operations the scripts rely on:
  - `\s`, `\d` and `\S` runs;
  - `int` and `str` of numbers;
  - `.*`;
  - `"".join`;
  - `splitlines(keepends=True)` and `len(splitlines())`;
  - `strip`;
  - `find`.
- `Notebooks` (`notebook.dfy`): cells, notebooks, code-cell selection.
- `CellSplit` (`cell_split.dfy`): the separator, its join and split, and
  `find_cell_from_global_line`. The lint and compile scripts each carry
  an identical copy of that function; it is modelled once.
- `LintTsCells`, `CompileTsCells`, `FormatTsCells`, `Utils`: one per script.

Python's whitespace is the `str.isspace` set of code points and `\d` is
ASCII digits. Line splitting breaks at `'\n'` only, with Python's counting:
`""` has no lines, and `"a\n"` and `"a"` have one each.

## Model

| member | source | states |
|---|---|---|
| `CellSplit.Join` | scripts/lint_ts_cells.py:36-37 | The joined text: the cells with the separator, a blank line, the marker comment and a blank line, between every two of them. |
| `CellSplit.JoinSplit` | scripts/lint_ts_cells.py:82 | Joining the pieces that the split returns gives back the text, whatever the text is. |
| `CellSplit.SplitJoin` | scripts/lint_ts_cells.py:36-37 | When no cell holds the marker line, splitting the joined cells gives back exactly the cells. |
| `CellSplit.SeparatorHoldsMarker` | scripts/lint_ts_cells.py:36 | Every occurrence of the separator has the marker two characters in. |
| `CellSplit.NoSeparatorInside` | scripts/lint_ts_cells.py:36-37 | No separator starts inside a marker-free cell that is followed by the separator's line breaks. |
| `CellSplit.Split` | scripts/lint_ts_cells.py:82 | The split always returns at least one piece. |
| `CellSplit.OffsetGrows` | scripts/lint_ts_cells.py:53-55 | The running line count grows by at least four per cell, so it is strictly increasing. |
| `CellSplit.FindCellFromGlobalLine` | scripts/lint_ts_cells.py:51-58 | The result is `(-1, -1)` exactly when there are no cells or the total count is at most the line. Otherwise it is the first cell whose running count exceeds the line, with the count before that cell. All earlier counts are at most the line. The 1-based line is compared with 0-based counts, as written. |
| `LintTsCells.MatchLine` | scripts/lint_ts_cells.py:24 | A match splits the line into pieces of the pattern's shape that give back the line. |
| `LintTsCells.MatchRender` | scripts/lint_ts_cells.py:24 | Every line of the pattern's shape matches, and the match gives back exactly its pieces. |
| `LintTsCells.ParseLintOutput` | scripts/lint_ts_cells.py:22-28 | The rule id is always empty, and the message never holds a line break. |
| `LintTsCells.ParseShape` | scripts/lint_ts_cells.py:22-28 | A line of the shape `blanks digits ':' digits blanks 'error' blanks rest` parses to its row, its column and the rest up to the first line break. Any other line gives `(0, 0, "", "")`. |
| `LintTsCells.ParseReportedError` | scripts/lint_ts_cells.py:22-28 | An error line as ESLint's stylish format prints it parses back to its row, column and message. |
| `LintTsCells.WarningNeverParses` | scripts/lint_ts_cells.py:24-28 | A `warning` line never parses, whatever its blanks, digits and remainder. |
| `LintTsCells.LocateLine` | scripts/lint_ts_cells.py:63-68 | A line is located exactly when its parse has a nonzero row and column. The location has the parsed column and message. Its row counts from the start of the found cell and lies below that cell's lines plus four. Beyond the last cell, the cell is -1 and the row is the line plus one. |
| `LintTsCells.LintCells` | scripts/lint_ts_cells.py:31-83 | The returned cells join back to the file ESLint leaves, and the exit code is ESLint's own. If ESLint leaves the file as it was and no cell holds the marker, the cells come back unchanged. |
| `LintTsCells.CollectCodeCells` | scripts/lint_ts_cells.py:96-105 | The collected indices and texts are those of the code cells, in notebook order. |
| `LintTsCells.RelintedCellText` | scripts/lint_ts_cells.py:116-119 | A rewritten cell keeps its type, and its new lines join to exactly ESLint's text. A cell left alone keeps its text. |
| `LintTsCells.RelintCells` | scripts/lint_ts_cells.py:114-121 | Along the zipped pairs, each code cell becomes its relinted cell; code cells beyond the shorter list and all non-code cells are unchanged. Check mode changes nothing. The flag is set exactly when some pair differs or ESLint failed. |
| `LintTsCells.ProcessNotebook` | scripts/lint_ts_cells.py:86-136 | A non-TypeScript notebook, or one with no code cells, comes back unchanged with false. Check mode changes nothing. Non-code cells are never modified. Otherwise the flag and every code cell follow the zipped pairs. A failed ESLint run always gives true. When ESLint leaves a marker-free file untouched, the result is true exactly when ESLint failed, and the notebook is unchanged when it did not. |
| `CompileTsCells.RuleEnd` | scripts/compile_ts_cells.py:21 | The lazy `(.*?):\s+` ends at a ':' followed by whitespace. No earlier position holds a line break or such a colon. |
| `CompileTsCells.RuleEndAt` | scripts/compile_ts_cells.py:21 | The first ':' followed by whitespace, with no line break before it, is where the lazy group ends. |
| `CompileTsCells.MatchLine` | scripts/compile_ts_cells.py:21 | A match splits the line into pieces of the pattern's shape that give back the line. |
| `CompileTsCells.SplitAt` | scripts/compile_ts_cells.py:21 | The backtracking `(\S+)\(` only ever returns pieces that give back the line. |
| `CompileTsCells.SplitSkip` | scripts/compile_ts_cells.py:21 | Backtracking past split points without a '(' changes nothing. |
| `CompileTsCells.FileStage` | scripts/compile_ts_cells.py:21 | The backtracking file-name group lands on the '(' that ends the file name. |
| `CompileTsCells.MatchRender` | scripts/compile_ts_cells.py:21 | Every well-formed diagnostic line matches, and the match gives back exactly its pieces: file, row, column, blanks, rule and message. |
| `CompileTsCells.ParseLintOutput` | scripts/compile_ts_cells.py:20-25 | The message and the rule never hold a line break. The rule never holds a ':' followed by whitespace. |
| `CompileTsCells.ParseShape` | scripts/compile_ts_cells.py:20-25 | A parse is either `(0, 0, "", "")` from a line that does not match, or the numbers, message and rule of a well-formed line that gives back the input. |
| `CompileTsCells.ParseRender` | scripts/compile_ts_cells.py:20-25 | A well-formed line parses to its row, its column, its message up to the first line break, and its rule, with the message before the rule. |
| `CompileTsCells.ParseDiagnostic` | scripts/compile_ts_cells.py:20-25 | A diagnostic `file(row,col): error TSnnnn: message` parses to its row, column, message and `TSnnnn`. |
| `CompileTsCells.WarningNeverMatches` | scripts/compile_ts_cells.py:21-25 | A line `file(row,col): warning …`, with at least one blank after `):`, parses to `(0, 0, "", "")`. No split point matches, not even at a '(' inside the file name. |
| `CompileTsCells.LocateLine` | scripts/compile_ts_cells.py:64-69 | Same as the lint version, on the stripped output line. |
| `CompileTsCells.ProcessNotebook` | scripts/compile_ts_cells.py:82-108 | Only a TypeScript notebook with a code cell can give true. For such a notebook, the result is true exactly when `tsc` fails on the joined code-cell texts. |
| `Notebooks.CodeIndices` | scripts/compile_ts_cells.py:92-96 | Exactly the positions of the code cells, increasing. |
| `Notebooks.CodeTexts` | scripts/compile_ts_cells.py:92-96 | One text per code cell, in notebook order, each the join of that cell's source. |
| `Notebooks.CodeTextsEmpty` | scripts/compile_ts_cells.py:98-100 | The code-cell texts are empty exactly when the notebook has no code cell. |
| `FormatTsCells.FormatCode` | scripts/format_ts_cells.py:8-19 | Prettier's output when it exits with 0, and the code unchanged when it fails. |
| `FormatTsCells.ReformattedText` | scripts/format_ts_cells.py:16-44 | `format_code` falls back to the input when Prettier fails. A rewritten cell keeps its type and joins to exactly Prettier's output. |
| `FormatTsCells.ReformatIdempotent` | scripts/format_ts_cells.py:36-44 | A second run changes nothing, provided Prettier leaves its own output as it is. |
| `FormatTsCells.ProcessNotebook` | scripts/format_ts_cells.py:22-62 | A non-TypeScript notebook comes back unchanged with false. Cells that need no formatting, non-code cells among them, are never modified. Outside check mode, every cell becomes its reformatted cell, and true means some code cell needed formatting. Check mode, as written, always gives false and the notebook unchanged. |
| `FormatTsCells.ProcessNotebookCorrected` | scripts/format_ts_cells.py:22-62 | The same rewrite. In check mode the notebook is unchanged and the result is true exactly when some code cell needs formatting. |
| `FormatTsCells.CheckModeMissesUnformattedCell` | scripts/format_ts_cells.py:39-41 | A concrete one-cell notebook needs formatting, which check mode as written does not report. |
| `Utils.Unmatched` | scripts/utils.py:21-26 | The numbers are exactly the 1-based positions of the lines missing from the other text, in increasing order. |
| `Utils.EntriesStep` | scripts/utils.py:21-23 | Each loop round appends exactly the entry `[k] - line` for a missing line, and nothing otherwise. |
| `Utils.CollectEntries` | scripts/utils.py:21-27 | One `enumerate` loop gives exactly the entries of the lines missing from the other text, in order. |
| `Utils.DiffEmptyIff` | scripts/utils.py:17-28 | The diff is empty exactly when each text's lines all occur in the other. |
| `Utils.DiffOfEqual` | scripts/utils.py:17-28 | The diff of a text with itself is empty. |
| `Utils.DiffStrings` | scripts/utils.py:17-28 | The result is the stripped join of the `-` entries, a line break and the `+` entries. It is empty exactly when both texts have the same lines, and it has no leading or trailing whitespace. |
| `Text.Decimal` | scripts/utils.py:23 | `str(n)` is a non-empty digit string whose value is `n`. It starts with '0' exactly when `n` is 0, and is then the single `0`. |
| `Text.UpToNewline` | scripts/lint_ts_cells.py:24 | `.*` takes the longest prefix without a line break. |
| `Text.SplitLinesKeepEnds` | scripts/utils.py:18 | The lines join back to the text. |
| `Text.SplitLineAt` | scripts/utils.py:18 | Each line is non-empty; only its last character can be `'\n'`, and every line but the last ends with one. |
| `Text.LineCountByNewlines` | scripts/lint_ts_cells.py:55 | `len(s.splitlines())` is the number of line breaks, plus one for an unterminated last line. |
| `Text.Strip` | scripts/utils.py:28 | The result is a middle slice with only whitespace cut from either end, and it neither starts nor ends with whitespace. |
| `Text.IndexOfFrom` | scripts/lint_ts_cells.py:82 | The least occurrence at or after the start, or none when there is none. |

## Left out

- WarningNeverMatches: needs a blank between `):` and `warning`, as `tsc`
  prints it. Without one, the non-blank run goes on past `warning`, and a
  later `(row,col): error` in that run can still match.
- Running ESLint, `tsc` and Prettier: `execute` and `subprocess.run`. Each
  tool is a function parameter, and its exit code stands in for the
  `CalledProcessError` that `execute` raises.
- Temporary files, reading the fixed file back, `json.load`/`json.dump`,
  writing notebooks, `rglob` in `process_path`, `argparse`, `sys.exit` and
  every `print`.
- The per-line report loops of both scripts are modelled one line at a
  time (`LocateLine`). The `lines` list they fill and never read is left
  out.
- The crash on a reported line number past the end of the joined text.
  Both scripts index `code_lines[parsed_line.line - 1]` to echo the line.
  A larger number raises `IndexError`, and the `try` catches only
  `CalledProcessError`. So `lint_cells` or `compile_cells` aborts, and
  `process_notebook` aborts with it: no cell is rewritten, nothing is
  written back and no flag is returned. The model drops this error path.
  `LocateLine` and both `ProcessNotebook` members return a result there.
- JSON defaults such as `nb.get("cells", [])` and a missing language
  name: a notebook always has a cell list and a language string.
- Python's other line boundaries in `splitlines` (`\r`, `\x0b`,
  `\u2028` and the rest), and Unicode digits in `\d`.
- UTF-8 encoding and decoding around Prettier are taken as lossless.
- `LintTsCells.LintCells`: the text ESLint receives is the joined cells.
  The temporary file's path and the `.temp` directory are left out.
- `CompileTsCells.ProcessNotebook`: it is a function of the notebook, so
  it cannot modify the cells, which states the "never modified" rule by
  construction.

## Findings

| source | as written | input that shows it | evidently intended | confidence | as-written member | corrected member |
|---|---|---|---|---|---|---|
| scripts/format_ts_cells.py:39-41,52-53 | In check mode, a cell that needs formatting reaches `continue` before `changed = True`, so `--check` always returns false. | `UnformattedNotebook`, a TypeScript cell `let x=1`, with Prettier answering `let x = 1;\n` (`AddSpaces`) | `--check` returns true when some code cell needs formatting, so that `main` reports it and exits with status 1 (lines 97-100) | not executed | `FormatTsCells.ProcessNotebook` (with `FormatTsCells.CheckModeMissesUnformattedCell`) | `FormatTsCells.ProcessNotebookCorrected` |
