/**
 * How the lint and compile scripts turn a notebook's code cells into one
 * TypeScript file and back: the cells are joined with a fixed separator,
 * the (possibly rewritten) file is split on that separator again, and a
 * line reported by a tool is mapped back to a cell by a running line count
 * that charges every cell its own line count plus four.
 */
module CellSplit {
  import opened Wrappers
  import opened Text

  /** The comment line inside the separator. */
  const Marker: string := "// --- CELL SPLIT ---"

  /** The text put between two cells: a blank line, the marker, a blank line. */
  const Separator: string := "\n\n" + Marker + "\n\n"

  /** Python's `Separator.join(codes)`. */
  function Join(codes: seq<string>): string {
    if codes == [] then []
    else if |codes| == 1 then codes[0]
    else codes[0] + Separator + Join(codes[1..])
  }

  /** Python's `text.split(Separator)`: cut at every non-overlapping occurrence, left to right. */
  function Split(text: string): (parts: seq<string>)
    ensures parts != []
    decreases |text|
  {
    match IndexOfFrom(text, Separator, 0)
    case None => [text]
    case Some(i) => [text[..i]] + Split(text[i + |Separator|..])
  }

  predicate ContainsMarker(code: string) {
    exists i: nat :: i <= |code| && OccursAt(code, Marker, i)
  }

  /** Joining the pieces of a split gives back the text, whatever the text is. */
  lemma {:induction false} JoinSplit(text: string)
    ensures Join(Split(text)) == text
    decreases |text|
  {
    match IndexOfFrom(text, Separator, 0)
    case None =>
    case Some(i) =>
      var rest := text[i + |Separator|..];
      JoinSplit(rest);
      assert text == text[..i] + Separator + rest;
  }

  /**
   * Splitting the joined cells gives back exactly the cells, provided no
   * cell contains the marker line (a cell holding it would be cut in two).
   */
  lemma {:induction false} SplitJoin(codes: seq<string>)
    requires codes != []
    requires forall k :: 0 <= k < |codes| ==> !ContainsMarker(codes[k])
    ensures Split(Join(codes)) == codes
  {
    var c := codes[0];
    if |codes| == 1 {
      forall k: nat
        ensures !OccursAt(c, Separator, k)
      {
        SeparatorHoldsMarker(c, k);
      }
      assert IndexOfFrom(c, Separator, 0).None?;
    } else {
      var rest := Join(codes[1..]);
      var text := c + Separator + rest;
      assert Join(codes) == text;
      assert text[|c|..|c| + |Separator|] == Separator;
      NoSeparatorInside(c, Separator + rest);
      assert c + (Separator + rest) == text;
      IndexOfFromIs(text, Separator, 0, |c|);
      assert text[..|c|] == c;
      assert text[|c| + |Separator|..] == rest;
      SplitJoin(codes[1..]);
    }
  }

  /** Every occurrence of the separator carries the marker two characters in. */
  lemma SeparatorHoldsMarker(s: string, k: nat)
    ensures OccursAt(s, Separator, k) ==> OccursAt(s, Marker, k + 2)
  {
    if OccursAt(s, Separator, k) {
      var w := s[k..k + |Separator|];
      assert |Separator| == |Marker| + 4 && Separator[2..2 + |Marker|] == Marker;
      forall j | 0 <= j < |Marker|
        ensures s[k + 2..k + 2 + |Marker|][j] == Marker[j]
      {
        assert s[k + 2 + j] == w[2 + j] == Separator[2 + j];
      }
    }
  }

  /** No separator starts inside a marker-free cell that is followed by a line break. */
  lemma NoSeparatorInside(c: string, tail: string)
    requires !ContainsMarker(c)
    requires |tail| >= 2 && tail[0] == '\n' && tail[1] == '\n'
    ensures forall k: nat :: k < |c| ==> !OccursAt(c + tail, Separator, k)
  {
    var s := c + tail;
    assert '\n' !in Marker;
    forall k: nat | k < |c|
      ensures !OccursAt(s, Separator, k)
    {
      SeparatorHoldsMarker(s, k);
      var m := k + 2;
      if m + |Marker| <= |c| {
        assert !OccursAt(c, Marker, m);
        assert s[m..m + |Marker|] == c[m..m + |Marker|];
      } else if m <= |c| {
        assert s[|c|] == '\n';
        assert Marker[|c| - m] != '\n';
        assert m + |Marker| <= |s| ==> s[m..m + |Marker|][|c| - m] == s[|c|];
      } else {
        assert m == |c| + 1 && s[m] == '\n';
        assert m + |Marker| <= |s| ==> s[m..m + |Marker|][0] == s[m];
      }
    }
  }

  /**
   * The running line count of `find_cell_from_global_line` before cell `i`:
   * the sum over the earlier cells of their line count plus four.
   */
  function Offset(codes: seq<string>, i: nat): nat
    requires i <= |codes|
  {
    if i == 0 then 0 else Offset(codes, i - 1) + LineCount(codes[i - 1]) + 4
  }

  /** Each cell adds at least four lines, so the offsets grow strictly. */
  lemma {:induction false} OffsetGrows(codes: seq<string>, i: nat, j: nat)
    requires i <= j <= |codes|
    ensures Offset(codes, i) <= Offset(codes, j)
    ensures i < j ==> Offset(codes, i) + 4 <= Offset(codes, j)
    decreases j - i
  {
    if i < j {
      OffsetGrows(codes, i, j - 1);
    }
  }

  /**
   * `find_cell_from_global_line`: the first cell whose running line count
   * exceeds `globalLine`, with the count before it, or `(-1, -1)` when no
   * running count does. The argument is the tool's 1-based line number,
   * compared with counts that start at 0, as the script does.
   */
  method FindCellFromGlobalLine(codes: seq<string>, globalLine: int) returns (index: int, startRow: int)
    ensures index == -1 <==> codes == [] || Offset(codes, |codes|) <= globalLine
    ensures index == -1 ==> startRow == -1
    ensures index != -1 ==>
      0 <= index < |codes| && startRow == Offset(codes, index) &&
      globalLine < Offset(codes, index + 1) &&
      forall k :: 0 < k <= index ==> Offset(codes, k) <= globalLine
  {
    var lineCount := 0;
    for i := 0 to |codes|
      invariant lineCount == Offset(codes, i)
      invariant i == 0 || Offset(codes, i) <= globalLine
    {
      lineCount := lineCount + LineCount(codes[i]) + 4;
      if globalLine < lineCount {
        OffsetGrows(codes, i + 1, |codes|);
        forall k | 0 < k <= i
          ensures Offset(codes, k) <= globalLine
        {
          OffsetGrows(codes, k, i);
        }
        return i, lineCount - LineCount(codes[i]) - 4;
      }
    }
    return -1, -1;
  }
}
