/**
 * `diff_strings` from the scripts' helper module: a line-set difference of
 * two texts, each missing line listed with its 1-based number, the lines of
 * the first text marked `-` and those of the second marked `+`.
 */
module Utils {
  import opened Text

  /** The 1-based numbers of the lines of `xs` that occur nowhere in `ys`, in order. */
  function Unmatched(xs: seq<string>, ys: seq<string>): (ns: seq<nat>)
    ensures forall k :: 0 <= k < |ns| ==> 1 <= ns[k] <= |xs| && xs[ns[k] - 1] !in ys
    ensures forall k, l :: 0 <= k < l < |ns| ==> ns[k] < ns[l]
    ensures forall i :: 0 <= i < |xs| && xs[i] !in ys ==> i + 1 in ns
  {
    if xs == [] then []
    else
      var last := |xs| - 1;
      assert forall i :: 0 <= i < last ==> xs[..last][i] == xs[i];
      Unmatched(xs[..last], ys) + (if xs[last] !in ys then [last + 1] else [])
  }

  /** One entry of the diff: `[n] - line` or `[n] + line`. */
  function Entry(n: nat, sign: char, line: string): string {
    "[" + Decimal(n) + "] " + [sign] + " " + line
  }

  /** The entries for the lines of `xs` missing from `ys`, numbered by their place in `xs`. */
  function Entries(xs: seq<string>, ys: seq<string>, sign: char): (es: seq<string>)
    ensures |es| == |Unmatched(xs, ys)|
  {
    var ns := Unmatched(xs, ys);
    seq(|ns|, k requires 0 <= k < |ns| => Entry(ns[k], sign, xs[ns[k] - 1]))
  }

  /** Every piece `diff_strings` joins: the `-` entries, a line break, the `+` entries. */
  function DiffPieces(a: string, b: string): seq<string> {
    var aLines := SplitLinesKeepEnds(a);
    var bLines := SplitLinesKeepEnds(b);
    Entries(aLines, bLines, '-') + ["\n"] + Entries(bLines, aLines, '+')
  }

  /** Two texts have the same lines when every line of each occurs in the other. */
  predicate SameLines(xs: seq<string>, ys: seq<string>) {
    (forall i :: 0 <= i < |xs| ==> xs[i] in ys) && (forall i :: 0 <= i < |ys| ==> ys[i] in xs)
  }

  /** Extending `xs` by one line adds at most the entry for that line. */
  lemma EntriesStep(xs: seq<string>, ys: seq<string>, sign: char, i: nat)
    requires i < |xs|
    ensures Entries(xs[..i + 1], ys, sign) ==
      Entries(xs[..i], ys, sign) + (if xs[i] !in ys then [Entry(i + 1, sign, xs[i])] else [])
  {
    var p := xs[..i + 1];
    assert p[..i] == xs[..i];
    var ns := Unmatched(xs[..i], ys);
    var es := Entries(xs[..i], ys, sign);
    var es' := Entries(p, ys, sign);
    forall k | 0 <= k < |ns|
      ensures es'[k] == es[k]
    {
      assert p[ns[k] - 1] == xs[..i][ns[k] - 1];
    }
  }

  /** A string made of whitespace only strips to nothing. */
  lemma StripBlank(s: string)
    requires AllSpaces(s)
    ensures Strip(s) == []
  {
  }

  /** A string holding a non-blank character does not strip to nothing. */
  lemma StripNonBlank(s: string, p: nat)
    requires p < |s| && !IsSpace(s[p])
    ensures Strip(s) != []
  {
    var r := Strip(s);
    var i, j :| 0 <= i <= j <= |s| && r == s[i..j] && AllSpaces(s[..i]) && AllSpaces(s[j..]);
    assert forall k :: 0 <= k < i ==> s[..i][k] == s[k];
    assert forall k :: j <= k < |s| ==> s[j..][k - j] == s[k];
    assert i <= p < j;
  }

  lemma {:induction false} ConcatAppend(xs: seq<string>, ys: seq<string>)
    ensures Concat(xs + ys) == Concat(xs) + Concat(ys)
    decreases |xs|
  {
    if xs != [] {
      assert (xs + ys)[0] == xs[0];
      assert (xs + ys)[1..] == xs[1..] + ys;
      ConcatAppend(xs[1..], ys);
      assert xs[0] + (Concat(xs[1..]) + Concat(ys)) == (xs[0] + Concat(xs[1..])) + Concat(ys);
    } else {
      assert xs + ys == ys;
    }
  }

  /** Joining the two entry lists around the line break. */
  lemma JoinAround(minus: seq<string>, plus: seq<string>)
    ensures Concat(minus + ["\n"] + plus) == Concat(minus) + "\n" + Concat(plus)
  {
    ConcatAppend(minus + ["\n"], plus);
    ConcatAppend(minus, ["\n"]);
    assert Concat(["\n"]) == "\n";
  }

  /** Joined entries start with the '[' of the first entry. */
  lemma EntriesStart(xs: seq<string>, ys: seq<string>, sign: char)
    requires Unmatched(xs, ys) != []
    ensures Concat(Entries(xs, ys, sign)) != [] && Concat(Entries(xs, ys, sign))[0] == '['
  {
    var es := Entries(xs, ys, sign);
    assert es[0][0] == '[';
  }

  /** No line is missing from the other text exactly when there are no entries. */
  lemma UnmatchedEmpty(xs: seq<string>, ys: seq<string>)
    ensures Unmatched(xs, ys) == [] <==> forall i :: 0 <= i < |xs| ==> xs[i] in ys
  {
    if Unmatched(xs, ys) != [] {
      var n := Unmatched(xs, ys)[0];
      assert xs[n - 1] !in ys;
    }
  }

  /** A diff text with an entry on either side of the line break does not strip to nothing. */
  lemma StripWithEntry(minus: string, plus: string)
    requires (minus != [] && minus[0] == '[') || (minus == [] && plus != [] && plus[0] == '[')
    ensures Strip(minus + "\n" + plus) != []
  {
    var s := minus + "\n" + plus;
    if minus != [] {
      assert s[0] == '[';
      StripNonBlank(s, 0);
    } else {
      assert s[1] == '[';
      StripNonBlank(s, 1);
    }
  }

  /**
   * The stripped diff of two line lists is empty exactly when they have the
   * same set of lines; otherwise it holds at least one numbered entry.
   */
  lemma StrippedDiffEmpty(xs: seq<string>, ys: seq<string>)
    ensures var s := Concat(Entries(xs, ys, '-')) + "\n" + Concat(Entries(ys, xs, '+'));
      Strip(s) == [] <==> SameLines(xs, ys)
  {
    var minus := Concat(Entries(xs, ys, '-'));
    var plus := Concat(Entries(ys, xs, '+'));
    UnmatchedEmpty(xs, ys);
    UnmatchedEmpty(ys, xs);
    if Unmatched(xs, ys) != [] {
      EntriesStart(xs, ys, '-');
      StripWithEntry(minus, plus);
    } else if Unmatched(ys, xs) != [] {
      EntriesStart(ys, xs, '+');
      assert Entries(xs, ys, '-') == [];
      StripWithEntry(minus, plus);
    } else {
      assert Entries(xs, ys, '-') == [] && Entries(ys, xs, '+') == [];
      assert minus + "\n" + plus == "\n";
      StripBlank("\n");
    }
  }

  /** The diff of two texts is empty exactly when they have the same set of lines. */
  lemma DiffEmptyIff(a: string, b: string)
    ensures Strip(Concat(DiffPieces(a, b))) == [] <==> SameLines(SplitLinesKeepEnds(a), SplitLinesKeepEnds(b))
  {
    var aLines := SplitLinesKeepEnds(a);
    var bLines := SplitLinesKeepEnds(b);
    JoinAround(Entries(aLines, bLines, '-'), Entries(bLines, aLines, '+'));
    StrippedDiffEmpty(aLines, bLines);
  }

  /** One `enumerate` loop of `diff_strings`: an entry for each line of `xs` missing from `ys`, in order. */
  method CollectEntries(xs: seq<string>, ys: seq<string>, sign: char) returns (es: seq<string>)
    ensures es == Entries(xs, ys, sign)
  {
    es := [];
    for i := 0 to |xs|
      invariant es == Entries(xs[..i], ys, sign)
    {
      EntriesStep(xs, ys, sign, i);
      if xs[i] !in ys {
        es := es + [Entry(i + 1, sign, xs[i])];
      }
    }
    assert xs[..|xs|] == xs;
  }

  /**
   * `diff_strings`: collects the `-` entries, a line break and the `+`
   * entries, joins them and strips the result.
   */
  method DiffStrings(a: string, b: string) returns (r: string)
    ensures r == Strip(Concat(DiffPieces(a, b)))
    ensures r == [] <==> SameLines(SplitLinesKeepEnds(a), SplitLinesKeepEnds(b))
    ensures r == [] || (!IsSpace(r[0]) && !IsSpace(r[|r| - 1]))
  {
    var aLines := SplitLinesKeepEnds(a);
    var bLines := SplitLinesKeepEnds(b);
    var minus := CollectEntries(aLines, bLines, '-');
    var plus := CollectEntries(bLines, aLines, '+');
    var diff := minus + ["\n"] + plus;
    assert diff == DiffPieces(a, b);
    DiffEmptyIff(a, b);
    r := Strip(Concat(diff));
  }

  /** Equal texts, in particular, have an empty diff. */
  lemma DiffOfEqual(a: string)
    ensures Strip(Concat(DiffPieces(a, a))) == []
  {
    DiffEmptyIff(a, a);
  }
}
