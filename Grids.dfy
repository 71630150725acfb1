/** The character matrices of the cipher, as values: how text is laid into a
    `rows × cols` matrix, how the matrix is read back out, and the row and
    column permutations applied to it. */
module Grids {
  import opened Text
  import opened Permutations

  /** A character matrix, row by row. */
  type Grid = seq<seq<CodeUnit>>

  /** `g` has `rows` rows of `cols` characters each. */
  predicate IsRect(g: Grid, rows: nat, cols: nat) {
    |g| == rows && forall i :: 0 <= i < |g| ==> |g[i]| == cols
  }

  /** What the fill loop stores for row-major position `k`: the text's
      character while there is one, the padding space after that. */
  function CellAt(text: seq<CodeUnit>, k: nat): CodeUnit {
    if k < |text| then text[k] else Space
  }

  /** The text cut or padded with spaces to exactly `n` code units. */
  function Padded(text: seq<CodeUnit>, n: nat): (r: seq<CodeUnit>)
    ensures |r| == n
    ensures n <= |text| ==> r == text[..n]
    ensures |text| <= n ==> r == text + Spaces(n - |text|)
  {
    seq(n, k requires 0 <= k => CellAt(text, k))
  }

  /** Trimming a padded text trims the text itself: the padding is white
      space and goes with whatever white space the text ends in. */
  lemma TrimEndPadded(text: seq<CodeUnit>, n: nat)
    requires |text| <= n
    ensures TrimEnd(Padded(text, n)) == TrimEnd(text)
  {
    TrimEndSpaces(text, n - |text|);
  }

  /** The matrix filled row-major from `text`. */
  function Fill(text: seq<CodeUnit>, rows: nat, cols: nat): (g: Grid)
    ensures IsRect(g, rows, cols)
  {
    seq(rows, i requires 0 <= i => seq(cols, j requires 0 <= j => CellAt(text, i * cols + j)))
  }

  /** The matrix read out row-major (the `StringBuilder` loop). */
  function Flatten(g: Grid): seq<CodeUnit> {
    if g == [] then [] else Flatten(g[..|g| - 1]) + g[|g| - 1]
  }

  /** Row `i`, column `j` of a `rows × cols` matrix is row-major position
      `i * cols + j`, which lies below `rows * cols`. */
  lemma RowMajorBound(i: nat, j: nat, rows: nat, cols: nat)
    requires i < rows && j < cols
    ensures i * cols + j < rows * cols
  {
    assert (i + 1) * cols <= rows * cols;
  }

  /** Every row-major position below `rows * cols` is the position of exactly
      one row and column. */
  lemma RowMajorSplit(k: nat, rows: nat, cols: nat)
    requires k < rows * cols
    ensures cols > 0 && k / cols < rows && k % cols < cols
    ensures k == (k / cols) * cols + k % cols
  {
    assert cols > 0;
    assert (k / cols) * cols <= k;
  }

  /** Filling from the empty text gives a matrix of spaces. */
  lemma FillEmpty(rows: nat, cols: nat)
    ensures forall i, j :: 0 <= i < rows && 0 <= j < cols ==> Fill([], rows, cols)[i][j] == Space
  {
    forall i, j | 0 <= i < rows && 0 <= j < cols ensures Fill([], rows, cols)[i][j] == Space {
      assert Fill([], rows, cols)[i][j] == CellAt([], i * cols + j);
    }
  }

  /** Reading out a rectangular matrix gives `rows * cols` characters. */
  lemma {:induction false} FlattenLength(g: Grid, rows: nat, cols: nat)
    requires IsRect(g, rows, cols)
    ensures |Flatten(g)| == rows * cols
  {
    if rows > 0 {
      FlattenLength(g[..rows - 1], rows - 1, cols);
      assert (rows - 1) * cols + cols == rows * cols;
    }
  }

  /** Row `i`, column `j` of a rectangular matrix is read out at position
      `i * cols + j`. */
  lemma {:induction false} FlattenCell(g: Grid, rows: nat, cols: nat, i: nat, j: nat)
    requires IsRect(g, rows, cols) && i < rows && j < cols
    ensures |Flatten(g)| == rows * cols
    ensures i * cols + j < rows * cols && Flatten(g)[i * cols + j] == g[i][j]
  {
    FlattenLength(g, rows, cols);
    RowMajorBound(i, j, rows, cols);
    var h := g[..rows - 1];
    FlattenLength(h, rows - 1, cols);
    assert Flatten(g) == Flatten(h) + g[rows - 1];
    if i < rows - 1 {
      FlattenCell(h, rows - 1, cols, i, j);
    } else {
      assert (rows - 1) * cols + j == |Flatten(h)| + j;
    }
  }

  /** Filling and reading out gives the text cut or padded to the matrix size. */
  lemma FlattenFill(text: seq<CodeUnit>, rows: nat, cols: nat)
    ensures Flatten(Fill(text, rows, cols)) == Padded(text, rows * cols)
  {
    var g := Fill(text, rows, cols);
    FlattenLength(g, rows, cols);
    forall k | 0 <= k < rows * cols
      ensures Flatten(g)[k] == Padded(text, rows * cols)[k]
    {
      RowMajorSplit(k, rows, cols);
      FlattenCell(g, rows, cols, k / cols, k % cols);
    }
  }

  /** Reading out a rectangular matrix and filling a matrix of the same shape
      from the result gives the matrix back. */
  lemma FillFlatten(g: Grid, rows: nat, cols: nat)
    requires IsRect(g, rows, cols)
    ensures Fill(Flatten(g), rows, cols) == g
  {
    var f := Fill(Flatten(g), rows, cols);
    forall i | 0 <= i < rows ensures f[i] == g[i] {
      forall j | 0 <= j < cols ensures f[i][j] == g[i][j] {
        FlattenCell(g, rows, cols, i, j);
      }
    }
  }

  /** Row `i` of the result is row `p[i]` of `g` (gather). */
  function GatherRows(g: Grid, p: seq<nat>): (r: Grid)
    requires forall i :: 0 <= i < |p| ==> p[i] < |g|
  {
    seq(|p|, i requires 0 <= i < |p| => g[p[i]])
  }

  /** Column `j` of the result is column `p[j]` of `g` (gather). */
  function GatherCols(g: Grid, p: seq<nat>): (r: Grid)
    requires forall i, j :: 0 <= i < |g| && 0 <= j < |p| ==> p[j] < |g[i]|
  {
    seq(|g|, i requires 0 <= i < |g| => seq(|p|, j requires 0 <= j < |p| => g[i][p[j]]))
  }

  /** Row `i` of `g` goes to row `p[i]` of the result (scatter). */
  function ScatterRows(g: Grid, p: seq<nat>): (r: Grid)
    requires IsPermutation(p, |g|)
    ensures |r| == |g|
    ensures forall i :: 0 <= i < |g| ==> r[p[i]] == g[i]
  {
    var r := seq(|g|, k requires 0 <= k < |g| => g[IndexOf(p, k)]);
    assert forall i :: 0 <= i < |g| ==> r[p[i]] == g[i] by {
      forall i | 0 <= i < |g| ensures r[p[i]] == g[i] {
        IndexOfAt(p, |g|, i);
      }
    }
    r
  }

  /** Column `j` of `g` goes to column `p[j]` of the result (scatter). */
  function ScatterCols(g: Grid, p: seq<nat>): (r: Grid)
    requires IsPermutation(p, |p|)
    requires forall i :: 0 <= i < |g| ==> |g[i]| == |p|
    ensures IsRect(r, |g|, |p|)
    ensures forall i, j :: 0 <= i < |g| && 0 <= j < |p| ==> r[i][p[j]] == g[i][j]
  {
    var r := seq(|g|, i requires 0 <= i < |g| =>
                        seq(|p|, k requires 0 <= k < |p| => g[i][IndexOf(p, k)]));
    assert forall i, j :: 0 <= i < |g| && 0 <= j < |p| ==> r[i][p[j]] == g[i][j] by {
      forall i, j | 0 <= i < |g| && 0 <= j < |p| ensures r[i][p[j]] == g[i][j] {
        IndexOfAt(p, |p|, j);
      }
    }
    r
  }

  /** Scattering rows undoes gathering them by the same permutation. */
  lemma ScatterGatherRows(g: Grid, p: seq<nat>)
    requires IsPermutation(p, |g|)
    ensures ScatterRows(GatherRows(g, p), p) == g
  {
    var r := ScatterRows(GatherRows(g, p), p);
    forall k | 0 <= k < |g| ensures r[k] == g[k] {
      var i := IndexOf(p, k);
      assert r[p[i]] == GatherRows(g, p)[i];
    }
  }

  /** Gathering rows undoes scattering them by the same permutation. */
  lemma GatherScatterRows(g: Grid, p: seq<nat>)
    requires IsPermutation(p, |g|)
    ensures GatherRows(ScatterRows(g, p), p) == g
  {
  }

  /** Scattering columns undoes gathering them by the same permutation. */
  lemma ScatterGatherCols(g: Grid, p: seq<nat>)
    requires IsPermutation(p, |p|)
    requires forall i :: 0 <= i < |g| ==> |g[i]| == |p|
    ensures ScatterCols(GatherCols(g, p), p) == g
  {
    var h := GatherCols(g, p);
    var r := ScatterCols(h, p);
    forall i | 0 <= i < |g| ensures r[i] == g[i] {
      forall k | 0 <= k < |p| ensures r[i][k] == g[i][k] {
        var j := IndexOf(p, k);
        assert r[i][p[j]] == h[i][j];
      }
    }
  }

  /** Gathering columns undoes scattering them by the same permutation. */
  lemma GatherScatterCols(g: Grid, p: seq<nat>)
    requires IsPermutation(p, |p|)
    requires forall i :: 0 <= i < |g| ==> |g[i]| == |p|
    ensures GatherCols(ScatterCols(g, p), p) == g
  {
    var r := GatherCols(ScatterCols(g, p), p);
    forall i | 0 <= i < |g| ensures r[i] == g[i] {
    }
  }
}
