/** `DoubleTranspositionCipher` as the program runs it: `Encrypt` and
    `Decrypt` fill fresh two-dimensional arrays with nested loops, and each
    step is proved to compute its counterpart on `Grids` values, so that the
    two routines compute `Transposition.Encrypted` and
    `Transposition.Decrypted`. */
module DoubleTranspositionCipher {
  import opened Text
  import opened Permutations
  import opened KeyOrder
  import opened Grids
  import opened Transposition

  /** The matrix an array holds. */
  ghost function Contents(m: array2<CodeUnit>): (g: Grid)
    reads m
    ensures IsRect(g, m.Length0, m.Length1)
  {
    seq(m.Length0, i requires 0 <= i < m.Length0 reads m =>
      seq(m.Length1, j requires 0 <= j < m.Length1 reads m => m[i, j]))
  }

  /** An array whose every cell agrees with a matrix of its shape holds it. */
  lemma ContentsIs(m: array2<CodeUnit>, g: Grid)
    requires IsRect(g, m.Length0, m.Length1)
    requires forall i, j :: 0 <= i < m.Length0 && 0 <= j < m.Length1 ==> m[i, j] == g[i][j]
    ensures Contents(m) == g
  {
    var c := Contents(m);
    forall i | 0 <= i < m.Length0 ensures c[i] == g[i] {
      assert forall j :: 0 <= j < m.Length1 ==> c[i][j] == g[i][j];
    }
  }

  /** Lays `text` into a new `rows × cols` array row by row, padding with
      spaces once the text runs out and ignoring whatever does not fit. */
  method FillMatrix(text: seq<CodeUnit>, rows: nat, cols: nat) returns (matrix: array2<CodeUnit>)
    ensures matrix.Length0 == rows && matrix.Length1 == cols
    ensures Contents(matrix) == Fill(text, rows, cols)
  {
    matrix := new CodeUnit[rows, cols];
    var index := 0;
    ghost var rowStart := 0;
    for i := 0 to rows
      invariant rowStart == i * cols
      invariant index == if rowStart < |text| then rowStart else |text|
      invariant forall i', j' :: 0 <= i' < i && 0 <= j' < cols ==>
                  matrix[i', j'] == CellAt(text, i' * cols + j')
    {
      for j := 0 to cols
        invariant index == if rowStart + j < |text| then rowStart + j else |text|
        invariant forall i', j' :: 0 <= i' < i && 0 <= j' < cols ==>
                    matrix[i', j'] == CellAt(text, i' * cols + j')
        invariant forall j' :: 0 <= j' < j ==> matrix[i, j'] == CellAt(text, rowStart + j')
      {
        if index < |text| {
          matrix[i, j] := text[index];
          index := index + 1;
        } else {
          matrix[i, j] := Space;
        }
      }
      rowStart := rowStart + cols;
    }
    ContentsIs(matrix, Fill(text, rows, cols));
  }

  /** Row `i` of the new array is row `rowOrder[i]` of `matrix`. */
  method PermuteRows(matrix: array2<CodeUnit>, rowOrder: seq<nat>) returns (permuted: array2<CodeUnit>)
    requires IsPermutation(rowOrder, matrix.Length0)
    ensures permuted.Length0 == matrix.Length0 && permuted.Length1 == matrix.Length1
    ensures Contents(permuted) == GatherRows(Contents(matrix), rowOrder)
  {
    var rows, cols := matrix.Length0, matrix.Length1;
    permuted := new CodeUnit[rows, cols];
    for i := 0 to rows
      invariant forall i', j' :: 0 <= i' < i && 0 <= j' < cols ==>
                  permuted[i', j'] == matrix[rowOrder[i'], j']
    {
      for j := 0 to cols
        invariant forall i', j' :: 0 <= i' < i && 0 <= j' < cols ==>
                    permuted[i', j'] == matrix[rowOrder[i'], j']
        invariant forall j' :: 0 <= j' < j ==> permuted[i, j'] == matrix[rowOrder[i], j']
      {
        permuted[i, j] := matrix[rowOrder[i], j];
      }
    }
    ContentsIs(permuted, GatherRows(Contents(matrix), rowOrder));
  }

  /** Column `j` of the new array is column `colOrder[j]` of `matrix`. */
  method PermuteCols(matrix: array2<CodeUnit>, colOrder: seq<nat>) returns (permuted: array2<CodeUnit>)
    requires IsPermutation(colOrder, matrix.Length1)
    ensures permuted.Length0 == matrix.Length0 && permuted.Length1 == matrix.Length1
    ensures Contents(permuted) == GatherCols(Contents(matrix), colOrder)
  {
    var rows, cols := matrix.Length0, matrix.Length1;
    permuted := new CodeUnit[rows, cols];
    for i := 0 to rows
      invariant forall i', j' :: 0 <= i' < i && 0 <= j' < cols ==>
                  permuted[i', j'] == matrix[i', colOrder[j']]
    {
      for j := 0 to cols
        invariant forall i', j' :: 0 <= i' < i && 0 <= j' < cols ==>
                    permuted[i', j'] == matrix[i', colOrder[j']]
        invariant forall j' :: 0 <= j' < j ==> permuted[i, j'] == matrix[i, colOrder[j']]
      {
        permuted[i, j] := matrix[i, colOrder[j]];
      }
    }
    ContentsIs(permuted, GatherCols(Contents(matrix), colOrder));
  }

  /** Column `j` of `matrix` is written to column `colOrder[j]` of the new
      array; since `colOrder` is a permutation every cell is written once. */
  method RestoreCols(matrix: array2<CodeUnit>, colOrder: seq<nat>) returns (restored: array2<CodeUnit>)
    requires IsPermutation(colOrder, matrix.Length1)
    ensures restored.Length0 == matrix.Length0 && restored.Length1 == matrix.Length1
    ensures forall i, j :: 0 <= i < matrix.Length0 && 0 <= j < matrix.Length1 ==>
              restored[i, colOrder[j]] == matrix[i, j]
    ensures Contents(restored) == ScatterCols(Contents(matrix), colOrder)
  {
    var rows, cols := matrix.Length0, matrix.Length1;
    restored := new CodeUnit[rows, cols];
    for i := 0 to rows
      invariant forall i', j' :: 0 <= i' < i && 0 <= j' < cols ==>
                  restored[i', colOrder[j']] == matrix[i', j']
    {
      for j := 0 to cols
        invariant forall i', j' :: 0 <= i' < i && 0 <= j' < cols ==>
                    restored[i', colOrder[j']] == matrix[i', j']
        invariant forall j' :: 0 <= j' < j ==> restored[i, colOrder[j']] == matrix[i, j']
      {
        restored[i, colOrder[j]] := matrix[i, j];
      }
    }
    ContentsIs(restored, ScatterCols(Contents(matrix), colOrder));
  }

  /** Row `i` of `matrix` is written to row `rowOrder[i]` of the new array;
      since `rowOrder` is a permutation every cell is written once. */
  method RestoreRows(matrix: array2<CodeUnit>, rowOrder: seq<nat>) returns (restored: array2<CodeUnit>)
    requires IsPermutation(rowOrder, matrix.Length0)
    ensures restored.Length0 == matrix.Length0 && restored.Length1 == matrix.Length1
    ensures forall i, j :: 0 <= i < matrix.Length0 && 0 <= j < matrix.Length1 ==>
              restored[rowOrder[i], j] == matrix[i, j]
    ensures Contents(restored) == ScatterRows(Contents(matrix), rowOrder)
  {
    var rows, cols := matrix.Length0, matrix.Length1;
    restored := new CodeUnit[rows, cols];
    for i := 0 to rows
      invariant forall i', j' :: 0 <= i' < i && 0 <= j' < cols ==>
                  restored[rowOrder[i'], j'] == matrix[i', j']
    {
      for j := 0 to cols
        invariant forall i', j' :: 0 <= i' < i && 0 <= j' < cols ==>
                    restored[rowOrder[i'], j'] == matrix[i', j']
        invariant forall j' :: 0 <= j' < j ==> restored[rowOrder[i], j'] == matrix[i, j']
      {
        restored[rowOrder[i], j] := matrix[i, j];
      }
    }
    ContentsIs(restored, ScatterRows(Contents(matrix), rowOrder));
  }

  /** Appends the cells of `matrix` row by row (the `StringBuilder` loop). */
  method ReadOut(matrix: array2<CodeUnit>) returns (text: seq<CodeUnit>)
    ensures text == Flatten(Contents(matrix))
  {
    ghost var g := Contents(matrix);
    text := [];
    for i := 0 to matrix.Length0
      invariant text == Flatten(g[..i])
    {
      for j := 0 to matrix.Length1
        invariant text == Flatten(g[..i]) + g[i][..j]
      {
        text := text + [matrix[i, j]];
      }
      assert g[..i + 1][..i] == g[..i];
    }
    assert g[..matrix.Length0] == g;
  }

  /** `Encrypt`: fills a `|rowKey| × |colKey|` matrix from the plaintext,
      permutes its rows by the row-key order and then its columns by the
      column-key order, and reads it out. */
  method Encrypt(plaintext: seq<CodeUnit>, rowKey: seq<CodeUnit>, colKey: seq<CodeUnit>)
    returns (ciphertext: seq<CodeUnit>)
    ensures ciphertext == Encrypted(plaintext, rowKey, colKey)
    ensures |ciphertext| == |rowKey| * |colKey|
  {
    var rowKeyOrder := GetKeyOrder(rowKey);
    var colKeyOrder := GetKeyOrder(colKey);
    var rows, cols := |rowKeyOrder|, |colKeyOrder|;
    var matrix := FillMatrix(plaintext, rows, cols);
    var rowPermutedMatrix := PermuteRows(matrix, rowKeyOrder);
    var colPermutedMatrix := PermuteCols(rowPermutedMatrix, colKeyOrder);
    ciphertext := ReadOut(colPermutedMatrix);
    FlattenLength(Contents(colPermutedMatrix), rows, cols);
  }

  /** `Decrypt`: fills a matrix from the ciphertext, writes its columns back
      through the column-key order and then its rows through the row-key
      order, reads it out and trims trailing white space. */
  method Decrypt(ciphertext: seq<CodeUnit>, rowKey: seq<CodeUnit>, colKey: seq<CodeUnit>)
    returns (plaintext: seq<CodeUnit>)
    ensures plaintext == Decrypted(ciphertext, rowKey, colKey)
    ensures |plaintext| <= |rowKey| * |colKey|
    ensures plaintext == [] || !IsWhiteSpace(plaintext[|plaintext| - 1])
  {
    var rowKeyOrder := GetKeyOrder(rowKey);
    var colKeyOrder := GetKeyOrder(colKey);
    var rows, cols := |rowKeyOrder|, |colKeyOrder|;
    var matrix := FillMatrix(ciphertext, rows, cols);
    var colRestoredMatrix := RestoreCols(matrix, colKeyOrder);
    var rowRestoredMatrix := RestoreRows(colRestoredMatrix, rowKeyOrder);
    var decryptedText := ReadOut(rowRestoredMatrix);
    FlattenLength(Contents(rowRestoredMatrix), rows, cols);
    plaintext := TrimEnd(decryptedText);
  }
}
