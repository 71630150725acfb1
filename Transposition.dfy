/** The double transposition cipher as functions of its inputs: what
    `DoubleTranspositionCipher.Encrypt` and `Decrypt` compute, and the laws
    that relate the two. */
module Transposition {
  import opened Text
  import opened Permutations
  import opened KeyOrder
  import opened Grids

  /** The matrix `Encrypt` reads out: the plaintext filled into a
      `|rowKey| × |colKey|` matrix, its rows gathered by the row-key order,
      then its columns by the column-key order. */
  function EncryptedGrid(plaintext: seq<CodeUnit>, rowKey: seq<CodeUnit>, colKey: seq<CodeUnit>): Grid {
    var rowOrder := GetKeyOrder(rowKey);
    var colOrder := GetKeyOrder(colKey);
    GatherCols(GatherRows(Fill(plaintext, |rowOrder|, |colOrder|), rowOrder), colOrder)
  }

  /** The ciphertext: the encrypted matrix read out row-major. */
  function Encrypted(plaintext: seq<CodeUnit>, rowKey: seq<CodeUnit>, colKey: seq<CodeUnit>): seq<CodeUnit> {
    Flatten(EncryptedGrid(plaintext, rowKey, colKey))
  }

  /** The matrix `Decrypt` reads out: the ciphertext filled into a matrix,
      its columns scattered by the column-key order, then its rows by the
      row-key order. */
  function RestoredGrid(ciphertext: seq<CodeUnit>, rowKey: seq<CodeUnit>, colKey: seq<CodeUnit>): Grid {
    var rowOrder := GetKeyOrder(rowKey);
    var colOrder := GetKeyOrder(colKey);
    ScatterRows(ScatterCols(Fill(ciphertext, |rowOrder|, |colOrder|), colOrder), rowOrder)
  }

  /** The restored matrix read out, before trailing white space is trimmed. */
  function Restored(ciphertext: seq<CodeUnit>, rowKey: seq<CodeUnit>, colKey: seq<CodeUnit>): seq<CodeUnit> {
    Flatten(RestoredGrid(ciphertext, rowKey, colKey))
  }

  /** The restored text with its trailing white space trimmed. */
  function Decrypted(ciphertext: seq<CodeUnit>, rowKey: seq<CodeUnit>, colKey: seq<CodeUnit>): seq<CodeUnit> {
    TrimEnd(Restored(ciphertext, rowKey, colKey))
  }

  /** Cell `(i, j)` of the encrypted matrix is cell `(rowOrder[i], colOrder[j])`
      of the filled one. */
  lemma EncryptedGridAt(plaintext: seq<CodeUnit>, rowKey: seq<CodeUnit>, colKey: seq<CodeUnit>)
    ensures IsRect(EncryptedGrid(plaintext, rowKey, colKey), |rowKey|, |colKey|)
    ensures forall i, j :: 0 <= i < |rowKey| && 0 <= j < |colKey| ==>
              EncryptedGrid(plaintext, rowKey, colKey)[i][j]
              == Fill(plaintext, |rowKey|, |colKey|)[GetKeyOrder(rowKey)[i]][GetKeyOrder(colKey)[j]]
  {
  }

  /** The ciphertext has exactly `|rowKey| * |colKey|` code units, whatever the
      plaintext's length, and position `i * cols + j` holds the filled matrix's
      cell at row `rowOrder[i]`, column `colOrder[j]`. */
  lemma EncryptedAt(plaintext: seq<CodeUnit>, rowKey: seq<CodeUnit>, colKey: seq<CodeUnit>)
    ensures |Encrypted(plaintext, rowKey, colKey)| == |rowKey| * |colKey|
    ensures forall i, j :: 0 <= i < |rowKey| && 0 <= j < |colKey| ==>
              var rowOrder, colOrder := GetKeyOrder(rowKey), GetKeyOrder(colKey);
              i * |colKey| + j < |rowKey| * |colKey|
              && Encrypted(plaintext, rowKey, colKey)[i * |colKey| + j]
                 == Fill(plaintext, |rowKey|, |colKey|)[rowOrder[i]][colOrder[j]]
  {
    var rows, cols := |rowKey|, |colKey|;
    var g := EncryptedGrid(plaintext, rowKey, colKey);
    EncryptedGridAt(plaintext, rowKey, colKey);
    FlattenLength(g, rows, cols);
    forall i, j | 0 <= i < rows && 0 <= j < cols
      ensures i * cols + j < rows * cols
      ensures Flatten(g)[i * cols + j]
              == Fill(plaintext, rows, cols)[GetKeyOrder(rowKey)[i]][GetKeyOrder(colKey)[j]]
    {
      FlattenCell(g, rows, cols, i, j);
    }
  }

  /** Cell `(i, j)` of the filled ciphertext matrix lands at cell
      `(rowOrder[i], colOrder[j])` of the restored matrix. */
  lemma RestoredGridAt(ciphertext: seq<CodeUnit>, rowKey: seq<CodeUnit>, colKey: seq<CodeUnit>)
    ensures IsRect(RestoredGrid(ciphertext, rowKey, colKey), |rowKey|, |colKey|)
    ensures forall i, j :: 0 <= i < |rowKey| && 0 <= j < |colKey| ==>
              var rowOrder, colOrder := GetKeyOrder(rowKey), GetKeyOrder(colKey);
              RestoredGrid(ciphertext, rowKey, colKey)[rowOrder[i]][colOrder[j]]
              == Fill(ciphertext, |rowKey|, |colKey|)[i][j]
  {
    var rowOrder, colOrder := GetKeyOrder(rowKey), GetKeyOrder(colKey);
    var f := Fill(ciphertext, |rowKey|, |colKey|);
    var c := ScatterCols(f, colOrder);
    forall i, j | 0 <= i < |rowKey| && 0 <= j < |colKey|
      ensures ScatterRows(c, rowOrder)[rowOrder[i]][colOrder[j]] == f[i][j]
    {
      assert ScatterRows(c, rowOrder)[rowOrder[i]] == c[i];
    }
  }

  /** The decrypted text is at most `|rowKey| * |colKey|` code units long and
      never ends in white space. */
  lemma DecryptedShape(ciphertext: seq<CodeUnit>, rowKey: seq<CodeUnit>, colKey: seq<CodeUnit>)
    ensures |Decrypted(ciphertext, rowKey, colKey)| <= |rowKey| * |colKey|
    ensures var d := Decrypted(ciphertext, rowKey, colKey);
            d == [] || !IsWhiteSpace(d[|d| - 1])
  {
    RestoredGridAt(ciphertext, rowKey, colKey);
    FlattenLength(RestoredGrid(ciphertext, rowKey, colKey), |rowKey|, |colKey|);
  }

  /** Encrypting the empty text gives `|rowKey| * |colKey|` spaces. */
  lemma EncryptedEmpty(rowKey: seq<CodeUnit>, colKey: seq<CodeUnit>)
    ensures Encrypted([], rowKey, colKey) == Spaces(|rowKey| * |colKey|)
  {
    var rows, cols := |rowKey|, |colKey|;
    var g := EncryptedGrid([], rowKey, colKey);
    var f := Fill([], rows, cols);
    EncryptedGridAt([], rowKey, colKey);
    FillEmpty(rows, cols);
    forall i | 0 <= i < rows ensures g[i] == f[i] {
      forall j | 0 <= j < cols ensures g[i][j] == f[i][j] {
        assert g[i][j] == f[GetKeyOrder(rowKey)[i]][GetKeyOrder(colKey)[j]];
      }
    }
    assert g == f;
    FlattenFill([], rows, cols);
  }

  /** An empty key gives an empty order, and both directions then give the
      empty text without failing. */
  lemma EmptyKey(text: seq<CodeUnit>, rowKey: seq<CodeUnit>, colKey: seq<CodeUnit>)
    requires rowKey == [] || colKey == []
    ensures Encrypted(text, rowKey, colKey) == []
    ensures Decrypted(text, rowKey, colKey) == []
  {
    EncryptedGridAt(text, rowKey, colKey);
    FlattenLength(EncryptedGrid(text, rowKey, colKey), |rowKey|, |colKey|);
    RestoredGridAt(text, rowKey, colKey);
    FlattenLength(RestoredGrid(text, rowKey, colKey), |rowKey|, |colKey|);
  }

  /** Decryption before trimming undoes encryption up to the padding and the
      cut: it restores the plaintext cut or padded to the matrix size. */
  lemma RestoredEncrypted(plaintext: seq<CodeUnit>, rowKey: seq<CodeUnit>, colKey: seq<CodeUnit>)
    ensures Restored(Encrypted(plaintext, rowKey, colKey), rowKey, colKey)
            == Padded(plaintext, |rowKey| * |colKey|)
  {
    var rowOrder, colOrder := GetKeyOrder(rowKey), GetKeyOrder(colKey);
    var rows, cols := |rowKey|, |colKey|;
    var f := Fill(plaintext, rows, cols);
    var gr := GatherRows(f, rowOrder);
    var gc := GatherCols(gr, colOrder);
    assert IsRect(gc, rows, cols);
    FillFlatten(gc, rows, cols);
    ScatterGatherCols(gr, colOrder);
    ScatterGatherRows(f, rowOrder);
    FlattenFill(plaintext, rows, cols);
  }

  /** Encryption undoes decryption before trimming: it gives back the
      ciphertext cut or padded to the matrix size. */
  lemma EncryptedRestored(ciphertext: seq<CodeUnit>, rowKey: seq<CodeUnit>, colKey: seq<CodeUnit>)
    ensures Encrypted(Restored(ciphertext, rowKey, colKey), rowKey, colKey)
            == Padded(ciphertext, |rowKey| * |colKey|)
  {
    var rowOrder, colOrder := GetKeyOrder(rowKey), GetKeyOrder(colKey);
    var rows, cols := |rowKey|, |colKey|;
    var f := Fill(ciphertext, rows, cols);
    var sc := ScatterCols(f, colOrder);
    var sr := ScatterRows(sc, rowOrder);
    assert IsRect(sr, rows, cols);
    FillFlatten(sr, rows, cols);
    GatherScatterRows(sc, rowOrder);
    GatherScatterCols(f, colOrder);
    FlattenFill(ciphertext, rows, cols);
  }

  /** Decrypting the empty text's ciphertext gives the empty text back. */
  lemma DecryptedSpaces(rowKey: seq<CodeUnit>, colKey: seq<CodeUnit>)
    ensures Decrypted(Spaces(|rowKey| * |colKey|), rowKey, colKey) == []
  {
    EncryptedEmpty(rowKey, colKey);
    RestoredEncrypted([], rowKey, colKey);
    TrimEndPadding([], |rowKey| * |colKey|);
  }

  /** A plaintext that fits the matrix comes back with its trailing white
      space, and nothing else, removed. */
  lemma TrimmedRoundTrip(plaintext: seq<CodeUnit>, rowKey: seq<CodeUnit>, colKey: seq<CodeUnit>)
    requires |plaintext| <= |rowKey| * |colKey|
    ensures Decrypted(Encrypted(plaintext, rowKey, colKey), rowKey, colKey) == TrimEnd(plaintext)
  {
    RestoredEncrypted(plaintext, rowKey, colKey);
    TrimEndPadded(plaintext, |rowKey| * |colKey|);
  }

  /** Round trip: a plaintext that fits the matrix and does not end in white
      space is recovered exactly. */
  lemma RoundTrip(plaintext: seq<CodeUnit>, rowKey: seq<CodeUnit>, colKey: seq<CodeUnit>)
    requires |plaintext| <= |rowKey| * |colKey|
    requires plaintext == [] || !IsWhiteSpace(plaintext[|plaintext| - 1])
    ensures Decrypted(Encrypted(plaintext, rowKey, colKey), rowKey, colKey) == plaintext
  {
    RestoredEncrypted(plaintext, rowKey, colKey);
    TrimEndPadding(plaintext, |rowKey| * |colKey| - |plaintext|);
  }

  /** A plaintext longer than the matrix loses its tail without an error:
      only its first `|rowKey| * |colKey|` code units, trimmed, come back. */
  lemma TruncatedRoundTrip(plaintext: seq<CodeUnit>, rowKey: seq<CodeUnit>, colKey: seq<CodeUnit>)
    requires |plaintext| >= |rowKey| * |colKey|
    ensures Decrypted(Encrypted(plaintext, rowKey, colKey), rowKey, colKey)
            == TrimEnd(plaintext[..|rowKey| * |colKey|])
  {
    RestoredEncrypted(plaintext, rowKey, colKey);
  }
}
