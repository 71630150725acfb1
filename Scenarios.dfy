/** Worked examples of the cipher on concrete keys and text. */
module Scenarios {
  import opened Text
  import opened Permutations
  import opened KeyOrder
  import opened Grids
  import opened Transposition

  /** `"key"` is ordered e, k, y. */
  lemma KeyOrderOfKey()
    ensures GetKeyOrder(FromString("key")) == [1, 0, 2]
  {
    var order: seq<nat> := [1, 0, 2];
    assert order[1] == 0 && order[0] == 1 && order[2] == 2;
    GetKeyOrderUnique(FromString("key"), order);
  }

  /** `"word"` is ordered d, o, r, w. */
  lemma KeyOrderOfWord()
    ensures GetKeyOrder(FromString("word")) == [3, 1, 2, 0]
  {
    var order: seq<nat> := [3, 1, 2, 0];
    assert order[3] == 0 && order[1] == 1 && order[2] == 2 && order[0] == 3;
    GetKeyOrderUnique(FromString("word"), order);
  }

  /** The two a's of `"aab"` tie and keep their original order. */
  lemma KeyOrderOfAab()
    ensures GetKeyOrder(FromString("aab")) == [0, 1, 2]
  {
    var order: seq<nat> := [0, 1, 2];
    assert order[0] == 0 && order[1] == 1 && order[2] == 2;
    GetKeyOrderUnique(FromString("aab"), order);
  }

  /** A twelve-unit text fills a 3 × 4 matrix row by row. */
  lemma FillTwelve(p: seq<CodeUnit>)
    requires |p| == 12
    ensures Fill(p, 3, 4) == [[p[0], p[1], p[2], p[3]], [p[4], p[5], p[6], p[7]], [p[8], p[9], p[10], p[11]]]
  {
    var f := Fill(p, 3, 4);
    forall i, j | 0 <= i < 3 && 0 <= j < 4 ensures f[i][j] == p[4 * i + j] {
      assert f[i][j] == CellAt(p, i * 4 + j);
    }
    assert |f| == 3 && |f[0]| == 4 && |f[1]| == 4 && |f[2]| == 4;
    assert f[0] == [p[0], p[1], p[2], p[3]];
    assert f[1] == [p[4], p[5], p[6], p[7]];
    assert f[2] == [p[8], p[9], p[10], p[11]];
  }

  /** Rows taken in the order 1, 0, 2, then columns in the order 3, 1, 2, 0. */
  lemma GatherKeyWord(f: Grid)
    requires IsRect(f, 3, 4)
    ensures GatherCols(GatherRows(f, [1, 0, 2]), [3, 1, 2, 0])
            == [[f[1][3], f[1][1], f[1][2], f[1][0]],
                [f[0][3], f[0][1], f[0][2], f[0][0]],
                [f[2][3], f[2][1], f[2][2], f[2][0]]]
  {
    var e := GatherCols(GatherRows(f, [1, 0, 2]), [3, 1, 2, 0]);
    assert e[0] == [f[1][3], f[1][1], f[1][2], f[1][0]];
    assert e[1] == [f[0][3], f[0][1], f[0][2], f[0][0]];
    assert e[2] == [f[2][3], f[2][1], f[2][2], f[2][0]];
  }

  /** Under the keys `"key"` and `"word"` a twelve-unit text fills a 3 × 4
      matrix whose rows are taken in the order 1, 0, 2 and whose columns are
      taken in the order 3, 1, 2, 0. */
  lemma KeyWordGrid(p: seq<CodeUnit>)
    requires |p| == 12
    ensures EncryptedGrid(p, FromString("key"), FromString("word"))
            == [[p[7], p[5], p[6], p[4]], [p[3], p[1], p[2], p[0]], [p[11], p[9], p[10], p[8]]]
  {
    KeyOrderOfKey();
    KeyOrderOfWord();
    FillTwelve(p);
    GatherKeyWord(Fill(p, 3, 4));
  }

  /** A three-row matrix reads out as its rows one after another. */
  lemma FlattenThree(r0: seq<CodeUnit>, r1: seq<CodeUnit>, r2: seq<CodeUnit>)
    ensures Flatten([r0, r1, r2]) == r0 + r1 + r2
  {
    var g := [r0, r1, r2];
    assert g[..2] == [r0, r1] && [r0, r1][..1] == [r0] && [r0][..0] == [];
    assert Flatten([r0]) == r0;
    assert Flatten([r0, r1]) == r0 + r1;
  }

  /** The same text read out: the ciphertext of any twelve-unit text under
      the keys `"key"` and `"word"`. */
  lemma KeyWordCiphertext(p: seq<CodeUnit>)
    requires |p| == 12
    ensures Encrypted(p, FromString("key"), FromString("word"))
            == [p[7], p[5], p[6], p[4]] + [p[3], p[1], p[2], p[0]] + [p[11], p[9], p[10], p[8]]
  {
    KeyWordGrid(p);
    FlattenThree([p[7], p[5], p[6], p[4]], [p[3], p[1], p[2], p[0]], [p[11], p[9], p[10], p[8]]);
  }

  /** A twelve-unit sequence is its three four-unit blocks. */
  lemma SplitTwelve(c: seq<CodeUnit>)
    requires |c| == 12
    ensures c == c[..4] + c[4..8] + c[8..]
  {
  }

  /** Each four-unit block of `"RWOOLELH!D!L"` picks code units of
      `"HELLOWORLD!!"`. */
  lemma ExampleBlock0()
    ensures FromString("RWOOLELH!D!L")[..4] == [FromString("HELLOWORLD!!")[7], FromString("HELLOWORLD!!")[5], FromString("HELLOWORLD!!")[6], FromString("HELLOWORLD!!")[4]]
  {
  }

  lemma ExampleBlock1()
    ensures FromString("RWOOLELH!D!L")[4..8] == [FromString("HELLOWORLD!!")[3], FromString("HELLOWORLD!!")[1], FromString("HELLOWORLD!!")[2], FromString("HELLOWORLD!!")[0]]
  {
  }

  lemma ExampleBlock2()
    ensures FromString("RWOOLELH!D!L")[8..] == [FromString("HELLOWORLD!!")[11], FromString("HELLOWORLD!!")[9], FromString("HELLOWORLD!!")[10], FromString("HELLOWORLD!!")[8]]
  {
  }

  /** `"HELLOWORLD!!"` under the keys `"key"` and `"word"` encrypts to
      `"RWOOLELH!D!L"`. */
  lemma EncryptExample()
    ensures Encrypted(FromString("HELLOWORLD!!"), FromString("key"), FromString("word"))
            == FromString("RWOOLELH!D!L")
  {
    var p, c := FromString("HELLOWORLD!!"), FromString("RWOOLELH!D!L");
    KeyWordCiphertext(p);
    ExampleBlock0();
    ExampleBlock1();
    ExampleBlock2();
    SplitTwelve(c);
  }

  /** `"RWOOLELH!D!L"` under the keys `"key"` and `"word"` decrypts back to
      `"HELLOWORLD!!"`. */
  lemma DecryptExample()
    ensures Decrypted(FromString("RWOOLELH!D!L"), FromString("key"), FromString("word"))
            == FromString("HELLOWORLD!!")
  {
    var p, rk, ck := FromString("HELLOWORLD!!"), FromString("key"), FromString("word");
    EncryptExample();
    assert !IsWhiteSpace(p[11]);
    RoundTrip(p, rk, ck);
  }
}
