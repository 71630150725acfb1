# Double transposition cipher — a verified Dafny model

This project models the `DoubleTranspositionCipher` class of the DoubleApi
service (`DoubleApi/Program.cs`). The class turns a text into a ciphertext
and back with two keys:

- **Key order.** `GetKeyOrder` turns a key into the positions of its
  characters, stably sorted by character.
- **Encrypt.** The plaintext is written row by row into a
  `|rowKey| × |colKey|` matrix. Cells past the end of the text get spaces;
  characters past the last cell are dropped. The rows are then reordered by
  the row-key order, the columns by the column-key order, and the matrix is
  read out row by row.
- **Decrypt.** The ciphertext is written into a matrix the same way. Each
  column goes back to where the column-key order took it from, then each
  row likewise. The matrix is read out and trailing white space is trimmed.

The project has two layers:

- **Specification functions.** These are pure functions over sequences
  (modules `Text`, `Permutations`, `KeyOrder`, `Grids`, `Transposition`)
  and the laws about them. The laws are the round trip, what is lost
  through padding, trimming and cutting, the empty cases, and uniqueness of
  the key order.
- **Imperative methods.** These follow the C# loops over `char[,]`
  matrices and the `StringBuilder` read-out (module
  `DoubleTranspositionCipher`). Each method is proved to compute its
  specification function.

Module `Scenarios` works through the concrete examples. Under the keys
`"key"` and `"word"`, `"HELLOWORLD!!"` encrypts to `"RWOOLELH!D!L"`, and
that ciphertext decrypts back.

Two behaviours of the class are easy to misread:

- **Empty keys.** Nothing in the class rejects an empty key:
  `GetKeyOrder("")` returns an empty array, so the matrix has no cells and
  `Encrypt` and `Decrypt` return `""` without failing (`EmptyKey`). Only
  the HTTP handlers (`DoubleApi/Program.cs:332`, `:359`) reject blank keys,
  and they are outside this model.
- **Trimming.** `String.TrimEnd()` with no arguments strips every trailing
  character for which `Char.IsWhiteSpace` holds, not only `' '`. That
  includes tabs, newlines and the Unicode spaces, and it strips them even
  when they were part of the plaintext (`TrimEnd`, `TrimmedRoundTrip`).

The two operations are defined in module `Transposition`:

- **Encrypt** (`DoubleApi/Program.cs:421-480`). `EncryptedGrid` is the
  matrix after the gathers at lines 450-467 (`Grids.GatherRows`,
  `Grids.GatherCols`). `Encrypted` is its row-major read-out
  (`Grids.Flatten`, lines 470-477).
- **Decrypt** (`DoubleApi/Program.cs:482-541`). `RestoredGrid`,
  `Restored` and `Decrypted` do the same for decryption.
- **Fill.** `Grids.Fill` and `Grids.CellAt` give the fill loops' rule.

Characters are UTF-16 code units (`Text.CodeUnit`, 0 to 0xFFFF), as C#
`char` is. Every comparison in the source is by code unit. `OrderBy` on
`char` uses the default comparer, which compares code units as numbers.

## Model

In the table, `rows` and `cols` are the lengths of the row key and the column key.

| member | source | states |
|---|---|---|
| KeyOrder.GetKeyOrder | DoubleApi/Program.cs:543-552 | the order is a permutation of the key's positions, listed by ascending character, with equal characters kept in key order (a stable sort) |
| KeyOrder.KeyOrderOf | DoubleApi/Program.cs:547-550 | sorting the first `n` positions gives exactly the positions `0..n-1`, each once, stably sorted by character |
| KeyOrder.Insert | DoubleApi/Program.cs:548 | inserting a position gives one more element, and its members are the old ones plus the inserted position |
| KeyOrder.InsertSorted | DoubleApi/Program.cs:548 | inserting a position larger than all present keeps the sequence stably sorted, so ties stay in key order |
| KeyOrder.SortedUnique | DoubleApi/Program.cs:547-550 | two stably sorted sequences with the same members are equal |
| KeyOrder.GetKeyOrderUnique | DoubleApi/Program.cs:547-550 | any permutation stably sorted by character is the order `GetKeyOrder` returns, so the result does not depend on the sorting algorithm |
| Text.Spaces | DoubleApi/Program.cs:444 | the padding has exactly the requested length |
| Text.TrimEnd | DoubleApi/Program.cs:540 | the result is a prefix of the input that does not end in white space, and every dropped character is white space |
| Text.TrimEndPadding | DoubleApi/Program.cs:540 | trimming a text that ends in non-white space, followed by any number of spaces, gives the text back |
| Text.TrimEndSpaces | DoubleApi/Program.cs:540 | appending spaces does not change what trimming returns |
| Grids.Padded | DoubleApi/Program.cs:438-445 | the text is cut to exactly `n` characters or padded to `n` with spaces |
| Grids.TrimEndPadded | DoubleApi/Program.cs:540 | trimming a text padded with spaces gives the same result as trimming the text itself |
| Grids.Fill | DoubleApi/Program.cs:433-447 | the filled matrix is `rows × cols` |
| Grids.FillEmpty | DoubleApi/Program.cs:442-445 | filling from the empty text gives a matrix of spaces |
| Grids.FlattenLength | DoubleApi/Program.cs:470-477 | reading out a `rows × cols` matrix gives `rows * cols` characters |
| Grids.FlattenCell | DoubleApi/Program.cs:470-477 | cell `(i, j)` is read out at position `i * cols + j` |
| Grids.FlattenFill | DoubleApi/Program.cs:433-447 | filling and then reading out gives the text cut or padded to `rows * cols` |
| Grids.FillFlatten | DoubleApi/Program.cs:494-508 | refilling a matrix of the same shape from its read-out gives the matrix back |
| Grids.ScatterRows | DoubleApi/Program.cs:520-528 | row `i` of the input ends up at row `p[i]` |
| Grids.ScatterCols | DoubleApi/Program.cs:511-518 | column `j` of the input ends up at column `p[j]`, and the shape is kept |
| Grids.ScatterGatherRows | DoubleApi/Program.cs:450-457 | scattering rows undoes gathering them by the same permutation |
| Grids.GatherScatterRows | DoubleApi/Program.cs:520-528 | gathering rows undoes scattering them by the same permutation |
| Grids.ScatterGatherCols | DoubleApi/Program.cs:459-467 | scattering columns undoes gathering them by the same permutation |
| Grids.GatherScatterCols | DoubleApi/Program.cs:511-518 | gathering columns undoes scattering them by the same permutation |
| Transposition.EncryptedGridAt | DoubleApi/Program.cs:450-467 | the encrypted matrix is `rows × cols`, and its cell `(i, j)` is the filled matrix's cell `(rowOrder[i], colOrder[j])` |
| Transposition.EncryptedAt | DoubleApi/Program.cs:421-480 | the ciphertext has `rows * cols` characters, and position `i * cols + j` holds filled cell `(rowOrder[i], colOrder[j])` |
| Transposition.RestoredGridAt | DoubleApi/Program.cs:511-528 | cell `(rowOrder[i], colOrder[j])` of the restored matrix is cell `(i, j)` of the filled ciphertext |
| Transposition.DecryptedShape | DoubleApi/Program.cs:531-540 | the decrypted text is at most `rows * cols` long and never ends in white space |
| Transposition.EncryptedEmpty | DoubleApi/Program.cs:438-445 | encrypting the empty text gives `rows * cols` spaces |
| Transposition.DecryptedSpaces | DoubleApi/Program.cs:482-541 | decrypting that all-space ciphertext gives the empty text |
| Transposition.EmptyKey | DoubleApi/Program.cs:424-430 | with an empty row key or column key, both directions give the empty text and do not fail |
| Transposition.RestoredEncrypted | DoubleApi/Program.cs:482-538 | decryption before trimming maps a ciphertext back to the plaintext cut or padded to the matrix size |
| Transposition.EncryptedRestored | DoubleApi/Program.cs:421-480 | encrypting the untrimmed decryption gives back the ciphertext cut or padded to the matrix size |
| Transposition.TrimmedRoundTrip | DoubleApi/Program.cs:540 | a plaintext that fits the matrix comes back with exactly its trailing white space removed |
| Transposition.RoundTrip | DoubleApi/Program.cs:421-541 | a plaintext that fits the matrix and does not end in white space comes back unchanged |
| Transposition.TruncatedRoundTrip | DoubleApi/Program.cs:438-441 | a plaintext longer than the matrix comes back as its first `rows * cols` characters, trimmed |
| DoubleTranspositionCipher.FillMatrix | DoubleApi/Program.cs:430-447 | the nested loops with the running `index` fill a `rows × cols` array with the text, padded with spaces |
| DoubleTranspositionCipher.PermuteRows | DoubleApi/Program.cs:450-457 | row `i` of the new array is row `rowOrder[i]` of the old one |
| DoubleTranspositionCipher.PermuteCols | DoubleApi/Program.cs:460-467 | column `j` of the new array is column `colOrder[j]` of the old one |
| DoubleTranspositionCipher.RestoreCols | DoubleApi/Program.cs:511-518 | column `j` of the old array is written to column `colOrder[j]` of the new one, and every cell is written |
| DoubleTranspositionCipher.RestoreRows | DoubleApi/Program.cs:521-528 | row `i` of the old array is written to row `rowOrder[i]` of the new one, and every cell is written |
| DoubleTranspositionCipher.ReadOut | DoubleApi/Program.cs:470-479 | the `StringBuilder` loop appends the array's cells row by row |
| DoubleTranspositionCipher.Encrypt | DoubleApi/Program.cs:421-480 | the ciphertext is the specified encryption and is exactly `rows * cols` characters long |
| DoubleTranspositionCipher.Decrypt | DoubleApi/Program.cs:482-541 | the plaintext is the specified decryption, at most `rows * cols` long, and does not end in white space |
| Scenarios.KeyOrderOfKey | DoubleApi/Program.cs:543-552 | the order of `"key"` is `[1, 0, 2]` |
| Scenarios.KeyOrderOfWord | DoubleApi/Program.cs:543-552 | the order of `"word"` is `[3, 1, 2, 0]` |
| Scenarios.KeyOrderOfAab | DoubleApi/Program.cs:547-550 | the order of `"aab"` is `[0, 1, 2]`, so equal characters keep their order |
| Scenarios.KeyWordCiphertext | DoubleApi/Program.cs:421-480 | under `"key"` and `"word"`, any 12-character text is permuted to positions 7 5 6 4, 3 1 2 0, 11 9 10 8 |
| Scenarios.EncryptExample | DoubleApi/Program.cs:421-480 | `"HELLOWORLD!!"` encrypts to `"RWOOLELH!D!L"` under `"key"` and `"word"` |
| Scenarios.DecryptExample | DoubleApi/Program.cs:482-541 | `"RWOOLELH!D!L"` decrypts to `"HELLOWORLD!!"` under `"key"` and `"word"` |

## Left out

- The HTTP endpoints (`DoubleApi/Program.cs:85-376`) are left out. They cover registration, login, token checks, text storage, and the routes that call `Encrypt` and `Decrypt` with stored content, where `null` content becomes `""`. They are service plumbing around the cipher.
- Password hashing (BCrypt), token generation and parsing, and the database context and entity classes (`DoubleApi/Program.cs:384-414`, `AuthUtils`) are left out. They are outside the cipher.
- `Client/Program.cs` is not part of this model. It is a console client that only sends requests.
- Text.IsWhiteSpace: written out as the fixed list of code units for which .NET's `Char.IsWhiteSpace` holds, not derived from a Unicode database.
- Strings are modelled as sequences of UTF-16 code units. Surrogate pairs are two units, as in C#, so a pair can be split across cells. No Unicode normalisation or culture rules are modelled; the source uses none.
- KeyOrder.GetKeyOrder: the LINQ pipeline is modelled as a stable insertion sort rather than LINQ's own algorithm. `GetKeyOrderUnique` shows that every stable sort by character gives the same result.
- The `int[]` key orders, the `char[,]` matrices and `StringBuilder` become `seq<nat>`, `array2` and `seq`. The `new char[rows, cols]` allocations failing for huge keys are not modelled.
