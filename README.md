# Columnar transposition cipher — Dafny model

The program is a lab exercise: a console columnar transposition cipher in one
Java class, `App`. It reads a plaintext line and a numeric key line. The
plaintext is cleaned to its letters, upper-cased. The key is a string of `n`
digits that must be a permutation of `1..n`; digit `j` is the *play order* of
column `j`. Encryption writes the plaintext row by row into a table `n`
columns wide, pads the last row with `X`, and reads the columns top to bottom
in play order 1, 2, …, n. Decryption cuts the ciphertext into `n` groups in
play order and writes each group down the column holding that order. It then
reads the table row by row and removes the trailing run of `X`.

This project models those steps and proves what they promise:

- `Text`: the character classes; the `[^a-zA-Z]` and `[^A-Z]` filters; upper-casing; `String.trim()`; the `X+$` strip; the plaintext prompt's checks.
- `Key`: the key prompt's checking loops with their `key` and `seen` arrays, and `getKeyIndex`. They are proved against a specification `KeyCheck`, and `KeyCheck` is proved to accept exactly the permutations of `1..n`.
- `Grid`: the row count `ceil(len / cols)`, tables as sequences of rows, columns, the row-major readout, and the view of a `char[][]` as a sequence of rows (`Cells`).
- `Encoder` and `Decoder`: `encryptAndPrint` and `decryptAndPrint` without their printing. Each is an imperative method over `array2<char>` and `array<string>`, proved equal to a specification function (`Encryption`, `Decryption`) on sequences.
- `RoundTrip`: decryption undoes encryption up to the trailing `X` run, and `main`'s encrypt-then-decrypt composition.
- `Examples`: the worked examples. Key `31425`. `HELLOWORLD` ↔ `EOLLHWLROD`. A padded plaintext. A plaintext whose final `X` is lost.

Java's `int[]` keys are `array<int>` in the methods and `seq<int>` in the specification functions.

## Model

Source paths are relative to the repository root; `App.java` below stands for
`IT312_IT3D_LlagunoSandaraAngelMae_BaloCamille_Lab1/IT312_IT3D_LlagunosandaraAngelMae_BaloCamille_Lab1/src/App.java`.

| member | source | states |
|---|---|---|
| Text.Filter | IT312_IT3D_LlagunoSandaraAngelMae_BaloCamille_Lab1/IT312_IT3D_LlagunosandaraAngelMae_BaloCamille_Lab1/src/App.java:18 | removing the characters a class rejects keeps only accepted characters, keeps every accepted character as often as it occurs, never lengthens the text, and changes nothing when every character is accepted; their order is stated by `Text.FilterAppend` |
| Text.KeepUpper | IT312_IT3D_LlagunoSandaraAngelMae_BaloCamille_Lab1/IT312_IT3D_LlagunosandaraAngelMae_BaloCamille_Lab1/src/App.java:116 | `replaceAll("[^A-Z]", "")` leaves only capitals, keeps every capital with its multiplicity, and leaves an all-capital text unchanged; their order is stated by `Text.KeepUpperAppend` |
| Text.FilterSingle | IT312_IT3D_LlagunoSandaraAngelMae_BaloCamille_Lab1/IT312_IT3D_LlagunosandaraAngelMae_BaloCamille_Lab1/src/App.java:18 | a single character survives the filter exactly when its class accepts it |
| Text.FilterAppend | IT312_IT3D_LlagunoSandaraAngelMae_BaloCamille_Lab1/IT312_IT3D_LlagunosandaraAngelMae_BaloCamille_Lab1/src/App.java:18 | filtering a concatenation is filtering each part and concatenating, so the kept characters stay in their input order (with `Text.FilterSingle` this fixes the result of the filter on every text) |
| Text.KeepUpperAppend | IT312_IT3D_LlagunoSandaraAngelMae_BaloCamille_Lab1/IT312_IT3D_LlagunosandaraAngelMae_BaloCamille_Lab1/src/App.java:116 | the capitals of `s + t` are the capitals of `s` followed by those of `t`: `[^A-Z]` removal keeps the capitals in order |
| Text.KeepUpperSingle | IT312_IT3D_LlagunoSandaraAngelMae_BaloCamille_Lab1/IT312_IT3D_LlagunosandaraAngelMae_BaloCamille_Lab1/src/App.java:116 | a single character survives `[^A-Z]` removal exactly when it is a capital |
| Text.ToUpper | IT312_IT3D_LlagunoSandaraAngelMae_BaloCamille_Lab1/IT312_IT3D_LlagunosandaraAngelMae_BaloCamille_Lab1/src/App.java:23 | a letter becomes a capital; a capital stays as it is; a small letter moves down 32 code points |
| Text.UpperCase | IT312_IT3D_LlagunoSandaraAngelMae_BaloCamille_Lab1/IT312_IT3D_LlagunosandaraAngelMae_BaloCamille_Lab1/src/App.java:23 | upper-casing keeps the length and maps each character on its own |
| Text.CleanPlaintext | IT312_IT3D_LlagunoSandaraAngelMae_BaloCamille_Lab1/IT312_IT3D_LlagunosandaraAngelMae_BaloCamille_Lab1/src/App.java:9-23 | a line is refused as empty exactly when it is all blanks; refused for digits exactly when it is not blank and holds a digit; refused for no letters exactly when none of these holds and it has no letter. Otherwise the result is its letters in order, upper-cased, and not empty |
| Text.Trim | IT312_IT3D_LlagunoSandaraAngelMae_BaloCamille_Lab1/IT312_IT3D_LlagunosandaraAngelMae_BaloCamille_Lab1/src/App.java:31 | `trim()` returns a contiguous slice of the line with only blanks (code points up to U+0020) before and after it; a non-empty result neither starts nor ends with a blank |
| Text.SkipBlanks | IT312_IT3D_LlagunoSandaraAngelMae_BaloCamille_Lab1/IT312_IT3D_LlagunosandaraAngelMae_BaloCamille_Lab1/src/App.java:31 | the start index of `trim()` passes only blanks and stops at a non-blank or at the end |
| Text.BackBlanks | IT312_IT3D_LlagunoSandaraAngelMae_BaloCamille_Lab1/IT312_IT3D_LlagunosandaraAngelMae_BaloCamille_Lab1/src/App.java:31 | the end index of `trim()` passes back over blanks only and stops after a non-blank or at the start index |
| Text.StripTrailingX | IT312_IT3D_LlagunoSandaraAngelMae_BaloCamille_Lab1/IT312_IT3D_LlagunosandaraAngelMae_BaloCamille_Lab1/src/App.java:200 | `replaceAll("X+$", "")` returns a prefix that is empty or does not end in `X`, and everything it drops is `X` |
| Text.StripPadding | IT312_IT3D_LlagunoSandaraAngelMae_BaloCamille_Lab1/IT312_IT3D_LlagunosandaraAngelMae_BaloCamille_Lab1/src/App.java:200 | stripping a text followed by any amount of `X` padding gives the same as stripping the text alone |
| Text.StripKeeps | IT312_IT3D_LlagunoSandaraAngelMae_BaloCamille_Lab1/IT312_IT3D_LlagunosandaraAngelMae_BaloCamille_Lab1/src/App.java:200 | a text that does not end in `X` is not changed by the strip |
| Text.Pad | IT312_IT3D_LlagunoSandaraAngelMae_BaloCamille_Lab1/IT312_IT3D_LlagunosandaraAngelMae_BaloCamille_Lab1/src/App.java:126 | padding of length m is m copies of `X` |
| Key.DistinctBounded | IT312_IT3D_LlagunoSandaraAngelMae_BaloCamille_Lab1/IT312_IT3D_LlagunosandaraAngelMae_BaloCamille_Lab1/src/App.java:40-54 | pigeonhole: distinct values drawn from 1..m number at most m |
| Key.KeyCovers | IT312_IT3D_LlagunoSandaraAngelMae_BaloCamille_Lab1/IT312_IT3D_LlagunosandaraAngelMae_BaloCamille_Lab1/src/App.java:57-63 | n distinct values in 1..n include every value of 1..n, so a key is a permutation |
| Key.IndexOf | IT312_IT3D_LlagunoSandaraAngelMae_BaloCamille_Lab1/IT312_IT3D_LlagunosandaraAngelMae_BaloCamille_Lab1/src/App.java:70-73 | the search gives -1 exactly when the value is absent; otherwise the index of its first occurrence |
| Key.GetKeyIndex | IT312_IT3D_LlagunoSandaraAngelMae_BaloCamille_Lab1/IT312_IT3D_LlagunosandaraAngelMae_BaloCamille_Lab1/src/App.java:70-73 | the search loop over the `int[]` returns the first index holding `colNumber`, or -1 when no entry does |
| Key.Position | IT312_IT3D_LlagunoSandaraAngelMae_BaloCamille_Lab1/IT312_IT3D_LlagunosandaraAngelMae_BaloCamille_Lab1/src/App.java:140 | for a key and a play order in 1..n, `getKeyIndex` always finds a column, and that column holds the order |
| Key.PositionInverse | IT312_IT3D_LlagunoSandaraAngelMae_BaloCamille_Lab1/IT312_IT3D_LlagunosandaraAngelMae_BaloCamille_Lab1/src/App.java:70-73 | the column found for an order is the unique column holding it, so the search is the inverse permutation of the key |
| Key.DigitValues | IT312_IT3D_LlagunoSandaraAngelMae_BaloCamille_Lab1/IT312_IT3D_LlagunosandaraAngelMae_BaloCamille_Lab1/src/App.java:41 | `getNumericValue` of each ASCII digit is its value, position by position |
| Key.FirstFault | IT312_IT3D_LlagunoSandaraAngelMae_BaloCamille_Lab1/IT312_IT3D_LlagunosandaraAngelMae_BaloCamille_Lab1/src/App.java:40-54 | the scan over the digits, stopping at the first digit outside 1..n or already seen; it has no contract of its own. `Key.FirstFaultNone` states when it passes, `Key.FirstFaultSound` that each fault it reports is genuine, and `Key.ScanDigits` that the array loop computes it |
| Key.FirstMissing | IT312_IT3D_LlagunoSandaraAngelMae_BaloCamille_Lab1/IT312_IT3D_LlagunosandaraAngelMae_BaloCamille_Lab1/src/App.java:57-63 | the search for the first play order in 1..n that no digit supplies; it has no contract of its own. `Key.FirstMissingNone` states that a permutation passes it, and `Key.MissingNeverReported` that it never fires after the scan passes |
| Key.DigitCheck | IT312_IT3D_LlagunoSandaraAngelMae_BaloCamille_Lab1/IT312_IT3D_LlagunosandaraAngelMae_BaloCamille_Lab1/src/App.java:32-65 | the checks on the trimmed key line, in source order; it has no contract of its own. `Key.DigitCheckAccepts` states that it accepts exactly the digit strings whose values are a permutation of 1..n, and `Key.CheckDigits` that the array loops compute it |
| Key.KeyCheck | IT312_IT3D_LlagunoSandaraAngelMae_BaloCamille_Lab1/IT312_IT3D_LlagunosandaraAngelMae_BaloCamille_Lab1/src/App.java:31-65 | one pass of the key prompt on a typed line; it has no contract of its own. `Key.KeyCheckAccepts` states that it accepts exactly the lines that trim to a permutation, `Key.AcceptedKeyLength` that an accepted key has 1 to 9 columns, and `Key.ValidateKey` that the prompt pass computes it |
| Key.FirstFaultNone | IT312_IT3D_LlagunoSandaraAngelMae_BaloCamille_Lab1/IT312_IT3D_LlagunosandaraAngelMae_BaloCamille_Lab1/src/App.java:40-54 | the scanning loop finishes without complaint exactly when every digit it reaches is in 1..n and not seen before |
| Key.FirstFaultSound | IT312_IT3D_LlagunoSandaraAngelMae_BaloCamille_Lab1/IT312_IT3D_LlagunosandaraAngelMae_BaloCamille_Lab1/src/App.java:43-52 | a range complaint names a digit of the key outside 1..n; a duplicate complaint names a digit that occurs twice; the scan never reports a missing order |
| Key.DistinctAsScan | IT312_IT3D_LlagunoSandaraAngelMae_BaloCamille_Lab1/IT312_IT3D_LlagunosandaraAngelMae_BaloCamille_Lab1/src/App.java:48-53 | the `seen` test, each digit new when reached, is the same as all digits being distinct |
| Key.FirstMissingNone | IT312_IT3D_LlagunoSandaraAngelMae_BaloCamille_Lab1/IT312_IT3D_LlagunosandaraAngelMae_BaloCamille_Lab1/src/App.java:57-63 | for a permutation the missing-order loop finds nothing |
| Key.NoFaultIffKey | IT312_IT3D_LlagunoSandaraAngelMae_BaloCamille_Lab1/IT312_IT3D_LlagunosandaraAngelMae_BaloCamille_Lab1/src/App.java:40-54 | the scanning loop finds no fault exactly when the digits are n distinct values in 1..n |
| Key.DigitCheckAccepts | IT312_IT3D_LlagunoSandaraAngelMae_BaloCamille_Lab1/IT312_IT3D_LlagunosandaraAngelMae_BaloCamille_Lab1/src/App.java:32-65 | the checks accept a trimmed line exactly when it is a non-empty digit string whose values are a permutation of 1..n, and the key is then those values |
| Key.KeyCheckAccepts | IT312_IT3D_LlagunoSandaraAngelMae_BaloCamille_Lab1/IT312_IT3D_LlagunosandaraAngelMae_BaloCamille_Lab1/src/App.java:31-65 | the key prompt accepts a line exactly when, after `trim()`, it is a non-empty digit string whose values are a permutation of 1..n; the key is then those values |
| Key.AcceptedKeyLength | IT312_IT3D_LlagunoSandaraAngelMae_BaloCamille_Lab1/IT312_IT3D_LlagunosandaraAngelMae_BaloCamille_Lab1/src/App.java:36-54 | an accepted key has 1 to 9 columns, since its digits are distinct values in 1..9 |
| Key.MissingNeverReported | IT312_IT3D_LlagunoSandaraAngelMae_BaloCamille_Lab1/IT312_IT3D_LlagunosandaraAngelMae_BaloCamille_Lab1/src/App.java:57-63 | the "missing digit" rejection can never fire: once the scan passes, every order is present |
| Key.ValidateKey | IT312_IT3D_LlagunoSandaraAngelMae_BaloCamille_Lab1/IT312_IT3D_LlagunosandaraAngelMae_BaloCamille_Lab1/src/App.java:31-65 | one pass of the key prompt gives `KeyCheck` of the line: it accepts exactly the trimmed permutations of 1..n, and an accepted key is a permutation with at least one column |
| Key.CheckDigits | IT312_IT3D_LlagunoSandaraAngelMae_BaloCamille_Lab1/IT312_IT3D_LlagunosandaraAngelMae_BaloCamille_Lab1/src/App.java:32-65 | the digit test, the scanning loop and the missing-order loop with their `key` and `seen` arrays give the first applicable rejection in source order, or the key |
| Key.ScanDigits | IT312_IT3D_LlagunoSandaraAngelMae_BaloCamille_Lab1/IT312_IT3D_LlagunosandaraAngelMae_BaloCamille_Lab1/src/App.java:40-54 | the scanning loop stops at the first digit outside 1..n or seen before; when it passes, `key` holds the digit values and `seen[v]` marks exactly the values that occur |
| Grid.Rows | IT312_IT3D_LlagunoSandaraAngelMae_BaloCamille_Lab1/IT312_IT3D_LlagunosandaraAngelMae_BaloCamille_Lab1/src/App.java:118 | `ceil(len / cols)` is the fewest rows of `cols` cells that hold `len` characters: len ≤ rows·cols < len + cols |
| Grid.RowsOfFullTable | IT312_IT3D_LlagunoSandaraAngelMae_BaloCamille_Lab1/IT312_IT3D_LlagunosandaraAngelMae_BaloCamille_Lab1/src/App.java:153 | recomputing the row count from a full table's `rows·cols` characters gives `rows` back |
| Grid.FlattenLength | IT312_IT3D_LlagunoSandaraAngelMae_BaloCamille_Lab1/IT312_IT3D_LlagunosandaraAngelMae_BaloCamille_Lab1/src/App.java:193-198 | the row-major readout of a table of width w holds w characters per row |
| Grid.Flatten | IT312_IT3D_LlagunoSandaraAngelMae_BaloCamille_Lab1/IT312_IT3D_LlagunosandaraAngelMae_BaloCamille_Lab1/src/App.java:138-144 | the text a `StringBuilder` holds after appending the pieces in order; it has no contract of its own. `Grid.FlattenStep`, `Grid.FlattenLength` and `Grid.FlattenAt` state its properties, and `Grid.ReadRowMajor` and `Encoder.ReadColumnsInOrder` that the append loops compute it |
| Grid.FlattenAt | IT312_IT3D_LlagunoSandaraAngelMae_BaloCamille_Lab1/IT312_IT3D_LlagunosandaraAngelMae_BaloCamille_Lab1/src/App.java:193-198 | cell (r, c) of a table of width w is character r·w + c of its row-major readout |
| Grid.FlattenStep | IT312_IT3D_LlagunoSandaraAngelMae_BaloCamille_Lab1/IT312_IT3D_LlagunosandaraAngelMae_BaloCamille_Lab1/src/App.java:138-144 | appending the next piece to the readout so far gives the readout one piece longer |
| Grid.Column | IT312_IT3D_LlagunoSandaraAngelMae_BaloCamille_Lab1/IT312_IT3D_LlagunosandaraAngelMae_BaloCamille_Lab1/src/App.java:141-143 | a column has one character per row, entry r being cell (r, c) |
| Grid.Cells | IT312_IT3D_LlagunoSandaraAngelMae_BaloCamille_Lab1/IT312_IT3D_LlagunosandaraAngelMae_BaloCamille_Lab1/src/App.java:121 | the rows of a `char[rows][cols]` are `rows` sequences of `cols` cells that agree with the array cell by cell |
| Grid.ReadRowMajor | IT312_IT3D_LlagunoSandaraAngelMae_BaloCamille_Lab1/IT312_IT3D_LlagunosandaraAngelMae_BaloCamille_Lab1/src/App.java:193-198 | the nested `StringBuilder` loops read the table's rows one after another |
| Encoder.EncryptTable | IT312_IT3D_LlagunoSandaraAngelMae_BaloCamille_Lab1/IT312_IT3D_LlagunosandaraAngelMae_BaloCamille_Lab1/src/App.java:117-128 | the table has `ceil(len/cols)` rows of `cols` cells; cell (r, c) is plaintext character r·cols + c when that exists, else `X` |
| Encoder.PlainCell | IT312_IT3D_LlagunoSandaraAngelMae_BaloCamille_Lab1/IT312_IT3D_LlagunosandaraAngelMae_BaloCamille_Lab1/src/App.java:125-126 | cell (r, c) of the encryption table: the next plaintext character, or `X` past its end; it has no contract of its own. `Encoder.TableCharAt` and `Encoder.TableRowMajor` state what the cells spell, and `Encoder.PlainCellUpper` that they are capitals |
| Encoder.OrderColumn | IT312_IT3D_LlagunoSandaraAngelMae_BaloCamille_Lab1/IT312_IT3D_LlagunosandaraAngelMae_BaloCamille_Lab1/src/App.java:140-143 | the column read for a play order has one cell per row, taken from the column `getKeyIndex` finds |
| Encoder.ColumnsInOrder | IT312_IT3D_LlagunoSandaraAngelMae_BaloCamille_Lab1/IT312_IT3D_LlagunosandaraAngelMae_BaloCamille_Lab1/src/App.java:139-144 | there is one column per key digit, each as tall as the table |
| Encoder.ColumnsInOrderAt | IT312_IT3D_LlagunoSandaraAngelMae_BaloCamille_Lab1/IT312_IT3D_LlagunosandaraAngelMae_BaloCamille_Lab1/src/App.java:139-144 | entry r of the k-th column read is cell (r, Position(key, k + 1)) |
| Encoder.TableCharAt | IT312_IT3D_LlagunoSandaraAngelMae_BaloCamille_Lab1/IT312_IT3D_LlagunosandaraAngelMae_BaloCamille_Lab1/src/App.java:122-128 | character p of the table read row by row is plaintext character p, or `X` past the plaintext's end |
| Encoder.TableRowMajor | IT312_IT3D_LlagunoSandaraAngelMae_BaloCamille_Lab1/IT312_IT3D_LlagunosandaraAngelMae_BaloCamille_Lab1/src/App.java:122-128 | the table read row by row is the plaintext followed by rows·cols − len padding characters |
| Encoder.CiphertextLength | IT312_IT3D_LlagunoSandaraAngelMae_BaloCamille_Lab1/IT312_IT3D_LlagunosandaraAngelMae_BaloCamille_Lab1/src/App.java:138-146 | the ciphertext has rows·cols characters, every cell once |
| Encoder.ReadoutAt | IT312_IT3D_LlagunoSandaraAngelMae_BaloCamille_Lab1/IT312_IT3D_LlagunosandaraAngelMae_BaloCamille_Lab1/src/App.java:138-144 | reading any table's columns in play order puts cell (r, Position(key, k + 1)) at position k·rows + r |
| Encoder.CiphertextAt | IT312_IT3D_LlagunoSandaraAngelMae_BaloCamille_Lab1/IT312_IT3D_LlagunosandaraAngelMae_BaloCamille_Lab1/src/App.java:138-146 | ciphertext positions k·rows … (k+1)·rows − 1 are the column holding play order k + 1, top to bottom: position k·rows + r is plaintext cell (r, Position(key, k + 1)) |
| Encoder.PlainCellUpper | IT312_IT3D_LlagunoSandaraAngelMae_BaloCamille_Lab1/IT312_IT3D_LlagunosandaraAngelMae_BaloCamille_Lab1/src/App.java:125-126 | each cell of the table of a capital-letter text is a capital |
| Encoder.FlattenUpper | IT312_IT3D_LlagunoSandaraAngelMae_BaloCamille_Lab1/IT312_IT3D_LlagunosandaraAngelMae_BaloCamille_Lab1/src/App.java:138-144 | columns of capitals read out one after another give capitals |
| Encoder.CiphertextUpper | IT312_IT3D_LlagunoSandaraAngelMae_BaloCamille_Lab1/IT312_IT3D_LlagunosandaraAngelMae_BaloCamille_Lab1/src/App.java:116-146 | the ciphertext holds capitals only, so the decoder's `[^A-Z]` filter leaves it alone |
| Encoder.FillTable | IT312_IT3D_LlagunoSandaraAngelMae_BaloCamille_Lab1/IT312_IT3D_LlagunosandaraAngelMae_BaloCamille_Lab1/src/App.java:118-128 | the nested fill loops with the running `idx` produce a fresh `char[rows][cols]` equal to the encryption table |
| Encoder.ReadColumn | IT312_IT3D_LlagunoSandaraAngelMae_BaloCamille_Lab1/IT312_IT3D_LlagunosandaraAngelMae_BaloCamille_Lab1/src/App.java:141-143 | the inner readout loop appends column c top to bottom |
| Encoder.ReadColumnsInOrder | IT312_IT3D_LlagunoSandaraAngelMae_BaloCamille_Lab1/IT312_IT3D_LlagunosandaraAngelMae_BaloCamille_Lab1/src/App.java:138-144 | the readout loop, which calls `getKeyIndex` for each order in 1..cols, appends the columns in play order |
| Encoder.Encrypt | IT312_IT3D_LlagunoSandaraAngelMae_BaloCamille_Lab1/IT312_IT3D_LlagunosandaraAngelMae_BaloCamille_Lab1/src/App.java:115-147 | `encryptAndPrint` returns `Encryption(plaintext, key)` |
| Encoder.Encryption | IT312_IT3D_LlagunoSandaraAngelMae_BaloCamille_Lab1/IT312_IT3D_LlagunosandaraAngelMae_BaloCamille_Lab1/src/App.java:115-147 | the ciphertext of `encryptAndPrint`; it has no contract of its own. `Encoder.CiphertextLength`, `Encoder.CiphertextAt` and `Encoder.CiphertextUpper` state its length, its contents block by block and that it is all capitals, `Encoder.Encrypt` that the method computes it, and `RoundTrip.RoundTrip` that `Decoder.Decryption` undoes it |
| Decoder.GroupStart | IT312_IT3D_LlagunoSandaraAngelMae_BaloCamille_Lab1/IT312_IT3D_LlagunosandaraAngelMae_BaloCamille_Lab1/src/App.java:162-168 | the value of `idx` before group k is sliced; it has no contract of its own. `Decoder.GroupStep` states how the loop advances it, and `Decoder.GroupsPrefix` and `Decoder.GroupsPartition` what the groups between its values hold |
| Decoder.GroupStep | IT312_IT3D_LlagunoSandaraAngelMae_BaloCamille_Lab1/IT312_IT3D_LlagunosandaraAngelMae_BaloCamille_Lab1/src/App.java:164-168 | from where group k starts, the next group starts `rows` further on, or at the end of the text when fewer than `rows` characters remain |
| Decoder.Groups | IT312_IT3D_LlagunoSandaraAngelMae_BaloCamille_Lab1/IT312_IT3D_LlagunosandaraAngelMae_BaloCamille_Lab1/src/App.java:161-169 | there is one group per column |
| Decoder.GroupsPrefix | IT312_IT3D_LlagunoSandaraAngelMae_BaloCamille_Lab1/IT312_IT3D_LlagunosandaraAngelMae_BaloCamille_Lab1/src/App.java:162-169 | the first k groups together are the ciphertext up to where group k starts, so the groups are contiguous |
| Decoder.GroupBound | IT312_IT3D_LlagunoSandaraAngelMae_BaloCamille_Lab1/IT312_IT3D_LlagunosandaraAngelMae_BaloCamille_Lab1/src/App.java:164-165 | no group is longer than `rows`; a shorter group reaches the end of the text |
| Decoder.GroupsPartition | IT312_IT3D_LlagunoSandaraAngelMae_BaloCamille_Lab1/IT312_IT3D_LlagunosandaraAngelMae_BaloCamille_Lab1/src/App.java:161-169 | the groups together are the cleaned ciphertext; each is at most `rows` long; the groups up to and including a short one already make up the whole text |
| Decoder.DecryptTable | IT312_IT3D_LlagunoSandaraAngelMae_BaloCamille_Lab1/IT312_IT3D_LlagunosandaraAngelMae_BaloCamille_Lab1/src/App.java:179-187 | the decryption table has `rows` rows of `cols` cells; cell (r, c) is row r of the group for column c's play order, or `X` |
| Decoder.DecryptCell | IT312_IT3D_LlagunoSandaraAngelMae_BaloCamille_Lab1/IT312_IT3D_LlagunosandaraAngelMae_BaloCamille_Lab1/src/App.java:183-185 | cell (r, c) of the decryption table: row r of the group for the play order of column c, or `X` past its end; it has no contract of its own. `Decoder.DecryptColumn` states what each column holds, and `RoundTrip.CellRecovered` that it equals the encryption cell |
| Decoder.DecryptColumn | IT312_IT3D_LlagunoSandaraAngelMae_BaloCamille_Lab1/IT312_IT3D_LlagunosandaraAngelMae_BaloCamille_Lab1/src/App.java:180-187 | the column holding order k is group k − 1 top to bottom, followed by `X` down to the last row |
| Decoder.DecryptionStripped | IT312_IT3D_LlagunoSandaraAngelMae_BaloCamille_Lab1/IT312_IT3D_LlagunosandaraAngelMae_BaloCamille_Lab1/src/App.java:193-202 | the recovered text is a prefix of the row-major readout, empty or not ending in `X`, and all it drops is `X` |
| Decoder.SliceGroups | IT312_IT3D_LlagunoSandaraAngelMae_BaloCamille_Lab1/IT312_IT3D_LlagunosandaraAngelMae_BaloCamille_Lab1/src/App.java:161-169 | the slicing loop with `take = min(rows, remaining)`, clamped at 0, fills a fresh `String[cols]` with the groups |
| Decoder.WriteColumn | IT312_IT3D_LlagunoSandaraAngelMae_BaloCamille_Lab1/IT312_IT3D_LlagunosandaraAngelMae_BaloCamille_Lab1/src/App.java:183-186 | the inner loop writes the group down column c and pads it with `X`; no other column changes |
| Decoder.FillDecryptTable | IT312_IT3D_LlagunoSandaraAngelMae_BaloCamille_Lab1/IT312_IT3D_LlagunosandaraAngelMae_BaloCamille_Lab1/src/App.java:179-187 | the writing loop, which calls `getKeyIndex` for each order, fills a fresh `char[rows][cols]` equal to the decryption table |
| Decoder.Decrypt | IT312_IT3D_LlagunoSandaraAngelMae_BaloCamille_Lab1/IT312_IT3D_LlagunosandaraAngelMae_BaloCamille_Lab1/src/App.java:150-203 | `decryptAndPrint` returns `Decryption(ciphertext, key)` |
| Decoder.Decryption | IT312_IT3D_LlagunoSandaraAngelMae_BaloCamille_Lab1/IT312_IT3D_LlagunosandaraAngelMae_BaloCamille_Lab1/src/App.java:150-203 | the recovered plaintext of `decryptAndPrint`; it has no contract of its own. `Decoder.DecryptionStripped` states that it is the row-major readout with its trailing `X` run removed, `Decoder.Decrypt` that the method computes it, and `RoundTrip.RoundTrip` and `RoundTrip.ExactRoundTrip` that it undoes `Encoder.Encryption` |
| RoundTrip.GroupOfCiphertext | IT312_IT3D_LlagunoSandaraAngelMae_BaloCamille_Lab1/IT312_IT3D_LlagunosandaraAngelMae_BaloCamille_Lab1/src/App.java:161-169 | cutting a ciphertext yields full blocks of `rows` characters: group k is positions k·rows … (k+1)·rows − 1 |
| RoundTrip.CellRecovered | IT312_IT3D_LlagunoSandaraAngelMae_BaloCamille_Lab1/IT312_IT3D_LlagunosandaraAngelMae_BaloCamille_Lab1/src/App.java:179-187 | each cell of the decryption table of a ciphertext is the same cell of the encryption table |
| RoundTrip.TableRecovered | IT312_IT3D_LlagunoSandaraAngelMae_BaloCamille_Lab1/IT312_IT3D_LlagunosandaraAngelMae_BaloCamille_Lab1/src/App.java:150-187 | the ciphertext survives the decoder's filter, yields the same row count, and rebuilds the encryption table exactly |
| RoundTrip.RoundTrip | IT312_IT3D_LlagunoSandaraAngelMae_BaloCamille_Lab1/IT312_IT3D_LlagunosandaraAngelMae_BaloCamille_Lab1/src/App.java:213-216 | decrypting the ciphertext of any plaintext with the same key gives its capitals with their trailing run of `X` removed |
| RoundTrip.ExactRoundTrip | IT312_IT3D_LlagunoSandaraAngelMae_BaloCamille_Lab1/IT312_IT3D_LlagunosandaraAngelMae_BaloCamille_Lab1/src/App.java:213-216 | a plaintext of capitals that does not end in `X` comes back exactly, whatever its length |
| RoundTrip.EncryptThenDecrypt | IT312_IT3D_LlagunoSandaraAngelMae_BaloCamille_Lab1/IT312_IT3D_LlagunosandaraAngelMae_BaloCamille_Lab1/src/App.java:213-216 | `main`'s two calls: the ciphertext has rows·cols characters and the recovered text is the plaintext's capitals with trailing `X` removed |
| Examples.KeyPromptExample | IT312_IT3D_LlagunoSandaraAngelMae_BaloCamille_Lab1/IT312_IT3D_LlagunosandaraAngelMae_BaloCamille_Lab1/src/App.java:30-65 | the key prompt accepts `31425` as [3, 1, 4, 2, 5] |
| Examples.KeyPromptRejects | IT312_IT3D_LlagunoSandaraAngelMae_BaloCamille_Lab1/IT312_IT3D_LlagunosandaraAngelMae_BaloCamille_Lab1/src/App.java:43-47 | `3153` is refused at its third digit, 5 being outside 1..4 |
| Examples.PositionsExample | IT312_IT3D_LlagunoSandaraAngelMae_BaloCamille_Lab1/IT312_IT3D_LlagunosandaraAngelMae_BaloCamille_Lab1/src/App.java:70-73 | under [3, 1, 4, 2, 5] the orders 1..5 sit in columns 1, 3, 0, 2, 4 |
| Examples.CleanExample | IT312_IT3D_LlagunoSandaraAngelMae_BaloCamille_Lab1/IT312_IT3D_LlagunosandaraAngelMae_BaloCamille_Lab1/src/App.java:116 | `HELLOWORLD` passes the `[^A-Z]` filter unchanged |
| Examples.KeepInOrderExample | IT312_IT3D_LlagunoSandaraAngelMae_BaloCamille_Lab1/IT312_IT3D_LlagunosandaraAngelMae_BaloCamille_Lab1/src/App.java:116 | `[^A-Z]` removal turns `AbC` into `AC`, in that order |
| Examples.TableExample | IT312_IT3D_LlagunoSandaraAngelMae_BaloCamille_Lab1/IT312_IT3D_LlagunosandaraAngelMae_BaloCamille_Lab1/src/App.java:118-128 | `HELLOWORLD` in five columns is the table `HELLO` / `WORLD` |
| Examples.ColumnOfTwoRows | IT312_IT3D_LlagunoSandaraAngelMae_BaloCamille_Lab1/IT312_IT3D_LlagunosandaraAngelMae_BaloCamille_Lab1/src/App.java:141-143 | a column of a two-row table is its two cells |
| Examples.ColumnInOrderExample | IT312_IT3D_LlagunoSandaraAngelMae_BaloCamille_Lab1/IT312_IT3D_LlagunosandaraAngelMae_BaloCamille_Lab1/src/App.java:139-144 | the k-th column read from `HELLO` / `WORLD` under [3, 1, 4, 2, 5] |
| Examples.ColumnsInOrderExample | IT312_IT3D_LlagunoSandaraAngelMae_BaloCamille_Lab1/IT312_IT3D_LlagunosandaraAngelMae_BaloCamille_Lab1/src/App.java:139-144 | the columns in play order are `EO`, `LL`, `HW`, `LR`, `OD` |
| Examples.FlattenExample | IT312_IT3D_LlagunoSandaraAngelMae_BaloCamille_Lab1/IT312_IT3D_LlagunosandaraAngelMae_BaloCamille_Lab1/src/App.java:138-146 | those columns one after another are `EOLLHWLROD` |
| Examples.EncryptExample | IT312_IT3D_LlagunoSandaraAngelMae_BaloCamille_Lab1/IT312_IT3D_LlagunosandaraAngelMae_BaloCamille_Lab1/src/App.java:115-147 | `HELLOWORLD` under [3, 1, 4, 2, 5] encrypts to `EOLLHWLROD` |
| Examples.RoundTripExample | IT312_IT3D_LlagunoSandaraAngelMae_BaloCamille_Lab1/IT312_IT3D_LlagunosandaraAngelMae_BaloCamille_Lab1/src/App.java:213-216 | `HELLOWORLD` survives encryption and decryption unchanged |
| Examples.DecryptExample | IT312_IT3D_LlagunoSandaraAngelMae_BaloCamille_Lab1/IT312_IT3D_LlagunosandaraAngelMae_BaloCamille_Lab1/src/App.java:150-203 | `EOLLHWLROD` under the same key decrypts to `HELLOWORLD` |
| Examples.LossyExample | IT312_IT3D_LlagunoSandaraAngelMae_BaloCamille_Lab1/IT312_IT3D_LlagunosandaraAngelMae_BaloCamille_Lab1/src/App.java:200 | `AX` comes back as `A`: a genuine final `X` is stripped like padding |
| Examples.PaddedExample | IT312_IT3D_LlagunoSandaraAngelMae_BaloCamille_Lab1/IT312_IT3D_LlagunosandaraAngelMae_BaloCamille_Lab1/src/App.java:118-128 | `HI` in three columns is the table `HIX`, and the padding is removed again on decryption |

Notes on the code as written:

- The third rejection of the key prompt (App.java:57-63, a play order in 1..n that no digit supplies) can never fire. After the scan has passed, the n digits are distinct values in 1..n, so by the pigeonhole principle they are all of 1..n. Hence `MissingDigit` never comes back (`Key.MissingNeverReported`). The loop is modelled as written all the same.
- The clamp `if (take < 0) take = 0` (App.java:165) is dead code as well: the running index never passes the end of the text. It is modelled as written.
- Groups are sliced in play order. Once the text runs out, every later group is empty, not only the last one: the code gives `min(rows, remaining)` to each group in turn. `Decoder.GroupsPartition` states this form. For ciphertexts produced by the encoder every group is full (`RoundTrip.GroupOfCiphertext`).
- The exact round trip needs no condition on the plaintext's length. A plaintext of capitals that does not end in `X` comes back exactly even when its last row was padded (`RoundTrip.ExactRoundTrip`). The padding is an `X` run after a non-`X` character, and the strip removes exactly that run.
- Each rejection carries a value: `DigitOutOfRange(d)` the digit outside 1..n, `DuplicateDigit(d)` the repeated digit, `MissingDigit(i)` the missing play order. The duplicate message (App.java:49) prints `d` and the missing message (App.java:59) prints `i`. The range message (App.java:44) names only the bound `1..n`, not the digit; the model keeps the digit so that the rejection can be traced to it.

## Left out

- Console input and the reprompting `while (true)` loops of `promptPlaintext` and `promptKey` (App.java:5-12, 28-31), and `main`'s `Scanner` (App.java:205-219): one pass of each prompt's checks is modelled as a function of the line typed (`Text.CleanPlaintext`, `Key.ValidateKey`). `main`'s two calls are `RoundTrip.EncryptThenDecrypt`.
- The `raw == null` test (App.java:9): a line read by `nextLine` is never null, and Dafny strings cannot be.
- `printTable` (App.java:76-112) and every `System.out` call: output only.
- The floating-point `Math.ceil((double) len / cols)` (App.java:118, 153) is modelled as the integer ceiling `(len + cols - 1) / cols`. For the lengths a Java `String` can have, the two agree.
- Java's 32-bit `int`: no wrap-around is modelled. Every index and count stays within 0..len + cols, and keys have at most nine columns (`Key.AcceptedKeyLength`).
- The regular-expression engine: `matches(".*\\d.*")`, `matches("\\d+")`, `replaceAll("[^a-zA-Z]", "")`, `replaceAll("[^A-Z]", "")` and `replaceAll("X+$", "")` are modelled as the ASCII character filters and the strip they amount to. Java's `\d` without the `UNICODE_CHARACTER_CLASS` flag is ASCII as well. Line terminators are not modelled, since `nextLine` removes them before `.` could meet one.
- `Character.getNumericValue` is modelled only for ASCII digits, the only characters that reach it after the `\d+` test.
- `Text.ToUpper`: `toUpperCase` is modelled for ASCII letters under a locale with the usual case mapping. The Turkish locale's dotted capital I, which the later `[^A-Z]` filter would drop, is not modelled.
- `Key.ValidateKey` returns the key as a sequence where the source returns the `int[]` it filled. `Key.ScanDigits` states that this array holds the same values.
- `Encoder.Encrypt`, `Decoder.Decrypt` and `RoundTrip.EncryptThenDecrypt` require a key that passed validation (a permutation with at least one column). In the source only `main` calls them, always with such a key. The behaviour of `getKeyIndex`'s -1 result as an array index cannot arise then and is not modelled.
