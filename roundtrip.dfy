/**
 * Decrypting a ciphertext with the key that produced it rebuilds the
 * encryption table, so the plaintext comes back up to its trailing `X`s; and
 * the program's one run, encryption followed by decryption of the result.
 */
module RoundTrip {
  import opened Text
  import opened Key
  import opened Grid
  import opened Encoder
  import opened Decoder

  /** Each group of a ciphertext is one full block of `rows` characters. */
  lemma GroupOfCiphertext(plaintext: string, key: seq<int>, k: nat)
    requires IsKey(key) && |key| >= 1 && k < |key|
    ensures var rows := Rows(|KeepUpper(plaintext)|, |key|);
      var ct := Encryption(plaintext, key);
      |ct| == rows * |key| && (k + 1) * rows <= |ct| &&
      Groups(ct, rows, |key|)[k] == ct[k * rows..(k + 1) * rows]
  {
    var rows := Rows(|KeepUpper(plaintext)|, |key|);
    CiphertextLength(plaintext, key);
    MulMonotone(k + 1, |key|, rows);
    MulMonotone(k, k + 1, rows);
    assert (k + 1) * rows == k * rows + rows;
    assert |key| * rows == rows * |key|;
  }

  /** Cell (r, c) of the decryption table is cell (r, c) of the encryption table. */
  lemma CellRecovered(plaintext: string, key: seq<int>, r: nat, c: nat)
    requires IsKey(key) && |key| >= 1 && c < |key|
    requires r < Rows(|KeepUpper(plaintext)|, |key|)
    ensures var pt := KeepUpper(plaintext);
      var rows := Rows(|pt|, |key|);
      DecryptCell(Groups(Encryption(plaintext, key), rows, |key|), key, r, c)
        == PlainCell(pt, |key|, r, c)
  {
    var pt := KeepUpper(plaintext);
    var rows := Rows(|pt|, |key|);
    var ct := Encryption(plaintext, key);
    var k: nat := key[c] - 1;
    GroupOfCiphertext(plaintext, key, k);
    var group := Groups(ct, rows, |key|)[k];
    assert |group| == rows && group[r] == ct[k * rows + r] by {
      assert (k + 1) * rows == k * rows + rows;
    }
    CiphertextAt(plaintext, key, k, r);
    PositionInverse(key, c, k + 1);
  }

  /** The decryption of a ciphertext rebuilds the table it was read from. */
  lemma TableRecovered(plaintext: string, key: seq<int>)
    requires IsKey(key) && |key| >= 1
    ensures var pt := KeepUpper(plaintext);
      var ct := Encryption(plaintext, key);
      KeepUpper(ct) == ct &&
      Rows(|ct|, |key|) == Rows(|pt|, |key|) &&
      DecryptTable(Groups(ct, Rows(|pt|, |key|), |key|), key, Rows(|pt|, |key|))
        == EncryptTable(pt, |key|)
  {
    var pt := KeepUpper(plaintext);
    var rows := Rows(|pt|, |key|);
    var ct := Encryption(plaintext, key);
    CiphertextUpper(plaintext, key);
    CiphertextLength(plaintext, key);
    RowsOfFullTable(rows, |key|);
    var d := DecryptTable(Groups(ct, rows, |key|), key, rows);
    var e := EncryptTable(pt, |key|);
    forall r, c | 0 <= r < rows && 0 <= c < |key| ensures d[r][c] == e[r][c] {
      CellRecovered(plaintext, key, r, c);
    }
    SameCells(d, e, |key|);
  }

  /**
   * Decrypting the ciphertext of a plaintext with the same key gives back the
   * plaintext's capital letters without their trailing run of `X`.
   */
  lemma RoundTrip(plaintext: string, key: seq<int>)
    requires IsKey(key) && |key| >= 1
    ensures Decryption(Encryption(plaintext, key), key) == StripTrailingX(KeepUpper(plaintext))
  {
    var pt := KeepUpper(plaintext);
    var rows := Rows(|pt|, |key|);
    TableRecovered(plaintext, key);
    TableRowMajor(pt, |key|);
    StripPadding(pt, rows * |key| - |pt|);
  }

  /** A plaintext of capital letters that does not end in `X` comes back exactly. */
  lemma ExactRoundTrip(plaintext: string, key: seq<int>)
    requires IsKey(key) && |key| >= 1
    requires AllUpper(plaintext) && (plaintext == [] || plaintext[|plaintext| - 1] != Filler)
    ensures Decryption(Encryption(plaintext, key), key) == plaintext
  {
    RoundTrip(plaintext, key);
    StripKeeps(plaintext);
  }

  /**
   * The body of `main` once both prompts have answered: encrypt the
   * plaintext and decrypt the ciphertext just produced.
   */
  method EncryptThenDecrypt(plaintext: string, key: array<int>) returns (ct: string, recovered: string)
    requires IsKey(key[..]) && key.Length >= 1
    ensures ct == Encryption(plaintext, key[..]) && |ct| == Rows(|KeepUpper(plaintext)|, key.Length) * key.Length
    ensures recovered == StripTrailingX(KeepUpper(plaintext))
  {
    ct := Encrypt(plaintext, key);
    recovered := Decrypt(ct, key);
    RoundTrip(plaintext, key[..]);
    CiphertextLength(plaintext, key[..]);
  }
}
