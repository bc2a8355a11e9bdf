/**
 * Encryption: the plaintext is written row by row into a table as wide as
 * the key, the last row padded with `X`, and the columns are read out top to
 * bottom in the play order the key gives them.
 */
module Encoder {
  import opened Text
  import opened Key
  import opened Grid

  /** Cell (r, c) of the encryption table: plaintext character r * cols + c, or padding past its end. */
  function PlainCell(pt: string, cols: nat, r: nat, c: nat): char
  {
    if r * cols + c < |pt| then pt[r * cols + c] else Filler
  }

  /** The encryption table of `pt`: `Rows(|pt|, cols)` rows of `cols` cells. */
  function EncryptTable(pt: string, cols: nat): (g: seq<seq<char>>)
    requires cols >= 1
    ensures |g| == Rows(|pt|, cols) && IsTable(g, cols)
    ensures forall r, c :: 0 <= r < |g| && 0 <= c < cols ==> g[r][c] == PlainCell(pt, cols, r, c)
  {
    seq(Rows(|pt|, cols), r requires 0 <= r =>
      seq(cols, c requires 0 <= c => PlainCell(pt, cols, r, c)))
  }

  /** The columns of a table, in play order: the one holding order 1 first. */
  function ColumnsInOrder(g: seq<seq<char>>, key: seq<int>): (cs: seq<seq<char>>)
    requires IsKey(key) && IsTable(g, |key|)
    ensures |cs| == |key| && IsTable(cs, |g|)
  {
    seq(|key|, k requires 0 <= k < |key| => OrderColumn(g, key, k + 1))
  }

  /** The column holding play order `order`, top to bottom. */
  function OrderColumn(g: seq<seq<char>>, key: seq<int>, order: int): (col: seq<char>)
    requires IsKey(key) && IsTable(g, |key|) && 1 <= order <= |key|
    ensures |col| == |g|
    ensures forall r :: 0 <= r < |g| ==> col[r] == g[r][Position(key, order)]
  {
    Column(g, |key|, Position(key, order))
  }

  /** The ciphertext of a plaintext under a key. */
  function Encryption(plaintext: string, key: seq<int>): string
    requires IsKey(key) && |key| >= 1
  {
    Flatten(ColumnsInOrder(EncryptTable(KeepUpper(plaintext), |key|), key))
  }

  /** Character p of the table's row-major readout is plaintext character p, or padding past its end. */
  lemma TableCharAt(pt: string, cols: nat, p: nat)
    requires cols >= 1 && p < Rows(|pt|, cols) * cols
    ensures var s := Flatten(EncryptTable(pt, cols));
      p < |s| && s[p] == if p < |pt| then pt[p] else Filler
  {
    var g := EncryptTable(pt, cols);
    var rows := Rows(|pt|, cols);
    var r, c := p / cols, p % cols;
    DivMod(p, cols);
    if r >= rows {
      MulMonotone(rows, r, cols);
    }
    FlattenAt(g, cols, r, c);
    assert g[r][c] == PlainCell(pt, cols, r, c);
  }

  /** The table holds the plaintext row-major, followed by padding up to its last cell. */
  lemma TableRowMajor(pt: string, cols: nat)
    requires cols >= 1
    ensures Flatten(EncryptTable(pt, cols)) == pt + Pad(Rows(|pt|, cols) * cols - |pt|)
  {
    var g := EncryptTable(pt, cols);
    var rows := Rows(|pt|, cols);
    FlattenLength(g, cols);
    var s := Flatten(g);
    var t := pt + Pad(rows * cols - |pt|);
    assert |s| == |t|;
    forall p | 0 <= p < |s| ensures s[p] == t[p] {
      TableCharAt(pt, cols, p);
    }
  }

  /** The ciphertext holds `rows * cols` characters: every cell of the table once. */
  lemma CiphertextLength(plaintext: string, key: seq<int>)
    requires IsKey(key) && |key| >= 1
    ensures |Encryption(plaintext, key)| == Rows(|KeepUpper(plaintext)|, |key|) * |key|
  {
    var pt := KeepUpper(plaintext);
    var g := EncryptTable(pt, |key|);
    var cs := ColumnsInOrder(g, key);
    assert Encryption(plaintext, key) == Flatten(cs);
    FlattenLength(cs, |g|);
    assert |cs| * |g| == |g| * |cs|;
  }

  /**
   * Block k of the ciphertext is the column holding play order k + 1, read
   * top to bottom: ciphertext position k * rows + r holds cell
   * (r, Position(key, k + 1)) of the table.
   */
  lemma CiphertextAt(plaintext: string, key: seq<int>, k: nat, r: nat)
    requires IsKey(key) && k < |key|
    requires r < Rows(|KeepUpper(plaintext)|, |key|)
    ensures var pt := KeepUpper(plaintext);
      var ct := Encryption(plaintext, key);
      var i := k * Rows(|pt|, |key|) + r;
      i < |ct| && ct[i] == PlainCell(pt, |key|, r, Position(key, k + 1))
  {
    var pt := KeepUpper(plaintext);
    var g := EncryptTable(pt, |key|);
    ReadoutAt(g, key, k, r);
    assert Encryption(plaintext, key) == Flatten(ColumnsInOrder(g, key));
    var c := Position(key, k + 1);
    assert g[r][c] == PlainCell(pt, |key|, r, c);
  }

  /** Reading any table's columns in play order puts cell (r, Position(key, k + 1)) at k * rows + r. */
  lemma ReadoutAt(g: seq<seq<char>>, key: seq<int>, k: nat, r: nat)
    requires IsKey(key) && IsTable(g, |key|) && k < |key| && r < |g|
    ensures var s := Flatten(ColumnsInOrder(g, key));
      k * |g| + r < |s| && s[k * |g| + r] == g[r][Position(key, k + 1)]
  {
    FlattenAt(ColumnsInOrder(g, key), |g|, k, r);
    ColumnsInOrderAt(g, key, k, r);
  }

  /** Entry r of the k-th column in play order is cell (r, Position(key, k + 1)). */
  lemma ColumnsInOrderAt(g: seq<seq<char>>, key: seq<int>, k: nat, r: nat)
    requires IsKey(key) && IsTable(g, |key|) && k < |key| && r < |g|
    ensures ColumnsInOrder(g, key)[k][r] == g[r][Position(key, k + 1)]
  {
    assert ColumnsInOrder(g, key)[k] == OrderColumn(g, key, k + 1);
  }

  /** A cell of the table of a capital-letter plaintext is a capital letter. */
  lemma PlainCellUpper(pt: string, cols: nat, r: nat, c: nat)
    requires AllUpper(pt)
    ensures IsUpper(PlainCell(pt, cols, r, c))
  {
  }

  /** Pieces made only of capital letters flatten to capital letters. */
  lemma {:induction false} FlattenUpper(g: seq<seq<char>>)
    requires forall k :: 0 <= k < |g| ==> AllUpper(g[k])
    ensures AllUpper(Flatten(g))
    decreases |g|
  {
    if g != [] {
      FlattenUpper(g[..|g| - 1]);
    }
  }

  /** The ciphertext holds only capital letters (padding is `X`). */
  lemma CiphertextUpper(plaintext: string, key: seq<int>)
    requires IsKey(key) && |key| >= 1
    ensures AllUpper(Encryption(plaintext, key))
  {
    var pt := KeepUpper(plaintext);
    var g := EncryptTable(pt, |key|);
    var cs := ColumnsInOrder(g, key);
    forall k | 0 <= k < |cs| ensures AllUpper(cs[k]) {
      var c := Position(key, k + 1);
      forall r | 0 <= r < |g| ensures IsUpper(cs[k][r]) {
        ColumnsInOrderAt(g, key, k, r);
        PlainCellUpper(pt, |key|, r, c);
      }
    }
    FlattenUpper(cs);
  }

  /** The nested fill loops: row-major, one plaintext character per cell while any remain. */
  method FillTable(pt: string, cols: nat) returns (table: array2<char>)
    requires cols >= 1
    ensures fresh(table) && table.Length0 == Rows(|pt|, cols) && table.Length1 == cols
    ensures Cells(table) == EncryptTable(pt, cols)
  {
    var rows := (|pt| + cols - 1) / cols;
    table := new char[rows, cols];
    ghost var g := EncryptTable(pt, cols);
    var idx := 0;
    for r := 0 to rows
      invariant idx == if r * cols < |pt| then r * cols else |pt|
      invariant forall r', c :: 0 <= r' < r && 0 <= c < cols ==> table[r', c] == g[r'][c]
    {
      for c := 0 to cols
        invariant idx == if r * cols + c < |pt| then r * cols + c else |pt|
        invariant forall r', c' :: 0 <= r' < r && 0 <= c' < cols ==> table[r', c'] == g[r'][c']
        invariant forall c' :: 0 <= c' < c ==> table[r, c'] == g[r][c']
      {
        if idx < |pt| {
          table[r, c] := pt[idx];
          idx := idx + 1;
        } else {
          table[r, c] := Filler;
        }
      }
      assert (r + 1) * cols == r * cols + cols;
    }
    SameCells(Cells(table), g, cols);
  }

  /**
   * The readout loop: for each play order 1..cols, find its column with
   * `getKeyIndex` and append that column top to bottom.
   */
  method ReadColumnsInOrder(table: array2<char>, key: array<int>) returns (ct: string)
    requires IsKey(key[..]) && table.Length1 == key.Length
    ensures ct == Flatten(ColumnsInOrder(Cells(table), key[..]))
  {
    ghost var cs := ColumnsInOrder(Cells(table), key[..]);
    var cols := key.Length;
    ct := [];
    for order := 1 to cols + 1
      invariant ct == Flatten(cs[..order - 1])
    {
      var colIdx := GetKeyIndex(key, order);
      assert colIdx == Position(key[..], order);
      var column := ReadColumn(table, colIdx);
      assert column == cs[order - 1];
      ct := ct + column;
      FlattenStep(cs, order - 1);
    }
    assert cs[..cols] == cs;
  }

  /** The innermost readout loop: one column of the table, top to bottom. */
  method ReadColumn(table: array2<char>, c: nat) returns (column: string)
    requires c < table.Length1
    ensures column == Column(Cells(table), table.Length1, c)
  {
    ghost var col := Column(Cells(table), table.Length1, c);
    column := [];
    for r := 0 to table.Length0
      invariant column == col[..r]
    {
      assert col[..r + 1] == col[..r] + [table[r, c]];
      column := column + [table[r, c]];
    }
    assert col[..table.Length0] == col;
  }

  /** `encryptAndPrint` without its printing. */
  method Encrypt(plaintext: string, key: array<int>) returns (ct: string)
    requires IsKey(key[..]) && key.Length >= 1
    ensures ct == Encryption(plaintext, key[..])
  {
    var pt := KeepUpper(plaintext);
    var table := FillTable(pt, key.Length);
    ct := ReadColumnsInOrder(table, key);
  }
}
