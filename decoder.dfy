/**
 * Decryption: the ciphertext is cut into one group per column in play order,
 * each group is written down the column holding its play order (padded with
 * `X` when short), the table is read row by row and the trailing padding is
 * removed.
 */
module Decoder {
  import opened Text
  import opened Key
  import opened Grid

  /** Where group k starts: after k full groups, or at the end of the text once it runs out. */
  function GroupStart(len: nat, rows: nat, k: nat): nat
  {
    if k * rows < len then k * rows else len
  }

  /** Group k runs from its start for `rows` characters, or to the end of the text when fewer remain. */
  lemma GroupStep(len: nat, rows: nat, k: nat)
    ensures var i := GroupStart(len, rows, k);
      i <= len && GroupStart(len, rows, k + 1) == if rows < len - i then i + rows else len
  {
    assert (k + 1) * rows == k * rows + rows;
    MulMonotone(k, k + 1, rows);
  }

  /**
   * The ciphertext cut into `cols` consecutive groups in play order: group k
   * takes the next `rows` characters, or what is left of the text when fewer
   * remain.
   */
  function Groups(ct: string, rows: nat, cols: nat): (gs: seq<string>)
    ensures |gs| == cols
  {
    seq(cols, k requires 0 <= k < cols =>
      MulMonotone(k, k + 1, rows);
      ct[GroupStart(|ct|, rows, k)..GroupStart(|ct|, rows, k + 1)])
  }

  /** The first k groups together are the text up to where group k starts. */
  lemma {:induction false} GroupsPrefix(ct: string, rows: nat, cols: nat, k: nat)
    requires k <= cols
    ensures Flatten(Groups(ct, rows, cols)[..k]) == ct[..GroupStart(|ct|, rows, k)]
    decreases k
  {
    var gs := Groups(ct, rows, cols);
    if k == 0 {
      assert gs[..0] == [];
    } else {
      GroupsPrefix(ct, rows, cols, k - 1);
      FlattenStep(gs, k - 1);
      MulMonotone(k - 1, k, rows);
      assert (k - 1) * rows + rows == k * rows;
      assert ct[..GroupStart(|ct|, rows, k)]
        == ct[..GroupStart(|ct|, rows, k - 1)] + gs[k - 1];
    }
  }

  /** Group k is never longer than `rows`; when it is shorter, the text ends with it. */
  lemma GroupBound(ct: string, rows: nat, cols: nat, k: nat)
    requires k < cols
    ensures |Groups(ct, rows, cols)[k]| <= rows
    ensures |Groups(ct, rows, cols)[k]| < rows ==> GroupStart(|ct|, rows, k + 1) == |ct|
  {
    var e := (k + 1) * rows;
    assert e == k * rows + rows;
    MulMonotone(k, k + 1, rows);
  }

  /**
   * When the table has room for the whole text, the groups in play order
   * put back together are the ciphertext; no group is longer than `rows`, and
   * a group is shorter only when the text has run out with it.
   */
  lemma GroupsPartition(ct: string, rows: nat, cols: nat)
    requires |ct| <= rows * cols
    ensures Flatten(Groups(ct, rows, cols)) == ct
    ensures forall k :: 0 <= k < cols ==> |Groups(ct, rows, cols)[k]| <= rows
    ensures forall k :: 0 <= k < cols && |Groups(ct, rows, cols)[k]| < rows ==>
      Flatten(Groups(ct, rows, cols)[..k + 1]) == ct
  {
    var gs := Groups(ct, rows, cols);
    GroupsPrefix(ct, rows, cols, cols);
    assert gs[..cols] == gs;
    assert cols * rows == rows * cols;
    assert GroupStart(|ct|, rows, cols) == |ct|;
    forall k | 0 <= k < cols
      ensures |gs[k]| <= rows
      ensures |gs[k]| < rows ==> Flatten(gs[..k + 1]) == ct
    {
      GroupBound(ct, rows, cols, k);
      GroupsPrefix(ct, rows, cols, k + 1);
    }
  }

  /** Cell (r, c) of the decryption table: row r of the group for column c's play order, or padding. */
  function DecryptCell(gs: seq<string>, key: seq<int>, r: nat, c: nat): char
    requires IsKey(key) && |gs| == |key| && c < |key|
  {
    var g := gs[key[c] - 1];
    if r < |g| then g[r] else Filler
  }

  /** The decryption table: `rows` rows of one cell per key column. */
  function DecryptTable(gs: seq<string>, key: seq<int>, rows: nat): (g: seq<seq<char>>)
    requires IsKey(key) && |gs| == |key|
    ensures |g| == rows && IsTable(g, |key|)
    ensures forall r, c :: 0 <= r < rows && 0 <= c < |key| ==> g[r][c] == DecryptCell(gs, key, r, c)
  {
    seq(rows, r requires 0 <= r => seq(|key|, c requires 0 <= c < |key| => DecryptCell(gs, key, r, c)))
  }

  /**
   * The column holding play order `order` holds group `order - 1` top to
   * bottom, followed by padding down to the last row.
   */
  lemma DecryptColumn(gs: seq<string>, key: seq<int>, rows: nat, order: int)
    requires IsKey(key) && |gs| == |key| && 1 <= order <= |key| && |gs[order - 1]| <= rows
    ensures Column(DecryptTable(gs, key, rows), |key|, Position(key, order))
      == gs[order - 1] + Pad(rows - |gs[order - 1]|)
  {
  }

  /** The plaintext recovered from a ciphertext under a key. */
  function Decryption(ciphertext: string, key: seq<int>): (pt: string)
    requires IsKey(key) && |key| >= 1
  {
    var ct := KeepUpper(ciphertext);
    var rows := Rows(|ct|, |key|);
    StripTrailingX(Flatten(DecryptTable(Groups(ct, rows, |key|), key, rows)))
  }

  /**
   * The recovered text is a prefix of the table's row-major readout that
   * does not end in `X`; what it leaves off is all `X`.
   */
  lemma DecryptionStripped(ciphertext: string, key: seq<int>)
    requires IsKey(key) && |key| >= 1
    ensures var ct := KeepUpper(ciphertext);
      var rows := Rows(|ct|, |key|);
      var readout := Flatten(DecryptTable(Groups(ct, rows, |key|), key, rows));
      var pt := Decryption(ciphertext, key);
      pt == readout[..|pt|] && (pt == [] || pt[|pt| - 1] != Filler) &&
      forall i :: |pt| <= i < |readout| ==> readout[i] == Filler
  {
  }

  /**
   * The slicing loop: a running index advances by
   * `take = max(0, min(rows, |ct| - idx))` per play order.
   */
  method SliceGroups(ct: string, rows: nat, cols: nat) returns (groups: array<string>)
    ensures fresh(groups) && groups[..] == Groups(ct, rows, cols)
  {
    ghost var gs := Groups(ct, rows, cols);
    groups := new string[cols];
    var idx := 0;
    for order := 1 to cols + 1
      invariant idx == GroupStart(|ct|, rows, order - 1)
      invariant groups[..order - 1] == gs[..order - 1]
    {
      var take := if rows < |ct| - idx then rows else |ct| - idx;
      if take < 0 {
        take := 0;
      }
      GroupStep(|ct|, rows, order - 1);
      groups[order - 1] := ct[idx..idx + take];
      idx := idx + take;
      assert groups[..order] == groups[..order - 1] + [groups[order - 1]];
      assert gs[..order] == gs[..order - 1] + [gs[order - 1]];
    }
    assert groups[..] == groups[..cols];
  }

  /**
   * The writing loop: for each play order, find its column with
   * `getKeyIndex` and write the group down that column, padding with `X`.
   */
  method FillDecryptTable(groups: array<string>, key: array<int>, rows: nat) returns (table: array2<char>)
    requires IsKey(key[..]) && groups.Length == key.Length
    ensures fresh(table) && table.Length0 == rows && table.Length1 == key.Length
    ensures Cells(table) == DecryptTable(groups[..], key[..], rows)
  {
    ghost var g := DecryptTable(groups[..], key[..], rows);
    var cols := key.Length;
    table := new char[rows, cols];
    for order := 1 to cols + 1
      invariant forall r, c :: 0 <= r < rows && 0 <= c < cols && key[c] < order ==> table[r, c] == g[r][c]
    {
      var colIdx := GetKeyIndex(key, order);
      assert colIdx == Position(key[..], order);
      var group := groups[order - 1];
      WriteColumn(table, colIdx, group);
    }
    SameCells(Cells(table), g, cols);
  }

  /** The innermost writing loop: `group` down column c, then padding. No other column changes. */
  method WriteColumn(table: array2<char>, c: nat, group: string)
    requires c < table.Length1
    modifies table
    ensures forall r :: 0 <= r < table.Length0 ==>
      table[r, c] == if r < |group| then group[r] else Filler
    ensures forall r, c' :: 0 <= r < table.Length0 && 0 <= c' < table.Length1 && c' != c ==>
      table[r, c'] == old(table[r, c'])
  {
    for r := 0 to table.Length0
      invariant forall r' :: 0 <= r' < r ==> table[r', c] == if r' < |group| then group[r'] else Filler
      invariant forall r', c' :: 0 <= r' < table.Length0 && 0 <= c' < table.Length1 && c' != c ==>
        table[r', c'] == old(table[r', c'])
    {
      if r < |group| {
        table[r, c] := group[r];
      } else {
        table[r, c] := Filler;
      }
    }
  }

  /** `decryptAndPrint` without its printing. */
  method Decrypt(ciphertext: string, key: array<int>) returns (pt: string)
    requires IsKey(key[..]) && key.Length >= 1
    ensures pt == Decryption(ciphertext, key[..])
  {
    var ct := KeepUpper(ciphertext);
    var cols := key.Length;
    var rows := (|ct| + cols - 1) / cols;
    assert rows == Rows(|ct|, cols);
    var groups := SliceGroups(ct, rows, cols);
    var table := FillDecryptTable(groups, key, rows);
    var readout := ReadRowMajor(table);
    assert readout == Flatten(DecryptTable(Groups(ct, rows, cols), key[..], rows));
    pt := StripTrailingX(readout);
  }
}
