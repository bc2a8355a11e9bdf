/**
 * The cipher table: its row count, its rows and columns as sequences, and the
 * row-major readout of a filled `char[][]`.
 */
module Grid {

  /**
   * `(int) Math.ceil((double) len / cols)`: the fewest rows of `cols` cells
   * that hold `len` characters.
   */
  function Rows(len: nat, cols: nat): (rows: nat)
    requires cols >= 1
    ensures len <= rows * cols < len + cols
  {
    var q := (len + cols - 1) / cols;
    assert q * cols + (len + cols - 1) % cols == len + cols - 1;
    q
  }

  /** A table of exactly `rows` full rows needs no more rows than it has. */
  lemma RowsOfFullTable(rows: nat, cols: nat)
    requires cols >= 1
    ensures Rows(rows * cols, cols) == rows
  {
    var q := Rows(rows * cols, cols);
    if q < rows {
      MulMonotone(q + 1, rows, cols);
    } else if q > rows {
      MulMonotone(rows + 1, q, cols);
    }
  }

  lemma MulMonotone(a: nat, b: nat, w: nat)
    requires a <= b
    ensures a * w <= b * w
  {
    assert b * w == a * w + (b - a) * w;
  }

  /** Position p of a row-major readout of width w lies in row p / w, column p % w. */
  lemma DivMod(p: nat, w: nat)
    requires w > 0
    ensures p == (p / w) * w + p % w && 0 <= p % w < w
  {
  }

  /** Cell (r, c) of a table of width w sits at position r * w + c of its row-major readout. */
  lemma BlockIndex(r: nat, c: nat, w: nat, k: nat)
    requires r < k && c < w
    ensures r * w + c < k * w
  {
    MulMonotone(r + 1, k, w);
  }

  /** Every row of `g` holds `w` cells. */
  predicate IsTable(g: seq<seq<char>>, w: nat) { forall r :: 0 <= r < |g| ==> |g[r]| == w }

  /** The pieces of `g` one after another; for a table, its row-major readout. */
  function Flatten(g: seq<seq<char>>): seq<char>
    decreases |g|
  {
    if g == [] then [] else Flatten(g[..|g| - 1]) + g[|g| - 1]
  }

  /** Flattening a prefix one piece longer appends that piece. */
  lemma FlattenStep(g: seq<seq<char>>, k: nat)
    requires k < |g|
    ensures Flatten(g[..k + 1]) == Flatten(g[..k]) + g[k]
  {
    assert g[..k + 1][..k] == g[..k];
  }

  /** The row-major readout of a table of width w has w characters per row. */
  lemma {:induction false} FlattenLength(g: seq<seq<char>>, w: nat)
    requires IsTable(g, w)
    ensures |Flatten(g)| == |g| * w
    decreases |g|
  {
    if g != [] {
      FlattenLength(g[..|g| - 1], w);
      assert |g| * w == (|g| - 1) * w + w;
    }
  }

  /** In the row-major readout of a table of width w, cell (r, c) is character r * w + c. */
  lemma {:induction false} FlattenAt(g: seq<seq<char>>, w: nat, r: nat, c: nat)
    requires IsTable(g, w) && r < |g| && c < w
    ensures r * w + c < |Flatten(g)| && Flatten(g)[r * w + c] == g[r][c]
    decreases |g|
  {
    var n := |g| - 1;
    var front := g[..n];
    FlattenLength(front, w);
    FlattenLength(g, w);
    assert Flatten(g) == Flatten(front) + g[n];
    if r < n {
      BlockIndex(r, c, w, n);
      FlattenAt(front, w, r, c);
      assert front[r] == g[r];
    } else {
      assert r * w == n * w;
    }
  }

  /** Column c of a table of width w, top to bottom. */
  function Column(g: seq<seq<char>>, w: nat, c: nat): (col: seq<char>)
    requires IsTable(g, w) && c < w
    ensures |col| == |g| && forall r :: 0 <= r < |g| ==> col[r] == g[r][c]
  {
    seq(|g|, r requires 0 <= r < |g| => g[r][c])
  }

  /** The cells of a `char[][]`, row by row. */
  ghost function Cells(t: array2<char>): (g: seq<seq<char>>)
    reads t
    ensures |g| == t.Length0 && IsTable(g, t.Length1)
    ensures forall r, c :: 0 <= r < t.Length0 && 0 <= c < t.Length1 ==> g[r][c] == t[r, c]
  {
    seq(t.Length0, r reads t requires 0 <= r < t.Length0 =>
      seq(t.Length1, c reads t requires 0 <= c < t.Length1 => t[r, c]))
  }

  /** Two tables of the same shape are equal when they agree cell by cell. */
  lemma SameCells(g: seq<seq<char>>, h: seq<seq<char>>, w: nat)
    requires |g| == |h| && IsTable(g, w) && IsTable(h, w)
    requires forall r, c :: 0 <= r < |g| && 0 <= c < w ==> g[r][c] == h[r][c]
    ensures g == h
  {
    forall r | 0 <= r < |g| ensures g[r] == h[r] {
    }
  }

  /** Reading a filled table row by row, left to right, into a `StringBuilder`. */
  method ReadRowMajor(table: array2<char>) returns (s: seq<char>)
    ensures s == Flatten(Cells(table))
  {
    ghost var g := Cells(table);
    s := [];
    for r := 0 to table.Length0
      invariant s == Flatten(g[..r])
    {
      for c := 0 to table.Length1
        invariant s == Flatten(g[..r]) + g[r][..c]
      {
        assert g[r][..c + 1] == g[r][..c] + [table[r, c]];
        s := s + [table[r, c]];
      }
      assert g[r][..table.Length1] == g[r];
      FlattenStep(g, r);
    }
    assert g[..table.Length0] == g;
  }
}
