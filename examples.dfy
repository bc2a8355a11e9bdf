/**
 * The worked example of the cipher: key "31425" and plaintext "HELLO WORLD",
 * cleaned to "HELLOWORLD", give a table of two rows and the ciphertext
 * "EOLLHWLROD", which decrypts back to "HELLOWORLD".
 */
module Examples {
  import opened Wrappers
  import opened Text
  import opened Key
  import opened Grid
  import opened Encoder
  import opened Decoder
  import opened RoundTrip

  /** The key prompt accepts "31425" as the permutation [3, 1, 4, 2, 5]. */
  lemma KeyPromptExample(line: string)
    requires line == "31425"
    ensures KeyCheck(line) == Success([3, 1, 4, 2, 5])
  {
    assert SkipBlanks(line, 0) == 0 by { assert !IsBlank(line[0]); }
    assert BackBlanks(line, 0, 5) == 5 by { assert !IsBlank(line[4]); }
    assert Trim(line) == line;
    var d := DigitValues(line);
    assert d == [3, 1, 4, 2, 5];
    assert IsKey(d);
    KeyCheckAccepts(line);
  }

  /** The key prompt refuses "3153" at its third digit: 5 is outside 1..4. */
  lemma KeyPromptRejects(line: string)
    requires line == "3153"
    ensures KeyCheck(line) == Failure(DigitOutOfRange(5))
  {
    assert SkipBlanks(line, 0) == 0 by { assert !IsBlank(line[0]); }
    assert BackBlanks(line, 0, 4) == 4 by { assert !IsBlank(line[3]); }
    assert Trim(line) == line;
    assert IsDigitString(line);
    var d := DigitValues(line);
    assert d == [3, 1, 5, 3];
    assert FirstFault(d, 0) == FirstFault(d, 1) by { assert d[..0] == []; }
    assert FirstFault(d, 1) == FirstFault(d, 2) by { assert d[..1] == [3]; }
    assert FirstFault(d, 2) == Some(DigitOutOfRange(5));
  }

  /** The column holding each play order of the key [3, 1, 4, 2, 5]. */
  lemma PositionsExample(key: seq<int>)
    requires key == [3, 1, 4, 2, 5]
    ensures IsKey(key)
    ensures Position(key, 1) == 1 && Position(key, 2) == 3 && Position(key, 3) == 0
    ensures Position(key, 4) == 2 && Position(key, 5) == 4
  {
    assert IsKey(key);
    PositionInverse(key, 1, 1);
    PositionInverse(key, 3, 2);
    PositionInverse(key, 0, 3);
    PositionInverse(key, 2, 4);
    PositionInverse(key, 4, 5);
  }

  /** "HELLOWORLD" is already clean. */
  lemma CleanExample(pt: string)
    requires pt == "HELLOWORLD"
    ensures AllUpper(pt) && KeepUpper(pt) == pt
  {
    assert AllUpper(pt);
  }

  /** The capital filter keeps "A" and "C" of "AbC" in that order. */
  lemma KeepInOrderExample(s: string)
    requires s == "AbC"
    ensures KeepUpper(s) == "AC"
  {
    assert s == ['A'] + ['b'] + ['C'];
    KeepUpperAppend(['A'] + ['b'], ['C']);
    KeepUpperAppend(['A'], ['b']);
    KeepUpperSingle('A');
    KeepUpperSingle('b');
    KeepUpperSingle('C');
  }

  /** Ten letters in five columns fill two rows: "HELLO" and "WORLD". */
  lemma TableExample(pt: string)
    requires pt == "HELLOWORLD"
    ensures Rows(|pt|, 5) == 2
    ensures EncryptTable(pt, 5) == ["HELLO", "WORLD"]
  {
    RowsOfFullTable(2, 5);
    var g := EncryptTable(pt, 5);
    assert g[0] == "HELLO";
    assert g[1] == "WORLD";
  }

  /** A column of a two-row table is its two cells. */
  lemma ColumnOfTwoRows(g: seq<seq<char>>, c: nat)
    requires |g| == 2 && IsTable(g, 5) && c < 5
    ensures Column(g, 5, c) == [g[0][c], g[1][c]]
  {
  }

  /** The k-th column in play order of the "HELLO"/"WORLD" table. */
  lemma ColumnInOrderExample(key: seq<int>, g: seq<seq<char>>, cs: seq<seq<char>>, k: nat)
    requires key == [3, 1, 4, 2, 5] && g == ["HELLO", "WORLD"] && cs == ["EO", "LL", "HW", "LR", "OD"]
    requires k < 5
    ensures IsKey(key) && IsTable(g, 5) && ColumnsInOrder(g, key)[k] == cs[k]
  {
    PositionsExample(key);
    assert IsTable(g, 5);
    var c := Position(key, k + 1);
    ColumnOfTwoRows(g, c);
    assert c == [1, 3, 0, 2, 4][k];
  }

  /** The columns in play order are "EO", "LL", "HW", "LR", "OD". */
  lemma ColumnsInOrderExample(key: seq<int>, g: seq<seq<char>>, cs: seq<seq<char>>)
    requires key == [3, 1, 4, 2, 5] && g == ["HELLO", "WORLD"] && cs == ["EO", "LL", "HW", "LR", "OD"]
    ensures IsKey(key) && IsTable(g, 5) && ColumnsInOrder(g, key) == cs
  {
    PositionsExample(key);
    assert IsTable(g, 5);
    forall k | 0 <= k < 5 ensures ColumnsInOrder(g, key)[k] == cs[k] {
      ColumnInOrderExample(key, g, cs, k);
    }
  }

  /** The columns in play order, one after another. */
  lemma FlattenExample(cs: seq<seq<char>>)
    requires cs == ["EO", "LL", "HW", "LR", "OD"]
    ensures Flatten(cs) == "EOLLHWLROD"
  {
    assert cs[..0] == [] && cs[..5] == cs;
    FlattenStep(cs, 0);
    assert Flatten(cs[..1]) == "EO";
    FlattenStep(cs, 1);
    assert Flatten(cs[..2]) == "EOLL";
    FlattenStep(cs, 2);
    assert Flatten(cs[..3]) == "EOLLHW";
    FlattenStep(cs, 3);
    assert Flatten(cs[..4]) == "EOLLHWLR";
    FlattenStep(cs, 4);
  }

  /** "HELLOWORLD" under the key [3, 1, 4, 2, 5] encrypts to "EOLLHWLROD". */
  lemma EncryptExample(pt: string, key: seq<int>)
    requires pt == "HELLOWORLD" && key == [3, 1, 4, 2, 5]
    ensures IsKey(key) && Encryption(pt, key) == "EOLLHWLROD"
  {
    CleanExample(pt);
    TableExample(pt);
    PositionsExample(key);
    ColumnsInOrderExample(key, ["HELLO", "WORLD"], ["EO", "LL", "HW", "LR", "OD"]);
    FlattenExample(["EO", "LL", "HW", "LR", "OD"]);
  }

  /** "HELLOWORLD" does not end in `X`, so it survives the round trip unchanged. */
  lemma RoundTripExample(pt: string, key: seq<int>)
    requires pt == "HELLOWORLD" && key == [3, 1, 4, 2, 5]
    ensures IsKey(key) && Decryption(Encryption(pt, key), key) == pt
  {
    PositionsExample(key);
    CleanExample(pt);
    assert pt[|pt| - 1] == 'D';
    ExactRoundTrip(pt, key);
  }

  /** "EOLLHWLROD" under the same key decrypts to "HELLOWORLD". */
  lemma DecryptExample(ct: string, key: seq<int>)
    requires ct == "EOLLHWLROD" && key == [3, 1, 4, 2, 5]
    ensures IsKey(key) && Decryption(ct, key) == "HELLOWORLD"
  {
    EncryptExample("HELLOWORLD", key);
    RoundTripExample("HELLOWORLD", key);
  }

  /**
   * A plaintext ending in `X` loses that letter on the way back: the
   * stripping of padding cannot tell it from padding.
   */
  lemma LossyExample(pt: string, key: seq<int>)
    requires pt == "AX" && key == [2, 1]
    ensures IsKey(key) && Decryption(Encryption(pt, key), key) == "A"
  {
    assert IsKey(key);
    assert AllUpper(pt);
    RoundTrip.RoundTrip(pt, key);
    assert StripTrailingX(pt[..1]) == "A";
  }

  /** "HI" in three columns needs one `X` of padding, which decryption removes again. */
  lemma PaddedExample(pt: string, key: seq<int>)
    requires pt == "HI" && key == [2, 1, 3]
    ensures IsKey(key) && Rows(|pt|, 3) == 1 && EncryptTable(pt, 3) == ["HIX"]
    ensures Decryption(Encryption(pt, key), key) == pt
  {
    assert IsKey(key);
    assert AllUpper(pt);
    RowsOfFullTable(1, 3);
    assert Rows(|pt|, 3) == 1;
    var g := EncryptTable(pt, 3);
    assert g[0] == "HIX";
    assert pt[|pt| - 1] == 'I';
    ExactRoundTrip(pt, key);
  }
}
