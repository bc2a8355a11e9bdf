/**
 * The numeric key: its validation at the key prompt and the search that maps
 * a play order to the table column holding it (the inverse permutation).
 */
module Key {
  import opened Wrappers
  import opened Text

  /** Every entry of `d` lies in 1..m. */
  predicate InRange(d: seq<int>, m: int) { forall i :: 0 <= i < |d| ==> 1 <= d[i] <= m }

  predicate Distinct(d: seq<int>) { forall i, j :: 0 <= i < j < |d| ==> d[i] != d[j] }

  /** A key of n columns: n distinct play orders, each in 1..n. */
  predicate IsKey(d: seq<int>) { InRange(d, |d|) && Distinct(d) }

  /** `d` without its entry at position j. */
  function RemoveAt(d: seq<int>, j: nat): (e: seq<int>)
    requires j < |d|
    ensures |e| == |d| - 1
    ensures forall i :: 0 <= i < |e| ==> e[i] == d[if i < j then i else i + 1]
  {
    d[..j] + d[j + 1..]
  }

  /** Pigeonhole: distinct values drawn from 1..m are at most m in number. */
  lemma {:induction false} DistinctBounded(d: seq<int>, m: nat)
    requires InRange(d, m) && Distinct(d)
    ensures |d| <= m
    decreases m
  {
    assert |d| > 0 ==> 1 <= d[0] <= m;
    if m > 0 {
      if j :| 0 <= j < |d| && d[j] == m {
        var e := RemoveAt(d, j);
        DistinctBounded(e, m - 1);
      } else {
        DistinctBounded(d, m - 1);
      }
    }
  }

  /** A key holds every play order 1..n, so it is a permutation of 1..n. */
  lemma {:induction false} KeyCovers(d: seq<int>, v: int)
    requires IsKey(d) && 1 <= v <= |d|
    ensures v in d
    decreases |d|
  {
    var n := |d|;
    if n !in d {
      assert InRange(d, n - 1);
      DistinctBounded(d, n - 1);
    }
    var j :| 0 <= j < n && d[j] == n;
    if v != n {
      var e := RemoveAt(d, j);
      assert InRange(e, n - 1);
      KeyCovers(e, v);
      var k :| 0 <= k < |e| && e[k] == v;
      assert d[if k < j then k else k + 1] == v;
    }
  }

  /** Index of the first entry of `key` equal to `v`, or -1 when there is none. */
  function IndexOf(key: seq<int>, v: int): (i: int)
    ensures -1 <= i < |key|
    ensures i == -1 <==> v !in key
    ensures 0 <= i ==> key[i] == v && v !in key[..i]
    decreases |key|
  {
    if |key| == 0 then -1
    else if key[0] == v then 0
    else
      var j := IndexOf(key[1..], v);
      if j == -1 then -1
      else
        assert key[..j + 1] == [key[0]] + key[1..][..j];
        j + 1
  }

  /** The column of a key that holds play order `order`. */
  function Position(key: seq<int>, order: int): (c: nat)
    requires IsKey(key) && 1 <= order <= |key|
    ensures c < |key| && key[c] == order
  {
    KeyCovers(key, order);
    IndexOf(key, order)
  }

  /** Position and the key are inverse permutations of each other. */
  lemma PositionInverse(key: seq<int>, c: int, order: int)
    requires IsKey(key) && 0 <= c < |key| && 1 <= order <= |key|
    ensures Position(key, order) == c <==> key[c] == order
  {
  }

  /**
   * `getKeyIndex`: a linear search for `colNumber` in the key, giving -1 when
   * no entry matches.
   */
  method GetKeyIndex(key: array<int>, colNumber: int) returns (i: int)
    ensures i == IndexOf(key[..], colNumber)
  {
    i := 0;
    while i < key.Length
      invariant 0 <= i <= key.Length
      invariant colNumber !in key[..i]
    {
      if key[i] == colNumber {
        assert key[..][i] == colNumber && key[..i] == key[..][..i];
        return;
      }
      assert key[..i + 1] == key[..i] + [key[i]];
      i := i + 1;
    }
    assert key[..i] == key[..];
    i := -1;
  }

  /** Why the key prompt refuses a line. */
  datatype KeyError =
    | NonDigitKey
    | DigitOutOfRange(digit: int)
    | DuplicateDigit(digit: int)
    | MissingDigit(digit: int)

  /** `keyStr.matches("\\d+")`. */
  predicate IsDigitString(s: string) { s != [] && forall i :: 0 <= i < |s| ==> IsDigit(s[i]) }

  /** `Character.getNumericValue` of each character, for ASCII digits. */
  function DigitValues(s: string): (d: seq<int>)
    ensures |d| == |s|
    ensures forall i :: 0 <= i < |s| ==> d[i] == s[i] as int - '0' as int
  {
    seq(|s|, i requires 0 <= i < |s| => s[i] as int - '0' as int)
  }

  /** The first complaint of the checking loop, which scans the digits from position i on. */
  function FirstFault(d: seq<int>, i: nat): Option<KeyError>
    requires i <= |d|
    decreases |d| - i
  {
    if i == |d| then None
    else if d[i] < 1 || d[i] > |d| then Some(DigitOutOfRange(d[i]))
    else if d[i] in d[..i] then Some(DuplicateDigit(d[i]))
    else FirstFault(d, i + 1)
  }

  /** The first play order from v on that no digit supplies. */
  function FirstMissing(d: seq<int>, v: nat): Option<KeyError>
    requires v >= 1
    decreases |d| + 1 - v
  {
    if v > |d| then None
    else if v !in d then Some(MissingDigit(v))
    else FirstMissing(d, v + 1)
  }

  /** What the key prompt makes of one line of input. */
  function KeyCheck(line: string): Result<seq<int>, KeyError>
  {
    DigitCheck(Trim(line))
  }

  /** What the checks make of the trimmed line. */
  function DigitCheck(keyStr: string): Result<seq<int>, KeyError>
  {
    if !IsDigitString(keyStr) then Failure(NonDigitKey)
    else
      var d := DigitValues(keyStr);
      match FirstFault(d, 0)
      case Some(e) => Failure(e)
      case None =>
        match FirstMissing(d, 1)
        case Some(e) => Failure(e)
        case None => Success(d)
  }

  /** The checking loop finds no fault exactly when the digits from i on are in range and new. */
  lemma {:induction false} FirstFaultNone(d: seq<int>, i: nat)
    requires i <= |d|
    ensures FirstFault(d, i) == None <==>
      forall j :: i <= j < |d| ==> 1 <= d[j] <= |d| && d[j] !in d[..j]
    decreases |d| - i
  {
    if i < |d| {
      FirstFaultNone(d, i + 1);
    }
  }

  /** A reported fault is genuine: the digit is out of range, or occurs twice. */
  lemma {:induction false} FirstFaultSound(d: seq<int>, i: nat)
    requires i <= |d|
    ensures FirstFault(d, i).Some? && FirstFault(d, i).value.DigitOutOfRange? ==>
      var v := FirstFault(d, i).value.digit; v in d && (v < 1 || v > |d|)
    ensures FirstFault(d, i).Some? && FirstFault(d, i).value.DuplicateDigit? ==>
      var v := FirstFault(d, i).value.digit;
      exists j, k :: 0 <= j < k < |d| && d[j] == v && d[k] == v
    ensures FirstFault(d, i).Some? ==> !FirstFault(d, i).value.MissingDigit?
    decreases |d| - i
  {
    if i < |d| {
      if d[i] < 1 || d[i] > |d| {
      } else if d[i] in d[..i] {
        var j :| 0 <= j < i && d[..i][j] == d[i];
        assert d[j] == d[i];
      } else {
        FirstFaultSound(d, i + 1);
      }
    }
  }

  /** Distinct means: every entry is new when the scan reaches it. */
  lemma DistinctAsScan(d: seq<int>)
    ensures Distinct(d) <==> forall j :: 0 <= j < |d| ==> d[j] !in d[..j]
  {
    if forall j :: 0 <= j < |d| ==> d[j] !in d[..j] {
      forall i, j | 0 <= i < j < |d| ensures d[i] != d[j] {
        assert d[..j][i] == d[i];
      }
    }
  }

  /** For a key no play order is missing. */
  lemma {:induction false} FirstMissingNone(d: seq<int>, v: nat)
    requires IsKey(d) && v >= 1
    ensures FirstMissing(d, v) == None
    decreases |d| + 1 - v
  {
    if v <= |d| {
      KeyCovers(d, v);
      FirstMissingNone(d, v + 1);
    }
  }

  /** The checking loop finds no fault in a digit sequence exactly when it is a key. */
  lemma NoFaultIffKey(d: seq<int>)
    ensures FirstFault(d, 0) == None <==> IsKey(d)
  {
    FirstFaultNone(d, 0);
    DistinctAsScan(d);
  }

  /**
   * The checks accept a trimmed line exactly when it is a non-empty string of
   * digits whose values form a permutation of 1..n; the key is then those values.
   */
  lemma DigitCheckAccepts(keyStr: string)
    ensures DigitCheck(keyStr).Success? <==>
      IsDigitString(keyStr) && IsKey(DigitValues(keyStr))
    ensures DigitCheck(keyStr).Success? ==> DigitCheck(keyStr).value == DigitValues(keyStr)
  {
    if IsDigitString(keyStr) {
      var d := DigitValues(keyStr);
      NoFaultIffKey(d);
      if IsKey(d) {
        FirstMissingNone(d, 1);
      }
    }
  }

  /**
   * The key prompt accepts a line exactly when, trimmed, it is a non-empty
   * string of digits whose values form a permutation of 1..n; the key is
   * then those values.
   */
  lemma KeyCheckAccepts(line: string)
    ensures KeyCheck(line).Success? <==>
      IsDigitString(Trim(line)) && IsKey(DigitValues(Trim(line)))
    ensures KeyCheck(line).Success? ==> KeyCheck(line).value == DigitValues(Trim(line))
  {
    DigitCheckAccepts(Trim(line));
  }

  /** An accepted key has between one and nine columns: its digits are distinct values in 1..9. */
  lemma AcceptedKeyLength(line: string)
    ensures KeyCheck(line).Success? ==> 1 <= |KeyCheck(line).value| <= 9
  {
    KeyCheckAccepts(line);
    if KeyCheck(line).Success? {
      var d := DigitValues(Trim(line));
      assert InRange(d, 9);
      DistinctBounded(d, 9);
    }
  }

  /**
   * The rejection for a missing play order never fires: once every digit is
   * in range and none repeats, all of 1..n are present.
   */
  lemma MissingNeverReported(line: string)
    ensures !(KeyCheck(line).Failure? && KeyCheck(line).error.MissingDigit?)
  {
    var keyStr := Trim(line);
    assert KeyCheck(line) == DigitCheck(keyStr);
    if IsDigitString(keyStr) {
      var d := DigitValues(keyStr);
      FirstFaultSound(d, 0);
      if FirstFault(d, 0) == None {
        NoFaultIffKey(d);
        FirstMissingNone(d, 1);
      }
    }
  }

  /** The key prompt's checks on one line: trim it, then check the digits. */
  method ValidateKey(line: string) returns (r: Result<seq<int>, KeyError>)
    ensures r == KeyCheck(line)
    ensures r.Success? <==> IsDigitString(Trim(line)) && IsKey(DigitValues(Trim(line)))
    ensures r.Success? ==> 1 <= |r.value| && IsKey(r.value)
  {
    KeyCheckAccepts(line);
    r := CheckDigits(Trim(line));
  }

  /**
   * The checking loops of the key prompt: refuse a string that is not all
   * digits, then scan the digits filling `key` and `seen`, refusing a digit
   * outside 1..n or one seen before, and finally refuse a play order in 1..n
   * that was never seen.
   */
  method CheckDigits(keyStr: string) returns (r: Result<seq<int>, KeyError>)
    ensures r == DigitCheck(keyStr)
  {
    if !IsDigitString(keyStr) {
      return Failure(NonDigitKey);
    }
    ghost var digits := DigitValues(keyStr);
    var n := |keyStr|;
    var key := new int[n];
    var seen := new bool[n + 1](_ => false);
    var fault := ScanDigits(keyStr, key, seen);
    if fault.Some? {
      return Failure(fault.value);
    }
    var v := 1;
    while v <= n
      invariant 1 <= v <= n + 1
      invariant FirstMissing(digits, 1) == FirstMissing(digits, v)
    {
      if !seen[v] {
        assert FirstMissing(digits, v) == Some(MissingDigit(v));
        return Failure(MissingDigit(v));
      }
      v := v + 1;
    }
    return Success(key[..]);
  }

  /**
   * The scanning loop of the key prompt: convert each digit into `key` and
   * mark it in `seen`, stopping at the first digit outside 1..n or seen
   * before. With no such digit, `key` holds the digit values and `seen`
   * marks exactly the values that occur.
   */
  method ScanDigits(keyStr: string, key: array<int>, seen: array<bool>) returns (fault: Option<KeyError>)
    requires key.Length == |keyStr| && seen.Length == |keyStr| + 1
    requires forall v :: 0 <= v < seen.Length ==> !seen[v]
    modifies key, seen
    ensures fault == FirstFault(DigitValues(keyStr), 0)
    ensures fault.None? ==> key[..] == DigitValues(keyStr)
    ensures fault.None? ==> forall v :: 0 <= v < seen.Length ==> seen[v] == (v in DigitValues(keyStr))
  {
    ghost var digits := DigitValues(keyStr);
    var n := |keyStr|;
    var i := 0;
    while i < n
      invariant 0 <= i <= n
      invariant key[..i] == digits[..i]
      invariant InRange(digits[..i], n)
      invariant forall v :: 0 <= v <= n ==> seen[v] == (v in digits[..i])
      invariant FirstFault(digits, 0) == FirstFault(digits, i)
    {
      var d := keyStr[i] as int - '0' as int;
      assert d == digits[i] && digits[..i + 1] == digits[..i] + [d];
      key[i] := d;
      if d < 1 || d > n {
        assert FirstFault(digits, i) == Some(DigitOutOfRange(d));
        return Some(DigitOutOfRange(d));
      }
      if seen[d] {
        assert FirstFault(digits, i) == Some(DuplicateDigit(d));
        return Some(DuplicateDigit(d));
      }
      assert FirstFault(digits, i) == FirstFault(digits, i + 1);
      seen[d] := true;
      i := i + 1;
    }
    assert digits[..n] == digits;
    assert key[..] == key[..n];
    return None;
  }
}
