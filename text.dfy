/**
 * Character classes and the text clean-ups the cipher applies: the regular
 * expression filters `[^a-zA-Z]` and `[^A-Z]`, upper-casing, `String.trim()`
 * and the removal of trailing padding `X+$`. All classes are ASCII, as they
 * are in Java regular expressions without the UNICODE_CHARACTER_CLASS flag.
 */
module Text {
  import opened Wrappers

  predicate IsUpper(c: char) { 'A' <= c <= 'Z' }

  predicate IsLower(c: char) { 'a' <= c <= 'z' }

  predicate IsLetter(c: char) { IsUpper(c) || IsLower(c) }

  /** `\d` in a Java regular expression. */
  predicate IsDigit(c: char) { '0' <= c <= '9' }

  /** The characters `String.trim()` removes: code points up to U+0020. */
  predicate IsBlank(c: char) { c <= ' ' }

  predicate AllUpper(s: string) { forall i :: 0 <= i < |s| ==> IsUpper(s[i]) }

  predicate AllBlank(s: string) { forall i :: 0 <= i < |s| ==> IsBlank(s[i]) }

  predicate HasDigit(s: string) { exists i :: 0 <= i < |s| && IsDigit(s[i]) }

  predicate HasLetter(s: string) { exists i :: 0 <= i < |s| && IsLetter(s[i]) }

  /** The padding character of the cipher table. */
  const Filler: char := 'X'

  /** `m` padding characters. */
  function Pad(m: nat): (p: string)
    ensures |p| == m && forall i :: 0 <= i < m ==> p[i] == Filler
  {
    seq(m, _ => Filler)
  }

  /**
   * `s.replaceAll("[^...]", "")`: the characters of `s` that `keep` accepts,
   * in their original order.
   */
  function Filter(s: string, keep: char -> bool): (r: string)
    ensures |r| <= |s|
    ensures forall i :: 0 <= i < |r| ==> keep(r[i])
    ensures forall c :: keep(c) ==> multiset(r)[c] == multiset(s)[c]
    ensures (forall i :: 0 <= i < |s| ==> keep(s[i])) ==> r == s
    decreases |s|
  {
    if s == [] then []
    else
      var rest := Filter(s[1..], keep);
      assert s == [s[0]] + s[1..];
      (if keep(s[0]) then [s[0]] else []) + rest
  }

  /** Filtering one character keeps it exactly when `keep` accepts it. */
  lemma FilterSingle(c: char, keep: char -> bool)
    ensures Filter([c], keep) == if keep(c) then [c] else []
  {
    assert [c][1..] == [];
  }

  /**
   * Filtering distributes over concatenation; with `FilterSingle` this fixes
   * the result to the kept characters in their original order.
   */
  lemma {:induction false} FilterAppend(s: string, t: string, keep: char -> bool)
    ensures Filter(s + t, keep) == Filter(s, keep) + Filter(t, keep)
    decreases |s|
  {
    if s == [] {
      assert s + t == t;
    } else {
      assert (s + t)[1..] == s[1..] + t;
      assert (s + t)[0] == s[0];
      FilterAppend(s[1..], t, keep);
    }
  }

  /** `replaceAll("[^A-Z]", "")`, applied to both texts before the table is built. */
  function KeepUpper(s: string): (r: string)
    ensures AllUpper(r)
    ensures forall c :: IsUpper(c) ==> multiset(r)[c] == multiset(s)[c]
    ensures AllUpper(s) ==> r == s
  {
    Filter(s, IsUpper)
  }

  /** The capitals of `s + t` are those of `s` followed by those of `t`. */
  lemma KeepUpperAppend(s: string, t: string)
    ensures KeepUpper(s + t) == KeepUpper(s) + KeepUpper(t)
  {
    FilterAppend(s, t, IsUpper);
  }

  /** A single character survives `KeepUpper` exactly when it is a capital. */
  lemma KeepUpperSingle(c: char)
    ensures KeepUpper([c]) == if IsUpper(c) then [c] else []
  {
    FilterSingle(c, IsUpper);
  }

  /** What `String.toUpperCase()` does to one character, restricted to ASCII letters. */
  function ToUpper(c: char): (u: char)
    ensures IsLetter(c) ==> IsUpper(u)
    ensures IsUpper(c) ==> u == c
    ensures IsLower(c) ==> u as int == c as int - 32
  {
    if IsLower(c) then (c as int - 32) as char else c
  }

  function UpperCase(s: string): (r: string)
    ensures |r| == |s|
    ensures forall i :: 0 <= i < |s| ==> r[i] == ToUpper(s[i])
  {
    seq(|s|, i requires 0 <= i < |s| => ToUpper(s[i]))
  }

  /** Why a line typed at the plaintext prompt is refused. */
  datatype PlainError = EmptyInput | DigitsInPlaintext | NoLettersInPlaintext

  /**
   * The checks of the plaintext prompt on one line of input: a blank line is
   * refused, then a line holding a digit, then a line without letters; what
   * is accepted is its letters, upper-cased, in order.
   */
  function CleanPlaintext(raw: string): (r: Result<string, PlainError>)
    ensures r == Failure(EmptyInput) <==> AllBlank(raw)
    ensures r == Failure(DigitsInPlaintext) <==> !AllBlank(raw) && HasDigit(raw)
    ensures r == Failure(NoLettersInPlaintext) <==> !AllBlank(raw) && !HasDigit(raw) && !HasLetter(raw)
    ensures r.Success? ==> AllUpper(r.value) && |r.value| == |Filter(raw, IsLetter)| > 0
    ensures r.Success? ==> forall i :: 0 <= i < |r.value| ==> r.value[i] == ToUpper(Filter(raw, IsLetter)[i])
  {
    if AllBlank(raw) then Failure(EmptyInput)
    else if HasDigit(raw) then Failure(DigitsInPlaintext)
    else
      var letters := Filter(raw, IsLetter);
      if letters == [] then
        assert !HasLetter(raw) by {
          forall i | 0 <= i < |raw| ensures !IsLetter(raw[i]) {
            assert raw[i] in multiset(raw);
          }
        }
        Failure(NoLettersInPlaintext)
      else
        assert HasLetter(raw) by {
          assert letters[0] in multiset(letters);
          assert letters[0] in raw;
        }
        Success(UpperCase(letters))
  }

  /** `r` is `s[i..i + |r|]`, and only blanks lie before and after it in `s`. */
  predicate TrimmedAt(s: string, r: string, i: nat)
  {
    i + |r| <= |s| && r == s[i..i + |r|] &&
    (forall j :: 0 <= j < i ==> IsBlank(s[j])) &&
    (forall j :: i + |r| <= j < |s| ==> IsBlank(s[j]))
  }

  /**
   * `String.trim()`: the part of `s` between its leading and its trailing
   * blanks, found by advancing a start index over blanks and then drawing an
   * end index back over blanks.
   */
  function Trim(s: string): (r: string)
    ensures exists i :: TrimmedAt(s, r, i)
    ensures r != [] ==> !IsBlank(r[0]) && !IsBlank(r[|r| - 1])
  {
    var st := SkipBlanks(s, 0);
    var len := BackBlanks(s, st, |s|);
    assert TrimmedAt(s, s[st..len], st);
    s[st..len]
  }

  /** The first index from i on that does not hold a blank, or |s|. */
  function SkipBlanks(s: string, i: nat): (st: nat)
    requires i <= |s|
    ensures i <= st <= |s|
    ensures forall j :: i <= j < st ==> IsBlank(s[j])
    ensures st < |s| ==> !IsBlank(s[st])
    decreases |s| - i
  {
    if i < |s| && IsBlank(s[i]) then SkipBlanks(s, i + 1) else i
  }

  /** The end index drawn back from len over blanks, stopping at st. */
  function BackBlanks(s: string, st: nat, len: nat): (e: nat)
    requires st <= len <= |s|
    ensures st <= e <= len
    ensures forall j :: e <= j < len ==> IsBlank(s[j])
    ensures st < e ==> !IsBlank(s[e - 1])
    decreases len
  {
    if st < len && IsBlank(s[len - 1]) then BackBlanks(s, st, len - 1) else len
  }

  /**
   * `replaceAll("X+$", "")`: `s` without its trailing run of padding. The
   * result is the longest prefix of `s` that does not end in `X` and after
   * which only `X` follows.
   */
  function StripTrailingX(s: string): (r: string)
    ensures |r| <= |s| && r == s[..|r|]
    ensures r == [] || r[|r| - 1] != Filler
    ensures forall i :: |r| <= i < |s| ==> s[i] == Filler
    decreases |s|
  {
    if s != [] && s[|s| - 1] == Filler then StripTrailingX(s[..|s| - 1]) else s
  }

  /** Padding appended to a text is removed again, together with any `X` the text ends in. */
  lemma {:induction false} StripPadding(s: string, m: nat)
    ensures StripTrailingX(s + Pad(m)) == StripTrailingX(s)
    decreases m
  {
    if m > 0 {
      var t := s + Pad(m);
      assert t[|t| - 1] == Filler;
      assert t[..|t| - 1] == s + Pad(m - 1);
      StripPadding(s, m - 1);
    } else {
      assert s + Pad(0) == s;
    }
  }

  /** A text that does not end in `X` is left as it is. */
  lemma StripKeeps(s: string)
    requires s == [] || s[|s| - 1] != Filler
    ensures StripTrailingX(s) == s
  {
  }
}
