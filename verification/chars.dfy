/**
 Character classes of JavaScript regular expressions and of `String.prototype.trim`,
 maximal runs of a class, and decimal digit strings.
 */
module Chars {

  /** `\d` (no `u` flag): an ASCII digit. */
  predicate IsDigit(c: char) {
    '0' <= c <= '9'
  }

  /** `\w` (no `u` or `i` flag): an ASCII letter, digit or underscore. */
  predicate IsWordChar(c: char) {
    IsDigit(c) || 'a' <= c <= 'z' || 'A' <= c <= 'Z' || c == '_'
  }

  /** The line terminators that `.` refuses to match. */
  predicate IsLineTerminator(c: char) {
    c == '\n' || c == '\r' || c == '\U{2028}' || c == '\U{2029}'
  }

  /** `.` without the `s` flag. */
  predicate MatchesDot(c: char) {
    !IsLineTerminator(c)
  }

  predicate IsHyphen(c: char) {
    c == '-'
  }

  /** The class `[+-.]`: the range from '+' to '.', that is '+', ',', '-' and '.'. */
  predicate IsBuildSeparator(c: char) {
    '+' <= c <= '.'
  }

  /** The white space and line terminators `trim` removes. */
  predicate IsWhiteSpace(c: char) {
    || c == '\t' || c == '\n' || c == '\U{B}' || c == '\U{C}' || c == '\r' || c == ' '
    || c == '\U{A0}' || c == '\U{1680}' || '\U{2000}' <= c <= '\U{200A}'
    || c == '\U{2028}' || c == '\U{2029}' || c == '\U{202F}' || c == '\U{205F}'
    || c == '\U{3000}' || c == '\U{FEFF}'
  }

  /** The character classes the version pattern and `trim` scan runs of. */
  datatype CharClass = Digit | WordChar | Hyphen | BuildSeparator | WhiteSpace {

    predicate Contains(c: char) {
      match this
      case Digit => IsDigit(c)
      case WordChar => IsWordChar(c)
      case Hyphen => IsHyphen(c)
      case BuildSeparator => IsBuildSeparator(c)
      case WhiteSpace => IsWhiteSpace(c)
    }
  }

  /** Every character of `s[i..j]` is in class `cl`. */
  predicate AllIn(s: string, i: int, j: int, cl: CharClass)
    requires 0 <= i <= j <= |s|
  {
    forall k | i <= k < j :: cl.Contains(s[k])
  }

  /** Length of the longest run of class `cl` starting at `i`: what a greedy `cl*` consumes. */
  function RunLength(s: string, i: nat, cl: CharClass): (n: nat)
    requires i <= |s|
    ensures i + n <= |s|
    decreases |s| - i
  {
    if i < |s| && cl.Contains(s[i]) then 1 + RunLength(s, i + 1, cl) else 0
  }

  /** The run `RunLength` finds is all of class `cl` and cannot be extended. */
  lemma {:induction false} RunLengthIsMaximal(s: string, i: nat, cl: CharClass)
    requires i <= |s|
    ensures AllIn(s, i, i + RunLength(s, i, cl), cl)
    ensures i + RunLength(s, i, cl) == |s| || !cl.Contains(s[i + RunLength(s, i, cl)])
    decreases |s| - i
  {
    if i < |s| && cl.Contains(s[i]) {
      RunLengthIsMaximal(s, i + 1, cl);
    }
  }

  /** A run of class `cl` that cannot be extended is the one `RunLength` finds. */
  lemma {:induction false} RunLengthUnique(s: string, i: nat, n: nat, cl: CharClass)
    requires i + n <= |s|
    requires AllIn(s, i, i + n, cl)
    requires i + n == |s| || !cl.Contains(s[i + n])
    ensures RunLength(s, i, cl) == n
    decreases n
  {
    if n > 0 {
      RunLengthUnique(s, i + 1, n - 1, cl);
    }
  }

  /** `s.split(sep)`: the pieces between the occurrences of `sep`; `k` occurrences give `k + 1` pieces. */
  function Split(s: string, sep: char): (pieces: seq<string>)
    ensures 0 < |pieces|
    decreases |s|
  {
    if s == [] then [""]
    else
      var rest := Split(s[1..], sep);
      if s[0] == sep then [""] + rest else [[s[0]] + rest[0]] + rest[1..]
  }

  predicate IsDigits(s: string) {
    forall k | 0 <= k < |s| :: IsDigit(s[k])
  }

  predicate IsWord(s: string) {
    forall k | 0 <= k < |s| :: IsWordChar(s[k])
  }

  /** A slice of a run of digits is a digit string. */
  lemma DigitSlice(s: string, i: nat, j: nat)
    requires i <= j <= |s| && AllIn(s, i, j, Digit)
    ensures IsDigits(s[i..j])
  {
    forall k | 0 <= k < j - i
      ensures IsDigit(s[i..j][k])
    {
      assert Digit.Contains(s[i + k]);
    }
  }

  /** A slice of a run of word characters is a word. */
  lemma WordSlice(s: string, i: nat, j: nat)
    requires i <= j <= |s| && AllIn(s, i, j, WordChar)
    ensures IsWord(s[i..j])
  {
    forall k | 0 <= k < j - i
      ensures IsWordChar(s[i..j][k])
    {
      assert WordChar.Contains(s[i + k]);
    }
  }

  function DigitValue(c: char): nat
    requires IsDigit(c)
  {
    c as int - '0' as int
  }

  function DigitChar(d: nat): (c: char)
    requires d < 10
    ensures IsDigit(c) && DigitValue(c) == d
  {
    ('0' as int + d) as char
  }

  /** `parseInt` of a string of decimal digits, without the 2^53 precision limit. */
  function DecimalValue(ds: string): nat
    requires IsDigits(ds)
    decreases |ds|
  {
    if ds == [] then 0 else 10 * DecimalValue(ds[..|ds| - 1]) + DigitValue(ds[|ds| - 1])
  }

  /** How a template literal renders a natural number: decimal, no leading zero. */
  function DecimalString(n: nat): (s: string)
    ensures 0 < |s| && IsDigits(s)
    ensures DecimalValue(s) == n
    ensures 1 < |s| ==> s[0] != '0'
    decreases n
  {
    if n < 10 then
      [DigitChar(n)]
    else
      var prefix := DecimalString(n / 10);
      var s := prefix + [DigitChar(n % 10)];
      assert s[..|s| - 1] == prefix;
      s
  }

  /** Leading zeros do not change what `parseInt` reads. */
  lemma {:induction false} DecimalValueLeadingZero(ds: string)
    requires IsDigits(ds)
    ensures IsDigits("0" + ds) && DecimalValue("0" + ds) == DecimalValue(ds)
    decreases |ds|
  {
    var z := "0" + ds;
    if ds != [] {
      assert z[..|z| - 1] == "0" + ds[..|ds| - 1];
      DecimalValueLeadingZero(ds[..|ds| - 1]);
    } else {
      assert z[..|z| - 1] == [];
    }
  }

  /** Rendering a parsed digit string without leading zero gives it back. */
  lemma {:induction false} DecimalStringOfValue(ds: string)
    requires IsDigits(ds) && 0 < |ds|
    requires 1 < |ds| ==> ds[0] != '0'
    ensures DecimalString(DecimalValue(ds)) == ds
    decreases |ds|
  {
    var n := DecimalValue(ds);
    var last := ds[|ds| - 1];
    var init := ds[..|ds| - 1];
    if |ds| == 1 {
      assert init == [];
      assert DecimalValue(init) == 0;
      assert n == DigitValue(last);
      assert DigitChar(n) == last;
    } else {
      DecimalStringOfValue(init);
      DecimalValuePositive(init);
      assert n == 10 * DecimalValue(init) + DigitValue(last);
      assert n / 10 == DecimalValue(init);
      assert n % 10 == DigitValue(last);
      assert DigitChar(n % 10) == last;
      assert ds == init + [last];
    }
  }

  /** A digit string that does not start with '0' denotes a positive number. */
  lemma {:induction false} DecimalValuePositive(ds: string)
    requires IsDigits(ds) && 0 < |ds| && ds[0] != '0'
    ensures 0 < DecimalValue(ds)
    decreases |ds|
  {
    if 1 < |ds| {
      DecimalValuePositive(ds[..|ds| - 1]);
    }
  }
}
