/**
 * String helpers with the meaning JavaScript gives them: decimal digits and
 * `Number(...)`, template-literal rendering of numbers, `toLowerCase`,
 * `startsWith`, `split('\n').at(-1)` and the relational comparison of strings.
 */
module Text {

  predicate IsDigit(c: char) { '0' <= c <= '9' }

  /** Every character is a decimal digit (possibly none). */
  predicate AllDigits(s: string) { forall i :: 0 <= i < |s| ==> IsDigit(s[i]) }

  /** The regular expression `\d+`. */
  predicate IsDigits(s: string) { |s| > 0 && AllDigits(s) }

  /** Digits without a superfluous leading zero, as a number is printed. */
  predicate IsCanonical(s: string) { IsDigits(s) && (s[0] == '0' ==> |s| == 1) }

  function DigitValue(c: char): (d: nat)
    requires IsDigit(c)
    ensures d < 10
  {
    c as int - '0' as int
  }

  function DigitChar(d: nat): (c: char)
    requires d < 10
    ensures IsDigit(c) && DigitValue(c) == d
  {
    ('0' as int + d) as char
  }

  /** `Number(s)` for a string of decimal digits. */
  function DigitsValue(s: string): nat
    requires AllDigits(s)
    decreases |s|
  {
    if |s| == 0 then 0 else DigitsValue(s[..|s| - 1]) * 10 + DigitValue(s[|s| - 1])
  }

  /** `${n}` for a natural number `n`. */
  function NatToString(n: nat): (s: string)
    ensures IsCanonical(s) && DigitsValue(s) == n
    decreases n
  {
    if n < 10 then [DigitChar(n)]
    else
      var p := NatToString(n / 10);
      var s := p + [DigitChar(n % 10)];
      assert s[..|s| - 1] == p;
      s
  }

  lemma {:induction false} LeadingNonZeroIsPositive(s: string)
    requires IsDigits(s) && s[0] != '0'
    ensures DigitsValue(s) > 0
  {
    if |s| > 1 {
      var p := s[..|s| - 1];
      assert p[0] == s[0];
      LeadingNonZeroIsPositive(p);
    }
  }

  /** Printing the number a canonical digit string denotes gives that string back. */
  lemma {:induction false} NatToStringOfValue(s: string)
    requires IsCanonical(s)
    ensures NatToString(DigitsValue(s)) == s
  {
    var d := s[|s| - 1];
    if |s| == 1 {
      assert s[..0] == [];
      assert DigitChar(DigitValue(d)) == d;
      assert s == [d];
    } else {
      var p := s[..|s| - 1];
      assert p[0] == s[0];
      LeadingNonZeroIsPositive(p);
      NatToStringOfValue(p);
      var v := DigitsValue(s);
      assert v == DigitsValue(p) * 10 + DigitValue(d);
      assert v / 10 == DigitsValue(p) && v % 10 == DigitValue(d);
      assert DigitChar(DigitValue(d)) == d;
      assert s == p + [d];
    }
  }

  /** ASCII part of `toLowerCase`; see the README for why this suffices here. */
  function LowerChar(c: char): char
  {
    if 'A' <= c <= 'Z' then (c as int + 32) as char else c
  }

  function ToLower(s: string): string
  {
    seq(|s|, i requires 0 <= i < |s| => LowerChar(s[i]))
  }

  predicate StartsWith(s: string, prefix: string)
  {
    |prefix| <= |s| && s[..|prefix|] == prefix
  }

  lemma StartsWithConcat(prefix: string, rest: string)
    ensures StartsWith(prefix + rest, prefix)
  {
    assert (prefix + rest)[..|prefix|] == prefix;
  }

  lemma StartsWithTransitive(s: string, a: string, b: string)
    requires StartsWith(s, a) && StartsWith(a, b)
    ensures StartsWith(s, b)
  {
    assert s[..|b|] == s[..|a|][..|b|];
  }

  /**
   * Length of the longest run of digits that starts at index `from`: what a
   * greedy `\d+` consumes there.
   */
  function DigitRun(s: string, from: nat): (n: nat)
    requires from <= |s|
    ensures from + n <= |s|
    ensures forall i :: from <= i < from + n ==> IsDigit(s[i])
    ensures from + n < |s| ==> !IsDigit(s[from + n])
    decreases |s| - from
  {
    if from < |s| && IsDigit(s[from]) then 1 + DigitRun(s, from + 1) else 0
  }

  /** A maximal run of digits is determined by where it stops. */
  lemma DigitRunIsUnique(s: string, from: nat, k: nat)
    requires from + k <= |s|
    requires forall i :: from <= i < from + k ==> IsDigit(s[i])
    requires from + k < |s| ==> !IsDigit(s[from + k])
    ensures DigitRun(s, from) == k
  {
  }

  /** The digit run at `from` is a whole slice of digits `d` followed by a non-digit or the end. */
  lemma DigitRunOfSlice(s: string, from: nat, d: string)
    requires from + |d| <= |s| && s[from..from + |d|] == d && AllDigits(d)
    requires from + |d| < |s| ==> !IsDigit(s[from + |d|])
    ensures DigitRun(s, from) == |d|
  {
    forall i | from <= i < from + |d|
      ensures IsDigit(s[i])
    {
      assert s[i] == d[i - from];
    }
    DigitRunIsUnique(s, from, |d|);
  }

  /** Any slice inside the digit run at `from` is all digits. */
  lemma DigitsWithinRun(s: string, from: nat, lo: nat, hi: nat)
    requires from <= |s| && from <= lo <= hi <= from + DigitRun(s, from)
    ensures AllDigits(s[lo..hi])
  {
    forall i | 0 <= i < hi - lo
      ensures IsDigit(s[lo..hi][i])
    {
      assert s[lo..hi][i] == s[lo + i];
    }
  }

  /** Cutting a string at two positions `i < j` after its first character. */
  lemma SplitAround(s: string, i: nat, j: nat)
    requires 0 < i < j < |s|
    ensures s == [s[0]] + s[1..i] + [s[i]] + s[i + 1..j] + [s[j]] + s[j + 1..]
  {
    assert s == s[..1] + s[1..i] + s[i..i + 1] + s[i + 1..j] + s[j..j + 1] + s[j + 1..];
  }

  /** JavaScript's `a < b` on strings: first differing character decides, a proper prefix comes first. */
  predicate LexLess(a: string, b: string)
    decreases |a|
  {
    if |b| == 0 then false
    else if |a| == 0 then true
    else if a[0] != b[0] then a[0] < b[0]
    else LexLess(a[1..], b[1..])
  }

  lemma {:induction false} LexLessIrreflexive(a: string)
    ensures !LexLess(a, a)
  {
    if |a| > 0 {
      LexLessIrreflexive(a[1..]);
    }
  }

  lemma {:induction false} LexLessTransitive(a: string, b: string, c: string)
    requires LexLess(a, b) && LexLess(b, c)
    ensures LexLess(a, c)
  {
    if |a| > 0 && a[0] == b[0] && b[0] == c[0] {
      LexLessTransitive(a[1..], b[1..], c[1..]);
    }
  }

  lemma {:induction false} LexLessTotal(a: string, b: string)
    ensures a == b || LexLess(a, b) || LexLess(b, a)
  {
    if |a| > 0 && |b| > 0 && a[0] == b[0] {
      LexLessTotal(a[1..], b[1..]);
      if a[1..] == b[1..] {
        assert a == [a[0]] + a[1..] && b == [b[0]] + b[1..];
      }
    }
  }

  /** A common prefix does not change the comparison. */
  lemma {:induction false} LexLessCommonPrefix(x: string, a: string, b: string)
    ensures LexLess(x + a, x + b) == LexLess(a, b)
  {
    if |x| == 0 {
      assert x + a == a && x + b == b;
    } else {
      assert (x + a)[0] == x[0] == (x + b)[0];
      assert (x + a)[1..] == x[1..] + a && (x + b)[1..] == x[1..] + b;
      LexLessCommonPrefix(x[1..], a, b);
    }
  }
}
