/**
 * Decimal numerals and field splitting: the text building blocks of the
 * task renderers (Java's string conversion of non-negative integers, the
 * zero padding of SimpleDateFormat's "dd", "MM" and "yyyy" fields) and of
 * the readers used to state round trips.
 */
module Text {

  predicate IsDigit(c: char) {
    '0' <= c <= '9'
  }

  predicate AllDigits(s: string) {
    forall i :: 0 <= i < |s| ==> IsDigit(s[i])
  }

  function DigitChar(d: nat): (c: char)
    requires d < 10
    ensures IsDigit(c)
  {
    ('0' as int + d) as char
  }

  function DigitValue(c: char): (d: nat)
    requires IsDigit(c)
    ensures d < 10 && DigitChar(d) == c
  {
    c as int - '0' as int
  }

  /** The number a string of decimal digits denotes, most significant digit first. */
  function Value(s: string): nat
    requires AllDigits(s)
  {
    if s == [] then 0 else Value(s[..|s| - 1]) * 10 + DigitValue(s[|s| - 1])
  }

  /** The shortest decimal numeral of n, as Java prints a non-negative int. */
  function Decimal(n: nat): (s: string)
    decreases n
  {
    if n < 10 then [DigitChar(n)] else Decimal(n / 10) + [DigitChar(n % 10)]
  }

  /** The numeral is a non-empty string of digits without a leading zero, and denotes n. */
  lemma {:induction false} DecimalValue(n: nat)
    ensures 1 <= |Decimal(n)| && AllDigits(Decimal(n))
    ensures Value(Decimal(n)) == n
    ensures |Decimal(n)| > 1 ==> Decimal(n)[0] != '0'
    decreases n
  {
    if n >= 10 {
      DecimalValue(n / 10);
      var s := Decimal(n);
      assert s[..|s| - 1] == Decimal(n / 10);
    }
  }

  function Pow10(k: nat): nat {
    if k == 0 then 1 else 10 * Pow10(k - 1)
  }

  /** A number below 10^k has a numeral of at most k digits. */
  lemma {:induction false} DecimalLength(n: nat, k: nat)
    requires 1 <= k && n < Pow10(k)
    ensures |Decimal(n)| <= k
  {
    if n >= 10 {
      assert n / 10 < Pow10(k - 1);
      assert k - 1 != 0;
      DecimalLength(n / 10, k - 1);
    }
  }

  lemma {:induction false} LeadingZeroValue(s: string)
    requires AllDigits(s)
    ensures AllDigits(['0'] + s) && Value(['0'] + s) == Value(s)
  {
    var z := ['0'] + s;
    assert AllDigits(z) by {
      forall i | 0 <= i < |z| ensures IsDigit(z[i]) {
        if i > 0 { assert z[i] == s[i - 1]; }
      }
    }
    if s != [] {
      var init := s[..|s| - 1];
      assert z[..|z| - 1] == ['0'] + init;
      LeadingZeroValue(init);
    }
  }

  /**
   * The numeral of n padded on the left with zeros to at least `width`
   * characters, as a SimpleDateFormat field of `width` pattern letters
   * prints a number.
   */
  function ZeroPadded(n: nat, width: nat): string
    decreases width
  {
    if width <= |Decimal(n)| then Decimal(n) else ['0'] + ZeroPadded(n, width - 1)
  }

  /** Padding keeps the value: the field is all digits and denotes n. */
  lemma {:induction false} ZeroPaddedValue(n: nat, width: nat)
    ensures AllDigits(ZeroPadded(n, width)) && Value(ZeroPadded(n, width)) == n
    decreases width
  {
    if width <= |Decimal(n)| {
      DecimalValue(n);
    } else {
      ZeroPaddedValue(n, width - 1);
      LeadingZeroValue(ZeroPadded(n, width - 1));
    }
  }

  /** The field is exactly `width` characters unless the numeral is longer. */
  lemma {:induction false} ZeroPaddedLength(n: nat, width: nat)
    ensures |ZeroPadded(n, width)| == if width <= |Decimal(n)| then |Decimal(n)| else width
    decreases width
  {
    if width > |Decimal(n)| {
      ZeroPaddedLength(n, width - 1);
    }
  }

  /** Number of occurrences of c in s. */
  function Count(s: string, c: char): nat {
    if s == [] then 0 else (if s[0] == c then 1 else 0) + Count(s[1..], c)
  }

  /** The fields of s between occurrences of sep (an empty s is one empty field). */
  function Split(s: string, sep: char): (fields: seq<string>)
    ensures |fields| >= 1
  {
    if s == [] then [""]
    else
      var rest := Split(s[1..], sep);
      if s[0] == sep then [""] + rest else [[s[0]] + rest[0]] + rest[1..]
  }

  lemma {:induction false} SplitNoSeparator(s: string, sep: char)
    requires sep !in s
    ensures Split(s, sep) == [s]
  {
    if s != [] {
      assert s[0] != sep;
      assert sep !in s[1..];
      SplitNoSeparator(s[1..], sep);
      assert [s[0]] + s[1..] == s;
    }
  }

  /** Splitting at a separator splits the two sides independently. */
  lemma {:induction false} SplitJoin(a: string, sep: char, b: string)
    ensures Split(a + [sep] + b, sep) == Split(a, sep) + Split(b, sep)
  {
    var s := a + [sep] + b;
    if a == [] {
      assert s[1..] == b;
    } else {
      assert s[0] == a[0];
      assert s[1..] == a[1..] + [sep] + b;
      SplitJoin(a[1..], sep, b);
    }
  }

  /** A string with k separators has k + 1 fields. */
  lemma {:induction false} SplitLength(s: string, sep: char)
    ensures |Split(s, sep)| == Count(s, sep) + 1
  {
    if s != [] {
      SplitLength(s[1..], sep);
    }
  }

  lemma {:induction false} CountZeroMeansAbsent(s: string, c: char)
    ensures Count(s, c) == 0 <==> c !in s
  {
    if s != [] {
      CountZeroMeansAbsent(s[1..], c);
      assert s == [s[0]] + s[1..];
    }
  }

  lemma DigitsHaveNoSeparator(s: string, sep: char)
    requires AllDigits(s) && !IsDigit(sep)
    ensures sep !in s
  {
  }
}
