/**
 * Due dates at day precision: their order (java.util.Date.compareTo) and
 * the "dd/MM/yyyy" rendering the task list uses, with a strict reader of
 * that format as its inverse.
 */
module Dates {
  import opened Text
  import opened Wrappers

  /** A calendar date. Fields are not range-checked: the order and the format are defined for every triple. */
  datatype Date = Date(year: nat, month: nat, day: nat)

  /** Date.compareTo: -1, 0 or 1 as a is before, the same day as, or after b. */
  function Compare(a: Date, b: Date): (r: int)
    ensures -1 <= r <= 1
    ensures r == 0 <==> a == b
  {
    if a.year != b.year then (if a.year < b.year then -1 else 1)
    else if a.month != b.month then (if a.month < b.month then -1 else 1)
    else if a.day != b.day then (if a.day < b.day then -1 else 1)
    else 0
  }

  /** a is not after b. */
  predicate Leq(a: Date, b: Date) {
    Compare(a, b) <= 0
  }

  /** Swapping the arguments negates the comparison, as Comparator requires. */
  lemma CompareAntisymmetric(a: Date, b: Date)
    ensures Compare(a, b) == -Compare(b, a)
  {
  }

  lemma LeqTransitive(a: Date, b: Date, c: Date)
    requires Leq(a, b) && Leq(b, c)
    ensures Leq(a, c)
  {
  }

  lemma LeqTotal(a: Date, b: Date)
    ensures Leq(a, b) || Leq(b, a)
    ensures Leq(a, b) && Leq(b, a) ==> a == b
  {
  }

  /** SimpleDateFormat("dd/MM/yyyy").format: zero-padded day and month, year padded to four digits. */
  function FormatDate(d: Date): string {
    ZeroPadded(d.day, 2) + "/" + ZeroPadded(d.month, 2) + "/" + ZeroPadded(d.year, 4)
  }

  /** A date with a two-digit day and month and a year below 10000 renders in exactly ten characters. */
  lemma FormatDateWidth(d: Date)
    requires d.day < 100 && d.month < 100 && d.year < 10000
    ensures |FormatDate(d)| == 10 && FormatDate(d)[2] == '/' && FormatDate(d)[5] == '/'
  {
    DecimalLength(d.day, 2);
    DecimalLength(d.month, 2);
    DecimalLength(d.year, 4);
    ZeroPaddedLength(d.day, 2);
    ZeroPaddedLength(d.month, 2);
    ZeroPaddedLength(d.year, 4);
  }

  /** Reads a day, a month and a year of decimal digits separated by '/'. */
  function ParseDate(s: string): (r: Option<Date>)
    ensures r.Some? ==> Count(s, '/') == 2
  {
    var f := Split(s, '/');
    SplitLength(s, '/');
    if |f| == 3 && f[0] != [] && f[1] != [] && f[2] != []
       && AllDigits(f[0]) && AllDigits(f[1]) && AllDigits(f[2])
    then Some(Date(Value(f[2]), Value(f[1]), Value(f[0])))
    else None
  }

  /** Reading a rendered date gives back the same calendar date. */
  lemma {:induction false} FormatParseRoundTrip(d: Date)
    ensures ParseDate(FormatDate(d)) == Some(d)
  {
    var dd, mm, yyyy := ZeroPadded(d.day, 2), ZeroPadded(d.month, 2), ZeroPadded(d.year, 4);
    var s := FormatDate(d);
    ZeroPaddedValue(d.day, 2);
    ZeroPaddedValue(d.month, 2);
    ZeroPaddedValue(d.year, 4);
    assert s == dd + ['/'] + (mm + ['/'] + yyyy);
    SplitJoin(dd, '/', mm + ['/'] + yyyy);
    SplitJoin(mm, '/', yyyy);
    SplitNoSeparator(dd, '/');
    SplitNoSeparator(mm, '/');
    SplitNoSeparator(yyyy, '/');
    assert Split(s, '/') == [dd, mm, yyyy];
  }
}
