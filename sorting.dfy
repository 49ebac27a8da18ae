/**
 * The sort step of the listing: Collections.sort with a comparator that looks
 * only at due dates. That sort is stable, so the result is the unique
 * due-date-sorted rearrangement that keeps the order of tasks due on the same
 * day; an insertion sort computes it.
 */
module Sorting {
  import opened Dates
  import opened Tasks

  predicate SortedByDueDate(s: seq<Task>) {
    forall i, j :: 0 <= i < j < |s| ==> Leq(s[i].dueDate, s[j].dueDate)
  }

  /** The tasks of s due on d, in their order in s. */
  function DueOn(s: seq<Task>, d: Date): seq<Task> {
    if s == [] then [] else (if s[0].dueDate == d then [s[0]] else []) + DueOn(s[1..], d)
  }

  /** t placed in front of the first task of s that is not due before it. */
  function Insert(t: Task, s: seq<Task>): (r: seq<Task>)
    ensures multiset(r) == multiset(s) + multiset{t}
  {
    if s == [] then [t]
    else if Leq(t.dueDate, s[0].dueDate) then [t] + s
    else
      assert s == [s[0]] + s[1..];
      [s[0]] + Insert(t, s[1..])
  }

  /**
   * The stored list after Collections.sort(tasks, new TaskComparator()).
   * Insert's test `Leq(t.dueDate, s[0].dueDate)` is `CompareByDueDate(t, s[0]) <= 0`.
   */
  function SortByDueDate(s: seq<Task>): (r: seq<Task>)
    ensures multiset(r) == multiset(s)
    ensures |r| == |s|
  {
    if s == [] then []
    else
      assert s == [s[0]] + s[1..];
      Insert(s[0], SortByDueDate(s[1..]))
  }

  /** A date no later than t and than every task of s is no later than any task of Insert(t, s). */
  lemma {:induction false} InsertLowerBound(x: Date, t: Task, s: seq<Task>)
    requires Leq(x, t.dueDate)
    requires forall j :: 0 <= j < |s| ==> Leq(x, s[j].dueDate)
    ensures forall j :: 0 <= j < |Insert(t, s)| ==> Leq(x, Insert(t, s)[j].dueDate)
  {
    if s != [] && !Leq(t.dueDate, s[0].dueDate) {
      InsertLowerBound(x, t, s[1..]);
    }
  }

  lemma SortedCons(x: Task, s: seq<Task>)
    requires SortedByDueDate(s)
    requires forall j :: 0 <= j < |s| ==> Leq(x.dueDate, s[j].dueDate)
    ensures SortedByDueDate([x] + s)
  {
    var r := [x] + s;
    forall i, j | 0 <= i < j < |r| ensures Leq(r[i].dueDate, r[j].dueDate) {
      assert r[j] == s[j - 1];
      if i > 0 { assert r[i] == s[i - 1]; }
    }
  }

  lemma {:induction false} InsertSorted(t: Task, s: seq<Task>)
    requires SortedByDueDate(s)
    ensures SortedByDueDate(Insert(t, s))
  {
    if s == [] {
    } else if Leq(t.dueDate, s[0].dueDate) {
      forall j | 0 <= j < |s| ensures Leq(t.dueDate, s[j].dueDate) {
        if j > 0 { LeqTransitive(t.dueDate, s[0].dueDate, s[j].dueDate); }
      }
      SortedCons(t, s);
    } else {
      InsertSorted(t, s[1..]);
      LeqTotal(t.dueDate, s[0].dueDate);
      InsertLowerBound(s[0].dueDate, t, s[1..]);
      SortedCons(s[0], Insert(t, s[1..]));
    }
  }

  /** After the sort every task is due no later than the tasks after it. */
  lemma {:induction false} SortSorted(s: seq<Task>)
    ensures SortedByDueDate(SortByDueDate(s))
  {
    if s != [] {
      SortSorted(s[1..]);
      InsertSorted(s[0], SortByDueDate(s[1..]));
    }
  }

  lemma DueOnCons(x: Task, s: seq<Task>, d: Date)
    ensures DueOn([x] + s, d) == (if x.dueDate == d then [x] else []) + DueOn(s, d)
  {
    var r := [x] + s;
    assert r[0] == x && r[1..] == s;
  }

  /** Putting a task not due on t's day in front of two lists keeps them related as before. */
  lemma DueOnPast(x: Task, t: Task, rest: seq<Task>, tail: seq<Task>, d: Date)
    requires x.dueDate != t.dueDate
    requires DueOn(rest, d) == (if t.dueDate == d then [t] else []) + DueOn(tail, d)
    ensures DueOn([x] + rest, d) == (if t.dueDate == d then [t] else []) + DueOn([x] + tail, d)
  {
    DueOnCons(x, rest, d);
    DueOnCons(x, tail, d);
    if t.dueDate == d {
      assert x.dueDate != d;
    }
  }

  lemma {:induction false} InsertDueOn(t: Task, s: seq<Task>, d: Date)
    ensures DueOn(Insert(t, s), d) == (if t.dueDate == d then [t] else []) + DueOn(s, d)
  {
    if s == [] {
    } else if Leq(t.dueDate, s[0].dueDate) {
      DueOnCons(t, s, d);
    } else {
      InsertDueOn(t, s[1..], d);
      DueOnPast(s[0], t, Insert(t, s[1..]), s[1..], d);
      assert [s[0]] + s[1..] == s;
    }
  }

  /** Stability: the tasks due on any one day keep their relative order. */
  lemma {:induction false} SortStable(s: seq<Task>, d: Date)
    ensures DueOn(SortByDueDate(s), d) == DueOn(s, d)
  {
    if s != [] {
      SortStable(s[1..], d);
      InsertDueOn(s[0], SortByDueDate(s[1..]), d);
    }
  }

  lemma {:induction false} DueOnMember(s: seq<Task>, d: Date, x: Task)
    requires x in DueOn(s, d)
    ensures x in s && x.dueDate == d
  {
    if s[0] != x || s[0].dueDate != d {
      DueOnMember(s[1..], d, x);
    }
  }

  lemma DueOnFirst(s: seq<Task>)
    requires s != []
    ensures DueOn(s, s[0].dueDate) != []
  {
  }

  /** Two sorted lists with the same tasks due on every day are the same list. */
  lemma {:induction false} SortedUnique(a: seq<Task>, b: seq<Task>)
    requires SortedByDueDate(a) && SortedByDueDate(b)
    requires forall d :: DueOn(a, d) == DueOn(b, d)
    ensures a == b
  {
    if a == [] {
      if b != [] {
        DueOnFirst(b);
        assert false;
      }
    } else if b == [] {
      DueOnFirst(a);
      assert false;
    } else {
      var ka, kb := a[0].dueDate, b[0].dueDate;
      var xa := DueOn(b, ka)[0];
      assert DueOn(a, ka)[0] == a[0];
      DueOnMember(b, ka, xa);
      var ia :| 0 <= ia < |b| && b[ia] == xa;
      // b is sorted, so its first task is due no later than b[ia], which is due on ka.
      assert Leq(kb, ka) by { if ia > 0 { assert Leq(b[0].dueDate, b[ia].dueDate); } }
      var xb := DueOn(a, kb)[0];
      assert DueOn(b, kb)[0] == b[0];
      DueOnMember(a, kb, xb);
      var ib :| 0 <= ib < |a| && a[ib] == xb;
      // Symmetrically, a[0] is due no later than a[ib], which is due on kb.
      assert Leq(ka, kb) by { if ib > 0 { assert Leq(a[0].dueDate, a[ib].dueDate); } }
      LeqTotal(ka, kb);
      assert a[0] == b[0];
      forall d ensures DueOn(a[1..], d) == DueOn(b[1..], d) {
        var p := if a[0].dueDate == d then [a[0]] else [];
        assert DueOn(a, d) == p + DueOn(a[1..], d);
        assert DueOn(b, d) == p + DueOn(b[1..], d);
        assert DueOn(a[1..], d) == (p + DueOn(a[1..], d))[|p|..];
        assert DueOn(b[1..], d) == (p + DueOn(b[1..], d))[|p|..];
      }
      SortedUnique(a[1..], b[1..]);
      assert a == [a[0]] + a[1..] && b == [b[0]] + b[1..];
    }
  }

  /**
   * Any stable sort by due date gives the same list as SortByDueDate, so the
   * model agrees with the merge sort the Java library uses.
   */
  lemma StableSortUnique(r: seq<Task>, s: seq<Task>)
    requires SortedByDueDate(r)
    requires forall d :: DueOn(r, d) == DueOn(s, d)
    ensures r == SortByDueDate(s)
  {
    SortSorted(s);
    forall d ensures DueOn(r, d) == DueOn(SortByDueDate(s), d) {
      SortStable(s, d);
    }
    SortedUnique(r, SortByDueDate(s));
  }
}
