/**
 * TaskManager: the list of tasks the menu drives. The stored list itself is
 * sorted by a listing, so positions given to MarkTaskCompleted and the order
 * of the CSV export always refer to the current storage order.
 */
module Manager {
  import opened Text
  import opened Dates
  import opened Tasks
  import opened Sorting

  /** No task object is stored twice. */
  predicate Distinct(s: seq<Task>) {
    forall i, j :: 0 <= i < j < |s| ==> s[i] != s[j]
  }

  lemma {:induction false} DistinctMultiplicity(s: seq<Task>, x: Task)
    requires Distinct(s)
    ensures multiset(s)[x] <= 1
  {
    if s != [] {
      assert s == [s[0]] + s[1..];
      assert Distinct(s[1..]) by {
        forall i, j | 0 <= i < j < |s[1..]| ensures s[1..][i] != s[1..][j] {
          assert s[1..][i] == s[i + 1] && s[1..][j] == s[j + 1];
        }
      }
      DistinctMultiplicity(s[1..], x);
      if x == s[0] {
        assert x !in s[1..];
      }
    }
  }

  /** A rearrangement of a list without repeated tasks has none either. */
  lemma DistinctPermutation(a: seq<Task>, b: seq<Task>)
    requires Distinct(a) && multiset(a) == multiset(b)
    ensures Distinct(b)
  {
    forall i, j | 0 <= i < j < |b| ensures b[i] != b[j] {
      if b[i] == b[j] {
        assert b == b[..j] + b[j..];
        assert b[i] in b[..j] && b[j] in b[j..];
        assert multiset(b)[b[i]] >= 2;
        DistinctMultiplicity(a, b[i]);
        assert false;
      }
    }
  }

  /** Line k of a listing: the 1-based number, ". " and the task's display line. */
  function ListingLine(k: nat, t: Task): string
    reads t
  {
    Decimal(k + 1) + ". " + t.ToString()
  }

  class TaskManager {
    var tasks: seq<Task>

    ghost predicate Valid()
      reads this
    {
      Distinct(tasks)
    }

    constructor ()
      ensures Valid() && tasks == []
    {
      tasks := [];
    }

    /** Appends a new pending task; the tasks already stored are untouched. */
    method AddTask(description: string, dueDate: Date)
      requires Valid()
      modifies this
      ensures Valid()
      ensures |tasks| == |old(tasks)| + 1 && tasks[..|old(tasks)|] == old(tasks)
      ensures fresh(tasks[|tasks| - 1])
      ensures tasks[|tasks| - 1].description == description && tasks[|tasks| - 1].dueDate == dueDate
      ensures !tasks[|tasks| - 1].completed
      ensures forall k :: 0 <= k < |old(tasks)| ==> tasks[k].completed == old(tasks[k].completed)
    {
      var t := new Task(description, dueDate);
      tasks := tasks + [t];
    }

    /**
     * Sorts the stored list by due date, stably and in place, then produces
     * the numbered listing of the sorted list.
     */
    method ListTasks() returns (lines: seq<string>)
      requires Valid()
      modifies this
      ensures Valid()
      ensures tasks == SortByDueDate(old(tasks))
      ensures multiset(tasks) == multiset(old(tasks)) && SortedByDueDate(tasks)
      ensures forall d :: DueOn(tasks, d) == DueOn(old(tasks), d)
      ensures forall t :: t in old(tasks) ==> t.completed == old(t.completed)
      ensures |lines| == |tasks|
      ensures forall k :: 0 <= k < |lines| ==> lines[k] == ListingLine(k, tasks[k])
    {
      ghost var before := tasks;
      tasks := SortByDueDate(tasks);
      SortSorted(before);
      forall d ensures DueOn(tasks, d) == DueOn(before, d) {
        SortStable(before, d);
      }
      DistinctPermutation(before, tasks);
      lines := DisplayLines();
    }

    /** The listing loop: line k shows number k + 1 and tasks[k]. */
    method DisplayLines() returns (lines: seq<string>)
      ensures |lines| == |tasks|
      ensures forall k :: 0 <= k < |lines| ==> lines[k] == ListingLine(k, tasks[k])
    {
      lines := [];
      var i := 0;
      while i < |tasks|
        invariant 0 <= i <= |tasks|
        invariant |lines| == i
        invariant forall k :: 0 <= k < i ==> lines[k] == ListingLine(k, tasks[k])
      {
        lines := lines + [ListingLine(i, tasks[i])];
        i := i + 1;
      }
    }

    /**
     * Marks the task at a 0-based position of the current storage order; an
     * out-of-range position is reported (ok false) and changes nothing.
     */
    method MarkTaskCompleted(index: int) returns (ok: bool)
      requires Valid()
      modifies if 0 <= index < |tasks| then {tasks[index]} else {}
      ensures Valid() && tasks == old(tasks)
      ensures ok <==> 0 <= index < |tasks|
      ensures ok ==> tasks[index].completed
      ensures forall k :: 0 <= k < |tasks| && k != index ==> tasks[k].completed == old(tasks[k].completed)
    {
      if 0 <= index < |tasks| {
        tasks[index].MarkCompleted();
        ok := true;
      } else {
        ok := false;
      }
    }

    /** The rows saveTasksToCsv writes: one row per stored task, in storage order. */
    method CsvRows() returns (rows: seq<string>)
      ensures |rows| == |tasks|
      ensures forall k :: 0 <= k < |rows| ==> rows[k] == tasks[k].ToCsvString()
    {
      rows := [];
      var i := 0;
      while i < |tasks|
        invariant 0 <= i <= |tasks|
        invariant |rows| == i
        invariant forall k :: 0 <= k < i ==> rows[k] == tasks[k].ToCsvString()
      {
        rows := rows + [tasks[i].ToCsvString()];
        i := i + 1;
      }
    }
  }

  /** Menu option 3: the user's number is 1-based and is passed on minus one. */
  method CompleteTaskNumber(m: TaskManager, number: int) returns (ok: bool)
    requires m.Valid()
    modifies if 1 <= number <= |m.tasks| then {m.tasks[number - 1]} else {}
    ensures m.Valid() && m.tasks == old(m.tasks)
    ensures ok <==> 1 <= number <= |m.tasks|
    ensures ok ==> m.tasks[number - 1].completed
    ensures forall k :: 0 <= k < |m.tasks| && k != number - 1 ==> m.tasks[k].completed == old(m.tasks[k].completed)
  {
    ok := m.MarkTaskCompleted(number - 1);
  }

  /**
   * A menu session: add "Buy milk" due 01/05/2024 and "Write report" due
   * 15/04/2024, list, then complete task number 1 and try number 5. The
   * listing reorders storage, so number 1 is the report.
   */
  method ListThenComplete() returns (order: seq<string>, completed: seq<bool>, fifthAccepted: bool)
    ensures order == ["Write report", "Buy milk"]
    ensures completed == [true, false]
    ensures !fifthAccepted
  {
    var m := new TaskManager();
    m.AddTask("Buy milk", Date(2024, 5, 1));
    m.AddTask("Write report", Date(2024, 4, 15));
    ghost var milk, report := m.tasks[0], m.tasks[1];
    assert SortByDueDate([report]) == [report];
    assert !Leq(milk.dueDate, report.dueDate);
    assert SortByDueDate([milk, report]) == Insert(milk, [report]) == [report, milk];
    var lines := m.ListTasks();
    var firstAccepted := CompleteTaskNumber(m, 1);
    fifthAccepted := CompleteTaskNumber(m, 5);
    order := [m.tasks[0].description, m.tasks[1].description];
    completed := [m.tasks[0].completed, m.tasks[1].completed];
  }
}
