/**
 * One to-do item: a description and a due date fixed at construction and a
 * completion flag that only ever goes from false to true. It renders itself
 * as a display line and as an unescaped CSV row.
 */
module Tasks {
  import opened Text
  import opened Dates
  import opened Wrappers

  class Task {
    const description: string
    const dueDate: Date
    var completed: bool

    /** A new task is pending and keeps exactly the description and due date given. */
    constructor (description: string, dueDate: Date)
      ensures this.description == description && this.dueDate == dueDate
      ensures !completed
    {
      this.description := description;
      this.dueDate := dueDate;
      completed := false;
    }

    /** The one-way transition: the task is completed afterwards whatever it was before. */
    method MarkCompleted()
      modifies this
      ensures completed
    {
      completed := true;
    }

    /** The display line "[X] description (Fecha límite: dd/MM/yyyy)", with a blank in place of X while pending. */
    function ToString(): (line: string)
      reads this
    {
      "[" + (if completed then "X" else " ") + "] " + description + DeadlineLabel + FormatDate(dueDate) + ")"
    }

    /** The CSV row "description,X,dd/MM/yyyy", with an empty middle field while pending; nothing is quoted. */
    function ToCsvString(): (row: string)
      reads this
    {
      description + "," + CompletionMark(completed) + "," + FormatDate(dueDate)
    }
  }

  const DeadlineLabel: string := " (Fecha límite: "

  /** The middle CSV field: "X" for a completed task, empty otherwise. */
  function CompletionMark(completed: bool): (m: string)
    ensures ',' !in m
  {
    if completed then "X" else ""
  }

  /** TaskComparator.compare: tasks are ordered by due date and by nothing else. */
  function CompareByDueDate(t1: Task, t2: Task): (r: int)
    ensures -1 <= r <= 1
    ensures r == 0 <==> t1.dueDate == t2.dueDate
    ensures r <= 0 <==> Leq(t1.dueDate, t2.dueDate)
  {
    Compare(t1.dueDate, t2.dueDate)
  }

  lemma CompareByDueDateAntisymmetric(t1: Task, t2: Task)
    ensures CompareByDueDate(t1, t2) == -CompareByDueDate(t2, t1)
  {
    CompareAntisymmetric(t1.dueDate, t2.dueDate);
  }

  /**
   * The display line splits into the status marker, the description and the
   * deadline; its second character is 'X' exactly when the task is completed.
   */
  lemma DisplayLineParts(t: Task)
    ensures |t.ToString()| == 4 + |t.description| + |DeadlineLabel| + |FormatDate(t.dueDate)| + 1
    ensures t.ToString()[..4] == (if t.completed then "[X] " else "[ ] ")
    ensures (t.ToString()[1] == 'X') == t.completed
    ensures t.ToString()[4..4 + |t.description|] == t.description
    ensures t.ToString()[4 + |t.description|..] == DeadlineLabel + FormatDate(t.dueDate) + ")"
  {
    var marker := if t.completed then "X" else " ";
    var tail := DeadlineLabel + FormatDate(t.dueDate) + ")";
    assert t.ToString() == ("[" + marker + "] ") + t.description + tail;
  }

  /** The fields a CSV row carries. */
  datatype TaskRecord = TaskRecord(description: string, completed: bool, dueDate: Date)

  /** Reads a row of exactly three comma-separated fields: description, "X" or empty, and a dd/MM/yyyy date. */
  function ParseCsvRow(row: string): (r: Option<TaskRecord>)
    ensures r.Some? ==> Count(row, ',') == 2
  {
    var f := Split(row, ',');
    SplitLength(row, ',');
    if |f| == 3 && (f[1] == "X" || f[1] == "") && ParseDate(f[2]).Some?
    then Some(TaskRecord(f[0], f[1] == "X", ParseDate(f[2]).value))
    else None
  }

  /** A row has as many fields as the description has commas, plus the three the format defines. */
  lemma {:induction false} CsvFields(t: Task)
    ensures Split(t.ToCsvString(), ',')
         == Split(t.description, ',') + [CompletionMark(t.completed), FormatDate(t.dueDate)]
    ensures |Split(t.ToCsvString(), ',')| == Count(t.description, ',') + 3
  {
    var mark, date := CompletionMark(t.completed), FormatDate(t.dueDate);
    assert t.ToCsvString() == t.description + [','] + (mark + [','] + date);
    SplitJoin(t.description, ',', mark + [','] + date);
    SplitJoin(mark, ',', date);
    SplitNoSeparator(mark, ',');
    assert ',' !in date by { DateHasNoComma(t.dueDate); }
    SplitNoSeparator(date, ',');
    SplitLength(t.description, ',');
  }

  lemma DateHasNoComma(d: Date)
    ensures ',' !in FormatDate(d)
  {
    var dd, mm, yyyy := ZeroPadded(d.day, 2), ZeroPadded(d.month, 2), ZeroPadded(d.year, 4);
    ZeroPaddedValue(d.day, 2);
    ZeroPaddedValue(d.month, 2);
    ZeroPaddedValue(d.year, 4);
    DigitsHaveNoSeparator(dd, ',');
    DigitsHaveNoSeparator(mm, ',');
    DigitsHaveNoSeparator(yyyy, ',');
  }

  /**
   * The CSV row can be read back exactly when the description holds no comma;
   * a comma in the description yields a row with more than three fields.
   */
  lemma {:induction false} CsvRoundTrip(t: Task)
    ensures ',' !in t.description ==>
      ParseCsvRow(t.ToCsvString()) == Some(TaskRecord(t.description, t.completed, t.dueDate))
    ensures ',' in t.description ==> ParseCsvRow(t.ToCsvString()) == None
  {
    CsvFields(t);
    CountZeroMeansAbsent(t.description, ',');
    if ',' !in t.description {
      SplitNoSeparator(t.description, ',');
      FormatParseRoundTrip(t.dueDate);
    }
  }
}
