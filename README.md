# Task organizer: a Dafny model of the in-memory task list

This project models the core of a single-user console task organizer, written in Java. A `Task` holds a description, a due date and a completion flag. `TaskComparator` orders tasks by due date. A `TaskManager` owns the list of tasks. It appends tasks, sorts the list for display, marks a task completed by position, and writes one CSV row per task.

The model follows the Java code's shape:

- `Tasks.Task` is a class. Its description and due date are `const` fields, because the source sets them only in the constructor. Its completion flag is a `var` that only `MarkCompleted` changes. The Java getters are plain field reads here.
- `Manager.TaskManager` is a class whose `tasks: seq<Task>` field stands for the `ArrayList<Task>`. Its methods reassign that field. Marking a task completed changes the stored `Task` object itself. So the model keeps object identity and states that no task object is stored twice (`Distinct`).
- Due dates are `Dates.Date` values: a year, a month and a day, compared lexicographically. This is `java.util.Date.compareTo` at day precision. `Dates.FormatDate` is the `dd/MM/yyyy` formatter, with zero-padded day and month and a year padded to four digits.
- The sort step of `listTasks` is `Collections.sort(tasks, new TaskComparator())`. It sorts the stored list in place. `Sorting.SortByDueDate` is a stable insertion sort by due date. `Sorting.StableSortUnique` proves that every stable sort by due date gives the same list, so the model's result is the one Java's merge sort produces.
- The listing is not a read-only view: `TaskOrganizerApp.java:66` sorts the stored list. So after a listing, the number typed at menu option 3 (passed on minus one to `markTaskCompleted`) and the order of the CSV export follow the last listing's order, not insertion order. `Manager.ListThenComplete` plays through that coupling on a concrete session.
- The CSV export is modelled as the sequence of rows it writes (`CsvRows`). The listing is modelled as the sequence of numbered lines it prints (`DisplayLines`).
- Readers used only by the round-trip lemmas: `Dates.ParseDate` is a strict `dd/MM/yyyy` reader. `Tasks.ParseCsvRow` reads a three-field CSV row. Neither is part of the program.

Files: `wrappers.dfy` (Option), `text.dfy` (decimal numerals, zero padding, splitting at a separator), `dates.dfy`, `tasks.dfy`, `sorting.dfy`, `manager.dfy`.

## Model

| member | source | states |
|---|---|---|
| `Tasks.Task.constructor` | TaskOrganizerApp.java:11-15 | a new task is not completed and keeps exactly the description and due date given |
| `Tasks.Task.MarkCompleted` | TaskOrganizerApp.java:25-27 | afterwards the task is completed whatever its previous state (so a second call changes nothing); description and due date are constants |
| `Tasks.Task.ToString` | TaskOrganizerApp.java:34-37 | the display line; it has no `ensures` on purpose, and `Tasks.DisplayLineParts` carries its properties |
| `Tasks.Task.ToCsvString` | TaskOrganizerApp.java:40-43 | the unescaped CSV row; it has no `ensures` on purpose, and `Tasks.CsvFields` and `Tasks.CsvRoundTrip` carry its properties |
| `Tasks.DisplayLineParts` | TaskOrganizerApp.java:34-37 | the display line is `"[X] "` or `"[ ] "` by completion, then the description, then `" (Fecha límite: "`, the dd/MM/yyyy date and `")"`; its second character is `X` exactly when the task is completed |
| `Tasks.CsvFields` | TaskOrganizerApp.java:40-43 | splitting a CSV row at commas gives the description's own fields, then `"X"` or `""`, then the dd/MM/yyyy date; the row has as many fields as the description has commas plus three (no escaping) |
| `Tasks.CsvRoundTrip` | TaskOrganizerApp.java:40-43 | a row reads back to the task's description, completion and due date exactly when the description has no comma; with a comma the row no longer has three fields |
| `Tasks.CompletionMark` | TaskOrganizerApp.java:42 | the middle CSV field `(completed ? "X" : "")`; its `ensures` says it holds no comma, and `Tasks.CsvFields` shows it is the row's second-to-last field |
| `Tasks.CompareByDueDate` | TaskOrganizerApp.java:46-51 | the comparator returns -1, 0 or 1; it returns 0 exactly when the due dates are equal, and at most 0 exactly when the first due date is not after the second; nothing else about the tasks matters |
| `Tasks.CompareByDueDateAntisymmetric` | TaskOrganizerApp.java:48-49 | swapping the two tasks negates the comparison |
| `Dates.FormatDate` | TaskOrganizerApp.java:35-36 | the `SimpleDateFormat("dd/MM/yyyy")` rendering; it has no `ensures` on purpose (contracts on the formatter make every rendered row costly to reason about), and its properties are carried by `Dates.FormatDateWidth` and `Dates.FormatParseRoundTrip` |
| `Dates.Compare` | TaskOrganizerApp.java:49 | `Date.compareTo` at day precision returns -1, 0 or 1, and 0 exactly for the same date |
| `Dates.LeqTransitive` | TaskOrganizerApp.java:49 | "not after" is transitive, as the sort requires of its comparator |
| `Dates.LeqTotal` | TaskOrganizerApp.java:49 | any two dates are ordered one way or the other, and ordered both ways only when equal |
| `Dates.FormatDateWidth` | TaskOrganizerApp.java:35-36 | a date with a two-digit day and month and a year below 10000 renders as ten characters with `/` at positions 2 and 5 |
| `Dates.FormatParseRoundTrip` | TaskOrganizerApp.java:41-42 | reading the dd/MM/yyyy text of any date gives back the same date |
| `Text.ZeroPadded` | TaskOrganizerApp.java:36 | the zero-padded numeric field `SimpleDateFormat("dd/MM/yyyy")` prints for `dd`, `MM` and `yyyy` (also at line 42); it has no `ensures` on purpose, and `Text.ZeroPaddedValue` and `Text.ZeroPaddedLength` carry its properties |
| `Text.ZeroPaddedValue` | TaskOrganizerApp.java:35-36 | a zero-padded date field is all digits and denotes the number formatted |
| `Text.ZeroPaddedLength` | TaskOrganizerApp.java:35-36 | a padded field is exactly its width unless the number needs more digits |
| `Text.Decimal` | TaskOrganizerApp.java:70 | Java's conversion of the non-negative int `i + 1` to text; it has no `ensures` on purpose, and `Text.DecimalValue` and `Text.DecimalLength` carry its properties |
| `Text.DecimalLength` | TaskOrganizerApp.java:36 | a number below 10^k prints in at most k digits, which is what makes a day, month and year below 100, 100 and 10000 fill exactly their `dd`, `MM` and `yyyy` widths |
| `Text.DecimalValue` | TaskOrganizerApp.java:70 | the printed task number is a non-empty digit string without a leading zero that denotes the number |
| `Sorting.SortByDueDate` | TaskOrganizerApp.java:66 | the sorted list is a permutation of the stored list (same multiset, same length) |
| `Sorting.SortSorted` | TaskOrganizerApp.java:66 | after the sort no task is due after a task that follows it |
| `Sorting.SortStable` | TaskOrganizerApp.java:66 | for every day, the tasks due on that day appear in the same relative order as before the sort |
| `Sorting.StableSortUnique` | TaskOrganizerApp.java:66 | any list sorted by due date that keeps the per-day order of the stored list equals the model's sorted list |
| `Manager.DistinctPermutation` | TaskOrganizerApp.java:66 | rearranging a list that stores no task twice yields a list that stores no task twice |
| `Manager.TaskManager.constructor` | TaskOrganizerApp.java:56-58 | a new manager holds no tasks |
| `Manager.TaskManager.AddTask` | TaskOrganizerApp.java:60-63 | the list grows by one; the new last task is freshly allocated, pending, and has the given description and due date; earlier tasks and their completion flags are unchanged |
| `Manager.TaskManager.ListTasks` | TaskOrganizerApp.java:65-72 | the stored list is replaced by its stable sort by due date: a permutation, sorted, per-day order kept, no task's flag changed; line k of the listing is `k+1`, `". "` and the display line of the new `tasks[k]` |
| `Manager.ListingLine` | TaskOrganizerApp.java:70 | the listing line `(i + 1) + ". " + tasks.get(i)`; it has no `ensures` on purpose, and `Manager.TaskManager.DisplayLines` (one such line per task, in order) and `Text.DecimalValue` (the number printed) carry its properties |
| `Manager.TaskManager.DisplayLines` | TaskOrganizerApp.java:69-71 | one line per stored task, in storage order, numbered from 1 |
| `Manager.TaskManager.MarkTaskCompleted` | TaskOrganizerApp.java:74-81 | success exactly when `0 <= index < size`; then `tasks[index]` is completed; the list and every other task's flag are unchanged, and an out-of-range index changes nothing |
| `Manager.TaskManager.CsvRows` | TaskOrganizerApp.java:86-88 | exactly one row per stored task, in the current storage order, and row k is `tasks[k]`'s CSV row |
| `Manager.CompleteTaskNumber` | TaskOrganizerApp.java:129-133 | the menu's 1-based number n marks `tasks[n-1]`; it succeeds exactly when `1 <= n <= size`, and nothing else changes |
| `Manager.ListThenComplete` | TaskOrganizerApp.java:114-133 | adding "Buy milk" (01/05/2024) and then "Write report" (15/04/2024), listing, and completing number 1 completes "Write report", which the listing put first; number 5 is rejected |

## Left out

- The interactive menu loop, `Scanner` input and every console message (`TaskOrganizerApp.java:98-147`, and the `println` calls in `addTask`, `listTasks` and `markTaskCompleted`): this is console I/O. The success or failure notice of `markTaskCompleted` is the `ok` result. The listing header line is not modelled.
- Opening `tasks.csv` with `PrintWriter`/`FileWriter`, the platform line separator `println` adds, and the `IOException` path (`TaskOrganizerApp.java:85, 89-93`): this is file I/O. The model gives the rows that would be written, one per line.
- `parseDate` (`TaskOrganizerApp.java:149-157`): it relies on `SimpleDateFormat`'s lenient parsing, whose behaviour is not visible here, and on `new Date()`, the current time. The manager takes the due date as a parameter. `Dates.ParseDate` is a strict reader for the round trip, not a model of `parseDate`.
- Millisecond precision and time zones of `java.util.Date`: due dates are calendar days. In Java, two dates on the same day at different times, such as a parsed date and the current-time fallback, compare as different. The model treats them as equal, which can only change how such ties are ordered.
- The default locale: `new SimpleDateFormat("dd/MM/yyyy")` (`TaskOrganizerApp.java:35, 41`) takes the default locale's calendar, so a Thai locale, for example, prints Buddhist-era years. The model always renders the Gregorian year in ASCII digits.
- Year rendering before year 1 (SimpleDateFormat prints the year of the era) and range checks on day and month: dates are any triple of naturals, and the order and format are defined for all of them.
- `Serializable` (`TaskOrganizerApp.java:6`): a marker interface with no behaviour here.
- The steps of Java's merge sort: the sort is modelled by its result. `Sorting.StableSortUnique` shows that every stable sort by due date gives that result.
- Manager.CompleteTaskNumber: does not model 32-bit wrap-around of `taskIndex - 1`. Only `Integer.MIN_VALUE` wraps, and it becomes `Integer.MAX_VALUE`, which is out of range for any `ArrayList`, so the outcome is the same.
- Manager.TaskManager.DisplayLines: numbers are unbounded integers, so overflow of `i + 1` is not modelled. It cannot happen for a list an `ArrayList` can hold.
