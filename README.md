# Directive pipeline of a command-line task tracker

This project models two pieces of the pipeline that turns a line of user input into a change
to the task list:

- **Add-directive parsing** (`AddDirectiveParser`). An argument is an action plus a map from
  option flag to value. An absent option reads as the empty string. The parser checks the
  description (`/d`) first, then dispatches on the action. A deadline needs a date after
  `/by`, an event a date after `/at`. Each failure is one error kind (`InputError`) whose
  variant names the reason: missing description, missing date (with the flag), bad date
  format, or invalid task. Parsing is a pure function.
- **The done directive** (`DoneDirective`). It holds a 0-based index. `Execute` looks the
  task up in the mutable `TaskList`, marks it done in place, saves the whole list through
  `Storage`, and reports the marked task. An index with no task fails with the user's
  1-based number (`index + 1`, on Java `int`) and changes nothing. A failed save is passed
  on as a storage error; the task stays marked in memory.

Files: `wrappers.dfy` (Option, Result, Outcome), `argument.dfy` (actions and option lookup),
`tasks.dfy` (dates, tasks, the task list), `storage.dfy` (the persistence collaborator),
`add_directive_parser.dfy`, `done_directive.dfy`.

Collaborators the core calls but does not own are modelled as follows:

- The date utility is a parameter `parseDate: string -> Option<Date>`. `None` stands for its
  `DateTimeParseException`.
- Storage is a class with a `writable` flag (the state of the disk) and the log `saved` of
  every list it has written. A save either appends the whole list to the log or fails and
  leaves the log alone. A ghost counter records every call to save, successful or not.
- Exceptions are `Result` values. `IndexOutOfBoundsException` from the list lookup becomes
  `None` from `TaskList.Get`.

## Model

| member | source | states |
|---|---|---|
| `AddDirectiveParser.Parse` | src/main/java/rogue/logic/parser/AddDirectiveParser.java:52-72 | an empty `/d` fails with the missing-description error whatever the action; a success is a well-formed directive (an add action, non-empty description, a date exactly when not a todo) with the argument's action and the exact `/d` string; the invalid-task error arises exactly for a non-add action with a description |
| `AddDirectiveParser.ParseDeadline` | src/main/java/rogue/logic/parser/AddDirectiveParser.java:74-88 | fails with the missing-date error naming `/by` exactly when `/by` is empty; fails with the date-format error exactly when `/by` is non-empty and does not parse; succeeds exactly when `/by` is non-empty and parses, and then yields a deadline with the given description and the parsed date |
| `AddDirectiveParser.ParseEvent` | src/main/java/rogue/logic/parser/AddDirectiveParser.java:90-104 | fails with the missing-date error naming `/at` exactly when `/at` is empty; fails with the date-format error exactly when `/at` is non-empty and does not parse; succeeds exactly when `/at` is non-empty and parses, and then yields an event with the given description and the parsed date |
| `AddDirectiveParser.TodoNeedsNoDate` | src/main/java/rogue/logic/parser/AddDirectiveParser.java:60-61 | a todo with a description always succeeds as `(ADD_TODO, description)` with no date, whatever the date options or the date parser |
| `AddDirectiveParser.MissingDateNamesFlag` | src/main/java/rogue/logic/parser/AddDirectiveParser.java:74-95 | with a description, a deadline with empty `/by` fails with the missing-date error naming `"/by"`, an event with empty `/at` the one naming `"/at"` |
| `AddDirectiveParser.UnparseableDateIsFormatError` | src/main/java/rogue/logic/parser/AddDirectiveParser.java:81-103 | a non-empty date the parser rejects gives the incorrect-date-format error; no parse failure escapes |
| `AddDirectiveParser.DatedSuccess` | src/main/java/rogue/logic/parser/AddDirectiveParser.java:63-103 | a deadline or event succeeds if and only if the description and its date option are non-empty and the date parses; the directive then carries the action, the exact `/d` string and the date the parser returned for that option |
| `AddDirectiveParser.OtherActionIsInvalidTask` | src/main/java/rogue/logic/parser/AddDirectiveParser.java:69-70 | any non-add action with a description fails with the invalid-task error |
| `AddDirectiveParser.ParseReadsOnlyItsOptions` | src/main/java/rogue/logic/parser/AddDirectiveParser.java:52-105 | two arguments with the same action, the same `/d`, and (for a dated action) the same value of its date flag and the same parser answer on it, parse to the same result: parsing reads nothing else |
| `AddDirectiveParser.OtherDateFlagIgnored` | src/main/java/rogue/logic/parser/AddDirectiveParser.java:74-95 | supplying `/at` to a deadline or `/by` to an event does not change the result |
| `AddDirectiveParser.EmptyOptionIsAbsent` | src/main/java/rogue/logic/parser/AddDirectiveParser.java:53-57 | an option given with an empty value parses the same as an option never given |
| `AddDirectiveParser.DeadlineExample` | src/main/java/rogue/logic/parser/AddDirectiveParser.java:63-84 | a deadline "submit report" with `/by 2024-03-01` stores exactly the date the parser returns for that string |
| `Tasks.MarkedDone` | src/main/java/rogue/logic/directives/DoneDirective.java:46 | a marked task is done and keeps its description and kind; marking a done task changes nothing |
| `Tasks.TaskList.Get` | src/main/java/rogue/logic/directives/DoneDirective.java:46-52 | the lookup yields the task at the index exactly when `0 <= index < size`, and otherwise the out-of-bounds case |
| `Storage.Storage.Save` | src/main/java/rogue/logic/directives/DoneDirective.java:48 | every call is counted; a save succeeds exactly when the disk is writable; on success the whole list is appended to the saved log, on failure the log is unchanged |
| `DoneDirective.UserNumber` | src/main/java/rogue/logic/directives/DoneDirective.java:52 | the echoed number is `index + 1`, except that `Integer.MAX_VALUE` wraps to `Integer.MIN_VALUE` as Java `int` addition does |
| `DoneDirective.MarkDoneAt` | src/main/java/rogue/logic/directives/DoneDirective.java:46 | marking at an index exists exactly for `0 <= index < size`; the length is kept, the task at the index is marked done, every other task is unchanged |
| `DoneDirective.MarkDoneAtCount` | src/main/java/rogue/logic/directives/DoneDirective.java:46 | marking completes exactly one more task, or none if the task was already done |
| `DoneDirective.MarkDoneAtIdempotent` | src/main/java/rogue/logic/directives/DoneDirective.java:46 | marking the same task twice gives the same list as marking it once |
| `DoneDirective.DoneDirective.constructor` | src/main/java/rogue/logic/directives/DoneDirective.java:28-30 | the index is stored unchanged (a constant, so lookup, mark and report all use it) |
| `DoneDirective.DoneDirective.Execute` | src/main/java/rogue/logic/directives/DoneDirective.java:43-54 | out of range: the index error with `index + 1`, list and saved log unchanged, save never called; in range: save is called exactly once and the list becomes the marked list; if the save succeeds, that whole marked list is saved exactly once and the report carries the marked task; if it fails, the storage error is returned, nothing is saved and the task stays marked |
| `DoneDirective.MarkOnlyTask` | src/main/java/rogue/logic/directives/DoneDirective.java:43-50 | on the list `[todo "read book"]`, index 0 reports the task done and saves one one-element list holding it |
| `DoneDirective.MarkInEmptyList` | src/main/java/rogue/logic/directives/DoneDirective.java:45-52 | on an empty list, index 0 fails with task number 1 and nothing is saved |

## Left out

- The message texts of errors and reports. Errors carry only their parameter (the flag name or the 1-based task number). The success report carries the marked task itself, because `Task.toString` is not part of this model.
- Date parsing and its calendar rules. The date utility is an arbitrary function parameter.
- The body of `Storage.save` and the file format. Storage records the lists it was given, and a flag decides whether a write fails.
- `Ui`. `execute` does not use it.
- Tokenising input into an `Argument`. The exact list of actions is not part of this model: the add actions are modelled exactly; `Done`, `Delete`, `List`, `Find` and `Exit` stand for the others.
- The dispatcher that picks a parser per action, and the other directives. They are outside this core.
- Task object identity. Tasks are values in the list, so marking replaces the element at the index. Aliasing of one task object by other references is not modelled.
- When the save fails, the task stays marked in memory; nothing undoes the mark.
- Unchecked exceptions from `storage.save` or from the second lookup. In the source the `try` covers both, so an `IndexOutOfBoundsException` raised there would surface as the index error after the task was marked. Here a save can fail only with a write failure, and the second lookup cannot fail, so that path is not modelled.
