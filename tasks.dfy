/**
 * The task model: a task with its done flag, and the session's ordered, mutable task list.
 */
module Tasks {
  import opened Wrappers

  /** A calendar date as produced by the date utility (year-month-day). */
  datatype Date = Date(year: int, month: int, day: int)

  /** What kind of task this is; the kind never changes after creation. */
  datatype TaskKind = Todo | Deadline(due: Date) | Event(on: Date)

  /** One task: its description, its kind and whether it has been completed. */
  datatype Task = Task(description: string, kind: TaskKind, done: bool)

  /** The task after `markAsDone`: completed, and otherwise the same task. */
  function MarkedDone(t: Task): (r: Task)
    ensures r.done
    ensures r.description == t.description && r.kind == t.kind
    ensures t.done ==> r == t
  {
    t.(done := true)
  }

  /** How many tasks of `tasks` are completed. */
  function DoneCount(tasks: seq<Task>): nat
  {
    if tasks == [] then 0
    else DoneCount(tasks[..|tasks| - 1]) + (if tasks[|tasks| - 1].done then 1 else 0)
  }

  /**
   * The session's task list, 0-indexed. Tasks are held as values, so marking a task
   * done replaces the element at its index.
   */
  class TaskList {
    var items: seq<Task>

    constructor (items: seq<Task>)
      ensures this.items == items
    {
      this.items := items;
    }

    /** `get(index)`: the task at `index`, or `None` where Java throws IndexOutOfBoundsException. */
    method Get(index: int) returns (r: Option<Task>)
      ensures r.Some? <==> 0 <= index < |items|
      ensures r.Some? ==> r.value == items[index]
    {
      if 0 <= index < |items| {
        r := Some(items[index]);
      } else {
        r := None;
      }
    }
  }
}
