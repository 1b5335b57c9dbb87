/**
 * The directive that marks one task of the list as done and then saves the whole list.
 */
module DoneDirective {
  import opened Wrappers
  import opened Tasks
  import opened Storage

  /** Java's `int`: the directive's index and the number echoed back to the user. */
  newtype Int32 = x: int | -0x8000_0000 <= x < 0x8000_0000

  const INT32_MIN: int := -0x8000_0000
  const INT32_MAX: int := 0x7fff_ffff

  /** Two's-complement truncation of an integer to 32 bits, as Java's `int` arithmetic does. */
  function Wrap32(x: int): (r: Int32)
    ensures (r as int - x) % 0x1_0000_0000 == 0
    ensures INT32_MIN <= x <= INT32_MAX ==> r as int == x
  {
    ((x - INT32_MIN) % 0x1_0000_0000 + INT32_MIN) as Int32
  }

  /** The 1-based task number shown to the user: `index + 1` evaluated on Java `int`. */
  function UserNumber(index: Int32): (n: Int32)
    ensures index as int < INT32_MAX ==> n as int == index as int + 1
    ensures index as int == INT32_MAX ==> n as int == INT32_MIN
  {
    Wrap32(index as int + 1)
  }

  /** The success report; it carries the task as it is after marking (its text is not modelled). */
  datatype Report = TaskDone(task: Task)

  /**
   * The two failures of `execute`: `ExecutionException` for an index with no task, echoing
   * the user's 1-based number, and a `StorageException` passed on unchanged.
   */
  datatype DoneError = IndexNotFound(number: Int32) | StorageFailed(cause: StorageError)

  /**
   * The list after marking the task at `index` done, or `None` when there is no such task.
   * Exactly the element at `index` changes, and only in its done flag.
   */
  function MarkDoneAt(tasks: seq<Task>, index: int): (r: Option<seq<Task>>)
    ensures r.Some? <==> 0 <= index < |tasks|
    ensures r.Some? ==> |r.value| == |tasks|
    ensures r.Some? ==> r.value[index] == MarkedDone(tasks[index])
    ensures r.Some? ==> forall j :: 0 <= j < |tasks| && j != index ==> r.value[j] == tasks[j]
  {
    if 0 <= index < |tasks| then Some(tasks[index := MarkedDone(tasks[index])]) else None
  }

  /** Marking a task done completes one more task, or none if it was already done. */
  lemma {:induction false} MarkDoneAtCount(tasks: seq<Task>, index: int)
    requires 0 <= index < |tasks|
    ensures DoneCount(MarkDoneAt(tasks, index).value)
         == DoneCount(tasks) + (if tasks[index].done then 0 else 1)
  {
    var marked := MarkDoneAt(tasks, index).value;
    var n := |tasks| - 1;
    if index == n {
      assert marked[..n] == tasks[..n];
    } else {
      assert marked[..n] == MarkDoneAt(tasks[..n], index).value;
      MarkDoneAtCount(tasks[..n], index);
    }
  }

  /** Marking the same task twice leaves the list as marking it once. */
  lemma MarkDoneAtIdempotent(tasks: seq<Task>, index: int)
    requires 0 <= index < |tasks|
    ensures MarkDoneAt(MarkDoneAt(tasks, index).value, index) == MarkDoneAt(tasks, index)
  {
    var once := MarkDoneAt(tasks, index).value;
    assert MarkDoneAt(once, index).value == once;
  }

  class DoneDirective {
    /** The 0-based index of the task to mark, fixed at construction. */
    const index: Int32

    constructor (index: Int32)
      ensures this.index == index
    {
      this.index := index;
    }

    /**
     * `execute`: look the task up, mark it done, save the whole list, then report the task.
     * An index with no task fails before anything is changed or saved; a failed save is
     * passed on with the task already marked in memory.
     */
    method Execute(storage: Storage, tasks: TaskList) returns (r: Result<Report, DoneError>)
      modifies tasks, storage`saved, storage`calls
      ensures MarkDoneAt(old(tasks.items), index as int).None? ==>
                && r == Failure(IndexNotFound(UserNumber(index)))
                && tasks.items == old(tasks.items)
                && storage.saved == old(storage.saved)
                && storage.calls == old(storage.calls)
      ensures MarkDoneAt(old(tasks.items), index as int).Some? ==>
                && tasks.items == MarkDoneAt(old(tasks.items), index as int).value
                && storage.calls == old(storage.calls) + 1
      ensures MarkDoneAt(old(tasks.items), index as int).Some? && storage.writable ==>
                && storage.saved == old(storage.saved) + [tasks.items]
                && r == Success(TaskDone(tasks.items[index]))
      ensures MarkDoneAt(old(tasks.items), index as int).Some? && !storage.writable ==>
                && storage.saved == old(storage.saved)
                && r == Failure(StorageFailed(WriteFailed))
    {
      var task := tasks.Get(index as int);
      if task.None? {
        return Failure(IndexNotFound(UserNumber(index)));
      }
      tasks.items := tasks.items[index := MarkedDone(task.value)];
      var saved := storage.Save(tasks.items);
      if saved.Fail? {
        return Failure(StorageFailed(saved.error));
      }
      var marked := tasks.Get(index as int);
      return Success(TaskDone(marked.value));
    }
  }

  /** One todo "read book", marked: it is done, saved once as a one-element list, and reported. */
  method MarkOnlyTask() returns (r: Result<Report, DoneError>, saved: seq<seq<Task>>)
    ensures r == Success(TaskDone(Task("read book", Todo, true)))
    ensures saved == [[Task("read book", Todo, true)]]
  {
    var tasks := new TaskList([Task("read book", Todo, false)]);
    var storage := new Storage(true);
    var done := new DoneDirective(0);
    r := done.Execute(storage, tasks);
    assert tasks.items == [Task("read book", Todo, true)];
    saved := storage.saved;
  }

  /** On an empty list, `done` of index 0 reports task #1 missing and saves nothing. */
  method MarkInEmptyList() returns (r: Result<Report, DoneError>, saved: seq<seq<Task>>)
    ensures r == Failure(IndexNotFound(1))
    ensures saved == []
  {
    var tasks := new TaskList([]);
    var storage := new Storage(true);
    var done := new DoneDirective(0);
    r := done.Execute(storage, tasks);
    saved := storage.saved;
  }
}
