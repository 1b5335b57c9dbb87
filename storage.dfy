/**
 * The persistence collaborator. The file itself is not modelled: storage keeps the log of
 * snapshots it has written, and a flag saying whether the disk currently accepts writes.
 */
module Storage {
  import opened Wrappers
  import opened Tasks

  /** A failed write (`StorageException`). */
  datatype StorageError = WriteFailed

  class Storage {
    /** Whether the next write succeeds; stands for the state of the disk. */
    var writable: bool
    /** Every list written so far, oldest first; the last one is the file's content. */
    var saved: seq<seq<Task>>
    /** How many times `save` has been called, whether or not the write succeeded. */
    ghost var calls: nat

    constructor (writable: bool)
      ensures this.writable == writable && saved == [] && calls == 0
    {
      this.writable := writable;
      saved := [];
      calls := 0;
    }

    /** `save(list)`: overwrite the file with the whole list, or fail leaving the file as it was. */
    method Save(list: seq<Task>) returns (r: Outcome<StorageError>)
      modifies this`saved, this`calls
      ensures calls == old(calls) + 1
      ensures r.Pass? <==> writable
      ensures r.Fail? ==> r.error == WriteFailed
      ensures saved == if writable then old(saved) + [list] else old(saved)
    {
      calls := calls + 1;
      if writable {
        saved := saved + [list];
        r := Pass;
      } else {
        r := Fail(WriteFailed);
      }
    }
  }
}
