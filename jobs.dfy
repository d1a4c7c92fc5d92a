/**
 * The `(source, destination)` work items and the queue the watchers feed
 * and the processing loop drains (`put_nowait`, `get_nowait`, `empty`).
 */
module Jobs {
  import opened Wrappers

  /** A source path and the destination it should end up at. */
  type Job = (string, string)

  /** First-in first-out queue of jobs. */
  class JobQueue {
    var items: seq<Job>

    constructor ()
      ensures items == []
    {
      items := [];
    }

    function Empty(): bool
      reads this
    {
      items == []
    }

    /** `put_nowait`: the queue is unbounded, so this always succeeds. */
    method PutNowait(job: Job)
      modifies this
      ensures items == old(items) + [job]
    {
      items := items + [job];
    }

    /** `get_nowait`: the oldest job, or `None` where Python raises
        `QueueEmpty`. */
    method GetNowait() returns (job: Option<Job>)
      modifies this
      ensures old(items) == [] ==> job == None && items == []
      ensures old(items) != [] ==> job == Some(old(items)[0]) && items == old(items)[1..]
    {
      if items == [] {
        return None;
      }
      job := Some(items[0]);
      items := items[1..];
    }
  }
}
