/** Tk's after/after_cancel, as seen by one component: the handles of the
    callbacks that are scheduled and have not yet run, and the next fresh
    handle. A callback runs at most once, and only while its handle is
    pending; cancelling a handle that already ran does nothing. */
module Scheduler {

  datatype Jobs = Jobs(pending: set<nat>, next: nat)

  const NoJobs: Jobs := Jobs({}, 0)

  /** Every pending handle was handed out before. */
  predicate Valid(j: Jobs) {
    forall id :: id in j.pending ==> id < j.next
  }

  /** Schedules a callback and returns its handle, which is new. */
  function After(j: Jobs): (r: (Jobs, nat))
    ensures r.0.pending == j.pending + {r.1}
    ensures Valid(j) ==> r.1 !in j.pending && Valid(r.0)
    ensures r.0.next > j.next
  {
    (Jobs(j.pending + {j.next}, j.next + 1), j.next)
  }

  /** A handle leaves the pending set, because its callback ran or because it
      was cancelled. */
  function Remove(j: Jobs, id: nat): (r: Jobs)
    ensures r.pending == j.pending - {id}
    ensures Valid(j) ==> Valid(r)
    ensures r.next == j.next
  {
    j.(pending := j.pending - {id})
  }

}
