/** The fatal conditions of the seeding tool and the failure-carrying results
    its steps return. Every one of them ends the process in the tool (a
    panic); here they are values passed back to the entry point.
    The "invalid size" panic of the batch writer has no value here: the
    model proves it cannot happen (see Batch.FillEntities). */
module Faults {

  datatype Fault =
    | EmptyProjectName          // the project_name flag is ""
    | EmptyNamespace            // the namespace flag is ""
    | EmptyKind                 // the kind flag is ""
    | ConnectFailed             // the datastore client could not be created
    | PutFailed(lo: nat, hi: nat)  // the batch write of entities [lo, hi) failed
    | QueryFailed               // the count aggregation query failed

  /** A step that produces no value: it passes or stops with a fault. */
  datatype Outcome = Pass | Fail(fault: Fault)

  /** A step that produces a value or stops with a fault. */
  datatype Result<T> = Success(value: T) | Failure(fault: Fault)
}
