/** The entry point `main`: check the three configuration values, connect to
    the store, seed it with ten records, then ask it how many records of the
    kind the namespace holds. The connection, the writes and the count query
    belong to the store's client; their outcomes are inputs here. */
module Entry {
  import opened Faults
  import opened Items
  import opened Batch

  /** The number of records main seeds the store with. */
  const SeedCount: nat := 10

  /** The configuration checks of main, in their order: project name, then
      namespace, then kind; the first empty one is the fault reported. */
  function CheckFlags(projectName: string, namespace: string, kind: string): (r: Outcome)
    ensures r == Pass <==> projectName != "" && namespace != "" && kind != ""
    ensures r == Fail(EmptyProjectName) <==> projectName == ""
    ensures r == Fail(EmptyNamespace) <==> projectName != "" && namespace == ""
    ensures r == Fail(EmptyKind) <==> projectName != "" && namespace != "" && kind == ""
  {
    if projectName == "" then Fail(EmptyProjectName)
    else if namespace == "" then Fail(EmptyNamespace)
    else if kind == "" then Fail(EmptyKind)
    else Pass
  }

  /** A whole run of the tool. `connected` is whether the store client could
      be created, `rejects` decides the store's answer to each multi-put,
      `queryFails` whether the count query fails and `stored` the count it
      reports otherwise. `calls` logs the multi-puts issued; a successful run
      yields the count the tool prints. */
  method Run(projectName: string, namespace: string, kind: string, connected: bool,
             yesterday: nat -> Instant, uuids: nat -> string,
             rejects: Store,
             queryFails: bool, stored: nat)
    returns (calls: seq<Window>, res: Result<nat>)
    // An empty flag stops the run before any connection or write.
    ensures CheckFlags(projectName, namespace, kind) != Pass ==>
              calls == [] && res == Failure(CheckFlags(projectName, namespace, kind).fault)
    ensures CheckFlags(projectName, namespace, kind) == Pass && !connected ==>
              calls == [] && res == Failure(ConnectFailed)
    // Once connected, all ten records go out in a single multi-put.
    ensures CheckFlags(projectName, namespace, kind) == Pass && connected ==>
              calls == [Window(0, SeedCount)]
    ensures var es := Entities(SeedCount, kind, namespace, yesterday, uuids);
            CheckFlags(projectName, namespace, kind) == Pass && connected ==>
              if rejects(Window(0, SeedCount), Ids(es), es) then res == Failure(PutFailed(0, SeedCount))
              else if queryFails then res == Failure(QueryFailed)
              else res == Success(stored)
  {
    var flags := CheckFlags(projectName, namespace, kind);
    if flags != Pass {
      return [], Failure(flags.fault);
    }
    if !connected {
      return [], Failure(ConnectFailed);
    }
    var filled;
    calls, filled := FillEntities(SeedCount, kind, namespace, yesterday, uuids, rejects);
    ghost var es := Entities(SeedCount, kind, namespace, yesterday, uuids);
    TenRecordsOneCall();
    assert Ids(es)[0..SeedCount] == Ids(es) && es[0..SeedCount] == es;
    assert Refused(rejects, Ids(es), es, Window(0, SeedCount)) == rejects(Window(0, SeedCount), Ids(es), es);
    if filled != Pass {
      return calls, Failure(filled.fault);
    }
    assert !Refused(rejects, Ids(es), es, Windows(SeedCount, Limit)[0]);
    if queryFails {
      return calls, Failure(QueryFailed);
    }
    return calls, Success(stored);
  }
}
