/** The plugin manager as an object whose maps the lifecycle calls update. */
module Runtime {
  import opened Wrappers
  import opened Ordering
  import opened Lifecycle

  class RuntimeManager {
    const manifests: map<string, Manifest>
    var running: map<string, nat>
    var sandboxConfigs: map<string, Sandbox>

    ghost function Value(): State
      reads this
    {
      State(manifests, running, sandboxConfigs)
    }

    constructor (manifests: map<string, Manifest>)
      ensures Value() == State(manifests, map[], map[])
    {
      this.manifests := manifests;
      running, sandboxConfigs := map[], map[];
    }

    // The loop over the running processes that probes each.
    method FindExited(exited: set<string>) returns (gone: seq<string>)
      ensures forall id :: id in gone <==> id in running && id in exited
    {
      gone := [];
      var unprobed := running.Keys;
      while unprobed != {}
        invariant unprobed <= running.Keys
        invariant forall id :: id in gone <==> id in running && id !in unprobed && id in exited
        decreases |unprobed|
      {
        var id :| id in unprobed;
        unprobed := unprobed - {id};
        if id in exited {
          gone := gone + [id];
        }
      }
    }

    // Processes found to have exited are removed one by one; the others stay as they are.
    method ReconcileExited(exited: set<string>)
      modifies this`running
      ensures Value() == Reconcile(old(Value()), exited)
      ensures forall id :: id in running <==> id in old(running) && id !in exited
      ensures forall id :: id in running ==> running[id] == old(running)[id]
    {
      var gone := FindExited(exited);
      for i := 0 to |gone|
        invariant forall id :: id in running <==> id in old(running) && id !in gone[..i]
        invariant forall id :: id in running ==> running[id] == old(running)[id]
      {
        running := running - {gone[i]};
      }
      assert gone[..|gone|] == gone;
      assert running == old(running) - exited;
    }

    method Start(id: string, c: Chance) returns (result: Result<(), Failure>)
      modifies this
      ensures (Value(), result) == Lifecycle.Start(old(Value()), id, c)
    {
      ReconcileExited(c.exited);
      if id in running {
        return Ok(());
      }
      if id !in manifests {
        return Err(UnknownPlugin(id));
      }
      sandboxConfigs := sandboxConfigs[id := ResolveSandbox(manifests[id])];
      if c.pid.None? {
        return Err(SpawnFailed);
      }
      running := running[id := c.pid.value];
      result := Ok(());
    }

    method Stop(id: string, c: Chance) returns (result: Result<(), Failure>)
      modifies this
      ensures (Value(), result) == Lifecycle.Stop(old(Value()), id, c)
    {
      ReconcileExited(c.exited);
      if id !in running {
        return Ok(());
      }
      running := running - {id};
      if !c.stopped {
        return Err(StopFailed);
      }
      sandboxConfigs := sandboxConfigs - {id};
      result := Ok(());
    }

    method Restart(id: string, stop: Chance, start: Chance) returns (result: Result<(), Failure>)
      modifies this
      ensures (Value(), result) == Lifecycle.Restart(old(Value()), id, stop, start)
    {
      result := Stop(id, stop);
      if result.Ok? {
        result := Start(id, start);
      }
    }

    // The loop of `start_all`, which returns at the first failure.
    method StartInOrder(ids: seq<string>, chances: string -> Chance) returns (result: Result<(), Failure>)
      modifies this
      ensures (Value(), result) == StartEach(old(Value()), ids, chances)
    {
      for i := 0 to |ids|
        invariant StartEach(Value(), ids[i..], chances) == StartEach(old(Value()), ids, chances)
      {
        assert ids[i..][1..] == ids[i + 1..];
        result := Start(ids[i], chances(ids[i]));
        if result.Err? {
          return;
        }
      }
      result := Ok(());
    }

    method StartAll(chances: string -> Chance) returns (result: Result<(), Failure>)
      modifies this
      ensures (Value(), result) == StartEach(old(Value()), Sorted(manifests.Keys), chances)
    {
      result := StartInOrder(Sorted(manifests.Keys), chances);
    }

    method StopInOrder(ids: seq<string>, chances: string -> Chance) returns (result: Result<(), Failure>)
      modifies this
      ensures (Value(), result) == StopEach(old(Value()), ids, chances)
    {
      for i := 0 to |ids|
        invariant StopEach(Value(), ids[i..], chances) == StopEach(old(Value()), ids, chances)
      {
        assert ids[i..][1..] == ids[i + 1..];
        result := Stop(ids[i], chances(ids[i]));
        if result.Err? {
          return;
        }
      }
      result := Ok(());
    }

    // The ids are those that run before the first probe.
    method StopAll(chances: string -> Chance) returns (result: Result<(), Failure>)
      modifies this
      ensures (Value(), result) == StopEach(old(Value()), Sorted(old(running).Keys), chances)
    {
      result := StopInOrder(Sorted(running.Keys), chances);
    }

    method Statuses(ids: seq<string>) returns (statuses: seq<Status>)
      requires forall i :: 0 <= i < |ids| ==> ids[i] in manifests
      ensures |statuses| == |ids| && forall i :: 0 <= i < |ids| ==> statuses[i] == StatusOf(Value(), ids[i])
    {
      statuses := [];
      for i := 0 to |ids|
        invariant |statuses| == i && forall j :: 0 <= j < i ==> statuses[j] == StatusOf(Value(), ids[j])
      {
        var id := ids[i];
        var pid := if id in running then Some(running[id]) else None;
        statuses := statuses + [Status(id, manifests[id].version, manifests[id].entrypoint, pid.Some?, pid)];
      }
    }

    // One entry for each manifest, in ascending order of ids.
    method List(exited: set<string>) returns (statuses: seq<Status>)
      modifies this`running
      ensures Value() == Reconcile(old(Value()), exited)
      ensures Listing(Value(), statuses)
    {
      ReconcileExited(exited);
      var ids := Sorted(manifests.Keys);
      assert forall i :: 0 <= i < |ids| ==> ids[i] in ids && ids[i] in manifests.Keys;
      statuses := Statuses(ids);
      ListingOfSorted(Value(), statuses);
    }
  }
}
