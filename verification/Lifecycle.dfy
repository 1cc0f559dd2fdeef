/** The plugin lifecycle: which plugins run, and with which sandbox. Processes exit at any time,
  * spawning may fail and stopping may fail or time out. */
module Lifecycle {
  import opened Wrappers
  import opened Ordering

  datatype Capability = ModelInvoke | McpSpawn | NetworkEgress | FsRead | FsWrite | AuditEmit

  datatype Manifest = Manifest(id: string, version: string, entrypoint: string, capabilities: seq<Capability>)

  // The two families of profiles a plugin may get.
  datatype Sandbox = ModelRuntimeProfiles(pluginDir: string, logDir: string) | McpPluginProfiles(pluginDir: string)

  const PLUGIN_DIR := "/opt/llmos/plugins"

  function ResolveSandbox(m: Manifest): Sandbox {
    if NetworkEgress in m.capabilities then ModelRuntimeProfiles(PLUGIN_DIR, "/var/log/llmos/" + m.id)
    else McpPluginProfiles(PLUGIN_DIR)
  }

  datatype State = State(manifests: map<string, Manifest>, running: map<string, nat>, configs: map<string, Sandbox>)

  datatype Failure = UnknownPlugin(id: string) | SpawnFailed | StopFailed

  // What the system does during one call for one plugin: the processes whose exit the probe
  // notices, the pid a spawn gives if it succeeds, and whether a stop succeeds.
  datatype Chance = Chance(exited: set<string>, pid: Option<nat>, stopped: bool)

  datatype Status = Status(id: string, version: string, entrypoint: string, running: bool, pid: Option<nat>)

  function Reconcile(s: State, exited: set<string>): State {
    s.(running := s.running - exited)
  }

  function Start(s: State, id: string, c: Chance): (State, Result<(), Failure>) {
    var s1 := Reconcile(s, c.exited);
    if id in s1.running then (s1, Ok(()))
    else if id !in s1.manifests then (s1, Err(UnknownPlugin(id)))
    else
      var s2 := s1.(configs := s1.configs[id := ResolveSandbox(s1.manifests[id])]);
      match c.pid
      case None => (s2, Err(SpawnFailed))
      case Some(pid) => (s2.(running := s2.running[id := pid]), Ok(()))
  }

  function Stop(s: State, id: string, c: Chance): (State, Result<(), Failure>) {
    var s1 := Reconcile(s, c.exited);
    if id !in s1.running then (s1, Ok(()))
    else
      var s2 := s1.(running := s1.running - {id});
      if !c.stopped then (s2, Err(StopFailed))
      else (s2.(configs := s2.configs - {id}), Ok(()))
  }

  function Restart(s: State, id: string, stop: Chance, start: Chance): (State, Result<(), Failure>) {
    var (s1, stopped) := Stop(s, id, stop);
    if stopped.Err? then (s1, stopped) else Start(s1, id, start)
  }

  // One plugin after the other, up to the first failure.
  function StartEach(s: State, ids: seq<string>, chances: string -> Chance): (State, Result<(), Failure>)
    decreases |ids|
  {
    if ids == [] then (s, Ok(()))
    else
      var (s1, started) := Start(s, ids[0], chances(ids[0]));
      if started.Err? then (s1, started) else StartEach(s1, ids[1..], chances)
  }

  function StopEach(s: State, ids: seq<string>, chances: string -> Chance): (State, Result<(), Failure>)
    decreases |ids|
  {
    if ids == [] then (s, Ok(()))
    else
      var (s1, stopped) := Stop(s, ids[0], chances(ids[0]));
      if stopped.Err? then (s1, stopped) else StopEach(s1, ids[1..], chances)
  }

  function StatusOf(s: State, id: string): Status
    requires id in s.manifests
  {
    var m := s.manifests[id];
    Status(id, m.version, m.entrypoint, id in s.running, if id in s.running then Some(s.running[id]) else None)
  }

  predicate Tells(s: State, status: Status)
    requires status.id in s.manifests
  {
    && status.version == s.manifests[status.id].version && status.entrypoint == s.manifests[status.id].entrypoint
    && (status.running <==> status.id in s.running) && (status.running <==> status.pid.Some?)
    && (status.id in s.running ==> status.pid == Some(s.running[status.id]))
  }

  // A list has exactly one entry for each manifest, in strictly ascending order, and each entry
  // tells whether that plugin runs and as which process.
  ghost predicate Listing(s: State, statuses: seq<Status>) {
    && (forall i :: 0 <= i < |statuses| ==> statuses[i].id in s.manifests && Tells(s, statuses[i]))
    && (forall i, j :: 0 <= i < j < |statuses| ==> Before(statuses[i].id, statuses[j].id))
    && (forall id :: id in s.manifests ==> exists i :: 0 <= i < |statuses| && statuses[i].id == id)
  }

  ghost predicate StatusesOf(s: State, ids: seq<string>, statuses: seq<Status>) {
    && |statuses| == |ids|
    && forall i :: 0 <= i < |ids| ==> ids[i] in s.manifests && statuses[i] == StatusOf(s, ids[i])
  }

  lemma StatusesTell(s: State, ids: seq<string>, statuses: seq<Status>)
    requires StatusesOf(s, ids, statuses)
    ensures forall i :: 0 <= i < |statuses| ==>
      statuses[i].id == ids[i] && statuses[i].id in s.manifests && Tells(s, statuses[i])
  {}

  lemma StatusIsListed(s: State, ids: seq<string>, statuses: seq<Status>, id: string)
    requires StatusesOf(s, ids, statuses) && id in ids
    ensures exists i :: 0 <= i < |statuses| && statuses[i].id == id
  {
    var i :| 0 <= i < |ids| && ids[i] == id;
    assert statuses[i].id == id;
  }

  lemma ListingOfSorted(s: State, statuses: seq<Status>)
    requires StatusesOf(s, Sorted(s.manifests.Keys), statuses)
    ensures Listing(s, statuses)
  {
    var ids := Sorted(s.manifests.Keys);
    StatusesTell(s, ids, statuses);
    assert Ascending(ids) && forall id :: id in s.manifests.Keys ==> id in ids;
    forall id | id in s.manifests ensures exists i :: 0 <= i < |statuses| && statuses[i].id == id {
      StatusIsListed(s, ids, statuses, id);
    }
  }

  // ---- every reachable state ----

  ghost predicate Inv(s: State) {
    && s.running.Keys <= s.configs.Keys <= s.manifests.Keys
    && forall id :: id in s.configs ==> id in s.manifests && s.configs[id] == ResolveSandbox(s.manifests[id])
  }

  datatype Step =
    | DoStart(id: string, c: Chance)
    | DoStop(id: string, c: Chance)
    | DoRestart(id: string, stop: Chance, start: Chance)
    | DoStartAll(chances: string -> Chance)
    | DoStopAll(chances: string -> Chance)
    | DoList(exited: set<string>)

  ghost function Next(s: State, step: Step): State {
    match step
    case DoStart(id, c) => Start(s, id, c).0
    case DoStop(id, c) => Stop(s, id, c).0
    case DoRestart(id, stop, start) => Restart(s, id, stop, start).0
    case DoStartAll(chances) => StartEach(s, Sorted(s.manifests.Keys), chances).0
    case DoStopAll(chances) => StopEach(s, Sorted(s.running.Keys), chances).0
    case DoList(exited) => Reconcile(s, exited)
  }

  ghost function Run(s: State, steps: seq<Step>): State {
    if steps == [] then s else Next(Run(s, steps[..|steps| - 1]), steps[|steps| - 1])
  }

  lemma StartKeepsInv(s: State, id: string, c: Chance)
    requires Inv(s)
    ensures Inv(Start(s, id, c).0) && Start(s, id, c).0.manifests == s.manifests
  {}

  lemma StopKeepsInv(s: State, id: string, c: Chance)
    requires Inv(s)
    ensures Inv(Stop(s, id, c).0) && Stop(s, id, c).0.manifests == s.manifests
  {}

  lemma {:induction false} StartEachKeepsInv(s: State, ids: seq<string>, chances: string -> Chance)
    requires Inv(s)
    ensures Inv(StartEach(s, ids, chances).0)
    decreases |ids|
  {
    if ids != [] {
      StartKeepsInv(s, ids[0], chances(ids[0]));
      StartEachKeepsInv(Start(s, ids[0], chances(ids[0])).0, ids[1..], chances);
    }
  }

  lemma {:induction false} StopEachKeepsInv(s: State, ids: seq<string>, chances: string -> Chance)
    requires Inv(s)
    ensures Inv(StopEach(s, ids, chances).0)
    decreases |ids|
  {
    if ids != [] {
      StopKeepsInv(s, ids[0], chances(ids[0]));
      StopEachKeepsInv(Stop(s, ids[0], chances(ids[0])).0, ids[1..], chances);
    }
  }

  lemma NextKeepsInv(s: State, step: Step)
    requires Inv(s)
    ensures Inv(Next(s, step))
  {
    match step
    case DoStart(id, c) => StartKeepsInv(s, id, c);
    case DoStop(id, c) => StopKeepsInv(s, id, c);
    case DoRestart(id, stop, start) =>
      StopKeepsInv(s, id, stop);
      StartKeepsInv(Stop(s, id, stop).0, id, start);
    case DoStartAll(chances) => StartEachKeepsInv(s, Sorted(s.manifests.Keys), chances);
    case DoStopAll(chances) => StopEachKeepsInv(s, Sorted(s.running.Keys), chances);
    case DoList(exited) =>
  }

  // Whatever happens, only plugins with a sandbox configuration run, only known plugins have
  // one, and it is the one resolved from the plugin's own manifest.
  lemma {:induction false} ReachableInv(manifests: map<string, Manifest>, steps: seq<Step>)
    ensures Inv(Run(State(manifests, map[], map[]), steps))
  {
    if steps != [] {
      var n := |steps| - 1;
      ReachableInv(manifests, steps[..n]);
      NextKeepsInv(Run(State(manifests, map[], map[]), steps[..n]), steps[n]);
    }
  }

  // So in every reachable state only a plugin that declares network egress has the permissive
  // profiles, and no two manifest ids share a log directory.
  lemma ProfilesFollowCapabilities(s: State, id: string, other: string)
    requires Inv(s) && id in s.configs && other in s.configs
    ensures id in s.manifests && other in s.manifests
    ensures s.configs[id].ModelRuntimeProfiles? <==> NetworkEgress in s.manifests[id].capabilities
    ensures s.configs[id].pluginDir == "/opt/llmos/plugins"
    ensures s.configs[id].ModelRuntimeProfiles? ==> s.configs[id].logDir == "/var/log/llmos/" + s.manifests[id].id
    ensures s.configs[id].ModelRuntimeProfiles? && s.configs[id] == s.configs[other] ==>
      s.manifests[id].id == s.manifests[other].id
  {
    var prefix, a, b := "/var/log/llmos/", s.manifests[id].id, s.manifests[other].id;
    assert (prefix + a)[|prefix|..] == a && (prefix + b)[|prefix|..] == b;
  }

  // ---- what the calls achieve ----

  lemma {:induction false} StopEachStops(s: State, ids: seq<string>, chances: string -> Chance)
    ensures var (after, result) := StopEach(s, ids, chances);
      after.running.Keys <= s.running.Keys && (result.Ok? ==> forall id :: id in ids ==> id !in after.running)
    decreases |ids|
  {
    if ids != [] {
      var s1 := Stop(s, ids[0], chances(ids[0])).0;
      StopEachStops(s1, ids[1..], chances);
    }
  }

  // A successful `stop_all` leaves nothing running.
  lemma StopAllStopsEverything(s: State, chances: string -> Chance)
    requires StopEach(s, Sorted(s.running.Keys), chances).1.Ok?
    ensures StopEach(s, Sorted(s.running.Keys), chances).0.running == map[]
  {
    var ids := Sorted(s.running.Keys);
    StopEachStops(s, ids, chances);
    var after := StopEach(s, ids, chances).0;
    forall id ensures id !in after.running {
      assert id in s.running.Keys <==> id in ids;
    }
  }

  // A call for one plugin leaves the others alone, but for those whose exit it notices.
  lemma OthersAreLeftAlone(s: State, id: string, other: string, stop: Chance, start: Chance)
    requires other != id
    ensures forall t :: t in [Start(s, id, start).0, Stop(s, id, stop).0] ==>
      (other in t.configs <==> other in s.configs) && (other in s.configs ==> t.configs[other] == s.configs[other])
    ensures var t := Start(s, id, start).0;
      && (other in t.running <==> other in s.running && other !in start.exited)
      && (other in t.running ==> t.running[other] == s.running[other])
    ensures var t := Stop(s, id, stop).0;
      && (other in t.running <==> other in s.running && other !in stop.exited)
      && (other in t.running ==> t.running[other] == s.running[other])
  {}

  // A successful start leaves the plugin running: as the process it already was, or as the one
  // just spawned. It fails exactly for an unknown plugin or a failed spawn.
  lemma StartDecides(s: State, id: string, c: Chance)
    requires Inv(s)
    ensures var (t, result) := Start(s, id, c);
      && (result.Ok? <==> id in t.running)
      && (result == Err(UnknownPlugin(id)) <==> id !in s.manifests)
      && (id in s.running && id !in c.exited ==> id in t.running && t.running[id] == s.running[id])
      && ((id !in s.running || id in c.exited) && result.Ok? ==> Some(t.running[id]) == c.pid)
  {}

  // A failed spawn leaves the plugin configured but not running; a start of a plugin that is not
  // running configures it whenever it is known.
  lemma StartConfigures(s: State, id: string, c: Chance)
    requires id !in s.running || id in c.exited
    ensures var (t, result) := Start(s, id, c);
      && (id in s.manifests ==> id in t.configs && t.configs[id] == ResolveSandbox(s.manifests[id]))
      && (id in s.manifests && c.pid.None? ==> result == Err(SpawnFailed) && id !in t.running)
      && (id in s.manifests && c.pid.Some? ==> result == Ok(()) && id in t.running && t.running[id] == c.pid.value)
      && (id !in s.manifests ==> result == Err(UnknownPlugin(id)) && id !in t.running && t.configs == s.configs)
  {}

  // A stop fails exactly when the plugin is found running and its process cannot be stopped.
  lemma StopDecides(s: State, id: string, c: Chance)
    ensures var (t, result) := Stop(s, id, c);
      && (result.Err? <==> id in s.running && id !in c.exited && !c.stopped)
      && (result.Err? ==> result == Err(StopFailed))
      && id !in t.running
      && (result == Ok(()) && id in s.running && id !in c.exited ==> id !in t.configs)
  {}

  // A restart whose stop fails fails with it and starts nothing; otherwise it does as a start of a
  // plugin that is not running: with a process it runs, without one or a manifest it does not.
  lemma RestartDecides(s: State, id: string, stop: Chance, start: Chance)
    ensures var (t, result) := Restart(s, id, stop, start);
      if id in s.running && id !in stop.exited && !stop.stopped then result == Err(StopFailed) && id !in t.running
      else if id !in s.manifests then result == Err(UnknownPlugin(id)) && id !in t.running
      else
        match start.pid
        case None => result == Err(SpawnFailed) && id !in t.running && id in t.configs
        case Some(pid) => result == Ok(()) && id in t.running && t.running[id] == pid && id in t.configs
  {
    StopDecides(s, id, stop);
  }

  // A `start_all` or `stop_all` that fails does so at the first id that fails: those before it
  // succeeded, and those after it were not tried.
  lemma {:induction false} StartEachStopsAtFailure(s: State, ids: seq<string>, chances: string -> Chance)
    returns (i: nat)
    requires StartEach(s, ids, chances).1.Err?
    ensures i < |ids| && StartEach(s, ids[..i], chances).1 == Ok(())
    ensures StartEach(s, ids, chances) == Start(StartEach(s, ids[..i], chances).0, ids[i], chances(ids[i]))
    decreases |ids|
  {
    var (s1, started) := Start(s, ids[0], chances(ids[0]));
    if started.Err? {
      i := 0;
    } else {
      i := StartEachStopsAtFailure(s1, ids[1..], chances);
      i := i + 1;
      assert ids[..i][1..] == ids[1..][..i - 1];
    }
  }

  lemma {:induction false} StopEachStopsAtFailure(s: State, ids: seq<string>, chances: string -> Chance)
    returns (i: nat)
    requires StopEach(s, ids, chances).1.Err?
    ensures i < |ids| && StopEach(s, ids[..i], chances).1 == Ok(()) && !chances(ids[i]).stopped
    ensures StopEach(s, ids, chances) == Stop(StopEach(s, ids[..i], chances).0, ids[i], chances(ids[i]))
    decreases |ids|
  {
    var (s1, stopped) := Stop(s, ids[0], chances(ids[0]));
    if stopped.Err? {
      i := 0;
    } else {
      i := StopEachStopsAtFailure(s1, ids[1..], chances);
      i := i + 1;
      assert ids[..i][1..] == ids[1..][..i - 1];
    }
  }

  // A successful restart never keeps the old process.
  lemma RestartReplacesProcess(s: State, id: string, stop: Chance, start: Chance)
    requires Inv(s) && Restart(s, id, stop, start).1.Ok?
    ensures id in Restart(s, id, stop, start).0.running && Some(Restart(s, id, stop, start).0.running[id]) == start.pid
  {
    StopKeepsInv(s, id, stop);
    StartDecides(Stop(s, id, stop).0, id, start);
  }

  // A stop forgets the process whatever comes of it, and it leaves a configuration behind exactly
  // when it fails or when the process had already gone.
  lemma StopLeavesConfigExactly(s: State, id: string, c: Chance)
    requires Inv(s) && id in s.configs
    ensures var (after, result) := Stop(s, id, c);
      && id !in after.running
      && (id in after.configs <==> result.Err? || id !in s.running || id in c.exited)
  {}

  lemma {:induction false} StartEachStarts(s: State, ids: seq<string>, chances: string -> Chance, id: string)
    requires Inv(s) && StartEach(s, ids, chances).1.Ok? && (id in ids || id in s.configs)
    ensures var after := StartEach(s, ids, chances).0;
      && id in after.configs
      && ((id in ids || id in s.running) && (forall other :: other in ids ==> id !in chances(other).exited)
          ==> id in after.running)
    decreases |ids|
  {
    if ids != [] {
      var s1 := Start(s, ids[0], chances(ids[0])).0;
      StartKeepsInv(s, ids[0], chances(ids[0]));
      StartEachStarts(s1, ids[1..], chances, id);
    }
  }

  // After a successful `start_all` every known plugin has its configuration, and every one that no
  // later probe saw exit is running.
  lemma StartAllStartsEverything(s: State, chances: string -> Chance)
    requires Inv(s) && StartEach(s, Sorted(s.manifests.Keys), chances).1.Ok?
    ensures var after := StartEach(s, Sorted(s.manifests.Keys), chances).0;
      && after.configs.Keys == s.manifests.Keys
      && forall id ::
           (id in s.manifests && (forall other :: other in s.manifests ==> id !in chances(other).exited)
            ==> id in after.running)
  {
    var ids := Sorted(s.manifests.Keys);
    var after := StartEach(s, ids, chances).0;
    StartEachKeepsManifests(s, ids, chances);
    StartEachKeepsInv(s, ids, chances);
    forall id | id in s.manifests
      ensures id in after.configs
      ensures (forall other :: other in s.manifests ==> id !in chances(other).exited) ==> id in after.running
    {
      assert id in s.manifests.Keys;
      StartEachStarts(s, ids, chances, id);
    }
  }

  lemma {:induction false} StartEachKeepsManifests(s: State, ids: seq<string>, chances: string -> Chance)
    ensures StartEach(s, ids, chances).0.manifests == s.manifests
    decreases |ids|
  {
    if ids != [] {
      StartEachKeepsManifests(Start(s, ids[0], chances(ids[0])).0, ids[1..], chances);
    }
  }
}
