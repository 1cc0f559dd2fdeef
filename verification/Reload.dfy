/** Hot reload of the policy file: a poller that stats and loads in two steps, racing with writes
  * to the file. Parsing is a function given as a parameter. */
module Reload {
  import opened Wrappers

  // The file as it is on disk: its content and its modification time.
  datatype Version = Version(content: string, modified: nat)

  // Where the poller is: asleep, or between a stat that saw a change and the load after it.
  datatype Phase = Sleeping | Loading(seen: Option<nat>)

  // `used` are the modification times the file has had.
  datatype World<P> = World(file: Option<Version>, used: set<nat>, shared: P, lastModified: Option<nat>, phase: Phase)

  datatype Step = Write(content: string, at: nat) | Remove | Stat | Load

  function Modified(file: Option<Version>): Option<nat> {
    if file.Some? then Some(file.value.modified) else None
  }

  // `load_policy_document`: reading fails without a file, and parsing may fail.
  function LoadFile<P>(parse: string -> Option<P>, file: Option<Version>): Option<P> {
    if file.Some? then parse(file.value.content) else None
  }

  // The poller's comparison.
  function StatStep<P>(w: World<P>): World<P> {
    var seen := Modified(w.file);
    if seen == w.lastModified then w else w.(phase := Loading(seen))
  }

  // The poller's load: on success the policy is swapped and the time of the *stat* is remembered.
  function LoadStep<P>(parse: string -> Option<P>, w: World<P>): World<P>
    requires w.phase.Loading?
  {
    match LoadFile(parse, w.file)
    case Some(policy) => w.(shared := policy, lastModified := w.phase.seen, phase := Sleeping)
    case None => w.(phase := Sleeping)
  }

  // One step; a step that is not enabled changes nothing. Every write gets a fresh time.
  function Next<P>(parse: string -> Option<P>, w: World<P>, step: Step): World<P> {
    match step
    case Write(content, at) =>
      if at in w.used then w else w.(file := Some(Version(content, at)), used := w.used + {at})
    case Remove => w.(file := None)
    case Stat => if w.phase.Sleeping? then StatStep(w) else w
    case Load => if w.phase.Loading? then LoadStep(parse, w) else w
  }

  function Run<P>(parse: string -> Option<P>, w: World<P>, steps: seq<Step>): World<P>
    decreases |steps|
  {
    if steps == [] then w else Run(parse, Next(parse, w, steps[0]), steps[1..])
  }

  // The poller's start: the policy was loaded earlier, the file is statted now.
  function Start<P>(file: Option<Version>, shared: P): World<P> {
    World(file, if file.Some? then {file.value.modified} else {}, shared, Modified(file), Sleeping)
  }

  // The shared policy is the parse of the file whenever the remembered time is the file's.
  ghost predicate UpToDate<P(!new)>(parse: string -> Option<P>, w: World<P>) {
    w.file.Some? && w.lastModified == Some(w.file.value.modified) ==> parse(w.file.value.content) == Some(w.shared)
  }

  ghost predicate TimesUsed<P(!new)>(w: World<P>) {
    && (w.file.Some? ==> w.file.value.modified in w.used)
    && (w.lastModified.Some? ==> w.lastModified.value in w.used)
    && (w.phase.Loading? && w.phase.seen.Some? ==> w.phase.seen.value in w.used)
  }

  lemma {:induction false} RunStaysUpToDate<P(!new)>(parse: string -> Option<P>, w: World<P>, steps: seq<Step>)
    requires TimesUsed(w) && UpToDate(parse, w)
    ensures var w' := Run(parse, w, steps); TimesUsed(w') && UpToDate(parse, w')
    decreases |steps|
  {
    if steps != [] {
      RunStaysUpToDate(parse, Next(parse, w, steps[0]), steps[1..]);
    }
  }

  predicate IsPoll(step: Step) {
    step.Stat? || step.Load?
  }

  // While nothing is written and the file is the one first seen, polling changes nothing.
  lemma {:induction false} PollsWithoutChange<P(!new)>(parse: string -> Option<P>, w: World<P>, steps: seq<Step>)
    requires w.lastModified == Modified(w.file) && w.phase == Sleeping
    requires forall i :: 0 <= i < |steps| ==> IsPoll(steps[i])
    ensures Run(parse, w, steps) == w
    decreases |steps|
  {
    if steps != [] {
      assert IsPoll(steps[0]);
      PollsWithoutChange(parse, w, steps[1..]);
    }
  }

  ghost predicate AlwaysUpToDate<P(!new)>(parse: string -> Option<P>, w: World<P>) {
    forall steps :: UpToDate(parse, Run(parse, w, steps))
  }

  // For every interleaving of writes, removals, stats and loads the poller is up to date, if and
  // only if the policy loaded before its start is the parse of the file at its first stat.
  lemma UpToDateExactly<P(!new)>(parse: string -> Option<P>, file: Option<Version>, shared: P)
    ensures AlwaysUpToDate(parse, Start(file, shared))
       <==> (file.Some? ==> parse(file.value.content) == Some(shared))
  {
    var w := Start(file, shared);
    if file.Some? ==> parse(file.value.content) == Some(shared) {
      forall steps ensures UpToDate(parse, Run(parse, w, steps)) {
        RunStaysUpToDate(parse, w, steps);
      }
    }
    if AlwaysUpToDate(parse, w) {
      assert UpToDate(parse, Run(parse, w, []));
    }
  }

  // A write between the load and the first stat is never noticed by polling alone.
  lemma EarlyWriteIsMissed<P(!new)>(parse: string -> Option<P>, file: Version, stale: P, steps: seq<Step>)
    requires parse(file.content) != Some(stale)
    requires forall i :: 0 <= i < |steps| ==> IsPoll(steps[i])
    ensures Run(parse, Start(Some(file), stale), steps).shared == stale
  {
    PollsWithoutChange(parse, Start(Some(file), stale), steps);
  }

  // A load that fails changes neither the policy nor the remembered time, so the next stat sees
  // the same difference and the load is retried.
  lemma FailedLoadIsRetried<P(!new)>(parse: string -> Option<P>, w: World<P>)
    requires w.phase.Sleeping? && LoadFile(parse, w.file).None? && Modified(w.file) != w.lastModified
    ensures Run(parse, w, [Stat, Load]) == w
    ensures Next(parse, w, Stat).phase == Loading(Modified(w.file))
  {
    RunOfPoll(parse, w);
  }

  lemma RunOfPoll<P(!new)>(parse: string -> Option<P>, w: World<P>)
    ensures Run(parse, w, [Stat, Load]) == Next(parse, Next(parse, w, Stat), Load)
  {
    assert [Stat, Load][1..] == [Load] && [Load][1..] == [];
    assert Run(parse, Next(parse, Next(parse, w, Stat), Load), []) == Next(parse, Next(parse, w, Stat), Load);
  }

  // A write between the stat and the load is loaded at once, but the time of the stat is what is
  // remembered, so the next stat sees a difference again and the file is loaded once more.
  lemma LoadRemembersTheStat<P(!new)>(parse: string -> Option<P>, w: World<P>, content: string, at: nat)
    requires TimesUsed(w) && w.phase.Sleeping? && Modified(w.file) != w.lastModified
    requires at !in w.used && parse(content).Some?
    ensures var w' := Run(parse, w, [Stat, Write(content, at), Load]);
      && Some(w'.shared) == parse(content) && w'.file == Some(Version(content, at))
      && w'.lastModified == Modified(w.file) && w'.phase.Sleeping?
      && Next(parse, w', Stat).phase == Loading(Some(at))
  {
    var steps := [Stat, Write(content, at), Load];
    assert steps[1..] == [Write(content, at), Load] && steps[1..][1..] == [Load] && [Load][1..] == [];
    var w1 := Next(parse, w, Stat);
    var w2 := Next(parse, w1, Write(content, at));
    var w3 := Next(parse, w2, Load);
    assert Run(parse, w3, []) == w3;
    assert Run(parse, w2, [Load]) == w3;
    assert Run(parse, w1, [Write(content, at), Load]) == w3;
  }

  // After any run, a whole poll over a valid and unchanged file makes its content the policy.
  lemma NextPollCatchesUp<P(!new)>(parse: string -> Option<P>, file: Option<Version>, shared: P, steps: seq<Step>)
    requires file.Some? ==> parse(file.value.content) == Some(shared)
    requires var w := Run(parse, Start(file, shared), steps);
      w.phase.Sleeping? && w.file.Some? && parse(w.file.value.content).Some?
    ensures var w := Run(parse, Start(file, shared), steps);
      var w' := Run(parse, w, [Stat, Load]);
      w'.file == w.file && w'.phase.Sleeping? && Some(w'.shared) == parse(w.file.value.content)
      && w'.lastModified == Modified(w.file)
  {
    RunStaysUpToDate(parse, Start(file, shared), steps);
    RunOfPoll(parse, Run(parse, Start(file, shared), steps));
  }

  // A reader of the shared policy only ever gets the initial policy or a whole policy that parsed
  // from what was the file at some load of the run.
  lemma {:induction false} PolicyWasInTheFile<P(!new)>(parse: string -> Option<P>, w: World<P>, steps: seq<Step>)
    ensures Run(parse, w, steps).shared == w.shared
         || exists i :: 0 <= i < |steps| && SwapsIn(parse, w, steps, i, Run(parse, w, steps).shared)
    decreases |steps|
  {
    if steps != [] {
      var w1, rest := Next(parse, w, steps[0]), steps[1..];
      var policy := Run(parse, w, steps).shared;
      PolicyWasInTheFile(parse, w1, rest);
      if policy != w1.shared {
        var i :| 0 <= i < |rest| && SwapsIn(parse, w1, rest, i, policy);
        assert steps[..i + 1][1..] == rest[..i] && steps[..i + 1][0] == steps[0];
        assert SwapsIn(parse, w, steps, i + 1, policy);
      } else if policy != w.shared {
        assert steps[..0] == [];
        assert SwapsIn(parse, w, steps, 0, policy);
      }
    }
  }

  // Step i of the run is a load after a stat that saw a change, and the file then parses to the
  // policy.
  ghost predicate SwapsIn<P(!new)>(parse: string -> Option<P>, w: World<P>, steps: seq<Step>, i: nat, policy: P) {
    && i < |steps| && steps[i] == Load && Run(parse, w, steps[..i]).phase.Loading?
    && LoadFile(parse, Run(parse, w, steps[..i]).file) == Some(policy)
  }

  // The shared policy behind its lock.
  class SharedPolicy<P> {
    var inner: P

    constructor (policy: P)
      ensures inner == policy
    {
      inner := policy;
    }

    method Current() returns (policy: P)
      ensures policy == inner
    {
      policy := inner;
    }

    method Swap(policy: P)
      modifies this
      ensures inner == policy
    {
      inner := policy;
    }
  }

  // The reload loop. The file may change between its two looks at it.
  class Poller<P> {
    const shared: SharedPolicy<P>
    var lastModified: Option<nat>

    constructor (shared: SharedPolicy<P>, file: Option<Version>)
      ensures this.shared == shared && lastModified == Modified(file)
    {
      this.shared := shared;
      lastModified := Modified(file);
    }

    ghost function State(file: Option<Version>, used: set<nat>, phase: Phase): World<P>
      reads this, shared
    {
      World(file, used, shared.inner, lastModified, phase)
    }

    // One turn of the loop, with the file as the stat and as the load find it.
    method Poll(parse: string -> Option<P>, atStat: Option<Version>, atLoad: Option<Version>, ghost used: set<nat>)
      modifies this, shared
      ensures var seen := StatStep(old(State(atStat, used, Sleeping)));
        if seen.phase.Sleeping? then State(atStat, used, Sleeping) == seen
        else State(atLoad, used, Sleeping) == LoadStep(parse, seen.(file := atLoad))
    {
      var currentModified := Modified(atStat);
      if currentModified == lastModified {
        return;
      }
      var loaded := LoadFile(parse, atLoad);
      if loaded.Some? {
        shared.Swap(loaded.value);
        lastModified := currentModified;
      }
    }
  }
}
