/** How large the files of the rotating log get, and how much of the log is kept. */
module AuditSizes {
  import opened AuditLog
  import opened AuditContent

  // The counter is the length of the live file, also while a failed rotation has left it closed.
  ghost predicate Counted(s: Sink) {
    && (s.open ==> 0 in s.dir)
    && (0 in s.dir ==> s.bytesWritten == Length(s.dir[0]))
  }

  ghost predicate Bounded(limits: Limits, dir: Directory) {
    forall k :: k in dir ==> Length(dir[k]) <= limits.maxBytes || |dir[k]| == 1
  }

  lemma {:induction false} LengthOfConcat(a: File, b: File)
    ensures Length(a + b) == Length(a) + Length(b)
  {
    if a == [] {
      assert a + b == b;
    } else {
      LengthOfConcat(a[1..], b);
      assert (a + b)[1..] == a[1..] + b;
    }
  }

  lemma LengthAfterAppend(file: File, r: Record)
    ensures Length(file + [r]) == Length(file) + |r|
  {
    LengthOfConcat(file, [r]);
    assert Length([r]) == |r| + Length([]);
  }

  // Shifting never changes a file.
  lemma {:induction false} ShiftKeepsBounds(limits: Limits, dir: Directory, k: nat, faults: Faults)
    requires Bounded(limits, dir)
    ensures Bounded(limits, Shift(dir, k, faults).0)
    decreases k
  {
    if k > 0 {
      ShiftKeepsBounds(limits, if k - 1 in dir then Moved(dir, k) else dir, k - 1, faults);
    }
  }

  // An `emit` reads a wrong length when it reopens a live file that is not empty and the
  // metadata call fails: the source then counts from zero.
  predicate Misreads(limits: Limits, s: Sink, r: Record, faults: Faults) {
    && !faults.serialize && !MustRotate(limits, s, r)
    && !s.open && !faults.appendingOpen && faults.metadata
    && Length(Slot(s.dir, 0)) > 0
  }

  // One `emit` keeps the counter right if and only if it does not misread, whatever else fails,
  // and every file stays within the limit or holds a single record.
  lemma EmitKeepsSizes(limits: Limits, s: Sink, r: Record, faults: Faults)
    requires limits.maxFiles >= 1
    requires Counted(s) && Bounded(limits, s.dir)
    ensures Counted(Emit(limits, s, r, faults).0) <==> !Misreads(limits, s, r, faults)
    ensures Bounded(limits, Emit(limits, s, r, faults).0.dir)
  {
    if !faults.serialize {
      if MustRotate(limits, s, r) {
        ShiftKeepsBounds(limits, s.dir, limits.maxFiles, faults);
        ShiftVacatesLiveSlot(s.dir, limits.maxFiles, faults);
        LengthAfterAppend([], r);
      } else {
        LengthAfterAppend(Slot(s.dir, 0), r);
      }
    }
  }

  // No `emit` of a run misreads in the state it meets.
  predicate NoMisread(limits: Limits, s: Sink, events: seq<(Record, Faults)>) {
    events == [] ||
    (var n := |events| - 1;
     && NoMisread(limits, s, events[..n])
     && !Misreads(limits, Run(limits, s, events[..n]).0, events[n].0, events[n].1))
  }

  // Over a whole run without misreadings, whatever fails: an open live file has exactly the
  // counted length, and every file is within the limit or holds a single record.
  lemma {:induction false} RunKeepsSizes(limits: Limits, s: Sink, events: seq<(Record, Faults)>)
    requires limits.maxFiles >= 1
    requires Counted(s) && Bounded(limits, s.dir)
    requires NoMisread(limits, s, events)
    ensures var t := Run(limits, s, events).0; Counted(t) && Bounded(limits, t.dir)
  {
    if events != [] {
      var n := |events| - 1;
      RunKeepsSizes(limits, s, events[..n]);
      EmitKeepsSizes(limits, Run(limits, s, events[..n]).0, events[n].0, events[n].1);
    }
  }

  // ---- exactly when the bound can be relied on ----

  // Whatever is emitted from here on, and whatever fails except metadata calls, the files stay
  // within the limit.
  ghost predicate StaysBounded(limits: Limits, s: Sink) {
    forall events :: Readable(events) ==> Bounded(limits, Run(limits, s, events).0.dir)
  }

  predicate Readable(events: seq<(Record, Faults)>) {
    forall i :: 0 <= i < |events| ==> !events[i].1.metadata
  }

  // The counter is below the length of the live file, and rotation is not due anyway.
  predicate Undercounts(limits: Limits, s: Sink) {
    0 in s.dir && s.bytesWritten < Length(s.dir[0]) && s.bytesWritten <= limits.maxBytes
  }

  lemma EmitKeepsCount(limits: Limits, s: Sink, r: Record, faults: Faults)
    requires limits.maxFiles >= 1 && Bounded(limits, s.dir) && !Undercounts(limits, s) && !faults.metadata
    ensures var t := Emit(limits, s, r, faults).0; Bounded(limits, t.dir) && !Undercounts(limits, t)
  {
    if !faults.serialize {
      if MustRotate(limits, s, r) {
        ShiftKeepsBounds(limits, s.dir, limits.maxFiles, faults);
        ShiftVacatesLiveSlot(s.dir, limits.maxFiles, faults);
        LengthAfterAppend([], r);
      } else {
        LengthAfterAppend(Slot(s.dir, 0), r);
      }
    }
  }

  lemma {:induction false} RunKeepsCount(limits: Limits, s: Sink, events: seq<(Record, Faults)>)
    requires limits.maxFiles >= 1 && Bounded(limits, s.dir) && !Undercounts(limits, s) && Readable(events)
    ensures var t := Run(limits, s, events).0; Bounded(limits, t.dir) && !Undercounts(limits, t)
  {
    if events != [] {
      var n := |events| - 1;
      RunKeepsCount(limits, s, events[..n]);
      EmitKeepsCount(limits, Run(limits, s, events[..n]).0, events[n].0, events[n].1);
    }
  }

  lemma RunOfOne(limits: Limits, s: Sink, r: Record, faults: Faults)
    ensures Run(limits, s, [(r, faults)]).0 == Emit(limits, s, r, faults).0
  {
    assert [(r, faults)][..0] == [];
    assert Run(limits, s, []).0 == s;
  }

  // From an undercount, one record that fills what the counter leaves breaks the bound.
  lemma UndercountBreaksBound(limits: Limits, s: Sink)
    requires Undercounts(limits, s)
    ensures !StaysBounded(limits, s)
  {
    var r: Record := seq(limits.maxBytes - s.bytesWritten, _ => 'x');
    var t := Emit(limits, s, r, NO_FAULTS).0;
    RunOfOne(limits, s, r, NO_FAULTS);
    LengthAfterAppend(s.dir[0], r);
    assert 0 in t.dir && t.dir[0] == s.dir[0] + [r];
    assert Readable([(r, NO_FAULTS)]) && !Bounded(limits, t.dir);
  }

  // In any state the bound can be relied on if and only if it holds now and the counter is not
  // below the length of the live file with rotation not yet due.
  lemma StaysBoundedExactly(limits: Limits, s: Sink)
    requires limits.maxFiles >= 1
    ensures StaysBounded(limits, s) <==> Bounded(limits, s.dir) && !Undercounts(limits, s)
  {
    if Undercounts(limits, s) {
      UndercountBreaksBound(limits, s);
    } else if Bounded(limits, s.dir) {
      forall events | Readable(events) ensures Bounded(limits, Run(limits, s, events).0.dir) {
        RunKeepsCount(limits, s, events);
      }
    }
    if StaysBounded(limits, s) {
      assert Readable([]) && Run(limits, s, []).0 == s;
    }
  }

  // One `emit` leaves the bound reliable if and only if it does not misread.
  lemma EmitStaysBoundedExactly(limits: Limits, s: Sink, r: Record, faults: Faults)
    requires limits.maxFiles >= 1 && Counted(s) && Bounded(limits, s.dir)
    ensures StaysBounded(limits, Emit(limits, s, r, faults).0) <==> !Misreads(limits, s, r, faults)
  {
    var t := Emit(limits, s, r, faults).0;
    EmitKeepsSizes(limits, s, r, faults);
    StaysBoundedExactly(limits, t);
    if Misreads(limits, s, r, faults) {
      LengthAfterAppend(Slot(s.dir, 0), r);
    }
  }

  // A run leaves the bound reliable after each of its emits if and only if none of them misreads.
  lemma {:induction false} RunStaysBoundedExactly(limits: Limits, s: Sink, events: seq<(Record, Faults)>)
    requires limits.maxFiles >= 1 && Counted(s) && Bounded(limits, s.dir)
    ensures (forall n :: 0 <= n <= |events| ==> StaysBounded(limits, Run(limits, s, events[..n]).0))
       <==> NoMisread(limits, s, events)
  {
    if events == [] {
      StaysBoundedExactly(limits, s);
      assert events[..0] == [];
    } else {
      var n := |events| - 1;
      RunStaysBoundedExactly(limits, s, events[..n]);
      assert forall m :: 0 <= m <= n ==> events[..n][..m] == events[..m];
      assert events[..n + 1] == events;
      if NoMisread(limits, s, events[..n]) {
        RunKeepsSizes(limits, s, events[..n]);
        EmitStaysBoundedExactly(limits, Run(limits, s, events[..n]).0, events[n].0, events[n].1);
      }
    }
  }

  // The constructor leaves the bound reliable if and only if the existing files are within the
  // limit and it reads the length of a live file that is not empty.
  lemma OpenStaysBoundedExactly(limits: Limits, dir: Directory, metadataFails: bool)
    requires limits.maxFiles >= 1
    ensures StaysBounded(limits, Open(dir, metadataFails))
       <==> Bounded(limits, dir) && (metadataFails ==> Length(Slot(dir, 0)) == 0)
  {
    var s := Open(dir, metadataFails);
    StaysBoundedExactly(limits, s);
    assert forall k :: k in dir ==> k in s.dir && s.dir[k] == dir[k];
    assert forall k :: k in s.dir ==> k in dir || s.dir[k] == [];
  }

  // Without the metadata condition the bound is lost: a rename that fails with the counter at
  // two, then a reopening that counts from zero, let three records share a file of five bytes.
  lemma MetadataFailureBreaksBound()
    ensures var limits := Limits(3, 1);
      var events := [("aa", NO_FAULTS), ("bb", NO_FAULTS.(renames := {1})),
                     ("c", NO_FAULTS.(metadata := true)), ("dd", NO_FAULTS)];
      var t := Run(limits, Open(map[]), events).0;
      t.dir == map[0 := ["aa", "c", "dd"]] && !Bounded(limits, t.dir)
  {
    var limits := Limits(3, 1);
    var faulty := NO_FAULTS.(renames := {1});
    var blind := NO_FAULTS.(metadata := true);
    var e1, e2, e3, e4 := ("aa", NO_FAULTS), ("bb", faulty), ("c", blind), ("dd", NO_FAULTS);
    var s0 := Open(map[]);
    var s1 := Emit(limits, s0, "aa", NO_FAULTS).0;
    assert Slot(s0.dir, 0) + ["aa"] == ["aa"];
    assert s1 == Sink(map[0 := ["aa"]], true, 2);
    var s2 := Emit(limits, s1, "bb", faulty).0;
    assert Shift(s1.dir, 1, faulty) == (s1.dir - {1}, false);
    assert s2 == Sink(map[0 := ["aa"]], false, 2);
    var s3 := Emit(limits, s2, "c", blind).0;
    assert Slot(s2.dir, 0) + ["c"] == ["aa", "c"];
    assert s3 == Sink(map[0 := ["aa", "c"]], true, 1);
    var s4 := Emit(limits, s3, "dd", NO_FAULTS).0;
    assert Slot(s3.dir, 0) + ["dd"] == ["aa", "c", "dd"];
    assert s4 == Sink(map[0 := ["aa", "c", "dd"]], true, 3);
    assert [e1, e2, e3, e4][..3] == [e1, e2, e3] && [e1, e2, e3][..2] == [e1, e2] && [e1, e2][..1] == [e1];
    assert [e1][..0] == [];
    assert Run(limits, s0, []).0 == s0;
    assert Run(limits, s0, [e1]).0 == s1;
    assert Run(limits, s0, [e1, e2]).0 == s2;
    assert Run(limits, s0, [e1, e2, e3]).0 == s3;
    assert Run(limits, s0, [e1, e2, e3, e4]).0 == s4;
    LengthAfterAppend(["aa", "c"], "dd");
    LengthAfterAppend(["aa"], "c");
    LengthAfterAppend([], "aa");
    assert 0 in s4.dir;
  }

  // Slots 0..top are in use, and any two neighbouring files together exceed the limit.
  ghost predicate Packed(limits: Limits, dir: Directory, top: nat) {
    && (forall k: nat :: k in dir <==> k <= top)
    && (forall k: nat :: k < top ==> Length(Slot(dir, k)) + Length(Slot(dir, k + 1)) > limits.maxBytes)
  }

  function TopAfter(limits: Limits, top: nat, s: Sink, r: Record): nat {
    if MustRotate(limits, s, r) && top < limits.maxFiles then top + 1 else top
  }

  lemma EmitWithoutFaults(limits: Limits, s: Sink, r: Record)
    requires limits.maxFiles >= 1 && s.open && Counted(s)
    ensures Emit(limits, s, r, NO_FAULTS)
         == (if MustRotate(limits, s, r)
             then Sink(Shift(s.dir, limits.maxFiles, NO_FAULTS).0[0 := [r]], true, |r|)
             else Sink(s.dir[0 := Slot(s.dir, 0) + [r]], true, s.bytesWritten + |r|), true)
  {
    if MustRotate(limits, s, r) {
      var d := Shift(s.dir, limits.maxFiles, NO_FAULTS).0;
      ShiftIsSimultaneous(s.dir, limits.maxFiles, 0);
      assert [] + [r] == [r];
      assert d[0 := []][0 := [r]] == d[0 := [r]];
    }
  }

  lemma EmitKeepsPacked(limits: Limits, s: Sink, r: Record, top: nat)
    requires 1 <= limits.maxFiles && top <= limits.maxFiles
    requires s.open && Counted(s) && Packed(limits, s.dir, top)
    ensures var (t, success) := Emit(limits, s, r, NO_FAULTS);
      && success && t.open && Counted(t)
      && Packed(limits, t.dir, TopAfter(limits, top, s, r))
  {
    var t := Emit(limits, s, r, NO_FAULTS).0;
    EmitWithoutFaults(limits, s, r);
    LengthAfterAppend([], r);
    LengthAfterAppend(Slot(s.dir, 0), r);
    if MustRotate(limits, s, r) {
      forall k: nat
        ensures k in t.dir <==> k <= TopAfter(limits, top, s, r)
        ensures 1 <= k <= TopAfter(limits, top, s, r) ==> Slot(t.dir, k) == Slot(s.dir, k - 1)
      {
        ShiftIsSimultaneous(s.dir, limits.maxFiles, k);
      }
      forall k: nat | k < TopAfter(limits, top, s, r)
        ensures Length(Slot(t.dir, k)) + Length(Slot(t.dir, k + 1)) > limits.maxBytes
      {
        if k > 0 {
          assert Slot(t.dir, k) == Slot(s.dir, k - 1) && Slot(t.dir, k + 1) == Slot(s.dir, k - 1 + 1);
        }
      }
    } else {
      forall k: nat | k < top
        ensures Length(Slot(t.dir, k)) + Length(Slot(t.dir, k + 1)) > limits.maxBytes
      {
        assert Length(Slot(s.dir, k)) + Length(Slot(s.dir, k + 1)) > limits.maxBytes;
      }
    }
  }

  // Nothing is dropped while a slot is free.
  lemma PackedDropsNothing(limits: Limits, s: Sink, r: Record, top: nat)
    requires top < limits.maxFiles && Packed(limits, s.dir, top)
    ensures EmitDrops(limits, s, r, NO_FAULTS) == []
  {}

  // In a failure-free run from an empty directory every record is accepted and the slots in use
  // are packed. As long as a slot is free nothing has been lost.
  lemma {:induction false} RunStaysPacked(limits: Limits, events: seq<(Record, Faults)>) returns (top: nat)
    requires limits.maxFiles >= 1
    requires forall i :: 0 <= i < |events| ==> events[i].1 == NO_FAULTS
    ensures var (t, written) := Run(limits, Open(map[]), events);
      && top <= limits.maxFiles
      && t.open && Counted(t) && Packed(limits, t.dir, top)
      && (top < limits.maxFiles ==> Read(t.dir, limits.maxFiles) == written)
  {
    if events == [] {
      top := 0;
      ReadDependsOnSlots(map[0 := []], map[], limits.maxFiles);
      EmptyReadsNothing(limits.maxFiles);
    } else {
      var n := |events| - 1;
      var s := Run(limits, Open(map[]), events[..n]).0;
      var r := events[n].0;
      var before := RunStaysPacked(limits, events[..n]);
      EmitKeepsPacked(limits, s, r, before);
      top := TopAfter(limits, before, s, r);
      if top < limits.maxFiles {
        EmitConserves(limits, s, r, NO_FAULTS);
        PackedDropsNothing(limits, s, r, before);
        var after := Read(Emit(limits, s, r, NO_FAULTS).0.dir, limits.maxFiles);
        assert [] + after == after;
      }
    }
  }

  lemma {:induction false} EmptyReadsNothing(k: nat)
    ensures Read(map[], k) == []
  {
    if k > 0 { EmptyReadsNothing(k - 1); }
  }

  // Neighbours pair up: the first 2p packed files hold more than p times the limit.
  lemma {:induction false} PairsAreLong(limits: Limits, dir: Directory, top: nat, p: nat)
    requires Packed(limits, dir, top) && 1 <= p && 2 * p - 1 <= top
    ensures Length(Read(dir, 2 * p - 1)) > p * limits.maxBytes
  {
    var k := 2 * p - 2;
    LengthOfConcat(Slot(dir, k + 1), Read(dir, k));
    assert Length(Slot(dir, k)) + Length(Slot(dir, k + 1)) > limits.maxBytes;
    if p == 1 {
      assert Read(dir, 0) == Slot(dir, 0);
    } else {
      LengthOfConcat(Slot(dir, k), Read(dir, k - 1));
      PairsAreLong(limits, dir, top, p - 1);
      assert p * limits.maxBytes == (p - 1) * limits.maxBytes + limits.maxBytes;
    }
  }

  lemma PackedFilesAreLong(limits: Limits, dir: Directory, n: nat)
    requires n >= 1 && Packed(limits, dir, n)
    ensures Length(Read(dir, n)) > (n + 1) / 2 * limits.maxBytes
  {
    var p := (n + 1) / 2;
    PairsAreLong(limits, dir, n, p);
    if n != 2 * p - 1 {
      LengthOfConcat(Slot(dir, n), Read(dir, n - 1));
    }
  }

  // Once a failure-free run has dropped anything, more than one limit's worth per pair of files
  // can still be read back.
  lemma RunKeepsEnough(limits: Limits, events: seq<(Record, Faults)>)
    requires limits.maxFiles >= 1
    requires forall i :: 0 <= i < |events| ==> events[i].1 == NO_FAULTS
    ensures var (t, written) := Run(limits, Open(map[]), events);
      Read(t.dir, limits.maxFiles) != written
      ==> Length(Read(t.dir, limits.maxFiles)) > (limits.maxFiles + 1) / 2 * limits.maxBytes
  {
    var top := RunStaysPacked(limits, events);
    if top == limits.maxFiles {
      PackedFilesAreLong(limits, Run(limits, Open(map[]), events).0.dir, top);
    }
  }
}
