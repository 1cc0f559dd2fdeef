/** Nothing but the oldest file is ever lost: what rotation and `emit` do to the records that
  * can be read back, under every pattern of failures. */
module AuditContent {
  import opened AuditLog

  lemma {:induction false} ReadDependsOnSlots(a: Directory, b: Directory, k: nat)
    requires forall j: nat :: j <= k ==> Slot(a, j) == Slot(b, j)
    ensures Read(a, k) == Read(b, k)
  {
    if k > 0 {
      ReadDependsOnSlots(a, b, k - 1);
    }
  }

  lemma MovingIntoGapKeepsReading(dir: Directory, k: nat)
    requires k >= 1 && k - 1 in dir && k !in dir
    ensures Read(Moved(dir, k), k) == Read(dir, k)
  {
    var moved := Moved(dir, k);
    assert Slot(moved, k) == Slot(dir, k - 1) && Slot(moved, k - 1) == Slot(dir, k) == [];
    if k > 1 {
      ReadDependsOnSlots(moved, dir, k - 2);
    }
  }

  // Below a gap the loop moves files without losing any, and leaves the slots above alone.
  lemma {:induction false} ShiftBelowGap(dir: Directory, k: nat, faults: Faults)
    requires k !in dir
    ensures Read(Shift(dir, k, faults).0, k) == Read(dir, k)
    ensures forall j: nat :: j > k ==> Slot(Shift(dir, k, faults).0, j) == Slot(dir, j)
    decreases k
  {
    if k == 0 {
    } else if k - 1 !in dir {
      ShiftBelowGap(dir, k - 1, faults);
    } else if k in faults.renames {
      assert dir - {k} == dir;
    } else {
      MovingIntoGapKeepsReading(dir, k);
      ShiftBelowGap(Moved(dir, k), k - 1, faults);
    }
  }

  // The records of slot N are lost exactly when slot N is removed to make room for slot N-1.
  function Dropped(dir: Directory, maxFiles: nat, faults: Faults): File
    requires maxFiles >= 1
  {
    if maxFiles in dir && maxFiles - 1 in dir && maxFiles !in faults.removes then dir[maxFiles] else []
  }

  // Removing slot k first is what the loop does when it gets there.
  lemma ShiftFreesSlot(dir: Directory, k: nat, faults: Faults)
    requires k >= 1 && k - 1 in dir && (k in dir ==> k !in faults.removes)
    ensures Shift(dir, k, faults) == Shift(dir - {k}, k, faults)
  {
    var freed := dir - {k};
    assert freed - {k} == freed && freed - {k, k - 1} == dir - {k, k - 1};
  }

  lemma ReadOldestFirst(dir: Directory, k: nat)
    requires k >= 1
    ensures Read(dir, k) == Slot(dir, k) + Read(dir - {k}, k)
  {
    ReadDependsOnSlots(dir - {k}, dir, k - 1);
    assert Read(dir - {k}, k) == [] + Read(dir - {k}, k - 1) == Read(dir, k - 1);
  }

  lemma ShiftLosesOnlyOldest(dir: Directory, maxFiles: nat, faults: Faults)
    requires maxFiles >= 1
    ensures Read(dir, maxFiles) == Dropped(dir, maxFiles, faults) + Read(Shift(dir, maxFiles, faults).0, maxFiles)
  {
    var k := maxFiles;
    if k - 1 !in dir {
      ShiftBelowGap(dir, k - 1, faults);
    } else if k in dir && k in faults.removes {
    } else {
      ShiftFreesSlot(dir, k, faults);
      ReadOldestFirst(dir, k);
      ShiftBelowGap(dir - {k}, k, faults);
    }
  }

  // When every rename succeeded the live file is gone, so the truncating open destroys nothing.
  lemma {:induction false} ShiftVacatesLiveSlot(dir: Directory, k: nat, faults: Faults)
    requires k >= 1
    ensures var (d, ok) := Shift(dir, k, faults);
      && (ok ==> 0 !in d)
      && (!ok && 0 in d ==> 0 in dir && d[0] == dir[0])
    decreases k
  {
    if k > 1 {
      if k - 1 !in dir {
        ShiftVacatesLiveSlot(dir, k - 1, faults);
      } else if (k in dir && k in faults.removes) || k in faults.renames {
      } else {
        ShiftVacatesLiveSlot(Moved(dir, k), k - 1, faults);
      }
    }
  }

  // A rotation without failures moves every slot up by one at the same time, whatever the gaps.
  // Slot N is the exception: it stays when slot N-1 is missing.
  lemma {:induction false} ShiftIsSimultaneous(dir: Directory, k: nat, j: nat)
    requires k >= 1
    ensures var (d, ok) := Shift(dir, k, NO_FAULTS);
      && ok
      && (j > k ==> (j in d <==> j in dir) && Slot(d, j) == Slot(dir, j))
      && (j == k ==> (j in d <==> j - 1 in dir || j in dir))
      && (j == k ==> Slot(d, j) == Slot(dir, if j - 1 in dir then j - 1 else j))
      && (1 <= j < k ==> (j in d <==> j - 1 in dir) && Slot(d, j) == Slot(dir, j - 1))
      && (j == 0 ==> j !in d)
    decreases k
  {
    var next := if k - 1 in dir then Moved(dir, k) else dir;
    assert Shift(dir, k, NO_FAULTS) == Shift(next, k - 1, NO_FAULTS);
    if k > 1 {
      ShiftIsSimultaneous(next, k - 1, j);
    }
  }

  lemma {:induction false} ReadAfterAppend(dir: Directory, k: nat, added: seq<Record>)
    ensures Read(dir[0 := Slot(dir, 0) + added], k) == Read(dir, k) + added
  {
    var d := dir[0 := Slot(dir, 0) + added];
    if k > 0 {
      ReadAfterAppend(dir, k - 1, added);
      assert Slot(d, k) == Slot(dir, k);
      assert Slot(dir, k) + (Read(dir, k - 1) + added) == (Slot(dir, k) + Read(dir, k - 1)) + added;
    } else {
      assert Read(d, 0) == Slot(d, 0) == Slot(dir, 0) + added && Read(dir, 0) == Slot(dir, 0);
    }
  }

  lemma RotateLosesOnlyOldest(limits: Limits, s: Sink, faults: Faults)
    requires limits.maxFiles >= 1
    ensures Read(s.dir, limits.maxFiles)
         == Dropped(s.dir, limits.maxFiles, faults) + Read(Rotate(limits, s, faults).0.dir, limits.maxFiles)
  {
    var dir := Shift(s.dir, limits.maxFiles, faults).0;
    ShiftLosesOnlyOldest(s.dir, limits.maxFiles, faults);
    ShiftVacatesLiveSlot(s.dir, limits.maxFiles, faults);
    if 0 !in dir {
      ReadDependsOnSlots(dir[0 := []], dir, limits.maxFiles);
    }
  }

  lemma AppendAddsAtEnd(s: Sink, r: Record, faults: Faults, k: nat)
    ensures var (t, success) := Append(s, r, faults);
      Read(t.dir, k) == Read(s.dir, k) + if success then [r] else []
  {
    var s1 := Reopen(s, faults).0;
    ReadDependsOnSlots(s1.dir, s.dir, k);
    ReadAfterAppend(s1.dir, k, [r]);
  }

  // The records one `emit` loses.
  function EmitDrops(limits: Limits, s: Sink, r: Record, faults: Faults): File
    requires limits.maxFiles >= 1
  {
    if !faults.serialize && MustRotate(limits, s, r) then Dropped(s.dir, limits.maxFiles, faults) else []
  }

  // Conservation: what could be read, plus the new record if it was accepted, is what was dropped
  // with slot N followed by what can be read now.
  lemma EmitConserves(limits: Limits, s: Sink, r: Record, faults: Faults)
    requires limits.maxFiles >= 1
    ensures var (t, success) := Emit(limits, s, r, faults);
      Read(s.dir, limits.maxFiles) + (if success then [r] else [])
      == EmitDrops(limits, s, r, faults) + Read(t.dir, limits.maxFiles)
  {
    if !faults.serialize {
      var s1 := if MustRotate(limits, s, r) then Rotate(limits, s, faults).0 else s;
      RotateLosesOnlyOldest(limits, s, faults);
      AppendAddsAtEnd(s1, r, faults, limits.maxFiles);
    }
  }

  lemma SuffixStep(before: seq<Record>, all: seq<Record>, added: seq<Record>, dropped: File, after: seq<Record>)
    requires IsSuffix(before, all) && before + added == dropped + after
    ensures IsSuffix(after, all + added)
  {
    var k := |all| - |before|;
    assert all + added == all[..k] + (before + added);
    assert all + added == (all[..k] + dropped) + after;
  }

  // Over a whole run, from any directory and under any failures, reading the slots oldest first
  // gives a suffix of what was there at first followed by the records reported as written.
  lemma {:induction false} RunKeepsSuffix(limits: Limits, s: Sink, events: seq<(Record, Faults)>)
    requires limits.maxFiles >= 1
    ensures var (t, written) := Run(limits, s, events);
      IsSuffix(Read(t.dir, limits.maxFiles), Read(s.dir, limits.maxFiles) + written)
  {
    if events != [] {
      var n := |events| - 1;
      var (r, faults) := events[n];
      var (s1, written) := Run(limits, s, events[..n]);
      var (s2, success) := Emit(limits, s1, r, faults);
      var all := Read(s.dir, limits.maxFiles) + written;
      var added := if success then [r] else [];
      RunKeepsSuffix(limits, s, events[..n]);
      EmitConserves(limits, s1, r, faults);
      var dropped := EmitDrops(limits, s1, r, faults);
      SuffixStep(Read(s1.dir, limits.maxFiles), all, added, dropped, Read(s2.dir, limits.maxFiles));
      assert Read(s.dir, limits.maxFiles) + Run(limits, s, events).1 == all + added;
    }
  }
}
