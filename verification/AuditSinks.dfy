/** The audit sink as the object it is in llmd: a directory, a handle and a byte counter updated
  * in place by a descending rename loop. Its methods compute exactly the functions of AuditLog. */
module AuditSinks {
  import opened AuditLog
  import opened AuditContent
  import opened AuditOutcome
  import opened AuditSizes

  // The file ends in the record.
  predicate Suffixed(file: File, r: Record) {
    file != [] && file[|file| - 1] == r
  }

  class JsonlFileAuditSink {
    const maxBytes: nat
    const maxFiles: nat
    var dir: Directory
    var open: bool
    var bytesWritten: nat
    var writeFailures: nat
    var lastWriteFailed: bool

    ghost function Limits(): Limits {
      AuditLog.Limits(maxBytes, maxFiles)
    }

    ghost function State(): Sink
      reads this
    {
      Sink(dir, open, bytesWritten)
    }

    // Opens the live file of `existing` for appending. The number of rotated files is clamped.
    constructor (existing: Directory, maxBytes: nat, maxFiles: nat, metadataFails: bool)
      ensures State() == Open(existing, metadataFails) && Read(dir, maxFiles) == Read(existing, maxFiles)
      ensures Counted(State()) <==> !metadataFails || Length(Slot(existing, 0)) == 0
      ensures Limits() == AuditLog.Limits(maxBytes, if maxFiles < 1 then 1 else maxFiles)
      ensures writeFailures == 0 && !lastWriteFailed
    {
      this.maxBytes := maxBytes;
      this.maxFiles := if maxFiles < 1 then 1 else maxFiles;
      dir := existing[0 := Slot(existing, 0)];
      open := true;
      bytesWritten := if metadataFails then 0 else Length(Slot(existing, 0));
      ReadDependsOnSlots(existing[0 := Slot(existing, 0)], existing, maxFiles);
      writeFailures := 0;
      lastWriteFailed := false;
    }

    method RotateFiles(faults: Faults) returns (ok: bool)
      requires maxFiles >= 1
      modifies this`dir, this`open, this`bytesWritten
      ensures (State(), ok) == Rotate(Limits(), old(State()), faults)
      ensures Read(old(dir), maxFiles) == Dropped(old(dir), maxFiles, faults) + Read(dir, maxFiles)
    {
      RotateLosesOnlyOldest(Limits(), State(), faults);
      ghost var s := State();
      ShiftVacatesLiveSlot(dir, maxFiles, faults);
      open := false;
      var idx := maxFiles;
      while idx >= 1
        invariant 0 <= idx <= maxFiles
        invariant Shift(dir, idx, faults) == Shift(s.dir, maxFiles, faults)
        invariant !open && bytesWritten == s.bytesWritten
      {
        if idx - 1 in dir {
          ghost var before := dir;
          if idx in dir {
            if idx in faults.removes {
              return false;
            }
            dir := dir - {idx};
          }
          assert dir == before - {idx};
          if idx in faults.renames {
            return false;
          }
          dir := (dir - {idx - 1})[idx := dir[idx - 1]];
          assert dir == Moved(before, idx);
        }
        idx := idx - 1;
      }
      // The truncating open creates the live file: it is never there to be truncated.
      assert 0 !in dir;
      if faults.truncatingOpen {
        return false;
      }
      dir := dir[0 := []];
      open := true;
      bytesWritten := 0;
      ok := true;
    }

    method Emit(r: Record, faults: Faults) returns (ok: bool)
      requires maxFiles >= 1
      modifies this
      ensures (State(), ok) == AuditLog.Emit(Limits(), old(State()), r, faults)
      ensures Read(old(dir), maxFiles) + (if ok then [r] else [])
           == EmitDrops(Limits(), old(State()), r, faults) + Read(dir, maxFiles)
      ensures ok <==> Unhindered(Limits(), old(State()), r, faults)
      ensures ok ==> open && 0 in dir && Suffixed(dir[0], r)
      ensures lastWriteFailed == !ok
      ensures writeFailures == old(writeFailures) + if ok then 0 else 1
    {
      EmitConserves(Limits(), State(), r, faults);
      if AuditLog.Emit(Limits(), State(), r, faults).1 {
        AcceptedRecordIsWritten(Limits(), State(), r, faults);
      }
      ok := TryEmit(r, faults);
      if !ok {
        writeFailures := writeFailures + 1;
      }
      lastWriteFailed := !ok;
    }

    // The body of `emit` up to its metrics call.
    method TryEmit(r: Record, faults: Faults) returns (ok: bool)
      requires maxFiles >= 1
      modifies this`dir, this`open, this`bytesWritten
      ensures (State(), ok) == AuditLog.Emit(Limits(), old(State()), r, faults)
      ensures ok <==> Unhindered(Limits(), old(State()), r, faults)
    {
      EmitSucceedsExactly(Limits(), State(), r, faults);
      if faults.serialize {
        return false;
      }
      if bytesWritten + |r| > maxBytes {
        var rotated := RotateFiles(faults);
        if !rotated {
          return false;
        }
      }
      if !open {
        if faults.appendingOpen {
          return false;
        }
        bytesWritten := if faults.metadata then 0 else Length(Slot(dir, 0));
        dir := dir[0 := Slot(dir, 0)];
        open := true;
      }
      if faults.write {
        return false;
      }
      dir := dir[0 := Slot(dir, 0) + [r]];
      bytesWritten := bytesWritten + |r|;
      ok := true;
    }
  }
}
