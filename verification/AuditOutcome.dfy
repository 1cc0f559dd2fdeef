/** What becomes of one `emit`: exactly when it succeeds, and what it leaves in each slot. */
module AuditOutcome {
  import opened AuditLog
  import opened AuditContent

  // None of the removes and renames that a rotation reaches fails. Only slot n can need removing:
  // every lower slot has moved up by the time it is a target.
  predicate CanShift(dir: Directory, n: nat, faults: Faults) {
    && (n >= 1 && n - 1 in dir && n in dir ==> n !in faults.removes)
    && forall k: nat :: 1 <= k <= n && k - 1 in dir ==> k !in faults.renames
  }

  lemma {:induction false} ShiftSucceedsExactly(dir: Directory, k: nat, faults: Faults)
    ensures Shift(dir, k, faults).1 <==> CanShift(dir, k, faults)
    decreases k
  {
    if k == 0 {
    } else if k - 1 !in dir {
      ShiftSucceedsExactly(dir, k - 1, faults);
    } else if (k in dir && k in faults.removes) || k in faults.renames {
    } else {
      ShiftSucceedsExactly(Moved(dir, k), k - 1, faults);
    }
  }

  // A shift that succeeds in spite of faults it does not reach is a shift without faults.
  lemma {:induction false} SuccessIsFaultless(dir: Directory, k: nat, faults: Faults)
    requires Shift(dir, k, faults).1
    ensures Shift(dir, k, faults) == Shift(dir, k, NO_FAULTS)
    decreases k
  {
    if k > 0 {
      SuccessIsFaultless(if k - 1 in dir then Moved(dir, k) else dir, k - 1, faults);
    }
  }

  // No operation that the `emit` reaches fails: serialising, then either the shift and the
  // truncating open or the appending open of a closed file, then the write.
  predicate Unhindered(limits: Limits, s: Sink, r: Record, faults: Faults) {
    && !faults.serialize && !faults.write
    && if s.bytesWritten + |r| > limits.maxBytes
       then CanShift(s.dir, limits.maxFiles, faults) && !faults.truncatingOpen
       else s.open || !faults.appendingOpen
  }

  lemma EmitSucceedsExactly(limits: Limits, s: Sink, r: Record, faults: Faults)
    ensures Emit(limits, s, r, faults).1 <==> Unhindered(limits, s, r, faults)
  {
    ShiftSucceedsExactly(s.dir, limits.maxFiles, faults);
  }

  // From any state, open or closed, with or without a live file, a run without failures accepts
  // every record.
  lemma {:induction false} FaultlessRunAcceptsAll(limits: Limits, s: Sink, events: seq<(Record, Faults)>)
    requires forall i :: 0 <= i < |events| ==> events[i].1 == NO_FAULTS
    ensures var written := Run(limits, s, events).1;
      |written| == |events| && forall i :: 0 <= i < |events| ==> written[i] == events[i].0
  {
    if events != [] {
      var n := |events| - 1;
      FaultlessRunAcceptsAll(limits, s, events[..n]);
      EmitSucceedsExactly(limits, Run(limits, s, events[..n]).0, events[n].0, NO_FAULTS);
    }
  }

  // Slot j after all slots 0..n have moved up by one at once.
  function ShiftedSlot(dir: Directory, n: nat, j: nat): File {
    if j > n then Slot(dir, j)
    else if j == 0 then []
    else if j == n && n - 1 !in dir then Slot(dir, n)
    else Slot(dir, j - 1)
  }

  // What an accepted record leaves: the sink is open, the live file ends in the record, behind
  // what it held or at the start of a new one, and the other files are as they were or moved up
  // by one.
  lemma AcceptedRecordIsWritten(limits: Limits, s: Sink, r: Record, faults: Faults)
    requires limits.maxFiles >= 1 && Emit(limits, s, r, faults).1
    ensures var t := Emit(limits, s, r, faults).0;
      var rotates := s.bytesWritten + |r| > limits.maxBytes;
      && t.open && 0 in t.dir && t.dir[0] == (if rotates then [] else Slot(s.dir, 0)) + [r]
      && (forall j: nat :: j >= 1 ==>
            Slot(t.dir, j) == if rotates then ShiftedSlot(s.dir, limits.maxFiles, j) else Slot(s.dir, j))
      && t.bytesWritten == |r| + if rotates then 0 else if s.open then s.bytesWritten
                                 else if faults.metadata then 0 else Length(Slot(s.dir, 0))
  {
    var t := Emit(limits, s, r, faults).0;
    if s.bytesWritten + |r| > limits.maxBytes {
      SuccessIsFaultless(s.dir, limits.maxFiles, faults);
      var d := Shift(s.dir, limits.maxFiles, faults).0;
      forall j: nat ensures Slot(d, j) == ShiftedSlot(s.dir, limits.maxFiles, j) {
        ShiftIsSimultaneous(s.dir, limits.maxFiles, j);
      }
    }
  }

  // Where an interrupted shift stops: slots above m have moved up, those below have not, and slot
  // m is vacant, unless it is slot n that could not be removed.
  lemma {:induction false} ShiftStops(dir: Directory, n: nat, faults: Faults) returns (m: nat)
    requires !Shift(dir, n, faults).1
    ensures 1 <= m <= n && m - 1 in dir && (m in faults.renames || (m == n && m in dir && m in faults.removes))
    ensures var d := Shift(dir, n, faults).0;
      && (forall j: nat :: j < m ==> Slot(d, j) == Slot(dir, j))
      && (forall j: nat :: j > m ==> Slot(d, j) == ShiftedSlot(dir, n, j))
      && Slot(d, m) == if m == n && m in dir && m in faults.removes then dir[m] else []
    decreases n
  {
    if n - 1 !in dir {
      m := ShiftStops(dir, n - 1, faults);
    } else if (n in dir && n in faults.removes) || n in faults.renames {
      m := n;
    } else {
      m := ShiftStops(Moved(dir, n), n - 1, faults);
    }
  }

  // What a refused record leaves: without a rotation no file's content changes, though a closed
  // live file may have been reopened; with one, the slots have moved as far as the shift got.
  lemma RefusedRecordIsNowhere(limits: Limits, s: Sink, r: Record, faults: Faults)
    requires limits.maxFiles >= 1 && !Emit(limits, s, r, faults).1
    ensures var t := Emit(limits, s, r, faults).0;
      if faults.serialize then t == s
      else if s.bytesWritten + |r| <= limits.maxBytes then
        && (forall j: nat :: Slot(t.dir, j) == Slot(s.dir, j))
        && (if s.open || faults.appendingOpen then t == s
            else t.open && 0 in t.dir && t.bytesWritten == if faults.metadata then 0 else Length(Slot(s.dir, 0)))
      else if CanShift(s.dir, limits.maxFiles, faults) then
        && (forall j: nat :: Slot(t.dir, j) == ShiftedSlot(s.dir, limits.maxFiles, j))
        && (if faults.truncatingOpen then !t.open && 0 !in t.dir && t.bytesWritten == s.bytesWritten
            else t.open && 0 in t.dir && t.bytesWritten == 0)
      else t == Sink(Shift(s.dir, limits.maxFiles, faults).0, false, s.bytesWritten)
  {
    ShiftSucceedsExactly(s.dir, limits.maxFiles, faults);
    if !faults.serialize && s.bytesWritten + |r| > limits.maxBytes && CanShift(s.dir, limits.maxFiles, faults) {
      SuccessIsFaultless(s.dir, limits.maxFiles, faults);
      ShiftVacatesLiveSlot(s.dir, limits.maxFiles, faults);
      forall j: nat ensures Slot(Shift(s.dir, limits.maxFiles, faults).0, j) == ShiftedSlot(s.dir, limits.maxFiles, j) {
        ShiftIsSimultaneous(s.dir, limits.maxFiles, j);
      }
    }
  }
}
