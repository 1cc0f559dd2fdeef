/** The rotating audit log: what one rotation and one `emit` do to the directory, and what
  * a whole run of them does.  Slot 0 is the live file `path`, slot `k` is `path.k`.
  * Every file operation may fail; the faults of one `emit` are an argument of it. */
module AuditLog {
  // One serialised event with its newline, and a file as the records written to it.
  type Record = string
  type File = seq<Record>
  type Directory = map<nat, File>

  // The limits of a sink. The constructor clamps the number of rotated files to at least one.
  datatype Limits = Limits(maxBytes: nat, maxFiles: nat)

  // Which operations of one `emit` fail. `removes` and `renames` hold the loop indices at which
  // `remove_file` and `rename` fail. A failing operation changes nothing.
  datatype Faults = Faults(
    serialize: bool,
    removes: set<nat>,
    renames: set<nat>,
    truncatingOpen: bool,
    appendingOpen: bool,
    metadata: bool,
    write: bool)

  const NO_FAULTS := Faults(false, {}, {}, false, false, false, false)

  // The directory together with the mutex-guarded state of the sink. `open` is whether the
  // handle is present; a handle always refers to slot 0.
  datatype Sink = Sink(dir: Directory, open: bool, bytesWritten: nat)

  function Length(file: File): nat {
    if file == [] then 0 else |file[0]| + Length(file[1..])
  }

  function Slot(dir: Directory, k: nat): File {
    if k in dir then dir[k] else []
  }

  // The directory after `rename(path.(k-1), path.k)`.
  function Moved(dir: Directory, k: nat): Directory
    requires k >= 1 && k - 1 in dir
  {
    (dir - {k, k - 1})[k := dir[k - 1]]
  }

  // Iterations k, k-1, .., 1 of the rename loop, and whether all of them succeeded.
  function Shift(dir: Directory, k: nat, faults: Faults): (Directory, bool)
    decreases k
  {
    if k == 0 then (dir, true)
    else if k - 1 !in dir then Shift(dir, k - 1, faults)
    else if k in dir && k in faults.removes then (dir, false)
    else if k in faults.renames then (dir - {k}, false)
    else Shift(Moved(dir, k), k - 1, faults)
  }

  function Rotate(limits: Limits, s: Sink, faults: Faults): (Sink, bool) {
    var (dir, shifted) := Shift(s.dir, limits.maxFiles, faults);
    if !shifted || faults.truncatingOpen then
      (Sink(dir, false, s.bytesWritten), false)
    else
      (Sink(dir[0 := []], true, 0), true)
  }

  // Reopening a closed live file for appending; the counter is re-read from its metadata.
  function Reopen(s: Sink, faults: Faults): (Sink, bool) {
    if s.open then (s, true)
    else if faults.appendingOpen then (s, false)
    else
      (Sink(s.dir[0 := Slot(s.dir, 0)], true, if faults.metadata then 0 else Length(Slot(s.dir, 0))), true)
  }

  // Writing one record to the live file. A failing write writes nothing.
  function Append(s: Sink, r: Record, faults: Faults): (Sink, bool) {
    var (s1, reopened) := Reopen(s, faults);
    if !reopened || faults.write then (s1, false)
    else (Sink(s1.dir[0 := Slot(s1.dir, 0) + [r]], true, s1.bytesWritten + |r|), true)
  }

  function MustRotate(limits: Limits, s: Sink, r: Record): bool {
    s.bytesWritten + |r| > limits.maxBytes
  }

  // One `emit`, and whether it reported success.
  function Emit(limits: Limits, s: Sink, r: Record, faults: Faults): (Sink, bool) {
    if faults.serialize then (s, false)
    else
      var (s1, rotated) := if MustRotate(limits, s, r) then Rotate(limits, s, faults) else (s, true);
      if !rotated then (s1, false) else Append(s1, r, faults)
  }

  // The constructor: open for appending, creating the live file when it is missing, and count
  // from zero when its metadata cannot be read.
  function Open(dir: Directory, metadataFails: bool := false): Sink {
    Sink(dir[0 := Slot(dir, 0)], true, if metadataFails then 0 else Length(Slot(dir, 0)))
  }

  // A whole run: the final sink and the records whose `emit` reported success, in order.
  function Run(limits: Limits, s: Sink, events: seq<(Record, Faults)>): (Sink, seq<Record>) {
    if events == [] then (s, [])
    else
      var n := |events| - 1;
      var (s1, written) := Run(limits, s, events[..n]);
      var (s2, success) := Emit(limits, s1, events[n].0, events[n].1);
      (s2, if success then written + [events[n].0] else written)
  }

  // Reading `path.k`, .., `path.1`, `path` one after the other: oldest record first.
  function Read(dir: Directory, k: nat): seq<Record> {
    Slot(dir, k) + if k == 0 then [] else Read(dir, k - 1)
  }

  ghost predicate IsSuffix(a: seq<Record>, b: seq<Record>) {
    |a| <= |b| && b[|b| - |a|..] == a
  }
}
