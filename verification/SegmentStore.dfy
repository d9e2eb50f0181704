/** What one data session leaves on disk: segment files, their registered rows and the session row
    (runtime/canx/data/parquet.py, repository.py, session.py). Every durable step is recorded, so
    what holds of the recorded states holds wherever the process might stop. */
module SegmentStore {
  import opened Wrappers
  import opened DataModel
  import opened CanFrame

  /** The sequence number and the timestamp of one frame, as the metadata columns keep them. */
  datatype Mark = Mark(sequence: nat, timestamp: real)

  datatype SessionRow = SessionRow(
    state: SessionState,
    frameCount: nat,
    segmentCount: nat,
    first: Option<Mark>,
    last: Option<Mark>)

  datatype FileName = SegmentFile(index: nat) | TemporaryFile(index: nat)

  /** A complete file carries the segment index in its footer. */
  datatype StoredFile = Partial(byteSize: nat) | Complete(footer: nat, frames: seq<Frame>, byteSize: nat)

  datatype SegmentRow = SegmentRow(
    index: nat,
    path: FileName,
    frameCount: nat,
    first: Mark,
    last: Mark,
    byteSize: nat)

  datatype Disk = Disk(files: map<FileName, StoredFile>, segments: seq<SegmentRow>, session: SessionRow)

  function MarkOf(f: Frame): Mark {
    Mark(f.sequence, f.normalizedTimestamp)
  }

  // ----- what a consistent disk is ------------------------------------------

  /** The row tells the truth about its file. */
  predicate Describes(row: SegmentRow, k: nat, file: StoredFile) {
    && row.index == k && row.path == SegmentFile(k)
    && file.Complete? && file.footer == k && file.frames != []
    && row.frameCount == |file.frames| && row.byteSize == file.byteSize
    && row.first == MarkOf(file.frames[0]) && row.last == MarkOf(file.frames[|file.frames| - 1])
  }

  predicate Backed(d: Disk, k: nat)
    requires k < |d.segments|
  {
    SegmentFile(k) in d.files && Describes(d.segments[k], k, d.files[SegmentFile(k)])
  }

  function SumFrames(segments: seq<SegmentRow>): nat {
    if segments == [] then 0 else SumFrames(segments[..|segments| - 1]) + segments[|segments| - 1].frameCount
  }

  /** The session counters are the aggregates of the registered rows. */
  predicate Totals(session: SessionRow, segments: seq<SegmentRow>) {
    && session.segmentCount == |segments| && session.frameCount == SumFrames(segments)
    && (segments == [] ==> session.first.None? && session.last.None?)
    && (segments != [] ==> session.first == Some(segments[0].first) && session.last == Some(segments[|segments| - 1].last))
  }

  /** Every registered row has its complete file and only the next segment may be unfinished. */
  ghost predicate CrashSafe(d: Disk) {
    && (forall k :: 0 <= k < |d.segments| ==> Backed(d, k))
    && Totals(d.session, d.segments)
    && (forall n :: n in d.files ==> NextOnly(n, |d.segments|))
  }

  predicate NextOnly(n: FileName, count: nat) {
    n.index <= count && (n.TemporaryFile? ==> n.index == count)
  }

  /** e still has everything d had registered. */
  ghost predicate Extends(d: Disk, e: Disk) {
    && d.segments <= e.segments
    && forall k :: 0 <= k < |d.segments| ==> FramesOf(e, k) == FramesOf(d, k)
  }

  function FramesOf(d: Disk, k: nat): seq<Frame> {
    if SegmentFile(k) in d.files && d.files[SegmentFile(k)].Complete? then d.files[SegmentFile(k)].frames else []
  }

  /** The committed frames: the contents of the first n segments, concatenated. */
  function Contents(d: Disk, n: nat): seq<Frame> {
    if n == 0 then [] else Contents(d, n - 1) + FramesOf(d, n - 1)
  }

  function Committed(d: Disk): seq<Frame> {
    Contents(d, |d.segments|)
  }

  lemma ExtendsTransitive(c: Disk, d: Disk, e: Disk)
    requires Extends(c, d) && Extends(d, e)
    ensures Extends(c, e)
  {
    forall k | 0 <= k < |c.segments| ensures FramesOf(e, k) == FramesOf(c, k) {
      assert FramesOf(e, k) == FramesOf(d, k);
    }
  }

  lemma {:induction false} ExtendedContents(d: Disk, e: Disk, n: nat)
    requires Extends(d, e) && n <= |d.segments|
    ensures Contents(e, n) == Contents(d, n)
  {
    if n > 0 {
      ExtendedContents(d, e, n - 1);
    }
  }

  /** The registered frame count is the number of committed frames. */
  lemma {:induction false} CountersCountTheCommittedFrames(d: Disk, n: nat)
    requires CrashSafe(d) && n <= |d.segments|
    ensures SumFrames(d.segments[..n]) == |Contents(d, n)|
  {
    if n > 0 {
      CountersCountTheCommittedFrames(d, n - 1);
      assert d.segments[..n][..n - 1] == d.segments[..n - 1];
      assert Backed(d, n - 1);
    }
  }

  // ----- durable steps ------------------------------------------------------

  function WithFile(d: Disk, n: FileName, f: StoredFile): Disk {
    d.(files := d.files[n := f])
  }

  function WithoutFile(d: Disk, n: FileName): Disk {
    d.(files := d.files - {n})
  }

  /** os.replace of the temporary file onto the final name. */
  function Replaced(d: Disk, k: nat, f: StoredFile): Disk {
    d.(files := (d.files - {TemporaryFile(k)})[SegmentFile(k) := f])
  }

  /** The registration transaction: the segment row and the whole session row, together. */
  function Registered(d: Disk, row: SegmentRow, session: SessionRow): Disk {
    d.(segments := d.segments + [row], session := session)
  }

  function WithState(d: Disk, state: SessionState): Disk {
    d.(session := d.session.(state := state))
  }

  /** Two disks that differ only in unregistered files. */
  ghost predicate SameRegistry(d: Disk, e: Disk) {
    && e.segments == d.segments && e.session == d.session
    && (forall k :: 0 <= k < |d.segments| ==>
          (SegmentFile(k) in e.files <==> SegmentFile(k) in d.files)
          && (SegmentFile(k) in e.files ==> e.files[SegmentFile(k)] == d.files[SegmentFile(k)]))
    && (forall n :: n in e.files ==> n in d.files || NextOnly(n, |d.segments|))
  }

  /** Nothing but the file n was created, changed or removed. */
  ghost predicate OtherFilesKept(d: Disk, e: Disk, n: FileName) {
    forall m :: m != n ==> (m in e.files <==> m in d.files) && (m in e.files ==> e.files[m] == d.files[m])
  }

  lemma UnregisteredFilesAreSafe(d: Disk, e: Disk)
    requires CrashSafe(d) && SameRegistry(d, e)
    ensures CrashSafe(e) && Extends(d, e)
  {
    forall k | 0 <= k < |e.segments| ensures Backed(e, k) {
      assert Backed(d, k);
    }
  }

  lemma RegistrationIsSafe(d: Disk, row: SegmentRow, session: SessionRow)
    requires CrashSafe(d) && Totals(session, d.segments + [row])
    requires SegmentFile(|d.segments|) in d.files && TemporaryFile(|d.segments|) !in d.files
    requires Describes(row, |d.segments|, d.files[SegmentFile(|d.segments|)])
    ensures var e := Registered(d, row, session);
            CrashSafe(e) && Extends(d, e) && Committed(e) == Committed(d) + d.files[SegmentFile(|d.segments|)].frames
  {
    var e := Registered(d, row, session);
    forall k | 0 <= k < |e.segments| ensures Backed(e, k) {
      assert k < |d.segments| ==> Backed(d, k);
    }
    ExtendedContents(d, e, |d.segments|);
  }

  // ----- inspection ---------------------------------------------------------

  datatype IntegrityReport = IntegrityReport(
    temporaryFiles: seq<FileName>,
    orphanSegments: seq<FileName>,
    missingSegments: seq<FileName>,
    metadataMismatches: seq<FileName>)

  predicate Known(d: Disk, n: FileName) {
    exists k :: 0 <= k < |d.segments| && d.segments[k].path == n
  }

  predicate MissingRow(d: Disk, row: SegmentRow) {
    row.path !in d.files
  }

  predicate MismatchedRow(d: Disk, row: SegmentRow) {
    row.path in d.files && d.files[row.path].byteSize != row.byteSize
  }

  /** inspect_integrity: listing holds the file names a walk of the session directory finds. */
  method InspectIntegrity(d: Disk, listing: seq<FileName>) returns (report: IntegrityReport)
    requires forall n :: n in listing <==> n in d.files
    ensures forall n :: n in report.temporaryFiles <==> n in d.files && n.TemporaryFile?
    ensures forall n :: n in report.orphanSegments <==> n in d.files && n.SegmentFile? && !Known(d, n)
    ensures forall n :: n in report.missingSegments <==>
              exists k :: 0 <= k < |d.segments| && d.segments[k].path == n && MissingRow(d, d.segments[k])
    ensures forall n :: n in report.metadataMismatches <==>
              exists k :: 0 <= k < |d.segments| && d.segments[k].path == n && MismatchedRow(d, d.segments[k])
  {
    var temporary, orphans := ScanFiles(d, listing);
    var missing: seq<FileName>, mismatches: seq<FileName> := [], [];
    for k := 0 to |d.segments|
      invariant forall n :: n in missing <==>
                  exists j :: 0 <= j < k && d.segments[j].path == n && MissingRow(d, d.segments[j])
      invariant forall n :: n in mismatches <==>
                  exists j :: 0 <= j < k && d.segments[j].path == n && MismatchedRow(d, d.segments[j])
    {
      var row := d.segments[k];
      if row.path !in d.files {
        missing := missing + [row.path];
      } else if d.files[row.path].byteSize != row.byteSize {
        mismatches := mismatches + [row.path];
      }
    }
    report := IntegrityReport(temporary, orphans, missing, mismatches);
  }

  method ScanFiles(d: Disk, listing: seq<FileName>) returns (temporary: seq<FileName>, orphans: seq<FileName>)
    requires forall n :: n in listing <==> n in d.files
    ensures forall n :: n in temporary <==> n in d.files && n.TemporaryFile?
    ensures forall n :: n in orphans <==> n in d.files && n.SegmentFile? && !Known(d, n)
  {
    temporary, orphans := [], [];
    for i := 0 to |listing|
      invariant forall n :: n in temporary <==> n in listing[..i] && n.TemporaryFile?
      invariant forall n :: n in orphans <==> n in listing[..i] && n.SegmentFile? && !Known(d, n)
    {
      var n := listing[i];
      assert listing[..i + 1] == listing[..i] + [n];
      if n.TemporaryFile? {
        temporary := temporary + [n];
      } else if !Known(d, n) {
        orphans := orphans + [n];
      }
    }
    assert listing[..|listing|] == listing;
  }

  /** Inspecting a crash-safe disk finds no missing and no mismatched segment, and at most the file
      of the next segment as a temporary file or an orphan. */
  lemma CrashSafeInspectsClean(d: Disk)
    requires CrashSafe(d)
    ensures forall k :: 0 <= k < |d.segments| ==> !MissingRow(d, d.segments[k]) && !MismatchedRow(d, d.segments[k])
    ensures forall n :: n in d.files && n.TemporaryFile? ==> n == TemporaryFile(|d.segments|)
    ensures forall n :: n in d.files && n.SegmentFile? && !Known(d, n) ==> n == SegmentFile(|d.segments|)
  {
    forall k | 0 <= k < |d.segments| ensures !MissingRow(d, d.segments[k]) && !MismatchedRow(d, d.segments[k]) {
      assert Backed(d, k);
    }
    forall n | n in d.files && n.SegmentFile? && n.index < |d.segments| ensures Known(d, n) {
      assert Backed(d, n.index);
    }
    assert forall n :: n in d.files ==> NextOnly(n, |d.segments|);
  }

  datatype ReadError = NotRegistered | PathMismatch | FileMissing | Unreadable | FooterMismatch | FrameCountMismatch | ByteSizeMismatch | SequenceMismatch

  /** read_segment: refuses a file that contradicts its row. */
  function ReadSegment(d: Disk, k: nat): Result<seq<Frame>, ReadError> {
    if k >= |d.segments| then Failure(NotRegistered)
    else
      var row := d.segments[k];
      if row.path !in d.files then Failure(FileMissing)
      else if row.path != SegmentFile(row.index) then Failure(PathMismatch)
      else
        var file := d.files[row.path];
        if file.Partial? || file.frames == [] then Failure(Unreadable)
        else if file.footer != row.index then Failure(FooterMismatch)
        else if |file.frames| != row.frameCount then Failure(FrameCountMismatch)
        else if file.byteSize != row.byteSize then Failure(ByteSizeMismatch)
        else if file.frames[0].sequence != row.first.sequence || file.frames[|file.frames| - 1].sequence != row.last.sequence then
          Failure(SequenceMismatch)
        else Success(file.frames)
  }

  /** A read returns these frames exactly when the registered, canonical file is complete, carries the
      index, and agrees with its row in size, frame count and sequence bounds. */
  lemma ReadsExactly(d: Disk, k: nat, frames: seq<Frame>)
    ensures ReadSegment(d, k) == Success(frames) <==>
              && k < |d.segments| && frames != []
              && (var row := d.segments[k];
                  && row.path == SegmentFile(row.index) && row.path in d.files
                  && d.files[row.path] == Complete(row.index, frames, row.byteSize) && |frames| == row.frameCount
                  && frames[0].sequence == row.first.sequence && frames[|frames| - 1].sequence == row.last.sequence)
  {
  }

  /** Whatever was registered before a crash reads back unchanged on any later disk. */
  lemma RegisteredSegmentsReadBack(d: Disk, e: Disk, k: nat)
    requires CrashSafe(d) && CrashSafe(e) && Extends(d, e) && k < |d.segments|
    ensures ReadSegment(e, k) == ReadSegment(d, k) == Success(FramesOf(d, k))
  {
    assert Backed(d, k) && Backed(e, k);
    assert e.segments[k] == d.segments[k] && FramesOf(e, k) == FramesOf(d, k);
  }

  // ----- the store ----------------------------------------------------------

  /** The project database and the session directory. Whether an operation on them fails is not the
      program's choice: the store's storage is given, and every fault is the storage's. */
  class ProjectStore {
    /** The storage: whether its n-th operation fails. */
    const faulty: nat -> bool
    var disk: Disk
    /** The operations so far. */
    var calls: nat
    /** Every durable state so far. */
    ghost var history: seq<Disk>

    ghost predicate Valid()
      reads this`disk, this`history
    {
      && history != [] && history[|history| - 1] == disk
      && (forall i :: 0 <= i < |history| ==> CrashSafe(history[i]))
      && (forall i, j :: 0 <= i <= j < |history| ==> Extends(history[i], history[j]))
    }

    /** No operation since the given one failed. */
    ghost predicate SoundSince(from: nat)
      reads this`calls
    {
      forall i :: from <= i < calls ==> !faulty(i)
    }

    constructor (faulty: nat -> bool)
      ensures Valid() && disk == Disk(map[], [], SessionRow(Active, 0, 0, None, None)) && this.faulty == faulty
    {
      this.faulty := faulty;
      disk := Disk(map[], [], SessionRow(Active, 0, 0, None, None));
      calls := 0;
      history := [Disk(map[], [], SessionRow(Active, 0, 0, None, None))];
    }

    /** One operation on the storage. */
    method Attempt() returns (fault: bool)
      modifies this`calls
      ensures calls == old(calls) + 1 && fault == faulty(old(calls))
    {
      fault := faulty(calls);
      calls := calls + 1;
    }

    /** One durable step. */
    method Commit(next: Disk)
      requires Valid() && CrashSafe(next) && Extends(disk, next)
      modifies this`disk, this`history
      ensures Valid() && disk == next && history == old(history) + [next]
    {
      forall i | 0 <= i < |history| ensures Extends(history[i], next) {
        assert Extends(history[i], history[|history| - 1]);
        ExtendsTransitive(history[i], disk, next);
      }
      disk := next;
      history := history + [next];
    }

    /** Best-effort removal of a file no row describes. */
    method RemoveQuietly(n: FileName)
      requires Valid() && n.index == |disk.segments|
      modifies this
      ensures Valid() && SameRegistry(old(disk), disk) && old(history) <= history
      ensures calls == old(calls) + 1
      ensures disk == if faulty(old(calls)) then old(disk) else WithoutFile(old(disk), n)
    {
      var fault := Attempt();
      if !fault {
        UnregisteredFilesAreSafe(disk, WithoutFile(disk, n));
        Commit(WithoutFile(disk, n));
      }
    }

    /** write_segment: a temporary file, complete before it takes the final name. Two operations make
        the file; when either fails, a third cleans up. */
    method WriteSegment(k: nat, frames: seq<Frame>) returns (byteSize: Option<nat>)
      requires Valid() && k == |disk.segments| && frames != []
      modifies this
      ensures Valid() && SameRegistry(old(disk), disk) && old(history) <= history && old(calls) < calls
      ensures byteSize.Some? <==> SoundSince(old(calls))
      ensures byteSize.Some? ==>
                SegmentFile(k) in disk.files && disk.files[SegmentFile(k)] == Complete(k, frames, byteSize.value)
                && TemporaryFile(k) !in disk.files
      ensures byteSize.None? ==> OtherFilesKept(old(disk), disk, TemporaryFile(k))
      ensures byteSize.None? && !faulty(calls - 1) ==> TemporaryFile(k) !in disk.files
    {
      var written := WriteTemporary(k, frames);
      if written.None? {
        RemoveQuietly(TemporaryFile(k));
        return None;
      }
      var fault := Attempt();
      if fault {
        RemoveQuietly(TemporaryFile(k));
        return None;
      }
      var next := Replaced(disk, k, disk.files[TemporaryFile(k)]);
      UnregisteredFilesAreSafe(disk, next);
      Commit(next);
      return written;
    }

    /** The table is written in place under the temporary name, in as many pieces as it takes. */
    method WriteTemporary(k: nat, frames: seq<Frame>) returns (byteSize: Option<nat>)
      requires Valid() && k == |disk.segments|
      modifies this
      ensures Valid() && SameRegistry(old(disk), disk) && old(history) <= history
      ensures calls == old(calls) + 1 && (byteSize.None? <==> faulty(old(calls)))
      ensures byteSize.Some? ==>
                TemporaryFile(k) in disk.files && disk.files[TemporaryFile(k)] == Complete(k, frames, byteSize.value)
      ensures OtherFilesKept(old(disk), disk, TemporaryFile(k))
    {
      var fault := Attempt();
      var pieces: nat :| true;
      for i := 0 to pieces
        invariant Valid() && SameRegistry(old(disk), disk) && old(history) <= history
        invariant calls == old(calls) + 1 && OtherFilesKept(old(disk), disk, TemporaryFile(k))
      {
        PutTemporary(k, Partial(i));
      }
      if fault {
        return None;
      }
      var size: nat :| true;
      PutTemporary(k, Complete(k, frames, size));
      return Some(size);
    }

    method PutTemporary(k: nat, f: StoredFile)
      requires Valid() && k == |disk.segments|
      modifies this`disk, this`history
      ensures Valid() && old(history) <= history && SameRegistry(old(disk), disk)
      ensures disk == WithFile(old(disk), TemporaryFile(k), f)
    {
      UnregisteredFilesAreSafe(disk, WithFile(disk, TemporaryFile(k), f));
      Commit(WithFile(disk, TemporaryFile(k), f));
    }

    /** register_segment: both rows land, or, after a fault, neither does. */
    method RegisterSegment(row: SegmentRow, session: SessionRow) returns (ok: bool)
      requires Valid() && Totals(session, disk.segments + [row])
      requires SegmentFile(|disk.segments|) in disk.files && TemporaryFile(|disk.segments|) !in disk.files
      requires Describes(row, |disk.segments|, disk.files[SegmentFile(|disk.segments|)])
      modifies this
      ensures Valid() && old(history) <= history
      ensures calls == old(calls) + 1 && (ok <==> !faulty(old(calls)))
      ensures disk == if ok then Registered(old(disk), row, session) else old(disk)
    {
      var fault := Attempt();
      if fault {
        return false;
      }
      RegistrationIsSafe(disk, row, session);
      Commit(Registered(disk, row, session));
      return true;
    }

    /** advance_session_state, fail_active_session and mark_session_interrupted: only an ACTIVE row
        moves. None is a storage fault. */
    method AdvanceState(to: SessionState) returns (advanced: Option<bool>)
      requires Valid()
      modifies this
      ensures Valid() && old(history) <= history
      ensures calls == old(calls) + 1
      ensures advanced == if faulty(old(calls)) then None else Some(old(disk).session.state.Active?)
      ensures disk == if advanced == Some(true) then WithState(old(disk), to) else old(disk)
    {
      var fault := Attempt();
      if fault {
        return None;
      }
      if !disk.session.state.Active? {
        return Some(false);
      }
      var next := WithState(disk, to);
      assert CrashSafe(next) by {
        forall k | 0 <= k < |next.segments| ensures Backed(next, k) {
          assert Backed(disk, k);
        }
      }
      Commit(next);
      return Some(true);
    }
  }
}
