/** DataSessionWriter (runtime/canx/data/session.py): buffers accepted frames and commits them as
    bounded, consecutive segments. */
module SessionWriter {
  import opened Wrappers
  import opened DataModel
  import opened CanFrame
  import opened SegmentStore

  datatype WriterError =
    | NotActive
    | StreamMismatch
    | SequenceRegression
    | TimestampRegression
    | WriteFailed
    | RegistrationFailed
    | FinalizeFailed
    | CompletionRefused

  datatype Outcome = Done | Refused(error: WriterError)

  /** Timestamps never step back in frame order. */
  ghost predicate Ordered(frames: seq<Frame>) {
    forall i, j :: 0 <= i <= j < |frames| ==> frames[i].normalizedTimestamp <= frames[j].normalizedTimestamp
  }

  /** The batch may follow what was accepted: its first sequence number is next, except for the
      first batch of the session, and no timestamp steps back. */
  ghost predicate Continues(accepted: seq<Frame>, batch: seq<Frame>)
    requires batch != []
  {
    accepted == [] || batch[0].sequence == accepted[|accepted| - 1].sequence + 1
  }

  ghost predicate NoStepBack(accepted: seq<Frame>, batch: seq<Frame>)
    requires batch != []
  {
    Ordered(batch) && (accepted == [] || accepted[|accepted| - 1].normalizedTimestamp <= batch[0].normalizedTimestamp)
  }

  /** The first of append's checks that fails. */
  ghost function RefusalOf(state: SessionState, sameStream: bool, accepted: seq<Frame>, batch: seq<Frame>): Option<WriterError>
    requires batch != []
  {
    if !state.Active? then Some(NotActive)
    else if !sameStream then Some(StreamMismatch)
    else if !Continues(accepted, batch) then Some(SequenceRegression)
    else if !NoStepBack(accepted, batch) then Some(TimestampRegression)
    else None
  }

  /** Between 1 and max frames in every registered segment. */
  ghost predicate Bounded(segments: seq<SegmentRow>, max: nat) {
    forall k :: 0 <= k < |segments| ==> 1 <= segments[k].frameCount <= max
  }

  lemma AcceptedBatchKeepsOrder(accepted: seq<Frame>, batch: seq<Frame>)
    requires Consecutive(accepted) && Ordered(accepted) && ValidBatch(batch)
    requires Continues(accepted, batch) && NoStepBack(accepted, batch)
    ensures Consecutive(accepted + batch) && Ordered(accepted + batch)
  {
    var all, n := accepted + batch, |accepted|;
    forall i, j | 0 <= i <= j < |all|
      ensures all[j].sequence == all[i].sequence + (j - i) && all[i].normalizedTimestamp <= all[j].normalizedTimestamp
    {
      if i < n <= j {
        assert accepted[n - 1].sequence == accepted[i].sequence + (n - 1 - i);
        assert batch[j - n].sequence == batch[0].sequence + (j - n);
        assert accepted[i].normalizedTimestamp <= accepted[n - 1].normalizedTimestamp;
        assert batch[0].normalizedTimestamp <= batch[j - n].normalizedTimestamp;
      }
    }
  }

  /** The row registered for one more segment, and the session row that goes with it. */
  function RowFor(k: nat, frames: seq<Frame>, byteSize: nat): SegmentRow
    requires frames != []
  {
    SegmentRow(k, SegmentFile(k), |frames|, MarkOf(frames[0]), MarkOf(frames[|frames| - 1]), byteSize)
  }

  function SessionWith(session: SessionRow, frames: seq<Frame>): SessionRow
    requires frames != []
  {
    session.(
      frameCount := session.frameCount + |frames|,
      segmentCount := session.segmentCount + 1,
      first := if session.first.None? then Some(MarkOf(frames[0])) else session.first,
      last := Some(MarkOf(frames[|frames| - 1])))
  }

  lemma OneMoreSegmentTotals(session: SessionRow, segments: seq<SegmentRow>, frames: seq<Frame>, byteSize: nat)
    requires Totals(session, segments) && frames != []
    ensures Totals(SessionWith(session, frames), segments + [RowFor(|segments|, frames, byteSize)])
  {
    var row := RowFor(|segments|, frames, byteSize);
    assert (segments + [row])[..|segments|] == segments;
  }

  /** At most one more segment, of n frames. */
  ghost predicate Grew(before: seq<SegmentRow>, after: seq<SegmentRow>, n: nat, added: bool) {
    if added then |after| == |before| + 1 && before == after[..|before|] && after[|before|].frameCount == n
    else after == before
  }

  lemma StillFull(before: seq<SegmentRow>, after: seq<SegmentRow>, from: nat, max: nat, added: bool)
    requires FullSince(before, from, max) && Grew(before, after, max, added)
    ensures FullSince(after, from, max)
  {
    if added {
      assert forall k :: 0 <= k < |before| ==> after[k] == after[..|before|][k];
    }
  }

  /** The books of a writer: what is on disk, what is still pending, and what was accepted. */
  ghost predicate Accounts(d: Disk, session: SessionRow, max: nat, pending: seq<Frame>, accepted: seq<Frame>) {
    && Totals(session, d.segments) && Bounded(d.segments, max)
    && Consecutive(accepted) && Ordered(accepted)
    && Committed(d) + pending <= accepted
    && (session.state.Active? ==> Committed(d) + pending == accepted)
  }

  lemma AccountsIgnoreUnregisteredFiles(d: Disk, e: Disk, session: SessionRow, max: nat, pending: seq<Frame>, accepted: seq<Frame>)
    requires Accounts(d, session, max, pending, accepted) && SameRegistry(d, e)
    ensures Accounts(e, session, max, pending, accepted) && Committed(e) == Committed(d)
  {
    RegistryContents(d, e, |d.segments|);
  }

  lemma AccountsAfterFailure(d: Disk, e: Disk, session: SessionRow, max: nat, pending: seq<Frame>, accepted: seq<Frame>)
    requires Accounts(d, session, max, pending, accepted) && (e == d || e == WithState(d, Failed))
    ensures Accounts(e, session.(state := Failed), max, pending, accepted) && Committed(e) == Committed(d)
  {
    StateLeavesContents(d, Failed, |d.segments|);
  }

  lemma AccountsAfterAcceptance(d: Disk, session: SessionRow, max: nat, pending: seq<Frame>, accepted: seq<Frame>, batch: seq<Frame>)
    requires Accounts(d, session, max, pending, accepted) && session.state.Active? && ValidBatch(batch)
    requires Continues(accepted, batch) && NoStepBack(accepted, batch)
    ensures Accounts(d, session, max, pending + batch, accepted + batch)
  {
    AcceptedBatchKeepsOrder(accepted, batch);
    assert Committed(d) + (pending + batch) == (Committed(d) + pending) + batch;
  }

  lemma AccountsAfterRegistration(
    d: Disk, session: SessionRow, max: nat, pending: seq<Frame>, accepted: seq<Frame>, frames: seq<Frame>, byteSize: nat)
    requires CrashSafe(d) && Accounts(d, session, max, pending, accepted) && session.state.Active?
    requires 1 <= |frames| <= max && frames <= pending
    requires SegmentFile(|d.segments|) in d.files && d.files[SegmentFile(|d.segments|)] == Complete(|d.segments|, frames, byteSize)
    requires TemporaryFile(|d.segments|) !in d.files
    ensures var e := Registered(d, RowFor(|d.segments|, frames, byteSize), SessionWith(session, frames));
            Accounts(e, SessionWith(session, frames), max, pending[|frames|..], accepted) && Committed(e) == Committed(d) + frames
  {
    OneMoreSegmentTotals(session, d.segments, frames, byteSize);
    RegistrationIsSafe(d, RowFor(|d.segments|, frames, byteSize), SessionWith(session, frames));
    assert pending == frames + pending[|frames|..];
    assert Committed(d) + (frames + pending[|frames|..]) == (Committed(d) + frames) + pending[|frames|..];
  }

  lemma {:induction false} StateLeavesContents(d: Disk, state: SessionState, n: nat)
    ensures Contents(WithState(d, state), n) == Contents(d, n)
  {
    if n > 0 {
      StateLeavesContents(d, state, n - 1);
    }
  }

  lemma RowCountsTheCommittedFrames(d: Disk)
    requires CrashSafe(d)
    ensures d.session.frameCount == |Committed(d)|
  {
    CountersCountTheCommittedFrames(d, |d.segments|);
    assert d.segments[..|d.segments|] == d.segments;
  }

  lemma {:induction false} RegistryContents(d: Disk, e: Disk, n: nat)
    requires SameRegistry(d, e) && n <= |d.segments|
    ensures Contents(e, n) == Contents(d, n)
  {
    if n > 0 {
      RegistryContents(d, e, n - 1);
    }
  }

  lemma {:induction false} AdjacentOrderIsOrder(frames: seq<Frame>, i: nat, j: nat)
    requires forall k :: 0 < k < |frames| ==> frames[k - 1].normalizedTimestamp <= frames[k].normalizedTimestamp
    requires i <= j < |frames|
    ensures frames[i].normalizedTimestamp <= frames[j].normalizedTimestamp
    decreases j
  {
    if i < j {
      AdjacentOrderIsOrder(frames, i, j - 1);
    }
  }

  /** Every segment registered since there were `from` of them holds exactly max frames. */
  ghost predicate FullSince(segments: seq<SegmentRow>, from: nat, max: nat) {
    from <= |segments| && forall k :: from <= k < |segments| ==> segments[k].frameCount == max
  }

  class DataSessionWriter {
    const store: ProjectStore
    const streamId: string
    const maxFramesPerSegment: nat
    var session: SessionRow
    var buffer: seq<Frame>
    var lastAppendedSequence: Option<nat>
    var lastAppendedTimestamp: Option<real>
    /** Every frame a call has accepted, in order. */
    ghost var accepted: seq<Frame>

    ghost predicate Marks()
      reads this
    {
      && lastAppendedSequence == (if accepted == [] then None else Some(accepted[|accepted| - 1].sequence))
      && lastAppendedTimestamp == (if accepted == [] then None else Some(accepted[|accepted| - 1].normalizedTimestamp))
    }

    /** Holds throughout a call, with the part of the buffer that is not committed yet. */
    ghost predicate Consistent(pending: seq<Frame>)
      reads this, store
    {
      && store.Valid() && maxFramesPerSegment > 0 && Marks()
      && Accounts(store.disk, session, maxFramesPerSegment, pending, accepted)
    }

    /** Between calls an ACTIVE writer holds less than one full segment. */
    ghost predicate Valid()
      reads this, store
    {
      Consistent(buffer) && (session.state.Active? ==> |buffer| < maxFramesPerSegment)
    }

    /** A storage fault ended the session; nothing was lost from the books. */
    ghost predicate Faulted(r: Outcome)
      reads this, store
    {
      && r.Refused? && (r.error.WriteFailed? || r.error.RegistrationFailed?)
      && session.state.Failed? && Committed(store.disk) + buffer == accepted
    }

    /** Where an operation leaves the row: a refusal fails an ACTIVE one unless the update itself, the
        last operation on the storage, met a fault. */
    ghost function RowAfter(before: SessionState, r: Outcome): SessionState
      reads store
    {
      if r.Refused? && before.Active? && store.calls > 0 && !store.faulty(store.calls - 1) then Failed else before
    }

    /** The row's state once the segments of a call are registered: each brings the writer's own. */
    ghost function RowBefore(state: SessionState, segments: nat): SessionState
      reads store
    {
      if |store.disk.segments| == segments then state else Active
    }

    constructor (store: ProjectStore, streamId: string, maxFramesPerSegment: nat)
      requires store.Valid() && store.disk.segments == [] && maxFramesPerSegment > 0
      ensures Valid() && this.store == store && this.streamId == streamId && session.state.Active?
      ensures this.maxFramesPerSegment == maxFramesPerSegment && accepted == [] && buffer == []
    {
      this.store := store;
      this.streamId := streamId;
      this.maxFramesPerSegment := maxFramesPerSegment;
      session := SessionRow(Active, 0, 0, None, None);
      buffer := [];
      lastAppendedSequence, lastAppendedTimestamp := None, None;
      accepted := [];
    }

    /** The failure is certain in memory; in the database it takes one operation, which can fail. */
    method MarkFailed(ghost pending: seq<Frame>)
      requires Consistent(pending)
      modifies this`session, store
      ensures Consistent(pending) && session == old(session).(state := Failed)
      ensures Committed(store.disk) == old(Committed(store.disk)) && old(store.history) <= store.history
      ensures store.calls == old(store.calls) + 1
      ensures store.disk == if old(store.disk).session.state.Active? && !store.faulty(old(store.calls))
                            then WithState(old(store.disk), Failed) else old(store.disk)
    {
      var _ := store.AdvanceState(Failed);
      AccountsAfterFailure(old(store.disk), store.disk, session, maxFramesPerSegment, pending, accepted);
      session := session.(state := Failed);
    }

    /** _commit_segment: the file first, then both rows; the caller drops the frames afterwards. */
    method CommitSegment(frames: seq<Frame>) returns (r: Outcome)
      requires Consistent(buffer) && session.state.Active? && 1 <= |frames| <= maxFramesPerSegment && frames <= buffer
      modifies this`session, store
      ensures old(store.history) <= store.history
      ensures Grew(old(store.disk.segments), store.disk.segments, |frames|, r.Done?)
      ensures if r.Done? then Consistent(buffer[|frames|..]) && session.state.Active? else Consistent(buffer) && Faulted(r)
      ensures old(store.calls) < store.calls && (r.Done? <==> store.SoundSince(old(store.calls)))
      ensures store.disk.session.state == RowAfter(RowBefore(old(store.disk).session.state, old(|store.disk.segments|)), r)
    {
      var byteSize := store.WriteSegment(session.segmentCount, frames);
      AccountsIgnoreUnregisteredFiles(old(store.disk), store.disk, session, maxFramesPerSegment, buffer, accepted);
      if byteSize.None? {
        MarkFailed(buffer);
        return Refused(WriteFailed);
      }
      r := RegisterOrRemove(frames, byteSize.value);
    }

    method RegisterOrRemove(frames: seq<Frame>, byteSize: nat) returns (r: Outcome)
      requires Consistent(buffer) && session.state.Active? && 1 <= |frames| <= maxFramesPerSegment && frames <= buffer
      requires TemporaryFile(session.segmentCount) !in store.disk.files && SegmentFile(session.segmentCount) in store.disk.files
      requires store.disk.files[SegmentFile(session.segmentCount)] == Complete(session.segmentCount, frames, byteSize)
      modifies this`session, store
      ensures old(store.history) <= store.history
      ensures Grew(old(store.disk.segments), store.disk.segments, |frames|, r.Done?)
      ensures if r.Done? then Consistent(buffer[|frames|..]) && session.state.Active? else Consistent(buffer) && Faulted(r)
      ensures old(store.calls) < store.calls && (r.Done? <==> store.SoundSince(old(store.calls)))
      ensures store.disk.session.state == RowAfter(RowBefore(old(store.disk).session.state, old(|store.disk.segments|)), r)
    {
      var registered := Register(frames, byteSize);
      if !registered {
        DiscardSegment(session.segmentCount);
        return Refused(RegistrationFailed);
      }
      return Done;
    }

    method Register(frames: seq<Frame>, byteSize: nat) returns (ok: bool)
      requires Consistent(buffer) && session.state.Active? && 1 <= |frames| <= maxFramesPerSegment && frames <= buffer
      requires TemporaryFile(session.segmentCount) !in store.disk.files && SegmentFile(session.segmentCount) in store.disk.files
      requires store.disk.files[SegmentFile(session.segmentCount)] == Complete(session.segmentCount, frames, byteSize)
      modifies this`session, store
      ensures old(store.history) <= store.history
      ensures store.calls == old(store.calls) + 1 && (ok <==> !store.faulty(old(store.calls)))
      ensures ok ==> Consistent(buffer[|frames|..]) && session.state.Active? && store.disk.session == session
      ensures ok ==> Grew(old(store.disk.segments), store.disk.segments, |frames|, true)
      ensures !ok ==> Consistent(buffer) && session == old(session) && store.disk == old(store.disk)
    {
      var row, updated := RowFor(session.segmentCount, frames, byteSize), SessionWith(session, frames);
      OneMoreSegmentTotals(session, store.disk.segments, frames, byteSize);
      AccountsAfterRegistration(store.disk, session, maxFramesPerSegment, buffer, accepted, frames, byteSize);
      ok := store.RegisterSegment(row, updated);
      if ok {
        session := updated;
      }
    }

    /** No row will describe the file: remove it, or leave it to inspection as an orphan. */
    method DiscardSegment(k: nat)
      requires Consistent(buffer) && session.state.Active? && k == session.segmentCount
      modifies this`session, store
      ensures Consistent(buffer) && session == old(session).(state := Failed) && old(store.history) <= store.history
      ensures Committed(store.disk) == old(Committed(store.disk)) && store.disk.segments == old(store.disk.segments)
      ensures store.calls == old(store.calls) + 2
      ensures store.disk.session.state == RowAfter(old(store.disk).session.state, Refused(RegistrationFailed))
    {
      store.RemoveQuietly(SegmentFile(k));
      AccountsIgnoreUnregisteredFiles(old(store.disk), store.disk, session, maxFramesPerSegment, buffer, accepted);
      MarkFailed(buffer);
    }

    /** _flush_full_segments: cut full segments off the front of the buffer. */
    method FlushFullSegments() returns (r: Outcome)
      requires Consistent(buffer) && session.state.Active?
      modifies this`session, this`buffer, store
      ensures Valid() && old(store.history) <= store.history
      ensures FullSince(store.disk.segments, old(|store.disk.segments|), maxFramesPerSegment)
      ensures r.Done? ==> session.state.Active?
      ensures r.Refused? ==> Faulted(r)
      ensures old(store.calls) <= store.calls && (r.Done? <==> store.SoundSince(old(store.calls)))
      ensures store.disk.session.state == RowAfter(RowBefore(old(store.disk).session.state, old(|store.disk.segments|)), r)
    {
      while |buffer| >= maxFramesPerSegment
        invariant Consistent(buffer) && session.state.Active? && old(store.history) <= store.history
        invariant old(store.calls) <= store.calls && store.SoundSince(old(store.calls))
        invariant store.disk.session.state == RowBefore(old(store.disk).session.state, old(|store.disk.segments|))
        invariant FullSince(store.disk.segments, old(|store.disk.segments|), maxFramesPerSegment)
        decreases |buffer|
      {
        ghost var before := store.disk.segments;
        r := FlushOneSegment();
        StillFull(before, store.disk.segments, old(|store.disk.segments|), maxFramesPerSegment, r.Done?);
        if r.Refused? {
          return;
        }
      }
      return Done;
    }

    /** One round of the loop. */
    method FlushOneSegment() returns (r: Outcome)
      requires Consistent(buffer) && session.state.Active? && |buffer| >= maxFramesPerSegment
      modifies this`session, this`buffer, store
      ensures Consistent(buffer) && old(store.history) <= store.history
      ensures Grew(old(store.disk.segments), store.disk.segments, maxFramesPerSegment, r.Done?)
      ensures if r.Done? then session.state.Active? && |buffer| < old(|buffer|) else Faulted(r)
      ensures old(store.calls) < store.calls && (r.Done? <==> store.SoundSince(old(store.calls)))
      ensures store.disk.session.state == RowAfter(RowBefore(old(store.disk).session.state, old(|store.disk.segments|)), r)
    {
      r := CommitSegment(buffer[..maxFramesPerSegment]);
      if r.Done? {
        buffer := buffer[maxFramesPerSegment..];
      }
    }

    /** _require_ordered_timestamps. */
    method OrderedTimestamps(batch: seq<Frame>) returns (ok: bool)
      requires Marks() && batch != []
      ensures ok <==> NoStepBack(accepted, batch)
    {
      for position := 1 to |batch|
        invariant forall k :: 0 < k < position ==> batch[k - 1].normalizedTimestamp <= batch[k].normalizedTimestamp
      {
        if batch[position].normalizedTimestamp < batch[position - 1].normalizedTimestamp {
          return false;
        }
      }
      forall i, j | 0 <= i <= j < |batch| ensures batch[i].normalizedTimestamp <= batch[j].normalizedTimestamp {
        AdjacentOrderIsOrder(batch, i, j);
      }
      return lastAppendedTimestamp.None? || lastAppendedTimestamp.value <= batch[0].normalizedTimestamp;
    }

    /** What append checks, in its order, before it touches anything. */
    method Admits(batchStream: string, batch: seq<Frame>) returns (refusal: Option<WriterError>)
      requires Marks() && batch != []
      ensures refusal == RefusalOf(session.state, batchStream == streamId, accepted, batch)
    {
      if !session.state.Active? {
        return Some(NotActive);
      }
      if batchStream != streamId {
        return Some(StreamMismatch);
      }
      if lastAppendedSequence.Some? && batch[0].sequence != lastAppendedSequence.value + 1 {
        return Some(SequenceRegression);
      }
      var ordered := OrderedTimestamps(batch);
      if !ordered {
        return Some(TimestampRegression);
      }
      return None;
    }

    method Extend(batch: seq<Frame>)
      requires Consistent(buffer) && session.state.Active? && ValidBatch(batch)
      requires Continues(accepted, batch) && NoStepBack(accepted, batch)
      modifies this`buffer, this`accepted, this`lastAppendedSequence, this`lastAppendedTimestamp
      ensures Consistent(buffer) && buffer == old(buffer) + batch && accepted == old(accepted) + batch
    {
      AccountsAfterAcceptance(store.disk, session, maxFramesPerSegment, buffer, accepted, batch);
      buffer := buffer + batch;
      accepted := accepted + batch;
      lastAppendedSequence := Some(batch[|batch| - 1].sequence);
      lastAppendedTimestamp := Some(batch[|batch| - 1].normalizedTimestamp);
    }

    /** append: a refused batch changes nothing; an accepted one is in the books, and whatever it
        completed is committed in full segments. */
    method Append(batchStream: string, batch: seq<Frame>) returns (r: Outcome)
      requires Valid() && ValidBatch(batch)
      modifies this, store
      ensures Valid() && old(store.history) <= store.history
      ensures var refusal := RefusalOf(old(session).state, batchStream == streamId, old(accepted), batch);
              && (refusal.Some? ==> r == Refused(refusal.value) && Untouched(old(session), old(buffer), old(accepted), old(store.disk)))
              && (refusal.None? ==>
                    && accepted == old(accepted) + batch && Committed(store.disk) + buffer == accepted
                    && FullSince(store.disk.segments, old(|store.disk.segments|), maxFramesPerSegment)
                    && (if r.Done? then session.state.Active? else Faulted(r))
                    && old(store.calls) <= store.calls && (r.Done? <==> store.SoundSince(old(store.calls)))
                    && store.disk.session.state == RowAfter(RowBefore(old(store.disk).session.state, old(|store.disk.segments|)), r))
    {
      var refusal := Admits(batchStream, batch);
      if refusal.Some? {
        return Refused(refusal.value);
      }
      Extend(batch);
      r := FlushFullSegments();
    }

    ghost predicate Untouched(session: SessionRow, buffer: seq<Frame>, accepted: seq<Frame>, disk: Disk)
      reads this, store
    {
      this.session == session && this.buffer == buffer && this.accepted == accepted && store.disk == disk
    }

    /** flush_pending: the long half of finalization; the session stays ACTIVE. */
    method FlushPending() returns (r: Outcome)
      requires Valid()
      modifies this`session, this`buffer, store
      ensures Valid() && old(store.history) <= store.history
      ensures r == Refused(NotActive) <==> !old(session).state.Active?
      ensures r.Done? ==> session.state.Active? && buffer == [] && Committed(store.disk) == accepted
      ensures r.Done? ==> |store.disk.segments| == old(|store.disk.segments|) + (if old(buffer) == [] then 0 else 1)
      ensures r.Refused? ==> r.error.NotActive? || Faulted(r)
      ensures old(store.calls) <= store.calls
      ensures r.Done? <==> old(session).state.Active? && store.SoundSince(old(store.calls))
      ensures r != Refused(NotActive) ==>
                store.disk.session.state == RowAfter(RowBefore(old(store.disk).session.state, old(|store.disk.segments|)), r)
      ensures r == Refused(NotActive) ==> Untouched(old(session), old(buffer), old(accepted), old(store.disk))
    {
      if !session.state.Active? {
        return Refused(NotActive);
      }
      if buffer != [] {
        r := CommitSegment(buffer);
        if r.Refused? {
          return;
        }
        buffer := [];
      }
      return Done;
    }

    /** commit_completed: the one ACTIVE to COMPLETED transition; it flushes nothing itself. */
    method CommitCompleted() returns (r: Outcome)
      requires Valid()
      modifies this`session, store
      ensures Valid() && old(store.history) <= store.history
      ensures r == Refused(NotActive) <==> !old(session).state.Active?
      ensures Committed(store.disk) == old(Committed(store.disk)) && store.disk.segments == old(store.disk.segments)
      ensures old(session).state.Active? ==>
                r == if store.faulty(old(store.calls)) then Refused(FinalizeFailed)
                     else if !old(store.disk).session.state.Active? then Refused(CompletionRefused)
                     else Done
      ensures session.state == if r.Done? then Completed else if old(session).state.Active? then Failed else old(session).state
      ensures r.Done? ==> store.disk == WithState(old(store.disk), Completed) && store.calls == old(store.calls) + 1
      ensures r.Refused? && !r.error.NotActive? ==>
                store.calls == old(store.calls) + 2
                && store.disk == WithState(old(store.disk), RowAfter(old(store.disk).session.state, r))
      ensures r == Refused(NotActive) ==> Untouched(old(session), buffer, accepted, old(store.disk))
    {
      if !session.state.Active? {
        return Refused(NotActive);
      }
      var advanced := store.AdvanceState(Completed);
      if advanced.None? {
        MarkFailed(buffer);
        return Refused(FinalizeFailed);
      }
      if !advanced.value {
        MarkFailed(buffer);
        return Refused(CompletionRefused);
      }
      StateLeavesContents(old(store.disk), Completed, |store.disk.segments|);
      session := session.(state := Completed);
      return Done;
    }

    /** finalize: COMPLETED means every accepted frame is committed. */
    method Finalize() returns (r: Outcome)
      requires Valid()
      modifies this`session, this`buffer, store
      ensures Valid() && old(store.history) <= store.history
      ensures r.Done? ==> store.disk.session.state.Completed? && buffer == [] && Committed(store.disk) == accepted
      ensures r.Done? ==> store.disk.session.frameCount == |accepted|
      ensures r.Refused? ==> r.error.NotActive? || session.state.Failed?
      ensures r.Done? <==> && old(session).state.Active? && store.SoundSince(old(store.calls))
                           && (old(store.disk).session.state.Active? || old(buffer) != [])
      ensures r.Refused? && !r.error.NotActive? ==>
                store.disk.session.state == RowAfter(RowBefore(old(store.disk).session.state, old(|store.disk.segments|)), r)
      ensures r == Refused(NotActive) ==> Untouched(old(session), old(buffer), old(accepted), old(store.disk))
    {
      r := FlushPending();
      if r.Refused? {
        return;
      }
      ghost var flushed := store.calls;
      assert store.disk.session.state.Active? <==> old(store.disk).session.state.Active? || old(buffer) != [];
      r := CommitCompleted();
      assert r.Refused? && !store.faulty(flushed) ==> !old(store.disk).session.state.Active? && old(buffer) == [];
      assert store.SoundSince(old(store.calls)) ==> !store.faulty(flushed);
      assert r.Done? ==> store.calls == flushed + 1 && !store.faulty(flushed);
      if r.Done? {
        RowCountsTheCommittedFrames(store.disk);
      }
    }

    /** fail: ACTIVE to FAILED only; buffered frames are dropped, committed ones untouched. */
    method Fail() returns (performed: bool)
      requires Valid()
      modifies this`session, this`buffer, store
      ensures Valid() && old(store.history) <= store.history
      ensures performed <==> old(session).state.Active?
      ensures performed ==> session == old(session).(state := Failed) && buffer == []
      ensures performed ==>
                store.calls == old(store.calls) + 1
                && store.disk == if old(store.disk).session.state.Active? && !store.faulty(old(store.calls))
                                 then WithState(old(store.disk), Failed) else old(store.disk)
      ensures !performed ==> session == old(session) && buffer == old(buffer) && store.disk == old(store.disk)
      ensures Committed(store.disk) == old(Committed(store.disk)) && store.disk.segments == old(store.disk.segments)
    {
      if !session.state.Active? {
        return false;
      }
      MarkFailed(buffer);
      buffer := [];
      return true;
    }
  }

  // ----- what the metadata of a consistent session means --------------------

  lemma {:induction false} SegmentLiesInContents(d: Disk, k: nat, n: nat, i: nat)
    requires k < n && i < |FramesOf(d, k)|
    ensures |Contents(d, k)| + i < |Contents(d, n)| && Contents(d, n)[|Contents(d, k)| + i] == FramesOf(d, k)[i]
  {
    if k < n - 1 {
      SegmentLiesInContents(d, k, n - 1, i);
    }
  }

  lemma ConcatPrefixAt(a: seq<Frame>, rest: seq<Frame>, b: seq<Frame>, j: nat)
    requires a + rest <= b && j < |a|
    ensures j < |b| && b[j] == a[j]
  {
    assert (a + rest)[j] == a[j];
  }

  lemma SegmentFrameIsAccepted(d: Disk, rest: seq<Frame>, accepted: seq<Frame>, k: nat, i: nat)
    requires k < |d.segments| && i < |FramesOf(d, k)| && Committed(d) + rest <= accepted
    ensures |Contents(d, k)| + i < |accepted| && accepted[|Contents(d, k)| + i] == FramesOf(d, k)[i]
  {
    SegmentLiesInContents(d, k, |d.segments|, i);
    ConcatPrefixAt(Committed(d), rest, accepted, |Contents(d, k)| + i);
  }

  /** The first and last marks of a registered segment are the least and the greatest of its frames,
      in sequence number and in timestamp. */
  lemma SegmentBoundsAreExtremes(
    d: Disk, session: SessionRow, max: nat, pending: seq<Frame>, accepted: seq<Frame>, k: nat, i: nat)
    requires CrashSafe(d) && Accounts(d, session, max, pending, accepted) && k < |d.segments| && i < |FramesOf(d, k)|
    ensures var row, f := d.segments[k], FramesOf(d, k)[i];
            && row.first.sequence + i == f.sequence && f.sequence <= row.last.sequence
            && row.last.sequence - row.first.sequence + 1 == row.frameCount <= max
            && row.first.timestamp <= f.normalizedTimestamp <= row.last.timestamp
  {
    assert Backed(d, k);
    var at, last := |Contents(d, k)|, |FramesOf(d, k)| - 1;
    SegmentFrameIsAccepted(d, pending, accepted, k, 0);
    SegmentFrameIsAccepted(d, pending, accepted, k, i);
    SegmentFrameIsAccepted(d, pending, accepted, k, last);
    assert at <= at + i <= at + last;
  }

  /** Consecutive segments continue each other's sequence numbers. */
  lemma SegmentsAreContiguous(d: Disk, session: SessionRow, max: nat, pending: seq<Frame>, accepted: seq<Frame>, k: nat)
    requires CrashSafe(d) && Accounts(d, session, max, pending, accepted) && k + 1 < |d.segments|
    ensures d.segments[k + 1].first.sequence == d.segments[k].last.sequence + 1
  {
    assert Backed(d, k) && Backed(d, k + 1);
    var before, left, right := Contents(d, k), FramesOf(d, k), FramesOf(d, k + 1);
    assert Contents(d, k + 2) == before + left + right;
    ContentsIsPrefix(d, k + 2, |d.segments|);
    var i := |before| + |left|;
    assert accepted[i - 1] == left[|left| - 1] && accepted[i] == right[0];
    assert accepted[i].sequence == accepted[i - 1].sequence + (i - (i - 1));
  }

  lemma {:induction false} ContentsIsPrefix(d: Disk, m: nat, n: nat)
    requires m <= n
    ensures Contents(d, m) <= Contents(d, n)
  {
    if m < n {
      ContentsIsPrefix(d, m, n - 1);
    }
  }
}
