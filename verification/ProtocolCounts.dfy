/** The finalization protocol counts frames where the session writer holds them: its row and writer
    transitions are the writer's durable steps, seen through their counters. */
module ProtocolCounts {
  import opened Wrappers
  import opened DataModel
  import opened CanFrame
  import opened SegmentStore
  import opened SessionWriter
  import Protocol = FinalizationProtocol

  /** The protocol's view of a disk and a writer's session, its buffer and what it accepted. */
  function CountsOf(d: Disk, session: SessionRow, buffer: seq<Frame>, accepted: seq<Frame>, lock: Protocol.Holder): Protocol.Session {
    Protocol.Session(d.session.state, d.session.frameCount, session.state, session.frameCount, |buffer|, |accepted|, lock)
  }

  /** Registering a segment is the protocol's Register: the row takes the writer's state over. */
  lemma RegistrationIsTheProtocols(
    d: Disk, session: SessionRow, buffer: seq<Frame>, accepted: seq<Frame>, lock: Protocol.Holder, frames: seq<Frame>, byteSize: nat)
    requires frames != [] && frames <= buffer
    ensures var updated := SessionWith(session, frames);
            CountsOf(Registered(d, RowFor(|d.segments|, frames, byteSize), updated), updated, buffer[|frames|..], accepted, lock)
            == Protocol.Register(CountsOf(d, session, buffer, accepted, lock), |frames|)
  {
  }

  /** The conditional update of the store is the protocol's Advance, storage faults included. */
  method AdvanceIsTheProtocols(
    store: ProjectStore, to: SessionState, ghost session: SessionRow, ghost buffer: seq<Frame>, ghost accepted: seq<Frame>,
    ghost lock: Protocol.Holder)
    returns (advanced: Option<bool>)
    requires store.Valid()
    modifies store
    ensures store.Valid()
    ensures CountsOf(store.disk, session, buffer, accepted, lock)
         == Protocol.Advance(CountsOf(old(store.disk), session, buffer, accepted, lock), to, store.faulty(old(store.calls)))
  {
    advanced := store.AdvanceState(to);
  }

  /** An ACTIVE writer's books balance in the protocol's numbers. */
  lemma BooksBalanceInCounts(d: Disk, session: SessionRow, max: nat, buffer: seq<Frame>, accepted: seq<Frame>, lock: Protocol.Holder)
    requires CrashSafe(d) && Accounts(d, session, max, buffer, accepted)
    ensures var c := CountsOf(d, session, buffer, accepted, lock);
            c.rowFrames == c.memFrames == |Committed(d)| && (c.mem.Active? ==> c.accepted == c.memFrames + c.buffered)
  {
    RowCountsTheCommittedFrames(d);
  }

  /** Where the protocol says that a row counts every accepted frame, the segments hold them all. */
  lemma FullCountMeansWholeSession(d: Disk, session: SessionRow, max: nat, buffer: seq<Frame>, accepted: seq<Frame>, lock: Protocol.Holder)
    requires CrashSafe(d) && Accounts(d, session, max, buffer, accepted)
    ensures var c := CountsOf(d, session, buffer, accepted, lock); c.rowFrames == c.accepted <==> Committed(d) == accepted
  {
    BooksBalanceInCounts(d, session, max, buffer, accepted, lock);
    if |Committed(d)| == |accepted| {
      assert Committed(d) == accepted[..|Committed(d)|];
    }
  }
}
