/** The live path from capture to the stream consumer: the normalizer
    (runtime/canx/capture/normalizer.py), the drop-oldest queue (runtime/canx/capture/subscriber.py)
    and the consumer loop (runtime/canx/runtime/service.py). */
module StreamAccounting {
  import opened Wrappers
  import opened CanFrame

  // ----- the normalizer -----------------------------------------------------

  /** Seconds since the first frame, never negative. */
  function RelativeTime(first: real, host: real): (r: real)
    ensures r >= 0.0
  {
    if host - first < 0.0 then 0.0 else host - first
  }

  /** The stream a fresh normalizer makes of the frames it is given. */
  function Normalized(raws: seq<Frame>): (r: seq<Frame>)
    ensures |r| == |raws|
    ensures forall i :: 0 <= i < |raws| ==>
              r[i] == raws[i].(sequence := i, normalizedTimestamp := RelativeTime(raws[0].hostTimestamp, raws[i].hostTimestamp))
  {
    seq(|raws|, i requires 0 <= i < |raws| =>
      raws[i].(sequence := i, normalizedTimestamp := RelativeTime(raws[0].hostTimestamp, raws[i].hostTimestamp)))
  }

  lemma NormalizingOneMore(raws: seq<Frame>, frame: Frame)
    ensures Normalized(raws + [frame]) == Normalized(raws) + [Normalized(raws + [frame])[|raws|]]
  {
    if raws != [] {
      assert (raws + [frame])[0] == raws[0];
    }
    assert forall i :: 0 <= i < |raws| ==> (raws + [frame])[i] == raws[i];
  }

  class TimestampNormalizer {
    var firstHostTimestamp: Option<real>
    var nextSequence: nat
    ghost var received: seq<Frame>

    ghost predicate Valid()
      reads this
    {
      && nextSequence == |received|
      && firstHostTimestamp == (if received == [] then None else Some(received[0].hostTimestamp))
    }

    constructor ()
      ensures Valid() && received == []
    {
      firstHostTimestamp, nextSequence := None, 0;
      received := [];
    }

    method Normalize(frame: Frame) returns (r: Frame)
      requires Valid()
      modifies this
      ensures Valid() && received == old(received) + [frame]
      ensures r == Normalized(received)[|received| - 1]
      ensures Normalized(received) == Normalized(old(received)) + [r]
    {
      if firstHostTimestamp.None? {
        firstHostTimestamp := Some(frame.hostTimestamp);
      }
      var relative := frame.hostTimestamp - firstHostTimestamp.value;
      r := frame.(sequence := nextSequence, normalizedTimestamp := if relative < 0.0 then 0.0 else relative);
      nextSequence := nextSequence + 1;
      NormalizingOneMore(received, frame);
      received := received + [frame];
    }
  }

  // ----- the queue ----------------------------------------------------------

  /** The frames whose fate is the given one, in order. */
  function Pick(frames: seq<Frame>, fate: seq<bool>, wanted: bool): seq<Frame>
    requires |fate| <= |frames|
    decreases |fate|
  {
    if fate == [] then []
    else
      var n := |fate| - 1;
      Pick(frames, fate[..n], wanted) + if fate[n] == wanted then [frames[n]] else []
  }

  lemma {:induction false} PickIgnoresTheRest(frames: seq<Frame>, more: seq<Frame>, fate: seq<bool>, wanted: bool)
    requires |fate| <= |frames|
    ensures Pick(frames + more, fate, wanted) == Pick(frames, fate, wanted)
  {
    if fate != [] {
      PickIgnoresTheRest(frames, more, fate[..|fate| - 1], wanted);
    }
  }

  lemma PickOneMore(frames: seq<Frame>, fate: seq<bool>, taken: bool)
    requires |fate| < |frames|
    ensures Pick(frames, fate + [taken], taken) == Pick(frames, fate, taken) + [frames[|fate|]]
    ensures Pick(frames, fate + [taken], !taken) == Pick(frames, fate, !taken)
  {
    assert (fate + [taken])[..|fate|] == fate;
  }

  /** Every settled frame was either consumed or dropped. */
  lemma {:induction false} PicksPartition(frames: seq<Frame>, fate: seq<bool>)
    requires |fate| <= |frames|
    ensures |Pick(frames, fate, true)| + |Pick(frames, fate, false)| == |fate|
  {
    if fate != [] {
      PicksPartition(frames, fate[..|fate| - 1]);
    }
  }

  /** A lossy subscriber before it is disabled. */
  class FrameSubscriber {
    const capacity: nat
    var queue: seq<Frame>
    var droppedFrames: nat
    /** Everything published, and for each frame that left the queue whether it was consumed. */
    ghost var published: seq<Frame>
    ghost var fate: seq<bool>

    ghost predicate Valid()
      reads this
    {
      && capacity > 0 && |queue| <= capacity && |fate| <= |published|
      && queue == published[|fate|..]
      && droppedFrames == |Pick(published, fate, false)|
    }

    ghost function Consumed(): seq<Frame>
      reads this
      requires Valid()
    {
      Pick(published, fate, true)
    }

    /** Published is consumed plus queued plus dropped. */
    lemma NothingIsLost()
      requires Valid()
      ensures |published| == |Consumed()| + |queue| + droppedFrames
    {
      PicksPartition(published, fate);
    }

    constructor (capacity: nat)
      requires capacity > 0
      ensures Valid() && this.capacity == capacity && published == [] && Consumed() == [] && queue == []
    {
      this.capacity := capacity;
      queue, droppedFrames := [], 0;
      published, fate := [], [];
    }

    /** publish: a full queue gives up its oldest frame. */
    method Publish(frame: Frame)
      requires Valid()
      modifies this
      ensures Valid() && published == old(published) + [frame] && Consumed() == old(Consumed())
      ensures queue == (if |old(queue)| == capacity then old(queue)[1..] else old(queue)) + [frame]
      ensures droppedFrames == old(droppedFrames) + (if |old(queue)| == capacity then 1 else 0)
    {
      PickIgnoresTheRest(published, [frame], fate, true);
      PickIgnoresTheRest(published, [frame], fate, false);
      published := published + [frame];
      if |queue| == capacity {
        PickOneMore(published, fate, false);
        assert published[|fate|..][1..] == published[|fate| + 1..];
        queue := queue[1..];
        droppedFrames := droppedFrames + 1;
        fate := fate + [false];
      }
      queue := queue + [frame];
    }

    /** get on a queue that holds something. */
    method Get() returns (frame: Frame)
      requires Valid() && queue != []
      modifies this`queue, this`fate
      ensures Valid() && frame == old(queue)[0] && queue == old(queue)[1..]
      ensures Consumed() == old(Consumed()) + [frame]
    {
      frame := queue[0];
      PickOneMore(published, fate, true);
      queue := queue[1..];
      fate := fate + [true];
    }
  }

  // ----- the consumer -------------------------------------------------------

  function Flat(lists: seq<seq<Frame>>): seq<Frame> {
    if lists == [] then [] else Flat(lists[..|lists| - 1]) + lists[|lists| - 1]
  }

  function Positive(n: int): nat {
    if n > 0 then n else 0
  }

  /** What the consumer adds to sequence_gaps. */
  function GapsIn(frames: seq<Frame>): nat {
    if |frames| <= 1 then 0
    else
      var n := |frames| - 1;
      GapsIn(frames[..n]) + Positive(frames[n].sequence - frames[n - 1].sequence - 1)
  }

  /** Each frame continues the one before it. */
  ghost predicate Contiguous(frames: seq<Frame>) {
    |frames| <= 1 || (Contiguous(frames[..|frames| - 1]) && frames[|frames| - 1].sequence == frames[|frames| - 2].sequence + 1)
  }

  /** Every list is non-empty, contiguous, and no longer than a batch. */
  ghost predicate AreBatches(lists: seq<seq<Frame>>, batchSize: nat) {
    lists == [] || (
      && AreBatches(lists[..|lists| - 1], batchSize)
      && 0 < |lists[|lists| - 1]| <= batchSize && Contiguous(lists[|lists| - 1]))
  }

  lemma {:induction false} ContiguousIsConsecutive(frames: seq<Frame>)
    requires Contiguous(frames)
    ensures Consecutive(frames)
  {
    if |frames| > 1 {
      var n := |frames| - 1;
      ContiguousIsConsecutive(frames[..n]);
      forall i, j | 0 <= i <= j < |frames| ensures frames[j].sequence == frames[i].sequence + (j - i) {
        assert i < n ==> frames[..n][n - 1].sequence == frames[..n][i].sequence + (n - 1 - i);
        assert j < n ==> frames[..n][j].sequence == frames[..n][i].sequence + (j - i);
      }
    }
  }

  /** Each published list is accepted as a frame batch. */
  lemma {:induction false} EveryListIsABatch(lists: seq<seq<Frame>>, batchSize: nat, i: nat)
    requires AreBatches(lists, batchSize) && i < |lists|
    ensures ValidBatch(lists[i]) && |lists[i]| <= batchSize
  {
    var n := |lists| - 1;
    if i == n {
      ContiguousIsConsecutive(lists[n]);
    } else {
      EveryListIsABatch(lists[..n], batchSize, i);
    }
  }

  /** The lists and the pending frames, in order, are what was consumed. */
  ghost predicate Accounts(lists: seq<seq<Frame>>, pending: seq<Frame>, consumed: seq<Frame>, batchSize: nat) {
    && AreBatches(lists, batchSize) && Contiguous(pending) && |pending| <= batchSize
    && Flat(lists) + pending == consumed
  }

  /** The frame may join the pending ones. */
  ghost predicate Joins(pending: seq<Frame>, frame: Frame) {
    pending == [] || frame.sequence == pending[|pending| - 1].sequence + 1
  }

  lemma PublishingKeepsAccounts(lists: seq<seq<Frame>>, pending: seq<Frame>, consumed: seq<Frame>, batchSize: nat)
    requires Accounts(lists, pending, consumed, batchSize) && pending != []
    ensures Accounts(lists + [pending], [], consumed, batchSize)
  {
    assert (lists + [pending])[..|lists|] == lists;
    assert Flat(lists) + pending + [] == consumed;
  }

  lemma JoiningKeepsAccounts(lists: seq<seq<Frame>>, pending: seq<Frame>, consumed: seq<Frame>, batchSize: nat, frame: Frame)
    requires Accounts(lists, pending, consumed, batchSize) && |pending| < batchSize && Joins(pending, frame)
    ensures Accounts(lists, pending + [frame], consumed + [frame], batchSize)
  {
    assert (pending + [frame])[..|pending|] == pending;
    assert Flat(lists) + (pending + [frame]) == (Flat(lists) + pending) + [frame];
  }

  lemma OneMoreGap(consumed: seq<Frame>, frame: Frame)
    ensures GapsIn(consumed + [frame])
         == GapsIn(consumed) + (if consumed == [] then 0 else Positive(frame.sequence - consumed[|consumed| - 1].sequence - 1))
  {
    assert (consumed + [frame])[..|consumed|] == consumed;
  }

  class StreamConsumer {
    const batchSize: nat
    var pending: seq<Frame>
    var lastSequence: Option<nat>
    var sequenceGaps: nat
    /** The lists handed to the publish callback. */
    var lists: seq<seq<Frame>>
    ghost var consumed: seq<Frame>

    ghost predicate Balanced()
      reads this
    {
      Accounts(lists, pending, consumed, batchSize) && |pending| < batchSize
    }

    ghost predicate GapsCounted()
      reads this
    {
      && lastSequence == (if consumed == [] then None else Some(consumed[|consumed| - 1].sequence))
      && sequenceGaps == GapsIn(consumed)
    }

    ghost predicate Valid()
      reads this
    {
      Balanced() && GapsCounted()
    }

    constructor (batchSize: nat)
      requires batchSize > 0
      ensures Valid() && this.batchSize == batchSize && consumed == [] && lists == []
    {
      this.batchSize := batchSize;
      pending, lastSequence, sequenceGaps, lists := [], None, 0, [];
      consumed := [];
    }

    /** if pending: await publish(pending); pending = []. */
    method PublishPending()
      requires Accounts(lists, pending, consumed, batchSize)
      modifies this`pending, this`lists
      ensures Accounts(lists, pending, consumed, batchSize) && pending == []
      ensures lists == old(lists) + (if old(pending) == [] then [] else [old(pending)])
    {
      if pending != [] {
        PublishingKeepsAccounts(lists, pending, consumed, batchSize);
        lists := lists + [pending];
        pending := [];
      }
    }

    method HandleTimeout()
      requires Valid()
      modifies this`pending, this`lists
      ensures Valid() && pending == []
      ensures lists == old(lists) + (if old(pending) == [] then [] else [old(pending)])
    {
      PublishPending();
    }

    /** The frame does not follow the last one seen. */
    ghost predicate Breaks(frame: Frame)
      reads this`lastSequence
    {
      lastSequence.Some? && frame.sequence != lastSequence.value + 1
    }

    /** A break in the sequence adds to the metric and ends the pending list. */
    method CloseOnGap(frame: Frame)
      requires Valid()
      modifies this`pending, this`lists, this`sequenceGaps
      ensures Balanced() && Joins(pending, frame)
      ensures pending == if Breaks(frame) then [] else old(pending)
      ensures lists == old(lists) + (if Breaks(frame) && old(pending) != [] then [old(pending)] else [])
      ensures sequenceGaps == GapsIn(consumed + [frame])
    {
      var broken := lastSequence.Some? && frame.sequence != lastSequence.value + 1;
      CountGap(frame);
      if broken {
        PublishPending();
      } else {
        UnbrokenJoins(lists, pending, consumed, frame);
      }
    }

    method CountGap(frame: Frame)
      requires GapsCounted()
      modifies this`sequenceGaps
      ensures sequenceGaps == GapsIn(consumed + [frame])
    {
      OneMoreGap(consumed, frame);
      if lastSequence.Some? && frame.sequence != lastSequence.value + 1 {
        sequenceGaps := sequenceGaps + Positive(frame.sequence - lastSequence.value - 1);
      }
    }

    /** One frame: a break publishes what is pending, the frame joins what is left, and a full list is
        published at once; nothing else is. */
    method Handle(frame: Frame)
      requires Valid()
      modifies this
      ensures Valid() && consumed == old(consumed) + [frame]
      ensures var broken := old(Breaks(frame));
              var closed := old(lists) + (if broken && old(pending) != [] then [old(pending)] else []);
              var open := (if broken then [] else old(pending)) + [frame];
              (lists, pending) == IfFull(closed, open)
    {
      CloseOnGap(frame);
      lastSequence := Some(frame.sequence);
      Collect(frame);
    }

    /** A full list is published, any other one stays pending. */
    ghost function IfFull(closed: seq<seq<Frame>>, open: seq<Frame>): (seq<seq<Frame>>, seq<Frame>) {
      if |open| >= batchSize then (closed + [open], []) else (closed, open)
    }

    method Collect(frame: Frame)
      requires Balanced() && Joins(pending, frame)
      modifies this`pending, this`lists, this`consumed
      ensures Balanced() && consumed == old(consumed) + [frame]
      ensures (lists, pending) == IfFull(old(lists), old(pending) + [frame])
    {
      JoiningKeepsAccounts(lists, pending, consumed, batchSize, frame);
      pending := pending + [frame];
      consumed := consumed + [frame];
      if |pending| >= batchSize {
        PublishPending();
      }
    }
  }

  lemma UnbrokenJoins(lists: seq<seq<Frame>>, pending: seq<Frame>, consumed: seq<Frame>, frame: Frame)
    requires Flat(lists) + pending == consumed
    requires consumed == [] || frame.sequence == consumed[|consumed| - 1].sequence + 1
    ensures Joins(pending, frame)
  {
    if pending != [] {
      PendingEndsTheConsumed(lists, pending, consumed);
    }
  }

  lemma PendingEndsTheConsumed(lists: seq<seq<Frame>>, pending: seq<Frame>, consumed: seq<Frame>)
    requires Flat(lists) + pending == consumed
    ensures pending != [] ==> consumed != [] && consumed[|consumed| - 1] == pending[|pending| - 1]
  {
  }

  // ----- whole runs ---------------------------------------------------------

  /** One turn of the event loop: a raw frame arrives, or the consumer's get returns or times out. */
  datatype Turn = Arrive(frame: Frame) | Take

  /** The raw frames that arrived, in order. */
  function Arrived(turns: seq<Turn>): seq<Frame> {
    if turns == [] then []
    else Arrived(turns[..|turns| - 1]) + if turns[|turns| - 1].Arrive? then [turns[|turns| - 1].frame] else []
  }

  /** Published frames carry their position. */
  ghost predicate Numbered(published: seq<Frame>) {
    forall i :: 0 <= i < |published| ==> published[i].sequence == i
  }

  ghost predicate Below(frames: seq<Frame>, bound: nat) {
    forall i :: 0 <= i < |frames| ==> frames[i].sequence < bound
  }

  lemma AppendingAscends(frames: seq<Frame>, f: Frame)
    requires Ascending(frames) && Below(frames, f.sequence)
    ensures Ascending(frames + [f]) && Below(frames + [f], f.sequence + 1)
  {
  }

  /** What the consumer got ascends, below the frames still queued. */
  lemma {:induction false} PickedAscends(frames: seq<Frame>, fate: seq<bool>)
    requires Numbered(frames) && |fate| <= |frames|
    ensures Ascending(Pick(frames, fate, true)) && Below(Pick(frames, fate, true), |fate|)
  {
    if fate != [] {
      var n := |fate| - 1;
      PickedAscends(frames, fate[..n]);
      if fate[n] {
        AppendingAscends(Pick(frames, fate[..n], true), frames[n]);
      } else {
        assert Pick(frames, fate, true) == Pick(frames, fate[..n], true);
      }
    }
  }

  /** In ascending frames the gaps fill the span between the first and the last. */
  lemma {:induction false} GapsFillTheSpan(frames: seq<Frame>)
    requires frames != [] && Ascending(frames)
    ensures GapsIn(frames) == frames[|frames| - 1].sequence - frames[0].sequence + 1 - |frames|
  {
    if |frames| > 1 {
      GapsFillTheSpan(frames[..|frames| - 1]);
    }
  }

  /** A capture of the given turns and then the drain after stop: the consumed frames are the
      normalized arrivals less the dropped ones, in order; the published lists are batches that
      spell them out; and the counted gaps are what is missing between the first and the last. */
  method RunStream(capacity: nat, batchSize: nat, turns: seq<Turn>)
    returns (lists: seq<seq<Frame>>, dropped: nat, gaps: nat, ghost fate: seq<bool>)
    requires capacity > 0 && batchSize > 0
    ensures |fate| == |Arrived(turns)| && dropped == |Pick(Normalized(Arrived(turns)), fate, false)|
    ensures AreBatches(lists, batchSize) && Flat(lists) == Pick(Normalized(Arrived(turns)), fate, true)
    ensures |Arrived(turns)| == |Flat(lists)| + dropped && Ascending(Flat(lists))
    ensures gaps == Missing(Flat(lists))
  {
    var normalizer := new TimestampNormalizer();
    var subscriber := new FrameSubscriber(capacity);
    var consumer := new StreamConsumer(batchSize);
    for i := 0 to |turns|
      invariant fresh(normalizer) && fresh(subscriber) && fresh(consumer) && consumer.batchSize == batchSize
      invariant Connected(normalizer, subscriber, consumer) && normalizer.received == Arrived(turns[..i])
    {
      assert turns[..i + 1][..i] == turns[..i];
      match turns[i] {
        case Arrive(raw) => Deliver(normalizer, subscriber, consumer, raw);
        case Take => TakeOrTimeOut(normalizer, subscriber, consumer);
      }
    }
    assert turns[..|turns|] == turns;
    Drain(normalizer, subscriber, consumer);
    lists, dropped, gaps, fate := Conclude(normalizer, subscriber, consumer);
  }

  /** last - first + 1 - consumed. */
  function Missing(frames: seq<Frame>): int {
    if frames == [] then 0 else frames[|frames| - 1].sequence - frames[0].sequence + 1 - |frames|
  }

  /** After stop, what is still queued is consumed. */
  method Drain(normalizer: TimestampNormalizer, subscriber: FrameSubscriber, consumer: StreamConsumer)
    requires Connected(normalizer, subscriber, consumer)
    modifies subscriber, consumer
    ensures Connected(normalizer, subscriber, consumer) && subscriber.queue == []
  {
    while subscriber.queue != []
      invariant Connected(normalizer, subscriber, consumer)
      decreases |subscriber.queue|
    {
      TakeOrTimeOut(normalizer, subscriber, consumer);
    }
  }

  lemma SettledStream(published: seq<Frame>, fate: seq<bool>)
    requires Numbered(published) && |fate| == |published|
    ensures |published| == |Pick(published, fate, true)| + |Pick(published, fate, false)|
    ensures Ascending(Pick(published, fate, true))
    ensures GapsIn(Pick(published, fate, true)) == Missing(Pick(published, fate, true))
  {
    PicksPartition(published, fate);
    PickedAscends(published, fate);
    if Pick(published, fate, true) != [] {
      GapsFillTheSpan(Pick(published, fate, true));
    }
  }

  /** ... and the pending list is published. */
  method Conclude(normalizer: TimestampNormalizer, subscriber: FrameSubscriber, consumer: StreamConsumer)
    returns (lists: seq<seq<Frame>>, dropped: nat, gaps: nat, ghost fate: seq<bool>)
    requires Connected(normalizer, subscriber, consumer) && subscriber.queue == []
    modifies consumer
    ensures var published := Normalized(normalizer.received);
            && |fate| == |published| == |Flat(lists)| + dropped && dropped == |Pick(published, fate, false)|
            && AreBatches(lists, consumer.batchSize) && Flat(lists) == Pick(published, fate, true)
    ensures Ascending(Flat(lists)) && gaps == Missing(Flat(lists))
  {
    fate := subscriber.fate;
    SettledStream(subscriber.published, fate);
    dropped, gaps := subscriber.droppedFrames, consumer.sequenceGaps;
    consumer.PublishPending();
    lists := consumer.lists;
    assert Flat(lists) + [] == Flat(lists);
  }

  /** The parts of one live stream, fitting together. */
  ghost predicate Connected(normalizer: TimestampNormalizer, subscriber: FrameSubscriber, consumer: StreamConsumer)
    reads normalizer, subscriber, consumer
  {
    && normalizer.Valid() && subscriber.Valid() && consumer.Valid()
    && subscriber.published == Normalized(normalizer.received) && consumer.consumed == subscriber.Consumed()
  }

  method Deliver(normalizer: TimestampNormalizer, subscriber: FrameSubscriber, consumer: StreamConsumer, raw: Frame)
    requires Connected(normalizer, subscriber, consumer)
    modifies normalizer, subscriber
    ensures Connected(normalizer, subscriber, consumer)
    ensures normalizer.received == old(normalizer.received) + [raw]
  {
    var frame := normalizer.Normalize(raw);
    subscriber.Publish(frame);
  }

  method TakeOrTimeOut(normalizer: TimestampNormalizer, subscriber: FrameSubscriber, consumer: StreamConsumer)
    requires Connected(normalizer, subscriber, consumer)
    modifies subscriber, consumer
    ensures Connected(normalizer, subscriber, consumer)
    ensures old(subscriber.queue) != [] ==> |subscriber.queue| < |old(subscriber.queue)|
  {
    if subscriber.queue == [] {
      consumer.HandleTimeout();
    } else {
      var frame := subscriber.Get();
      consumer.Handle(frame);
    }
  }
}
