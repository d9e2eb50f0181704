/** The canonical CAN frame (runtime/canx/domain/frame.py) and contiguous batches of frames
    (runtime/canx/domain/batch.py). Timestamps are reals; the fields no modelled
    behaviour looks at are left out. */
module CanFrame {
  import opened BitArithmetic

  datatype Direction = Rx | Tx

  datatype Frame = Frame(
    sequence: nat,
    channelId: string,
    arbitrationId: nat,
    isExtended: bool,
    isFd: bool,
    data: seq<Byte>,
    direction: Direction,
    hostTimestamp: real,
    normalizedTimestamp: real)

  datatype FrameBatch = FrameBatch(streamId: string, frames: seq<Frame>)

  /** Each frame's sequence number is its predecessor's plus one. */
  ghost predicate Consecutive(frames: seq<Frame>) {
    forall i, j :: 0 <= i <= j < |frames| ==> frames[j].sequence == frames[i].sequence + (j - i)
  }

  /** Strictly ascending sequence numbers. */
  ghost predicate Ascending(frames: seq<Frame>) {
    forall i, j :: 0 <= i < j < |frames| ==> frames[i].sequence < frames[j].sequence
  }

  /** What FrameBatch.create accepts. */
  ghost predicate ValidBatch(frames: seq<Frame>) {
    frames != [] && Consecutive(frames)
  }
}
