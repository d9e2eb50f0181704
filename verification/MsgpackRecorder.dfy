/** The append-only recorder (runtime/canx/recorder/msgpack_recorder.py) over a file whose writes
    and flushes may fail. */
module MsgpackRecorder {
  import opened Wrappers
  import opened BitArithmetic
  import opened CanFrame
  import opened RecordingFile

  datatype RecorderState = Idle | Recording | Stopped | Failed

  datatype RecorderError = AlreadyRunning | NotRunning | StreamMismatch | PayloadTooLong | OpenFailed | WriteFailed | FlushFailed | Cancelled

  function TotalFrames(batches: seq<FrameBatch>): nat {
    if batches == [] then 0 else |batches[0].frames| + TotalFrames(batches[1..])
  }

  lemma {:induction false} TotalOfOneMore(batches: seq<FrameBatch>, b: FrameBatch)
    ensures TotalFrames(batches + [b]) == TotalFrames(batches) + |b.frames|
  {
    if batches == [] {
      assert [] + [b] == [b] && [b][1..] == [];
    } else {
      TotalOfOneMore(batches[1..], b);
      assert (batches + [b])[1..] == batches[1..] + [b];
    }
  }

  lemma {:induction false} AppendingAChunk(encode: Encoder, batches: seq<FrameBatch>, b: FrameBatch)
    requires Framable(encode, batches) && |encode(b)| < MAX_PAYLOAD
    ensures Framable(encode, batches + [b])
    ensures RecordingFile.Recording(encode, batches + [b]) == RecordingFile.Recording(encode, batches) + Chunk(encode(b))
  {
    if batches == [] {
      assert Chunks(encode, [b]) == Chunk(encode(b)) + Chunks(encode, []);
      assert [] + [b] == [b];
    } else {
      AppendingAChunk(encode, batches[1..], b);
      assert (batches + [b])[1..] == batches[1..] + [b];
      ChunksOnly(encode, batches[1..], b);
      assert Chunks(encode, batches + [b]) == Chunk(encode(batches[0])) + Chunks(encode, batches[1..] + [b]);
    }
  }

  lemma ChunksOnly(encode: Encoder, batches: seq<FrameBatch>, b: FrameBatch)
    requires Framable(encode, batches) && Framable(encode, batches + [b])
    requires |encode(b)| < MAX_PAYLOAD
    requires RecordingFile.Recording(encode, batches + [b]) == RecordingFile.Recording(encode, batches) + Chunk(encode(b))
    ensures Chunks(encode, batches + [b]) == Chunks(encode, batches) + Chunk(encode(b))
  {
    var whole := RecordingFile.Recording(encode, batches + [b]);
    assert whole[8..] == Chunks(encode, batches + [b]);
    assert (RecordingFile.Recording(encode, batches) + Chunk(encode(b)))[8..] == Chunks(encode, batches) + Chunk(encode(b));
  }

  class Recorder {
    const encode: Encoder
    var state: RecorderState
    var recordedFrames: nat
    var failure: Option<RecorderError>
    var streamId: Option<string>
    var isOpen: bool
    /** The bytes of the current recording. */
    var contents: seq<Byte>
    /** The batches appended to it. */
    ghost var appended: seq<FrameBatch>
    /** How many of their frames belong to cancelled appends, which are never counted. */
    ghost var uncounted: nat

    ghost predicate Valid()
      reads this
    {
      && Framable(encode, appended) && recordedFrames + uncounted == TotalFrames(appended)
      && (state.Recording? ==> isOpen && streamId.Some? && Intact())
      && (state.Idle? ==> !isOpen)
    }

    /** The file is exactly the recording of what was appended. */
    ghost predicate Intact()
      reads this`appended, this`contents
      requires Framable(encode, appended)
    {
      contents == RecordingFile.Recording(encode, appended)
    }

    constructor (encode: Encoder)
      ensures Valid() && state.Idle? && this.encode == encode && failure.None?
    {
      this.encode := encode;
      state, recordedFrames, failure, streamId, isOpen := Idle, 0, None, None, false;
      contents := [];
      appended, uncounted := [], 0;
    }

    /** The first diagnostic is kept. */
    method Fail(error: RecorderError)
      modifies this`failure, this`state
      ensures state.Failed? && failure == (if old(failure).None? then Some(error) else old(failure))
    {
      if failure.None? {
        failure := Some(error);
      }
      state := Failed;
    }

    /** start: a refused one leaves the file and the counts alone. */
    method Start(stream: string, fault: bool) returns (refused: Option<RecorderError>)
      requires Valid()
      modifies this
      ensures Valid()
      ensures refused == if old(state).Recording? then Some(AlreadyRunning) else if fault then Some(OpenFailed) else None
      ensures refused.None? ==>
                && state.Recording? && isOpen && failure.None? && streamId == Some(stream)
                && appended == [] && recordedFrames == 0 && contents == RecordingFile.Recording(encode, [])
      ensures refused.Some? ==>
                && Kept(old(contents), old(appended), old(recordedFrames)) && isOpen == old(isOpen) && streamId == old(streamId)
                && (old(state).Recording? ==> state.Recording? && failure == old(failure))
                && (!old(state).Recording? ==> state.Failed? && failure == First(old(failure), OpenFailed))
    {
      if state.Recording? {
        return Some(AlreadyRunning);
      }
      if fault {
        Fail(OpenFailed);
        return Some(OpenFailed);
      }
      contents := Magic();
      appended, uncounted := [], 0;
      isOpen, streamId, recordedFrames, failure, state := true, Some(stream), 0, None, Recording;
      return None;
    }

    /** append: a whole chunk and its frames counted, or a failure that keeps the count. The write of
        a cancelled append runs on: its chunk lands whole, uncounted, unless a fault tears it. */
    method Append(batch: FrameBatch, fault: bool, cancelled: bool) returns (refused: Option<RecorderError>)
      requires Valid()
      modifies this
      ensures Valid()
      ensures refused == Some(NotRunning) <==> !old(state).Recording?
      ensures refused == Some(StreamMismatch) <==> old(state).Recording? && old(streamId) != Some(batch.streamId)
      ensures refused == Some(PayloadTooLong) <==>
                old(state).Recording? && old(streamId) == Some(batch.streamId) && |encode(batch)| >= 0x1_0000_0000
      ensures Early(refused) ==> Kept(old(contents), old(appended), old(recordedFrames)) && state == old(state) && failure == old(failure)
      ensures !Early(refused) ==>
                && refused == (if cancelled then Some(Cancelled) else if fault then Some(WriteFailed) else None)
                && recordedFrames == old(recordedFrames) + (if refused.None? then |batch.frames| else 0)
      ensures !Early(refused) && !fault ==> Landed(batch, old(appended)) && failure == old(failure)
      ensures !Early(refused) && fault ==> Torn(Chunk(encode(batch)), old(contents), old(failure)) && appended == old(appended)
    {
      refused := RefusalOf(state, streamId, batch);
      if refused.Some? {
        return;
      }
      AppendingAChunk(encode, appended, batch);
      var written := WriteChunk(Chunk(encode(batch)), batch, fault);
      if cancelled {
        uncounted := uncounted + if written then |batch.frames| else 0;
        return Some(Cancelled);
      }
      if !written {
        return Some(WriteFailed);
      }
      recordedFrames := recordedFrames + |batch.frames|;
      return None;
    }

    /** _write_chunk. */
    method WriteChunk(chunk: seq<Byte>, batch: FrameBatch, fault: bool) returns (written: bool)
      requires Framable(encode, appended) && state.Recording? && Intact() && Carries(chunk, batch)
      modifies this`contents, this`appended, this`state, this`failure
      ensures Framable(encode, appended) && written == !fault
      ensures written ==> Landed(batch, old(appended)) && failure == old(failure)
      ensures written ==> TotalFrames(appended) == TotalFrames(old(appended)) + |batch.frames|
      ensures !written ==> Torn(chunk, old(contents), old(failure)) && appended == old(appended)
    {
      if fault {
        var part: nat :| part <= |chunk|;
        contents := contents + chunk[..part];
        Fail(WriteFailed);
        return false;
      }
      TotalOfOneMore(appended, batch);
      contents := contents + chunk;
      appended := appended + [batch];
      return true;
    }

    /** Refused before anything was written. */
    ghost predicate Early(refused: Option<RecorderError>) {
      refused.Some? && (refused.value.NotRunning? || refused.value.StreamMismatch? || refused.value.PayloadTooLong?)
    }

    ghost predicate Kept(contents: seq<Byte>, appended: seq<FrameBatch>, recordedFrames: nat)
      reads this
    {
      this.contents == contents && this.appended == appended && this.recordedFrames == recordedFrames
    }

    ghost function First(failure: Option<RecorderError>, error: RecorderError): Option<RecorderError> {
      if failure.None? then Some(error) else failure
    }

    /** append's checks, in their order. */
    function RefusalOf(state: RecorderState, streamId: Option<string>, batch: FrameBatch): Option<RecorderError> {
      if !state.Recording? then Some(NotRunning)
      else if streamId != Some(batch.streamId) then Some(StreamMismatch)
      else if |encode(batch)| >= MAX_PAYLOAD then Some(PayloadTooLong)
      else None
    }

    /** The batch is in the file, and the file is intact. */
    ghost predicate Landed(batch: FrameBatch, before: seq<FrameBatch>)
      reads this`state, this`appended, this`contents
      requires Framable(encode, appended)
    {
      state.Recording? && appended == before + [batch] && Intact()
    }

    /** Some part of the chunk was written before the write failed. */
    ghost predicate Torn(chunk: seq<Byte>, before: seq<Byte>, failure: Option<RecorderError>)
      reads this`state, this`failure, this`contents
    {
      && state.Failed? && this.failure == First(failure, WriteFailed)
      && before <= contents <= before + chunk
    }

    /** The chunk continues the recording of what was appended with the batch. */
    ghost predicate Carries(chunk: seq<Byte>, batch: FrameBatch)
      reads this`appended
      requires Framable(encode, appended)
    {
      && Framable(encode, appended + [batch])
      && RecordingFile.Recording(encode, appended + [batch]) == RecordingFile.Recording(encode, appended) + chunk
    }

    /** stop: the file is closed whatever happens; what a failed flush leaves on disk is a prefix. */
    method Stop(flushFault: bool, closeFault: bool) returns (refused: Option<RecorderError>)
      requires Valid()
      modifies this
      ensures Valid() && !isOpen && appended == old(appended) && recordedFrames == old(recordedFrames)
      ensures refused == if old(isOpen) && (flushFault || closeFault) then Some(FlushFailed) else None
      ensures old(isOpen) && refused.None? ==>
                contents == old(contents) && state == (if old(state).Failed? then Failed else Stopped) && failure == old(failure)
      ensures !old(isOpen) ==> state == old(state) && contents == old(contents) && failure == old(failure)
      ensures refused.Some? ==> state.Failed? && contents <= old(contents) && failure == First(old(failure), FlushFailed)
    {
      if !isOpen {
        return None;
      }
      var wasFailed := state.Failed?;
      isOpen := false;
      if flushFault || closeFault {
        var kept: nat :| kept <= |contents|;
        contents := contents[..kept];
        Fail(FlushFailed);
        return Some(FlushFailed);
      }
      state := if wasFailed then Failed else Stopped;
      return None;
    }
  }

  /** Whatever a failed flush leaves of an intact recording reads back as a prefix of the batches, or
      is refused. */
  lemma WhatAFailedFlushLeaves(encode: Encoder, decode: Decoder, batches: seq<FrameBatch>, left: seq<Byte>)
    requires Framable(encode, batches) && RoundTrips(encode, decode, batches)
    requires left <= RecordingFile.Recording(encode, batches)
    ensures Read(decode, left).Success? ==> Read(decode, left).value <= batches
  {
    var n := |left|;
    assert left == RecordingFile.Recording(encode, batches)[..n];
    TruncationIsAPrefixOrRefused(encode, decode, batches, n);
    if Read(decode, left).Success? {
      var k: nat :| Boundary(encode, batches, k, n);
    }
  }
}
