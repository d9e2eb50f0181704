/** What the normalizer's timeline means for the session writer: the timeline is monotonic only as
    far as the host clock is (runtime/canx/capture/normalizer.py, runtime/canx/data/session.py). */
module CaptureTimeline {
  import opened Wrappers
  import opened DataModel
  import opened CanFrame
  import opened SegmentStore
  import SessionWriter
  import StreamAccounting

  /** Among the frames from..to of a capture the host clock never steps back to a time that is after
      the capture's first frame. */
  ghost predicate StepsBackNowhere(raws: seq<Frame>, from: nat, to: nat)
    requires to <= |raws|
  {
    forall i, j :: from <= i <= j < to ==>
      raws[i].hostTimestamp <= raws[j].hostTimestamp || raws[i].hostTimestamp <= raws[0].hostTimestamp
  }

  /** The normalized timestamps of a stretch of the stream are ordered exactly when the host clock
      never steps back there past the first frame's time. */
  lemma NormalizedTimelineIsOrderedExactly(raws: seq<Frame>, from: nat, to: nat)
    requires from <= to <= |raws|
    ensures SessionWriter.Ordered(StreamAccounting.Normalized(raws)[from..to]) <==> StepsBackNowhere(raws, from, to)
  {
    var stream := StreamAccounting.Normalized(raws);
    var part := stream[from..to];
    if SessionWriter.Ordered(part) {
      forall i, j | from <= i <= j < to
        ensures raws[i].hostTimestamp <= raws[j].hostTimestamp || raws[i].hostTimestamp <= raws[0].hostTimestamp
      {
        assert part[i - from].normalizedTimestamp <= part[j - from].normalizedTimestamp;
      }
    }
    if StepsBackNowhere(raws, from, to) {
      forall i, j | 0 <= i <= j < |part| ensures part[i].normalizedTimestamp <= part[j].normalizedTimestamp {
        assert raws[from + i].hostTimestamp <= raws[from + j].hostTimestamp || raws[from + i].hostTimestamp <= raws[0].hostTimestamp;
      }
    }
  }

  lemma SplitOrder(accepted: seq<Frame>, batch: seq<Frame>)
    requires batch != [] && SessionWriter.Ordered(accepted)
    ensures SessionWriter.NoStepBack(accepted, batch) <==> SessionWriter.Ordered(accepted + batch)
  {
    var all, n := accepted + batch, |accepted|;
    if SessionWriter.Ordered(all) {
      forall i, j | 0 <= i <= j < |batch| ensures batch[i].normalizedTimestamp <= batch[j].normalizedTimestamp {
        assert all[n + i].normalizedTimestamp <= all[n + j].normalizedTimestamp;
      }
      assert n > 0 ==> all[n - 1].normalizedTimestamp <= all[n].normalizedTimestamp;
    }
    if SessionWriter.NoStepBack(accepted, batch) {
      forall i, j | 0 <= i <= j < |all| ensures all[i].normalizedTimestamp <= all[j].normalizedTimestamp {
        if i < n <= j {
          assert accepted[i].normalizedTimestamp <= accepted[n - 1].normalizedTimestamp;
          assert batch[0].normalizedTimestamp <= batch[j - n].normalizedTimestamp;
        }
      }
    }
  }

  lemma StretchesContinue(raws: seq<Frame>, from: nat, n: nat, m: nat)
    requires from <= n < m <= |raws|
    ensures var stream := StreamAccounting.Normalized(raws);
            ValidBatch(stream[n..m]) && SessionWriter.Continues(stream[from..n], stream[n..m])
  {
    var stream := StreamAccounting.Normalized(raws);
    assert forall i :: 0 <= i < m - n ==> stream[n..m][i] == stream[n + i];
    assert from < n ==> stream[from..n][n - from - 1] == stream[n - 1];
  }

  /** A session that holds the frames from..n of a capture is offered the frames n..m: an ACTIVE
      writer accepts them exactly when the clock stepped back nowhere in from..m, and otherwise
      refuses them for their timestamps. */
  lemma SteppingClockIsRefusedExactly(raws: seq<Frame>, from: nat, n: nat, m: nat)
    requires from <= n < m <= |raws| && StepsBackNowhere(raws, from, n)
    ensures var stream := StreamAccounting.Normalized(raws);
            && ValidBatch(stream[n..m])
            && SessionWriter.RefusalOf(Active, true, stream[from..n], stream[n..m])
            == if StepsBackNowhere(raws, from, m) then None else Some(SessionWriter.TimestampRegression)
  {
    var stream := StreamAccounting.Normalized(raws);
    StretchesContinue(raws, from, n, m);
    NormalizedTimelineIsOrderedExactly(raws, from, n);
    NormalizedTimelineIsOrderedExactly(raws, from, m);
    assert stream[from..n] + stream[n..m] == stream[from..m];
    SplitOrder(stream[from..n], stream[n..m]);
  }

  /** Host times 0, 2 and 1, through the normalizer: its timeline steps back. */
  method ATimelineThatStepsBack(frame: Frame) returns (stream: seq<Frame>)
    ensures |stream| == 3 && !SessionWriter.Ordered(stream)
  {
    var normalizer := new StreamAccounting.TimestampNormalizer();
    var first := normalizer.Normalize(frame.(hostTimestamp := 0.0));
    var second := normalizer.Normalize(frame.(hostTimestamp := 2.0));
    var third := normalizer.Normalize(frame.(hostTimestamp := 1.0));
    stream := [first, second, third];
    assert stream[1].normalizedTimestamp == 2.0 && stream[2].normalizedTimestamp == 1.0;
  }
}
