/** What a client sees across queries: the pages of a cursor walk over a session that keeps growing,
    and the aggregates of a summary (runtime/canx/query/engine.py, service.py). */
module QueryPaging {
  import opened Wrappers
  import opened DataModel
  import opened CanFrame
  import opened SegmentStore
  import opened SessionWriter
  import opened FrameQueries

  /** Wherever the process may have stopped, the registered segments read back, the counters are
      their totals, and queries see a consecutive prefix of what the writer had accepted. */
  lemma EveryCrashPointIsQueryable(w: DataSessionWriter, i: nat)
    requires w.Valid() && i < |w.store.history|
    ensures WrittenSession(w.store.history[i]) && Committed(w.store.history[i]) <= w.accepted
    ensures w.store.history[i].session.frameCount == |Committed(w.store.history[i])|
    ensures forall k :: 0 <= k < |w.store.history[i].segments| ==>
              ReadSegment(w.store.disk, k) == ReadSegment(w.store.history[i], k) == Success(FramesOf(w.store.history[i], k))
  {
    var d, e := w.store.history[i], w.store.disk;
    assert CrashSafe(d) && CrashSafe(w.store.history[|w.store.history| - 1]);
    assert Extends(d, w.store.history[|w.store.history| - 1]);
    GrowthExtendsTheSession(d, e);
    PrefixIsConsecutive(Committed(d), w.accepted);
    RowCountsTheCommittedFrames(d);
    forall k | 0 <= k < |d.segments| ensures ReadSegment(e, k) == ReadSegment(d, k) == Success(FramesOf(d, k)) {
      RegisteredSegmentsReadBack(d, e, k);
    }
  }

  lemma PrefixIsConsecutive(a: seq<Frame>, b: seq<Frame>)
    requires a <= b && Consecutive(b)
    ensures Consecutive(a)
  {
  }

  // ----- the cursor ---------------------------------------------------------

  lemma {:induction false} SelectedPrefix(a: seq<Frame>, b: seq<Frame>, filter: FrameFilter, after: Option<nat>)
    requires a <= b
    ensures Selected(a, filter, after) <= Selected(b, filter, after)
  {
    SelectedConcat(a, b[|a|..], filter, after);
    assert a + b[|a|..] == b;
  }

  /** In ascending frames, a cursor inside the unrestricted selection drops exactly what is at or
      before it. */
  lemma {:induction false} CursorDropsAPrefix(frames: seq<Frame>, filter: FrameFilter, cursor: nat, n: nat)
    requires Ascending(frames) && n <= |Selected(frames, filter, None)|
    requires forall i :: 0 <= i < n ==> Selected(frames, filter, None)[i].sequence <= cursor
    requires forall i :: n <= i < |Selected(frames, filter, None)| ==> cursor < Selected(frames, filter, None)[i].sequence
    ensures Selected(frames, filter, Some(cursor)) == Selected(frames, filter, None)[n..]
  {
    if frames != [] {
      var init, f := frames[..|frames| - 1], frames[|frames| - 1];
      var all, before := Selected(frames, filter, None), Selected(init, filter, None);
      if !Matches(f, filter) {
        assert all == before;
        CursorDropsAPrefix(init, filter, cursor, n);
      } else {
        assert all == before + [f] && all[|before|] == f;
        assert forall i :: 0 <= i < |before| ==> all[i] == before[i];
        CursorDropsAPrefix(init, filter, cursor, if n <= |before| then n else |before|);
      }
    }
  }

  /** Taking up after the last frame of a non-empty prefix of the selection yields the rest. */
  lemma ResumingAfterAPrefix(frames: seq<Frame>, filter: FrameFilter, seen: seq<Frame>)
    requires Ascending(frames) && seen != [] && seen <= Selected(frames, filter, None)
    ensures Selected(frames, filter, Some(seen[|seen| - 1].sequence)) == Selected(frames, filter, None)[|seen|..]
  {
    SelectedAscends(frames, filter, None);
    CursorDropsAPrefix(frames, filter, seen[|seen| - 1].sequence, |seen|);
  }

  // ----- walking the pages --------------------------------------------------

  /** One request of a walk: the snapshot it met, its limit, and the page it got. */
  datatype Visit = Visit(snapshot: Disk, limit: nat, page: FrameQueryPage)

  /** A walk starts without a cursor and follows next_after_sequence; the writer may have committed
      more segments before each request. */
  datatype Walk = First(visit: Visit) | Then(earlier: Walk, visit: Visit)

  ghost predicate Follows(filter: FrameFilter, w: Walk) {
    match w
    case First(v) => Answers(filter, v, None)
    case Then(earlier, v) =>
      && Follows(filter, earlier) && earlier.visit.page.hasMore
      && Extends(earlier.visit.snapshot, v.snapshot)
      && Answers(filter, v, earlier.visit.page.nextAfterSequence)
  }

  ghost predicate Answers(filter: FrameFilter, v: Visit, after: Option<nat>) {
    && WrittenSession(v.snapshot) && v.limit > 0
    && IsPage(v.page, Selected(Committed(v.snapshot), filter, after), v.limit)
  }

  /** Everything the walk has returned. */
  function Seen(w: Walk): seq<Frame> {
    match w
    case First(v) => v.page.frames
    case Then(earlier, v) => Seen(earlier) + v.page.frames
  }

  lemma ConsecutiveAscends(frames: seq<Frame>)
    requires Consecutive(frames)
    ensures Ascending(frames)
  {
  }

  lemma GrowthExtendsTheSession(d: Disk, e: Disk)
    requires Extends(d, e)
    ensures Committed(d) <= Committed(e)
  {
    ExtendedContents(d, e, |d.segments|);
    ContentsIsPrefix(e, |d.segments|, |e.segments|);
  }

  /** What was seen is a prefix of the whole selection, all of it when the last page has no more;
      otherwise that page's cursor is the last frame seen. */
  ghost predicate ReadsPrefix(seen: seq<Frame>, whole: seq<Frame>, page: FrameQueryPage) {
    && seen <= whole
    && (!page.hasMore ==> seen == whole)
    && (page.hasMore ==> seen != [] && page.nextAfterSequence == Some(seen[|seen| - 1].sequence))
  }

  lemma OnePageFurther(seen: seq<Frame>, whole: seq<Frame>, page: FrameQueryPage, limit: nat)
    requires seen <= whole && limit > 0 && IsPage(page, whole[|seen|..], limit)
    ensures ReadsPrefix(seen + page.frames, whole, page)
  {
    assert whole == seen + whole[|seen|..];
  }

  /** The selection the next request meets starts where the previous one ended. */
  lemma NextSelection(d: Disk, e: Disk, filter: FrameFilter, seen: seq<Frame>)
    requires WrittenSession(d) && WrittenSession(e) && Extends(d, e)
    requires seen != [] && seen <= Selected(Committed(d), filter, None)
    ensures seen <= Selected(Committed(e), filter, None)
    ensures Selected(Committed(e), filter, Some(seen[|seen| - 1].sequence)) == Selected(Committed(e), filter, None)[|seen|..]
  {
    GrowthExtendsTheSession(d, e);
    SelectedPrefix(Committed(d), Committed(e), filter, None);
    ConsecutiveAscends(Committed(e));
    ResumingAfterAPrefix(Committed(e), filter, seen);
  }

  function Whole(filter: FrameFilter, v: Visit): seq<Frame> {
    Selected(Committed(v.snapshot), filter, None)
  }

  lemma FirstPage(filter: FrameFilter, v: Visit)
    requires Answers(filter, v, None)
    ensures ReadsPrefix(v.page.frames, Whole(filter, v), v.page)
  {
    assert Whole(filter, v)[0..] == Whole(filter, v);
    OnePageFurther([], Whole(filter, v), v.page, v.limit);
    assert [] + v.page.frames == v.page.frames;
  }

  lemma NextPage(filter: FrameFilter, last: Visit, v: Visit, seen: seq<Frame>)
    requires WrittenSession(last.snapshot) && ReadsPrefix(seen, Whole(filter, last), last.page) && last.page.hasMore
    requires Extends(last.snapshot, v.snapshot) && Answers(filter, v, last.page.nextAfterSequence)
    ensures ReadsPrefix(seen + v.page.frames, Whole(filter, v), v.page)
  {
    NextSelection(last.snapshot, v.snapshot, filter, seen);
    OnePageFurther(seen, Whole(filter, v), v.page, v.limit);
  }

  /** After every page the walk has returned a prefix of the filtered session, nothing skipped and
      nothing twice; a page without more completes the filter of its own snapshot. */
  lemma {:induction false} WalkReadsThePrefix(filter: FrameFilter, w: Walk)
    requires Follows(filter, w)
    ensures WrittenSession(w.visit.snapshot) && ReadsPrefix(Seen(w), Whole(filter, w.visit), w.visit.page)
  {
    match w
    case First(v) =>
      FirstPage(filter, v);
    case Then(earlier, v) =>
      WalkReadsThePrefix(filter, earlier);
      NextPage(filter, earlier.visit, v, Seen(earlier));
  }

  /** The pages of a walk ascend strictly in sequence number, so no frame comes twice. */
  lemma WalkNeverRepeats(filter: FrameFilter, w: Walk)
    requires Follows(filter, w)
    ensures Ascending(Seen(w))
  {
    WalkReadsThePrefix(filter, w);
    ConsecutiveAscends(Committed(w.visit.snapshot));
    SelectedAscends(Committed(w.visit.snapshot), filter, None);
  }

  // ----- walks over the disks a writer left behind --------------------------

  /** The walk met recorded disks, each request one no older than the request before it. */
  ghost predicate MetInOrder(history: seq<Disk>, w: Walk, at: nat) {
    && at < |history| && w.visit.snapshot == history[at]
    && (w.Then? ==> exists k: nat :: k <= at && MetInOrder(history, w.earlier, k))
  }

  /** Every request was answered, on the disk it met. */
  ghost predicate Answered(filter: FrameFilter, w: Walk) {
    && w.visit.limit > 0
    && match w
       case First(v) => IsPage(v.page, Selected(Committed(v.snapshot), filter, None), v.limit)
       case Then(earlier, v) =>
         && Answered(filter, earlier) && earlier.visit.page.hasMore
         && IsPage(v.page, Selected(Committed(v.snapshot), filter, earlier.visit.page.nextAfterSequence), v.limit)
  }

  lemma {:induction false} RecordedWalkFollows(w: DataSessionWriter, filter: FrameFilter, walk: Walk, at: nat)
    requires w.Valid() && MetInOrder(w.store.history, walk, at) && Answered(filter, walk)
    ensures Follows(filter, walk)
    decreases walk
  {
    EveryCrashPointIsQueryable(w, at);
    if walk.Then? {
      var k: nat :| k <= at && MetInOrder(w.store.history, walk.earlier, k);
      RecordedWalkFollows(w, filter, walk.earlier, k);
      assert Extends(w.store.history[k], w.store.history[at]);
    }
  }

  /** A client that pages through a session while its writer goes on, flushes, fails or crashes gets
      a prefix of the filtered frames the writer accepted. */
  lemma PagingDuringTheCapture(w: DataSessionWriter, filter: FrameFilter, walk: Walk, at: nat)
    requires w.Valid() && MetInOrder(w.store.history, walk, at) && Answered(filter, walk)
    ensures Seen(walk) <= Selected(w.accepted, filter, None) && Ascending(Seen(walk))
  {
    RecordedWalkFollows(w, filter, walk, at);
    WalkReadsThePrefix(filter, walk);
    WalkNeverRepeats(filter, walk);
    EveryCrashPointIsQueryable(w, at);
    SelectedPrefix(Committed(walk.visit.snapshot), w.accepted, filter, None);
  }

  // ----- aggregates ---------------------------------------------------------

  datatype FrameQuerySummary = FrameQuerySummary(matchingFrameCount: nat, extremes: Option<Extremes>)

  /** min(sequence), max(sequence), min(normalized_timestamp), max(normalized_timestamp). */
  datatype Extremes = Extremes(firstSequence: nat, lastSequence: nat, firstTimestamp: real, lastTimestamp: real)

  function Aggregate(rows: seq<Frame>): Extremes
    requires rows != []
  {
    var f := rows[|rows| - 1];
    if |rows| == 1 then Extremes(f.sequence, f.sequence, f.normalizedTimestamp, f.normalizedTimestamp)
    else
      var e := Aggregate(rows[..|rows| - 1]);
      Extremes(
        if f.sequence < e.firstSequence then f.sequence else e.firstSequence,
        if e.lastSequence < f.sequence then f.sequence else e.lastSequence,
        if f.normalizedTimestamp < e.firstTimestamp then f.normalizedTimestamp else e.firstTimestamp,
        if e.lastTimestamp < f.normalizedTimestamp then f.normalizedTimestamp else e.lastTimestamp)
  }

  ghost predicate AreExtremes(e: Extremes, rows: seq<Frame>) {
    && (forall i :: 0 <= i < |rows| ==>
          e.firstSequence <= rows[i].sequence <= e.lastSequence && e.firstTimestamp <= rows[i].normalizedTimestamp <= e.lastTimestamp)
    && (exists i :: 0 <= i < |rows| && rows[i].sequence == e.firstSequence)
    && (exists i :: 0 <= i < |rows| && rows[i].sequence == e.lastSequence)
    && (exists i :: 0 <= i < |rows| && rows[i].normalizedTimestamp == e.firstTimestamp)
    && (exists i :: 0 <= i < |rows| && rows[i].normalizedTimestamp == e.lastTimestamp)
  }

  lemma {:induction false} AggregateIsExtreme(rows: seq<Frame>)
    requires rows != []
    ensures AreExtremes(Aggregate(rows), rows)
  {
    var f, e := rows[|rows| - 1], Aggregate(rows);
    if |rows| > 1 {
      var init := rows[..|rows| - 1];
      AggregateIsExtreme(init);
      var before := Aggregate(init);
      var a :| 0 <= a < |init| && init[a].sequence == before.firstSequence;
      var b :| 0 <= b < |init| && init[b].sequence == before.lastSequence;
      var c :| 0 <= c < |init| && init[c].normalizedTimestamp == before.firstTimestamp;
      var d :| 0 <= d < |init| && init[d].normalizedTimestamp == before.lastTimestamp;
      assert rows[a] == init[a] && rows[b] == init[b] && rows[c] == init[c] && rows[d] == init[d];
      assert forall i :: 0 <= i < |init| ==> rows[i] == init[i];
    }
  }

  /** summarize over one snapshot: computed on the planned segments, true of the whole session. */
  method SummarizeFrames(d: Disk, filter: FrameFilter) returns (r: Result<FrameQuerySummary, ReadError>)
    ensures WrittenSession(d) ==>
              r.Success? && r.value.matchingFrameCount == |Selected(Committed(d), filter, None)|
              && (r.value.extremes.None? <==> Selected(Committed(d), filter, None) == [])
              && (r.value.extremes.Some? ==> AreExtremes(r.value.extremes.value, Selected(Committed(d), filter, None)))
  {
    var planned := PlanSegments(d.segments, filter, None);
    PlannedRowsAreRegistered(d.segments, filter, None);
    var refused := CandidatePaths(d, planned);
    if WrittenSession(d) {
      PlannedSegmentsPass(d, planned);
    }
    if refused.Some? {
      return Failure(refused.value);
    }
    var clauses := FramePredicates(filter);
    if WrittenSession(d) {
      StatementSelectsFromTheSession(d, clauses, filter, None);
    }
    if planned == [] {
      return Success(FrameQuerySummary(0, None));
    }
    var rows := OrderBySequence(Where(Scan(d, planned), clauses));
    if rows == [] {
      return Success(FrameQuerySummary(0, None));
    }
    AggregateIsExtreme(rows);
    return Success(FrameQuerySummary(|rows|, Some(Aggregate(rows))));
  }
}
