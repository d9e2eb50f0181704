/** Bounded structured queries over one session's segments (runtime/canx/query/): segment pruning,
    the WHERE clauses of a filter, and cursor pages of limit + 1 rows. */
module FrameQueries {
  import opened Wrappers
  import opened DataModel
  import opened BitArithmetic
  import opened Bitwise
  import opened CanFrame
  import opened SegmentStore
  import opened SessionWriter

  /** None on an axis does not restrict it; all axes must hold together. */
  datatype FrameFilter = FrameFilter(
    sequenceStart: Option<nat>,
    sequenceEnd: Option<nat>,
    timestampStart: Option<real>,
    timestampEnd: Option<real>,
    channelIds: Option<seq<string>>,
    arbitrationIds: Option<seq<nat>>,
    arbitrationIdStart: Option<nat>,
    arbitrationIdEnd: Option<nat>,
    arbitrationIdMask: Option<IdMask>,
    directions: Option<seq<Direction>>,
    isExtended: Option<bool>,
    isFd: Option<bool>)

  datatype IdMask = IdMask(mask: nat, value: nat)

  datatype Clause =
    | SequenceAtLeast(low: nat)
    | SequenceAtMost(high: nat)
    | SequenceAfter(cursor: nat)
    | TimestampAtLeast(from: real)
    | TimestampAtMost(to: real)
    | ChannelIn(channels: seq<string>)
    | IdIn(ids: seq<nat>)
    | IdAtLeast(lowId: nat)
    | IdAtMost(highId: nat)
    | IdMasked(mask: nat, target: nat)
    | DirectionIn(directions: seq<Direction>)
    | ExtendedIs(extended: bool)
    | FdIs(fd: bool)

  datatype FrameQueryPage = FrameQueryPage(frames: seq<Frame>, hasMore: bool, nextAfterSequence: Option<nat>)

  predicate Holds(c: Clause, f: Frame) {
    match c
    case SequenceAtLeast(low) => low <= f.sequence
    case SequenceAtMost(high) => f.sequence <= high
    case SequenceAfter(cursor) => cursor < f.sequence
    case TimestampAtLeast(from) => from <= f.normalizedTimestamp
    case TimestampAtMost(to) => f.normalizedTimestamp <= to
    case ChannelIn(channels) => f.channelId in channels
    case IdIn(ids) => f.arbitrationId in ids
    case IdAtLeast(low) => low <= f.arbitrationId
    case IdAtMost(high) => f.arbitrationId <= high
    case IdMasked(mask, target) => And(f.arbitrationId, mask) == target
    case DirectionIn(directions) => f.direction in directions
    case ExtendedIs(extended) => f.isExtended == extended
    case FdIs(fd) => f.isFd == fd
  }

  predicate Satisfies(f: Frame, clauses: seq<Clause>) {
    forall c :: c in clauses ==> Holds(c, f)
  }

  // ----- what a filter means ------------------------------------------------

  predicate MatchesBounds(f: Frame, filter: FrameFilter) {
    && (filter.sequenceStart.Some? ==> filter.sequenceStart.value <= f.sequence)
    && (filter.sequenceEnd.Some? ==> f.sequence <= filter.sequenceEnd.value)
    && (filter.timestampStart.Some? ==> filter.timestampStart.value <= f.normalizedTimestamp)
    && (filter.timestampEnd.Some? ==> f.normalizedTimestamp <= filter.timestampEnd.value)
  }

  predicate MatchesSets(f: Frame, filter: FrameFilter) {
    && (filter.channelIds.Some? ==> f.channelId in filter.channelIds.value)
    && (filter.arbitrationIds.Some? ==> f.arbitrationId in filter.arbitrationIds.value)
  }

  predicate MatchesId(f: Frame, filter: FrameFilter) {
    && (filter.arbitrationIdStart.Some? ==> filter.arbitrationIdStart.value <= f.arbitrationId)
    && (filter.arbitrationIdEnd.Some? ==> f.arbitrationId <= filter.arbitrationIdEnd.value)
    && (filter.arbitrationIdMask.Some? ==>
          var m := filter.arbitrationIdMask.value; And(f.arbitrationId, m.mask) == And(m.value, m.mask))
  }

  predicate MatchesKind(f: Frame, filter: FrameFilter) {
    && (filter.directions.Some? ==> f.direction in filter.directions.value)
    && (filter.isExtended.Some? ==> f.isExtended == filter.isExtended.value)
    && (filter.isFd.Some? ==> f.isFd == filter.isFd.value)
  }

  predicate Matches(f: Frame, filter: FrameFilter) {
    MatchesBounds(f, filter) && MatchesSets(f, filter) && MatchesId(f, filter) && MatchesKind(f, filter)
  }

  predicate PastCursor(f: Frame, after: Option<nat>) {
    after.Some? ==> after.value < f.sequence
  }

  /** The specification of a query: what a flat list of frames holds past the cursor, in order. */
  function Selected(frames: seq<Frame>, filter: FrameFilter, after: Option<nat>): seq<Frame> {
    if frames == [] then []
    else
      var f := frames[|frames| - 1];
      Selected(frames[..|frames| - 1], filter, after) + if Matches(f, filter) && PastCursor(f, after) then [f] else []
  }

  /** One page cut from the selection. */
  ghost predicate IsPage(page: FrameQueryPage, selection: seq<Frame>, limit: nat) {
    && page.frames <= selection
    && (|selection| <= limit ==> page.frames == selection && !page.hasMore && page.nextAfterSequence.None?)
    && (limit < |selection| ==>
          |page.frames| == limit && page.hasMore
          && (limit > 0 ==> page.nextAfterSequence == Some(page.frames[limit - 1].sequence)))
  }

  // ----- the clauses --------------------------------------------------------

  function Joined(clauses: seq<Clause>, c: Clause): (r: seq<Clause>)
    ensures forall f :: Satisfies(f, r) <==> Satisfies(f, clauses) && Holds(c, f)
  {
    clauses + [c]
  }

  method BoundClauses(filter: FrameFilter) returns (clauses: seq<Clause>)
    ensures forall f :: Satisfies(f, clauses) <==> MatchesBounds(f, filter)
  {
    clauses := [];
    if filter.sequenceStart.Some? {
      clauses := Joined(clauses, SequenceAtLeast(filter.sequenceStart.value));
    }
    if filter.sequenceEnd.Some? {
      clauses := Joined(clauses, SequenceAtMost(filter.sequenceEnd.value));
    }
    if filter.timestampStart.Some? {
      clauses := Joined(clauses, TimestampAtLeast(filter.timestampStart.value));
    }
    if filter.timestampEnd.Some? {
      clauses := Joined(clauses, TimestampAtMost(filter.timestampEnd.value));
    }
  }

  method SetClauses(start: seq<Clause>, filter: FrameFilter) returns (clauses: seq<Clause>)
    ensures forall f :: Satisfies(f, clauses) <==> Satisfies(f, start) && MatchesSets(f, filter)
  {
    clauses := start;
    if filter.channelIds.Some? {
      clauses := Joined(clauses, ChannelIn(filter.channelIds.value));
    }
    if filter.arbitrationIds.Some? {
      clauses := Joined(clauses, IdIn(filter.arbitrationIds.value));
    }
  }

  method IdClauses(start: seq<Clause>, filter: FrameFilter) returns (clauses: seq<Clause>)
    ensures forall f :: Satisfies(f, clauses) <==> Satisfies(f, start) && MatchesId(f, filter)
  {
    clauses := start;
    if filter.arbitrationIdStart.Some? {
      clauses := Joined(clauses, IdAtLeast(filter.arbitrationIdStart.value));
    }
    if filter.arbitrationIdEnd.Some? {
      clauses := Joined(clauses, IdAtMost(filter.arbitrationIdEnd.value));
    }
    if filter.arbitrationIdMask.Some? {
      var m := filter.arbitrationIdMask.value;
      clauses := Joined(clauses, IdMasked(m.mask, And(m.value, m.mask)));
    }
  }

  method KindClauses(start: seq<Clause>, filter: FrameFilter) returns (clauses: seq<Clause>)
    ensures forall f :: Satisfies(f, clauses) <==> Satisfies(f, start) && MatchesKind(f, filter)
  {
    clauses := start;
    if filter.directions.Some? {
      clauses := Joined(clauses, DirectionIn(filter.directions.value));
    }
    if filter.isExtended.Some? {
      clauses := Joined(clauses, ExtendedIs(filter.isExtended.value));
    }
    if filter.isFd.Some? {
      clauses := Joined(clauses, FdIs(filter.isFd.value));
    }
  }

  /** _frame_predicates: the clauses say what the filter means. */
  method FramePredicates(filter: FrameFilter) returns (clauses: seq<Clause>)
    ensures forall f :: Satisfies(f, clauses) <==> Matches(f, filter)
  {
    var bounds := BoundClauses(filter);
    var sets := SetClauses(bounds, filter);
    var ids := IdClauses(sets, filter);
    clauses := KindClauses(ids, filter);
  }

  /** A masked filter selects, of what it selects without the mask, the frames whose id agrees with
      the value on every bit set in the mask. */
  lemma MaskedIdsAgreeOnTheMask(f: Frame, filter: FrameFilter)
    requires filter.arbitrationIdMask.Some?
    ensures var m := filter.arbitrationIdMask.value;
            Matches(f, filter) <==>
              Matches(f, filter.(arbitrationIdMask := None))
              && forall k: nat :: Bit(m.mask, k) == 1 ==> Bit(f.arbitrationId, k) == Bit(m.value, k)
  {
    var m := filter.arbitrationIdMask.value;
    AgreeUnderAMask(f.arbitrationId, m.value, m.mask);
  }

  // ----- the engine's one statement -----------------------------------------

  /** read_parquet over the given segments. */
  function Scan(d: Disk, rows: seq<SegmentRow>): seq<Frame> {
    if rows == [] then [] else Scan(d, rows[..|rows| - 1]) + FileFrames(d, rows[|rows| - 1])
  }

  function FileFrames(d: Disk, row: SegmentRow): seq<Frame> {
    if row.path in d.files && d.files[row.path].Complete? then d.files[row.path].frames else []
  }

  function Where(frames: seq<Frame>, clauses: seq<Clause>): seq<Frame> {
    if frames == [] then []
    else
      var f := frames[|frames| - 1];
      Where(frames[..|frames| - 1], clauses) + if Satisfies(f, clauses) then [f] else []
  }

  /** ORDER BY sequence. */
  function OrderBySequence(frames: seq<Frame>): seq<Frame> {
    if frames == [] then [] else InsertRow(OrderBySequence(frames[..|frames| - 1]), frames[|frames| - 1])
  }

  function InsertRow(rows: seq<Frame>, f: Frame): seq<Frame> {
    if rows == [] || rows[|rows| - 1].sequence <= f.sequence then rows + [f]
    else InsertRow(rows[..|rows| - 1], f) + [rows[|rows| - 1]]
  }

  /** Sequence numbers never descend. */
  ghost predicate NeverDescends(frames: seq<Frame>) {
    forall i, j :: 0 <= i <= j < |frames| ==> frames[i].sequence <= frames[j].sequence
  }

  lemma AppendingTheGreatest(rows: seq<Frame>, last: Frame)
    requires NeverDescends(rows) && forall r :: r in rows ==> r.sequence <= last.sequence
    ensures NeverDescends(rows + [last])
  {
    assert forall i :: 0 <= i < |rows| ==> rows[i] in rows;
  }

  lemma {:induction false} InsertHoldsTheRows(rows: seq<Frame>, f: Frame)
    ensures forall r :: r in InsertRow(rows, f) <==> r in rows || r == f
  {
    if rows != [] && f.sequence < rows[|rows| - 1].sequence {
      InsertHoldsTheRows(rows[..|rows| - 1], f);
    }
  }

  lemma {:induction false} InsertAddsOneRow(rows: seq<Frame>, f: Frame)
    ensures multiset(InsertRow(rows, f)) == multiset(rows) + multiset{f}
  {
    if rows != [] && f.sequence < rows[|rows| - 1].sequence {
      InsertAddsOneRow(rows[..|rows| - 1], f);
      assert rows == rows[..|rows| - 1] + [rows[|rows| - 1]];
    }
  }

  lemma {:induction false} InsertKeepsOrder(rows: seq<Frame>, f: Frame)
    requires NeverDescends(rows)
    ensures NeverDescends(InsertRow(rows, f))
  {
    if rows == [] || rows[|rows| - 1].sequence <= f.sequence {
      AppendingTheGreatest(rows, f);
    } else {
      var init, last := rows[..|rows| - 1], rows[|rows| - 1];
      InsertKeepsOrder(init, f);
      InsertHoldsTheRows(init, f);
      AppendingTheGreatest(InsertRow(init, f), last);
    }
  }

  lemma {:induction false} OrderByAscends(frames: seq<Frame>)
    ensures NeverDescends(OrderBySequence(frames))
  {
    if frames != [] {
      OrderByAscends(frames[..|frames| - 1]);
      InsertKeepsOrder(OrderBySequence(frames[..|frames| - 1]), frames[|frames| - 1]);
    }
  }

  lemma {:induction false} OrderByKeepsTheRows(frames: seq<Frame>)
    ensures multiset(OrderBySequence(frames)) == multiset(frames)
  {
    if frames != [] {
      var init, last := frames[..|frames| - 1], frames[|frames| - 1];
      OrderByKeepsTheRows(init);
      InsertAddsOneRow(OrderBySequence(init), last);
      assert frames == init + [last];
    }
  }

  /** SELECT ... FROM the segments WHERE the clauses ORDER BY sequence LIMIT n. */
  function RunStatement(d: Disk, rows: seq<SegmentRow>, clauses: seq<Clause>, n: nat): seq<Frame> {
    var found := OrderBySequence(Where(Scan(d, rows), clauses));
    if |found| <= n then found else found[..n]
  }

  /** plan_segments: only sequence bounds and the cursor may leave a segment out. */
  function PlanSegments(rows: seq<SegmentRow>, filter: FrameFilter, after: Option<nat>): seq<SegmentRow> {
    if rows == [] then []
    else
      var row := rows[|rows| - 1];
      PlanSegments(rows[..|rows| - 1], filter, after) + if MayMatch(row, filter, after) then [row] else []
  }

  predicate MayMatch(row: SegmentRow, filter: FrameFilter, after: Option<nat>) {
    && !(filter.sequenceStart.Some? && row.last.sequence < filter.sequenceStart.value)
    && !(filter.sequenceEnd.Some? && row.first.sequence > filter.sequenceEnd.value)
    && (after.Some? ==> row.last.sequence > after.value)
  }

  /** _candidate_paths: every planned segment must agree with its file. */
  method CandidatePaths(d: Disk, planned: seq<SegmentRow>) returns (refused: Option<ReadError>)
    requires forall i :: 0 <= i < |planned| ==> planned[i] in d.segments
    ensures refused.None? <==> forall i :: 0 <= i < |planned| ==> Validated(d, planned[i]).None?
    ensures refused.Some? ==> exists i :: 0 <= i < |planned| && Validated(d, planned[i]) == refused
  {
    for i := 0 to |planned|
      invariant forall j :: 0 <= j < i ==> Validated(d, planned[j]).None?
    {
      var found := Validated(d, planned[i]);
      if found.Some? {
        return found;
      }
    }
    return None;
  }

  /** _validate: the file exists and matches its row. */
  function Validated(d: Disk, row: SegmentRow): Option<ReadError> {
    if row.path !in d.files then Some(FileMissing)
    else if row.path != SegmentFile(row.index) then Some(PathMismatch)
    else
      var file := d.files[row.path];
      if file.Partial? then Some(Unreadable)
      else if file.footer != row.index then Some(FooterMismatch)
      else if |file.frames| != row.frameCount then Some(FrameCountMismatch)
      else if file.byteSize != row.byteSize then Some(ByteSizeMismatch)
      else None
  }

  // ----- pruning ------------------------------------------------------------

  ghost predicate TrueBounds(d: Disk, row: SegmentRow) {
    forall i :: 0 <= i < |FileFrames(d, row)| ==>
                  row.first.sequence <= FileFrames(d, row)[i].sequence <= row.last.sequence
  }

  lemma {:induction false} NothingSelected(frames: seq<Frame>, filter: FrameFilter, after: Option<nat>)
    requires forall i :: 0 <= i < |frames| ==> !(Matches(frames[i], filter) && PastCursor(frames[i], after))
    ensures Selected(frames, filter, after) == []
  {
    if frames != [] {
      NothingSelected(frames[..|frames| - 1], filter, after);
    }
  }

  lemma {:induction false} SelectedConcat(a: seq<Frame>, b: seq<Frame>, filter: FrameFilter, after: Option<nat>)
    ensures Selected(a + b, filter, after) == Selected(a, filter, after) + Selected(b, filter, after)
  {
    if b == [] {
      assert a + b == a;
    } else {
      var init, f := b[..|b| - 1], b[|b| - 1];
      SelectedConcat(a, init, filter, after);
      assert (a + b)[..|a + b| - 1] == a + init && (a + b)[|a + b| - 1] == f;
      var tail := if Matches(f, filter) && PastCursor(f, after) then [f] else [];
      assert (Selected(a, filter, after) + Selected(init, filter, after)) + tail
          == Selected(a, filter, after) + (Selected(init, filter, after) + tail);
    }
  }

  /** A query over the planned segments selects exactly what a query over all of them selects. */
  lemma {:induction false} PruningLosesNothing(d: Disk, rows: seq<SegmentRow>, filter: FrameFilter, after: Option<nat>)
    requires forall i :: 0 <= i < |rows| ==> TrueBounds(d, rows[i])
    ensures Selected(Scan(d, PlanSegments(rows, filter, after)), filter, after) == Selected(Scan(d, rows), filter, after)
  {
    if rows != [] {
      var init, row := rows[..|rows| - 1], rows[|rows| - 1];
      PruningLosesNothing(d, init, filter, after);
      SelectedConcat(Scan(d, init), FileFrames(d, row), filter, after);
      if MayMatch(row, filter, after) {
        var planned := PlanSegments(init, filter, after);
        assert (planned + [row])[..|planned|] == planned;
        SelectedConcat(Scan(d, planned), FileFrames(d, row), filter, after);
      } else {
        assert TrueBounds(d, row);
        NothingSelected(FileFrames(d, row), filter, after);
        assert PlanSegments(rows, filter, after) == PlanSegments(init, filter, after);
        assert Selected(Scan(d, init), filter, after) + [] == Selected(Scan(d, init), filter, after);
      }
    }
  }

  lemma {:induction false} WhereIsSelected(frames: seq<Frame>, clauses: seq<Clause>, filter: FrameFilter, after: Option<nat>)
    requires forall f :: Satisfies(f, clauses) <==> Matches(f, filter) && PastCursor(f, after)
    ensures Where(frames, clauses) == Selected(frames, filter, after)
  {
    if frames != [] {
      WhereIsSelected(frames[..|frames| - 1], clauses, filter, after);
    }
  }

  lemma {:induction false} SelectedAscends(frames: seq<Frame>, filter: FrameFilter, after: Option<nat>)
    requires Ascending(frames)
    ensures Ascending(Selected(frames, filter, after))
    ensures forall i :: 0 <= i < |Selected(frames, filter, after)| ==> Selected(frames, filter, after)[i] in frames
  {
    if frames != [] {
      SelectedAscends(frames[..|frames| - 1], filter, after);
    }
  }

  lemma {:induction false} AscendingIsOrdered(frames: seq<Frame>)
    requires Ascending(frames)
    ensures OrderBySequence(frames) == frames
  {
    if frames != [] {
      AscendingIsOrdered(frames[..|frames| - 1]);
      assert frames[..|frames| - 1] + [frames[|frames| - 1]] == frames;
    }
  }

  // ----- one query ----------------------------------------------------------

  /** A planned segment passes exactly when its canonical file is complete, carries its index and
      has the registered size and frame count. */
  lemma ValidatedExactly(d: Disk, row: SegmentRow)
    ensures Validated(d, row).None? <==>
              row.path == SegmentFile(row.index) && row.path in d.files
              && exists frames :: d.files[row.path] == Complete(row.index, frames, row.byteSize) && |frames| == row.frameCount
    ensures Validated(d, row) == Some(FileMissing) <==> row.path !in d.files
  {
    if Validated(d, row).None? {
      var frames := d.files[row.path].frames;
      assert d.files[row.path] == Complete(row.index, frames, row.byteSize) && |frames| == row.frameCount;
    }
  }

  ghost predicate Within(row: SegmentRow, n: nat) {
    row.first.sequence <= n <= row.last.sequence
  }

  ghost predicate InBounds(filter: FrameFilter, n: nat) {
    (filter.sequenceStart.Some? ==> filter.sequenceStart.value <= n) && (filter.sequenceEnd.Some? ==> n <= filter.sequenceEnd.value)
  }

  /** A segment is planned exactly when some sequence number of its range is within the filter's
      bounds and some is past the cursor. */
  lemma PlannedExactlyWhenItMayHold(row: SegmentRow, filter: FrameFilter, after: Option<nat>)
    requires row.first.sequence <= row.last.sequence
    requires filter.sequenceStart.Some? && filter.sequenceEnd.Some? ==> filter.sequenceStart.value <= filter.sequenceEnd.value
    ensures MayMatch(row, filter, after) <==>
              (exists n: nat :: Within(row, n) && InBounds(filter, n))
              && (exists n: nat :: Within(row, n) && (after.Some? ==> after.value < n))
  {
    var start := if filter.sequenceStart.Some? then filter.sequenceStart.value else 0;
    var low := if start < row.first.sequence then row.first.sequence else start;
    if MayMatch(row, filter, after) {
      assert Within(row, low) && InBounds(filter, low);
      assert Within(row, row.last.sequence);
    }
  }

  /** A session whose committed frames are consecutive, as its writer leaves it. */
  ghost predicate WrittenSession(d: Disk) {
    CrashSafe(d) && Consecutive(Committed(d))
  }

  lemma {:induction false} ScanningEverythingIsTheContents(d: Disk, n: nat)
    requires CrashSafe(d) && n <= |d.segments|
    ensures Scan(d, d.segments[..n]) == Contents(d, n)
  {
    if n > 0 {
      ScanningEverythingIsTheContents(d, n - 1);
      assert d.segments[..n][..n - 1] == d.segments[..n - 1];
      assert Backed(d, n - 1);
    }
  }

  lemma WrittenBoundsAreTrue(d: Disk, k: nat)
    requires WrittenSession(d) && k < |d.segments|
    ensures TrueBounds(d, d.segments[k]) && Validated(d, d.segments[k]).None?
  {
    assert Backed(d, k);
    var frames, at := FramesOf(d, k), |Contents(d, k)|;
    forall i | 0 <= i < |frames|
      ensures d.segments[k].first.sequence <= frames[i].sequence <= d.segments[k].last.sequence
    {
      SegmentFrameIsAccepted(d, [], Committed(d), k, 0);
      SegmentFrameIsAccepted(d, [], Committed(d), k, i);
      SegmentFrameIsAccepted(d, [], Committed(d), k, |frames| - 1);
      assert at <= at + i <= at + (|frames| - 1);
    }
  }

  lemma {:induction false} PlannedRowsAreRegistered(rows: seq<SegmentRow>, filter: FrameFilter, after: Option<nat>)
    ensures forall row :: row in PlanSegments(rows, filter, after) <==> row in rows && MayMatch(row, filter, after)
  {
    if rows != [] {
      PlannedRowsAreRegistered(rows[..|rows| - 1], filter, after);
    }
  }

  /** Pruned, filtered by clauses and ordered by the engine, the rows are the selection from the
      flat list of committed frames. */
  lemma StatementSelectsFromTheSession(d: Disk, clauses: seq<Clause>, filter: FrameFilter, after: Option<nat>)
    requires WrittenSession(d)
    requires forall f :: Satisfies(f, clauses) <==> Matches(f, filter) && PastCursor(f, after)
    ensures OrderBySequence(Where(Scan(d, PlanSegments(d.segments, filter, after)), clauses)) == Selected(Committed(d), filter, after)
  {
    var planned := PlanSegments(d.segments, filter, after);
    forall i | 0 <= i < |d.segments| ensures TrueBounds(d, d.segments[i]) {
      WrittenBoundsAreTrue(d, i);
    }
    PruningLosesNothing(d, d.segments, filter, after);
    assert d.segments[..|d.segments|] == d.segments;
    ScanningEverythingIsTheContents(d, |d.segments|);
    WhereIsSelected(Scan(d, planned), clauses, filter, after);
    SelectedAscends(Committed(d), filter, after);
    AscendingIsOrdered(Selected(Committed(d), filter, after));
  }

  lemma PlannedSegmentsPass(d: Disk, planned: seq<SegmentRow>)
    requires WrittenSession(d) && forall row :: row in planned ==> row in d.segments
    ensures forall row :: row in planned ==> Validated(d, row).None?
  {
    forall row | row in planned ensures Validated(d, row).None? {
      var k :| 0 <= k < |d.segments| && d.segments[k] == row;
      WrittenBoundsAreTrue(d, k);
    }
  }

  /** query_frames of the service and the engine, over one snapshot. */
  method QueryFrames(d: Disk, filter: FrameFilter, after: Option<nat>, limit: nat) returns (r: Result<FrameQueryPage, ReadError>)
    requires limit > 0
    ensures r.Success? <==> forall row :: row in d.segments && MayMatch(row, filter, after) ==> Validated(d, row).None?
    ensures WrittenSession(d) ==> r.Success? && IsPage(r.value, Selected(Committed(d), filter, after), limit)
  {
    var planned := PlanSegments(d.segments, filter, after);
    PlannedRowsAreRegistered(d.segments, filter, after);
    var refused := CandidatePaths(d, planned);
    if WrittenSession(d) {
      PlannedSegmentsPass(d, planned);
    }
    if refused.Some? {
      return Failure(refused.value);
    }
    var page := EnginePage(d, planned, filter, after, limit);
    return Success(page);
  }

  /** Cut limit + 1 fetched rows to a page. */
  function PageFrom(rows: seq<Frame>, limit: nat): FrameQueryPage {
    var hasMore := |rows| > limit;
    var frames := if hasMore then rows[..limit] else rows;
    FrameQueryPage(frames, hasMore, if hasMore && frames != [] then Some(frames[|frames| - 1].sequence) else None)
  }

  lemma PageFromSelection(selection: seq<Frame>, limit: nat)
    requires limit > 0
    ensures IsPage(PageFrom(if |selection| <= limit + 1 then selection else selection[..limit + 1], limit), selection, limit)
  {
    if |selection| > limit + 1 {
      assert selection[..limit + 1][..limit] == selection[..limit];
    }
  }

  lemma EmptyPlanSelectsNothing(d: Disk, clauses: seq<Clause>)
    ensures OrderBySequence(Where(Scan(d, []), clauses)) == []
  {
  }

  method EnginePage(d: Disk, planned: seq<SegmentRow>, filter: FrameFilter, after: Option<nat>, limit: nat)
    returns (page: FrameQueryPage)
    requires limit > 0 && planned == PlanSegments(d.segments, filter, after)
    ensures WrittenSession(d) ==> IsPage(page, Selected(Committed(d), filter, after), limit)
  {
    var clauses := FramePredicates(filter);
    if after.Some? {
      clauses := Joined(clauses, SequenceAfter(after.value));
    }
    page := if planned == [] then FrameQueryPage([], false, None) else PageFrom(RunStatement(d, planned, clauses, limit + 1), limit);
    if WrittenSession(d) {
      StatementSelectsFromTheSession(d, clauses, filter, after);
      PageFromSelection(Selected(Committed(d), filter, after), limit);
      EmptyPlanSelectsNothing(d, clauses);
    }
  }
}
