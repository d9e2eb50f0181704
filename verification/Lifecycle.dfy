/** Task statuses, the transitions the protocol allows, and the two independent policies read
    off a status: execution slots and conflict leases (tools/agent/lifecycle.py). */
module Lifecycle {

  datatype TaskStatus = Planned | Ready | InProgress | HandoffReady | Blocked | Integrating | Done | Failed | Cancelled

  /** ALLOWED_TRANSITIONS. */
  predicate CanTransition(source: TaskStatus, destination: TaskStatus) {
    match source
    case Planned => destination.Ready? || destination.Blocked? || destination.Cancelled?
    case Ready => destination.InProgress? || destination.Blocked? || destination.Cancelled?
    case InProgress => destination.HandoffReady? || destination.Blocked? || destination.Failed? || destination.Cancelled?
    case HandoffReady => destination.Integrating? || destination.Blocked? || destination.Failed?
    case Blocked => destination.Ready? || destination.Failed? || destination.Cancelled?
    case Integrating => destination.Done? || destination.Blocked? || destination.Failed?
    case Done => false
    case Failed => false
    case Cancelled => false
  }

  /** EXECUTION_SLOT_STATUSES. */
  predicate OccupiesSlot(s: TaskStatus) {
    s.InProgress?
  }

  /** CONFLICT_LEASE_STATUSES. */
  predicate HoldsLease(s: TaskStatus) {
    s.Planned? || s.Ready? || s.InProgress? || s.HandoffReady? || s.Blocked? || s.Integrating?
  }

  /** CONFLICT_REPLAN_STATUSES. */
  predicate RequiresReplan(s: TaskStatus) {
    s.Failed? || s.Cancelled?
  }

  /** A task that has not started: its readiness is derived, not trusted. */
  predicate NotStarted(s: TaskStatus) {
    s.Planned? || s.Ready? || s.Blocked?
  }

  /** A task whose implementation has been dispatched and not abandoned. */
  predicate Underway(s: TaskStatus) {
    s.InProgress? || s.HandoffReady? || s.Integrating? || s.Done?
  }

  /** Each status leads on to the next stage, back to waiting, or out: a stage is skipped nowhere,
      only what waits becomes READY, what has landed or was given up stays, an implementation that
      has been handed off is not cancelled, and only a started or a blocked task can fail. */
  lemma TransitionsExactly(s: TaskStatus, d: TaskStatus)
    ensures CanTransition(s, d) <==>
              && !s.Done? && !s.Failed? && !s.Cancelled?
              && match d
                 case Planned => false
                 case Ready => s.Planned? || s.Blocked?
                 case InProgress => s.Ready?
                 case HandoffReady => s.InProgress?
                 case Integrating => s.HandoffReady?
                 case Done => s.Integrating?
                 case Blocked => !s.Blocked?
                 case Failed => !s.Planned? && !s.Ready?
                 case Cancelled => !s.HandoffReady? && !s.Integrating?
  {
  }

  // ----- what the policies mean ---------------------------------------------

  /** Consecutive statuses joined by allowed transitions. */
  ghost predicate Path(p: seq<TaskStatus>) {
    p != [] && (|p| > 1 ==> CanTransition(p[0], p[1]) && Path(p[1..]))
  }

  ghost predicate MayLand(s: TaskStatus) {
    exists p :: Path(p) && p[0] == s && p[|p| - 1] == Done
  }

  /** A path can start one transition earlier. */
  lemma OneTransitionEarlier(s: TaskStatus, t: TaskStatus)
    requires CanTransition(s, t) && MayLand(t)
    ensures MayLand(s)
  {
    var p :| Path(p) && p[0] == t && p[|p| - 1] == Done;
    var q := [s] + p;
    assert q[1..] == p;
    assert Path(q) && q[0] == s && q[|q| - 1] == Done;
  }

  lemma UnfinishedTasksMayLand()
    ensures MayLand(Planned) && MayLand(Ready) && MayLand(InProgress) && MayLand(HandoffReady) && MayLand(Blocked)
    ensures MayLand(Integrating) && MayLand(Done)
  {
    assert Path([Done]) && [Done][0] == Done;
    OneTransitionEarlier(Integrating, Done);
    OneTransitionEarlier(HandoffReady, Integrating);
    OneTransitionEarlier(InProgress, HandoffReady);
    OneTransitionEarlier(Ready, InProgress);
    OneTransitionEarlier(Planned, Ready);
    OneTransitionEarlier(Blocked, Ready);
  }

  ghost predicate MayMove(s: TaskStatus) {
    exists t :: CanTransition(s, t)
  }

  /** A lease is held exactly by a task that has not landed and still may; an owner is replanned
      exactly when it can never land. */
  lemma PoliciesFollowTheTransitions(s: TaskStatus)
    ensures HoldsLease(s) <==> !s.Done? && MayLand(s)
    ensures RequiresReplan(s) <==> !MayLand(s)
  {
    UnfinishedTasksMayLand();
    forall p | Path(p) && p[0] == s && p[|p| - 1] == Done ensures s.Done? || MayMove(s) {}
  }

  /** Nothing lands without having been started, handed off and integrated. */
  lemma {:induction false} LandingPassesEveryStage(p: seq<TaskStatus>)
    requires Path(p) && p[|p| - 1] == Done
    ensures p[0] == Done || Integrating in p
    ensures p[0] == Done || p[0] == Integrating || HandoffReady in p
    ensures NotStarted(p[0]) ==> Ready in p && InProgress in p
  {
    if |p| > 1 {
      LandingPassesEveryStage(p[1..]);
      StageBefore(p);
    }
  }

  lemma StageBefore(p: seq<TaskStatus>)
    requires |p| > 1 && CanTransition(p[0], p[1])
    ensures p[1].Done? ==> p[0].Integrating?
    ensures p[1].Integrating? ==> p[0].HandoffReady?
    ensures p[1].InProgress? ==> p[0].Ready?
    ensures forall s :: s in p[1..] ==> s in p
    ensures NotStarted(p[0]) ==> (p[0].Ready? && p[1].InProgress?) || NotStarted(p[1]) || p[1].Failed? || p[1].Cancelled?
  {
  }
}
