/**
 Shared ownership of a TF_Graph: sessions created and deleted from any number of threads, and one
 TF_DeleteGraph. Each stretch of code under the graph's mutex is one step; the decision to free the
 graph is taken there, the freeing itself happens after the mutex is released.
 */
module GraphLifetime {

  datatype Session =
    | Creating     // TF_NewSession before it has counted itself
    | Using        // counted; the session refers to the graph
    | Freeing      // TF_DeleteSession uncounted it and found that it must free the graph
    | Gone

  datatype Owner = Holding | MustFree | Done  // the caller of TF_DeleteGraph

  datatype State = State(sessions: seq<Session>, numSessions: int, deleteRequested: bool, owner: Owner, frees: nat)

  datatype Event =
    | StartSession
    | CountSession(i: nat)    // num_sessions += 1
    | DeleteSession(i: nat)   // num_sessions -= 1, decide whether to free
    | SessionFrees(i: nat)
    | DeleteGraph             // delete_requested = true, decide whether to free
    | OwnerFrees

  /** How many sessions are in a given phase. */
  function Count(sessions: seq<Session>, phase: Session): nat {
    if sessions == [] then 0
    else Count(sessions[..|sessions| - 1], phase) + if sessions[|sessions| - 1] == phase then 1 else 0
  }

  /**
   When an event can happen. The guard on CountSession is what the API asks of its callers, that
   the graph passed to TF_NewSession has not been deleted: either deletion has not been requested
   or another session still holds the graph.
   */
  ghost predicate Possible(s: State, e: Event) {
    match e
    case StartSession => true
    case CountSession(i) =>
      i < |s.sessions| && s.sessions[i].Creating? && (!s.deleteRequested || s.numSessions > 0)
    case DeleteSession(i) => i < |s.sessions| && s.sessions[i].Using?
    case SessionFrees(i) => i < |s.sessions| && s.sessions[i].Freeing?
    case DeleteGraph => s.owner.Holding?
    case OwnerFrees => s.owner.MustFree?
  }

  ghost function Apply(s: State, e: Event): State
    requires Possible(s, e)
  {
    match e
    case StartSession => s.(sessions := s.sessions + [Creating])
    case CountSession(i) => s.(sessions := s.sessions[i := Using], numSessions := s.numSessions + 1)
    case DeleteSession(i) =>
      var left := s.numSessions - 1;
      var del := s.deleteRequested && left == 0;
      s.(sessions := s.sessions[i := if del then Freeing else Gone], numSessions := left)
    case SessionFrees(i) => s.(sessions := s.sessions[i := Gone], frees := s.frees + 1)
    case DeleteGraph => s.(deleteRequested := true, owner := if s.numSessions == 0 then MustFree else Done)
    case OwnerFrees => s.(owner := Done, frees := s.frees + 1)
  }

  ghost predicate StepsTo(s: State, e: Event, t: State) {
    Possible(s, e) && Apply(s, e) == t
  }

  ghost predicate IsRun(run: seq<State>, events: seq<Event>) {
    && |run| == |events| + 1
    && run[0] == State([], 0, false, Holding, 0)
    && forall k | 0 <= k < |events| :: StepsTo(run[k], events[k], run[k + 1])
  }

  lemma {:induction false} CountUpdate(sessions: seq<Session>, i: nat, x: Session, phase: Session)
    requires i < |sessions|
    ensures Count(sessions[i := x], phase)
            == Count(sessions, phase) - (if sessions[i] == phase then 1 else 0) + (if x == phase then 1 else 0)
  {
    var n := |sessions| - 1;
    if i < n {
      CountUpdate(sessions[..n], i, x, phase);
      assert sessions[i := x][..n] == sessions[..n][i := x];
    } else {
      assert sessions[i := x][..n] == sessions[..n];
    }
  }

  lemma {:induction false} CountZero(sessions: seq<Session>, phase: Session)
    ensures Count(sessions, phase) == 0 <==> phase !in sessions
  {
    if sessions != [] {
      var n := |sessions| - 1;
      assert sessions == sessions[..n] + [sessions[n]];
      CountZero(sessions[..n], phase);
    }
  }

  /** The graph's fate is sealed: deletion requested and no session left. */
  predicate Doomed(s: State) {
    s.deleteRequested && s.numSessions == 0
  }

  /**
   num_sessions counts the sessions that refer to the graph, and once the graph is doomed exactly
   one thread has freed it or is about to.
   */
  ghost predicate Inv(s: State) {
    && s.numSessions == Count(s.sessions, Using)
    && (s.owner.Holding? <==> !s.deleteRequested)
    && s.frees + Count(s.sessions, Freeing) + (if s.owner.MustFree? then 1 else 0) == if Doomed(s) then 1 else 0
  }

  lemma StepKeepsInv(s: State, e: Event, t: State)
    requires Inv(s) && StepsTo(s, e, t)
    ensures Inv(t)
  {
    match e
    case StartSession => assert t.sessions[..|s.sessions|] == s.sessions;
    case CountSession(i) => StepCounts(s.sessions, i, Using);
    case DeleteSession(i) =>
      StepCounts(s.sessions, i, t.sessions[i]);
      CountZero(s.sessions, Using);
    case SessionFrees(i) => StepCounts(s.sessions, i, Gone);
    case DeleteGraph =>
    case OwnerFrees =>
  }

  lemma StepCounts(sessions: seq<Session>, i: nat, x: Session)
    requires i < |sessions|
    ensures Count(sessions[i := x], Using)
            == Count(sessions, Using) - (if sessions[i].Using? then 1 else 0) + (if x.Using? then 1 else 0)
    ensures Count(sessions[i := x], Freeing)
            == Count(sessions, Freeing) - (if sessions[i].Freeing? then 1 else 0) + (if x.Freeing? then 1 else 0)
  {
    CountUpdate(sessions, i, x, Using);
    CountUpdate(sessions, i, x, Freeing);
  }

  lemma {:induction false} RunInv(run: seq<State>, events: seq<Event>, k: nat)
    requires IsRun(run, events) && k < |run|
    ensures Inv(run[k])
  {
    if k > 0 {
      RunInv(run, events, k - 1);
      assert StepsTo(run[k - 1], events[k - 1], run[k]);
      StepKeepsInv(run[k - 1], events[k - 1], run[k]);
    }
  }

  /**
   Over every interleaving the graph is freed at most once, only when deletion was requested and the
   last session is gone, never while a session refers to it.
   */
  lemma FreedAtMostOnce(run: seq<State>, events: seq<Event>, k: nat, i: nat)
    requires IsRun(run, events) && k < |run|
    ensures run[k].frees <= 1
    ensures run[k].frees == 1 ==> run[k].deleteRequested
    ensures run[k].frees == 1 && i < |run[k].sessions| ==> !run[k].sessions[i].Using?
  {
    RunInv(run, events, k);
    CountZero(run[k].sessions, Using);
  }

  ghost predicate NothingPending(s: State) {
    s.owner.Done? && forall i | 0 <= i < |s.sessions| :: s.sessions[i].Gone?
  }

  /** Nothing leaks: when TF_DeleteGraph and every session deletion have returned, the graph was freed, once. */
  lemma FreedInTheEnd(run: seq<State>, events: seq<Event>, k: nat)
    requires IsRun(run, events) && k < |run| && NothingPending(run[k])
    ensures run[k].frees == 1
  {
    RunInv(run, events, k);
    CountZero(run[k].sessions, Freeing);
    CountZero(run[k].sessions, Using);
  }

  /** A doomed graph stays doomed: no session can be counted any more, so the decision to free it stands. */
  lemma {:induction false} DoomedForEver(run: seq<State>, events: seq<Event>, j: nat, k: nat)
    requires IsRun(run, events) && j <= k < |run| && Doomed(run[j])
    ensures Doomed(run[k])
    decreases k
  {
    if j < k {
      DoomedForEver(run, events, j, k - 1);
      RunInv(run, events, k - 1);
      CountZero(run[k - 1].sessions, Using);
      assert StepsTo(run[k - 1], events[k - 1], run[k]);
    }
  }

  // ---- What the events of a run say about the state ----------------------------------------------------

  /** Session i was counted at step j and not deleted up to step k. */
  ghost predicate Counted(events: seq<Event>, j: nat, k: nat, i: nat)
    requires k <= |events|
  {
    j < k && events[j] == CountSession(i) && forall m | j < m < k :: events[m] != DeleteSession(i)
  }

  /** A session refers to the graph exactly from the step that counts it to the one that deletes it. */
  lemma {:induction false} UsingIff(run: seq<State>, events: seq<Event>, k: nat, i: nat)
    requires IsRun(run, events) && k < |run| && i < |run[k].sessions|
    ensures run[k].sessions[i].Using? <==> exists j: nat :: Counted(events, j, k, i)
  {
    if k > 0 {
      var p := k - 1;
      assert StepsTo(run[p], events[p], run[p + 1]);
      if i < |run[p].sessions| {
        UsingIff(run, events, p, i);
        if run[p].sessions[i].Using? {
          var j: nat :| Counted(events, j, p, i);
          assert events[p] != DeleteSession(i) ==> Counted(events, j, k, i);
        }
        if events[p] == CountSession(i) {
          assert Counted(events, p, k, i);
        }
        forall j: nat | Counted(events, j, k, i) ensures j == p || Counted(events, j, p, i) {
        }
      } else {
        forall j: nat | j < k ensures events[j] != CountSession(i) {
          SessionsGrow(run, events, j, p);
          assert StepsTo(run[j], events[j], run[j + 1]);
        }
      }
    }
  }

  lemma {:induction false} SessionsGrow(run: seq<State>, events: seq<Event>, j: nat, k: nat)
    requires IsRun(run, events) && j <= k < |run|
    ensures |run[j].sessions| <= |run[k].sessions|
    decreases k
  {
    if j < k {
      SessionsGrow(run, events, j, k - 1);
      assert StepsTo(run[k - 1], events[k - 1], run[k]);
    }
  }

  /** Deletion has been requested exactly when TF_DeleteGraph has been called. */
  lemma {:induction false} RequestedIff(run: seq<State>, events: seq<Event>, k: nat)
    requires IsRun(run, events) && k < |run|
    ensures run[k].deleteRequested <==> DeleteGraph in events[..k]
  {
    if k > 0 {
      RequestedIff(run, events, k - 1);
      assert StepsTo(run[k - 1], events[k - 1], run[k]);
      assert events[..k] == events[..k - 1] + [events[k - 1]];
    }
  }

  // ---- Nothing stands in the way ------------------------------------------------------------------------

  function Effort(session: Session): nat {
    match session
    case Creating => 3
    case Using => 2
    case Freeing => 1
    case Gone => 0
  }

  function Efforts(sessions: seq<Session>): nat {
    if sessions == [] then 0
    else Efforts(sessions[..|sessions| - 1]) + Effort(sessions[|sessions| - 1])
  }

  function Left(s: State): nat {
    Efforts(s.sessions) + if s.owner.Holding? then 2 else if s.owner.MustFree? then 1 else 0
  }

  lemma {:induction false} EffortsUpdate(sessions: seq<Session>, i: nat, x: Session)
    requires i < |sessions|
    ensures Efforts(sessions[i := x]) == Efforts(sessions) - Effort(sessions[i]) + Effort(x)
  {
    var n := |sessions| - 1;
    if i < n {
      EffortsUpdate(sessions[..n], i, x);
      assert sessions[i := x][..n] == sessions[..n][i := x];
    } else {
      assert sessions[i := x][..n] == sessions[..n];
    }
  }

  ghost predicate NoneCreating(s: State) {
    forall i | 0 <= i < |s.sessions| :: !s.sessions[i].Creating?
  }

  /** An event that brings the end nearer: TF_DeleteGraph, a session's deletion, or a decided freeing. */
  lemma NextEvent(s: State) returns (e: Event)
    requires NoneCreating(s) && !NothingPending(s)
    ensures Possible(s, e) && Left(Apply(s, e)) < Left(s) && NoneCreating(Apply(s, e))
  {
    if s.owner.Holding? {
      e := DeleteGraph;
    } else if s.owner.MustFree? {
      e := OwnerFrees;
    } else {
      var i: nat :| i < |s.sessions| && !s.sessions[i].Gone?;
      e := if s.sessions[i].Using? then DeleteSession(i) else SessionFrees(i);
      EffortsUpdate(s.sessions, i, Apply(s, e).sessions[i]);
    }
  }

  ghost predicate Leads(s: State, events: seq<Event>, t: State)
    decreases events
  {
    if events == [] then s == t else Possible(s, events[0]) && Leads(Apply(s, events[0]), events[1..], t)
  }

  /** From every reachable state, once no session is half made, all can be deleted, and the graph then is freed. */
  lemma {:induction false} CanBeFreed(s: State) returns (events: seq<Event>, t: State)
    requires Inv(s) && NoneCreating(s)
    ensures Leads(s, events, t) && NothingPending(t) && t.frees == 1
    decreases Left(s)
  {
    if NothingPending(s) {
      CountZero(s.sessions, Freeing);
      CountZero(s.sessions, Using);
      return [], s;
    }
    var e := NextEvent(s);
    StepKeepsInv(s, e, Apply(s, e));
    var rest;
    rest, t := CanBeFreed(Apply(s, e));
    events := [e] + rest;
    assert events[1..] == rest;
  }

  /**
   The guard is needed: were a session counted on a doomed graph, deleting it would free the graph
   a second time.
   */
  lemma UnguardedSessionFreesTwice()
    ensures var doomed := State([Creating], 0, true, Done, 1);
            var counted := doomed.(sessions := [Using], numSessions := 1);
            Inv(doomed) && !Possible(doomed, CountSession(0)) &&
            Possible(counted, DeleteSession(0)) &&
            Possible(Apply(counted, DeleteSession(0)), SessionFrees(0)) &&
            Apply(Apply(counted, DeleteSession(0)), SessionFrees(0)).frees == 2
  {
    var none: seq<Session> := [];
    assert [Creating][..0] == none;
  }
}
