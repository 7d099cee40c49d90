/**
 The Run/Close protocol of go/session.go as a state machine: any number of concurrent calls of
 Run, PartialRun.Run, NewPartialRun (one protocol, here Run) and Close on one session, each step
 an atomic access to the mutex, the WaitGroup, the field c, or the C library.
 */
module GoSession {
  import opened Basics

  datatype Pc =
    // Run
    | RunIdle        // before mu.Lock
    | RunChecking    // holds mu, about to test c
    | RunAdding      // holds mu, found c open, about to wg.Add(1)
    | RunAdded       // holds mu, counted
    | RunCounted     // counted, about to read c and enter the C library
    | RunUsing       // counted, inside the C library
    | RunLeaving     // counted, about to wg.Done
    | RunDone
    | RunRefusing    // holds mu, found c nil
    | RunRefused
    // Close
    | CloseIdle      // before mu.Lock
    | CloseWaiting   // holds mu, in wg.Wait
    | CloseWaited    // holds mu, about to test c and to call TF_CloseSession
    | CloseDeleting  // holds mu, about to call TF_DeleteSession
    | CloseClearing  // holds mu, about to set c to nil
    | CloseLeaving(success: bool)  // holds mu, about to unlock and return
    | CloseDone(success: bool)     // `success`: the error returned is nil

  /** `open`: c is not nil. `alive`: TF_DeleteSession has not been called. */
  datatype State = State(open: bool, alive: bool, deletions: nat, misused: bool,
                         wg: int, mu: Lock, calls: seq<Pc>)
  datatype Lock = Free | HeldBy(call: nat)

  predicate Holds(pc: Pc) {
    || pc.RunChecking? || pc.RunAdding? || pc.RunAdded? || pc.RunRefusing?
    || pc.CloseWaiting? || pc.CloseWaited? || pc.CloseDeleting? || pc.CloseClearing? || pc.CloseLeaving?
  }

  /** Between wg.Add and wg.Done. */
  predicate InFlight(pc: Pc) {
    pc.RunAdded? || pc.RunCounted? || pc.RunUsing? || pc.RunLeaving?
  }

  predicate Finished(pc: Pc) {
    pc.RunDone? || pc.RunRefused? || pc.CloseDone?
  }

  /** Finished calls, a taken mutex, and wg.Wait with calls in flight cannot go on. */
  predicate Blocked(s: State, pc: Pc) {
    || Finished(pc)
    || ((pc.RunIdle? || pc.CloseIdle?) && !s.mu.Free?)
    || (pc.CloseWaiting? && s.wg != 0)
  }

  /**
   Where a call goes next, given whether c is open and the status TF_CloseSession returns.
   TF_DeleteSession always reports success.
   */
  function NextPc(pc: Pc, open: bool, ok: bool): Pc {
    match pc
    case RunIdle => RunChecking
    case RunChecking => if open then RunAdding else RunRefusing
    case RunAdding => RunAdded
    case RunAdded => RunCounted
    case RunCounted => RunUsing
    case RunUsing => RunLeaving
    case RunLeaving => RunDone
    case RunRefusing => RunRefused
    case CloseIdle => CloseWaiting
    case CloseWaiting => CloseWaited
    case CloseWaited => if !open then CloseLeaving(true) else if ok then CloseDeleting else CloseLeaving(false)
    case CloseDeleting => CloseClearing
    case CloseClearing => CloseLeaving(true)
    case CloseLeaving(success) => CloseDone(success)
    case RunDone => RunDone
    case RunRefused => RunRefused
    case CloseDone(success) => CloseDone(success)
  }

  /**
   What a step of call i does to the shared state. `misused` records an access to the C session
   after its deletion, or through a nil c.
   */
  function Effect(s: State, i: nat, pc: Pc): State {
    match pc
    case RunIdle => s.(mu := HeldBy(i))
    case RunAdding => s.(wg := s.wg + 1)
    case RunAdded => s.(mu := Free)
    case RunCounted => s.(misused := s.misused || !s.open || !s.alive)
    case RunUsing => s.(misused := s.misused || !s.alive)
    case RunLeaving => s.(wg := s.wg - 1)
    case RunRefusing => s.(mu := Free)
    case CloseIdle => s.(mu := HeldBy(i))
    case CloseWaited => s.(misused := s.misused || (s.open && !s.alive))
    case CloseDeleting => s.(alive := false, deletions := s.deletions + 1, misused := s.misused || !s.alive)
    case CloseClearing => s.(open := false)
    case CloseLeaving(_) => s.(mu := Free)
    case _ => s
  }

  /** The next step of call i, None when it is blocked or finished. */
  function Step(s: State, i: nat, ok: bool): Option<State>
    requires i < |s.calls|
  {
    var pc := s.calls[i];
    if Blocked(s, pc) then None
    else Some(Effect(s, i, pc).(calls := s.calls[i := NextPc(pc, s.open, ok)]))
  }

  /** Inside the C library, or entering it: the C session must not have been deleted. */
  predicate Touches(pc: Pc) {
    pc.RunCounted? || pc.RunUsing? || pc.CloseDeleting?
  }

  /** Touching a deleted C session is recorded, and the record stays. */
  lemma MisuseIsRecorded(s: State, i: nat, ok: bool, t: State)
    requires i < |s.calls| && Step(s, i, ok) == Some(t)
    ensures Touches(s.calls[i]) && !s.alive ==> t.misused
    ensures s.calls[i].CloseWaited? && s.open && !s.alive ==> t.misused
    ensures s.calls[i].RunCounted? && !s.open ==> t.misused
    ensures s.misused ==> t.misused
  {
  }

  ghost predicate Init(s: State) {
    && s.open && s.alive && s.deletions == 0 && !s.misused && s.wg == 0 && s.mu == Free
    && forall i | 0 <= i < |s.calls| :: s.calls[i].RunIdle? || s.calls[i].CloseIdle?
  }

  ghost predicate StepsTo(s: State, i: nat, ok: bool, t: State) {
    i < |s.calls| && Step(s, i, ok) == Some(t)
  }

  ghost predicate Next(s: State, t: State) {
    exists i: nat, ok :: StepsTo(s, i, ok, t)
  }

  /** A finite execution: any interleaving of the calls, from a fresh session. */
  ghost predicate IsRun(run: seq<State>) {
    && |run| > 0 && Init(run[0])
    && forall k | 0 <= k < |run| - 1 :: Next(run[k], run[k + 1])
  }

  // ---- Counting the calls in flight ---------------------------------------------------------------

  function CountInFlight(calls: seq<Pc>): nat {
    if calls == [] then 0
    else CountInFlight(calls[..|calls| - 1]) + if InFlight(calls[|calls| - 1]) then 1 else 0
  }

  lemma {:induction false} CountUpdate(calls: seq<Pc>, i: nat, pc: Pc)
    requires i < |calls|
    ensures CountInFlight(calls[i := pc])
            == CountInFlight(calls) - (if InFlight(calls[i]) then 1 else 0) + (if InFlight(pc) then 1 else 0)
  {
    var n := |calls| - 1;
    if i < n {
      CountUpdate(calls[..n], i, pc);
      assert calls[i := pc][..n] == calls[..n][i := pc];
    } else {
      assert calls[i := pc][..n] == calls[..n];
    }
  }

  lemma {:induction false} CountZero(calls: seq<Pc>)
    ensures CountInFlight(calls) == 0 <==> forall i | 0 <= i < |calls| :: !InFlight(calls[i])
  {
    if calls != [] {
      var n := |calls| - 1;
      assert forall i | 0 <= i < n :: calls[..n][i] == calls[i];
      CountZero(calls[..n]);
    }
  }

  // ---- The invariant -------------------------------------------------------------------------------

  /** What one call's program counter says about the shared state. */
  ghost predicate CallOk(s: State, i: nat)
    requires i < |s.calls|
  {
    var pc := s.calls[i];
    && (Holds(pc) <==> s.mu == HeldBy(i))
    && (InFlight(pc) || pc.RunAdding? ==> s.open && s.alive)
    && (pc.CloseWaited? || pc.CloseDeleting? || pc.CloseClearing? ==> s.wg == 0)
    && (pc.CloseDeleting? ==> s.open && s.alive)
    && (pc.CloseClearing? ==> s.open && !s.alive)
    && ((pc.CloseLeaving? || pc.CloseDone?) && pc.success ==> !s.open)
    && (pc.RunRefusing? || pc.RunRefused? ==> !s.open)
  }

  ghost predicate Inv(s: State) {
    && s.wg == CountInFlight(s.calls)
    && (s.mu.HeldBy? ==> s.mu.call < |s.calls|)
    && !s.misused
    && s.deletions == (if s.alive then 0 else 1)
    && (s.open && !s.alive ==> s.mu.HeldBy? && s.calls[s.mu.call].CloseClearing?)
    && (s.alive ==> s.open)
    && forall i | 0 <= i < |s.calls| :: CallOk(s, i)
  }

  lemma InitInv(s: State)
    requires Init(s)
    ensures Inv(s)
  {
    CountZero(s.calls);
  }

  lemma StepKeepsCall(s: State, i: nat, ok: bool, t: State, j: nat)
    requires Inv(s) && StepsTo(s, i, ok, t) && j < |t.calls|
    ensures CallOk(t, j)
  {
    CountUpdate(s.calls, i, t.calls[i]);
    CountZero(s.calls);
    assert CallOk(s, i) && CallOk(s, j);
  }

  lemma StepKeepsInv(s: State, i: nat, ok: bool, t: State)
    requires Inv(s) && StepsTo(s, i, ok, t)
    ensures Inv(t)
  {
    CountUpdate(s.calls, i, t.calls[i]);
    assert CallOk(s, i);
    forall j | 0 <= j < |t.calls| ensures CallOk(t, j) {
      StepKeepsCall(s, i, ok, t, j);
    }
  }

  lemma {:induction false} RunInv(run: seq<State>, k: nat)
    requires IsRun(run) && k < |run|
    ensures Inv(run[k]) && |run[k].calls| == |run[0].calls|
  {
    if k == 0 {
      InitInv(run[0]);
    } else {
      RunInv(run, k - 1);
      assert Next(run[k - 1], run[k]);
      var i: nat, ok :| StepsTo(run[k - 1], i, ok, run[k]);
      StepKeepsInv(run[k - 1], i, ok, run[k]);
    }
  }

  /**
   Safety over every interleaving: the C session is never used after deletion and deleted at most
   once; the WaitGroup counts the calls in flight; while Close is past its wait no call is in
   flight; and no wg.Add is about to happen while a Close waits, as sync.WaitGroup demands.
   */
  lemma SessionSafety(run: seq<State>, k: nat, i: nat, j: nat)
    requires IsRun(run) && k < |run| && i < |run[k].calls| && j < |run[k].calls|
    ensures !run[k].misused && run[k].deletions <= 1
    ensures InFlight(run[k].calls[i]) || run[k].calls[i].CloseDeleting? ==> run[k].open && run[k].alive
    ensures run[k].wg == CountInFlight(run[k].calls)
    ensures run[k].calls[i].CloseWaited? || run[k].calls[i].CloseDeleting? || run[k].calls[i].CloseClearing?
            ==> !InFlight(run[k].calls[j])
    ensures run[k].calls[i].RunAdding? ==> !run[k].calls[j].CloseWaiting?
    ensures Holds(run[k].calls[i]) && Holds(run[k].calls[j]) ==> i == j
  {
    RunInv(run, k);
    CountZero(run[k].calls);
    assert CallOk(run[k], i) && CallOk(run[k], j);
  }

  // ---- After a successful Close -----------------------------------------------------------------------

  /** A call of Run that has not got past the test of c. */
  predicate NotAdmitted(pc: Pc) {
    pc.RunIdle? || pc.RunChecking? || pc.RunRefusing? || pc.RunRefused?
  }

  /** Once c is nil it stays nil, and a Run that had not yet been admitted is refused for ever. */
  lemma {:induction false} NilForEver(run: seq<State>, j: nat, k: nat, i: nat)
    requires IsRun(run) && j <= k < |run| && !run[j].open
    requires i < |run[0].calls|
    ensures |run[j].calls| == |run[k].calls| == |run[0].calls|
    ensures !run[k].open && !run[k].alive
    ensures NotAdmitted(run[j].calls[i]) ==> NotAdmitted(run[k].calls[i])
    decreases k
  {
    RunInv(run, j);
    RunInv(run, k);
    if j < k {
      NilForEver(run, j, k - 1, i);
      assert Next(run[k - 1], run[k]);
    }
  }

  /** A Close that has returned success left the session deleted, once, and c nil. */
  lemma ClosedIsNil(run: seq<State>, k: nat, c: nat)
    requires IsRun(run) && k < |run| && c < |run[k].calls| && run[k].calls[c] == CloseDone(true)
    ensures !run[k].open && !run[k].alive && run[k].deletions == 1
  {
    RunInv(run, k);
    assert CallOk(run[k], c);
  }

  /** Every Run that starts after a Close has returned success is refused when it returns. */
  lemma RefusedAfterClose(run: seq<State>, j: nat, k: nat, c: nat, i: nat)
    requires IsRun(run) && j <= k < |run| && c < |run[j].calls| && i < |run[j].calls|
    requires run[j].calls[c] == CloseDone(true) && run[j].calls[i].RunIdle?
    ensures |run[k].calls| == |run[j].calls|
    ensures NotAdmitted(run[k].calls[i]) && (Finished(run[k].calls[i]) ==> run[k].calls[i] == RunRefused)
  {
    ClosedIsNil(run, j, c);
    RunInv(run, j);
    NilForEver(run, j, k, i);
  }

  // ---- Why a call was refused, failed or succeeded ---------------------------------------------------

  /** A step: which call takes it, and the status TF_CloseSession would return. */
  datatype Move = Move(call: nat, ok: bool)

  ghost predicate IsTrace(run: seq<State>, moves: seq<Move>) {
    && |run| == |moves| + 1 && Init(run[0])
    && forall k | 0 <= k < |moves| :: StepsTo(run[k], moves[k].call, moves[k].ok, run[k + 1])
  }

  /** A Run is refused only when the session has been closed, by a Close that deleted it. */
  lemma RefusedOnlyWhenClosed(run: seq<State>, k: nat, i: nat)
    requires IsRun(run) && k < |run| && i < |run[k].calls| && run[k].calls[i].RunRefused?
    ensures !run[k].open && run[k].deletions == 1
  {
    RunInv(run, k);
    assert CallOk(run[k], i);
  }

  /** A Run that returned normally was inside the C library at a step at which the session was open and alive. */
  lemma {:induction false} DoneWasUsing(run: seq<State>, k: nat, i: nat) returns (m: nat)
    requires IsRun(run) && k < |run| && i < |run[k].calls|
    requires run[k].calls[i].RunUsing? || run[k].calls[i].RunLeaving? || run[k].calls[i].RunDone?
    ensures m <= k && i < |run[m].calls| && run[m].calls[i].RunUsing? && run[m].open && run[m].alive
  {
    RunInv(run, k);
    if run[k].calls[i].RunUsing? {
      assert CallOk(run[k], i);
      m := k;
    } else {
      assert Next(run[k - 1], run[k - 1 + 1]);
      m := DoneWasUsing(run, k - 1, i);
    }
  }

  predicate IsClose(pc: Pc) {
    || pc.CloseIdle? || pc.CloseWaiting? || pc.CloseWaited? || pc.CloseDeleting? || pc.CloseClearing?
    || pc.CloseLeaving? || pc.CloseDone?
  }

  ghost predicate NoCloses(s: State) {
    forall i | 0 <= i < |s.calls| :: !IsClose(s.calls[i])
  }

  /** Without a call of Close the session stays open. */
  lemma {:induction false} OpenWithoutClose(run: seq<State>, k: nat)
    requires IsRun(run) && k < |run| && NoCloses(run[0])
    ensures NoCloses(run[k]) && run[k].open && run[k].alive
  {
    if k > 0 {
      OpenWithoutClose(run, k - 1);
      assert Next(run[k - 1], run[k - 1 + 1]);
    }
  }

  /** An execution of Run calls alone that cannot go on has every call done, none refused. */
  lemma RunsSucceedWithoutClose(run: seq<State>, i: nat)
    requires IsRun(run) && i < |run[|run| - 1].calls| && NoCloses(run[0]) && Stuck(run[|run| - 1])
    ensures run[|run| - 1].calls[i] == RunDone
  {
    OpenWithoutClose(run, |run| - 1);
    MaximalRunsReturn(run, i);
    RunInv(run, |run| - 1);
    assert CallOk(run[|run| - 1], i);
  }

  /** A Close returns an error only if TF_CloseSession did, on the open session. */
  lemma {:induction false} CloseFailedBecause(run: seq<State>, moves: seq<Move>, k: nat, i: nat) returns (m: nat)
    requires IsTrace(run, moves) && k < |run| && i < |run[k].calls|
    requires run[k].calls[i] == CloseLeaving(false) || run[k].calls[i] == CloseDone(false)
    ensures m < k && moves[m] == Move(i, false) && i < |run[m].calls| && run[m].calls[i].CloseWaited? && run[m].open
  {
    assert StepsTo(run[k - 1], moves[k - 1].call, moves[k - 1].ok, run[k - 1 + 1]);
    if run[k - 1].calls[i] == CloseLeaving(false) || run[k - 1].calls[i] == CloseDone(false) {
      m := CloseFailedBecause(run, moves, k - 1, i);
    } else {
      m := k - 1;
    }
  }

  // ---- No deadlock, and every call returns ------------------------------------------------------------------

  ghost predicate Enabled(s: State, i: nat) {
    i < |s.calls| && Step(s, i, true).Some?
  }

  ghost predicate Stuck(s: State) {
    forall i: nat :: !Enabled(s, i)
  }

  /** No reachable state is stuck: as long as a call has not returned, some call can take a step. */
  lemma NoDeadlock(run: seq<State>, k: nat, i: nat)
    requires IsRun(run) && k < |run|
    requires i < |run[k].calls| && !Finished(run[k].calls[i])
    ensures exists j: nat :: Enabled(run[k], j)
  {
    var s := run[k];
    RunInv(run, k);
    assert CallOk(s, i);
    if s.mu.Free? {
      assert Enabled(s, i);
    } else {
      var holder := s.mu.call;
      assert CallOk(s, holder);
      if s.calls[holder].CloseWaiting? && s.wg != 0 {
        CountZero(s.calls);
        var j :| 0 <= j < |s.calls| && InFlight(s.calls[j]);
        assert CallOk(s, j);
        assert Enabled(s, j);
      } else {
        assert Enabled(s, holder);
      }
    }
  }

  /** How many more steps a call takes at most. */
  function Remaining(pc: Pc): nat {
    match pc
    case RunIdle => 7
    case RunChecking => 6
    case RunAdding => 5
    case RunAdded => 4
    case RunCounted => 3
    case RunUsing => 2
    case RunLeaving => 1
    case RunDone => 0
    case RunRefusing => 1
    case RunRefused => 0
    case CloseIdle => 6
    case CloseWaiting => 5
    case CloseWaited => 4
    case CloseDeleting => 3
    case CloseClearing => 2
    case CloseLeaving(_) => 1
    case CloseDone(_) => 0
  }

  function TotalRemaining(calls: seq<Pc>): nat {
    if calls == [] then 0 else TotalRemaining(calls[..|calls| - 1]) + Remaining(calls[|calls| - 1])
  }

  lemma {:induction false} RemainingUpdate(calls: seq<Pc>, i: nat, pc: Pc)
    requires i < |calls|
    ensures TotalRemaining(calls[i := pc]) == TotalRemaining(calls) - Remaining(calls[i]) + Remaining(pc)
  {
    var n := |calls| - 1;
    if i < n {
      RemainingUpdate(calls[..n], i, pc);
      assert calls[i := pc][..n] == calls[..n][i := pc];
    } else {
      assert calls[i := pc][..n] == calls[..n];
    }
  }

  lemma {:induction false} RemainingBound(calls: seq<Pc>)
    ensures TotalRemaining(calls) <= 7 * |calls|
    ensures TotalRemaining(calls) == 0 ==> forall i | 0 <= i < |calls| :: Finished(calls[i])
  {
    if calls != [] {
      RemainingBound(calls[..|calls| - 1]);
    }
  }

  lemma StepAdvances(s: State, i: nat, ok: bool, t: State)
    requires StepsTo(s, i, ok, t)
    ensures i < |t.calls| && t.calls == s.calls[i := t.calls[i]]
    ensures Remaining(t.calls[i]) < Remaining(s.calls[i])
  {
  }

  lemma StepConsumes(s: State, t: State)
    requires Next(s, t)
    ensures TotalRemaining(t.calls) < TotalRemaining(s.calls)
  {
    var i: nat, ok :| StepsTo(s, i, ok, t);
    StepAdvances(s, i, ok, t);
    RemainingUpdate(s.calls, i, t.calls[i]);
  }

  /** Every execution of n calls ends within 7n steps; with NoDeadlock, every call returns. */
  lemma {:induction false} RunsTerminate(run: seq<State>, k: nat)
    requires IsRun(run) && k < |run|
    ensures TotalRemaining(run[k].calls) + k <= 7 * |run[0].calls|
  {
    if k == 0 {
      RemainingBound(run[0].calls);
    } else {
      RunsTerminate(run, k - 1);
      assert Next(run[k - 1], run[k]);
      StepConsumes(run[k - 1], run[k]);
    }
  }

  /** An execution that cannot be continued has every call returned. */
  lemma MaximalRunsReturn(run: seq<State>, i: nat)
    requires IsRun(run) && i < |run[|run| - 1].calls|
    requires Stuck(run[|run| - 1])
    ensures Finished(run[|run| - 1].calls[i])
  {
    if !Finished(run[|run| - 1].calls[i]) {
      NoDeadlock(run, |run| - 1, i);
    }
  }
}
