/**
 Sending new graph nodes to sessions (ExtendSessionGraphHelper in c_api.cc) while other threads
 keep building the graph and running other sessions. Holding a mutex makes a stretch of code one
 step; the graph lock is dropped between collecting the new nodes and Session::Extend, so those
 are two steps.
 */
module SessionExtension {
  import opened Basics
  import CycleCheck

  /** The node with a given id: an op, the source or sink, or the hole of a removed node. */
  datatype Slot = OpNode(def: string, kind: CycleCheck.Kind) | Sentinel | Removed

  datatype Phase =
    | Idle
    | Sending(delta: seq<nat>, upTo: nat)  // graph lock dropped, Session::Extend not yet returned

  /** `received` lists the ids of the node definitions the session has accepted, in order. */
  datatype Session = Session(last: nat, received: seq<nat>, phase: Phase)

  datatype State = State(nodes: seq<Slot>, edges: seq<CycleCheck.Edge>, sessions: seq<Session>)

  datatype Event =
    | AddNodes(added: seq<Slot>, newEdges: seq<CycleCheck.Edge>)  // one critical section of graph construction
    | NewSession
    | LoadSession                     // created with the nodes the graph already has
    | Begin(session: nat)
    | Finish(session: nat, ok: bool)  // `ok`: what Session::Extend returns

  predicate IsOp(nodes: seq<Slot>, id: nat) {
    id < |nodes| && nodes[id].OpNode?
  }

  /** The live op nodes with ids in [from, to), in id order. */
  function Ops(nodes: seq<Slot>, from: nat, to: nat): seq<nat> {
    if to <= from then []
    else Ops(nodes, from, to - 1) + if IsOp(nodes, to - 1) then [to - 1] else []
  }

  /** The loop that fills the graph definition to send. */
  method CollectNew(nodes: seq<Slot>, last: nat, numNodes: nat) returns (delta: seq<nat>)
    requires last <= numNodes == |nodes|
    ensures delta == Ops(nodes, last, numNodes)
  {
    delta := [];
    for id := last to numNodes
      invariant delta == Ops(nodes, last, id)
    {
      if !nodes[id].Removed? && nodes[id].OpNode? {
        delta := delta + [id];
      }
    }
  }

  // ---- The protocol ----------------------------------------------------------------------------------

  function SlotOf(slot: Slot): CycleCheck.Slot {
    match slot
    case OpNode(_, kind) => CycleCheck.Live(kind)
    case Sentinel => CycleCheck.Live(CycleCheck.Other)
    case Removed => CycleCheck.Removed
  }

  /** The graph as ValidateNoCycles sees it. */
  function GraphOf(nodes: seq<Slot>, edges: seq<CycleCheck.Edge>): (g: CycleCheck.Graph)
    ensures |g.nodes| == |nodes| && g.edges == edges
    ensures forall id | 0 <= id < |nodes| ::
              g.nodes[id] == if nodes[id].Removed? then CycleCheck.Removed
                             else CycleCheck.Live(if nodes[id].OpNode? then nodes[id].kind else CycleCheck.Other)
  {
    CycleCheck.Graph(seq(|nodes|, id requires 0 <= id < |nodes| => SlotOf(nodes[id])), edges)
  }

  ghost predicate Joined(nodes: seq<Slot>, edges: seq<CycleCheck.Edge>) {
    CycleCheck.Valid(GraphOf(nodes, edges))
  }

  /** What ValidateNoCycles returns (CycleCheck.ValidateNoCycles). */
  ghost predicate Passes(nodes: seq<Slot>, edges: seq<CycleCheck.Edge>) {
    Joined(nodes, edges) && CycleCheck.Accepted(GraphOf(nodes, edges))
  }

  ghost predicate Possible(s: State, e: Event) {
    match e
    case AddNodes(added, newEdges) => Joined(s.nodes + added, s.edges + newEdges)
    case Begin(i) => i < |s.sessions| && s.sessions[i].phase.Idle?
    case Finish(i, _) => i < |s.sessions| && s.sessions[i].phase.Sending?
    case _ => true
  }

  function BeginSession(nodes: seq<Slot>, session: Session, valid: bool): Session {
    if session.last < |nodes| && valid
    then session.(phase := Sending(Ops(nodes, session.last, |nodes|), |nodes|))
    else session
  }

  function FinishSession(session: Session, ok: bool): Session
    requires session.phase.Sending?
  {
    if ok
    then Session(session.phase.upTo, session.received + session.phase.delta, Idle)
    else session.(phase := Idle)
  }

  ghost function Apply(s: State, e: Event): State
    requires Possible(s, e)
  {
    match e
    case AddNodes(added, newEdges) => s.(nodes := s.nodes + added, edges := s.edges + newEdges)
    case NewSession => s.(sessions := s.sessions + [Session(0, [], Idle)])
    case LoadSession => s.(sessions := s.sessions + [Session(|s.nodes|, Ops(s.nodes, 0, |s.nodes|), Idle)])
    case Begin(i) => s.(sessions := s.sessions[i := BeginSession(s.nodes, s.sessions[i], Passes(s.nodes, s.edges))])
    case Finish(i, ok) => s.(sessions := s.sessions[i := FinishSession(s.sessions[i], ok)])
  }

  ghost predicate StepsTo(s: State, e: Event, t: State) {
    Possible(s, e) && Apply(s, e) == t
  }

  /** Any interleaving, from any graph that has no sessions yet. */
  ghost predicate IsRun(run: seq<State>, events: seq<Event>) {
    && |run| == |events| + 1
    && run[0].sessions == [] && Joined(run[0].nodes, run[0].edges)
    && forall k | 0 <= k < |events| :: StepsTo(run[k], events[k], run[k + 1])
  }

  // ---- Op lists --------------------------------------------------------------------------------------

  lemma AscendingStep(s: seq<nat>, x: nat)
    requires Ascending(s) && forall y | y in s :: y < x
    ensures Ascending(s + [x])
  {
    assert forall i | 0 <= i < |s| :: s[i] in s;
  }

  /** Each live op in the range exactly once, in id order. */
  lemma {:induction false} OpsExact(nodes: seq<Slot>, from: nat, to: nat)
    ensures Ascending(Ops(nodes, from, to))
    ensures forall id: nat :: id in Ops(nodes, from, to) <==> from <= id < to && IsOp(nodes, id)
  {
    if from < to {
      OpsExact(nodes, from, to - 1);
      AscendingStep(Ops(nodes, from, to - 1), to - 1);
    }
  }

  lemma {:induction false} OpsSplit(nodes: seq<Slot>, from: nat, mid: nat, to: nat)
    requires from <= mid <= to
    ensures Ops(nodes, from, mid) + Ops(nodes, mid, to) == Ops(nodes, from, to)
  {
    if mid < to {
      OpsSplit(nodes, from, mid, to - 1);
    }
  }

  lemma {:induction false} OpsStable(nodes: seq<Slot>, added: seq<Slot>, from: nat, to: nat)
    requires to <= |nodes|
    ensures Ops(nodes + added, from, to) == Ops(nodes, from, to)
  {
    if from < to {
      OpsStable(nodes, added, from, to - 1);
    }
  }

  // ---- The invariant ---------------------------------------------------------------------------------

  ghost predicate SessionOk(nodes: seq<Slot>, s: Session) {
    && s.last <= |nodes|
    && s.received == Ops(nodes, 0, s.last)
    && (s.phase.Sending? ==> s.last <= s.phase.upTo <= |nodes| && s.phase.delta == Ops(nodes, s.last, s.phase.upTo))
  }

  ghost predicate Inv(s: State) {
    && Joined(s.nodes, s.edges)
    && forall i | 0 <= i < |s.sessions| :: SessionOk(s.nodes, s.sessions[i])
  }

  lemma StepKeepsInv(s: State, e: Event, t: State)
    requires Inv(s) && StepsTo(s, e, t)
    ensures Inv(t)
  {
    forall i | 0 <= i < |t.sessions| ensures SessionOk(t.nodes, t.sessions[i]) {
      assert i < |s.sessions| ==> SessionOk(s.nodes, s.sessions[i]);
      match e
      case AddNodes(added, _) =>
        OpsStable(s.nodes, added, 0, s.sessions[i].last);
        if s.sessions[i].phase.Sending? {
          OpsStable(s.nodes, added, s.sessions[i].last, s.sessions[i].phase.upTo);
        }
      case Finish(j, ok) =>
        if i == j {
          OpsSplit(s.nodes, 0, s.sessions[i].last, s.sessions[i].phase.upTo);
        }
      case _ =>
    }
  }

  lemma {:induction false} RunInv(run: seq<State>, events: seq<Event>, k: nat)
    requires IsRun(run, events) && k < |run|
    ensures Inv(run[k])
  {
    if k > 0 {
      RunInv(run, events, k - 1);
      assert StepsTo(run[k - 1], events[k - 1], run[k]);
      StepKeepsInv(run[k - 1], events[k - 1], run[k]);
    }
  }

  /**
   In every interleaving, each session has received exactly the live op nodes with an id below
   its last_num_graph_nodes, each once and in id order; what it has yet to receive is the rest.
   */
  lemma SessionsInStep(run: seq<State>, events: seq<Event>, k: nat, i: nat)
    requires IsRun(run, events) && k < |run| && i < |run[k].sessions|
    ensures var s := run[k].sessions[i];
            && Ascending(s.received)
            && (forall id: nat :: id in s.received <==> id < s.last && IsOp(run[k].nodes, id))
            && s.received + Ops(run[k].nodes, s.last, |run[k].nodes|) == Ops(run[k].nodes, 0, |run[k].nodes|)
  {
    RunInv(run, events, k);
    var s := run[k].sessions[i];
    assert SessionOk(run[k].nodes, s);
    OpsExact(run[k].nodes, 0, s.last);
    OpsSplit(run[k].nodes, 0, s.last, |run[k].nodes|);
  }

  // ---- What an extension delivers --------------------------------------------------------------------

  /** No step after `begin` up to `k` finishes session i. */
  ghost predicate StillSending(events: seq<Event>, begin: nat, k: nat, i: nat)
    requires k <= |events|
  {
    forall j | begin < j < k :: !(events[j].Finish? && events[j].session == i)
  }

  lemma {:induction false} SendsSnapshot(run: seq<State>, events: seq<Event>, begin: nat, k: nat, i: nat)
    requires IsRun(run, events) && begin < k <= |events| && events[begin] == Begin(i)
    requires i < |run[begin].sessions| && run[begin].sessions[i].last < |run[begin].nodes|
    requires StillSending(events, begin, k, i) && Passes(run[begin].nodes, run[begin].edges)
    ensures i < |run[k].sessions| && run[begin].nodes <= run[k].nodes
    ensures run[k].sessions[i] == BeginSession(run[begin].nodes, run[begin].sessions[i], true)
    decreases k
  {
    assert StepsTo(run[k - 1], events[k - 1], run[k]);
    if k - 1 > begin {
      SendsSnapshot(run, events, begin, k - 1, i);
    }
  }

  /**
   A successful extension delivers exactly the op nodes the graph had when the lock was held. Nodes
   added after the lock was dropped are not lost: they are what the next extension will send.
   */
  lemma ExtensionDelivers(run: seq<State>, events: seq<Event>, begin: nat, end: nat, i: nat)
    requires IsRun(run, events) && begin < end < |events|
    requires events[begin] == Begin(i) && events[end] == Finish(i, true)
    requires i < |run[begin].sessions| && run[begin].sessions[i].last < |run[begin].nodes|
    requires StillSending(events, begin, end, i) && Passes(run[begin].nodes, run[begin].edges)
    ensures i < |run[end + 1].sessions|
    ensures var s := run[end + 1].sessions[i];
            && s.phase == Idle && s.last == |run[begin].nodes|
            && s.received == Ops(run[begin].nodes, 0, |run[begin].nodes|)
            && BeginSession(run[end + 1].nodes, s, true).phase
               == if |run[end + 1].nodes| == |run[begin].nodes| then Idle
                  else Sending(Ops(run[end + 1].nodes, |run[begin].nodes|, |run[end + 1].nodes|), |run[end + 1].nodes|)
  {
    SendsSnapshot(run, events, begin, end, i);
    assert StepsTo(run[end], events[end], run[end + 1]);
    RunInv(run, events, begin);
    assert SessionOk(run[begin].nodes, run[begin].sessions[i]);
    OpsSplit(run[begin].nodes, 0, run[begin].sessions[i].last, |run[begin].nodes|);
  }

  /** No step from j on, before k, is a successful extension of session i. */
  ghost predicate NoneSucceed(events: seq<Event>, j: nat, k: nat, i: nat)
    requires k <= |events|
  {
    forall m | j <= m < k :: events[m] != Finish(i, true)
  }

  /** Until an extension succeeds, what the session has received stays as it was, however many fail. */
  lemma {:induction false} FailuresChangeNothing(run: seq<State>, events: seq<Event>, j: nat, k: nat, i: nat)
    requires IsRun(run, events) && j <= k < |run| && i < |run[j].sessions| && NoneSucceed(events, j, k, i)
    ensures i < |run[k].sessions| && run[j].nodes <= run[k].nodes
    ensures run[k].sessions[i].last == run[j].sessions[i].last
    ensures run[k].sessions[i].received == run[j].sessions[i].received
    decreases k
  {
    if j < k {
      FailuresChangeNothing(run, events, j, k - 1, i);
      assert StepsTo(run[k - 1], events[k - 1], run[k]);
      assert events[k - 1] != Finish(i, true);
    }
  }

  /** What session i is sending at step k was collected, from a graph that passed, at step begin. */
  ghost predicate SendsSince(run: seq<State>, events: seq<Event>, begin: nat, k: nat, i: nat)
    requires k < |run| && i < |run[k].sessions|
  {
    && begin < k <= |events| && events[begin] == Begin(i) && StillSending(events, begin, k, i)
    && Passes(run[begin].nodes, run[begin].edges)
    && run[k].sessions[i].last < |run[begin].nodes|
    && run[k].sessions[i].phase
       == Sending(Ops(run[begin].nodes, run[k].sessions[i].last, |run[begin].nodes|), |run[begin].nodes|)
  }

  lemma {:induction false} SendingSince(run: seq<State>, events: seq<Event>, j: nat, k: nat, i: nat) returns (begin: nat)
    requires IsRun(run, events) && j <= k < |run|
    requires i < |run[j].sessions| && run[j].sessions[i].phase.Idle?
    requires i < |run[k].sessions| && run[k].sessions[i].phase.Sending?
    ensures j <= begin && SendsSince(run, events, begin, k, i)
    decreases k
  {
    assert StepsTo(run[k - 1], events[k - 1], run[k]);
    GraphGrows(run, events, j, k - 1);
    if run[k - 1].sessions[i].phase.Idle? {
      begin := k - 1;
    } else {
      begin := SendingSince(run, events, j, k - 1, i);
    }
  }

  /**
   The first extension to succeed, after any number that fail, delivers the whole gap: every op
   between what the session had and what the graph had when the lock was held at step begin, at
   which the graph had no trap.
   */
  lemma SuccessDeliversGap(run: seq<State>, events: seq<Event>, j: nat, k: nat, i: nat) returns (begin: nat)
    requires IsRun(run, events) && j <= k < |events| && events[k] == Finish(i, true) && NoneSucceed(events, j, k, i)
    requires i < |run[j].sessions| && run[j].sessions[i].phase.Idle?
    ensures j <= begin < k && events[begin] == Begin(i) && run[j].nodes <= run[begin].nodes
    ensures Joined(run[begin].nodes, run[begin].edges) && !CycleCheck.HasTrap(GraphOf(run[begin].nodes, run[begin].edges))
    ensures i < |run[k + 1].sessions|
    ensures var before, after := run[j].sessions[i], run[k + 1].sessions[i];
            && after.phase.Idle? && after.last == |run[begin].nodes| > before.last
            && after.received == before.received + Ops(run[begin].nodes, before.last, |run[begin].nodes|)
            && after.received == Ops(run[begin].nodes, 0, |run[begin].nodes|)
  {
    assert StepsTo(run[k], events[k], run[k + 1]);
    begin := SendingSince(run, events, j, k, i);
    FailuresChangeNothing(run, events, j, k, i);
    FailuresChangeNothing(run, events, j, begin, i);
    CycleCheck.AcceptedIffNoTrap(GraphOf(run[begin].nodes, run[begin].edges));
    RunInv(run, events, begin);
    assert SessionOk(run[begin].nodes, run[begin].sessions[i]);
    OpsSplit(run[begin].nodes, 0, run[j].sessions[i].last, |run[begin].nodes|);
  }

  lemma {:induction false} GraphGrows(run: seq<State>, events: seq<Event>, j: nat, k: nat)
    requires IsRun(run, events) && j <= k < |run|
    ensures run[j].nodes <= run[k].nodes && |run[j].sessions| <= |run[k].sessions|
    decreases k
  {
    if j < k {
      GraphGrows(run, events, j, k - 1);
      assert StepsTo(run[k - 1], events[k - 1], run[k]);
    }
  }

  /** A session is sending exactly from a Begin that finds it behind on a graph that passes to its Finish. */
  lemma SendingIff(run: seq<State>, events: seq<Event>, j: nat, k: nat, i: nat)
    requires IsRun(run, events) && j <= k < |run|
    requires i < |run[j].sessions| && run[j].sessions[i].phase.Idle?
    ensures i < |run[k].sessions|
    ensures run[k].sessions[i].phase.Sending?
            <==> exists begin: nat :: j <= begin < k && Starts(run, events, begin, i) && StillSending(events, begin, k, i)
  {
    GraphGrows(run, events, j, k);
    if run[k].sessions[i].phase.Sending? {
      var begin := SendingSince(run, events, j, k, i);
      GraphGrows(run, events, j, begin);
      SendsUnchanged(run, events, begin, k, i);
      assert Starts(run, events, begin, i);
    }
    forall begin: nat | j <= begin < k && Starts(run, events, begin, i) && StillSending(events, begin, k, i)
      ensures run[k].sessions[i].phase.Sending?
    {
      SendsSnapshot(run, events, begin, k, i);
    }
  }

  /** Step begin takes up an extension of session i. */
  ghost predicate Starts(run: seq<State>, events: seq<Event>, begin: nat, i: nat) {
    && begin < |events| && begin < |run| && events[begin] == Begin(i) && i < |run[begin].sessions|
    && run[begin].sessions[i].last < |run[begin].nodes| && Passes(run[begin].nodes, run[begin].edges)
  }

  lemma SendsUnchanged(run: seq<State>, events: seq<Event>, begin: nat, k: nat, i: nat)
    requires IsRun(run, events) && k < |run| && begin < k && i < |run[begin].sessions| && i < |run[k].sessions|
    requires events[begin] == Begin(i) && StillSending(events, begin, k, i)
    ensures run[k].sessions[i].last == run[begin].sessions[i].last
  {
    forall m | begin <= m < k ensures events[m] != Finish(i, true) {
    }
    FailuresChangeNothing(run, events, begin, k, i);
  }

  // ---- Where what a session has received comes from --------------------------------------------------

  /** What the successful extensions of session i between steps j and k delivered, in order. */
  ghost function Delivered(run: seq<State>, events: seq<Event>, j: nat, k: nat, i: nat): seq<nat>
    requires |run| == |events| + 1 && k < |run|
  {
    if k <= j then []
    else
      Delivered(run, events, j, k - 1, i) + StepDelta(run[k - 1], events[k - 1], i)
  }

  /** What one step adds to what session i has received. */
  lemma StepDelivers(s: State, e: Event, t: State, i: nat)
    requires StepsTo(s, e, t) && i < |s.sessions|
    ensures i < |t.sessions|
    ensures t.sessions[i].received == s.sessions[i].received + StepDelta(s, e, i)
  {
  }

  ghost function StepDelta(s: State, e: Event, i: nat): seq<nat> {
    if e == Finish(i, true) && i < |s.sessions| && s.sessions[i].phase.Sending? then s.sessions[i].phase.delta else []
  }

  lemma {:induction false} ReceivedIsDelivered(run: seq<State>, events: seq<Event>, j: nat, k: nat, i: nat)
    requires IsRun(run, events) && j <= k < |run| && i < |run[j].sessions|
    ensures i < |run[k].sessions|
    ensures run[k].sessions[i].received == run[j].sessions[i].received + Delivered(run, events, j, k, i)
    decreases k
  {
    if j < k {
      ReceivedIsDelivered(run, events, j, k - 1, i);
      StepDelivers(run[k - 1], events[k - 1], run[k - 1 + 1], i);
      Regroup(run[j].sessions[i].received, Delivered(run, events, j, k - 1, i), StepDelta(run[k - 1], events[k - 1], i));
    }
  }

  /**
   A session from TF_NewSession has received what its successful extensions delivered and nothing
   else: nothing at all, with last_num_graph_nodes zero, until the first one.
   */
  lemma NewSessionReceives(run: seq<State>, events: seq<Event>, c: nat, k: nat)
    requires IsRun(run, events) && c < k < |run| && events[c] == NewSession
    ensures var i := |run[c].sessions|;
            && i < |run[k].sessions|
            && run[k].sessions[i].received == Delivered(run, events, c + 1, k, i)
            && (NoneSucceed(events, c + 1, k, i) ==> run[k].sessions[i].received == [] && run[k].sessions[i].last == 0)
  {
    assert StepsTo(run[c], events[c], run[c + 1]);
    var i := |run[c].sessions|;
    ReceivedIsDelivered(run, events, c + 1, k, i);
    if NoneSucceed(events, c + 1, k, i) {
      FailuresChangeNothing(run, events, c + 1, k, i);
    }
  }

  /** A loaded session starts with the ops the graph had, and has those and what its extensions delivered. */
  lemma LoadedSessionReceives(run: seq<State>, events: seq<Event>, c: nat, k: nat)
    requires IsRun(run, events) && c < k < |run| && events[c] == LoadSession
    ensures var i, n := |run[c].sessions|, |run[c].nodes|;
            && i < |run[k].sessions|
            && run[k].sessions[i].received == Ops(run[c].nodes, 0, n) + Delivered(run, events, c + 1, k, i)
            && (NoneSucceed(events, c + 1, k, i) ==> run[k].sessions[i].last == n)
  {
    assert StepsTo(run[c], events[c], run[c + 1]);
    var i := |run[c].sessions|;
    ReceivedIsDelivered(run, events, c + 1, k, i);
    if NoneSucceed(events, c + 1, k, i) {
      FailuresChangeNothing(run, events, c + 1, k, i);
    }
  }

  function AddedNodes(events: seq<Event>): seq<Slot> {
    if events == [] then []
    else
      var last := events[|events| - 1];
      AddedNodes(events[..|events| - 1]) + if last.AddNodes? then last.added else []
  }

  function AddedEdges(events: seq<Event>): seq<CycleCheck.Edge> {
    if events == [] then []
    else
      var last := events[|events| - 1];
      AddedEdges(events[..|events| - 1]) + if last.AddNodes? then last.newEdges else []
  }

  /** The graph is what construction put there; sessions do not change it. */
  lemma {:induction false} GraphIsAdded(run: seq<State>, events: seq<Event>, k: nat)
    requires IsRun(run, events) && k < |run|
    ensures run[k].nodes == run[0].nodes + AddedNodes(events[..k])
    ensures run[k].edges == run[0].edges + AddedEdges(events[..k])
  {
    if k > 0 {
      GraphIsAdded(run, events, k - 1);
      assert StepsTo(run[k - 1], events[k - 1], run[k]);
      assert events[..k][..k - 1] == events[..k - 1];
    }
  }

  // ---- When a session catches up ---------------------------------------------------------------------

  /** The next extension of session i, if Extend succeeds, leaves it with every op of the graph. */
  ghost predicate CatchesUp(s: State, i: nat) {
    exists t, u ::
      && StepsTo(s, Begin(i), t) && StepsTo(t, Finish(i, true), u)
      && u.sessions[i].last == |s.nodes| && u.sessions[i].received == Ops(s.nodes, 0, |s.nodes|)
  }

  /** Exactly when an idle session that is behind catches up: when the graph has no trap. */
  lemma CatchesUpIff(run: seq<State>, events: seq<Event>, k: nat, i: nat)
    requires IsRun(run, events) && k < |run| && i < |run[k].sessions|
    requires run[k].sessions[i].phase.Idle? && run[k].sessions[i].last < |run[k].nodes|
    ensures Joined(run[k].nodes, run[k].edges)
    ensures CatchesUp(run[k], i) <==> !CycleCheck.HasTrap(GraphOf(run[k].nodes, run[k].edges))
  {
    RunInv(run, events, k);
    var s := run[k];
    CycleCheck.AcceptedIffNoTrap(GraphOf(s.nodes, s.edges));
    assert SessionOk(s.nodes, s.sessions[i]);
    OpsSplit(s.nodes, 0, s.sessions[i].last, |s.nodes|);
    var t := Apply(s, Begin(i));
    if Passes(s.nodes, s.edges) {
      var u := Apply(t, Finish(i, true));
      assert StepsTo(s, Begin(i), t) && StepsTo(t, Finish(i, true), u);
    }
  }

  /** From any reachable state of a graph without a trap, a new session can be made, and it catches up. */
  lemma NewSessionCatchesUp(run: seq<State>, events: seq<Event>, k: nat) returns (t: State)
    requires IsRun(run, events) && k < |run| && |run[k].nodes| > 0
    requires Passes(run[k].nodes, run[k].edges)
    ensures StepsTo(run[k], NewSession, t) && |t.sessions| == |run[k].sessions| + 1
    ensures t.sessions[|run[k].sessions|] == Session(0, [], Idle) && CatchesUp(t, |run[k].sessions|)
  {
    RunInv(run, events, k);
    var s, i := run[k], |run[k].sessions|;
    t := Apply(s, NewSession);
    var u := Apply(t, Begin(i));
    var v := Apply(u, Finish(i, true));
    assert StepsTo(t, Begin(i), u) && StepsTo(u, Finish(i, true), v);
  }

  /** While every extension of an idle session finds a trap, the session stays exactly as it was. */
  lemma {:induction false} BlockedWhileTrapped(run: seq<State>, events: seq<Event>, j: nat, k: nat, i: nat)
    requires IsRun(run, events) && j <= k < |run|
    requires i < |run[j].sessions| && run[j].sessions[i].phase.Idle?
    requires forall m | j <= m < k && events[m] == Begin(i) :: !Passes(run[m].nodes, run[m].edges)
    ensures i < |run[k].sessions| && run[k].sessions[i] == run[j].sessions[i]
    decreases k
  {
    if j < k {
      BlockedWhileTrapped(run, events, j, k - 1, i);
      assert StepsTo(run[k - 1], events[k - 1], run[k]);
    }
  }

  lemma RemovedIdFails(nodes: seq<Slot>, edges: seq<CycleCheck.Edge>, id: nat)
    requires id < |nodes| && nodes[id].Removed?
    ensures !Passes(nodes, edges)
  {
    if Joined(nodes, edges) {
      assert !CycleCheck.IsLive(GraphOf(nodes, edges), id);
      CycleCheck.RemovedIdRejected(GraphOf(nodes, edges));
    }
  }

  /**
   A removed id, such as a failed TF_FinishOperation leaves behind, blocks an idle session for good:
   whatever happens later, it receives nothing more.
   */
  lemma RemovedIdBlocksSessions(run: seq<State>, events: seq<Event>, j: nat, k: nat, i: nat, id: nat)
    requires IsRun(run, events) && j <= k < |run| && id < |run[j].nodes| && run[j].nodes[id].Removed?
    requires i < |run[j].sessions| && run[j].sessions[i].phase.Idle?
    ensures i < |run[k].sessions| && run[k].sessions[i] == run[j].sessions[i]
  {
    forall m | j <= m < k && events[m] == Begin(i) ensures !Passes(run[m].nodes, run[m].edges) {
      GraphGrows(run, events, j, m);
      RemovedIdFails(run[m].nodes, run[m].edges, id);
    }
    BlockedWhileTrapped(run, events, j, k, i);
  }
}
