/**
 ValidateNoCycles in c_api.cc: a count-down traversal that lets while-loop back edges through.
 The loop is proved to accept exactly the graphs without a trap, a set of ids none of which can be
 released first; lemmas then say when that is the same as having no cycle.
 */
module CycleCheck {
  import opened Basics

  datatype Kind = Merge | NextIteration | Other
  datatype Edge = Edge(src: nat, dst: nat, control: bool)

  /** The node with a given id, or the hole a removed node leaves behind. */
  datatype Slot = Live(kind: Kind) | Removed

  datatype Graph = Graph(nodes: seq<Slot>, edges: seq<Edge>)

  predicate IsLive(g: Graph, v: nat) {
    v < |g.nodes| && g.nodes[v].Live?
  }

  /** Removing a node removes its edges. */
  ghost predicate Valid(g: Graph) {
    forall e | 0 <= e < |g.edges| :: IsLive(g, g.edges[e].src) && IsLive(g, g.edges[e].dst)
  }

  /** A legal while-loop edge: from a NextIteration, not a control edge, into a Merge. */
  predicate IsBack(g: Graph, e: nat)
    requires e < |g.edges| && IsLive(g, g.edges[e].src) && IsLive(g, g.edges[e].dst)
  {
    var edge := g.edges[e];
    !edge.control && g.nodes[edge.src].kind.NextIteration? && g.nodes[edge.dst].kind.Merge?
  }

  function In(g: Graph, v: nat): set<nat> {
    set e | 0 <= e < |g.edges| && g.edges[e].dst == v
  }

  function Out(g: Graph, v: nat): set<nat> {
    set e | 0 <= e < |g.edges| && g.edges[e].src == v
  }

  ghost function BackIn(g: Graph, v: nat): set<nat>
    requires Valid(g)
  {
    set e | e in In(g, v) && IsBack(g, e)
  }

  /** How many incoming edges must have been seen before v is visited. */
  ghost function Needed(g: Graph, v: nat): int
    requires Valid(g)
  {
    |In(g, v)| - |BackIn(g, v)|
  }

  // ---- Release orders: what the traversal computes --------------------------------------------

  ghost function SeenIn(g: Graph, seen: seq<nat>, v: nat): set<nat> {
    set e | e in In(g, v) && g.edges[e].src in seen
  }

  ghost predicate Released(g: Graph, seen: seq<nat>, v: nat)
    requires Valid(g)
  {
    |SeenIn(g, seen, v)| >= Needed(g, v)
  }

  /** Live nodes, each released by the ones before it. */
  ghost predicate ReleaseOrder(g: Graph, order: seq<nat>)
    requires Valid(g)
  {
    && Distinct(order)
    && (forall v | v in order :: IsLive(g, v))
    && forall k | 0 <= k < |order| :: Released(g, order[..k], order[k])
  }

  ghost predicate Complete(g: Graph, order: seq<nat>)
    requires Valid(g)
  {
    ReleaseOrder(g, order) && |order| == |g.nodes|
  }

  ghost predicate Accepted(g: Graph)
    requires Valid(g)
  {
    exists order :: Complete(g, order)
  }

  // ---- Traps: what the traversal cannot enter -------------------------------------------------

  ghost function FromIn(g: Graph, s: set<nat>, v: nat): set<nat> {
    set e | e in In(g, v) && g.edges[e].src in s
  }

  /** Ids of which no live one can be the first to be released: more edges come from within than are forgiven. */
  ghost predicate Trap(g: Graph, s: set<nat>)
    requires Valid(g)
  {
    && s != {}
    && (forall v | v in s :: v < |g.nodes|)
    && forall v | v in s && IsLive(g, v) :: |FromIn(g, s, v)| > |BackIn(g, v)|
  }

  ghost predicate HasTrap(g: Graph)
    requires Valid(g)
  {
    exists s :: Trap(g, s)
  }

  lemma CountOne<T>(s: set<T>, done: set<T>, x: T)
    requires x !in done
    ensures |s * (done + {x})| == |s * done| + if x in s then 1 else 0
  {
    if x in s {
      assert s * (done + {x}) == s * done + {x};
    } else {
      assert s * (done + {x}) == s * done;
    }
  }

  lemma SeenGrows(g: Graph, a: seq<nat>, b: seq<nat>, v: nat)
    requires forall x | x in a :: x in b
    ensures |SeenIn(g, a, v)| <= |SeenIn(g, b, v)|
  {
    SubsetSize(SeenIn(g, a, v), SeenIn(g, b, v));
  }

  // ---- The traversal -----------------------------------------------------------------------------

  /** Counts a node's incoming edges, leaving out the back edges of a Merge. */
  method InitialCount(g: Graph, v: nat) returns (count: int)
    requires Valid(g) && IsLive(g, v)
    ensures count == Needed(g, v)
  {
    count := |In(g, v)|;
    if g.nodes[v].kind.Merge? {
      var backs := CountBacks(g, In(g, v), BackIn(g, v));
      count := count - backs;
    } else {
      assert BackIn(g, v) == {};
    }
  }

  predicate FromNextIteration(g: Graph, e: nat) {
    e < |g.edges| && !g.edges[e].control && IsLive(g, g.edges[e].src) && g.nodes[g.edges[e].src].kind.NextIteration?
  }

  /** The loop over the incoming edges of a Merge. */
  method CountBacks(g: Graph, inEdges: set<nat>, ghost backs: set<nat>) returns (n: nat)
    requires forall e | e in inEdges :: e < |g.edges| && IsLive(g, g.edges[e].src)
    requires backs <= inEdges && forall e | e in inEdges :: e in backs <==> FromNextIteration(g, e)
    ensures n == |backs|
  {
    n := 0;
    var todo := inEdges;
    ghost var done: set<nat> := {};
    assert backs * done == {};
    while todo != {}
      invariant todo + done == inEdges && todo !! done
      invariant n == |backs * done|
      decreases todo
    {
      var e :| e in todo;
      CountOne(backs, done, e);
      if FromNextIteration(g, e) {
        n := n + 1;
      }
      todo, done := todo - {e}, done + {e};
    }
    assert backs * done == backs;
  }

  /** Each counter is what its node still needs after the handled edges. */
  ghost predicate Counted(g: Graph, pending: seq<int>, handled: set<nat>)
    requires Valid(g)
  {
    && |pending| == |g.nodes|
    && (forall v: nat | IsLive(g, v) :: pending[v] == Needed(g, v) - |In(g, v) * handled|)
    && (forall v: nat | v < |g.nodes| && !IsLive(g, v) :: pending[v] == 0)
  }

  /** A node is queued once its counter reaches zero, and never again. */
  ghost predicate Queued(g: Graph, pending: seq<int>, queued: seq<nat>) {
    && |pending| == |g.nodes|
    && (forall v: nat | IsLive(g, v) :: v in queued <==> pending[v] <= 0)
    && (forall v | v in queued :: IsLive(g, v))
    && Distinct(queued)
  }

  /** The counters and the ready list after the first i ids. */
  ghost predicate CountedTo(g: Graph, pending: seq<int>, ready: seq<nat>, i: nat)
    requires Valid(g)
  {
    && |pending| == |g.nodes|
    && (forall v: nat | v < |g.nodes| && (v >= i || !IsLive(g, v)) :: pending[v] == 0)
    && (forall v: nat | v < i && IsLive(g, v) :: pending[v] == Needed(g, v))
    && (forall v: nat :: v in ready <==> v < i && IsLive(g, v) && pending[v] == 0)
    && Distinct(ready)
  }

  lemma CountedToStep(g: Graph, pending: seq<int>, ready: seq<nat>, i: nat, count: int)
    requires Valid(g) && CountedTo(g, pending, ready, i) && IsLive(g, i) && count == Needed(g, i)
    ensures CountedTo(g, pending[i := count], if count == 0 then ready + [i] else ready, i + 1)
  {
  }

  lemma CountedToSkip(g: Graph, pending: seq<int>, ready: seq<nat>, i: nat)
    requires Valid(g) && CountedTo(g, pending, ready, i) && !IsLive(g, i)
    ensures CountedTo(g, pending, ready, i + 1)
  {
  }

  method CountAll(g: Graph) returns (pending: array<int>, ready: seq<nat>)
    requires Valid(g)
    ensures Counted(g, pending[..], {}) && Queued(g, pending[..], ready)
    ensures forall v | v in ready :: Needed(g, v) == 0
    ensures fresh(pending)
  {
    pending := new int[|g.nodes|](_ => 0);
    ready := [];
    for i := 0 to |g.nodes|
      invariant CountedTo(g, pending[..], ready, i)
    {
      if g.nodes[i].Removed? {
        CountedToSkip(g, pending[..], ready, i);
        continue;
      }
      var count := InitialCount(g, i);
      CountedToStep(g, pending[..], ready, i, count);
      ghost var after := pending[..][i := count];
      pending[i] := count;
      assert pending[..] == after;
      if pending[i] == 0 {
        ready := ready + [i];
      }
    }
    AllCounted(g, pending[..], ready);
  }

  lemma AllCounted(g: Graph, pending: seq<int>, ready: seq<nat>)
    requires Valid(g) && CountedTo(g, pending, ready, |g.nodes|)
    ensures Counted(g, pending, {}) && Queued(g, pending, ready)
    ensures forall v | v in ready :: Needed(g, v) == 0
  {
    InitiallyCounted(g, pending);
  }

  lemma InitiallyCounted(g: Graph, pending: seq<int>)
    requires Valid(g) && |pending| == |g.nodes|
    requires forall v: nat | v < |g.nodes| :: pending[v] == if IsLive(g, v) then Needed(g, v) else 0
    ensures Counted(g, pending, {})
    ensures forall v: nat | IsLive(g, v) :: pending[v] >= 0
  {
    forall v: nat | IsLive(g, v)
      ensures pending[v] >= 0 && |In(g, v) * {}| == 0
    {
      SubsetSize(BackIn(g, v), In(g, v));
      assert In(g, v) * {} == {};
    }
  }

  /** The edges leaving the visited nodes. */
  ghost function OutOf(g: Graph, visited: seq<nat>): set<nat> {
    set e | 0 <= e < |g.edges| && g.edges[e].src in visited
  }

  lemma HandledIsSeen(g: Graph, visited: seq<nat>, v: nat)
    ensures In(g, v) * OutOf(g, visited) == SeenIn(g, visited, v)
  {
  }

  function CountDown(pending: seq<int>, v: nat): seq<int>
    requires v < |pending|
  {
    pending[v := pending[v] - 1]
  }

  lemma CountedStep(g: Graph, pending: seq<int>, handled: set<nat>, e: nat)
    requires Valid(g) && Counted(g, pending, handled)
    requires e < |g.edges| && e !in handled
    ensures Counted(g, CountDown(pending, g.edges[e].dst), handled + {e})
  {
    var target := g.edges[e].dst;
    forall v: nat | IsLive(g, v)
      ensures |In(g, v) * (handled + {e})| == |In(g, v) * handled| + if v == target then 1 else 0
    {
      CountOne(In(g, v), handled, e);
    }
  }

  lemma QueuedStep(g: Graph, pending: seq<int>, queued: seq<nat>, v: nat)
    requires Queued(g, pending, queued) && IsLive(g, v)
    ensures Queued(g, CountDown(pending, v), if pending[v] == 1 then queued + [v] else queued)
  {
  }

  /** Counts down the targets of a visited node's outgoing edges, queueing those that reach zero. */
  method VisitEdges(g: Graph, pending: array<int>, ready: seq<nat>, outEdges: set<nat>,
                    ghost handled: set<nat>, ghost visited: seq<nat>)
    returns (queued: seq<nat>)
    requires Valid(g) && Counted(g, pending[..], handled) && Queued(g, pending[..], visited + ready)
    requires handled !! outEdges && forall e | e in outEdges :: e < |g.edges|
    modifies pending
    ensures Counted(g, pending[..], handled + outEdges) && Queued(g, pending[..], visited + queued)
  {
    queued := ready;
    var todo := outEdges;
    ghost var seen := handled;
    while todo != {}
      invariant todo <= outEdges && seen !! todo && seen + todo == handled + outEdges
      invariant Counted(g, pending[..], seen) && Queued(g, pending[..], visited + queued)
      decreases todo
    {
      var e :| e in todo;
      queued := CountTarget(g, pending, queued, e, seen, visited);
      todo, seen := todo - {e}, seen + {e};
    }
    assert seen == handled + outEdges;
  }

  lemma AppendLast(visited: seq<nat>, ready: seq<nat>, v: nat)
    ensures (visited + ready) + [v] == visited + (ready + [v])
  {
  }

  method Decrement(pending: array<int>, v: nat)
    requires v < pending.Length
    modifies pending
    ensures pending[..] == CountDown(old(pending[..]), v)
  {
    pending[v] := pending[v] - 1;
  }

  lemma TargetStep(g: Graph, pending: seq<int>, ready: seq<nat>, e: nat, handled: set<nat>, visited: seq<nat>)
    requires Valid(g) && Counted(g, pending, handled) && Queued(g, pending, visited + ready)
    requires e < |g.edges| && e !in handled
    ensures var v := g.edges[e].dst;
            && v < |pending| && Counted(g, CountDown(pending, v), handled + {e})
            && Queued(g, CountDown(pending, v), visited + if pending[v] == 1 then ready + [v] else ready)
  {
    CountedStep(g, pending, handled, e);
    QueuedStep(g, pending, visited + ready, g.edges[e].dst);
    AppendLast(visited, ready, g.edges[e].dst);
  }

  method CountTarget(g: Graph, pending: array<int>, ready: seq<nat>, e: nat,
                     ghost handled: set<nat>, ghost visited: seq<nat>)
    returns (queued: seq<nat>)
    requires Valid(g) && Counted(g, pending[..], handled) && Queued(g, pending[..], visited + ready)
    requires e < |g.edges| && e !in handled
    modifies pending
    ensures Counted(g, pending[..], handled + {e}) && Queued(g, pending[..], visited + queued)
  {
    var output := g.edges[e].dst;
    TargetStep(g, pending[..], ready, e, handled, visited);
    Decrement(pending, output);
    queued := if pending[output] == 0 then ready + [output] else ready;
  }

  // ---- Finite sequences of ids --------------------------------------------------------------------

  ghost function Ids(s: seq<nat>): (r: set<nat>)
    ensures forall x :: x in r <==> x in s
  {
    set x | x in s
  }

  lemma {:induction false} IdsSize(s: seq<nat>)
    requires Distinct(s)
    ensures |Ids(s)| == |s|
  {
    if s != [] {
      var t := s[..|s| - 1];
      IdsSize(t);
      assert Ids(s) == Ids(t) + {s[|s| - 1]};
    }
  }

  ghost function Below(n: nat): (r: set<nat>)
    ensures |r| == n && forall x: nat :: x in r <==> x < n
  {
    if n == 0 then {} else Below(n - 1) + {n - 1}
  }

  /** Distinct ids below n: at most n of them, and n of them are all. */
  lemma Pigeonhole(s: seq<nat>, n: nat)
    requires Distinct(s) && forall x | x in s :: x < n
    ensures |s| <= n
    ensures |s| == n ==> forall x: nat | x < n :: x in s
  {
    IdsSize(s);
    SubsetSize(Ids(s), Below(n));
    if x: nat :| x < n && x !in s && |s| == n {
      SubsetSize(Ids(s), Below(n) - {x});
    }
  }

  // ---- One visit ------------------------------------------------------------------------------------

  lemma Requeue(g: Graph, pending: seq<int>, visited: seq<nat>, rest: seq<nat>, node: nat)
    requires Queued(g, pending, visited + (rest + [node]))
    ensures Queued(g, pending, (visited + [node]) + rest)
    ensures node !in visited && IsLive(g, node) && pending[node] <= 0
  {
    var s, t := visited + (rest + [node]), (visited + [node]) + rest;
    assert s[|s| - 1] == node;
    assert forall v :: v in s <==> v in visited || v in rest || v == node;
    assert forall v :: v in t <==> v in visited || v in rest || v == node;
    assert forall i | 0 <= i < |visited| :: s[i] == visited[i];
    assert forall i | 0 <= i < |rest| :: s[|visited| + i] == rest[i];
  }

  lemma OutOfGrows(g: Graph, visited: seq<nat>, node: nat)
    requires node !in visited
    ensures OutOf(g, visited) !! Out(g, node)
    ensures OutOf(g, visited + [node]) == OutOf(g, visited) + Out(g, node)
  {
  }

  /** A node whose counter has run out is released by the visited nodes, and only such a node is. */
  lemma CounterTells(g: Graph, pending: seq<int>, visited: seq<nat>, v: nat)
    requires Valid(g) && Counted(g, pending, OutOf(g, visited)) && IsLive(g, v)
    ensures pending[v] <= 0 <==> Released(g, visited, v)
  {
    HandledIsSeen(g, visited, v);
  }

  lemma ReleaseOrderGrows(g: Graph, order: seq<nat>, v: nat)
    requires Valid(g) && ReleaseOrder(g, order) && v !in order && IsLive(g, v) && Released(g, order, v)
    ensures ReleaseOrder(g, order + [v])
  {
    var s := order + [v];
    forall k | 0 <= k < |s| ensures Released(g, s[..k], s[k]) {
      assert s[..k] == order[..k];
      assert order[..|order|] == order;
    }
  }

  lemma ReleaseOrderPrefix(g: Graph, order: seq<nat>, n: nat)
    requires Valid(g) && ReleaseOrder(g, order) && n < |order|
    ensures ReleaseOrder(g, order[..n]) && IsLive(g, order[n]) && Released(g, order[..n], order[n])
  {
    var before := order[..n];
    forall k | 0 <= k < n ensures Released(g, before[..k], before[k]) {
      assert before[..k] == order[..k];
    }
    assert forall v | v in before :: v in order;
  }

  /** Whatever the visited nodes release has been visited. */
  ghost predicate Exhausted(g: Graph, visited: seq<nat>)
    requires Valid(g)
  {
    forall v: nat | IsLive(g, v) && Released(g, visited, v) :: v in visited
  }

  lemma EmptyStackExhausts(g: Graph, pending: seq<int>, visited: seq<nat>)
    requires Valid(g) && Counted(g, pending, OutOf(g, visited)) && Queued(g, pending, visited)
    ensures Exhausted(g, visited)
  {
    forall v: nat | IsLive(g, v) && Released(g, visited, v) ensures v in visited {
      CounterTells(g, pending, visited, v);
    }
  }

  /** When nothing is left to visit, every release order stays within the visited nodes. */
  lemma {:induction false} OrdersAreVisited(g: Graph, visited: seq<nat>, order: seq<nat>)
    requires Valid(g) && Exhausted(g, visited) && ReleaseOrder(g, order)
    ensures forall v | v in order :: v in visited
  {
    if order != [] {
      var n := |order| - 1;
      ReleaseOrderPrefix(g, order, n);
      OrdersAreVisited(g, visited, order[..n]);
      SeenGrows(g, order[..n], visited, order[n]);
      assert forall v | v in order :: v in order[..n] || v == order[n];
    }
  }

  /** Taking a node from the stack: it is released by the nodes visited before it. */
  lemma VisitNext(g: Graph, pending: seq<int>, visited: seq<nat>, rest: seq<nat>, node: nat)
    requires Valid(g) && Counted(g, pending, OutOf(g, visited)) && ReleaseOrder(g, visited)
    requires Queued(g, pending, visited + (rest + [node]))
    ensures Queued(g, pending, (visited + [node]) + rest) && ReleaseOrder(g, visited + [node])
    ensures |visited| < |g.nodes|
    ensures OutOf(g, visited) !! Out(g, node)
    ensures OutOf(g, visited + [node]) == OutOf(g, visited) + Out(g, node)
  {
    Requeue(g, pending, visited, rest, node);
    CounterTells(g, pending, visited, node);
    ReleaseOrderGrows(g, visited, node);
    Pigeonhole(visited + [node], |g.nodes|);
    OutOfGrows(g, visited, node);
  }

  /** A traversal that stops early shows that no release order is complete. */
  lemma StoppedEarly(g: Graph, visited: seq<nat>, order: seq<nat>)
    requires Valid(g) && Exhausted(g, visited) && Distinct(visited) && ReleaseOrder(g, order)
    ensures |order| <= |visited|
  {
    OrdersAreVisited(g, visited, order);
    IdsSize(visited);
    IdsSize(order);
    SubsetSize(Ids(order), Ids(visited));
  }

  /** The traversal has visited these nodes, and these are ready. */
  ghost predicate Underway(g: Graph, pending: seq<int>, visited: seq<nat>, ready: seq<nat>)
    requires Valid(g)
  {
    && |visited| <= |g.nodes| && ReleaseOrder(g, visited)
    && Counted(g, pending, OutOf(g, visited)) && Queued(g, pending, visited + ready)
  }

  lemma UnderwayFirst(g: Graph, pending: seq<int>, ready: seq<nat>)
    requires Valid(g) && Counted(g, pending, {}) && Queued(g, pending, ready)
    ensures Underway(g, pending, [], ready)
  {
    assert OutOf(g, []) == {} && [] + ready == ready;
  }

  lemma UnderwayLast(g: Graph, pending: seq<int>, visited: seq<nat>)
    requires Valid(g) && Underway(g, pending, visited, [])
    ensures Queued(g, pending, visited)
  {
    assert visited + [] == visited;
  }

  /** Pops one node and visits it. */
  method VisitTop(g: Graph, pending: array<int>, ready: seq<nat>, ghost visited: seq<nat>) returns (next: seq<nat>)
    requires Valid(g) && ready != [] && Underway(g, pending[..], visited, ready)
    modifies pending
    ensures Underway(g, pending[..], visited + [ready[|ready| - 1]], next)
  {
    var node, rest := ready[|ready| - 1], ready[..|ready| - 1];
    assert ready == rest + [node];
    VisitNext(g, pending[..], visited, rest, node);
    next := VisitEdges(g, pending, rest, Out(g, node), OutOf(g, visited), visited + [node]);
  }

  /** The traversal: pops nodes and visits them until no counted-down node is left. */
  method Traverse(g: Graph, pending: array<int>, initial: seq<nat>) returns (processed: nat, ghost visited: seq<nat>)
    requires Valid(g) && Counted(g, pending[..], {}) && Queued(g, pending[..], initial)
    modifies pending
    ensures processed == |visited| <= |g.nodes| && ReleaseOrder(g, visited)
    ensures Counted(g, pending[..], OutOf(g, visited)) && Queued(g, pending[..], visited)
  {
    UnderwayFirst(g, pending[..], initial);
    var ready := initial;
    processed, visited := 0, [];
    while ready != []
      invariant processed == |visited| && Underway(g, pending[..], visited, ready)
      decreases |g.nodes| - |visited|
    {
      ghost var node := ready[|ready| - 1];
      ready := VisitTop(g, pending, ready, visited);
      processed := processed + 1;
      visited := visited + [node];
    }
    UnderwayLast(g, pending[..], visited);
  }

  method ValidateNoCycles(g: Graph) returns (ok: bool, reported: seq<nat>)
    requires Valid(g)
    ensures ok <==> Accepted(g)
    ensures ok <==> !HasTrap(g)
    ensures |reported| <= 3 && forall v | v in reported :: IsLive(g, v)
    ensures !ok ==> exists visited :: Reports(g, visited, reported)
  {
    AcceptedIffNoTrap(g);
    var pending, ready := CountAll(g);
    var processed;
    ghost var visited;
    processed, visited := Traverse(g, pending, ready);
    if processed < |g.nodes| {
      EmptyStackExhausts(g, pending[..], visited);
      forall order | Complete(g, order) ensures false {
        StoppedEarly(g, visited, order);
      }
      reported := FirstPending(pending);
      CountersAreBalances(g, pending[..], visited);
      assert Reports(g, visited, reported);
      forall v | v in reported ensures IsLive(g, v) {
        ReportedMeans(g, visited, reported, v);
      }
      return false, reported;
    }
    assert Complete(g, visited);
    return true, [];
  }

  /** The positions of the counters that are not zero, in order. */
  function Nonzero(pending: seq<int>): seq<nat> {
    if pending == [] then []
    else
      var n := |pending| - 1;
      Nonzero(pending[..n]) + if pending[n] != 0 then [n] else []
  }

  function FirstThree(s: seq<nat>): seq<nat> {
    if |s| <= 3 then s else s[..3]
  }

  lemma {:induction false} NonzeroExact(pending: seq<int>)
    ensures forall v: nat :: v in Nonzero(pending) <==> v < |pending| && pending[v] != 0
  {
    if pending != [] {
      NonzeroExact(pending[..|pending| - 1]);
    }
  }

  lemma {:induction false} NonzeroPrefix(pending: seq<int>, i: nat)
    requires i <= |pending|
    ensures Nonzero(pending[..i]) <= Nonzero(pending)
  {
    var n := |pending| - 1;
    if i <= n {
      assert pending[..n][..i] == pending[..i];
      NonzeroPrefix(pending[..n], i);
    } else {
      assert pending[..i] == pending;
    }
  }

  /** The error message names the first three nodes whose counter is not zero. */
  method FirstPending(pending: array<int>) returns (reported: seq<nat>)
    ensures reported == FirstThree(Nonzero(pending[..]))
  {
    reported := [];
    var i := 0;
    while i < pending.Length && |reported| < 3
      invariant 0 <= i <= pending.Length && |reported| <= 3 && reported == Nonzero(pending[..i])
    {
      assert pending[..i + 1][..i] == pending[..i];
      if pending[i] != 0 {
        reported := reported + [i];
      }
      i := i + 1;
    }
    NonzeroPrefix(pending[..], i);
    assert pending[..][..i] == pending[..i] && pending[..pending.Length] == pending[..];
  }

  /** What each live node still waits for once these have been visited: below zero where a loop came round. */
  ghost function Balances(g: Graph, visited: seq<nat>): (b: seq<int>)
    requires Valid(g)
    ensures |b| == |g.nodes|
    ensures forall v | 0 <= v < |b| :: b[v] == if IsLive(g, v) then Needed(g, v) - |SeenIn(g, visited, v)| else 0
  {
    seq(|g.nodes|, v requires 0 <= v < |g.nodes| => if IsLive(g, v) then Needed(g, v) - |SeenIn(g, visited, v)| else 0)
  }

  lemma CountersAreBalances(g: Graph, pending: seq<int>, visited: seq<nat>)
    requires Valid(g) && Counted(g, pending, OutOf(g, visited))
    ensures pending == Balances(g, visited)
  {
    forall v: nat | IsLive(g, v) ensures pending[v] == Balances(g, visited)[v] {
      HandledIsSeen(g, visited, v);
    }
    assert forall v: nat | v < |pending| :: pending[v] == Balances(g, visited)[v];
  }

  /** A complete traversal, stuck at these nodes, reports these ones. */
  ghost predicate Reports(g: Graph, visited: seq<nat>, reported: seq<nat>)
    requires Valid(g)
  {
    && ReleaseOrder(g, visited) && Exhausted(g, visited) && |visited| < |g.nodes|
    && reported == FirstThree(Nonzero(Balances(g, visited)))
  }

  /** A reported node is live, and was either never visited or is a Merge with while-loop edges. */
  lemma ReportedMeans(g: Graph, visited: seq<nat>, reported: seq<nat>, v: nat)
    requires Valid(g) && Reports(g, visited, reported) && v in reported
    ensures IsLive(g, v) && (v in visited ==> BackIn(g, v) != {})
  {
    NonzeroExact(Balances(g, visited));
    assert v in Nonzero(Balances(g, visited));
    if v in visited {
      var k :| 0 <= k < |visited| && visited[k] == v;
      assert Released(g, visited[..k], v);
      SeenGrows(g, visited[..k], visited, v);
      SubsetSize(SeenIn(g, visited, v), In(g, v));
    }
  }

  // ---- What acceptance means ------------------------------------------------------------------------

  /** An edge of the graph that is left when the legal while-loop edges are deleted. */
  ghost predicate ReducedEdge(g: Graph, u: nat, v: nat)
    requires Valid(g)
  {
    exists e | 0 <= e < |g.edges| :: !IsBack(g, e) && g.edges[e].src == u && g.edges[e].dst == v
  }

  ghost predicate IsPath(g: Graph, p: seq<nat>)
    requires Valid(g)
  {
    && |p| > 0
    && (forall v | v in p :: IsLive(g, v))
    && forall i | 0 < i < |p| :: ReducedEdge(g, p[i - 1], p[i])
  }

  ghost predicate IsCycle(g: Graph, p: seq<nat>)
    requires Valid(g)
  {
    IsPath(g, p) && |p| > 1 && p[0] == p[|p| - 1]
  }

  ghost predicate HasCycle(g: Graph)
    requires Valid(g)
  {
    exists p :: IsCycle(g, p)
  }

  ghost predicate Connects(g: Graph, p: seq<nat>, u: nat, v: nat)
    requires Valid(g)
  {
    IsPath(g, p) && p[0] == u && p[|p| - 1] == v
  }

  /** Every NextIteration that feeds a Merge depends on that Merge, as in any while loop. */
  ghost predicate LoopsClosed(g: Graph)
    requires Valid(g)
  {
    forall e: nat | e < |g.edges| && IsBack(g, e) ::
      exists p :: Connects(g, p, g.edges[e].dst, g.edges[e].src)
  }

  ghost predicate NoneRemoved(g: Graph) {
    forall v: nat | v < |g.nodes| :: IsLive(g, v)
  }

  // ---- Acceptance is the absence of traps -----------------------------------------------------------

  /** A node is not released while the edges from a set it belongs to outnumber its back edges. */
  lemma TrappedNotReleased(g: Graph, seen: seq<nat>, s: set<nat>, v: nat)
    requires Valid(g) && |FromIn(g, s, v)| > |BackIn(g, v)| && forall u | u in seen :: u !in s
    ensures !Released(g, seen, v)
  {
    assert SeenIn(g, seen, v) !! FromIn(g, s, v);
    SubsetSize(SeenIn(g, seen, v) + FromIn(g, s, v), In(g, v));
  }

  lemma NextAvoidsTrap(g: Graph, seen: seq<nat>, s: set<nat>, v: nat)
    requires Valid(g) && Trap(g, s) && (forall u | u in seen :: u !in s) && IsLive(g, v) && Released(g, seen, v)
    ensures v !in s
  {
    if v in s {
      TrappedNotReleased(g, seen, s, v);
      assert false;
    }
  }

  lemma {:induction false} OrdersAvoidTraps(g: Graph, order: seq<nat>, s: set<nat>)
    requires Valid(g) && ReleaseOrder(g, order) && Trap(g, s)
    ensures forall v | v in order :: v !in s
  {
    if order != [] {
      var n := |order| - 1;
      ReleaseOrderPrefix(g, order, n);
      OrdersAvoidTraps(g, order[..n], s);
      NextAvoidsTrap(g, order[..n], s, order[n]);
      assert forall v | v in order :: v in order[..n] || v == order[n];
    }
  }

  lemma NotReleasedHasMore(g: Graph, seen: seq<nat>, s: set<nat>, v: nat)
    requires Valid(g) && !Released(g, seen, v)
    requires forall u: nat | u < |g.nodes| :: u in seen || u in s
    ensures |FromIn(g, s, v)| > |BackIn(g, v)|
  {
    var rest := In(g, v) - SeenIn(g, seen, v);
    assert In(g, v) == rest + SeenIn(g, seen, v);
    forall e | e in rest ensures e in FromIn(g, s, v) {
      assert IsLive(g, g.edges[e].src);
    }
    SubsetSize(rest, FromIn(g, s, v));
  }

  /** When nothing more can be released, what is left is a trap. */
  lemma LeftoverIsTrap(g: Graph, order: seq<nat>)
    requires Valid(g) && ReleaseOrder(g, order) && |order| < |g.nodes|
    requires forall v: nat | IsLive(g, v) && v !in order :: !Released(g, order, v)
    ensures Trap(g, Below(|g.nodes|) - Ids(order))
  {
    var all, done := Below(|g.nodes|), Ids(order);
    IdsSize(order);
    if all - done == {} {
      SubsetSize(all, done);
      assert false;
    }
    forall v | v in all - done && IsLive(g, v) ensures |FromIn(g, all - done, v)| > |BackIn(g, v)| {
      NotReleasedHasMore(g, order, all - done, v);
    }
  }

  lemma {:induction false} CompleteWithoutTraps(g: Graph, order: seq<nat>)
    requires Valid(g) && ReleaseOrder(g, order) && !HasTrap(g)
    ensures Accepted(g)
    decreases |g.nodes| - |order|
  {
    Pigeonhole(order, |g.nodes|);
    if |order| == |g.nodes| {
      assert Complete(g, order);
    } else if v: nat :| IsLive(g, v) && v !in order && Released(g, order, v) {
      ReleaseOrderGrows(g, order, v);
      Pigeonhole(order + [v], |g.nodes|);
      CompleteWithoutTraps(g, order + [v]);
    } else {
      LeftoverIsTrap(g, order);
      assert false;
    }
  }

  /** The exact verdict, for every graph: accepted if and only if no set of ids is a trap. */
  lemma AcceptedIffNoTrap(g: Graph)
    requires Valid(g)
    ensures Accepted(g) <==> !HasTrap(g)
  {
    if HasTrap(g) {
      var s :| Trap(g, s);
      var x :| x in s;
      forall order | ReleaseOrder(g, order) ensures !Complete(g, order) {
        OrdersAvoidTraps(g, order, s);
        Pigeonhole(order, |g.nodes|);
      }
    } else {
      assert ReleaseOrder(g, []);
      CompleteWithoutTraps(g, []);
    }
  }

  /** A removed id is a trap by itself, so it is always taken for a cycle. */
  lemma RemovedIdRejected(g: Graph)
    requires Valid(g) && !NoneRemoved(g)
    ensures !Accepted(g)
  {
    var v: nat :| v < |g.nodes| && !IsLive(g, v);
    assert Trap(g, {v});
    AcceptedIffNoTrap(g);
  }

  // ---- Traps and cycles -----------------------------------------------------------------------------

  ghost predicate HasPredecessor(g: Graph, s: set<nat>, v: nat)
    requires Valid(g)
  {
    exists u :: u in s && IsLive(g, u) && ReducedEdge(g, u, v)
  }

  lemma TrapPredecessor(g: Graph, s: set<nat>, v: nat)
    requires Valid(g) && Trap(g, s) && v in s && IsLive(g, v)
    ensures HasPredecessor(g, s, v)
  {
    if FromIn(g, s, v) <= BackIn(g, v) {
      SubsetSize(FromIn(g, s, v), BackIn(g, v));
      assert false;
    }
    var e :| e in FromIn(g, s, v) && e !in BackIn(g, v);
    assert IsLive(g, g.edges[e].src);
    assert ReducedEdge(g, g.edges[e].src, v);
  }

  lemma StepOn(g: Graph, q: seq<nat>, v: nat)
    requires Valid(g) && IsPath(g, q) && IsLive(g, v) && ReducedEdge(g, q[|q| - 1], v)
    ensures IsPath(g, q + [v]) && (q + [v])[|q|] == v
  {
    var p := q + [v];
    forall i | 0 < i < |p| ensures ReducedEdge(g, p[i - 1], p[i]) {
      assert i < |q| ==> ReducedEdge(g, q[i - 1], q[i]);
    }
  }

  /** Walking back inside a set in which every live node has a predecessor, as far as one likes. */
  lemma {:induction false} WalkBack(g: Graph, s: set<nat>, v: nat, n: nat) returns (p: seq<nat>)
    requires Valid(g) && v in s && IsLive(g, v)
    requires forall u {:trigger HasPredecessor(g, s, u)} | u in s && IsLive(g, u) :: HasPredecessor(g, s, u)
    ensures |p| == n + 1 && IsPath(g, p) && p[n] == v
    decreases n
  {
    if n == 0 {
      p := [v];
    } else {
      assert HasPredecessor(g, s, v);
      var u :| u in s && IsLive(g, u) && ReducedEdge(g, u, v);
      var q := WalkBack(g, s, u, n - 1);
      StepOn(g, q, v);
      p := q + [v];
    }
  }

  lemma RepeatIsCycle(g: Graph, p: seq<nat>)
    requires Valid(g) && IsPath(g, p) && |p| > |g.nodes|
    ensures HasCycle(g)
  {
    if Distinct(p) {
      Pigeonhole(p, |g.nodes|);
      assert false;
    }
    var i, j :| 0 <= i < j < |p| && p[i] == p[j];
    var c := p[i..j + 1];
    forall k | 0 < k < |c| ensures ReducedEdge(g, c[k - 1], c[k]) {
      assert ReducedEdge(g, p[i + k - 1], p[i + k]);
    }
    assert IsCycle(g, c);
  }

  /** Completeness: without removed ids, an acyclic reduced graph has no trap and is accepted. */
  lemma AcyclicAccepted(g: Graph)
    requires Valid(g) && NoneRemoved(g) && !HasCycle(g)
    ensures Accepted(g)
  {
    AcceptedIffNoTrap(g);
    if HasTrap(g) {
      var s :| Trap(g, s);
      forall u | u in s && IsLive(g, u) ensures HasPredecessor(g, s, u) {
        TrapPredecessor(g, s, u);
      }
      var v :| v in s;
      var p := WalkBack(g, s, v, |g.nodes|);
      RepeatIsCycle(g, p);
      assert false;
    }
  }

  ghost predicate Reaches(g: Graph, u: nat, v: nat)
    requires Valid(g)
  {
    exists p :: Connects(g, p, u, v) && |p| > 1
  }

  ghost function Downstream(g: Graph, c: nat): set<nat>
    requires Valid(g)
  {
    set v: nat | v < |g.nodes| && Reaches(g, c, v)
  }

  lemma ReachesLive(g: Graph, u: nat, v: nat)
    requires Valid(g) && Reaches(g, u, v)
    ensures IsLive(g, v)
  {
    var p :| Connects(g, p, u, v) && |p| > 1;
    assert p[|p| - 1] in p;
  }

  lemma ReachesOn(g: Graph, u: nat, p: seq<nat>)
    requires Valid(g) && IsPath(g, p) && Reaches(g, u, p[0])
    ensures Reaches(g, u, p[|p| - 1])
  {
    var q :| Connects(g, q, u, p[0]) && |q| > 1;
    var r := q + p[1..];
    forall i | 0 < i < |r| ensures ReducedEdge(g, r[i - 1], r[i]) {
      if i < |q| {
        assert ReducedEdge(g, q[i - 1], q[i]);
      } else {
        assert ReducedEdge(g, p[i - |q|], p[i - |q| + 1]);
      }
    }
    assert Connects(g, r, u, p[|p| - 1]);
  }

  /** The last step of a path from a node of a cycle starts downstream of that node too. */
  lemma DownstreamPredecessor(g: Graph, c: nat, v: nat) returns (u: nat)
    requires Valid(g) && Reaches(g, c, c) && Reaches(g, c, v)
    ensures Reaches(g, c, u) && ReducedEdge(g, u, v)
  {
    var p :| Connects(g, p, c, v) && |p| > 1;
    var n := |p| - 1;
    u := p[n - 1];
    assert ReducedEdge(g, p[n - 1], p[n]);
    ReachesOn(g, c, p[..n]);
  }

  /** A while loop that is entered from outside what depends on c. */
  ghost predicate EntersBelow(g: Graph, c: nat, e: nat)
    requires Valid(g)
  {
    e < |g.edges| && IsBack(g, e) && Reaches(g, c, g.edges[e].dst) && !Reaches(g, c, g.edges[e].src)
  }

  lemma DownstreamOutnumbers(g: Graph, c: nat, v: nat)
    requires Valid(g) && Reaches(g, c, c) && v in Downstream(g, c)
    requires forall e: nat :: !EntersBelow(g, c, e)
    ensures |FromIn(g, Downstream(g, c), v)| > |BackIn(g, v)|
  {
    var s := Downstream(g, c);
    var u := DownstreamPredecessor(g, c, v);
    ReachesLive(g, c, u);
    var e :| 0 <= e < |g.edges| && !IsBack(g, e) && g.edges[e].src == u && g.edges[e].dst == v;
    forall b | b in BackIn(g, v) ensures b in FromIn(g, s, v) {
      assert !EntersBelow(g, c, b);
      ReachesLive(g, c, g.edges[b].src);
    }
    SubsetSize(BackIn(g, v) + {e}, FromIn(g, s, v));
  }

  /** What depends on a cycle is a trap unless a while loop is entered below it from elsewhere. */
  lemma DownstreamIsTrap(g: Graph, c: nat)
    requires Valid(g) && Reaches(g, c, c) && forall e: nat :: !EntersBelow(g, c, e)
    ensures Trap(g, Downstream(g, c))
  {
    ReachesLive(g, c, c);
    assert c in Downstream(g, c);
    forall v | v in Downstream(g, c) ensures |FromIn(g, Downstream(g, c), v)| > |BackIn(g, v)| {
      DownstreamOutnumbers(g, c, v);
    }
  }

  /** How a cycle gets past the check: a NextIteration that does not depend on it feeds a Merge that does. */
  lemma HiddenCycleIsEntered(g: Graph, p: seq<nat>) returns (e: nat)
    requires Valid(g) && Accepted(g) && IsCycle(g, p)
    ensures EntersBelow(g, p[0], e)
  {
    AcceptedIffNoTrap(g);
    assert Connects(g, p, p[0], p[0]);
    if forall e: nat :: !EntersBelow(g, p[0], e) {
      DownstreamIsTrap(g, p[0]);
      assert false;
    }
    e :| EntersBelow(g, p[0], e);
  }

  /** Soundness: with closed loops, an accepted graph has no cycle once back edges are deleted. */
  lemma AcceptedAcyclic(g: Graph)
    requires Valid(g) && LoopsClosed(g) && Accepted(g)
    ensures !HasCycle(g)
  {
    forall p | IsCycle(g, p) ensures false {
      var e := HiddenCycleIsEntered(g, p);
      var q :| Connects(g, q, g.edges[e].dst, g.edges[e].src);
      ReachesOn(g, p[0], q);
    }
  }

  /** Both directions: for closed loops, acceptance is absence of removed ids and of cycles. */
  lemma AcceptedIffAcyclic(g: Graph)
    requires Valid(g) && LoopsClosed(g)
    ensures Accepted(g) <==> NoneRemoved(g) && !HasCycle(g)
  {
    if Accepted(g) {
      AcceptedAcyclic(g);
    }
    if !NoneRemoved(g) {
      RemovedIdRejected(g);
    } else if !HasCycle(g) {
      AcyclicAccepted(g);
    }
  }

  /** The check is right about a graph: it accepts it exactly when no id is removed and there is no cycle. */
  ghost predicate JudgedRight(g: Graph)
    requires Valid(g)
  {
    Accepted(g) <==> NoneRemoved(g) && !HasCycle(g)
  }

  /** Exactly when the check is right, open loops or not: unless there is a cycle and yet no trap. */
  lemma JudgedRightIff(g: Graph)
    requires Valid(g)
    ensures JudgedRight(g) <==> (HasCycle(g) ==> HasTrap(g))
    ensures Accepted(g) && HasCycle(g) <==> !JudgedRight(g)
  {
    AcceptedIffNoTrap(g);
    if !NoneRemoved(g) {
      RemovedIdRejected(g);
    } else if !HasCycle(g) {
      AcyclicAccepted(g);
    }
  }

  /** A NextIteration that does not depend on its Merge, and a cycle through the Merge. */
  function OpenLoop(): Graph {
    Graph([Live(Merge), Live(NextIteration), Live(Other)],
          [Edge(1, 0, false), Edge(2, 0, false), Edge(0, 2, false)])
  }

  lemma OpenLoopHasCycle()
    ensures Valid(OpenLoop()) && HasCycle(OpenLoop())
  {
    var g := OpenLoop();
    assert ReducedEdge(g, 0, 2) by {
      assert !IsBack(g, 2);
    }
    assert ReducedEdge(g, 2, 0) by {
      assert !IsBack(g, 1);
    }
    assert IsCycle(g, [0, 2, 0]);
  }

  lemma OpenLoopCounts()
    ensures var g := OpenLoop(); Valid(g) && Needed(g, 0) == 1 && Needed(g, 1) == 0 && Needed(g, 2) == 1
  {
    var g := OpenLoop();
    assert In(g, 0) == {0, 1} && In(g, 1) == {} && In(g, 2) == {2};
    assert BackIn(g, 0) == {0} && BackIn(g, 1) == {} && BackIn(g, 2) == {};
  }

  lemma OpenLoopReleases()
    ensures var g := OpenLoop(); Valid(g) && Released(g, [], 1) && Released(g, [1], 0) && Released(g, [1, 0], 2)
  {
    OpenLoopCounts();
    assert 0 in SeenIn(OpenLoop(), [1], 0) && 2 in SeenIn(OpenLoop(), [1, 0], 2);
  }

  /** The hypothesis matters: the open loop has a cycle and is accepted. */
  lemma OpenLoopHidesCycle()
    ensures Valid(OpenLoop()) && NoneRemoved(OpenLoop()) && HasCycle(OpenLoop()) && Accepted(OpenLoop())
  {
    OpenLoopHasCycle();
    OpenLoopReleases();
    var order := [1, 0, 2];
    assert order[..0] == [] && order[..1] == [1] && order[..2] == [1, 0];
    assert Complete(OpenLoop(), order);
  }

  /** A while loop that goes round, and a cycle elsewhere. */
  function LoopAndCycle(): Graph {
    Graph([Live(Merge), Live(NextIteration), Live(Other), Live(Other)],
          [Edge(0, 1, false), Edge(1, 0, false), Edge(2, 3, false), Edge(3, 2, false)])
  }

  lemma LoopAndCycleCounts()
    ensures var g := LoopAndCycle(); Valid(g) && Needed(g, 0) == 0 && Needed(g, 1) == 1
    ensures var g := LoopAndCycle(); forall u: nat :: !ReducedEdge(g, u, 0)
  {
    var g := LoopAndCycle();
    assert In(g, 0) == {1} && In(g, 1) == {0};
    assert BackIn(g, 0) == {1} && BackIn(g, 1) == {};
  }

  lemma NoMergeNoBack(g: Graph, v: nat)
    requires Valid(g) && IsLive(g, v) && !g.nodes[v].kind.Merge?
    ensures |BackIn(g, v)| == 0
  {
    assert BackIn(g, v) == {};
  }

  lemma EdgeFromWithin(g: Graph, s: set<nat>, e: nat)
    requires e < |g.edges| && g.edges[e].src in s
    ensures |FromIn(g, s, g.edges[e].dst)| > 0
  {
    assert e in FromIn(g, s, g.edges[e].dst);
  }

  lemma PairIsTrap(g: Graph, a: nat, b: nat)
    requires Valid(g) && a < |g.nodes| && b < |g.nodes|
    requires |FromIn(g, {a, b}, a)| > |BackIn(g, a)| && |FromIn(g, {a, b}, b)| > |BackIn(g, b)|
    ensures HasTrap(g)
  {
    assert a in {a, b};
    assert Trap(g, {a, b});
  }

  lemma LoopAndCycleRejected()
    ensures Valid(LoopAndCycle()) && !Accepted(LoopAndCycle())
  {
    var g, s := LoopAndCycle(), {2, 3};
    NoMergeNoBack(g, 2);
    NoMergeNoBack(g, 3);
    EdgeFromWithin(g, s, 3);
    EdgeFromWithin(g, s, 2);
    PairIsTrap(g, 2, 3);
    AcceptedIffNoTrap(g);
  }

  lemma LoopComesRound(visited: seq<nat>)
    requires Valid(LoopAndCycle()) && Exhausted(LoopAndCycle(), visited)
    ensures 0 in visited && 1 in visited
  {
    var g := LoopAndCycle();
    LoopAndCycleCounts();
    assert Released(g, visited, 0);
    assert 0 in SeenIn(g, visited, 1);
    assert Released(g, visited, 1);
  }

  lemma MergeBelowZero(visited: seq<nat>)
    requires Valid(LoopAndCycle()) && 1 in visited
    ensures |Balances(LoopAndCycle(), visited)| == 4 && Balances(LoopAndCycle(), visited)[0] < 0
  {
    LoopAndCycleCounts();
    assert 1 in SeenIn(LoopAndCycle(), visited, 0);
  }

  /**
   The error message can name a node that is in no cycle: the Merge of a legal while loop, which no
   edge but its own loop's leads into, is reported because its counter has gone below zero.
   */
  lemma LegalMergeIsReported(visited: seq<nat>, reported: seq<nat>)
    requires Valid(LoopAndCycle()) && Reports(LoopAndCycle(), visited, reported)
    ensures 0 in reported && forall u: nat :: !ReducedEdge(LoopAndCycle(), u, 0)
    ensures !Accepted(LoopAndCycle())
  {
    LoopAndCycleRejected();
    var g := LoopAndCycle();
    LoopAndCycleCounts();
    LoopComesRound(visited);
    MergeBelowZero(visited);
    NonzeroFirst(Balances(g, visited));
  }

  lemma NonzeroFirst(pending: seq<int>)
    requires |pending| > 0 && pending[0] != 0
    ensures 0 in FirstThree(Nonzero(pending))
  {
    assert pending[..1] == [pending[0]];
    assert Nonzero([pending[0]]) == [0];
    NonzeroPrefix(pending, 1);
  }
}
