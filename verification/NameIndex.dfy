/** The name index of a TF_Graph (name_map in c_api.cc), and iteration over its operations. */
module NameIndex {
  import opened Basics

  /** The node with a given id: an op, the source or sink, or the hole of a removed node. */
  datatype Slot = OpNode(name: string) | Sentinel | Removed

  predicate IsOp(nodes: seq<Slot>, id: nat) {
    id < |nodes| && nodes[id].OpNode?
  }

  /** The ids of the live ops in [from, |nodes|), in order. */
  function LiveOps(nodes: seq<Slot>, from: nat): seq<nat>
    decreases |nodes| - from
  {
    if from >= |nodes| then []
    else (if nodes[from].OpNode? then [from] else []) + LiveOps(nodes, from + 1)
  }

  lemma {:induction false} LiveOpsExact(nodes: seq<Slot>, from: nat)
    ensures forall id: nat :: id in LiveOps(nodes, from) <==> from <= id && IsOp(nodes, id)
    ensures Ascending(LiveOps(nodes, from))
    decreases |nodes| - from
  {
    if from < |nodes| {
      LiveOpsExact(nodes, from + 1);
      var rest := LiveOps(nodes, from + 1);
      assert forall i | 0 <= i < |rest| :: rest[i] in rest;
    }
  }

  lemma {:induction false} LiveOpsAppend(nodes: seq<Slot>, slot: Slot, from: nat)
    ensures LiveOps(nodes + [slot], from)
            == LiveOps(nodes, from) + if slot.OpNode? && from <= |nodes| then [|nodes|] else []
    decreases |nodes| - from
  {
    if from < |nodes| {
      LiveOpsAppend(nodes, slot, from + 1);
    } else if from == |nodes| {
      assert LiveOps(nodes + [slot], from + 1) == [];
    }
  }

  /** The index holds exactly the live ops, each under its own name. */
  ghost predicate Agrees(nodes: seq<Slot>, nameMap: map<string, nat>) {
    && (forall n | n in nameMap :: nameMap[n] < |nodes| && nodes[nameMap[n]] == OpNode(n))
    && (forall id | 0 <= id < |nodes| && nodes[id].OpNode? ::
          nodes[id].name in nameMap && nameMap[nodes[id].name] == id)
  }

  /** What the library is taken to add: ops under fresh, distinct names, and perhaps removed ids. */
  ghost predicate FreshNames(nodes: seq<Slot>, added: seq<Slot>) {
    && (forall k | 0 <= k < |added| :: !added[k].Sentinel?)
    && (forall k, id | 0 <= k < |added| && added[k].OpNode? && 0 <= id < |nodes| :: nodes[id] != added[k])
    && (forall j, k | 0 <= j < k < |added| && added[j].OpNode? :: added[j] != added[k])
  }

  /** The index after the nodes in [first, upTo) have been entered. */
  function Registered(nodes: seq<Slot>, nameMap: map<string, nat>, first: nat, upTo: nat): map<string, nat>
    requires upTo <= |nodes|
  {
    if upTo <= first then nameMap
    else
      var m := Registered(nodes, nameMap, first, upTo - 1);
      if nodes[upTo - 1].OpNode? then m[nodes[upTo - 1].name := upTo - 1] else m
  }

  lemma AgreesStep(nodes: seq<Slot>, nameMap: map<string, nat>, slot: Slot)
    requires Agrees(nodes, nameMap) && !slot.Sentinel?
    requires slot.OpNode? ==> forall j | 0 <= j < |nodes| :: nodes[j] != slot
    ensures Agrees(nodes + [slot], if slot.OpNode? then nameMap[slot.name := |nodes|] else nameMap)
  {
  }

  /** Entering freshly named nodes keeps the index in agreement with the graph. */
  lemma {:induction false} RegisteredAgrees(nodes: seq<Slot>, nameMap: map<string, nat>, added: seq<Slot>, k: nat)
    requires Agrees(nodes, nameMap) && FreshNames(nodes, added) && k <= |added|
    ensures Agrees((nodes + added)[..|nodes| + k], Registered(nodes + added, nameMap, |nodes|, |nodes| + k))
  {
    var all := nodes + added;
    if k == 0 {
      assert all[..|nodes|] == nodes;
    } else {
      RegisteredAgrees(nodes, nameMap, added, k - 1);
      var id := |nodes| + k - 1;
      assert all[id] == added[k - 1];
      assert all[..id + 1] == all[..id] + [all[id]];
      forall j | 0 <= j < id && all[id].OpNode? ensures all[..id][j] != all[id] {
        assert all[..id][j] == if j < |nodes| then nodes[j] else added[j - |nodes|];
      }
      AgreesStep(all[..id], Registered(all, nameMap, |nodes|, id), all[id]);
    }
  }

  /** Names identify live ops. */
  lemma NamesUnique(nodes: seq<Slot>, nameMap: map<string, nat>, i: nat, j: nat)
    requires Agrees(nodes, nameMap) && IsOp(nodes, i) && IsOp(nodes, j) && nodes[i].name == nodes[j].name
    ensures i == j
  {
    assert nameMap[nodes[i].name] == i && nameMap[nodes[j].name] == j;
  }

  /** Every live op is found under its name. */
  lemma FoundByName(nodes: seq<Slot>, nameMap: map<string, nat>)
    requires Agrees(nodes, nameMap)
    ensures var ops := LiveOps(nodes, 0);
            forall k | 0 <= k < |ops| ::
              IsOp(nodes, ops[k]) && nodes[ops[k]].name in nameMap && nameMap[nodes[ops[k]].name] == ops[k]
  {
    LiveOpsExact(nodes, 0);
    assert forall k | 0 <= k < |LiveOps(nodes, 0)| :: LiveOps(nodes, 0)[k] in LiveOps(nodes, 0);
  }

  lemma SkipSentinels(nodes: seq<Slot>)
    requires 2 <= |nodes| && nodes[0].Sentinel? && nodes[1].Sentinel?
    ensures LiveOps(nodes, 0) == LiveOps(nodes, 2)
  {
    assert LiveOps(nodes, 0) == LiveOps(nodes, 1);
  }

  class TFGraph {
    var nodes: seq<Slot>
    var nameMap: map<string, nat>

    ghost predicate Valid()
      reads this
    {
      && 2 <= |nodes| && nodes[0].Sentinel? && nodes[1].Sentinel?
      && (forall id | 2 <= id < |nodes| :: !nodes[id].Sentinel?)
      && Agrees(nodes, nameMap)
    }

    constructor ()
      ensures Valid() && LiveOps(nodes, 0) == [] && nameMap == map[]
    {
      nodes, nameMap := [Sentinel, Sentinel], map[];
      new;
      LiveOpsExact(nodes, 0);
      assert forall id: nat :: !IsOp(nodes, id);
      assert forall i | 0 <= i < |LiveOps(nodes, 0)| :: LiveOps(nodes, 0)[i] in LiveOps(nodes, 0);
    }

    /**
     TF_FinishOperation. `built` and `inferred` are what NodeBuilder::Finalize and the shape
     refiner report. On failure neither the live ops nor the index change.
     */
    method FinishOperation(name: string, built: bool, inferred: bool) returns (op: Option<nat>)
      requires Valid()
      modifies this
      ensures Valid()
      ensures op.Some? <==> name !in old(nameMap) && built && inferred
      ensures op.Some? ==> op.value == |old(nodes)| && nodes == old(nodes) + [OpNode(name)]
      ensures op.Some? ==> nameMap == old(nameMap)[name := op.value]
      ensures op.None? ==> LiveOps(nodes, 0) == old(LiveOps(nodes, 0)) && nameMap == old(nameMap)
      ensures nodes == old(nodes) || exists slot :: nodes == old(nodes) + [slot]
    {
      op := None;
      if name in nameMap {
        return;
      }
      if !built {
        return;
      }
      var id := |nodes|;
      nodes := nodes + [OpNode(name)];
      if inferred {
        nameMap := nameMap[name := id];
        op := Some(id);
      } else {
        nodes := nodes[id := Removed];
        assert nodes == old(nodes) + [Removed];
        LiveOpsAppend(old(nodes), Removed, 0);
      }
    }

    /** The loop that enters every node from id `first` on, skipping removed ids. */
    method Register(first: nat)
      requires first <= |nodes|
      requires forall id | first <= id < |nodes| :: !nodes[id].Sentinel?
      modifies this`nameMap
      ensures nameMap == Registered(nodes, old(nameMap), first, |nodes|)
    {
      for i := first to |nodes|
        invariant nameMap == Registered(nodes, old(nameMap), first, i)
      {
        if !nodes[i].Removed? {
          nameMap := nameMap[nodes[i].name := i];
        }
      }
    }

    /**
     While loops and gradients: the library adds nodes and, even when it fails, whatever it added
     is entered.
     */
    method AddSubgraph(added: seq<Slot>)
      requires Valid() && FreshNames(nodes, added)
      modifies this
      ensures Valid() && nodes == old(nodes) + added
    {
      var first := |nodes|;
      nodes := nodes + added;
      Register(first);
      RegisteredAgrees(old(nodes), old(nameMap), added, |added|);
      assert nodes[..|nodes|] == nodes;
    }

    /** Import: entered only on success; a failed import leaves no op behind. */
    method ImportGraphDef(added: seq<Slot>, ok: bool)
      requires Valid() && FreshNames(nodes, added)
      requires !ok ==> forall k | 0 <= k < |added| :: added[k].Removed?
      modifies this
      ensures Valid() && nodes == old(nodes) + added
      ensures !ok ==> nameMap == old(nameMap)
    {
      var first := |nodes|;
      nodes := nodes + added;
      if !ok {
        return;
      }
      Register(first);
      RegisteredAgrees(old(nodes), old(nameMap), added, |added|);
      assert nodes[..|nodes|] == nodes;
    }

    method OperationByName(name: string) returns (op: Option<nat>)
      requires Valid()
      ensures op.Some? ==> IsOp(nodes, op.value) && nodes[op.value].name == name
      ensures op.None? ==> forall id: nat | IsOp(nodes, id) :: nodes[id].name != name
    {
      return if name in nameMap then Some(nameMap[name]) else None;
    }

    /** TF_GraphNextOperation: position 0 means before the first op. */
    method NextOperation(pos: nat) returns (op: Option<nat>, next: nat)
      requires Valid()
      ensures var start := if pos == 0 then 2 else pos + 1;
              && next >= start
              && LiveOps(nodes, start) == (if op.Some? then [op.value] + LiveOps(nodes, next + 1) else [])
              && (op.Some? ==> op.value == next && next < |nodes|)
    {
      next := if pos == 0 then pos + 2 else pos + 1;
      ghost var start := next;
      while next < |nodes|
        invariant start <= next
        invariant LiveOps(nodes, start) == LiveOps(nodes, next)
      {
        if !nodes[next].Removed? {
          return Some(next), next;
        }
        next := next + 1;
      }
      return None, next;
    }

    /** A client's loop: it visits each live op once, in id order, and lookup by name agrees. */
    method AllOperations() returns (ops: seq<nat>)
      requires Valid()
      ensures ops == LiveOps(nodes, 0)
      ensures forall k | 0 <= k < |ops| ::
                IsOp(nodes, ops[k]) && nodes[ops[k]].name in nameMap && nameMap[nodes[ops[k]].name] == ops[k]
    {
      ops := [];
      var op, pos := NextOperation(0);
      ghost var left := LiveOps(nodes, 2);
      while op.Some?
        invariant op.Some? ==> op.value == pos < |nodes|
        invariant pos >= 2
        invariant left == if op.Some? then [op.value] + LiveOps(nodes, pos + 1) else []
        invariant LiveOps(nodes, 2) == ops + left
        decreases |nodes| - pos
      {
        MoveFirst(LiveOps(nodes, 2), ops, op.value, LiveOps(nodes, pos + 1));
        ops := ops + [op.value];
        left := LiveOps(nodes, pos + 1);
        op, pos := NextOperation(pos);
      }
      SkipSentinels(nodes);
      FoundByName(nodes, nameMap);
    }
  }
}
