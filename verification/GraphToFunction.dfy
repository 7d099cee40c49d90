/** The C API entry point TF_GraphToFunction: checking the caller's arguments before converting. */
module GraphToFunction {
  import opened Basics
  import opened FunctionModel
  import opened FunctionCompiler
  import opened FunctionMeaning

  /** A TF_Output as the caller passes it: any operation, any index. */
  datatype Output = Output(oper: NodeId, index: int)

  /** Reference types are the plain types shifted by 100. */
  const REF_OFFSET := 100

  /**
   IsValidOutputTensor and ValidateNonRefOutput: None when the output can be used. A negative index
   passes the first, which only compares with the number of outputs.
   */
  function Problem(g: Graph, o: Output): (p: Option<Error>)
    ensures p == None <==> Usable(g, o)
    ensures p == Some(OutsideTypes) ==> o.index < 0
    ensures p == Some(InvalidTensor) ==> o.oper !in g.nodes || o.index >= |g.nodes[o.oper].op.types|
    ensures p == Some(ReferenceOutput) ==> o.oper in g.nodes && 0 <= o.index < |g.nodes[o.oper].op.types|
  {
    if o.oper !in g.nodes || o.index >= |g.nodes[o.oper].op.types| then Some(InvalidTensor)
    else if o.index < 0 then Some(OutsideTypes)
    else if g.nodes[o.oper].op.types[o.index] > REF_OFFSET then Some(ReferenceOutput)
    else None
  }

  /** A plain (not a reference) output that the node has. */
  predicate Usable(g: Graph, o: Output) {
    o.oper in g.nodes && 0 <= o.index < |g.nodes[o.oper].op.types| && g.nodes[o.oper].op.types[o.index] <= 100
  }

  function TensorOf(o: Output): Tensor {
    Tensor(o.oper, if o.index >= 0 then o.index else 0)
  }

  function TensorsOf(os: seq<Output>): (ts: seq<Tensor>)
    ensures |ts| == |os| && forall i | 0 <= i < |os| :: ts[i] == TensorOf(os[i])
  {
    seq(|os|, i requires 0 <= i < |os| => TensorOf(os[i]))
  }

  ghost predicate AllUsable(g: Graph, os: seq<Output>) {
    forall i | 0 <= i < |os| :: Usable(g, os[i])
  }

  /** The input indices grouped by node, with no empty group. */
  ghost predicate Groups(inputNodes: map<NodeId, seq<nat>>, ts: seq<Tensor>) {
    && (forall n | n in inputNodes :: inputNodes[n] != [])
    && (forall n: NodeId, x: nat :: n in inputNodes && x in inputNodes[n] <==> Tensor(n, x) in ts)
  }

  function AddToGroup(inputNodes: map<NodeId, seq<nat>>, t: Tensor): map<NodeId, seq<nat>> {
    inputNodes[t.node := if t.node in inputNodes then inputNodes[t.node] + [t.index] else [t.index]]
  }

  lemma GroupsGrow(inputNodes: map<NodeId, seq<nat>>, ts: seq<Tensor>, t: Tensor)
    requires Groups(inputNodes, ts)
    ensures Groups(AddToGroup(inputNodes, t), ts + [t])
  {
    var grown := AddToGroup(inputNodes, t);
    forall n: NodeId, x: nat
      ensures n in grown && x in grown[n] <==> Tensor(n, x) in ts + [t]
    {
      assert n in inputNodes && x in inputNodes[n] <==> Tensor(n, x) in ts;
    }
  }

  function NodesOf(ts: seq<Tensor>): set<NodeId> {
    set t | t in ts :: t.node
  }

  lemma GroupedNodes(inputNodes: map<NodeId, seq<nat>>, ts: seq<Tensor>)
    requires Groups(inputNodes, ts)
    ensures inputNodes.Keys == NodesOf(ts)
  {
    forall n | n in inputNodes ensures n in NodesOf(ts) {
      assert inputNodes[n][0] in inputNodes[n];
      assert Tensor(n, inputNodes[n][0]) in ts;
    }
    forall t | t in ts ensures t.node in inputNodes {
      assert Tensor(t.node, t.index) in ts;
    }
  }

  /** Output i is the first with a problem, and this is what is reported about it. */
  ghost predicate FirstProblem(g: Graph, os: seq<Output>, i: nat, error: Error) {
    i < |os| && (forall k | 0 <= k < i :: Usable(g, os[k])) && Problem(g, os[i]) == Some(error)
  }

  /** Output i is the first to appear again. */
  ghost predicate FirstRepeat(g: Graph, os: seq<Output>, i: nat) {
    i < |os| && (forall k | 0 <= k <= i :: Usable(g, os[k])) && os[i] in os[..i] && Distinct(os[..i])
  }

  lemma DistinctTensors(g: Graph, os: seq<Output>)
    requires AllUsable(g, os)
    ensures Distinct(TensorsOf(os)) <==> Distinct(os)
  {
    assert forall i | 0 <= i < |os| :: os[i].index >= 0;
    forall i, j | 0 <= i < j < |os| ensures TensorOf(os[i]) == TensorOf(os[j]) <==> os[i] == os[j] {
    }
  }

  /** The first i outputs have been taken in. */
  ghost predicate TakenIn(g: Graph, os: seq<Output>, i: nat, ts: seq<Tensor>) {
    i <= |os| && ts == TensorsOf(os[..i]) && AllUsable(g, os[..i])
  }

  lemma TakenInStep(g: Graph, os: seq<Output>, i: nat, ts: seq<Tensor>)
    requires TakenIn(g, os, i, ts) && i < |os| && Usable(g, os[i])
    ensures TakenIn(g, os, i + 1, ts + [TensorOf(os[i])])
  {
    assert os[..i + 1] == os[..i] + [os[i]];
  }

  lemma RepeatedTensor(g: Graph, os: seq<Output>, i: nat, ts: seq<Tensor>)
    requires TakenIn(g, os, i, ts) && i < |os| && Usable(g, os[i])
    ensures TensorOf(os[i]) in ts <==> os[i] in os[..i]
  {
    if TensorOf(os[i]) in ts {
      var k :| 0 <= k < i && ts[k] == TensorOf(os[i]);
      assert Usable(g, os[..i][k]) && os[..i][k] == os[i];
    }
    if os[i] in os[..i] {
      var k :| 0 <= k < i && os[..i][k] == os[i];
      assert ts[k] == TensorOf(os[i]);
    }
  }

  /** Also groups the input indices by node; a repeated (node, index) pair is an error. */
  method ProcessInputs(g: Graph, os: seq<Output>)
    returns (r: Result<seq<Tensor>>, inputNodes: map<NodeId, seq<nat>>)
    ensures r.Ok? <==> AllUsable(g, os) && Distinct(os)
    ensures r.Ok? ==> r.value == TensorsOf(os) && Distinct(r.value) && Groups(inputNodes, r.value)
    ensures r.Err? ==> exists i: nat ::
              FirstProblem(g, os, i, r.error) || (r.error == RepeatedInput && FirstRepeat(g, os, i))
  {
    var ts: seq<Tensor> := [];
    inputNodes := map[];
    for i := 0 to |os|
      invariant TakenIn(g, os, i, ts) && Groups(inputNodes, ts) && Distinct(ts)
    {
      var o := os[i];
      var problem := Problem(g, o);
      assert forall k | 0 <= k < i :: os[k] == os[..i][k];
      if problem.Some? {
        assert FirstProblem(g, os, i, problem.value);
        return Err(problem.value), inputNodes;
      }
      var t := TensorOf(o);
      RepeatedTensor(g, os, i, ts);
      DistinctTensors(g, os[..i]);
      if o.oper in inputNodes && o.index in inputNodes[o.oper] {
        assert t in ts && FirstRepeat(g, os, i);
        return Err(RepeatedInput), inputNodes;
      }
      assert t !in ts;
      GroupsGrow(inputNodes, ts, t);
      inputNodes := AddToGroup(inputNodes, t);
      TakenInStep(g, os, i, ts);
      ts := ts + [t];
    }
    assert os[..|os|] == os;
    DistinctTensors(g, os);
    return Ok(ts), inputNodes;
  }

  method ProcessOutputs(g: Graph, os: seq<Output>) returns (r: Result<seq<Tensor>>)
    ensures r.Ok? <==> AllUsable(g, os)
    ensures r.Ok? ==> r.value == TensorsOf(os)
    ensures r.Err? ==> exists i: nat :: FirstProblem(g, os, i, r.error)
  {
    var ts: seq<Tensor> := [];
    for i := 0 to |os|
      invariant TakenIn(g, os, i, ts)
    {
      var problem := Problem(g, os[i]);
      assert forall k | 0 <= k < i :: os[k] == os[..i][k];
      if problem.Some? {
        assert FirstProblem(g, os, i, problem.value);
        return Err(problem.value);
      }
      TakenInStep(g, os, i, ts);
      ts := ts + [TensorOf(os[i])];
    }
    assert os[..|os|] == os;
    return Ok(ts);
  }

  // ---- The body --------------------------------------------------------------------------------------

  /** The ops that are not among the fed nodes, in order. */
  function Unfed(ops: seq<NodeId>, fed: set<NodeId>): seq<NodeId> {
    if ops == [] then []
    else
      var last := ops[|ops| - 1];
      Unfed(ops[..|ops| - 1], fed) + if last in fed then [] else [last]
  }

  lemma {:induction false} UnfedExact(ops: seq<NodeId>, fed: set<NodeId>)
    ensures forall n :: n in Unfed(ops, fed) <==> n in ops && n !in fed
    ensures Distinct(ops) ==> Distinct(Unfed(ops, fed))
  {
    if ops != [] {
      var front, last := ops[..|ops| - 1], ops[|ops| - 1];
      UnfedExact(front, fed);
      assert forall n :: n in ops <==> n in front || n == last;
      if Distinct(ops) {
        assert last !in front;
        assert last !in Unfed(front, fed);
      }
    }
  }

  /** Body nodes when no list of operations is given: fed nodes must have a single output. */
  ghost predicate SingleOutputs(g: Graph, fed: set<NodeId>)
    requires forall n | n in g.ops :: n in g.nodes
  {
    forall k | 0 <= k < |g.ops| && g.ops[k] in fed :: |g.nodes[g.ops[k]].op.types| == 1
  }

  function BodyOf(g: Graph, opers: Option<seq<NodeId>>, fed: set<NodeId>): seq<NodeId> {
    if opers.Some? then opers.value else Unfed(g.ops, fed)
  }

  /** With no list of operations, the body is every op that no input refers to. */
  method ComputeBodyNodes(g: Graph, opers: Option<seq<NodeId>>, inputNodes: map<NodeId, seq<nat>>)
    returns (r: Result<seq<NodeId>>)
    requires forall n | n in g.ops :: n in g.nodes
    ensures r.Ok? <==> opers.Some? || SingleOutputs(g, inputNodes.Keys)
    ensures r.Ok? ==> r.value == BodyOf(g, opers, inputNodes.Keys)
    ensures r.Err? ==> r.error == MultipleOutputs
  {
    if opers.Some? {
      return Ok(opers.value);
    }
    var body: seq<NodeId> := [];
    for i := 0 to |g.ops|
      invariant body == Unfed(g.ops[..i], inputNodes.Keys)
      invariant forall k | 0 <= k < i && g.ops[k] in inputNodes :: |g.nodes[g.ops[k]].op.types| == 1
    {
      var node := g.ops[i];
      assert g.ops[..i + 1][..i] == g.ops[..i];
      if node !in inputNodes {
        body := body + [node];
      } else if |g.nodes[node].op.types| != 1 {
        return Err(MultipleOutputs);
      }
    }
    assert g.ops[..|g.ops|] == g.ops;
    return Ok(body);
  }

  // ---- The whole call --------------------------------------------------------------------------------

  /** The arguments pass all checks made before the conversion. */
  ghost predicate Passes(g: Graph, opers: Option<seq<NodeId>>, inputs: seq<Output>, outputs: seq<Output>)
    requires forall n | n in g.ops :: n in g.nodes
  {
    && AllUsable(g, inputs) && Distinct(inputs) && AllUsable(g, outputs)
    && (opers.Some? || SingleOutputs(g, NodesOf(TensorsOf(inputs))))
  }

  lemma PassesValid(g: Graph, opers: Option<seq<NodeId>>, inputs: seq<Output>, outputs: seq<Output>,
                    outputNames: seq<string>)
    requires EdgesInGraph(g) && (forall n | n in g.ops :: n in g.nodes)
    requires opers.Some? ==> forall n | n in opers.value :: n in g.nodes
    requires outputNames == [] || |outputNames| == |outputs|
    requires AllUsable(g, inputs) && AllUsable(g, outputs)
    ensures ValidCall(g, BodyOf(g, opers, NodesOf(TensorsOf(inputs))), TensorsOf(inputs), TensorsOf(outputs), outputNames)
  {
    UnfedExact(g.ops, NodesOf(TensorsOf(inputs)));
    UsableValid(g, inputs);
    UsableValid(g, outputs);
  }

  lemma UsableValid(g: Graph, os: seq<Output>)
    requires AllUsable(g, os)
    ensures forall t | t in TensorsOf(os) :: ValidTensor(g, t)
  {
    forall t | t in TensorsOf(os) ensures ValidTensor(g, t) {
      var i :| 0 <= i < |os| && TensorsOf(os)[i] == t;
      assert Usable(g, os[i]);
    }
  }

  /** Arguments that pass are converted, with the conversion's own result; others are refused. */
  method TFGraphToFunction(g: Graph, opers: Option<seq<NodeId>>, inputs: seq<Output>, outputs: seq<Output>,
                           outputNames: seq<string>)
    returns (r: Result<FunctionDef>)
    requires EdgesInGraph(g) && forall n | n in g.ops :: n in g.nodes
    requires opers.Some? ==> forall n | n in opers.value :: n in g.nodes
    requires outputNames == [] || |outputNames| == |outputs|
    ensures !Passes(g, opers, inputs, outputs) ==> r.Err?
    ensures AllUsable(g, inputs) && AllUsable(g, outputs) ==>
              ValidCall(g, BodyOf(g, opers, NodesOf(TensorsOf(inputs))), TensorsOf(inputs), TensorsOf(outputs), outputNames)
    ensures Passes(g, opers, inputs, outputs) ==>
              r == Convert(g, BodyOf(g, opers, NodesOf(TensorsOf(inputs))), TensorsOf(inputs), TensorsOf(outputs), outputNames)
  {
    if AllUsable(g, inputs) && AllUsable(g, outputs) {
      PassesValid(g, opers, inputs, outputs, outputNames);
    }
    var inputTensors, inputNodes := ProcessInputs(g, inputs);
    if inputTensors.Err? {
      return Err(inputTensors.error);
    }
    var outputTensors := ProcessOutputs(g, outputs);
    if outputTensors.Err? {
      return Err(outputTensors.error);
    }
    GroupedNodes(inputNodes, inputTensors.value);
    var bodyNodes := ComputeBodyNodes(g, opers, inputNodes);
    if bodyNodes.Err? {
      return Err(bodyNodes.error);
    }
    r := GraphToFunctionDef(g, bodyNodes.value, inputTensors.value, outputTensors.value, outputNames);
  }

  /** Exactly when a call on a well-formed graph succeeds. */
  lemma SucceedsIff(g: Graph, opers: Option<seq<NodeId>>, inputs: seq<Output>, outputs: seq<Output>,
                    outputNames: seq<string>)
    requires (forall n | n in g.ops :: n in g.nodes) && Passes(g, opers, inputs, outputs)
    requires var body := BodyOf(g, opers, NodesOf(TensorsOf(inputs)));
             ValidCall(g, body, TensorsOf(inputs), TensorsOf(outputs), outputNames) && WellFormed(g, body)
    ensures var body, ins, outs := BodyOf(g, opers, NodesOf(TensorsOf(inputs))), TensorsOf(inputs), TensorsOf(outputs);
            Convert(g, body, ins, outs, outputNames).Ok?
            <==> && Distinct(outputNames) && HaveRanges(g, body)
                 && (forall b | b in body :: NodeInputsAvailable(g, body, ins, g.nodes[b]))
                 && (forall t | t in outs :: Available(g, body, ins, t))
  {
    DistinctTensors(g, inputs);
    ConvertsIff(g, BodyOf(g, opers, NodesOf(TensorsOf(inputs))), TensorsOf(inputs), TensorsOf(outputs), outputNames);
  }
}
