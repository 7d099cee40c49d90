/**
 Graphs, function definitions, and what the conversion of one into the other computes, as
 functions. FunctionCompiler.dfy proves the loops of c_api_function.cc equal to these
 functions; FunctionMeaning.dfy proves what they promise.
 */
module FunctionModel {
  import opened Basics
  import opened Text
  import opened NodeNames

  datatype Error =
    | DuplicateOutputName
    | BadOutputRanges
    | MissingInputEdge
    | UnavailableInput
    | ControlSourceOutsideBody
    | UnavailableOutput
    | InvalidTensor
    | ReferenceOutput
    | OutsideTypes  // not an error of the source: it would read outside the node's output types
    | RepeatedInput
    | MultipleOutputs

  datatype Result<+T> = Ok(value: T) | Err(error: Error)

  type NodeId = nat
  type DataType = nat

  /** The tensors [first, last) of an op are the elements of its output argument `name`. */
  datatype OutputArg = OutputArg(name: string, first: nat, last: nat)

  /** `outputs` is what NameRangesForNode computes, None when it reports an error. */
  datatype Op = Op(typeName: string, attrs: map<string, string>, numInputs: nat,
                   outputs: Option<seq<OutputArg>>, types: seq<DataType>)

  datatype Edge =
    | Data(src: NodeId, srcOutput: nat, dstInput: nat)
    | Control(src: NodeId)

  /** `requested` holds the inputs named in the node definition, as "<node>:<index>". */
  datatype Node = Node(name: string, op: Op, device: string, assignedDevice: string,
                       isSource: bool, inEdges: seq<Edge>, requested: seq<string>)

  /** `ops` lists the op nodes in the order in which the graph enumerates them. */
  datatype Graph = Graph(nodes: map<NodeId, Node>, ops: seq<NodeId>)

  datatype Tensor = Tensor(node: NodeId, index: nat)

  datatype ArgDef = ArgDef(name: string, dtype: DataType)
  datatype NodeDef = NodeDef(name: string, op: Op, device: string, input: seq<string>)
  datatype FunctionDef = FunctionDef(outputArgs: seq<ArgDef>, inputArgs: seq<ArgDef>,
                                     nodeDefs: seq<NodeDef>, ret: map<string, string>)

  function Elems<T>(s: seq<T>): set<T> {
    set x | x in s
  }

  // ---- What the code demands of the graph and of its callers -----------------------------

  predicate ValidTensor(g: Graph, t: Tensor) {
    t.node in g.nodes && t.index < |g.nodes[t.node].op.types|
  }

  /** Every edge joins nodes of the graph, at an input slot the node has. */
  predicate EdgesInGraph(g: Graph) {
    && (forall id, e | id in g.nodes && e in g.nodes[id].inEdges :: e.src in g.nodes)
    && (forall id, e | id in g.nodes && e in g.nodes[id].inEdges && e.Data? ::
          e.dstInput < g.nodes[id].op.numInputs)
  }

  predicate ValidCall(g: Graph, body: seq<NodeId>, inputs: seq<Tensor>, outputs: seq<Tensor>,
                      outputNames: seq<string>) {
    && EdgesInGraph(g)
    && (forall b | b in body :: b in g.nodes)
    && (forall t | t in inputs :: ValidTensor(g, t))
    && (forall t | t in outputs :: ValidTensor(g, t))
    && (outputNames == [] || |outputNames| == |outputs|)
  }

  // ---- Names -------------------------------------------------------------------------------

  function FlatName(node: string, index: nat): string {
    node + ":" + Decimal(index)
  }

  function Flat(g: Graph, t: Tensor): string
    requires t.node in g.nodes
  {
    FlatName(g.nodes[t.node].name, t.index)
  }

  function Nested(node: string, arg: string, index: nat): string {
    node + (":" + (arg + (":" + Decimal(index))))
  }

  /** Names handed out one after another, each made unique among all the earlier ones. */
  function Extend(taken: seq<string>, wanted: seq<string>): (r: seq<string>)
    ensures |r| == |taken| + |wanted|
  {
    if wanted == [] then
      taken
    else
      var n := |wanted| - 1;
      var r := Extend(taken, wanted[..n]);
      r + [UniqueName(Elems(r), wanted[n])]
  }

  /** The names handed out for `wanted`, without the ones taken before. */
  function Given(taken: seq<string>, wanted: seq<string>): (r: seq<string>)
    ensures |r| == |wanted|
  {
    Extend(taken, wanted)[|taken|..]
  }

  function Normals(g: Graph, ts: seq<Tensor>): (r: seq<string>)
    requires forall t | t in ts :: t.node in g.nodes
    ensures |r| == |ts|
  {
    seq(|ts|, i requires 0 <= i < |ts| => Normalized(g.nodes[ts[i].node].name))
  }

  function NodeNamesOf(g: Graph, ids: seq<NodeId>): (r: seq<string>)
    requires forall b | b in ids :: b in g.nodes
    ensures |r| == |ids|
  {
    seq(|ids|, i requires 0 <= i < |ids| => g.nodes[ids[i]].name)
  }

  function OutputNames(g: Graph, outputs: seq<Tensor>, outputNames: seq<string>): (r: seq<string>)
    requires forall t | t in outputs :: t.node in g.nodes
    requires outputNames == [] || |outputNames| == |outputs|
    ensures |r| == |outputs|
  {
    if outputNames == [] then Extend([], Normals(g, outputs)) else outputNames
  }

  /** A map filled by assignments in order: were a key assigned twice, the later value would stay. */
  function Assigned(keys: seq<string>, vals: seq<string>): map<string, string>
    requires |keys| == |vals|
  {
    if keys == [] then map[] else
      var n := |keys| - 1;
      Assigned(keys[..n], vals[..n])[keys[n] := vals[n]]
  }

  lemma {:induction false} AssignedKeys(keys: seq<string>, vals: seq<string>)
    requires |keys| == |vals|
    ensures forall k :: k in Assigned(keys, vals) <==> k in keys
    ensures forall k | k in Assigned(keys, vals) ::
              exists i | 0 <= i < |keys| :: keys[i] == k && vals[i] == Assigned(keys, vals)[k]
  {
    if keys != [] {
      var n := |keys| - 1;
      assert keys == keys[..n] + [keys[n]];
      AssignedKeys(keys[..n], vals[..n]);
    }
  }

  /** The value assigned last stays. */
  lemma {:induction false} AssignedLast(keys: seq<string>, vals: seq<string>, i: nat)
    requires |keys| == |vals| && i < |keys| && forall j | i < j < |keys| :: keys[j] != keys[i]
    ensures keys[i] in Assigned(keys, vals) && Assigned(keys, vals)[keys[i]] == vals[i]
  {
    var n := |keys| - 1;
    if i < n {
      AssignedLast(keys[..n], vals[..n], i);
      assert keys[n] != keys[i];
    }
  }

  lemma AssignedAt(keys: seq<string>, vals: seq<string>, i: nat)
    requires |keys| == |vals| && i < |keys| && Distinct(keys)
    ensures keys[i] in Assigned(keys, vals) && Assigned(keys, vals)[keys[i]] == vals[i]
  {
    AssignedLast(keys, vals, i);
  }

  function Signature(g: Graph, ts: seq<Tensor>, names: seq<string>): (r: seq<ArgDef>)
    requires |ts| == |names| && forall t | t in ts :: ValidTensor(g, t)
    ensures |r| == |ts|
    ensures forall i | 0 <= i < |r| :: r[i].name == names[i]
  {
    seq(|ts|, i requires 0 <= i < |ts| && ValidTensor(g, ts[i]) =>
      ArgDef(names[i], g.nodes[ts[i].node].op.types[ts[i].index]))
  }

  // ---- tensor_renaming ---------------------------------------------------------------------

  function Flats(g: Graph, ts: seq<Tensor>): (r: seq<string>)
    requires forall t | t in ts :: t.node in g.nodes
    ensures |r| == |ts|
  {
    seq(|ts|, i requires 0 <= i < |ts| => Flat(g, ts[i]))
  }

  /** Each pair recorded only if its key is not mapped yet. */
  function AddMissing(m: map<string, string>, keys: seq<string>, vals: seq<string>): map<string, string>
    requires |keys| == |vals|
  {
    if keys == [] then m else
      var n := |keys| - 1;
      var r := AddMissing(m, keys[..n], vals[..n]);
      if keys[n] in r then r else r[keys[n] := vals[n]]
  }

  /** What was there stays, and every new key has one of the values offered for it. */
  ghost predicate Grows(m: map<string, string>, r: map<string, string>) {
    forall k | k in m :: k in r && r[k] == m[k]
  }

  lemma {:induction false} AddMissingKeys(m: map<string, string>, keys: seq<string>, vals: seq<string>)
    requires |keys| == |vals|
    ensures Grows(m, AddMissing(m, keys, vals))
    ensures forall k :: k in AddMissing(m, keys, vals) <==> k in m || k in keys
    ensures forall k | k in AddMissing(m, keys, vals) && k !in m ::
              exists i | 0 <= i < |keys| :: keys[i] == k && vals[i] == AddMissing(m, keys, vals)[k]
  {
    if keys != [] {
      var n := |keys| - 1;
      assert keys == keys[..n] + [keys[n]];
      AddMissingKeys(m, keys[..n], vals[..n]);
    }
  }

  function Size(arg: OutputArg): nat {
    if arg.first <= arg.last then arg.last - arg.first else 0
  }

  function ArgKeys(node: string, arg: OutputArg): (r: seq<string>)
    ensures |r| == Size(arg)
  {
    seq(Size(arg), j requires 0 <= j => FlatName(node, arg.first + j))
  }

  function ArgVals(renamed: string, arg: OutputArg): (r: seq<string>)
    ensures |r| == Size(arg)
  {
    seq(Size(arg), j requires 0 <= j => Nested(renamed, arg.name, j))
  }

  /** Tensor j of the argument has this flat name in the graph and this nested name in the function. */
  ghost predicate ArgMakes(node: string, renamed: string, arg: OutputArg, key: string, val: string) {
    exists j | 0 <= j < Size(arg) :: ArgKeys(node, arg)[j] == key && ArgVals(renamed, arg)[j] == val
  }

  function AddArgs(m: map<string, string>, node: string, renamed: string, args: seq<OutputArg>): map<string, string> {
    if args == [] then m else
      var n := |args| - 1;
      AddMissing(AddArgs(m, node, renamed, args[..n]), ArgKeys(node, args[n]), ArgVals(renamed, args[n]))
  }

  lemma {:induction false} AddArgsKeys(m: map<string, string>, node: string, renamed: string, args: seq<OutputArg>)
    ensures Grows(m, AddArgs(m, node, renamed, args))
    ensures forall a, k | 0 <= a < |args| && k in ArgKeys(node, args[a]) :: k in AddArgs(m, node, renamed, args)
    ensures forall k | k in AddArgs(m, node, renamed, args) && k !in m ::
              exists a | 0 <= a < |args| :: ArgMakes(node, renamed, args[a], k, AddArgs(m, node, renamed, args)[k])
  {
    if args != [] {
      var n := |args| - 1;
      assert forall a | 0 <= a < n :: args[..n][a] == args[a];
      AddArgsKeys(m, node, renamed, args[..n]);
      AddMissingKeys(AddArgs(m, node, renamed, args[..n]), ArgKeys(node, args[n]), ArgVals(renamed, args[n]));
    }
  }

  ghost predicate NodeMakes(n: Node, renamed: string, key: string, val: string)
    requires n.op.outputs.Some?
  {
    exists a | 0 <= a < |n.op.outputs.value| :: ArgMakes(n.name, renamed, n.op.outputs.value[a], key, val)
  }

  predicate HaveRanges(g: Graph, body: seq<NodeId>)
    requires forall b | b in body :: b in g.nodes
  {
    forall b | b in body :: g.nodes[b].op.outputs.Some?
  }

  function AddBody(m: map<string, string>, g: Graph, body: seq<NodeId>, renamed: seq<string>): map<string, string>
    requires |body| == |renamed| && (forall b | b in body :: b in g.nodes) && HaveRanges(g, body)
  {
    if body == [] then m else
      var n := |body| - 1;
      AddArgs(AddBody(m, g, body[..n], renamed[..n]), g.nodes[body[n]].name, renamed[n],
              g.nodes[body[n]].op.outputs.value)
  }

  ghost predicate BodyMakes(g: Graph, body: seq<NodeId>, renamed: seq<string>, b: nat, key: string, val: string)
    requires |body| == |renamed| && (forall b | b in body :: b in g.nodes) && HaveRanges(g, body)
    requires b < |body|
  {
    NodeMakes(g.nodes[body[b]], renamed[b], key, val)
  }

  lemma {:induction false} AddBodyKeys(m: map<string, string>, g: Graph, body: seq<NodeId>, renamed: seq<string>)
    requires |body| == |renamed| && (forall b | b in body :: b in g.nodes) && HaveRanges(g, body)
    ensures Grows(m, AddBody(m, g, body, renamed))
    ensures forall k | k in AddBody(m, g, body, renamed) && k !in m ::
              exists b | 0 <= b < |body| :: BodyMakes(g, body, renamed, b, k, AddBody(m, g, body, renamed)[k])
  {
    if body != [] {
      var n := |body| - 1;
      var before, r := AddBody(m, g, body[..n], renamed[..n]), AddBody(m, g, body, renamed);
      AddBodyKeys(m, g, body[..n], renamed[..n]);
      AddArgsKeys(before, g.nodes[body[n]].name, renamed[n], g.nodes[body[n]].op.outputs.value);
      forall k | k in r && k !in m
        ensures exists b | 0 <= b < |body| :: BodyMakes(g, body, renamed, b, k, r[k])
      {
        if k in before {
          var b :| 0 <= b < n && BodyMakes(g, body[..n], renamed[..n], b, k, before[k]);
          assert BodyMakes(g, body, renamed, b, k, r[k]);
        } else {
          assert BodyMakes(g, body, renamed, n, k, r[k]);
        }
      }
    }
  }

  lemma {:induction false} AddBodyCovers(m: map<string, string>, g: Graph, body: seq<NodeId>, renamed: seq<string>,
                                         b: nat, a: nat, key: string)
    requires |body| == |renamed| && (forall b | b in body :: b in g.nodes) && HaveRanges(g, body)
    requires b < |body| && a < |g.nodes[body[b]].op.outputs.value|
    requires key in ArgKeys(g.nodes[body[b]].name, g.nodes[body[b]].op.outputs.value[a])
    ensures key in AddBody(m, g, body, renamed)
  {
    var n := |body| - 1;
    AddArgsKeys(AddBody(m, g, body[..n], renamed[..n]), g.nodes[body[n]].name, renamed[n],
                g.nodes[body[n]].op.outputs.value);
    if b < n {
      AddBodyCovers(m, g, body[..n], renamed[..n], b, a, key);
    }
  }

  /** What the first body nodes recorded stays. */
  lemma {:induction false} AddBodyPrefix(m: map<string, string>, g: Graph, body: seq<NodeId>, renamed: seq<string>, k: nat)
    requires |body| == |renamed| && (forall b | b in body :: b in g.nodes) && HaveRanges(g, body) && k <= |body|
    ensures Grows(AddBody(m, g, body[..k], renamed[..k]), AddBody(m, g, body, renamed))
  {
    var n := |body| - 1;
    if k > n {
      assert body[..k] == body && renamed[..k] == renamed;
    } else {
      assert body[..n][..k] == body[..k] && renamed[..n][..k] == renamed[..k];
      AddBodyPrefix(m, g, body[..n], renamed[..n], k);
      AddArgsKeys(AddBody(m, g, body[..n], renamed[..n]), g.nodes[body[n]].name, renamed[n],
                  g.nodes[body[n]].op.outputs.value);
    }
  }

  // ---- Body nodes ----------------------------------------------------------------------------

  /** The first error, or all the values. */
  function Sequence<T>(rs: seq<Result<T>>): (r: Result<seq<T>>)
    ensures r.Ok? ==> |r.value| == |rs|
  {
    if rs == [] then Ok([]) else
      var n := |rs| - 1;
      match Sequence(rs[..n])
      case Err(e) => Err(e)
      case Ok(vs) =>
        match rs[n]
        case Err(e) => Err(e)
        case Ok(v) => Ok(vs + [v])
  }

  lemma {:induction false} SequenceOk<T>(rs: seq<Result<T>>)
    ensures Sequence(rs).Ok? <==> forall i | 0 <= i < |rs| :: rs[i].Ok?
    ensures Sequence(rs).Ok? ==> forall i | 0 <= i < |rs| :: Sequence(rs).value[i] == rs[i].value
  {
    if rs != [] {
      var n := |rs| - 1;
      assert forall i | 0 <= i < n :: rs[..n][i] == rs[i];
      SequenceOk(rs[..n]);
    }
  }

  /** An error is that of the first result that has one. */
  lemma {:induction false} SequenceErr<T>(rs: seq<Result<T>>) returns (k: nat)
    requires Sequence(rs).Err?
    ensures k < |rs| && rs[k] == Err(Sequence(rs).error) && forall i | 0 <= i < k :: rs[i].Ok?
  {
    var n := |rs| - 1;
    if Sequence(rs[..n]).Err? {
      k := SequenceErr(rs[..n]);
      assert forall i | 0 <= i < k :: rs[..n][i] == rs[i];
    } else {
      SequenceOk(rs[..n]);
      assert forall i | 0 <= i < n :: rs[..n][i] == rs[i];
      k := n;
    }
  }

  lemma {:induction false} SequenceStops<T>(rs: seq<Result<T>>, k: nat)
    requires k < |rs| && Sequence(rs[..k]).Ok? && rs[k].Err?
    ensures Sequence(rs) == Err(rs[k].error)
  {
    var n := |rs| - 1;
    if k < n {
      assert rs[..n][..k] == rs[..k];
      SequenceStops(rs[..n], k);
    }
  }

  /** The data edge that feeds input i; were there several, the last one visited would win. */
  function SlotEdge(g: Graph, edges: seq<Edge>, i: nat): (r: Option<Edge>)
    requires forall e | e in edges :: e.src in g.nodes
    ensures r.Some? ==> r.value in edges && r.value.Data? && r.value.dstInput == i
    ensures r.None? ==> forall e | e in edges && e.Data? && e.dstInput == i :: g.nodes[e.src].isSource
  {
    if edges == [] then None else
      var n := |edges| - 1;
      assert edges == edges[..n] + [edges[n]];
      var e := edges[n];
      if e.Data? && e.dstInput == i && !g.nodes[e.src].isSource then Some(e)
      else SlotEdge(g, edges[..n], i)
  }

  function ControlSources(g: Graph, edges: seq<Edge>): (r: seq<NodeId>)
    requires forall e | e in edges :: e.src in g.nodes
    ensures forall s :: s in r <==> s in g.nodes && Control(s) in edges && !g.nodes[s].isSource
  {
    if edges == [] then [] else
      var n := |edges| - 1;
      assert edges == edges[..n] + [edges[n]];
      var e := edges[n];
      var rest := ControlSources(g, edges[..n]);
      if e.Control? && !g.nodes[e.src].isSource then rest + [e.src] else rest
  }

  function InputName(g: Graph, n: Node, i: nat): Result<string>
    requires forall e | e in n.inEdges :: e.src in g.nodes
  {
    match SlotEdge(g, n.inEdges, i)
    case Some(e) => Ok(Flat(g, Tensor(e.src, e.srcOutput)))
    case None => if i < |n.requested| then Ok(n.requested[i]) else Err(MissingInputEdge)
  }

  function InputRef(g: Graph, n: Node, renaming: map<string, string>, i: nat): Result<string>
    requires forall e | e in n.inEdges :: e.src in g.nodes
  {
    match InputName(g, n, i)
    case Err(e) => Err(e)
    case Ok(name) => if name in renaming then Ok(renaming[name]) else Err(UnavailableInput)
  }

  function DataRefs(g: Graph, n: Node, renaming: map<string, string>): (r: seq<Result<string>>)
    requires forall e | e in n.inEdges :: e.src in g.nodes
    ensures |r| == n.op.numInputs
  {
    seq(n.op.numInputs, i requires 0 <= i => InputRef(g, n, renaming, i))
  }

  function LookUp(mapping: map<string, string>, name: string): string {
    if name in mapping then mapping[name] else ""
  }

  function ControlRef(g: Graph, mapping: map<string, string>, src: NodeId): Result<string>
    requires src in g.nodes
  {
    var name := LookUp(mapping, g.nodes[src].name);
    if name == "" then Err(ControlSourceOutsideBody) else Ok("^" + name)
  }

  function ControlRefs(g: Graph, n: Node, mapping: map<string, string>): (r: seq<Result<string>>)
    requires forall e | e in n.inEdges :: e.src in g.nodes
  {
    var srcs := ControlSources(g, n.inEdges);
    seq(|srcs|, i requires 0 <= i < |srcs| => assert srcs[i] in srcs; ControlRef(g, mapping, srcs[i]))
  }

  function MakeNodeDef(g: Graph, n: Node, mapping: map<string, string>, renaming: map<string, string>)
    : Result<NodeDef>
    requires forall e | e in n.inEdges :: e.src in g.nodes
  {
    match Sequence(DataRefs(g, n, renaming))
    case Err(e) => Err(e)
    case Ok(data) =>
      match Sequence(ControlRefs(g, n, mapping))
      case Err(e) => Err(e)
      case Ok(control) =>
        Ok(NodeDef(LookUp(mapping, n.name), n.op,
                   if n.assignedDevice != "" then n.assignedDevice else n.device, data + control))
  }

  function NodeDefs(g: Graph, body: seq<NodeId>, mapping: map<string, string>, renaming: map<string, string>)
    : (r: seq<Result<NodeDef>>)
    requires EdgesInGraph(g) && forall b | b in body :: b in g.nodes
    ensures |r| == |body|
  {
    seq(|body|, i requires 0 <= i < |body| => MakeNodeDef(g, g.nodes[body[i]], mapping, renaming))
  }

  // ---- Return values and the whole conversion --------------------------------------------------

  function OutputRefs(g: Graph, outputs: seq<Tensor>, renaming: map<string, string>): (r: seq<Result<string>>)
    requires forall t | t in outputs :: t.node in g.nodes
    ensures |r| == |outputs|
  {
    seq(|outputs|, i requires 0 <= i < |outputs| =>
      var name := Flat(g, outputs[i]);
      if name in renaming then Ok(renaming[name]) else Err(UnavailableOutput))
  }

  /** The names of output arguments, input arguments and body nodes, in that order. */
  datatype Naming = Naming(outs: seq<string>, ins: seq<string>, renamed: seq<string>)

  function Name(g: Graph, body: seq<NodeId>, inputs: seq<Tensor>, outputs: seq<Tensor>,
                outputNames: seq<string>): (r: Naming)
    requires ValidCall(g, body, inputs, outputs, outputNames)
    ensures |r.outs| == |outputs| && |r.ins| == |inputs| && |r.renamed| == |body|
  {
    var outs := OutputNames(g, outputs, outputNames);
    var args := Extend(outs, Normals(g, inputs));
    Naming(outs, Given(outs, Normals(g, inputs)), Given(args, NodeNamesOf(g, body)))
  }

  function Renaming(g: Graph, body: seq<NodeId>, inputs: seq<Tensor>, names: Naming): map<string, string>
    requires EdgesInGraph(g) && (forall b | b in body :: b in g.nodes) && HaveRanges(g, body)
    requires forall t | t in inputs :: t.node in g.nodes
    requires |names.ins| == |inputs| && |names.renamed| == |body|
  {
    AddBody(Assigned(Flats(g, inputs), names.ins), g, body, names.renamed)
  }

  /** GraphToFunctionDef as a function. */
  ghost function Convert(g: Graph, body: seq<NodeId>, inputs: seq<Tensor>, outputs: seq<Tensor>,
                         outputNames: seq<string>): Result<FunctionDef>
    requires ValidCall(g, body, inputs, outputs, outputNames)
  {
    if !Distinct(outputNames) then
      Err(DuplicateOutputName)
    else if !HaveRanges(g, body) then
      Err(BadOutputRanges)
    else
      var names := Name(g, body, inputs, outputs, outputNames);
      var renaming := Renaming(g, body, inputs, names);
      match Sequence(NodeDefs(g, body, Assigned(NodeNamesOf(g, body), names.renamed), renaming))
      case Err(e) => Err(e)
      case Ok(defs) =>
        match Sequence(OutputRefs(g, outputs, renaming))
        case Err(e) => Err(e)
        case Ok(refs) =>
          Ok(FunctionDef(Signature(g, outputs, names.outs), Signature(g, inputs, names.ins),
                         defs, Assigned(names.outs, refs)))
  }
}
