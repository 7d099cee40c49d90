/**
 The values a graph and a function definition compute, and the theorem that the conversion
 keeps them. Op semantics are an arbitrary function of the op, its input values and the output
 index. A function definition is read the way function instantiation reads it
 (core/framework/function.cc): every reference is looked up, as a whole string, in an index of
 argument and node output names.
 */
module FunctionValues {
  import opened Basics
  import opened Text
  import opened NodeNames
  import opened FunctionModel
  import opened FunctionMeaning

  type Semantics<!V> = (Op, seq<V>, nat) -> V

  ghost function AllSome<V>(os: seq<Option<V>>): Option<seq<V>> {
    if forall i | 0 <= i < |os| :: os[i].Some? then
      Some(seq(|os|, i requires 0 <= i < |os| && os[i].Some? => os[i].value))
    else
      None
  }

  // ---- Values in the graph --------------------------------------------------------------------

  /** The value of a tensor when `inputs` are fed, looking at most `fuel` tensors deep. */
  ghost function ValueInGraph<V>(g: Graph, sem: Semantics<V>, inputs: seq<Tensor>, args: seq<V>, t: Tensor, fuel: nat)
    : Option<V>
    requires |args| == |inputs|
    decreases fuel
  {
    if fuel == 0 then None
    else if t in inputs then Some(args[IndexOf(inputs, t)])
    else if t.node !in g.nodes || !CompleteEdges(g, g.nodes[t.node]) then None
    else
      var n := g.nodes[t.node];
      match AllSome(seq(n.op.numInputs, i requires 0 <= i < n.op.numInputs =>
              ValueInGraph(g, sem, inputs, args, InputTensor(g, n, i), fuel - 1)))
      case None => None
      case Some(vs) => Some(sem(n.op, vs, t.index))
  }

  // ---- Values in the function -------------------------------------------------------------------

  /** What a name in the index of a function definition stands for. */
  datatype Entry =
    | ArgWhole(arg: nat)                       // "arg"
    | ArgElement(arg: nat)                     // "arg:0"
    | NodeOnly(node: nat)                      // "node", for an op without outputs
    | OutputWhole(node: nat, out: nat)         // "node:out"
    | OutputElement(node: nat, out: nat, j: nat) // "node:out:j"

  ghost predicate ValidEntry(f: FunctionDef, e: Entry) {
    match e
    case ArgWhole(k) => k < |f.inputArgs|
    case ArgElement(k) => k < |f.inputArgs|
    case NodeOnly(b) => b < |f.nodeDefs| && f.nodeDefs[b].op.outputs == Some([])
    case OutputWhole(b, a) =>
      && b < |f.nodeDefs| && f.nodeDefs[b].op.outputs.Some? && a < |f.nodeDefs[b].op.outputs.value|
    case OutputElement(b, a, j) =>
      && b < |f.nodeDefs| && f.nodeDefs[b].op.outputs.Some? && a < |f.nodeDefs[b].op.outputs.value|
      && j < Size(f.nodeDefs[b].op.outputs.value[a])
  }

  ghost function Key(f: FunctionDef, e: Entry): string
    requires ValidEntry(f, e)
  {
    match e
    case ArgWhole(k) => f.inputArgs[k].name
    case ArgElement(k) => f.inputArgs[k].name + (":" + Decimal(0))
    case NodeOnly(b) => f.nodeDefs[b].name
    case OutputWhole(b, a) => f.nodeDefs[b].name + (":" + f.nodeDefs[b].op.outputs.value[a].name)
    case OutputElement(b, a, j) =>
      f.nodeDefs[b].name + (":" + (f.nodeDefs[b].op.outputs.value[a].name + (":" + Decimal(j))))
  }

  ghost predicate IsFor(f: FunctionDef, e: Entry, ref: string) {
    ValidEntry(f, e) && Key(f, e) == ref
  }

  ghost function Resolve(f: FunctionDef, ref: string): (r: Option<Entry>)
    ensures r.Some? ==> IsFor(f, r.value, ref)
  {
    if exists e :: IsFor(f, e, ref) then
      var e :| IsFor(f, e, ref);
      Some(e)
    else
      None
  }

  /** The value a reference has in the body of a function called with `args`. */
  ghost function ValueOfRef<V>(f: FunctionDef, sem: Semantics<V>, args: seq<V>, ref: string, fuel: nat): Option<V>
    requires |args| == |f.inputArgs|
    decreases fuel, 1
  {
    if fuel == 0 then None else
      match Resolve(f, ref)
      case None => None
      case Some(ArgWhole(k)) => Some(args[k])
      case Some(ArgElement(k)) => Some(args[k])
      case Some(NodeOnly(_)) => None
      case Some(OutputWhole(b, a)) =>
        var arg := f.nodeDefs[b].op.outputs.value[a];
        if Size(arg) == 1 then ValueOfNode(f, sem, args, b, arg.first, fuel - 1) else None
      case Some(OutputElement(b, a, j)) =>
        ValueOfNode(f, sem, args, b, f.nodeDefs[b].op.outputs.value[a].first + j, fuel - 1)
  }

  /** Output `index` of a node definition. */
  ghost function ValueOfNode<V>(f: FunctionDef, sem: Semantics<V>, args: seq<V>, b: nat, index: nat, fuel: nat)
    : Option<V>
    requires |args| == |f.inputArgs| && b < |f.nodeDefs|
    decreases fuel, 2
  {
    var n := f.nodeDefs[b];
    if |n.input| < n.op.numInputs then None else
      match AllSome(seq(n.op.numInputs, i requires 0 <= i < n.op.numInputs =>
              ValueOfRef(f, sem, args, n.input[i], fuel)))
      case None => None
      case Some(vs) => Some(sem(n.op, vs, index))
  }

  // ---- The index has no duplicates ------------------------------------------------------------------

  function ArgNames(f: FunctionDef): (r: seq<string>)
    ensures |r| == |f.inputArgs|
  {
    seq(|f.inputArgs|, k requires 0 <= k < |f.inputArgs| => f.inputArgs[k].name)
  }

  function NodeDefNames(f: FunctionDef): (r: seq<string>)
    ensures |r| == |f.nodeDefs|
  {
    seq(|f.nodeDefs|, b requires 0 <= b < |f.nodeDefs| => f.nodeDefs[b].name)
  }

  ghost predicate CleanOutputs(d: NodeDef) {
    d.op.outputs.Some? ==>
      && (forall a | 0 <= a < |d.op.outputs.value| :: NoColon(d.op.outputs.value[a].name))
      && (forall a, b | 0 <= a < b < |d.op.outputs.value| :: d.op.outputs.value[a].name != d.op.outputs.value[b].name)
  }

  ghost predicate PlainNames(f: FunctionDef) {
    && (forall k | 0 <= k < |f.inputArgs| :: NoColon(f.inputArgs[k].name))
    && (forall b | 0 <= b < |f.nodeDefs| :: NoColon(f.nodeDefs[b].name))
  }

  /** Distinct names without ':' for arguments, nodes, and the output arguments of each node. */
  ghost predicate CleanNames(f: FunctionDef) {
    && Distinct(ArgNames(f) + NodeDefNames(f)) && PlainNames(f)
    && (forall b | 0 <= b < |f.nodeDefs| :: CleanOutputs(f.nodeDefs[b]))
  }

  /** Position of an entry's owner among arguments and nodes, and what follows its name in the key. */
  ghost function Owner(f: FunctionDef, e: Entry): nat {
    match e
    case ArgWhole(k) => k
    case ArgElement(k) => k
    case NodeOnly(b) => |f.inputArgs| + b
    case OutputWhole(b, _) => |f.inputArgs| + b
    case OutputElement(b, _, _) => |f.inputArgs| + b
  }

  ghost function Rest(f: FunctionDef, e: Entry): Option<string>
    requires ValidEntry(f, e)
  {
    match e
    case ArgWhole(_) => None
    case ArgElement(_) => Some(Decimal(0))
    case NodeOnly(_) => None
    case OutputWhole(b, a) => Some(f.nodeDefs[b].op.outputs.value[a].name)
    case OutputElement(b, a, j) => Some(f.nodeDefs[b].op.outputs.value[a].name + (":" + Decimal(j)))
  }

  lemma KeyParts(f: FunctionDef, e: Entry)
    requires ValidEntry(f, e) && PlainNames(f)
    ensures Owner(f, e) < |ArgNames(f) + NodeDefNames(f)|
    ensures var owner := (ArgNames(f) + NodeDefNames(f))[Owner(f, e)];
            && NoColon(owner)
            && Key(f, e) == if Rest(f, e).None? then owner else owner + (":" + Rest(f, e).value)
  {
  }

  lemma OwnersAgree(f: FunctionDef, d: Entry, e: Entry)
    requires ValidEntry(f, d) && ValidEntry(f, e) && CleanNames(f) && Key(f, d) == Key(f, e)
    ensures Owner(f, d) == Owner(f, e) && Rest(f, d) == Rest(f, e)
  {
    KeyParts(f, d);
    KeyParts(f, e);
    var names := ArgNames(f) + NodeDefNames(f);
    var n, m := names[Owner(f, d)], names[Owner(f, e)];
    if Rest(f, d).Some? && Rest(f, e).Some? {
      SplitKey(n, Rest(f, d).value, m, Rest(f, e).value);
    }
  }

  /** Building the index never reports a duplicate name. */
  lemma IndexHasNoDuplicates(f: FunctionDef, d: Entry, e: Entry)
    requires ValidEntry(f, d) && ValidEntry(f, e) && CleanNames(f) && Key(f, d) == Key(f, e)
    ensures d == e
  {
    OwnersAgree(f, d, e);
    if d.OutputElement? && e.OutputElement? {
      var args := f.nodeDefs[d.node].op.outputs.value;
      var x, y := args[d.out].name, args[e.out].name;
      SplitKey(x, Decimal(d.j), y, Decimal(e.j));
      DecimalInjective(d.j, e.j);
    }
  }

  lemma ResolveIs(f: FunctionDef, e: Entry, ref: string)
    requires CleanNames(f) && IsFor(f, e, ref)
    ensures Resolve(f, ref) == Some(e)
  {
    IndexHasNoDuplicates(f, e, Resolve(f, ref).value);
  }

  // ---- The converted function -------------------------------------------------------------------------

  /** A successful conversion of a well-formed graph. */
  ghost predicate Converts(g: Graph, body: seq<NodeId>, inputs: seq<Tensor>, outputs: seq<Tensor>,
                           outputNames: seq<string>, f: FunctionDef) {
    && ValidCall(g, body, inputs, outputs, outputNames)
    && WellFormed(g, body) && Distinct(inputs)
    && Convert(g, body, inputs, outputs, outputNames) == Ok(f)
  }

  /** Node definition b is body node b under its new name, reading the renamed input tensors. */
  ghost predicate NodeDefFor(g: Graph, n: Node, name: string, renaming: map<string, string>, d: NodeDef)
    requires CompleteEdges(g, n)
  {
    && d.name == name && d.op == n.op && n.op.numInputs <= |d.input|
    && (forall i | 0 <= i < n.op.numInputs :: Flat(g, InputTensor(g, n, i)) in renaming)
    && (forall i | 0 <= i < n.op.numInputs :: d.input[i] == renaming[Flat(g, InputTensor(g, n, i))])
  }

  lemma MadeInputs(g: Graph, n: Node, mapping: map<string, string>, renaming: map<string, string>, d: NodeDef)
    requires forall e | e in n.inEdges :: e.src in g.nodes
    requires MakeNodeDef(g, n, mapping, renaming) == Ok(d)
    ensures d.name == LookUp(mapping, n.name) && d.op == n.op && n.op.numInputs <= |d.input|
    ensures var refs := DataRefs(g, n, renaming);
            forall i | 0 <= i < n.op.numInputs :: refs[i].Ok? && d.input[i] == refs[i].value
  {
    SequenceOk(DataRefs(g, n, renaming));
  }

  lemma RefIsRenamed(g: Graph, n: Node, renaming: map<string, string>, i: nat)
    requires CompleteEdges(g, n) && i < n.op.numInputs && (forall e | e in n.inEdges :: e.src in g.nodes)
    requires DataRefs(g, n, renaming)[i].Ok?
    ensures var key := Flat(g, InputTensor(g, n, i));
            key in renaming && DataRefs(g, n, renaming)[i].value == renaming[key]
  {
    InputNameIsTensor(g, n, i);
  }

  lemma NodeDefIsFor(g: Graph, body: seq<NodeId>, inputs: seq<Tensor>, names: Naming, b: nat, d: NodeDef)
    requires Converted(g, body, inputs, names) && b < |body|
    requires MakeNodeDef(g, g.nodes[body[b]], Assigned(NodeNamesOf(g, body), names.renamed),
                         Renaming(g, body, inputs, names)) == Ok(d)
    ensures body[b] in body
    ensures NodeDefFor(g, g.nodes[body[b]], names.renamed[LastOf(body, body[b])], Renaming(g, body, inputs, names), d)
  {
    var n, renaming := g.nodes[body[b]], Renaming(g, body, inputs, names);
    LookUpListed(g, body, names.renamed, body[b]);
    MadeInputs(g, n, Assigned(NodeNamesOf(g, body), names.renamed), renaming, d);
    forall i | 0 <= i < n.op.numInputs
      ensures Flat(g, InputTensor(g, n, i)) in renaming && d.input[i] == renaming[Flat(g, InputTensor(g, n, i))]
    {
      RefIsRenamed(g, n, renaming, i);
    }
  }

  lemma NodeDefsAreFor(g: Graph, body: seq<NodeId>, inputs: seq<Tensor>, outputs: seq<Tensor>,
                       outputNames: seq<string>, f: FunctionDef)
    requires Converts(g, body, inputs, outputs, outputNames, f)
    ensures HaveRanges(g, body) && |f.nodeDefs| == |body|
    ensures var names := Name(g, body, inputs, outputs, outputNames);
            forall b | 0 <= b < |body| ::
              NodeDefFor(g, g.nodes[body[b]], names.renamed[LastOf(body, body[b])],
                         Renaming(g, body, inputs, names), f.nodeDefs[b])
  {
    var names := Name(g, body, inputs, outputs, outputNames);
    NamesAreUnique(g, body, inputs, outputs, outputNames);
    var defs := NodeDefs(g, body, Assigned(NodeNamesOf(g, body), names.renamed), Renaming(g, body, inputs, names));
    SequenceOk(defs);
    forall b | 0 <= b < |body|
      ensures NodeDefFor(g, g.nodes[body[b]], names.renamed[LastOf(body, body[b])],
                         Renaming(g, body, inputs, names), f.nodeDefs[b])
    {
      assert defs[b] == Ok(f.nodeDefs[b]);
      NodeDefIsFor(g, body, inputs, names, b, f.nodeDefs[b]);
    }
  }

  /** Every name in the function definition is distinct and free of ':', so its index is well formed. */
  lemma ConvertedNamesAreClean(g: Graph, body: seq<NodeId>, inputs: seq<Tensor>, outputs: seq<Tensor>,
                               outputNames: seq<string>, f: FunctionDef)
    requires Converts(g, body, inputs, outputs, outputNames, f) && Distinct(body)
    ensures CleanNames(f)
    ensures ArgNames(f) == Name(g, body, inputs, outputs, outputNames).ins
    ensures NodeDefNames(f) == Name(g, body, inputs, outputs, outputNames).renamed
  {
    ConvertedNames(g, body, inputs, outputs, outputNames, f);
    ArgsAreClean(g, body, inputs, outputs, outputNames, f);
    forall b | 0 <= b < |body| ensures NoColon(f.nodeDefs[b].name) && CleanOutputs(f.nodeDefs[b]) {
      NodeDefIsClean(g, body, inputs, outputs, outputNames, f, b);
    }
  }

  lemma ArgsAreClean(g: Graph, body: seq<NodeId>, inputs: seq<Tensor>, outputs: seq<Tensor>,
                     outputNames: seq<string>, f: FunctionDef)
    requires Converts(g, body, inputs, outputs, outputNames, f) && Distinct(body)
    ensures Distinct(ArgNames(f) + NodeDefNames(f))
    ensures forall k | 0 <= k < |f.inputArgs| :: NoColon(f.inputArgs[k].name)
  {
    var names := Name(g, body, inputs, outputs, outputNames);
    NamesAreUnique(g, body, inputs, outputs, outputNames);
    ConvertedNames(g, body, inputs, outputs, outputNames, f);
    DistinctTail(names.outs, names.ins, names.renamed);
    forall k | 0 <= k < |f.inputArgs| ensures NoColon(f.inputArgs[k].name) {
      assert ArgNames(f)[k] == f.inputArgs[k].name == names.ins[k];
    }
  }

  lemma ConvertedNames(g: Graph, body: seq<NodeId>, inputs: seq<Tensor>, outputs: seq<Tensor>,
                       outputNames: seq<string>, f: FunctionDef)
    requires Converts(g, body, inputs, outputs, outputNames, f) && Distinct(body)
    ensures |f.nodeDefs| == |body| && ArgNames(f) == Name(g, body, inputs, outputs, outputNames).ins
    ensures NodeDefNames(f) == Name(g, body, inputs, outputs, outputNames).renamed
  {
    ConvertedParts(g, body, inputs, outputs, outputNames, f);
    NodeDefNamesAre(g, body, inputs, outputs, outputNames, f);
    var names := Name(g, body, inputs, outputs, outputNames);
    forall b | 0 <= b < |body| ensures NodeDefNames(f)[b] == names.renamed[b] {
      NodeKeepsName(g, body, inputs, outputs, outputNames, f, b);
    }
  }

  lemma NodeKeepsName(g: Graph, body: seq<NodeId>, inputs: seq<Tensor>, outputs: seq<Tensor>,
                      outputNames: seq<string>, f: FunctionDef, b: nat)
    requires Converts(g, body, inputs, outputs, outputNames, f) && Distinct(body) && b < |body| == |f.nodeDefs|
    ensures f.nodeDefs[b].name == Name(g, body, inputs, outputs, outputNames).renamed[b]
  {
    NodeDefsAreFor(g, body, inputs, outputs, outputNames, f);
    LastOfDistinct(body, b);
  }

  lemma NodeDefIsClean(g: Graph, body: seq<NodeId>, inputs: seq<Tensor>, outputs: seq<Tensor>,
                       outputNames: seq<string>, f: FunctionDef, b: nat)
    requires Converts(g, body, inputs, outputs, outputNames, f) && b < |body| == |f.nodeDefs|
    ensures NoColon(f.nodeDefs[b].name) && CleanOutputs(f.nodeDefs[b])
  {
    var names := Name(g, body, inputs, outputs, outputNames);
    NamesAreUnique(g, body, inputs, outputs, outputNames);
    NodeDefsAreFor(g, body, inputs, outputs, outputNames, f);
    var k := LastOf(body, body[b]);
    assert WellGiven(g.nodes[body[k]].name, names.renamed[k]);
    CleanNode(g, g.nodes[body[b]], names.renamed[k], Renaming(g, body, inputs, names), f.nodeDefs[b]);
  }

  lemma DistinctTail(a: seq<string>, b: seq<string>, c: seq<string>)
    requires Distinct(a + b + c)
    ensures Distinct(a) && Distinct(b + c)
  {
    assert a + b + c == a + (b + c);
    DistinctSuffix(a, b + c);
  }

  lemma CleanNode(g: Graph, n: Node, name: string, renaming: map<string, string>, d: NodeDef)
    requires CompleteEdges(g, n) && NodeDefFor(g, n, name, renaming, d)
    requires n.op.outputs.Some? ==> Partition(n.op.outputs.value, |n.op.types|)
    ensures CleanOutputs(d)
  {
  }

  lemma AllSomeEqual<V>(a: seq<Option<V>>, b: seq<Option<V>>)
    requires |a| == |b| && forall i | 0 <= i < |a| :: a[i] == b[i]
    ensures AllSome(a) == AllSome(b)
  {
    assert a == b;
  }

  /** The function definition f mirrors the graph under these names. */
  ghost predicate Mirrors(g: Graph, body: seq<NodeId>, inputs: seq<Tensor>, names: Naming, f: FunctionDef) {
    && Converted(g, body, inputs, names)
    && CleanNames(f)
    && ArgNames(f) == names.ins
    && |f.nodeDefs| == |body|
    && forall b | 0 <= b < |body| ::
         NodeDefFor(g, g.nodes[body[b]], names.renamed[b], Renaming(g, body, inputs, names), f.nodeDefs[b])
  }

  lemma ConvertedMirrors(g: Graph, body: seq<NodeId>, inputs: seq<Tensor>, outputs: seq<Tensor>,
                         outputNames: seq<string>, f: FunctionDef)
    requires Converts(g, body, inputs, outputs, outputNames, f) && Distinct(body)
    ensures Mirrors(g, body, inputs, Name(g, body, inputs, outputs, outputNames), f)
  {
    ConvertedNamesAreClean(g, body, inputs, outputs, outputNames, f);
    NodeDefsAreFor(g, body, inputs, outputs, outputNames, f);
  }

  lemma FedResolves(g: Graph, body: seq<NodeId>, inputs: seq<Tensor>, names: Naming, f: FunctionDef, k: nat)
    requires Mirrors(g, body, inputs, names, f) && k < |inputs|
    ensures inputs[k] in inputs && Flat(g, inputs[k]) in Renaming(g, body, inputs, names)
    ensures Resolve(f, Renaming(g, body, inputs, names)[Flat(g, inputs[k])]) == Some(ArgWhole(k))
  {
    RenamingOfInput(g, body, inputs, names, k);
    assert ArgNames(f)[k] == f.inputArgs[k].name;
    ResolveIs(f, ArgWhole(k), Renaming(g, body, inputs, names)[Flat(g, inputs[k])]);
  }

  lemma UnfedResolves(g: Graph, body: seq<NodeId>, inputs: seq<Tensor>, names: Naming, f: FunctionDef, t: Tensor)
    returns (b: nat, a: nat, j: nat)
    requires Mirrors(g, body, inputs, names, f) && t.node in g.nodes && t !in inputs
    requires Flat(g, t) in Renaming(g, body, inputs, names)
    ensures MadeAt(g, body, t, b, a, j)
    ensures Resolve(f, Renaming(g, body, inputs, names)[Flat(g, t)]) == Some(OutputElement(b, a, j))
  {
    b, a, j := RenamingOfUnfed(g, body, inputs, names, t);
    assert NodeDefFor(g, g.nodes[body[b]], names.renamed[b], Renaming(g, body, inputs, names), f.nodeDefs[b]);
    ResolveIs(f, OutputElement(b, a, j), Renaming(g, body, inputs, names)[Flat(g, t)]);
  }

  ghost predicate SameAt<V>(g: Graph, inputs: seq<Tensor>, f: FunctionDef, sem: Semantics<V>, args: seq<V>,
                            t: Tensor, ref: string, fuel: nat)
    requires |args| == |inputs| == |f.inputArgs|
  {
    ValueOfRef(f, sem, args, ref, fuel) == ValueInGraph(g, sem, inputs, args, t, fuel)
  }

  lemma SameFed<V>(g: Graph, inputs: seq<Tensor>, f: FunctionDef, sem: Semantics<V>, args: seq<V>, ref: string,
                   t: Tensor, fuel: nat)
    requires |args| == |inputs| == |f.inputArgs| && t in inputs
    requires Resolve(f, ref) == Some(ArgWhole(IndexOf(inputs, t)))
    ensures SameAt(g, inputs, f, sem, args, t, ref, fuel)
  {
  }

  lemma SameUnfed<V>(g: Graph, inputs: seq<Tensor>, f: FunctionDef, sem: Semantics<V>, args: seq<V>, ref: string,
                     t: Tensor, b: nat, a: nat, j: nat, fuel: nat)
    requires |args| == |inputs| == |f.inputArgs| && t !in inputs
    requires Resolve(f, ref) == Some(OutputElement(b, a, j))
    requires f.nodeDefs[b].op.outputs.value[a].first + j == t.index
    requires t.node in g.nodes && CompleteEdges(g, g.nodes[t.node])
    requires f.nodeDefs[b].op == g.nodes[t.node].op && |f.nodeDefs[b].input| >= f.nodeDefs[b].op.numInputs
    requires forall i | 0 <= i < g.nodes[t.node].op.numInputs ::
               SameAt(g, inputs, f, sem, args, InputTensor(g, g.nodes[t.node], i), f.nodeDefs[b].input[i], fuel)
    ensures SameAt(g, inputs, f, sem, args, t, ref, fuel + 1)
  {
    var n, d := g.nodes[t.node], f.nodeDefs[b];
    var there := seq(n.op.numInputs, i requires 0 <= i < n.op.numInputs => ValueOfRef(f, sem, args, d.input[i], fuel));
    var here := seq(n.op.numInputs, i requires 0 <= i < n.op.numInputs =>
                    ValueInGraph(g, sem, inputs, args, InputTensor(g, n, i), fuel));
    forall i | 0 <= i < n.op.numInputs ensures there[i] == here[i] {
      assert SameAt(g, inputs, f, sem, args, InputTensor(g, n, i), d.input[i], fuel);
    }
    AllSomeEqual(there, here);
  }

  ghost predicate ReadsTensor(g: Graph, renaming: map<string, string>, t: Tensor, ref: string) {
    t.node in g.nodes && Flat(g, t) in renaming && ref == renaming[Flat(g, t)]
  }

  /** The reference stands for element j of output a of node definition b, which computes tensor t. */
  ghost predicate ComputedAt(g: Graph, f: FunctionDef, renaming: map<string, string>, t: Tensor, ref: string,
                             b: nat, a: nat, j: nat)
    requires t.node in g.nodes
  {
    var n := g.nodes[t.node];
    && Resolve(f, ref) == Some(OutputElement(b, a, j))
    && f.nodeDefs[b].op.outputs.value[a].first + j == t.index
    && CompleteEdges(g, n) && f.nodeDefs[b].op == n.op && n.op.numInputs <= |f.nodeDefs[b].input|
    && forall i | 0 <= i < n.op.numInputs :: ReadsTensor(g, renaming, InputTensor(g, n, i), f.nodeDefs[b].input[i])
  }

  /** The reference for t stands for the argument that feeds t, or for the output that computes it. */
  ghost predicate Follows(g: Graph, inputs: seq<Tensor>, f: FunctionDef, renaming: map<string, string>,
                          t: Tensor, ref: string)
    requires t.node in g.nodes
  {
    if t in inputs then Resolve(f, ref) == Some(ArgWhole(IndexOf(inputs, t)))
    else exists b: nat, a: nat, j: nat :: ComputedAt(g, f, renaming, t, ref, b, a, j)
  }

  ghost predicate AllFollow(g: Graph, inputs: seq<Tensor>, f: FunctionDef, renaming: map<string, string>) {
    && |f.inputArgs| == |inputs|
    && forall t, ref {:trigger Follows(g, inputs, f, renaming, t, ref)} |
         ReadsTensor(g, renaming, t, ref) :: Follows(g, inputs, f, renaming, t, ref)
  }

  lemma MirrorsFollow(g: Graph, body: seq<NodeId>, inputs: seq<Tensor>, names: Naming, f: FunctionDef)
    requires Mirrors(g, body, inputs, names, f)
    ensures AllFollow(g, inputs, f, Renaming(g, body, inputs, names))
  {
    var renaming := Renaming(g, body, inputs, names);
    assert |ArgNames(f)| == |f.inputArgs|;
    forall t, ref | ReadsTensor(g, renaming, t, ref) ensures Follows(g, inputs, f, renaming, t, ref) {
      if t in inputs {
        FedResolves(g, body, inputs, names, f, IndexOf(inputs, t));
      } else {
        var b, a, j := UnfedResolves(g, body, inputs, names, f, t);
        assert NodeDefFor(g, g.nodes[body[b]], names.renamed[b], renaming, f.nodeDefs[b]);
        assert ComputedAt(g, f, renaming, t, ref, b, a, j);
      }
    }
  }

  lemma FedFollows(g: Graph, inputs: seq<Tensor>, f: FunctionDef, renaming: map<string, string>, t: Tensor, ref: string)
    requires AllFollow(g, inputs, f, renaming) && ReadsTensor(g, renaming, t, ref) && t in inputs
    ensures Resolve(f, ref) == Some(ArgWhole(IndexOf(inputs, t)))
  {
    assert Follows(g, inputs, f, renaming, t, ref);
  }

  lemma UnfedFollows(g: Graph, inputs: seq<Tensor>, f: FunctionDef, renaming: map<string, string>, t: Tensor, ref: string)
    returns (b: nat, a: nat, j: nat)
    requires AllFollow(g, inputs, f, renaming) && ReadsTensor(g, renaming, t, ref) && t !in inputs
    ensures ComputedAt(g, f, renaming, t, ref, b, a, j)
  {
    assert Follows(g, inputs, f, renaming, t, ref);
    b, a, j :| ComputedAt(g, f, renaming, t, ref, b, a, j);
  }

  /** Under its new name, a tensor has in the function the value it has in the graph. */
  lemma {:induction false} SameValue<V>(g: Graph, inputs: seq<Tensor>, f: FunctionDef, renaming: map<string, string>,
                                        sem: Semantics<V>, args: seq<V>, t: Tensor, ref: string, fuel: nat)
    requires AllFollow(g, inputs, f, renaming) && |args| == |inputs| && ReadsTensor(g, renaming, t, ref)
    ensures SameAt(g, inputs, f, sem, args, t, ref, fuel)
    decreases fuel
  {
    if fuel == 0 {
    } else if t in inputs {
      FedFollows(g, inputs, f, renaming, t, ref);
      SameFed(g, inputs, f, sem, args, ref, t, fuel);
    } else {
      var b, a, j := UnfedFollows(g, inputs, f, renaming, t, ref);
      var n := g.nodes[t.node];
      forall i | 0 <= i < n.op.numInputs
        ensures SameAt(g, inputs, f, sem, args, InputTensor(g, n, i), f.nodeDefs[b].input[i], fuel - 1)
      {
        assert ReadsTensor(g, renaming, InputTensor(g, n, i), f.nodeDefs[b].input[i]);
        SameValue(g, inputs, f, renaming, sem, args, InputTensor(g, n, i), f.nodeDefs[b].input[i], fuel - 1);
      }
      SameUnfed(g, inputs, f, sem, args, ref, t, b, a, j, fuel - 1);
    }
  }

  lemma ReturnIsRenamed(g: Graph, body: seq<NodeId>, inputs: seq<Tensor>, outputs: seq<Tensor>,
                        outputNames: seq<string>, f: FunctionDef, r: nat)
    requires Converts(g, body, inputs, outputs, outputNames, f) && r < |outputs|
    ensures HaveRanges(g, body) && |f.outputArgs| == |outputs| && f.outputArgs[r].name in f.ret
    ensures var renaming := Renaming(g, body, inputs, Name(g, body, inputs, outputs, outputNames));
            && outputs[r].node in g.nodes && Flat(g, outputs[r]) in renaming
            && f.ret[f.outputArgs[r].name] == renaming[Flat(g, outputs[r])]
  {
    var names := Name(g, body, inputs, outputs, outputNames);
    NamesAreUnique(g, body, inputs, outputs, outputNames);
    DistinctTail(names.outs, names.ins, names.renamed);
    var refs := OutputRefs(g, outputs, Renaming(g, body, inputs, names));
    SequenceOk(refs);
    assert refs[r].Ok?;
    AssignedAt(names.outs, Sequence(refs).value, r);
  }

  /** The control inputs of a node definition are its control sources, in edge order, under their new names. */
  ghost predicate ControlsKept(g: Graph, body: seq<NodeId>, n: Node, renamed: seq<string>, d: NodeDef)
    requires |renamed| == |body| && forall e | e in n.inEdges :: e.src in g.nodes
  {
    var srcs := ControlSources(g, n.inEdges);
    && |d.input| == n.op.numInputs + |srcs|
    && forall k | 0 <= k < |srcs| :: IsControl(body, srcs[k], renamed, d.input[n.op.numInputs + k])
  }

  ghost predicate IsControl(body: seq<NodeId>, src: NodeId, renamed: seq<string>, ref: string)
    requires |renamed| == |body|
  {
    src in body && ref == "^" + renamed[LastOf(body, src)]
  }

  lemma ControlRefIs(g: Graph, body: seq<NodeId>, inputs: seq<Tensor>, names: Naming, n: Node, k: nat)
    requires Converted(g, body, inputs, names) && forall e | e in n.inEdges :: e.src in g.nodes
    requires forall b | 0 <= b < |body| :: WellGiven(g.nodes[body[b]].name, names.renamed[b])
    requires k < |ControlSources(g, n.inEdges)|
    requires ControlRefs(g, n, Assigned(NodeNamesOf(g, body), names.renamed))[k].Ok?
    ensures IsControl(body, ControlSources(g, n.inEdges)[k], names.renamed,
                      ControlRefs(g, n, Assigned(NodeNamesOf(g, body), names.renamed))[k].value)
  {
    var srcs := ControlSources(g, n.inEdges);
    assert srcs[k] in srcs;
    LookUpOfBody(g, body, inputs, names, srcs[k]);
  }

  lemma MadeControls(g: Graph, n: Node, mapping: map<string, string>, renaming: map<string, string>, d: NodeDef)
    requires forall e | e in n.inEdges :: e.src in g.nodes
    requires MakeNodeDef(g, n, mapping, renaming) == Ok(d)
    ensures HasControls(g, n, mapping, d)
  {
    var data, control := DataRefs(g, n, renaming), ControlRefs(g, n, mapping);
    SequenceOk(control);
    assert d.input == Sequence(data).value + Sequence(control).value;
  }

  /** What follows the data inputs of a node definition are its control references. */
  ghost predicate HasControls(g: Graph, n: Node, mapping: map<string, string>, d: NodeDef)
    requires forall e | e in n.inEdges :: e.src in g.nodes
  {
    var refs := ControlRefs(g, n, mapping);
    && |d.input| == n.op.numInputs + |refs|
    && forall k | 0 <= k < |refs| :: refs[k].Ok? && d.input[n.op.numInputs + k] == refs[k].value
  }

  lemma KeepsControl(g: Graph, body: seq<NodeId>, inputs: seq<Tensor>, names: Naming, n: Node, d: NodeDef, k: nat)
    requires Converted(g, body, inputs, names) && forall e | e in n.inEdges :: e.src in g.nodes
    requires forall b | 0 <= b < |body| :: WellGiven(g.nodes[body[b]].name, names.renamed[b])
    requires k < |ControlSources(g, n.inEdges)| && HasControls(g, n, Assigned(NodeNamesOf(g, body), names.renamed), d)
    ensures IsControl(body, ControlSources(g, n.inEdges)[k], names.renamed, d.input[n.op.numInputs + k])
  {
    assert ControlRefs(g, n, Assigned(NodeNamesOf(g, body), names.renamed))[k].Ok?;
    ControlRefIs(g, body, inputs, names, n, k);
  }

  lemma NodeDefKeepsControls(g: Graph, body: seq<NodeId>, inputs: seq<Tensor>, names: Naming, b: nat, d: NodeDef)
    requires Converted(g, body, inputs, names) && b < |body|
    requires forall k | 0 <= k < |body| :: WellGiven(g.nodes[body[k]].name, names.renamed[k])
    requires HasControls(g, g.nodes[body[b]], Assigned(NodeNamesOf(g, body), names.renamed), d)
    ensures body[b] in body && ControlsKept(g, body, g.nodes[body[b]], names.renamed, d)
  {
    var n, mapping := g.nodes[body[b]], Assigned(NodeNamesOf(g, body), names.renamed);
    var srcs := ControlSources(g, n.inEdges);
    forall k | 0 <= k < |srcs|
      ensures IsControl(body, srcs[k], names.renamed, d.input[n.op.numInputs + k])
    {
      KeepsControl(g, body, inputs, names, n, d, k);
    }
  }

  lemma ControlsUnderNames(g: Graph, body: seq<NodeId>, inputs: seq<Tensor>, outputs: seq<Tensor>,
                           outputNames: seq<string>, f: FunctionDef, b: nat)
    requires Converts(g, body, inputs, outputs, outputNames, f) && b < |body| == |f.nodeDefs|
    ensures body[b] in body
    ensures ControlsKept(g, body, g.nodes[body[b]], Name(g, body, inputs, outputs, outputNames).renamed, f.nodeDefs[b])
  {
    var names := Name(g, body, inputs, outputs, outputNames);
    NamesAreUnique(g, body, inputs, outputs, outputNames);
    var defs := NodeDefs(g, body, Assigned(NodeNamesOf(g, body), names.renamed), Renaming(g, body, inputs, names));
    SequenceOk(defs);
    assert defs[b] == Ok(f.nodeDefs[b]);
    MadeControls(g, g.nodes[body[b]], Assigned(NodeNamesOf(g, body), names.renamed), Renaming(g, body, inputs, names),
                 f.nodeDefs[b]);
    NodeDefKeepsControls(g, body, inputs, names, b, f.nodeDefs[b]);
  }

  /** Control dependencies survive: exactly those of each body node, on the renamed body nodes. */
  lemma ControlsPreserved(g: Graph, body: seq<NodeId>, inputs: seq<Tensor>, outputs: seq<Tensor>,
                          outputNames: seq<string>, f: FunctionDef, b: nat)
    requires Converts(g, body, inputs, outputs, outputNames, f) && b < |body|
    ensures |f.nodeDefs| == |body| && body[b] in body
    ensures ControlsKept(g, body, g.nodes[body[b]], NodeDefNames(f), f.nodeDefs[b])
  {
    var names := Name(g, body, inputs, outputs, outputNames);
    NodeDefsAreFor(g, body, inputs, outputs, outputNames, f);
    ControlsUnderNames(g, body, inputs, outputs, outputNames, f, b);
    forall src | src in body ensures NodeDefNames(f)[LastOf(body, src)] == names.renamed[LastOf(body, src)] {
      var k := LastOf(body, src);
      assert NodeDefNames(f)[k] == f.nodeDefs[k].name;
    }
  }

  // ---- The theorems -------------------------------------------------------------------------------------

  /**
   Meaning preservation. Call the function with one argument per fed tensor: through `ret`, each
   output has the value the original graph gives it, whatever the ops compute. Equality at every
   depth of evaluation covers acyclic bodies (whose values exist, see ValuesExist) and cyclic ones.
   */
  lemma MeaningPreserved<V>(g: Graph, body: seq<NodeId>, inputs: seq<Tensor>, outputs: seq<Tensor>,
                            outputNames: seq<string>, f: FunctionDef,
                            sem: Semantics<V>, args: seq<V>, r: nat, fuel: nat)
    requires Converts(g, body, inputs, outputs, outputNames, f) && Distinct(body)
    requires |args| == |inputs| && r < |outputs|
    ensures |f.inputArgs| == |inputs| && |f.outputArgs| == |outputs| && f.outputArgs[r].name in f.ret
    ensures ValueOfRef(f, sem, args, f.ret[f.outputArgs[r].name], fuel)
            == ValueInGraph(g, sem, inputs, args, outputs[r], fuel)
  {
    var names := Name(g, body, inputs, outputs, outputNames);
    ConvertedMirrors(g, body, inputs, outputs, outputNames, f);
    ReturnIsRenamed(g, body, inputs, outputs, outputNames, f, r);
    MirrorsFollow(g, body, inputs, names, f);
    SameValue(g, inputs, f, Renaming(g, body, inputs, names), sem, args, outputs[r], f.ret[f.outputArgs[r].name], fuel);
  }

  /** The body has no cycle once the inputs are fed: its unfed tensors can be ranked. */
  ghost predicate Acyclic(g: Graph, body: seq<NodeId>, inputs: seq<Tensor>, rank: NodeId -> nat)
    requires WellFormed(g, body)
  {
    forall b, i | b in body && 0 <= i < g.nodes[b].op.numInputs ::
      var t := InputTensor(g, g.nodes[b], i); t in inputs || rank(t.node) < rank(b)
  }

  ghost function InputValues<V>(g: Graph, sem: Semantics<V>, inputs: seq<Tensor>, args: seq<V>, n: Node, fuel: nat)
    : (vs: seq<Option<V>>)
    requires |args| == |inputs| && CompleteEdges(g, n)
    ensures |vs| == n.op.numInputs
    ensures forall i | 0 <= i < |vs| :: vs[i] == ValueInGraph(g, sem, inputs, args, InputTensor(g, n, i), fuel)
  {
    seq(n.op.numInputs, i requires 0 <= i < n.op.numInputs =>
        ValueInGraph(g, sem, inputs, args, InputTensor(g, n, i), fuel))
  }

  ghost predicate HasValue<V>(g: Graph, sem: Semantics<V>, inputs: seq<Tensor>, args: seq<V>, t: Tensor, fuel: nat)
    requires |args| == |inputs|
  {
    ValueInGraph(g, sem, inputs, args, t, fuel).Some?
  }

  lemma ValueFromInputs<V>(g: Graph, sem: Semantics<V>, inputs: seq<Tensor>, args: seq<V>, t: Tensor, fuel: nat)
    requires |args| == |inputs| && t.node in g.nodes && CompleteEdges(g, g.nodes[t.node])
    requires forall i | 0 <= i < g.nodes[t.node].op.numInputs ::
               HasValue(g, sem, inputs, args, InputTensor(g, g.nodes[t.node], i), fuel)
    ensures HasValue(g, sem, inputs, args, t, fuel + 1)
  {
    var vs := InputValues(g, sem, inputs, args, g.nodes[t.node], fuel);
    forall i | 0 <= i < |vs| ensures vs[i].Some? {
      assert HasValue(g, sem, inputs, args, InputTensor(g, g.nodes[t.node], i), fuel);
    }
  }

  ghost predicate RankedInput(g: Graph, body: seq<NodeId>, inputs: seq<Tensor>, rank: NodeId -> nat, b: NodeId, s: Tensor)
  {
    Available(g, body, inputs, s) && (s in inputs || rank(s.node) < rank(b))
  }

  /** Every body node is complete and reads what is fed or ranks lower. */
  ghost predicate Grounded(g: Graph, body: seq<NodeId>, inputs: seq<Tensor>, rank: NodeId -> nat) {
    forall b {:trigger CompleteEdges(g, g.nodes[b])} | b in body ::
      && b in g.nodes && CompleteEdges(g, g.nodes[b])
      && forall i | 0 <= i < g.nodes[b].op.numInputs :: RankedInput(g, body, inputs, rank, b, InputTensor(g, g.nodes[b], i))
  }

  lemma {:induction false} GroundedHasValue<V>(g: Graph, body: seq<NodeId>, inputs: seq<Tensor>, rank: NodeId -> nat,
                                               sem: Semantics<V>, args: seq<V>, t: Tensor, fuel: nat)
    requires Grounded(g, body, inputs, rank) && |args| == |inputs|
    requires Available(g, body, inputs, t) && fuel > rank(t.node) + 1
    ensures HasValue(g, sem, inputs, args, t, fuel)
    decreases fuel
  {
    if t !in inputs {
      assert CompleteEdges(g, g.nodes[t.node]);
      var n := g.nodes[t.node];
      forall i | 0 <= i < n.op.numInputs ensures HasValue(g, sem, inputs, args, InputTensor(g, n, i), fuel - 1) {
        var s := InputTensor(g, n, i);
        assert RankedInput(g, body, inputs, rank, t.node, s);
        if s !in inputs {
          GroundedHasValue(g, body, inputs, rank, sem, args, s, fuel - 1);
        }
      }
      ValueFromInputs(g, sem, inputs, args, t, fuel - 1);
    }
  }

  /** In an acyclic body every available tensor has a value, however deep the evaluation looks beyond its rank. */
  lemma ValuesExist<V>(g: Graph, body: seq<NodeId>, inputs: seq<Tensor>, rank: NodeId -> nat,
                       sem: Semantics<V>, args: seq<V>, t: Tensor, fuel: nat)
    requires WellFormed(g, body) && Acyclic(g, body, inputs, rank) && |args| == |inputs|
    requires forall b | b in body :: NodeInputsAvailable(g, body, inputs, g.nodes[b])
    requires Available(g, body, inputs, t) && fuel > rank(t.node) + 1
    ensures HasValue(g, sem, inputs, args, t, fuel)
  {
    forall b, i | b in body && 0 <= i < g.nodes[b].op.numInputs
      ensures RankedInput(g, body, inputs, rank, b, InputTensor(g, g.nodes[b], i))
    {
      assert NodeInputsAvailable(g, body, inputs, g.nodes[b]);
    }
    GroundedHasValue(g, body, inputs, rank, sem, args, t, fuel);
  }

  /** A value once found stays the same however much deeper the evaluation may look. */
  lemma {:induction false} DeeperIsSame<V>(g: Graph, sem: Semantics<V>, inputs: seq<Tensor>, args: seq<V>, t: Tensor,
                                           fuel: nat, more: nat)
    requires |args| == |inputs| && fuel <= more && ValueInGraph(g, sem, inputs, args, t, fuel).Some?
    ensures ValueInGraph(g, sem, inputs, args, t, more) == ValueInGraph(g, sem, inputs, args, t, fuel)
    decreases fuel
  {
    if t !in inputs {
      var n := g.nodes[t.node];
      var few := InputValues(g, sem, inputs, args, n, fuel - 1);
      var many := InputValues(g, sem, inputs, args, n, more - 1);
      assert AllSome(few).Some?;
      forall i | 0 <= i < n.op.numInputs ensures many[i] == few[i] {
        DeeperIsSame(g, sem, inputs, args, InputTensor(g, n, i), fuel - 1, more - 1);
      }
      AllSomeEqual(many, few);
    }
  }

  /**
   Meaning preservation for acyclic bodies in one statement: each output has one value, which both
   the graph and the converted function compute from the rank bound on.
   */
  lemma AcyclicMeaning<V>(g: Graph, body: seq<NodeId>, inputs: seq<Tensor>, outputs: seq<Tensor>,
                          outputNames: seq<string>, f: FunctionDef, rank: NodeId -> nat,
                          sem: Semantics<V>, args: seq<V>, r: nat) returns (v: V)
    requires Converts(g, body, inputs, outputs, outputNames, f) && Distinct(body)
    requires Acyclic(g, body, inputs, rank) && |args| == |inputs| && r < |outputs|
    ensures |f.inputArgs| == |inputs| && |f.outputArgs| == |outputs| && f.outputArgs[r].name in f.ret
    ensures forall fuel: nat | fuel > rank(outputs[r].node) + 1 ::
              && ValueInGraph(g, sem, inputs, args, outputs[r], fuel) == Some(v)
              && ValueOfRef(f, sem, args, f.ret[f.outputArgs[r].name], fuel) == Some(v)
  {
    ConvertsIff(g, body, inputs, outputs, outputNames);
    var least := rank(outputs[r].node) + 2;
    ValuesExist(g, body, inputs, rank, sem, args, outputs[r], least);
    v := ValueInGraph(g, sem, inputs, args, outputs[r], least).value;
    MeaningPreserved(g, body, inputs, outputs, outputNames, f, sem, args, r, least);
    forall fuel: nat | fuel > rank(outputs[r].node) + 1
      ensures ValueInGraph(g, sem, inputs, args, outputs[r], fuel) == Some(v)
      ensures ValueOfRef(f, sem, args, f.ret[f.outputArgs[r].name], fuel) == Some(v)
    {
      DeeperIsSame(g, sem, inputs, args, outputs[r], least, fuel);
      MeaningPreserved(g, body, inputs, outputs, outputNames, f, sem, args, r, fuel);
    }
  }
}
