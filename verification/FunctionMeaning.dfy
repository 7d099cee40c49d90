/** What a successful conversion promises: unique names, closure, and the same values as the graph. */
module FunctionMeaning {
  import opened Basics
  import opened Text
  import opened NodeNames
  import opened FunctionModel

  // ---- Graphs the promises are made for -----------------------------------------------------

  ghost predicate Covers(arg: OutputArg, i: nat) {
    arg.first <= i < arg.last
  }

  ghost predicate Covered(args: seq<OutputArg>, i: nat) {
    exists a | 0 <= a < |args| :: Covers(args[a], i)
  }

  /** The output arguments partition the outputs, under distinct names. */
  ghost predicate Partition(args: seq<OutputArg>, n: nat) {
    && (forall a | 0 <= a < |args| :: args[a].first <= args[a].last <= n && NoColon(args[a].name))
    && (forall a, b | 0 <= a < b < |args| :: args[a].name != args[b].name)
    && (forall i | 0 <= i < n :: Covered(args, i))
  }

  ghost predicate NamesIdentifyNodes(g: Graph) {
    && (forall m | m in g.nodes :: NoColon(g.nodes[m].name) && g.nodes[m].name != "")
    && (forall m, n | m in g.nodes && n in g.nodes && g.nodes[m].name == g.nodes[n].name :: m == n)
  }

  ghost predicate FeedsSlot(g: Graph, n: Node, e: Edge, i: nat) {
    && e in n.inEdges && e.Data? && e.dstInput == i && e.src in g.nodes
  }

  ghost predicate SlotComplete(g: Graph, n: Node, i: nat) {
    && (exists e :: FeedsSlot(g, n, e, i))
    && (forall e | FeedsSlot(g, n, e, i) :: ValidTensor(g, Tensor(e.src, e.srcOutput)) && !g.nodes[e.src].isSource)
    && (forall e, e' | FeedsSlot(g, n, e, i) && FeedsSlot(g, n, e', i) :: e == e')
  }

  /** Each input slot is fed by exactly one data edge, which leaves a valid output of an op node. */
  ghost predicate CompleteEdges(g: Graph, n: Node) {
    forall i | 0 <= i < n.op.numInputs :: SlotComplete(g, n, i)
  }

  ghost predicate WellFormed(g: Graph, body: seq<NodeId>) {
    && EdgesInGraph(g)
    && NamesIdentifyNodes(g)
    && forall b | b in body ::
         && b in g.nodes
         && CompleteEdges(g, g.nodes[b])
         && (g.nodes[b].op.outputs.Some? ==> Partition(g.nodes[b].op.outputs.value, |g.nodes[b].op.types|))
  }

  /** The tensor that feeds input i of a node. */
  ghost function InputTensor(g: Graph, n: Node, i: nat): (t: Tensor)
    requires CompleteEdges(g, n) && i < n.op.numInputs
    ensures ValidTensor(g, t)
  {
    assert SlotComplete(g, n, i);
    var e :| FeedsSlot(g, n, e, i);
    Tensor(e.src, e.srcOutput)
  }

  lemma InputNameIsTensor(g: Graph, n: Node, i: nat)
    requires CompleteEdges(g, n) && i < n.op.numInputs && forall e | e in n.inEdges :: e.src in g.nodes
    ensures InputName(g, n, i) == Ok(Flat(g, InputTensor(g, n, i)))
  {
    assert SlotComplete(g, n, i);
    var e :| FeedsSlot(g, n, e, i);
    var s := SlotEdge(g, n.inEdges, i);
    if s.Some? {
      assert FeedsSlot(g, n, s.value, i);
    }
  }

  lemma FlatInjective(g: Graph, s: Tensor, t: Tensor)
    requires NamesIdentifyNodes(g) && s.node in g.nodes && t.node in g.nodes
    requires Flat(g, s) == Flat(g, t)
    ensures s == t
  {
    SplitAtColon(g.nodes[s.node].name, Decimal(s.index), g.nodes[t.node].name, Decimal(t.index));
    DecimalInjective(s.index, t.index);
  }

  // ---- Names ---------------------------------------------------------------------------------

  ghost predicate WellGiven(wanted: string, given: string) {
    wanted <= given && (NoColon(wanted) ==> NoColon(given)) && (IsArgName(wanted) ==> IsArgName(given))
  }

  lemma {:induction false} ExtendNames(taken: seq<string>, wanted: seq<string>)
    requires Distinct(taken)
    ensures Extend(taken, wanted) == taken + Given(taken, wanted)
    ensures Distinct(Extend(taken, wanted))
    ensures forall i | 0 <= i < |wanted| :: WellGiven(wanted[i], Given(taken, wanted)[i])
  {
    if wanted != [] {
      var n := |wanted| - 1;
      var r := Extend(taken, wanted[..n]);
      ExtendNames(taken, wanted[..n]);
      UniqueNameShape(Elems(r), wanted[n]);
      assert forall i | 0 <= i < |r| :: r[i] in Elems(r);
      assert Given(taken, wanted) == Given(taken, wanted[..n]) + [UniqueName(Elems(r), wanted[n])];
      assert forall i | 0 <= i < n :: wanted[..n][i] == wanted[i];
    }
  }

  /**
   Name uniqueness, for any conversion whose explicit output names are distinct: all argument
   and node names handed out differ from each other, and generated argument names match the
   pattern [a-z][a-z0-9_]*.
   */
  lemma NamesAreUnique(g: Graph, body: seq<NodeId>, inputs: seq<Tensor>, outputs: seq<Tensor>, outputNames: seq<string>)
    requires ValidCall(g, body, inputs, outputs, outputNames) && Distinct(outputNames)
    ensures var n := Name(g, body, inputs, outputs, outputNames);
            && Distinct(n.outs + n.ins + n.renamed)
            && (forall i | 0 <= i < |n.ins| :: IsArgName(n.ins[i]))
            && (outputNames == [] ==> forall i | 0 <= i < |n.outs| :: IsArgName(n.outs[i]))
            && (forall k | 0 <= k < |body| :: WellGiven(g.nodes[body[k]].name, n.renamed[k]))
  {
    var outs := OutputNames(g, outputs, outputNames);
    GeneratedOutputNames(g, outputs);
    InputNames(g, inputs, outs);
    ExtendNames(Extend(outs, Normals(g, inputs)), NodeNamesOf(g, body));
  }

  lemma NormalsAreArgNames(g: Graph, ts: seq<Tensor>)
    requires forall t | t in ts :: t.node in g.nodes
    ensures forall i | 0 <= i < |ts| :: IsArgName(Normals(g, ts)[i])
  {
  }

  lemma GeneratedOutputNames(g: Graph, outputs: seq<Tensor>)
    requires forall t | t in outputs :: t.node in g.nodes
    ensures Distinct(Extend([], Normals(g, outputs)))
    ensures forall i | 0 <= i < |outputs| :: IsArgName(Extend([], Normals(g, outputs))[i])
  {
    NormalsAreArgNames(g, outputs);
    ExtendNames([], Normals(g, outputs));
    assert Given([], Normals(g, outputs)) == Extend([], Normals(g, outputs));
  }

  lemma InputNames(g: Graph, inputs: seq<Tensor>, outs: seq<string>)
    requires (forall t | t in inputs :: t.node in g.nodes) && Distinct(outs)
    ensures Extend(outs, Normals(g, inputs)) == outs + Given(outs, Normals(g, inputs))
    ensures Distinct(Extend(outs, Normals(g, inputs)))
    ensures forall i | 0 <= i < |inputs| :: IsArgName(Given(outs, Normals(g, inputs))[i])
  {
    NormalsAreArgNames(g, inputs);
    ExtendNames(outs, Normals(g, inputs));
  }

  lemma DistinctSuffix<T>(a: seq<T>, b: seq<T>)
    requires Distinct(a + b)
    ensures Distinct(a) && Distinct(b)
    ensures forall i, j | 0 <= i < |a| && 0 <= j < |b| :: a[i] != b[j]
  {
    var s := a + b;
    assert forall i | 0 <= i < |a| :: s[i] == a[i];
    assert forall j | 0 <= j < |b| :: s[|a| + j] == b[j];
  }

  lemma NodeDefNamesAre(g: Graph, body: seq<NodeId>, inputs: seq<Tensor>, outputs: seq<Tensor>,
                        outputNames: seq<string>, f: FunctionDef)
    requires ValidCall(g, body, inputs, outputs, outputNames)
    requires Convert(g, body, inputs, outputs, outputNames) == Ok(f)
    ensures |f.nodeDefs| == |body|
    ensures var mapping := Assigned(NodeNamesOf(g, body), Name(g, body, inputs, outputs, outputNames).renamed);
            forall i | 0 <= i < |body| :: f.nodeDefs[i].name == LookUp(mapping, NodeNamesOf(g, body)[i])
  {
    var n := Name(g, body, inputs, outputs, outputNames);
    SequenceOk(NodeDefs(g, body, Assigned(NodeNamesOf(g, body), n.renamed), Renaming(g, body, inputs, n)));
  }

  /** The node definitions are distinctly named exactly when the body nodes were. */
  lemma NodeDefNamesDistinctIff(g: Graph, body: seq<NodeId>, inputs: seq<Tensor>, outputs: seq<Tensor>,
                                outputNames: seq<string>, f: FunctionDef)
    requires ValidCall(g, body, inputs, outputs, outputNames)
    requires Convert(g, body, inputs, outputs, outputNames) == Ok(f)
    ensures |f.nodeDefs| == |body|
    ensures (forall i, j | 0 <= i < j < |body| :: f.nodeDefs[i].name != f.nodeDefs[j].name)
            <==> Distinct(NodeNamesOf(g, body))
  {
    var n := Name(g, body, inputs, outputs, outputNames);
    var wanted := NodeNamesOf(g, body);
    NodeDefNamesAre(g, body, inputs, outputs, outputNames, f);
    NamesAreUnique(g, body, inputs, outputs, outputNames);
    DistinctSuffix(n.outs + n.ins, n.renamed);
    if Distinct(wanted) {
      forall i | 0 <= i < |body| ensures f.nodeDefs[i].name == n.renamed[i] {
        AssignedAt(wanted, n.renamed, i);
      }
    }
  }

  // ---- Which tensors a function can refer to ----------------------------------------------------

  /** A function input, or an output of a body node. */
  ghost predicate Available(g: Graph, body: seq<NodeId>, inputs: seq<Tensor>, t: Tensor) {
    t in inputs || (t.node in body && ValidTensor(g, t))
  }

  function IndexOf<T(==)>(s: seq<T>, x: T): (i: nat)
    requires x in s
    ensures i < |s| && s[i] == x
  {
    if s[0] == x then 0 else 1 + IndexOf(s[1..], x)
  }

  lemma {:induction false} IndexOfIsFirst<T>(s: seq<T>, x: T, j: nat)
    requires x in s && j < IndexOf(s, x)
    ensures s[j] != x
  {
    if j > 0 {
      IndexOfIsFirst(s[1..], x, j - 1);
    }
  }

  function LastOf<T(==)>(s: seq<T>, x: T): (i: nat)
    requires x in s
    ensures i < |s| && s[i] == x
  {
    if s[|s| - 1] == x then |s| - 1 else LastOf(s[..|s| - 1], x)
  }

  lemma {:induction false} LastOfIsLast<T>(s: seq<T>, x: T, j: nat)
    requires x in s && LastOf(s, x) < j < |s|
    ensures s[j] != x
  {
    if j < |s| - 1 {
      LastOfIsLast(s[..|s| - 1], x, j);
    }
  }

  lemma LastOfDistinct<T>(s: seq<T>, b: nat)
    requires Distinct(s) && b < |s|
    ensures s[b] in s && LastOf(s, s[b]) == b
  {
  }

  /** Everything the conversion had to hand once all names were given out. */
  ghost predicate Converted(g: Graph, body: seq<NodeId>, inputs: seq<Tensor>, names: Naming) {
    && WellFormed(g, body) && HaveRanges(g, body)
    && (forall t | t in inputs :: ValidTensor(g, t)) && Distinct(inputs)
    && |names.ins| == |inputs| && |names.renamed| == |body|
  }

  /** Body node b, output argument a, element j: where an unfed tensor is found in the function. */
  ghost predicate MadeAt(g: Graph, body: seq<NodeId>, t: Tensor, b: nat, a: nat, j: nat)
    requires forall id | id in body :: id in g.nodes && g.nodes[id].op.outputs.Some?
  {
    && b < |body| && body[b] == t.node
    && a < |g.nodes[t.node].op.outputs.value|
    && j < Size(g.nodes[t.node].op.outputs.value[a])
    && g.nodes[t.node].op.outputs.value[a].first + j == t.index
  }

  lemma RenamingOfInput(g: Graph, body: seq<NodeId>, inputs: seq<Tensor>, names: Naming, k: nat)
    requires Converted(g, body, inputs, names) && k < |inputs|
    ensures inputs[k] in inputs
    ensures Flat(g, inputs[k]) in Renaming(g, body, inputs, names)
    ensures Renaming(g, body, inputs, names)[Flat(g, inputs[k])] == names.ins[k]
  {
    var flats := Flats(g, inputs);
    forall i, j | 0 <= i < j < |flats| ensures flats[i] != flats[j] {
      if flats[i] == flats[j] { FlatInjective(g, inputs[i], inputs[j]); }
    }
    AssignedAt(flats, names.ins, k);
    AddBodyKeys(Assigned(flats, names.ins), g, body, names.renamed);
  }

  lemma UnfedNotAssigned(g: Graph, inputs: seq<Tensor>, ins: seq<string>, t: Tensor)
    requires NamesIdentifyNodes(g) && (forall i | i in inputs :: i.node in g.nodes) && |ins| == |inputs|
    requires t.node in g.nodes && t !in inputs
    ensures Flat(g, t) !in Assigned(Flats(g, inputs), ins)
  {
    AssignedKeys(Flats(g, inputs), ins);
    if Flat(g, t) in Flats(g, inputs) {
      var i :| 0 <= i < |inputs| && Flats(g, inputs)[i] == Flat(g, t);
      FlatInjective(g, inputs[i], t);
      assert false;
    }
  }

  lemma MadeWhere(g: Graph, body: seq<NodeId>, inputs: seq<Tensor>, names: Naming, t: Tensor, b: nat, val: string)
    returns (a: nat, j: nat)
    requires Converted(g, body, inputs, names) && t.node in g.nodes && b < |body|
    requires BodyMakes(g, body, names.renamed, b, Flat(g, t), val)
    ensures MadeAt(g, body, t, b, a, j)
    ensures val == Nested(names.renamed[b], g.nodes[t.node].op.outputs.value[a].name, j)
  {
    var n := g.nodes[body[b]];
    a :| 0 <= a < |n.op.outputs.value| && ArgMakes(n.name, names.renamed[b], n.op.outputs.value[a], Flat(g, t), val);
    var arg := n.op.outputs.value[a];
    j :| 0 <= j < Size(arg) && ArgKeys(n.name, arg)[j] == Flat(g, t) && ArgVals(names.renamed[b], arg)[j] == val;
    FlatInjective(g, Tensor(body[b], arg.first + j), t);
  }

  lemma RenamingOfUnfed(g: Graph, body: seq<NodeId>, inputs: seq<Tensor>, names: Naming, t: Tensor)
    returns (b: nat, a: nat, j: nat)
    requires Converted(g, body, inputs, names) && t.node in g.nodes && t !in inputs
    requires Flat(g, t) in Renaming(g, body, inputs, names)
    ensures MadeAt(g, body, t, b, a, j) && b == IndexOf(body, t.node)
    ensures Renaming(g, body, inputs, names)[Flat(g, t)]
            == Nested(names.renamed[b], g.nodes[t.node].op.outputs.value[a].name, j)
  {
    var fed, r, key := Assigned(Flats(g, inputs), names.ins), Renaming(g, body, inputs, names), Flat(g, t);
    UnfedNotAssigned(g, inputs, names.ins, t);
    AddBodyKeys(fed, g, body, names.renamed);
    b :| 0 <= b < |body| && BodyMakes(g, body, names.renamed, b, key, r[key]);
    a, j := MadeWhere(g, body, inputs, names, t, b, r[key]);
    b, a, j := FirstMaker(g, body, inputs, names, t, a, j);
  }

  /** Of the body nodes that produce a tensor, the one listed first names it. */
  lemma FirstMaker(g: Graph, body: seq<NodeId>, inputs: seq<Tensor>, names: Naming, t: Tensor, a0: nat, j0: nat)
    returns (b: nat, a: nat, j: nat)
    requires Converted(g, body, inputs, names) && t.node in body && t !in inputs
    requires MadeAt(g, body, t, IndexOf(body, t.node), a0, j0)
    ensures MadeAt(g, body, t, b, a, j) && b == IndexOf(body, t.node)
    ensures Flat(g, t) in Renaming(g, body, inputs, names)
    ensures Renaming(g, body, inputs, names)[Flat(g, t)]
            == Nested(names.renamed[b], g.nodes[t.node].op.outputs.value[a].name, j)
  {
    var fed, key, n := Assigned(Flats(g, inputs), names.ins), Flat(g, t), IndexOf(body, t.node) + 1;
    var front, part := body[..n], names.(renamed := names.renamed[..n]);
    UnfedNotAssigned(g, inputs, names.ins, t);
    FrontConverted(g, body, inputs, names, n);
    var arg := g.nodes[t.node].op.outputs.value[a0];
    assert ArgKeys(g.nodes[t.node].name, arg)[j0] == key;
    AddBodyCovers(fed, g, front, part.renamed, n - 1, a0, key);
    AddBodyKeys(fed, g, front, part.renamed);
    var r := AddBody(fed, g, front, part.renamed);
    b :| 0 <= b < n && BodyMakes(g, front, part.renamed, b, key, r[key]);
    a, j := MadeWhere(g, front, inputs, part, t, b, r[key]);
    if b < n - 1 {
      IndexOfIsFirst(body, t.node, b);
      assert false;
    }
    AddBodyPrefix(fed, g, body, names.renamed, n);
  }

  lemma FrontConverted(g: Graph, body: seq<NodeId>, inputs: seq<Tensor>, names: Naming, n: nat)
    requires Converted(g, body, inputs, names) && n <= |body|
    ensures Converted(g, body[..n], inputs, names.(renamed := names.renamed[..n]))
  {
    assert forall b | b in body[..n] :: b in body;
  }

  lemma RenamingOfMade(g: Graph, body: seq<NodeId>, inputs: seq<Tensor>, names: Naming, t: Tensor)
    requires Converted(g, body, inputs, names) && t.node in body && ValidTensor(g, t)
    ensures Flat(g, t) in Renaming(g, body, inputs, names)
  {
    var b := IndexOf(body, t.node);
    var n := g.nodes[t.node];
    assert Covered(n.op.outputs.value, t.index);
    var a :| 0 <= a < |n.op.outputs.value| && Covers(n.op.outputs.value[a], t.index);
    var arg := n.op.outputs.value[a];
    assert ArgKeys(n.name, arg)[t.index - arg.first] == Flat(g, t);
    AddBodyCovers(Assigned(Flats(g, inputs), names.ins), g, body, names.renamed, b, a, Flat(g, t));
  }

  /** tensor_renaming knows exactly the available tensors. */
  lemma RenamedIffAvailable(g: Graph, body: seq<NodeId>, inputs: seq<Tensor>, names: Naming, t: Tensor)
    requires Converted(g, body, inputs, names) && t.node in g.nodes
    ensures Flat(g, t) in Renaming(g, body, inputs, names) <==> Available(g, body, inputs, t)
  {
    if t in inputs {
      RenamingOfInput(g, body, inputs, names, IndexOf(inputs, t));
    } else if Flat(g, t) in Renaming(g, body, inputs, names) {
      var b, a, j := RenamingOfUnfed(g, body, inputs, names, t);
      assert body[b] in body;
    } else if Available(g, body, inputs, t) {
      RenamingOfMade(g, body, inputs, names, t);
      assert false;
    }
  }

  // ---- Exactly when the conversion succeeds ---------------------------------------------------

  ghost predicate NodeInputsAvailable(g: Graph, body: seq<NodeId>, inputs: seq<Tensor>, n: Node)
    requires CompleteEdges(g, n)
  {
    && (forall i | 0 <= i < n.op.numInputs :: Available(g, body, inputs, InputTensor(g, n, i)))
    && (forall e | e in n.inEdges && e.Control? && e.src in g.nodes && !g.nodes[e.src].isSource :: e.src in body)
  }

  lemma DataRefsOkIff(g: Graph, body: seq<NodeId>, inputs: seq<Tensor>, names: Naming, b: NodeId)
    requires Converted(g, body, inputs, names) && b in body
    ensures Sequence(DataRefs(g, g.nodes[b], Renaming(g, body, inputs, names))).Ok?
            <==> forall i | 0 <= i < g.nodes[b].op.numInputs ::
                   Available(g, body, inputs, InputTensor(g, g.nodes[b], i))
  {
    var n := g.nodes[b];
    var refs := DataRefs(g, n, Renaming(g, body, inputs, names));
    SequenceOk(refs);
    forall i | 0 <= i < n.op.numInputs
      ensures refs[i].Ok? <==> Available(g, body, inputs, InputTensor(g, n, i))
    {
      InputNameIsTensor(g, n, i);
      RenamedIffAvailable(g, body, inputs, names, InputTensor(g, n, i));
    }
  }

  /** A lookup finds a name exactly for the body nodes: the one given out when the node was last listed. */
  lemma LookUpOfBody(g: Graph, body: seq<NodeId>, inputs: seq<Tensor>, names: Naming, id: NodeId)
    requires Converted(g, body, inputs, names) && id in g.nodes
    requires forall k | 0 <= k < |body| :: WellGiven(g.nodes[body[k]].name, names.renamed[k])
    ensures var name := LookUp(Assigned(NodeNamesOf(g, body), names.renamed), g.nodes[id].name);
            (name != "" <==> id in body) && (id in body ==> name == names.renamed[LastOf(body, id)])
  {
    if id in body {
      LookUpListed(g, body, names.renamed, id);
      assert WellGiven(g.nodes[id].name, names.renamed[LastOf(body, id)]);
    } else {
      AssignedKeys(NodeNamesOf(g, body), names.renamed);
      assert forall k | 0 <= k < |body| :: body[k] in body && NodeNamesOf(g, body)[k] == g.nodes[body[k]].name;
    }
  }

  /** The name mapping holds the name given out for the last listing of a node. */
  lemma LookUpListed(g: Graph, body: seq<NodeId>, renamed: seq<string>, id: NodeId)
    requires NamesIdentifyNodes(g) && (forall b | b in body :: b in g.nodes) && |renamed| == |body| && id in body
    ensures LookUp(Assigned(NodeNamesOf(g, body), renamed), g.nodes[id].name) == renamed[LastOf(body, id)]
  {
    var wanted, k := NodeNamesOf(g, body), LastOf(body, id);
    forall j | k < j < |body| ensures wanted[j] != wanted[k] {
      LastOfIsLast(body, id, j);
      assert body[j] in body;
    }
    AssignedLast(wanted, renamed, k);
  }

  lemma ControlRefsOkIff(g: Graph, body: seq<NodeId>, inputs: seq<Tensor>, names: Naming, b: NodeId)
    requires Converted(g, body, inputs, names) && b in body
    requires forall k | 0 <= k < |body| :: WellGiven(g.nodes[body[k]].name, names.renamed[k])
    ensures Sequence(ControlRefs(g, g.nodes[b], Assigned(NodeNamesOf(g, body), names.renamed))).Ok?
            <==> forall e | e in g.nodes[b].inEdges && e.Control? && !g.nodes[e.src].isSource :: e.src in body
  {
    var n, mapping := g.nodes[b], Assigned(NodeNamesOf(g, body), names.renamed);
    var srcs, refs := ControlSources(g, n.inEdges), ControlRefs(g, n, mapping);
    SequenceOk(refs);
    forall i | 0 <= i < |srcs| ensures refs[i].Ok? <==> srcs[i] in body {
      assert srcs[i] in srcs;
      LookUpOfBody(g, body, inputs, names, srcs[i]);
    }
    forall e | e in n.inEdges && e.Control? && !g.nodes[e.src].isSource ensures e.src in srcs {
      assert Control(e.src) == e;
    }
    if forall i | 0 <= i < |srcs| :: srcs[i] in body {
      assert forall s | s in srcs :: s in body;
    }
  }

  lemma BodyConvertsIff(g: Graph, body: seq<NodeId>, inputs: seq<Tensor>, names: Naming)
    requires Converted(g, body, inputs, names)
    requires forall k | 0 <= k < |body| :: WellGiven(g.nodes[body[k]].name, names.renamed[k])
    ensures Sequence(NodeDefs(g, body, Assigned(NodeNamesOf(g, body), names.renamed),
                              Renaming(g, body, inputs, names))).Ok?
            <==> forall b | b in body :: NodeInputsAvailable(g, body, inputs, g.nodes[b])
  {
    var defs := NodeDefs(g, body, Assigned(NodeNamesOf(g, body), names.renamed), Renaming(g, body, inputs, names));
    SequenceOk(defs);
    forall k | 0 <= k < |body|
      ensures defs[k].Ok? <==> NodeInputsAvailable(g, body, inputs, g.nodes[body[k]])
    {
      DataRefsOkIff(g, body, inputs, names, body[k]);
      ControlRefsOkIff(g, body, inputs, names, body[k]);
    }
    assert forall b | b in body :: defs[IndexOf(body, b)].Ok? <==> NodeInputsAvailable(g, body, inputs, g.nodes[b]);
  }

  lemma OutputsConvertIff(g: Graph, body: seq<NodeId>, inputs: seq<Tensor>, names: Naming, outputs: seq<Tensor>)
    requires Converted(g, body, inputs, names) && forall t | t in outputs :: t.node in g.nodes
    ensures Sequence(OutputRefs(g, outputs, Renaming(g, body, inputs, names))).Ok?
            <==> forall t | t in outputs :: Available(g, body, inputs, t)
  {
    var refs := OutputRefs(g, outputs, Renaming(g, body, inputs, names));
    SequenceOk(refs);
    forall i | 0 <= i < |outputs| ensures refs[i].Ok? <==> Available(g, body, inputs, outputs[i]) {
      RenamedIffAvailable(g, body, inputs, names, outputs[i]);
    }
    assert forall t | t in outputs :: refs[IndexOf(outputs, t)].Ok? <==> Available(g, body, inputs, t);
  }

  /**
   Exact failure: the conversion succeeds if and only if explicit output names are distinct, the
   output ranges of body ops are known, every data input and every output is a function input or
   produced in the body, and every control source is in the body.
   */
  lemma ConvertsIff(g: Graph, body: seq<NodeId>, inputs: seq<Tensor>, outputs: seq<Tensor>, outputNames: seq<string>)
    requires ValidCall(g, body, inputs, outputs, outputNames) && WellFormed(g, body) && Distinct(inputs)
    ensures Convert(g, body, inputs, outputs, outputNames).Ok?
            <==> && Distinct(outputNames)
                 && HaveRanges(g, body)
                 && (forall b | b in body :: NodeInputsAvailable(g, body, inputs, g.nodes[b]))
                 && (forall t | t in outputs :: Available(g, body, inputs, t))
  {
    if Distinct(outputNames) && HaveRanges(g, body) {
      var names := Name(g, body, inputs, outputs, outputNames);
      NamesAreUnique(g, body, inputs, outputs, outputNames);
      BodyConvertsIff(g, body, inputs, names);
      OutputsConvertIff(g, body, inputs, names, outputs);
    }
  }

  // ---- What else a conversion promises ----------------------------------------------------------

  lemma ConvertedParts(g: Graph, body: seq<NodeId>, inputs: seq<Tensor>, outputs: seq<Tensor>,
                       outputNames: seq<string>, f: FunctionDef)
    requires ValidCall(g, body, inputs, outputs, outputNames)
    requires Convert(g, body, inputs, outputs, outputNames) == Ok(f)
    ensures Distinct(outputNames) && HaveRanges(g, body)
    ensures var names := Name(g, body, inputs, outputs, outputNames);
            && f.inputArgs == Signature(g, inputs, names.ins) && f.outputArgs == Signature(g, outputs, names.outs)
            && Sequence(NodeDefs(g, body, Assigned(NodeNamesOf(g, body), names.renamed), Renaming(g, body, inputs, names)))
               == Ok(f.nodeDefs)
  {
  }

  ghost predicate HasDataType(g: Graph, t: Tensor, dtype: DataType) {
    ValidTensor(g, t) && g.nodes[t.node].op.types[t.index] == dtype
  }

  lemma SignatureTypes(g: Graph, ts: seq<Tensor>, names: seq<string>, k: nat)
    requires |ts| == |names| && (forall t | t in ts :: ValidTensor(g, t)) && k < |ts|
    ensures HasDataType(g, ts[k], Signature(g, ts, names)[k].dtype)
  {
    assert ts[k] in ts;
  }

  /** Arguments have the types of the tensors they stand for, and explicit output names are used as given. */
  lemma ConvertedSignature(g: Graph, body: seq<NodeId>, inputs: seq<Tensor>, outputs: seq<Tensor>,
                           outputNames: seq<string>, f: FunctionDef)
    requires ValidCall(g, body, inputs, outputs, outputNames)
    requires Convert(g, body, inputs, outputs, outputNames) == Ok(f)
    ensures |f.inputArgs| == |inputs| && |f.outputArgs| == |outputs|
    ensures forall k | 0 <= k < |inputs| :: HasDataType(g, inputs[k], f.inputArgs[k].dtype)
    ensures forall r | 0 <= r < |outputs| :: HasDataType(g, outputs[r], f.outputArgs[r].dtype)
    ensures outputNames != [] ==> forall r | 0 <= r < |outputs| :: f.outputArgs[r].name == outputNames[r]
  {
    ConvertedParts(g, body, inputs, outputs, outputNames, f);
    var names := Name(g, body, inputs, outputs, outputNames);
    forall k | 0 <= k < |inputs| ensures HasDataType(g, inputs[k], f.inputArgs[k].dtype) {
      SignatureTypes(g, inputs, names.ins, k);
    }
    forall r | 0 <= r < |outputs| ensures HasDataType(g, outputs[r], f.outputArgs[r].dtype) {
      SignatureTypes(g, outputs, names.outs, r);
    }
  }

  lemma MadeFrom(g: Graph, body: seq<NodeId>, inputs: seq<Tensor>, outputs: seq<Tensor>,
                 outputNames: seq<string>, f: FunctionDef, b: nat)
    requires ValidCall(g, body, inputs, outputs, outputNames) && b < |body|
    requires Convert(g, body, inputs, outputs, outputNames) == Ok(f)
    ensures |f.nodeDefs| == |body| && body[b] in g.nodes && HaveRanges(g, body)
    ensures var names := Name(g, body, inputs, outputs, outputNames);
            MakeNodeDef(g, g.nodes[body[b]], Assigned(NodeNamesOf(g, body), names.renamed), Renaming(g, body, inputs, names))
            == Ok(f.nodeDefs[b])
  {
    ConvertedParts(g, body, inputs, outputs, outputNames, f);
    var n := Name(g, body, inputs, outputs, outputNames);
    var defs := NodeDefs(g, body, Assigned(NodeNamesOf(g, body), n.renamed), Renaming(g, body, inputs, n));
    SequenceOk(defs);
    assert defs[b].Ok? && body[b] in body;
  }

  /** Node definition b has the op of body node b, on the device it was assigned to or else asked for. */
  lemma ConvertedNodes(g: Graph, body: seq<NodeId>, inputs: seq<Tensor>, outputs: seq<Tensor>,
                       outputNames: seq<string>, f: FunctionDef, b: nat)
    requires ValidCall(g, body, inputs, outputs, outputNames) && b < |body|
    requires Convert(g, body, inputs, outputs, outputNames) == Ok(f)
    ensures |f.nodeDefs| == |body| && body[b] in g.nodes && f.nodeDefs[b].op == g.nodes[body[b]].op
    ensures g.nodes[body[b]].assignedDevice != "" ==> f.nodeDefs[b].device == g.nodes[body[b]].assignedDevice
    ensures g.nodes[body[b]].assignedDevice == "" ==> f.nodeDefs[b].device == g.nodes[body[b]].device
  {
    MadeFrom(g, body, inputs, outputs, outputNames, f, b);
  }

  /** No data edge that counts comes into slot i: the input is only named in the node definition. */
  ghost predicate OnlyRequested(g: Graph, n: Node, i: nat)
    requires forall e | e in n.inEdges :: e.src in g.nodes
  {
    forall e | e in n.inEdges && e.Data? && e.dstInput == i :: g.nodes[e.src].isSource
  }

  lemma RequestedRef(g: Graph, n: Node, mapping: map<string, string>, renaming: map<string, string>, d: NodeDef, i: nat)
    requires (forall e | e in n.inEdges :: e.src in g.nodes) && i < n.op.numInputs && OnlyRequested(g, n, i)
    requires MakeNodeDef(g, n, mapping, renaming) == Ok(d)
    ensures i < |n.requested| && n.requested[i] in renaming
    ensures i < |d.input| && d.input[i] == renaming[n.requested[i]]
  {
    var refs := DataRefs(g, n, renaming);
    SequenceOk(refs);
    assert refs[i].Ok?;
    SlotIsCounted(g, n.inEdges, i);
    assert d.input[i] == Sequence(refs).value[i];
  }

  /**
   A back edge that is present only in the node definition, as "<node>:<index>", is followed too:
   if it names a fed tensor, the node definition reads the argument for that tensor.
   */
  lemma RequestedInputIsRead(g: Graph, body: seq<NodeId>, inputs: seq<Tensor>, outputs: seq<Tensor>,
                             outputNames: seq<string>, f: FunctionDef, b: nat, n: Node, i: nat, k: nat, t: Tensor)
    requires ValidCall(g, body, inputs, outputs, outputNames) && NamesIdentifyNodes(g) && Distinct(inputs)
    requires Convert(g, body, inputs, outputs, outputNames) == Ok(f)
    requires b < |body| && body[b] in g.nodes && g.nodes[body[b]] == n && i < n.op.numInputs && OnlyRequested(g, n, i)
    requires k < |inputs| && inputs[k] == t && t.node in g.nodes
    ensures i < |n.requested| && |f.nodeDefs| == |body| && i < |f.nodeDefs[b].input| && |f.inputArgs| == |inputs|
    ensures n.requested[i] == g.nodes[t.node].name + ":" + Decimal(t.index) ==>
              f.nodeDefs[b].input[i] == f.inputArgs[k].name
  {
    var names := Name(g, body, inputs, outputs, outputNames);
    ConvertedParts(g, body, inputs, outputs, outputNames, f);
    MadeFrom(g, body, inputs, outputs, outputNames, f, b);
    RequestedRef(g, n, Assigned(NodeNamesOf(g, body), names.renamed), Renaming(g, body, inputs, names), f.nodeDefs[b], i);
    FedIsRenamed(g, body, inputs, names, k);
  }

  lemma {:induction false} SlotIsCounted(g: Graph, edges: seq<Edge>, i: nat)
    requires forall e | e in edges :: e.src in g.nodes
    ensures SlotEdge(g, edges, i).Some? ==> !g.nodes[SlotEdge(g, edges, i).value.src].isSource
  {
    if edges != [] {
      SlotIsCounted(g, edges[..|edges| - 1], i);
    }
  }

  lemma FedIsRenamed(g: Graph, body: seq<NodeId>, inputs: seq<Tensor>, names: Naming, k: nat)
    requires EdgesInGraph(g) && (forall b | b in body :: b in g.nodes) && HaveRanges(g, body)
    requires NamesIdentifyNodes(g) && (forall t | t in inputs :: t.node in g.nodes) && Distinct(inputs)
    requires |names.ins| == |inputs| && |names.renamed| == |body| && k < |inputs|
    ensures Flat(g, inputs[k]) in Renaming(g, body, inputs, names)
    ensures Renaming(g, body, inputs, names)[Flat(g, inputs[k])] == names.ins[k]
  {
    var flats := Flats(g, inputs);
    forall i, j | 0 <= i < j < |flats| ensures flats[i] != flats[j] {
      if flats[i] == flats[j] { FlatInjective(g, inputs[i], inputs[j]); }
    }
    AssignedAt(flats, names.ins, k);
    AddBodyKeys(Assigned(flats, names.ins), g, body, names.renamed);
  }

  // ---- Why a conversion fails -------------------------------------------------------------------

  ghost predicate SomeDataMissing(g: Graph, body: seq<NodeId>, inputs: seq<Tensor>)
    requires WellFormed(g, body)
  {
    exists b, i :: b in body && 0 <= i < g.nodes[b].op.numInputs && !Available(g, body, inputs, InputTensor(g, g.nodes[b], i))
  }

  ghost predicate SomeControlOutside(g: Graph, body: seq<NodeId>)
    requires WellFormed(g, body)
  {
    exists b, e :: b in body && e in g.nodes[b].inEdges && e.Control? && !g.nodes[e.src].isSource && e.src !in body
  }

  /** Each error is reported for its own reason. */
  lemma WhyItFails(g: Graph, body: seq<NodeId>, inputs: seq<Tensor>, outputs: seq<Tensor>, outputNames: seq<string>)
    requires ValidCall(g, body, inputs, outputs, outputNames) && WellFormed(g, body) && Distinct(inputs)
    requires Convert(g, body, inputs, outputs, outputNames).Err?
    ensures var e := Convert(g, body, inputs, outputs, outputNames).error;
            || (e.DuplicateOutputName? && !Distinct(outputNames))
            || (e.BadOutputRanges? && !HaveRanges(g, body))
            || (e.UnavailableInput? && SomeDataMissing(g, body, inputs))
            || (e.ControlSourceOutsideBody? && SomeControlOutside(g, body))
            || (e.UnavailableOutput? && exists t :: t in outputs && !Available(g, body, inputs, t))
  {
    if Distinct(outputNames) && HaveRanges(g, body) {
      var names := Name(g, body, inputs, outputs, outputNames);
      NamesAreUnique(g, body, inputs, outputs, outputNames);
      var defs := NodeDefs(g, body, Assigned(NodeNamesOf(g, body), names.renamed), Renaming(g, body, inputs, names));
      if Sequence(defs).Err? {
        var b := SequenceErr(defs);
        WhyNodeFails(g, body, inputs, names, b);
      } else {
        var refs := OutputRefs(g, outputs, Renaming(g, body, inputs, names));
        var r := SequenceErr(refs);
        RenamedIffAvailable(g, body, inputs, names, outputs[r]);
        assert outputs[r] in outputs && !Available(g, body, inputs, outputs[r]);
      }
    }
  }

  lemma WhyNodeFails(g: Graph, body: seq<NodeId>, inputs: seq<Tensor>, names: Naming, b: nat)
    requires Converted(g, body, inputs, names) && b < |body|
    requires forall k | 0 <= k < |body| :: WellGiven(g.nodes[body[k]].name, names.renamed[k])
    requires MakeNodeDef(g, g.nodes[body[b]], Assigned(NodeNamesOf(g, body), names.renamed),
                         Renaming(g, body, inputs, names)).Err?
    ensures var e := MakeNodeDef(g, g.nodes[body[b]], Assigned(NodeNamesOf(g, body), names.renamed),
                                 Renaming(g, body, inputs, names)).error;
            || (e.UnavailableInput? && SomeDataMissing(g, body, inputs))
            || (e.ControlSourceOutsideBody? && SomeControlOutside(g, body))
  {
    var n, renaming := g.nodes[body[b]], Renaming(g, body, inputs, names);
    var data := DataRefs(g, n, renaming);
    if Sequence(data).Err? {
      var i := SequenceErr(data);
      InputNameIsTensor(g, n, i);
      RenamedIffAvailable(g, body, inputs, names, InputTensor(g, n, i));
      assert body[b] in body && !Available(g, body, inputs, InputTensor(g, g.nodes[body[b]], i));
    } else {
      var control := ControlRefs(g, n, Assigned(NodeNamesOf(g, body), names.renamed));
      var i := SequenceErr(control);
      var srcs := ControlSources(g, n.inEdges);
      assert srcs[i] in srcs;
      LookUpOfBody(g, body, inputs, names, srcs[i]);
      assert body[b] in body && Control(srcs[i]) in g.nodes[body[b]].inEdges;
    }
  }
}
