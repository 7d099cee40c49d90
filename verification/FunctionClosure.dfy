/**
 Which references of a converted function resolve inside it. With each op listed once they all do;
 for bodies that list an op more than once this module says exactly when they do.
 */
module FunctionClosure {
  import opened Basics
  import opened Text
  import opened NodeNames
  import opened FunctionModel
  import opened FunctionMeaning
  import opened FunctionValues

  ghost predicate DataResolves(f: FunctionDef, d: NodeDef) {
    d.op.numInputs <= |d.input| && forall i | 0 <= i < d.op.numInputs :: Resolve(f, d.input[i]).Some?
  }

  /** Every data input and every return value resolves inside the function. */
  ghost predicate Closed(f: FunctionDef) {
    && (forall b | 0 <= b < |f.nodeDefs| :: DataResolves(f, f.nodeDefs[b]))
    && (forall r | 0 <= r < |f.outputArgs| :: ReturnResolves(f, r))
  }

  ghost predicate ReturnResolves(f: FunctionDef, r: nat)
    requires r < |f.outputArgs|
  {
    f.outputArgs[r].name in f.ret && Resolve(f, f.ret[f.outputArgs[r].name]).Some?
  }

  ghost predicate ListedOnce(body: seq<NodeId>, id: NodeId) {
    forall i, j | 0 <= i < j < |body| && body[i] == id :: body[j] != id
  }

  lemma ListedOnceIff(body: seq<NodeId>, id: NodeId)
    requires id in body
    ensures ListedOnce(body, id) <==> IndexOf(body, id) == LastOf(body, id)
  {
    var first, last := IndexOf(body, id), LastOf(body, id);
    if last < first {
      IndexOfIsFirst(body, id, last);
      assert false;
    }
    if first == last {
      forall i, j | 0 <= i < j < |body| && body[i] == id ensures body[j] != id {
        if i < first {
          IndexOfIsFirst(body, id, i);
        } else {
          LastOfIsLast(body, id, j);
        }
      }
    }
  }

  // ---- What a conversion produces, whatever the body lists -----------------------------------------

  /** Each node definition has the name given out when its node was last listed. */
  ghost predicate Reflects(g: Graph, body: seq<NodeId>, inputs: seq<Tensor>, names: Naming, f: FunctionDef) {
    && Converted(g, body, inputs, names) && Distinct(names.ins + names.renamed)
    && (forall k | 0 <= k < |body| :: NoColon(names.renamed[k]))
    && PlainNames(f) && ArgNames(f) == names.ins && |f.nodeDefs| == |body|
    && forall b | 0 <= b < |body| ::
         f.nodeDefs[b].name == names.renamed[LastOf(body, body[b])] && f.nodeDefs[b].op == g.nodes[body[b]].op
  }

  lemma ArgsArePlain(g: Graph, body: seq<NodeId>, inputs: seq<Tensor>, outputs: seq<Tensor>,
                     outputNames: seq<string>, f: FunctionDef)
    requires Converts(g, body, inputs, outputs, outputNames, f)
    ensures ArgNames(f) == Name(g, body, inputs, outputs, outputNames).ins
    ensures forall k | 0 <= k < |f.inputArgs| :: NoColon(f.inputArgs[k].name)
  {
    var names := Name(g, body, inputs, outputs, outputNames);
    NamesAreUnique(g, body, inputs, outputs, outputNames);
    forall k | 0 <= k < |f.inputArgs| ensures NoColon(f.inputArgs[k].name) {
      assert ArgNames(f)[k] == names.ins[k];
    }
  }

  lemma GivenArePlain(g: Graph, body: seq<NodeId>, inputs: seq<Tensor>, outputs: seq<Tensor>, outputNames: seq<string>)
    requires ValidCall(g, body, inputs, outputs, outputNames) && Distinct(outputNames) && WellFormed(g, body)
    ensures var names := Name(g, body, inputs, outputs, outputNames);
            && Distinct(names.ins + names.renamed)
            && forall k | 0 <= k < |body| :: NoColon(names.renamed[k])
  {
    var names := Name(g, body, inputs, outputs, outputNames);
    NamesAreUnique(g, body, inputs, outputs, outputNames);
    DistinctTail(names.outs, names.ins, names.renamed);
    forall k | 0 <= k < |body| ensures NoColon(names.renamed[k]) {
      assert body[k] in body && WellGiven(g.nodes[body[k]].name, names.renamed[k]);
    }
  }

  lemma ConvertedReflects(g: Graph, body: seq<NodeId>, inputs: seq<Tensor>, outputs: seq<Tensor>,
                          outputNames: seq<string>, f: FunctionDef)
    requires Converts(g, body, inputs, outputs, outputNames, f)
    ensures Reflects(g, body, inputs, Name(g, body, inputs, outputs, outputNames), f)
  {
    GivenArePlain(g, body, inputs, outputs, outputNames);
    ArgsArePlain(g, body, inputs, outputs, outputNames, f);
    NodeDefsAreFor(g, body, inputs, outputs, outputNames, f);
  }

  /** A reference "name:rest" can only resolve to something that is named so. */
  lemma OwnerIsNamed(f: FunctionDef, e: Entry, name: string, rest: string)
    requires PlainNames(f) && NoColon(name) && IsFor(f, e, name + (":" + rest))
    ensures Owner(f, e) < |ArgNames(f) + NodeDefNames(f)| && (ArgNames(f) + NodeDefNames(f))[Owner(f, e)] == name
  {
    KeyParts(f, e);
    var owner, ref := (ArgNames(f) + NodeDefNames(f))[Owner(f, e)], name + (":" + rest);
    assert ref[|name|] == ':' && ref == name + ":" + rest;
    if Rest(f, e).Some? {
      assert ref == owner + ":" + Rest(f, e).value;
      SplitAtColon(owner, Rest(f, e).value, name, rest);
    }
  }

  /** Only the last listing of a node gives its name to node definitions. */
  lemma NamedByLast(ins: seq<string>, renamed: seq<string>, nodeNames: seq<string>, body: seq<NodeId>, o: nat, b: nat)
    requires Distinct(ins + renamed) && |renamed| == |nodeNames| == |body| && b < |body|
    requires forall c | 0 <= c < |body| :: nodeNames[c] == renamed[LastOf(body, body[c])]
    requires o < |ins + nodeNames| && (ins + nodeNames)[o] == renamed[b]
    ensures body[b] in body && LastOf(body, body[b]) == b
  {
    NotAnArg(ins, nodeNames, renamed, o, b);
    var c := o - |ins|;
    SameName(ins, renamed, LastOf(body, body[c]), b);
  }

  lemma NotAnArg(ins: seq<string>, nodeNames: seq<string>, renamed: seq<string>, o: nat, b: nat)
    requires Distinct(ins + renamed) && b < |renamed|
    requires o < |ins + nodeNames| && (ins + nodeNames)[o] == renamed[b]
    ensures o >= |ins| && nodeNames[o - |ins|] == renamed[b]
  {
    DistinctSuffix(ins, renamed);
  }

  lemma SameName(ins: seq<string>, renamed: seq<string>, a: nat, b: nat)
    requires Distinct(ins + renamed) && a < |renamed| && b < |renamed| && renamed[a] == renamed[b]
    ensures a == b
  {
    DistinctSuffix(ins, renamed);
  }

  lemma FedResolves(g: Graph, body: seq<NodeId>, inputs: seq<Tensor>, names: Naming, f: FunctionDef, t: Tensor)
    requires Reflects(g, body, inputs, names, f) && t in inputs
    ensures Flat(g, t) in Renaming(g, body, inputs, names)
    ensures Resolve(f, Renaming(g, body, inputs, names)[Flat(g, t)]).Some?
  {
    var k := IndexOf(inputs, t);
    RenamingOfInput(g, body, inputs, names, k);
    assert ArgNames(f)[k] == f.inputArgs[k].name;
    assert IsFor(f, ArgWhole(k), names.ins[k]);
  }

  lemma UnfedResolvesIff(g: Graph, body: seq<NodeId>, inputs: seq<Tensor>, names: Naming, f: FunctionDef, t: Tensor)
    requires Reflects(g, body, inputs, names, f) && t.node in g.nodes && t !in inputs
    requires Flat(g, t) in Renaming(g, body, inputs, names)
    ensures Resolve(f, Renaming(g, body, inputs, names)[Flat(g, t)]).Some? <==> ListedOnce(body, t.node)
  {
    var b, a, j := RenamingOfUnfed(g, body, inputs, names, t);
    ListedOnceIff(body, t.node);
    var arg := g.nodes[t.node].op.outputs.value[a].name;
    var ref := Nested(names.renamed[b], arg, j);
    if LastOf(body, t.node) == b {
      assert f.nodeDefs[b].name == names.renamed[b];
      assert IsFor(f, OutputElement(b, a, j), ref);
    } else if Resolve(f, ref).Some? {
      var e := Resolve(f, ref).value;
      OwnerIsNamed(f, e, names.renamed[b], arg + (":" + Decimal(j)));
      forall c | 0 <= c < |body| ensures NodeDefNames(f)[c] == names.renamed[LastOf(body, body[c])] {
        assert NodeDefNames(f)[c] == f.nodeDefs[c].name;
      }
      NamedByLast(names.ins, names.renamed, NodeDefNames(f), body, Owner(f, e), b);
      assert false;
    }
  }

  // ---- Closure ------------------------------------------------------------------------------------------

  /** A tensor a function may read: fed, or an output of an op listed once. */
  ghost predicate Readable(body: seq<NodeId>, inputs: seq<Tensor>, t: Tensor) {
    t in inputs || ListedOnce(body, t.node)
  }

  lemma ResolvesIff(g: Graph, body: seq<NodeId>, inputs: seq<Tensor>, names: Naming, f: FunctionDef, t: Tensor)
    requires Reflects(g, body, inputs, names, f) && t.node in g.nodes
    requires Flat(g, t) in Renaming(g, body, inputs, names)
    ensures Resolve(f, Renaming(g, body, inputs, names)[Flat(g, t)]).Some? <==> Readable(body, inputs, t)
  {
    if t in inputs {
      FedResolves(g, body, inputs, names, f, t);
    } else {
      UnfedResolvesIff(g, body, inputs, names, f, t);
    }
  }

  ghost predicate InputsReadable(g: Graph, body: seq<NodeId>, inputs: seq<Tensor>, n: Node)
    requires CompleteEdges(g, n)
  {
    forall i | 0 <= i < n.op.numInputs :: Readable(body, inputs, InputTensor(g, n, i))
  }

  lemma DataResolvesIff(g: Graph, body: seq<NodeId>, inputs: seq<Tensor>, names: Naming, f: FunctionDef,
                        n: Node, name: string, d: NodeDef)
    requires Reflects(g, body, inputs, names, f) && CompleteEdges(g, n)
    requires NodeDefFor(g, n, name, Renaming(g, body, inputs, names), d)
    ensures DataResolves(f, d) <==> InputsReadable(g, body, inputs, n)
  {
    forall i | 0 <= i < n.op.numInputs
      ensures Resolve(f, d.input[i]).Some? <==> Readable(body, inputs, InputTensor(g, n, i))
    {
      ResolvesIff(g, body, inputs, names, f, InputTensor(g, n, i));
    }
  }

  lemma BodyResolvesIff(g: Graph, body: seq<NodeId>, inputs: seq<Tensor>, outputs: seq<Tensor>,
                        outputNames: seq<string>, f: FunctionDef, b: nat)
    requires Converts(g, body, inputs, outputs, outputNames, f) && b < |body|
    ensures |f.nodeDefs| == |body| && body[b] in body
    ensures DataResolves(f, f.nodeDefs[b]) <==> InputsReadable(g, body, inputs, g.nodes[body[b]])
  {
    var names := Name(g, body, inputs, outputs, outputNames);
    ConvertedReflects(g, body, inputs, outputs, outputNames, f);
    NodeDefsAreFor(g, body, inputs, outputs, outputNames, f);
    DataResolvesIff(g, body, inputs, names, f, g.nodes[body[b]], names.renamed[LastOf(body, body[b])], f.nodeDefs[b]);
  }

  lemma ReturnResolvesIff(g: Graph, body: seq<NodeId>, inputs: seq<Tensor>, outputs: seq<Tensor>,
                          outputNames: seq<string>, f: FunctionDef, r: nat)
    requires Converts(g, body, inputs, outputs, outputNames, f) && r < |outputs|
    ensures |f.outputArgs| == |outputs| && f.outputArgs[r].name in f.ret
    ensures ReturnResolves(f, r) <==> Readable(body, inputs, outputs[r])
  {
    ConvertedReflects(g, body, inputs, outputs, outputNames, f);
    ReturnIsRenamed(g, body, inputs, outputs, outputNames, f, r);
    ResolvesIff(g, body, inputs, Name(g, body, inputs, outputs, outputNames), f, outputs[r]);
  }

  ghost predicate BodyReadable(g: Graph, body: seq<NodeId>, inputs: seq<Tensor>)
    requires WellFormed(g, body)
  {
    forall b | b in body :: InputsReadable(g, body, inputs, g.nodes[b])
  }

  lemma BodyClosedIff(g: Graph, body: seq<NodeId>, inputs: seq<Tensor>, outputs: seq<Tensor>,
                      outputNames: seq<string>, f: FunctionDef)
    requires Converts(g, body, inputs, outputs, outputNames, f)
    ensures (forall b | 0 <= b < |f.nodeDefs| :: DataResolves(f, f.nodeDefs[b])) <==> BodyReadable(g, body, inputs)
  {
    NodeDefNamesAre(g, body, inputs, outputs, outputNames, f);
    forall b | 0 <= b < |body|
      ensures body[b] in body && (DataResolves(f, f.nodeDefs[b]) <==> InputsReadable(g, body, inputs, g.nodes[body[b]]))
    {
      BodyResolvesIff(g, body, inputs, outputs, outputNames, f, b);
    }
  }

  lemma ReturnsClosedIff(g: Graph, body: seq<NodeId>, inputs: seq<Tensor>, outputs: seq<Tensor>,
                         outputNames: seq<string>, f: FunctionDef)
    requires Converts(g, body, inputs, outputs, outputNames, f)
    ensures (forall r | 0 <= r < |f.outputArgs| :: ReturnResolves(f, r))
            <==> forall r | 0 <= r < |outputs| :: Readable(body, inputs, outputs[r])
  {
    assert |f.outputArgs| == |outputs|;
    forall r | 0 <= r < |outputs| ensures ReturnResolves(f, r) <==> Readable(body, inputs, outputs[r]) {
      ReturnResolvesIff(g, body, inputs, outputs, outputNames, f, r);
    }
  }

  /**
   Exactly when a converted function is closed, whatever its body lists: no data input and no
   output reads an unfed output of an op listed more than once.
   */
  lemma ClosedIff(g: Graph, body: seq<NodeId>, inputs: seq<Tensor>, outputs: seq<Tensor>,
                  outputNames: seq<string>, f: FunctionDef)
    requires Converts(g, body, inputs, outputs, outputNames, f)
    ensures Closed(f)
            <==> BodyReadable(g, body, inputs) && forall r | 0 <= r < |outputs| :: Readable(body, inputs, outputs[r])
  {
    BodyClosedIff(g, body, inputs, outputs, outputNames, f);
    ReturnsClosedIff(g, body, inputs, outputs, outputNames, f);
  }

  /** With every op listed once, a converted function is closed. */
  lemma ConvertedIsClosed(g: Graph, body: seq<NodeId>, inputs: seq<Tensor>, outputs: seq<Tensor>,
                          outputNames: seq<string>, f: FunctionDef)
    requires Converts(g, body, inputs, outputs, outputNames, f) && Distinct(body)
    ensures Closed(f)
  {
    ClosedIff(g, body, inputs, outputs, outputNames, f);
    assert forall id :: ListedOnce(body, id);
  }

  // ---- An example ---------------------------------------------------------------------------------------

  /** A placeholder x and its negation. */
  function NegationGraph(): Graph {
    Graph(map[0 := Node("x", Op("Placeholder", map[], 0, Some([OutputArg("output", 0, 1)]), [1]), "", "", false, [], []),
              1 := Node("neg", Op("Neg", map[], 1, Some([OutputArg("y", 0, 1)]), [1]), "", "", false, [Data(0, 0, 0)], [])],
          [0, 1])
  }

  lemma NegationEdges()
    ensures var g := NegationGraph(); EdgesInGraph(g) && CompleteEdges(g, g.nodes[1])
    ensures var g := NegationGraph(); InputTensor(g, g.nodes[1], 0) == Tensor(0, 0)
  {
    var g := NegationGraph();
    assert FeedsSlot(g, g.nodes[1], Data(0, 0, 0), 0);
    assert SlotComplete(g, g.nodes[1], 0);
  }

  lemma NegationWellFormed(body: seq<NodeId>)
    requires forall b | b in body :: b == 1
    ensures WellFormed(NegationGraph(), body)
  {
    NegationEdges();
    var g := NegationGraph();
    assert g.nodes[0].name[0] == 'x' && g.nodes[1].name[0] == 'n';
    assert Covers(g.nodes[1].op.outputs.value[0], 0);
  }

  lemma ConvertsWhen(g: Graph, body: seq<NodeId>, inputs: seq<Tensor>, outputs: seq<Tensor>) returns (f: FunctionDef)
    requires ValidCall(g, body, inputs, outputs, []) && WellFormed(g, body) && Distinct(inputs) && HaveRanges(g, body)
    requires forall b | b in body :: NodeInputsAvailable(g, body, inputs, g.nodes[b])
    requires forall t | t in outputs :: Available(g, body, inputs, t)
    ensures Converts(g, body, inputs, outputs, [], f)
  {
    ConvertsIff(g, body, inputs, outputs, []);
    f := Convert(g, body, inputs, outputs, []).value;
  }

  /** Feeding x, the negation converts, however often it is listed. */
  lemma NegationConverts(body: seq<NodeId>) returns (f: FunctionDef)
    requires 1 in body && forall b | b in body :: b == 1
    ensures Converts(NegationGraph(), body, [Tensor(0, 0)], [Tensor(1, 0)], [], f)
  {
    NegationEdges();
    NegationWellFormed(body);
    f := ConvertsWhen(NegationGraph(), body, [Tensor(0, 0)], [Tensor(1, 0)]);
  }

  /** The hypotheses of the theorems can be met. */
  lemma NegationOnce() returns (f: FunctionDef)
    ensures Converts(NegationGraph(), [1], [Tensor(0, 0)], [Tensor(1, 0)], [], f)
  {
    f := NegationConverts([1]);
  }

  /** Two listings of one node give two node definitions of one name, and reading its outputs resolves to nothing. */
  lemma RepeatedListing(g: Graph, body: seq<NodeId>, inputs: seq<Tensor>, outputs: seq<Tensor>,
                        outputNames: seq<string>, f: FunctionDef, b: nat, c: nat, r: nat)
    requires Converts(g, body, inputs, outputs, outputNames, f) && b < c < |body| && body[b] == body[c]
    requires r < |outputs| && outputs[r].node == body[b] && outputs[r] !in inputs
    ensures |f.nodeDefs| == |body| && f.nodeDefs[b].name == f.nodeDefs[c].name
    ensures r < |f.outputArgs| && !ReturnResolves(f, r)
  {
    NodeDefNamesAre(g, body, inputs, outputs, outputNames, f);
    ReturnResolvesIff(g, body, inputs, outputs, outputNames, f, r);
  }

  /**
   Listing the negation more than once converts without an error, but the node definitions share a
   name and what the function returns resolves to nothing.
   */
  lemma RepeatedOpDangles(body: seq<NodeId>) returns (f: FunctionDef)
    requires |body| > 1 && forall b | b in body :: b == 1
    ensures Converts(NegationGraph(), body, [Tensor(0, 0)], [Tensor(1, 0)], [], f)
    ensures |f.nodeDefs| == |body| && f.nodeDefs[0].name == f.nodeDefs[1].name
    ensures 0 < |f.outputArgs| && !ReturnResolves(f, 0)
  {
    assert body[0] in body && body[1] in body;
    f := NegationConverts(body);
    RepeatedListing(NegationGraph(), body, [Tensor(0, 0)], [Tensor(1, 0)], [], f, 0, 1, 0);
  }
}
