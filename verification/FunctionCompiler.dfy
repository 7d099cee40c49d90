/** The loops of c_api_function.cc, proved equal to the functions of FunctionModel.dfy. */
module FunctionCompiler {
  import opened Basics
  import opened Text
  import opened NodeNames
  import opened FunctionModel

  lemma ElemsAppend<T>(s: seq<T>, x: T)
    ensures Elems(s + [x]) == Elems(s) + {x}
  {
    assert forall y :: y in s + [x] <==> y in s || y == x;
  }

  lemma DistinctAppend(s: seq<string>, i: nat)
    requires i < |s| && Distinct(s[..i])
    ensures Distinct(s[..i + 1]) <==> s[i] !in Elems(s[..i])
    ensures s[i] in Elems(s[..i]) ==> !Distinct(s)
  {
    if s[i] in Elems(s[..i]) {
      var j :| 0 <= j < i && s[..i][j] == s[i];
      assert s[..i + 1][j] == s[..i + 1][i] && s[j] == s[i];
    }
  }

  lemma ExtendStep(taken: seq<string>, wanted: seq<string>, i: nat)
    requires i < |wanted|
    ensures Extend(taken, wanted[..i + 1])
            == Extend(taken, wanted[..i]) + [UniqueName(Elems(Extend(taken, wanted[..i])), wanted[i])]
  {
    assert wanted[..i + 1][..i] == wanted[..i];
  }

  lemma AssignedStep(keys: seq<string>, vals: seq<string>, val: string)
    requires |vals| < |keys|
    ensures Assigned(keys[..|vals| + 1], vals + [val]) == Assigned(keys[..|vals|], vals)[keys[|vals|] := val]
  {
    assert keys[..|vals| + 1][..|vals|] == keys[..|vals|] && (vals + [val])[..|vals|] == vals;
  }

  lemma AddMissingStep(m: map<string, string>, keys: seq<string>, vals: seq<string>, i: nat)
    requires |keys| == |vals| && i < |keys|
    ensures AddMissing(m, keys[..i + 1], vals[..i + 1])
            == var r := AddMissing(m, keys[..i], vals[..i]); if keys[i] in r then r else r[keys[i] := vals[i]]
  {
    assert keys[..i + 1][..i] == keys[..i] && vals[..i + 1][..i] == vals[..i];
  }

  lemma AddArgsStep(m: map<string, string>, node: string, renamed: string, args: seq<OutputArg>, a: nat)
    requires a < |args|
    ensures AddArgs(m, node, renamed, args[..a + 1])
            == AddMissing(AddArgs(m, node, renamed, args[..a]), ArgKeys(node, args[a]), ArgVals(renamed, args[a]))
  {
    assert args[..a + 1][..a] == args[..a];
  }

  lemma AddBodyStep(m: map<string, string>, g: Graph, body: seq<NodeId>, renamed: seq<string>, k: nat, name: string)
    requires |renamed| == k < |body| && (forall b | b in body :: b in g.nodes) && HaveRanges(g, body[..k + 1])
    ensures HaveRanges(g, body[..k])
    ensures AddBody(m, g, body[..k + 1], renamed + [name])
            == AddArgs(AddBody(m, g, body[..k], renamed), g.nodes[body[k]].name, name, g.nodes[body[k]].op.outputs.value)
  {
    assert body[..k + 1][..k] == body[..k] && (renamed + [name])[..k] == renamed;
  }

  lemma SequenceStep<T>(rs: seq<Result<T>>, k: nat)
    requires k < |rs| && Sequence(rs[..k]).Ok? && rs[k].Ok?
    ensures Sequence(rs[..k + 1]) == Ok(Sequence(rs[..k]).value + [rs[k].value])
  {
    assert rs[..k + 1][..k] == rs[..k];
  }

  /** Sorts a node's incoming edges into input slots and control sources. */
  method CollectEdges(g: Graph, n: Node) returns (slots: seq<Option<Edge>>, control: seq<NodeId>)
    requires forall e | e in n.inEdges :: e.src in g.nodes
    requires forall e | e in n.inEdges && e.Data? :: e.dstInput < n.op.numInputs
    ensures |slots| == n.op.numInputs
    ensures forall i | 0 <= i < |slots| :: slots[i] == SlotEdge(g, n.inEdges, i)
    ensures control == ControlSources(g, n.inEdges)
  {
    slots := seq(n.op.numInputs, i => None);
    control := [];
    for k := 0 to |n.inEdges|
      invariant |slots| == n.op.numInputs
      invariant forall i | 0 <= i < |slots| :: slots[i] == SlotEdge(g, n.inEdges[..k], i)
      invariant control == ControlSources(g, n.inEdges[..k])
    {
      var e := n.inEdges[k];
      assert n.inEdges[..k + 1][..k] == n.inEdges[..k];
      if g.nodes[e.src].isSource {
        continue;
      }
      if e.Control? {
        control := control + [e.src];
      } else {
        slots := slots[e.dstInput := Some(e)];
      }
    }
    assert n.inEdges[..|n.inEdges|] == n.inEdges;
  }

  /** The data inputs of a node under their new names. */
  method FillInputs(g: Graph, n: Node, slots: seq<Option<Edge>>, renaming: map<string, string>)
    returns (r: Result<seq<string>>)
    requires forall e | e in n.inEdges :: e.src in g.nodes
    requires |slots| == n.op.numInputs && forall i | 0 <= i < |slots| :: slots[i] == SlotEdge(g, n.inEdges, i)
    ensures r == Sequence(DataRefs(g, n, renaming))
  {
    var input: seq<string> := [];
    ghost var refs := DataRefs(g, n, renaming);
    for i := 0 to |slots|
      invariant Sequence(refs[..i]) == Ok(input)
    {
      var original: string;
      if slots[i].None? {
        if i >= |n.requested| {
          SequenceStops(refs, i);
          return Err(MissingInputEdge);
        }
        original := n.requested[i];
      } else {
        original := Flat(g, Tensor(slots[i].value.src, slots[i].value.srcOutput));
      }
      if original !in renaming {
        SequenceStops(refs, i);
        return Err(UnavailableInput);
      }
      SequenceStep(refs, i);
      input := input + [renaming[original]];
    }
    assert refs[..|refs|] == refs;
    return Ok(input);
  }

  /** The control inputs of a node under their new names. */
  method FillControls(g: Graph, names: NodeNameMapping, n: Node, control: seq<NodeId>) returns (r: Result<seq<string>>)
    requires (forall e | e in n.inEdges :: e.src in g.nodes) && control == ControlSources(g, n.inEdges)
    ensures r == Sequence(ControlRefs(g, n, names.nameMapping))
  {
    var deps: seq<string> := [];
    ghost var refs := ControlRefs(g, n, names.nameMapping);
    for i := 0 to |control|
      invariant Sequence(refs[..i]) == Ok(deps)
    {
      var normalized := names.Lookup(g.nodes[control[i]].name);
      if normalized == "" {
        SequenceStops(refs, i);
        return Err(ControlSourceOutsideBody);
      }
      SequenceStep(refs, i);
      deps := deps + ["^" + normalized];
    }
    assert refs[..|refs|] == refs;
    return Ok(deps);
  }

  /** One iteration of the loop over body nodes. */
  method FillNode(g: Graph, names: NodeNameMapping, n: Node, renaming: map<string, string>)
    returns (r: Result<NodeDef>)
    requires forall e | e in n.inEdges :: e.src in g.nodes
    requires forall e | e in n.inEdges && e.Data? :: e.dstInput < n.op.numInputs
    ensures r == MakeNodeDef(g, n, names.nameMapping, renaming)
  {
    var name := names.Lookup(n.name);
    var device := if n.assignedDevice != "" then n.assignedDevice else n.device;
    var slots, control := CollectEdges(g, n);
    var data := FillInputs(g, n, slots, renaming);
    if data.Err? {
      return Err(data.error);
    }
    var deps := FillControls(g, names, n, control);
    if deps.Err? {
      return Err(deps.error);
    }
    return Ok(NodeDef(name, n.op, device, data.value + deps.value));
  }

  method FillFunctionBody(g: Graph, names: NodeNameMapping, body: seq<NodeId>, renaming: map<string, string>)
    returns (r: Result<seq<NodeDef>>)
    requires EdgesInGraph(g) && forall b | b in body :: b in g.nodes
    ensures r == Sequence(NodeDefs(g, body, names.nameMapping, renaming))
  {
    var defs := [];
    ghost var all := NodeDefs(g, body, names.nameMapping, renaming);
    for k := 0 to |body|
      invariant Sequence(all[..k]) == Ok(defs)
    {
      var def := FillNode(g, names, g.nodes[body[k]], renaming);
      if def.Err? {
        SequenceStops(all, k);
        return Err(def.error);
      }
      SequenceStep(all, k);
      defs := defs + [def.value];
    }
    assert all[..|all|] == all;
    return Ok(defs);
  }

  /** The first i output argument names. */
  ghost function OutsSoFar(outputNames: seq<string>, wanted: seq<string>, i: nat): seq<string>
    requires i <= |wanted| && (outputNames == [] || |outputNames| == |wanted|)
  {
    if outputNames == [] then Extend([], wanted[..i]) else outputNames[..i]
  }

  lemma OutsStep(outputNames: seq<string>, wanted: seq<string>, i: nat, name: string)
    requires i < |wanted| && (outputNames == [] || |outputNames| == |wanted|)
    requires name == if outputNames == [] then UniqueName(Elems(OutsSoFar(outputNames, wanted, i)), wanted[i])
                     else outputNames[i]
    ensures OutsSoFar(outputNames, wanted, i + 1) == OutsSoFar(outputNames, wanted, i) + [name]
    ensures Elems(OutsSoFar(outputNames, wanted, i + 1)) == Elems(OutsSoFar(outputNames, wanted, i)) + {name}
  {
    if outputNames == [] {
      ExtendStep([], wanted, i);
    }
    ElemsAppend(OutsSoFar(outputNames, wanted, i), name);
  }

  lemma AllOuts(outputNames: seq<string>, wanted: seq<string>)
    requires outputNames == [] || |outputNames| == |wanted|
    ensures OutsSoFar(outputNames, wanted, |wanted|) == if outputNames == [] then Extend([], wanted) else outputNames
    ensures outputNames != [] ==> outputNames[..|wanted|] == outputNames
  {
    assert wanted[..|wanted|] == wanted;
  }

  /** Names the output arguments, or reports a repeated explicit name. */
  method NameOutputs(g: Graph, names: NodeNameMapping, outputs: seq<Tensor>, outputNames: seq<string>)
    returns (ok: bool, outs: seq<string>)
    requires forall t | t in outputs :: t.node in g.nodes
    requires outputNames == [] || |outputNames| == |outputs|
    requires names.Valid() && names.usedNames == {} && names.nameMapping == map[]
    modifies names
    ensures names.Valid() && names.nameMapping == map[]
    ensures ok <==> Distinct(outputNames)
    ensures ok ==> outs == OutputNames(g, outputs, outputNames) && names.usedNames == Elems(outs)
  {
    outs := [];
    ghost var wanted := Normals(g, outputs);
    for i := 0 to |outputs|
      invariant names.Valid() && names.nameMapping == map[]
      invariant outs == OutsSoFar(outputNames, wanted, i) && names.usedNames == Elems(outs)
      invariant outputNames != [] ==> Distinct(outputNames[..i])
    {
      var name: string;
      if outputNames != [] {
        name := outputNames[i];
        DistinctAppend(outputNames, i);
        var used := names.UseOutputName(name);
        if !used {
          return false, [];
        }
      } else {
        name := names.GetIOName(g.nodes[outputs[i].node].name);
      }
      OutsStep(outputNames, wanted, i, name);
      outs := outs + [name];
    }
    AllOuts(outputNames, wanted);
    return true, outs;
  }

  /** Names the input arguments and records the tensors they stand for. */
  method NameInputs(g: Graph, names: NodeNameMapping, inputs: seq<Tensor>, ghost outs: seq<string>)
    returns (ins: seq<string>, renaming: map<string, string>)
    requires forall t | t in inputs :: t.node in g.nodes
    requires names.Valid() && names.usedNames == Elems(outs) && names.nameMapping == map[]
    modifies names
    ensures names.Valid() && names.nameMapping == map[]
    ensures outs + ins == Extend(outs, Normals(g, inputs)) && |ins| == |inputs|
    ensures names.usedNames == Elems(outs + ins)
    ensures renaming == Assigned(Flats(g, inputs), ins)
  {
    ins, renaming := [], map[];
    ghost var wanted, keys := Normals(g, inputs), Flats(g, inputs);
    assert outs + ins == outs;
    for i := 0 to |inputs|
      invariant names.Valid() && names.nameMapping == map[]
      invariant |ins| == i && outs + ins == Extend(outs, wanted[..i])
      invariant names.usedNames == Elems(outs + ins)
      invariant renaming == Assigned(keys[..i], ins)
    {
      ExtendStep(outs, wanted, i);
      var name := names.GetIOName(g.nodes[inputs[i].node].name);
      ElemsAppend(outs + ins, name);
      assert (outs + ins) + [name] == outs + (ins + [name]);
      renaming := renaming[Flat(g, inputs[i]) := name];
      AssignedStep(keys, ins, name);
      ins := ins + [name];
    }
    assert wanted[..|inputs|] == wanted && keys[..|inputs|] == keys;
  }

  /** The renaming after the first j tensors of an output argument. */
  ghost function ArgSoFar(before: map<string, string>, node: string, name: string, arg: OutputArg, j: nat)
    : map<string, string>
    requires j <= Size(arg)
  {
    AddMissing(before, ArgKeys(node, arg)[..j], ArgVals(name, arg)[..j])
  }

  lemma ArgStep(before: map<string, string>, node: string, name: string, arg: OutputArg, j: nat)
    requires j < Size(arg)
    ensures ArgSoFar(before, node, name, arg, j + 1)
            == var r, original := ArgSoFar(before, node, name, arg, j), FlatName(node, arg.first + j);
               if original in r then r else r[original := Nested(name, arg.name, j)]
  {
    AddMissingStep(before, ArgKeys(node, arg), ArgVals(name, arg), j);
  }

  /** Records the tensors of one output argument. */
  method RenameArg(node: string, name: string, arg: OutputArg, before: map<string, string>)
    returns (renaming: map<string, string>)
    ensures renaming == AddMissing(before, ArgKeys(node, arg), ArgVals(name, arg))
  {
    renaming := before;
    var i := arg.first;
    while i < arg.last
      invariant arg.first <= i && i - arg.first <= Size(arg)
      invariant renaming == ArgSoFar(before, node, name, arg, i - arg.first)
    {
      var original := FlatName(node, i);
      ArgStep(before, node, name, arg, i - arg.first);
      if original !in renaming {
        renaming := renaming[original := Nested(name, arg.name, i - arg.first)];
      }
      i := i + 1;
    }
    assert ArgKeys(node, arg)[..Size(arg)] == ArgKeys(node, arg) && ArgVals(name, arg)[..Size(arg)] == ArgVals(name, arg);
  }

  /** Records the outputs of one body node under the node's new name. */
  method RenameNode(n: Node, name: string, before: map<string, string>) returns (renaming: map<string, string>)
    requires n.op.outputs.Some?
    ensures renaming == AddArgs(before, n.name, name, n.op.outputs.value)
  {
    renaming := before;
    var args := n.op.outputs.value;
    for a := 0 to |args|
      invariant renaming == AddArgs(before, n.name, name, args[..a])
    {
      AddArgsStep(before, n.name, name, args, a);
      renaming := RenameArg(n.name, name, args[a], renaming);
    }
    assert args[..|args|] == args;
  }

  /** The names, the name mapping and the renaming after the first k body nodes. */
  ghost predicate BodySoFar(g: Graph, body: seq<NodeId>, before: map<string, string>, args: seq<string>, k: nat,
                            renamed: seq<string>, mapping: map<string, string>, renaming: map<string, string>)
    requires k <= |body| && forall b | b in body :: b in g.nodes
  {
    && |renamed| == k && HaveRanges(g, body[..k])
    && args + renamed == Extend(args, NodeNamesOf(g, body)[..k])
    && mapping == Assigned(NodeNamesOf(g, body)[..k], renamed)
    && renaming == AddBody(before, g, body[..k], renamed)
  }

  lemma BodyStep(g: Graph, body: seq<NodeId>, before: map<string, string>, args: seq<string>, k: nat,
                 renamed: seq<string>, mapping: map<string, string>, renaming: map<string, string>, name: string)
    requires k < |body| && (forall b | b in body :: b in g.nodes)
    requires BodySoFar(g, body, before, args, k, renamed, mapping, renaming)
    requires g.nodes[body[k]].op.outputs.Some?
    requires name == UniqueName(Elems(args + renamed), g.nodes[body[k]].name)
    ensures var n := g.nodes[body[k]];
            BodySoFar(g, body, before, args, k + 1, renamed + [name], mapping[n.name := name],
                      AddArgs(renaming, n.name, name, n.op.outputs.value))
    ensures Elems(args + (renamed + [name])) == Elems(args + renamed) + {name}
  {
    var wanted := NodeNamesOf(g, body);
    ExtendStep(args, wanted, k);
    AssignedStep(wanted, renamed, name);
    assert body[..k + 1] == body[..k] + [body[k]];
    AddBodyStep(before, g, body, renamed, k, name);
    ElemsAppend(args + renamed, name);
    assert (args + renamed) + [name] == args + (renamed + [name]);
  }

  /** Names the body nodes and records the tensors they produce. */
  method NameBody(g: Graph, names: NodeNameMapping, body: seq<NodeId>, before: map<string, string>,
                  ghost args: seq<string>)
    returns (ok: bool, ghost renamed: seq<string>, renaming: map<string, string>)
    requires forall b | b in body :: b in g.nodes
    requires names.Valid() && names.usedNames == Elems(args) && names.nameMapping == map[]
    modifies names
    ensures ok <==> HaveRanges(g, body)
    ensures ok ==> names.Valid() && |renamed| == |body|
    ensures ok ==> args + renamed == Extend(args, NodeNamesOf(g, body))
    ensures ok ==> names.nameMapping == Assigned(NodeNamesOf(g, body), renamed)
    ensures ok ==> renaming == AddBody(before, g, body, renamed)
  {
    renamed, renaming := [], before;
    assert args + renamed == args;
    for k := 0 to |body|
      invariant names.Valid() && names.usedNames == Elems(args + renamed)
      invariant BodySoFar(g, body, before, args, k, renamed, names.nameMapping, renaming)
    {
      var n := g.nodes[body[k]];
      ghost var mapping := names.nameMapping;
      var name := names.Uniquify(n.name);
      if n.op.outputs.None? {
        assert body[k] in body;
        return false, [], map[];
      }
      BodyStep(g, body, before, args, k, renamed, mapping, renaming, name);
      renaming := RenameNode(n, name, renaming);
      renamed := renamed + [name];
    }
    assert NodeNamesOf(g, body)[..|body|] == NodeNamesOf(g, body) && body[..|body|] == body;
    return true, renamed, renaming;
  }

  /** Maps each output argument to the function's name for the tensor it returns. */
  method FillRet(g: Graph, outputs: seq<Tensor>, outs: seq<string>, renaming: map<string, string>)
    returns (r: Result<map<string, string>>)
    requires (forall t | t in outputs :: t.node in g.nodes) && |outs| == |outputs|
    ensures r.Ok? <==> Sequence(OutputRefs(g, outputs, renaming)).Ok?
    ensures r.Ok? ==> r.value == Assigned(outs, Sequence(OutputRefs(g, outputs, renaming)).value)
    ensures r.Err? ==> r.error == Sequence(OutputRefs(g, outputs, renaming)).error
  {
    var ret: map<string, string>, done: seq<string> := map[], [];
    ghost var refs := OutputRefs(g, outputs, renaming);
    for i := 0 to |outputs|
      invariant Sequence(refs[..i]) == Ok(done)
      invariant ret == Assigned(outs[..i], done)
    {
      var value := Flat(g, outputs[i]);
      if value !in renaming {
        SequenceStops(refs, i);
        return Err(UnavailableOutput);
      }
      ret := ret[outs[i] := renaming[value]];
      AssignedStep(outs, done, renaming[value]);
      SequenceStep(refs, i);
      done := done + [renaming[value]];
    }
    assert refs[..|outputs|] == refs && outs[..|outputs|] == outs;
    return Ok(ret);
  }

  method GraphToFunctionDef(g: Graph, body: seq<NodeId>, inputs: seq<Tensor>, outputs: seq<Tensor>,
                            outputNames: seq<string>) returns (r: Result<FunctionDef>)
    requires ValidCall(g, body, inputs, outputs, outputNames)
    ensures r == Convert(g, body, inputs, outputs, outputNames)
  {
    var names := new NodeNameMapping();
    var named, outs := NameOutputs(g, names, outputs, outputNames);
    if !named {
      return Err(DuplicateOutputName);
    }
    var ins, renaming := NameInputs(g, names, inputs, outs);
    var ranged;
    ghost var renamed;
    ranged, renamed, renaming := NameBody(g, names, body, renaming, outs + ins);
    if !ranged {
      return Err(BadOutputRanges);
    }
    assert Name(g, body, inputs, outputs, outputNames) == Naming(outs, ins, renamed) by {
      assert (outs + ins)[|outs|..] == ins;
      assert (outs + ins + renamed)[|outs + ins|..] == renamed;
    }
    var defs := FillFunctionBody(g, names, body, renaming);
    if defs.Err? {
      return Err(defs.error);
    }
    var ret := FillRet(g, outputs, outs, renaming);
    if ret.Err? {
      return Err(ret.error);
    }
    return Ok(FunctionDef(Signature(g, outputs, outs), Signature(g, inputs, ins), defs.value, ret.value));
  }
}
