# Verified models of TensorFlow's C, Go and StreamExecutor cores

This project models the parts of TensorFlow whose correctness rests on an argument longer than one
function body, and proves those arguments in Dafny.

- **Graphs to functions** (`Text`, `NodeNames`, `FunctionModel`, `FunctionCompiler`,
  `FunctionMeaning`, `FunctionValues`, `FunctionClosure`, `GraphToFunction`). The conversion behind
  `TF_GraphToFunction`, loop by loop, against a functional specification; which calls succeed; and
  the theorem that the function computes what the graph computes. Op semantics are an arbitrary
  function. A `FunctionDef` is read the way function instantiation reads it, by looking up whole
  strings in an index of names.
- **Graphs and sessions of the C API** (`CycleCheck`, `SessionExtension`, `GraphLifetime`,
  `NameIndex`, `Bytes`, `StringTensor`). The cycle check that tolerates while loops, the protocol
  that sends new nodes to sessions, the shared lifetime of a graph, the name index, and the string
  tensor codec down to its bytes.
- **The Go binding** (`GoSession`, `GoValue`, `GoNumericTensor`, `GoStringTensor`). The Run/Close
  protocol as a state machine of any number of calls, and the tensor codec, whose string encoder is
  shown to write what the C++ one writes.
- **StreamExecutor** (`Occupancy`, `Layout`, `ExecutorCache`, `KernelArgs`). Occupancy and the
  stepped register search, dimension orders and strides, the two-level-locked executor cache, and
  the split storage of kernel arguments.

`Basics` holds the few notions that several modules share.

Concurrent protocols are state machines over their atomic steps, and theorems about them hold in
every state of every run. Code that updates memory in place is a method, or a class, proved against
a function of its inputs; the theorems are then about that function. `dafny verify dfyconfig.toml`
checks the whole project.

Where a promise turns out false of the code, the code is modelled as it is, with an input that shows
it and the condition under which the promise holds:

- Removing a node from a graph leaves a hole in the ids. `ValidateNoCycles` compares the nodes it
  processed with the number of ids, so it then reports a cycle (`CycleCheck.RemovedIdRejected`), and
  after a failed `TF_FinishOperation` idle sessions receive no more nodes
  (`SessionExtension.RemovedIdBlocksSessions`). Exactly when a session that is behind catches up is
  `SessionExtension.CatchesUpIff`.
- A NextIteration that does not depend on its Merge can let a cycle through
  (`CycleCheck.OpenLoopHidesCycle`). What the check accepts on every graph is
  `CycleCheck.AcceptedIffNoTrap`, and when that verdict is right is `CycleCheck.JudgedRightIff`.
- The register search is optimal only if threads_per_warp divides the register granularity or the
  step is one (`Occupancy.SearchOptimalIff`).
- Listing an op twice in `opers` makes two node definitions share a name, and references to its
  outputs resolve to nothing (`FunctionClosure.RepeatedOpDangles`); the exact condition is
  `FunctionClosure.ClosedIff`.
- The error of `ValidateNoCycles` can name the Merge of a legal while loop, which is in no cycle
  (`CycleCheck.LegalMergeIsReported`).
- `IsValidOutputTensor` does not test for a negative index, so the type of the output is then read
  outside the node's types; the model reports that as the outcome `OutsideTypes`.

Assumptions about code outside the model: `NameRangesForNode` partitions an op's outputs under
distinct names; the nodes of a graph have distinct names without ":"; `Session::Extend` is atomic
and changes nothing when it fails, as the comment at the call says; `ImportGraphDef`,
`BuildWhileLoop` and `AddSymbolicGradients` add nodes under fresh names; `NodeBuilder::Finalize` and
the shape refiner report success or failure, which the model takes as parameters; the executor
factory returns, gives out a new executor each time it succeeds, and does not call back into the
cache.

## Model

| member | source | states |
|---|---|---|
| `NodeNames.Normalized` | tensorflow/tensorflow/c/c_api_function.cc:75-98 | every result matches `[a-z][a-z0-9_]*`, for every input string including the empty one |
| `NodeNames.NormalizeFixesArgNames` | tensorflow/tensorflow/c/c_api_function.cc:75-98 | a name that already matches the pattern is returned unchanged, so normalising is idempotent |
| `NodeNames.NormalizedIsFoldedTail` | tensorflow/tensorflow/c/c_api_function.cc:77-97 | the result is exactly the folded tail from the first letter on, or "unknown" when there is no letter |
| `NodeNames.SuffixesRunOut` | tensorflow/tensorflow/c/c_api_function.cc:104-107 | pigeonhole: if the name and its first n suffixed candidates are all used, then n is below the number of used names |
| `NodeNames.FreeSuffix` | tensorflow/tensorflow/c/c_api_function.cc:104-107 | the unbounded suffix loop stops, within as many tries as there are used names, at the least free suffix |
| `NodeNames.UniqueName` | tensorflow/tensorflow/c/c_api_function.cc:100-108 | the name given out is not among the used ones |
| `NodeNames.UniqueNameIs` | tensorflow/tensorflow/c/c_api_function.cc:100-108 | a free name is left alone; a used one gets "_" and the least number whose name is free, below the number of used names |
| `NodeNames.UniqueNameShape` | tensorflow/tensorflow/c/c_api_function.cc:100-108 | it extends the wanted name, and is free of ":" or matches the argument pattern when the wanted name does |
| `NodeNames.NodeNameMapping.UniquifyHelper` | tensorflow/tensorflow/c/c_api_function.cc:100-108 | the loop returns the name itself when free, else the candidate with the least free suffix |
| `NodeNames.NodeNameMapping.GetIOName` | tensorflow/tensorflow/c/c_api_function.cc:110-116 | gives out an unused normalised name, records it as used, leaves the mapping alone, and keeps the mapping one-to-one into the used names |
| `NodeNames.NodeNameMapping.Uniquify` | tensorflow/tensorflow/c/c_api_function.cc:118-123 | maps the node name to an unused name and records it; the mapping stays one-to-one with its values among the used names |
| `NodeNames.NodeNameMapping.UseOutputName` | tensorflow/tensorflow/c/c_api_function.cc:125-133 | refuses exactly the names already used |
| `Text.DecimalInjective` | tensorflow/tensorflow/c/c_api_function.cc:105 | different indices print as different numerals |
| `Text.DecimalReads` | tensorflow/tensorflow/c/c_api_function.cc:105 | the numeral reads back as its number in base ten, without leading zeros |
| `Text.SplitAtColon` | tensorflow/tensorflow/c/c_api_function.cc:314-316 | a tensor name determines its node name and index when node names have no ":" |
| `FunctionCompiler.CollectEdges` | tensorflow/tensorflow/c/c_api_function.cc:173-183 | the last data edge into each slot, and the control sources in edge order, skipping the source node |
| `FunctionCompiler.FillInputs` | tensorflow/tensorflow/c/c_api_function.cc:186-213 | the renamed inputs in slot order, or the error of the first slot that is missing or unavailable |
| `FunctionCompiler.FillControls` | tensorflow/tensorflow/c/c_api_function.cc:216-228 | "^" and the new name of each control source, or an error for the first one outside the body |
| `FunctionCompiler.FillNode` | tensorflow/tensorflow/c/c_api_function.cc:156-229 | one node definition: new name, device, renamed inputs, then control inputs |
| `FunctionCompiler.FillFunctionBody` | tensorflow/tensorflow/c/c_api_function.cc:149-231 | a definition per body node in order, or the first error |
| `FunctionCompiler.NameOutputs` | tensorflow/tensorflow/c/c_api_function.cc:268-279 | succeeds exactly when the explicit names are distinct, and names the output arguments |
| `FunctionCompiler.NameInputs` | tensorflow/tensorflow/c/c_api_function.cc:282-290 | the input argument names and the renaming of the tensors they stand for |
| `FunctionCompiler.RenameArg` | tensorflow/tensorflow/c/c_api_function.cc:313-322 | adds every tensor of an output argument that is not yet renamed |
| `FunctionCompiler.NameBody` | tensorflow/tensorflow/c/c_api_function.cc:300-324 | the body names, the name mapping and the full renaming; fails exactly when an op has no output ranges |
| `FunctionCompiler.FillRet` | tensorflow/tensorflow/c/c_api_function.cc:330-344 | `ret` for every output argument, or the first output that is not available |
| `FunctionCompiler.GraphToFunctionDef` | tensorflow/tensorflow/c/c_api_function.cc:235-344 | the imperative conversion computes exactly `FunctionModel.Convert`, error cases included |
| `FunctionMeaning.ConvertedSignature` | tensorflow/tensorflow/c/c_api_function.cc:268-290 | every argument of a converted function has the graph's type of the tensor it stands for, and explicit output names are used as given |
| `FunctionMeaning.ConvertedNodes` | tensorflow/tensorflow/c/c_api_function.cc:157-163 | node definition b has the op of body node b and the device it was assigned to, or else the one it asked for |
| `FunctionMeaning.RequestedInputIsRead` | tensorflow/tensorflow/c/c_api_function.cc:189-212 | an input that is only named in the node definition, as "<node>:<index>" of a fed tensor, reads the argument for that tensor |
| `FunctionModel.AddBodyKeys` | tensorflow/tensorflow/c/c_api_function.cc:300-324 | the renaming only grows, and every new entry names an output of a body node |
| `FunctionMeaning.NamesAreUnique` | tensorflow/tensorflow/c/c_api_function.cc:268-302 | all output-argument, input-argument and body-node names are pairwise distinct, and the generated argument names match the pattern |
| `FunctionMeaning.NodeDefNamesDistinctIff` | tensorflow/tensorflow/c/c_api_function.cc:118-123 | node definitions get distinct names if and only if the body nodes had distinct names: listing an op twice breaks the map |
| `FunctionMeaning.LookUpOfBody` | tensorflow/tensorflow/c/c_api_function.cc:135-139 | a lookup finds a name exactly for the body nodes, and it is the one given out when the node was last listed |
| `FunctionMeaning.RenamingOfUnfed` | tensorflow/tensorflow/c/c_api_function.cc:309-322 | an unfed tensor is named after the first listing of the node that produces it |
| `FunctionMeaning.RenamedIffAvailable` | tensorflow/tensorflow/c/c_api_function.cc:282-324 | the renaming knows a tensor if and only if it is a function input or produced in the body |
| `FunctionMeaning.ConvertsIff` | tensorflow/tensorflow/c/c_api_function.cc:204-227 | exact failure, whatever ops the body lists: conversion succeeds if and only if explicit output names are distinct, output ranges are known, every data input and output is available, and every control source is in the body |
| `FunctionMeaning.WhyItFails` | tensorflow/tensorflow/c/c_api_function.cc:192-227 | each error is reported for its own reason: repeated output names, unknown ranges, an unavailable data input, a control source outside the body, an unavailable output |
| `FunctionValues.IndexHasNoDuplicates` | tensorflow/tensorflow/core/framework/function.cc:151-208 | in a definition with clean names two index entries never share a key, so a reference resolves to one meaning |
| `FunctionValues.ConvertedNamesAreClean` | tensorflow/tensorflow/c/c_api_function.cc:268-324 | in every converted function, argument and node names are distinct and free of ":" |
| `FunctionValues.ConvertedMirrors` | tensorflow/tensorflow/c/c_api_function.cc:149-344 | node definition b is body node b under its new name, reading the renamed inputs |
| `FunctionValues.SameValue` | tensorflow/tensorflow/c/c_api_function.cc:149-344 | by induction on depth: a renamed reference evaluates in the function to what its tensor evaluates to in the graph |
| `FunctionValues.ReturnIsRenamed` | tensorflow/tensorflow/c/c_api_function.cc:330-344 | `ret` sends each output argument to the renaming of the tensor it returns |
| `FunctionValues.ControlsPreserved` | tensorflow/tensorflow/c/c_api_function.cc:215-228 | the control inputs of each node definition are exactly its control sources, in order, under their new names |
| `FunctionValues.MeaningPreserved` | tensorflow/tensorflow/c/c_api_function.cc:149-344 | for every op semantics, arguments and depth, each output of the converted function has the value the original graph gives it when the inputs are fed, inputs that shadow body nodes included |
| `FunctionValues.ValuesExist` | tensorflow/tensorflow/c/c_api_function.cc:149-344 | in an acyclic body every available tensor has a value once the depth exceeds its rank |
| `FunctionValues.DeeperIsSame` | tensorflow/tensorflow/c/c_api_function.cc:149-344 | a value once found is the same at every greater depth |
| `FunctionValues.AcyclicMeaning` | tensorflow/tensorflow/c/c_api_function.cc:149-344 | for a converted acyclic body each output has one value, which both the graph and the function compute at every depth from the rank bound on |
| `FunctionClosure.NegationOnce` | tensorflow/tensorflow/c/c_api_function.cc:235-344 | the hypotheses of the theorems above can be met: a graph with a fed placeholder and its negation converts |
| `FunctionClosure.ClosedIff` | tensorflow/tensorflow/c/c_api_function.cc:118-139 | a converted function is closed if and only if no data input and no output reads an unfed output of an op listed more than once |
| `FunctionClosure.ConvertedIsClosed` | tensorflow/tensorflow/c/c_api_function.cc:319-344 | with every op listed once, every data input and every return value of a converted function resolves inside it |
| `FunctionClosure.RepeatedOpDangles` | tensorflow/tensorflow/c/c_api_function.cc:300-324 | an input that shows the damage: listing the negation more than once converts without an error, two node definitions share a name, and the return value resolves to nothing |
| `GraphToFunction.ProcessInputs` | tensorflow/tensorflow/c/c_api_function.cc:371-404 | succeeds exactly on usable, pairwise different outputs, groups the indices by node, and otherwise reports the first output with a problem or the first repeated one; a negative index, which the source does not test, is an outcome of its own |
| `GraphToFunction.ProcessOutputs` | tensorflow/tensorflow/c/c_api_function.cc:408-426 | succeeds exactly on usable outputs, and otherwise reports the first one with a problem |
| `GraphToFunction.ComputeBodyNodes` | tensorflow/tensorflow/c/c_api_function.cc:430-463 | the listed ops, or in order every op no input refers to; fails exactly when no list is given and a fed op has not one output |
| `GraphToFunction.TFGraphToFunction` | tensorflow/tensorflow/c/c_api_function.cc:471-520 | arguments that fail a check are refused; for all others the result, success or error, is that of the conversion for exactly those tensors and that body |
| `GraphToFunction.SucceedsIff` | tensorflow/tensorflow/c/c_api_function.cc:471-520 | on a well-formed graph, the exact condition under which a call whose arguments pass the checks succeeds |
| `CycleCheck.InitialCount` | tensorflow/tensorflow/c/c_api.cc:392-401 | the counter starts at the number of incoming edges less the legal while-loop edges |
| `CycleCheck.CountAll` | tensorflow/tensorflow/c/c_api.cc:389-405 | every counter, and the ready list holds exactly the nodes whose counter is zero |
| `CycleCheck.VisitEdges` | tensorflow/tensorflow/c/c_api.cc:413-419 | counts down every target and queues each node once, when its counter reaches zero |
| `CycleCheck.Traverse` | tensorflow/tensorflow/c/c_api.cc:407-420 | terminates; the visited nodes form a release order that no release order goes beyond |
| `CycleCheck.ValidateNoCycles` | tensorflow/tensorflow/c/c_api.cc:382-435 | reports OK if and only if no set of ids is a trap (equally, if a complete release order exists); otherwise names the first three live nodes whose counter is not zero when the traversal is stuck |
| `CycleCheck.AcceptedIffNoTrap` | tensorflow/tensorflow/c/c_api.cc:382-435 | the exact verdict on every graph, with no hypothesis: accepted if and only if there is no nonempty set of ids in which every live node has more edges from the set than it has legal while-loop edges |
| `CycleCheck.FirstPending` | tensorflow/tensorflow/c/c_api.cc:423-429 | exactly the first three nodes whose counter is not zero |
| `CycleCheck.ReportedMeans` | tensorflow/tensorflow/c/c_api.cc:423-429 | a node named in the error is live, and was never visited or is a Merge with while-loop edges |
| `CycleCheck.LegalMergeIsReported` | tensorflow/tensorflow/c/c_api.cc:423-429 | the error can name a node that is in no cycle: the Merge of a legal while loop, whose counter has gone below zero |
| `CycleCheck.RemovedIdRejected` | tensorflow/tensorflow/c/c_api.cc:384-422 | a removed id is a trap by itself: the graph is rejected |
| `CycleCheck.AcyclicAccepted` | tensorflow/tensorflow/c/c_api.cc:382-435 | without removed ids, a graph that is acyclic once legal while-loop edges are deleted is accepted |
| `CycleCheck.AcceptedAcyclic` | tensorflow/tensorflow/c/c_api.cc:382-435 | if each NextIteration is reachable from its Merge, an accepted graph is acyclic once those edges are deleted |
| `CycleCheck.AcceptedIffAcyclic` | tensorflow/tensorflow/c/c_api.cc:382-435 | both directions: if each NextIteration is reachable from its Merge, a graph is accepted if and only if it has no removed id and no cycle once those edges are deleted |
| `CycleCheck.HiddenCycleIsEntered` | tensorflow/tensorflow/c/c_api.cc:413-418 | how a cycle gets past the check: below every cycle of an accepted graph a Merge is fed by a NextIteration that does not depend on the cycle |
| `CycleCheck.JudgedRightIff` | tensorflow/tensorflow/c/c_api.cc:382-435 | exactly when the verdict is right, open loops or not: unless the graph has a cycle and yet no trap; and exactly those graphs are accepted with a cycle |
| `CycleCheck.OpenLoopHidesCycle` | tensorflow/tensorflow/c/c_api.cc:413-418 | the reachability hypothesis is needed: a graph with a cycle that is accepted |
| `GoSession.StepKeepsInv` | tensorflow/tensorflow/go/session.go:75-100 | every step of every call keeps the invariant on the mutex, the WaitGroup and the C session |
| `GoSession.SessionSafety` | tensorflow/tensorflow/go/session.go:75-228 | over every interleaving of any number of Run-like and Close calls: no use after deletion, at most one deletion, calls in flight find c open and the session alive, the WaitGroup equals the calls in flight, none in flight past the wait, mutual exclusion |
| `GoSession.MisuseIsRecorded` | tensorflow/tensorflow/go/session.go:85-91 | touching a deleted C session in any state would be recorded for good, so the absence of such a record means something |
| `GoSession.NilForEver` | tensorflow/tensorflow/go/session.go:76-80 | once c is nil it stays nil, and a Run not yet admitted never is |
| `GoSession.RefusedAfterClose` | tensorflow/tensorflow/go/session.go:75-80 | every Run that starts after a Close has returned success is refused when it returns |
| `GoSession.ClosedIsNil` | tensorflow/tensorflow/go/session.go:213-228 | a Close that returned success left the session deleted, once, and c nil |
| `GoSession.RefusedOnlyWhenClosed` | tensorflow/tensorflow/go/session.go:77-80 | a Run is refused only when a Close has deleted the session |
| `GoSession.DoneWasUsing` | tensorflow/tensorflow/go/session.go:85-91 | a Run that returned normally was inside the C library while the session was open and alive |
| `GoSession.RunsSucceedWithoutClose` | tensorflow/tensorflow/go/session.go:75-100 | in an execution of Run calls alone that cannot go on, every call is done and none refused |
| `GoSession.CloseFailedBecause` | tensorflow/tensorflow/go/session.go:217-227 | a Close returns an error only if TF_CloseSession did, on the open session |
| `GoSession.NoDeadlock` | tensorflow/tensorflow/go/session.go:75-228 | in every reachable state, while a call has not returned some call can take a step |
| `GoSession.RunsTerminate` | tensorflow/tensorflow/go/session.go:75-228 | an execution of n calls has at most 7n steps |
| `GoSession.MaximalRunsReturn` | tensorflow/tensorflow/go/session.go:75-228 | an execution that cannot go on has every call returned |
| `SessionExtension.CollectNew` | tensorflow/tensorflow/c/c_api.cc:2324-2330 | the loop collects exactly the live ops in the id range, in id order |
| `SessionExtension.OpsExact` | tensorflow/tensorflow/c/c_api.cc:2324-2330 | each live op of an id range once and in ascending order |
| `SessionExtension.StepKeepsInv` | tensorflow/tensorflow/c/c_api.cc:2306-2346 | every step of graph building, session creation and extension keeps all sessions in step |
| `SessionExtension.SessionsInStep` | tensorflow/tensorflow/c/c_api.cc:2306-2346 | over every interleaving each session has received exactly the live ops below its last_num_graph_nodes, each once and in id order, and what is missing is the rest |
| `SessionExtension.NewSessionReceives` | tensorflow/tensorflow/c/c_api.cc:2200-2201 | a new session has received exactly what its successful extensions delivered: nothing, with last_num_graph_nodes zero, until the first |
| `SessionExtension.LoadedSessionReceives` | tensorflow/tensorflow/c/c_api.cc:2277-2281 | a loaded session has received the ops the graph had and what its successful extensions delivered |
| `SessionExtension.GraphIsAdded` | tensorflow/tensorflow/c/c_api.cc:2309-2332 | the nodes and edges at any step are those added by graph construction, in order; sessions change nothing |
| `SessionExtension.SendingIff` | tensorflow/tensorflow/c/c_api.cc:2308-2340 | a session is sending exactly from an extension that finds it behind on a graph that passes until Extend returns |
| `SessionExtension.FailuresChangeNothing` | tensorflow/tensorflow/c/c_api.cc:2333-2340 | until an extension succeeds, what a session has received and its last_num_graph_nodes stay as they were, however many extensions fail and whatever else happens |
| `SessionExtension.SuccessDeliversGap` | tensorflow/tensorflow/c/c_api.cc:2309-2340 | the first extension to succeed after any number of failures delivers exactly the ops between what the session had and what the graph had when the lock was held, and the graph then had no trap |
| `SessionExtension.ExtensionDelivers` | tensorflow/tensorflow/c/c_api.cc:2309-2340 | a successful extension delivers the snapshot taken under the lock, and nodes added after the lock was dropped are what the next one sends |
| `SessionExtension.CatchesUpIff` | tensorflow/tensorflow/c/c_api.cc:2312-2340 | an idle session that is behind has every op of the graph after its next extension, Extend succeeding, if and only if the graph has no trap |
| `SessionExtension.NewSessionCatchesUp` | tensorflow/tensorflow/c/c_api.cc:2207-2221 | from any reachable state of a graph without a trap a new session can be made and its first extension brings it every op |
| `SessionExtension.BlockedWhileTrapped` | tensorflow/tensorflow/c/c_api.cc:2313-2317 | while every extension of an idle session is refused by the cycle check, the session stays exactly as it was |
| `SessionExtension.RemovedIdBlocksSessions` | tensorflow/tensorflow/c/c_api.cc:2312-2317 | after any removed id an idle session never receives anything again |
| `GraphLifetime.StepKeepsInv` | tensorflow/tensorflow/c/c_api.cc:2289-2301 | num_sessions counts the sessions that refer to the graph; a doomed graph has exactly one thread that frees it |
| `GraphLifetime.FreedAtMostOnce` | tensorflow/tensorflow/c/c_api.cc:1751-1757 | over every interleaving: freed at most once, only after deletion was requested, never while a session refers to it |
| `GraphLifetime.FreedInTheEnd` | tensorflow/tensorflow/c/c_api_internal.h:82-88 | when TF_DeleteGraph and all session deletions have returned the graph was freed, exactly once |
| `GraphLifetime.UsingIff` | tensorflow/tensorflow/c/c_api.cc:2212-2215 | a session refers to the graph exactly from the step that counts it to the step that deletes it |
| `GraphLifetime.RequestedIff` | tensorflow/tensorflow/c/c_api.cc:1751-1755 | deletion has been requested exactly when TF_DeleteGraph has been called |
| `GraphLifetime.CanBeFreed` | tensorflow/tensorflow/c/c_api.cc:2289-2301 | from every reachable state without a half-made session, all can be deleted and the graph is then freed, once |
| `GraphLifetime.DoomedForEver` | tensorflow/tensorflow/c/c_api.cc:2207-2221 | once deletion is requested with no session left, no session is counted any more |
| `GraphLifetime.UnguardedSessionFreesTwice` | tensorflow/tensorflow/c/c_api.cc:2212-2215 | the demand on callers is needed: a session counted on a doomed graph leads to a second free |
| `NameIndex.LiveOpsExact` | tensorflow/tensorflow/c/c_api.cc:1769-1790 | the list of live ops has each live op once, in id order |
| `NameIndex.RegisteredAgrees` | tensorflow/tensorflow/c/c_api.cc:2117-2125 | entering freshly named nodes keeps name_map equal to the live ops |
| `NameIndex.NamesUnique` | tensorflow/tensorflow/c/c_api.cc:1272-1290 | two live ops never share a name |
| `NameIndex.FoundByName` | tensorflow/tensorflow/c/c_api.cc:1759-1767 | every live op is found under its own name |
| `NameIndex.TFGraph.FinishOperation` | tensorflow/tensorflow/c/c_api.cc:1267-1300 | succeeds exactly on a fresh name that builds and infers; a failure leaves live ops and name_map unchanged |
| `NameIndex.TFGraph.Register` | tensorflow/tensorflow/c/c_api.cc:1861-1864 | the loop enters every new node and skips removed ids |
| `NameIndex.TFGraph.AddSubgraph` | tensorflow/tensorflow/c/c_api.cc:2110-2125 | while loops and gradients keep name_map equal to the live ops, even when the library fails midway |
| `NameIndex.TFGraph.ImportGraphDef` | tensorflow/tensorflow/c/c_api.cc:1856-1864 | an import keeps name_map equal to the live ops; a failed one leaves name_map unchanged |
| `NameIndex.TFGraph.OperationByName` | tensorflow/tensorflow/c/c_api.cc:1759-1767 | finds a live op of that name, or there is none |
| `NameIndex.TFGraph.NextOperation` | tensorflow/tensorflow/c/c_api.cc:1769-1790 | returns the next live op and leaves exactly the later ones |
| `NameIndex.TFGraph.AllOperations` | tensorflow/tensorflow/c/c_api.cc:1769-1790 | iterating from position 0 visits each live op once in id order, and lookup by name agrees with it |
| `Bytes.FixedRoundTrip` | tensorflow/tensorflow/c/c_api.cc:571-574 | fixed-width integers read back in either byte order |
| `Bytes.FixedWidthAt` | tensorflow/tensorflow/c/c_api.cc:571-574 | byte i holds bits 8i to 8i+7, counted from the start in little-endian and from the end in big-endian order |
| `Bytes.EncodeVarint64` | tensorflow/tensorflow/core/lib/core/coding.cc:110-119 | writes exactly the varint and nothing else |
| `Bytes.VarintLength` | tensorflow/tensorflow/core/lib/core/coding.cc:127-134 | the number of bytes EncodeVarint64 writes |
| `Bytes.GetVarint64` | tensorflow/tensorflow/core/lib/core/coding.cc:166-181 | the loop reads what the recursive reader reads: value and length, or nothing when truncated or too long |
| `Bytes.VarintRoundTrip` | tensorflow/tensorflow/core/lib/core/coding.cc:166-181 | every 64-bit number reads back, whatever follows it |
| `Bytes.VarintAt` | tensorflow/tensorflow/core/lib/core/coding.cc:110-119 | byte i holds bits 7i to 7i+6, and its top bit is set exactly when another byte follows |
| `Bytes.VarintShortest` | tensorflow/tensorflow/core/lib/core/coding.cc:127-134 | a varint has no more bytes than the number needs |
| `StringTensor.StringEncodedSize` | tensorflow/tensorflow/c/c_api.cc:278-280 | length prefix plus length, in wrap-around size_t arithmetic |
| `StringTensor.StringEncode` | tensorflow/tensorflow/c/c_api.cc:237-253 | writes the encoding at the destination and nothing else; fails, changing nothing, exactly when it does not fit or its size wraps |
| `StringTensor.BytesNeeded` | tensorflow/tensorflow/c/c_api.cc:557-564 | the size of the table and the data |
| `StringTensor.PutString` | tensorflow/tensorflow/c/c_api.cc:573-584 | one round of the loop extends table and data and keeps both in place |
| `StringTensor.TensorFromTensor` | tensorflow/tensorflow/c/c_api.cc:557-591 | for every list that fits, no error path is taken and the buffer of the computed size is filled exactly |
| `StringTensor.StringDecode` | tensorflow/tensorflow/c/c_api.cc:255-269 | where the string starts and how long it claims to be |
| `StringTensor.TensorToTensor` | tensorflow/tensorflow/c/c_api.cc:473-500 | every element decoded, or the error of the first element that has one, all earlier ones decoding; too short buffers are refused |
| `StringTensor.GetString` | tensorflow/tensorflow/c/c_api.cc:486-498 | one round of the decoding loop, with the signed comparison of the offset |
| `StringTensor.ElementOfBuffer` | tensorflow/tensorflow/c/c_api.cc:486-498 | every element of an encoded buffer decodes to its string with offset and length inside the buffer |
| `StringTensor.RoundTrip` | tensorflow/tensorflow/c/c_api.cc:473-500 | an encoded buffer decodes to the strings that went in, and to nothing else |
| `StringTensor.EncodeThenDecode` | tensorflow/tensorflow/c/c_api.cc:473-591 | the two calls composed return the same strings |
| `GoValue.ShapeAndKind` | tensorflow/tensorflow/go/tensor.go:235-254 | the loop computes the lengths along first elements, zeros below an empty container, and the element kind |
| `GoValue.ShapeFollowsFirst` | tensorflow/tensorflow/go/tensor.go:237-247 | the first dimension is the length of the container, the others are those of its first element |
| `GoValue.EmptyShapeIsZero` | tensorflow/tensorflow/go/tensor.go:237-247 | from an empty container on every dimension is zero, one per level of the type |
| `GoValue.NumElements` | tensorflow/tensorflow/go/tensor.go:274-280 | the product of the dimensions |
| `GoValue.ShapeSuits` | tensorflow/tensorflow/go/tensor.go:235-254 | the inferred shape has a dimension per level and agrees with array lengths |
| `GoValue.VisitOkIff` | tensorflow/tensorflow/go/tensor.go:314-330 | the encoders succeed exactly when every container at each depth has the length the shape says |
| `GoValue.VisitBounded` | tensorflow/tensorflow/go/tensor.go:314-330 | even when stopped midway no more elements are visited than the shape has, and on success exactly as many |
| `GoValue.VisitIsRowMajor` | tensorflow/tensorflow/go/tensor.go:314-330 | the element at a path of indices is written at its row-major position |
| `GoValue.BuildRestores` | tensorflow/tensorflow/go/tensor.go:353-360 | rebuilding from the elements of a rectangular value gives the value, arrays as slices |
| `GoNumericTensor.EncodeTensor` | tensorflow/tensorflow/go/tensor.go:299-336 | appends exactly the elements before the first mismatch and reports whether there was one |
| `GoNumericTensor.ElemRoundTrip` | tensorflow/tensorflow/go/tensor.go:309-312 | booleans, integers, floats and complex numbers read back bit for bit |
| `GoNumericTensor.AllocationSuffices` | tensorflow/tensorflow/go/tensor.go:76-100 | nbytes is never exceeded, even by an encoding that fails midway, and is filled exactly on success |
| `GoNumericTensor.NewTensor` | tensorflow/tensorflow/go/tensor.go:70-100 | succeeds exactly on values rectangular in the inferred shape, and the memory then holds the row-major bytes |
| `GoNumericTensor.DecodeTensor` | tensorflow/tensorflow/go/tensor.go:340-366 | the decoder builds the nested slices of the shape, or runs out of bytes |
| `GoNumericTensor.ValueOf` | tensorflow/tensorflow/go/tensor.go:172-179 | Tensor.Value for numeric tensors |
| `GoNumericTensor.DecodedIsOriginal` | tensorflow/tensorflow/go/tensor.go:340-366 | decoding the bytes of a rectangular value rebuilds it |
| `GoNumericTensor.RoundTrip` | tensorflow/tensorflow/go/tensor.go:70-188 | NewTensor then Value gives the value back exactly when it is rectangular |
| `GoStringTensor.ByteSizeOfEncodedStrings` | tensorflow/tensorflow/go/tensor.go:284-295 | equals the size of the data the C++ encoder writes for the flattening |
| `GoStringTensor.WriteText` | tensorflow/tensorflow/go/tensor.go:376-389 | offset and encoding extend table and data |
| `GoStringTensor.StringEncoder.EncodeText` | tensorflow/tensorflow/go/tensor.go:376-389 | one string: both parts stay in place, the offset advances |
| `GoStringTensor.StringEncoder.Encode` | tensorflow/tensorflow/go/tensor.go:375-406 | encodes exactly the strings before the first mismatch and reports whether there was one |
| `GoStringTensor.Decode` | tensorflow/tensorflow/go/tensor.go:414-445 | the decoder builds the nested slices of the shape from the table and the data |
| `GoStringTensor.NewTensor` | tensorflow/tensorflow/go/tensor.go:76-108 | succeeds exactly on rectangular values, and the memory is then byte for byte what the C++ encoder writes for the row-major flattening |
| `GoStringTensor.DecodedIsOriginal` | tensorflow/tensorflow/go/tensor.go:414-445 | stringDecoder returns the original nesting |
| `GoStringTensor.RoundTrip` | tensorflow/tensorflow/go/tensor.go:375-445 | Go reads back the nesting and C++ reads back the flat list of what Go encoded |
| `Layout.PlaceView` | tensorflow/tensorflow/stream_executor/dnn.cc:148-179 | the indices of GetDimIndices place and read the entries where the layout name says, and the two are inverse |
| `Layout.ReorderDims` | tensorflow/tensorflow/stream_executor/dnn.cc:181-203 | the loop moves every entry to its place in the other layout, at any rank |
| `Layout.ReorderComposes` | tensorflow/tensorflow/stream_executor/dnn.cc:181-203 | reordering through any third layout changes nothing, and reordering back undoes it |
| `Layout.NodesPerFeatureMap` | tensorflow/tensorflow/stream_executor/dnn.cc:313-319 | the product of the spatial dimensions |
| `Layout.FullDimsOf` | tensorflow/tensorflow/stream_executor/dnn.cc:226-232 | the dimensions placed as the layout says |
| `Layout.DimsByName` | tensorflow/tensorflow/stream_executor/dnn.cc:226-232 | where each layout has the batch count, the feature maps and the spatial dimensions, at any rank |
| `Layout.FullStridesOf` | tensorflow/tensorflow/stream_executor/dnn.cc:234-251 | the strides seen in a layout, None where the source aborts |
| `Layout.StridesAt` | tensorflow/tensorflow/stream_executor/dnn.cc:245-249 | each stride is the product of all later dimensions |
| `Layout.ProductOfDims` | tensorflow/tensorflow/stream_executor/dnn.cc:325-327 | ElementCount is the product of the dimensions in every layout |
| `Layout.OffsetViewIndependent` | tensorflow/tensorflow/stream_executor/dnn.cc:234-251 | an offset does not depend on the layout in which coordinates and strides are viewed |
| `Layout.OffsetsInjective` | tensorflow/tensorflow/stream_executor/dnn.cc:226-251 | in every layout offsets lie in [0, ElementCount) and no two elements share one |
| `Layout.OffsetsSurjective` | tensorflow/tensorflow/stream_executor/dnn.cc:226-251 | every offset in [0, ElementCount) is some element's: with the row above, a bijection |
| `Occupancy.CeilGalois` | tensorflow/tensorflow/stream_executor/lib/mathutil.h:58-90 | the ceiling is the least number of units that cover a value |
| `Occupancy.RoundUpLeast` | tensorflow/tensorflow/stream_executor/device_description.cc:153-156 | RoundUp gives the least multiple that is not smaller |
| `Occupancy.OccupancyIsMaximum` | tensorflow/tensorflow/stream_executor/device_description.cc:163-213 | n blocks can be resident, each taking the least multiple of the device's own units that holds its warps, registers, shared memory and threads, if and only if n is at most the occupancy |
| `Occupancy.OccupancyZero` | tensorflow/tensorflow/stream_executor/device_description.cc:167-183 | an unset required field or too many registers makes the occupancy zero |
| `Occupancy.OccupancyAntitone` | tensorflow/tensorflow/stream_executor/device_description.cc:163-213 | occupancy never rises with registers per thread or shared memory per block |
| `Occupancy.CalculateRegisterLimit` | tensorflow/tensorflow/stream_executor/device_description.cc:215-232 | the loop terminates and, when the step tiles the allocation unit, returns the greatest register count meeting the target, or 0 when there is none |
| `Occupancy.SearchIsGreatest` | tensorflow/tensorflow/stream_executor/device_description.cc:223-231 | the stepped search from any start finds the greatest count although it skips most |
| `Occupancy.UnevenSearchFails` | tensorflow/tensorflow/stream_executor/device_description.cc:221-224 | for every warp size and granularity that do not tile with a step above one, a device on which the search misses the optimum |
| `Occupancy.SearchOptimalIff` | tensorflow/tensorflow/stream_executor/device_description.cc:221-232 | the search is optimal on every device with given units if and only if threads_per_warp divides the granularity or the step is one |
| `Occupancy.CalculateDimensionality` | tensorflow/tensorflow/stream_executor/device_description.cc:142-151 | the blocks cover the elements, one block fewer would not, and a single block has exactly the elements |
| `ExecutorCache.StepKeepsInv` | tensorflow/tensorflow/stream_executor/executor_cache.cc:23-76 | every step of every call keeps the invariant on both locks, the entries and the executors built |
| `ExecutorCache.NotBuiltYet` | tensorflow/tensorflow/stream_executor/executor_cache.cc:40-61 | while a factory runs for a key no executor exists for that key, in the cache or on its way into it |
| `ExecutorCache.CacheRefinesMap` | tensorflow/tensorflow/stream_executor/executor_cache.cc:23-76 | over every interleaving the answers, in the order they were decided, are those of a finite map, and the cache holds what that map holds |
| `ExecutorCache.AnswersACall` | tensorflow/tensorflow/stream_executor/executor_cache.cc:23-76 | every answer in the history answers a call some thread had made before and was in; a failure repeats what the factory returned at that step |
| `ExecutorCache.NoFailureWithoutCause` | tensorflow/tensorflow/stream_executor/executor_cache.cc:48-54 | when no factory fails no call fails |
| `ExecutorCache.AnsweredBetweenCallAndReturn` | tensorflow/tensorflow/stream_executor/executor_cache.cc:23-76 | linearizability in real time: a call about to return was answered, as the history records, after it was made and before it returns |
| `ExecutorCache.CallsAreBounded` | tensorflow/tensorflow/stream_executor/executor_cache.cc:39-45 | a call takes at most eight steps and one for each configuration of its ordinal, whatever the other threads do |
| `ExecutorCache.OneExecutorPerKey` | tensorflow/tensorflow/stream_executor/executor_cache.cc:37-56 | at most one executor is ever built for an (ordinal, plugins, flags) key, and factories of one ordinal never overlap |
| `ExecutorCache.SameExecutorAfterwards` | tensorflow/tensorflow/stream_executor/executor_cache.cc:39-45 | once a key has yielded an executor every later call with that key yields the same |
| `ExecutorCache.FailureLeavesUnresolved` | tensorflow/tensorflow/stream_executor/executor_cache.cc:48-54 | a failed factory, like a missed Get, leaves the map unchanged and the key unresolved |
| `ExecutorCache.CachedForEver` | tensorflow/tensorflow/stream_executor/executor_cache.cc:55-56 | what is in the cache stays in it |
| `ExecutorCache.NoDeadlock` | tensorflow/tensorflow/stream_executor/executor_cache.cc:26-37 | whenever a call is under way some call can take its next step |
| `KernelArgs.ArgAt` | tensorflow/tensorflow/stream_executor/kernel.h:306-322 | the next plain and the next shared part decide what argument n is |
| `KernelArgs.KernelArgsArray.AddArgument` | tensorflow/tensorflow/stream_executor/kernel.h:406-411 | appends a plain argument to the represented list |
| `KernelArgs.KernelArgsArray.AddDeviceMemoryArgument` | tensorflow/tensorflow/stream_executor/kernel.h:414-421 | appends a device-memory argument whose pointer is kept in its own slot |
| `KernelArgs.KernelArgsArray.AddSharedBytes` | tensorflow/tensorflow/stream_executor/kernel.h:427-433 | appends a shared argument at its index; the total wraps as size_t does |
| `KernelArgs.KernelArgsArray.NumberOfArguments` | tensorflow/tensorflow/stream_executor/kernel.h:437-439 | the length of the represented list |
| `KernelArgs.KernelArgsArray.NumberOfSharedBytes` | tensorflow/tensorflow/stream_executor/kernel.h:442-444 | the sum of the shared sizes (modulo the range of size_t) |
| `KernelArgs.KernelArgIterator.Next` | tensorflow/tensorflow/stream_executor/kernel.h:304-324 | presents the next argument that was added; at the end a default one, changing nothing |
| `KernelArgs.AllArguments` | tensorflow/tensorflow/stream_executor/kernel.h:280-324 | has_next/next present exactly the arguments that were added, in order, with their sizes |
| `KernelArgs.PackAndIterate` | tensorflow/tensorflow/stream_executor/kernel.h:528-587 | packing any parameters and iterating presents them in order, and the shared bytes are their sum |

## Left out

- Back edges that are present only in the node definition (`requested_inputs`): taken after
  ParseTensorName and converted as the source does, but not part of the meaning theorem, which asks for complete edges.
- The function's name, its Base64 hash suffix, description and attributes: they do not affect what it computes.
- Normalising characters outside ASCII: `isalnum` and its kin are taken as in the C locale.
- FunctionClosure.ConvertedIsClosed: covers data inputs and return values; control inputs are covered by FunctionValues.ControlsPreserved.
- FunctionValues.MeaningPreserved: asks that no op is listed twice; what becomes of other bodies is FunctionClosure.ClosedIff.
- FunctionMeaning.WhyItFails: says that the reported reason holds; which of several reasons is reported first is what FunctionCompiler.GraphToFunctionDef computes.
- The order in which an unordered_map or an edge set is enumerated: where the source iterates over one, the model fixes an order; for edges in CycleCheck any order is allowed.
- GoSession.SessionSafety: Run, PartialRun.Run and NewPartialRun are one protocol; what the C library does inside a call, and the finalizers, are not modelled.
- python_api.cc (AddControlInput, UpdateEdge, SetRequestedDevice): edits of nodes already sent to a session are outside the extension invariant.
- TF_LoadSessionFromSavedModel: only its effect on last_num_graph_nodes and num_sessions, not loading.
- StringTensor.TensorToTensor: on malformed buffers the source may read outside the tensor; the model reports that as an outcome of its own.
- StringTensor.TensorFromTensor: states the case in which the whole tensor is below 2^63 bytes; size_t wrap-around of the total is not explored.
- GoStringTensor.NewTensor: the same bound on size; tensorData's fixed 2^30-byte window, beyond which the source panics, is not modelled.
- GoStringTensor.Decode: does not model the narrowing of the length to C.int, which that window keeps exact.
- GoNumericTensor.NewTensor: does not model overflow of numElements; floats are bit patterns.
- Reading and writing serialized tensors, and the table of Go types, in go/tensor.go.
- Layout.OffsetsInjective: does not model overflow of 64-bit products.
- Occupancy.OccupancyIsMaximum: does not model overflow of 64-bit products; a device whose granularities are zero, or a block without threads or registers, makes the source divide by zero and is excluded.
- Occupancy.CalculateRegisterLimit: asks that the step is positive and the limit fits an int; otherwise the source divides by zero or starts below zero.
- DestroyAllExecutors: documented as not synchronised with the executors.
- ExecutorCache.NoDeadlock: scheduling fairness and how long a factory takes are not modelled.
- KernelArgs.AllArguments: for an array that is not changed during iteration; template traits are not modelled.
- Protobuf serialisation, NodeBuilder, ShapeRefiner, symbolic gradients, while-loop construction and Session::Run: library code that the model takes as given.
- Attribute getters, shapes, plugin registries, platform managers, printing and logging: they would only add easy members.
