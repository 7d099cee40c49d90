/**
 The split storage of kernel arguments in stream_executor/kernel.h, and the iterator that merges
 the parts back into the list of arguments in the order in which they were added.
 */
module KernelArgs {

  const SIZE_LIMIT := 0x1_0000_0000_0000_0000  // size_t wraps here
  const POINTER_SIZE := 8

  /** An argument as the caller adds it. */
  datatype Arg =
    | Plain(target: nat, size: nat)
    | DeviceMemory(opaquePointer: nat)
    | Shared(bytes: nat)

  /** The address of the caller's object, or of a copied device pointer. */
  datatype Address = Null | Object(target: nat) | Slot(index: nat)

  datatype KernelArg = KernelArg(isShared: bool, address: Address, size: nat)

  // ---- The parts of a list of arguments ------------------------------------------------------------

  function Plains(args: seq<Arg>): seq<Arg> {
    if args == [] then []
    else
      var last := args[|args| - 1];
      Plains(args[..|args| - 1]) + if last.Shared? then [] else [last]
  }

  function SharedSizes(args: seq<Arg>): seq<nat> {
    if args == [] then []
    else
      var last := args[|args| - 1];
      SharedSizes(args[..|args| - 1]) + if last.Shared? then [last.bytes] else []
  }

  function SharedIndices(args: seq<Arg>): seq<nat> {
    if args == [] then []
    else SharedIndices(args[..|args| - 1]) + if args[|args| - 1].Shared? then [|args| - 1] else []
  }

  function Sum(sizes: seq<nat>): nat {
    if sizes == [] then 0 else Sum(sizes[..|sizes| - 1]) + sizes[|sizes| - 1]
  }

  lemma PartsOfExtended(args: seq<Arg>, arg: Arg)
    ensures Plains(args + [arg]) == Plains(args) + if arg.Shared? then [] else [arg]
    ensures SharedSizes(args + [arg]) == SharedSizes(args) + if arg.Shared? then [arg.bytes] else []
    ensures SharedIndices(args + [arg]) == SharedIndices(args) + if arg.Shared? then [|args|] else []
  {
    assert (args + [arg])[..|args|] == args;
  }

  lemma {:induction false} PartSizes(args: seq<Arg>)
    ensures |Plains(args)| + |SharedSizes(args)| == |args| && |SharedIndices(args)| == |SharedSizes(args)|
  {
    if args != [] {
      PartSizes(args[..|args| - 1]);
    }
  }

  /** The next plain and the next shared part tell where argument n is, and what it is. */
  lemma {:induction false} ArgAt(args: seq<Arg>, n: nat)
    requires n < |args|
    ensures var i, j := |Plains(args[..n])|, |SharedSizes(args[..n])|;
      && j <= |SharedSizes(args)| == |SharedIndices(args)|
      && (args[n].Shared? ==> j < |SharedSizes(args)| && SharedSizes(args)[j] == args[n].bytes
                              && SharedIndices(args)[j] == n)
      && (!args[n].Shared? ==> i < |Plains(args)| && Plains(args)[i] == args[n]
                               && (j < |SharedSizes(args)| ==> SharedIndices(args)[j] != n))
  {
    var front := args[..|args| - 1];
    PartSizes(front);
    if n < |front| {
      ArgAt(front, n);
      assert front[..n] == args[..n];
    } else {
      assert args[..n] == front;
    }
  }

  // ---- What the storage holds ----------------------------------------------------------------------------

  /** The stored address and size of the plain argument in position i, given the copied pointers. */
  ghost predicate Keeps(arg: Arg, i: nat, address: Address, size: nat, slots: seq<nat>)
    requires i < |slots|
  {
    match arg
    case Plain(target, s) => address == Object(target) && size == s
    case DeviceMemory(pointer) => address == Slot(i) && size == POINTER_SIZE && slots[i] == pointer
    case Shared(_) => false
  }

  ghost predicate Represents(args: seq<Arg>, addresses: seq<Address>, sizes: seq<nat>, slots: seq<nat>,
                             bytes: seq<nat>, indices: seq<nat>)
  {
    && |Plains(args)| == |addresses| == |sizes| == |slots|
    && (forall i | 0 <= i < |addresses| :: Keeps(Plains(args)[i], i, addresses[i], sizes[i], slots))
    && bytes == SharedSizes(args) && indices == SharedIndices(args)
  }

  /** What a launch sees through k is arg. */
  ghost predicate Presents(k: KernelArg, arg: Arg, slots: seq<nat>) {
    match arg
    case Plain(target, size) => k == KernelArg(false, Object(target), size)
    case DeviceMemory(pointer) =>
      && !k.isShared && k.size == POINTER_SIZE
      && k.address.Slot? && k.address.index < |slots| && slots[k.address.index] == pointer
    case Shared(bytes) => k == KernelArg(true, Null, bytes)
  }

  // ---- KernelArgsArray -----------------------------------------------------------------------------------

  class KernelArgsArray {
    const devicePointers: array<nat>
    const addresses: array<Address>
    const sizes: array<nat>
    const sharedBytes: array<nat>
    const sharedIndices: array<nat>
    var totalSharedBytes: nat
    var numAddresses: nat
    var numShared: nat
    ghost var added: seq<Arg>

    ghost predicate Valid()
      reads this, devicePointers, addresses, sizes, sharedBytes, sharedIndices
    {
      && devicePointers != sizes && devicePointers != sharedBytes && devicePointers != sharedIndices
      && sizes != sharedBytes && sizes != sharedIndices && sharedBytes != sharedIndices
      && devicePointers.Length == addresses.Length == sizes.Length == sharedBytes.Length == sharedIndices.Length
      && numAddresses <= addresses.Length && numShared <= addresses.Length
      && Represents(added, addresses[..numAddresses], sizes[..numAddresses], devicePointers[..numAddresses],
                    sharedBytes[..numShared], sharedIndices[..numShared])
      && totalSharedBytes == Sum(SharedSizes(added)) % SIZE_LIMIT
    }

    constructor (kNumArgs: nat)
      ensures Valid() && added == [] && addresses.Length == kNumArgs
      ensures fresh(devicePointers) && fresh(addresses) && fresh(sizes) && fresh(sharedBytes) && fresh(sharedIndices)
    {
      devicePointers := new nat[kNumArgs];
      addresses := new Address[kNumArgs];
      sizes := new nat[kNumArgs];
      sharedBytes := new nat[kNumArgs];
      sharedIndices := new nat[kNumArgs];
      totalSharedBytes, numAddresses, numShared, added := 0, 0, 0, [];
    }

    method AddArgument(target: nat, size: nat)
      requires Valid() && numAddresses < addresses.Length
      modifies this, addresses, sizes
      ensures Valid() && added == old(added) + [Plain(target, size)]
      ensures numAddresses == old(numAddresses) + 1 && numShared == old(numShared)
    {
      PartsOfExtended(added, Plain(target, size));
      addresses[numAddresses] := Object(target);
      sizes[numAddresses] := size;
      numAddresses := numAddresses + 1;
      added := added + [Plain(target, size)];
    }

    method AddDeviceMemoryArgument(pointer: nat)
      requires Valid() && numAddresses < addresses.Length
      modifies this, devicePointers, addresses, sizes
      ensures Valid() && added == old(added) + [DeviceMemory(pointer)]
      ensures numAddresses == old(numAddresses) + 1 && numShared == old(numShared)
    {
      PartsOfExtended(added, DeviceMemory(pointer));
      devicePointers[numAddresses] := pointer;
      addresses[numAddresses] := Slot(numAddresses);
      sizes[numAddresses] := POINTER_SIZE;
      numAddresses := numAddresses + 1;
      added := added + [DeviceMemory(pointer)];
    }

    method AddSharedBytes(bytes: nat)
      requires Valid() && numShared < addresses.Length
      modifies this, sharedBytes, sharedIndices
      ensures Valid() && added == old(added) + [Shared(bytes)]
      ensures numAddresses == old(numAddresses) && numShared == old(numShared) + 1
    {
      PartsOfExtended(added, Shared(bytes));
      PartSizes(added);
      sharedIndices[numShared] := numAddresses + numShared;
      sharedBytes[numShared] := bytes;
      numShared := numShared + 1;
      totalSharedBytes := (totalSharedBytes + bytes) % SIZE_LIMIT;
      SumOfExtended(SharedSizes(added), bytes);
      added := added + [Shared(bytes)];
    }

    method NumberOfArguments() returns (n: nat)
      requires Valid()
      ensures n == |added|
    {
      PartSizes(added);
      n := numAddresses + numShared;
    }

    method NumberOfSharedBytes() returns (n: nat)
      requires Valid()
      ensures n == Sum(SharedSizes(added)) % SIZE_LIMIT
      ensures Sum(SharedSizes(added)) < SIZE_LIMIT ==> n == Sum(SharedSizes(added))
    {
      n := totalSharedBytes;
    }
  }

  lemma SumOfExtended(sizes: seq<nat>, n: nat)
    ensures Sum(sizes + [n]) == Sum(sizes) + n
  {
    assert (sizes + [n])[..|sizes|] == sizes;
  }

  // ---- KernelArgIterator ---------------------------------------------------------------------------------

  /** Over an array that is not changed while the iterator is in use. */
  class KernelArgIterator {
    const args: KernelArgsArray
    var argIndex: nat
    const numberOfArguments: nat
    var argAddressIter: nat
    var argSizeIter: nat
    var shmemBytesIter: nat
    var shmemIndicesIter: nat
    const shmemIndicesEnd: nat

    ghost predicate Valid()
      reads this, args, args.devicePointers, args.addresses, args.sizes, args.sharedBytes, args.sharedIndices
    {
      && args.Valid()
      && numberOfArguments == |args.added| && shmemIndicesEnd == |SharedSizes(args.added)|
      && argIndex <= numberOfArguments
      && argAddressIter == argSizeIter == |Plains(args.added[..argIndex])|
      && shmemBytesIter == shmemIndicesIter == |SharedSizes(args.added[..argIndex])|
    }

    constructor (args: KernelArgsArray)
      requires args.Valid()
      ensures Valid() && this.args == args && argIndex == 0
    {
      PartSizes(args.added);
      this.args := args;
      argIndex, numberOfArguments := 0, args.numAddresses + args.numShared;
      argAddressIter, argSizeIter, shmemBytesIter, shmemIndicesIter := 0, 0, 0, 0;
      shmemIndicesEnd := args.numShared;
    }

    predicate HasNext()
      reads this
    {
      argIndex < numberOfArguments
    }

    /** The next argument; the default one, with nothing changed, when there is none. */
    method Next() returns (result: KernelArg)
      requires Valid()
      modifies this
      ensures Valid()
      ensures old(HasNext()) ==>
                && argIndex == old(argIndex) + 1
                && Presents(result, args.added[old(argIndex)], args.devicePointers[..args.numAddresses])
      ensures !old(HasNext()) ==> argIndex == old(argIndex) && result == KernelArg(false, Null, 0)
    {
      result := KernelArg(false, Null, 0);
      if !HasNext() {
        return;
      }
      ghost var i, j, arg := argAddressIter, shmemIndicesIter, args.added[argIndex];
      ArgAt(args.added, argIndex);
      assert j < shmemIndicesEnd ==> args.sharedIndices[..args.numShared][j] == args.sharedIndices[j];
      assert args.added[..argIndex + 1] == args.added[..argIndex] + [arg];
      PartsOfExtended(args.added[..argIndex], arg);
      if shmemIndicesIter != shmemIndicesEnd && argIndex == args.sharedIndices[shmemIndicesIter] {
        result := KernelArg(true, Null, args.sharedBytes[shmemBytesIter]);
        shmemIndicesIter := shmemIndicesIter + 1;
        shmemBytesIter := shmemBytesIter + 1;
      } else {
        assert !arg.Shared? && Plains(args.added)[i] == arg;
        assert args.addresses[..args.numAddresses][i] == args.addresses[i];
        result := KernelArg(false, args.addresses[argAddressIter], args.sizes[argSizeIter]);
        argAddressIter := argAddressIter + 1;
        argSizeIter := argSizeIter + 1;
      }
      argIndex := argIndex + 1;
    }
  }

  // ---- The merge ---------------------------------------------------------------------------------------------

  /** Iterating to the end presents exactly the arguments that were added, in order. */
  method AllArguments(args: KernelArgsArray) returns (all: seq<KernelArg>)
    requires args.Valid()
    ensures |all| == |args.added|
    ensures forall n | 0 <= n < |all| :: Presents(all[n], args.added[n], args.devicePointers[..args.numAddresses])
  {
    var iter := new KernelArgIterator(args);
    all := [];
    while iter.HasNext()
      invariant fresh(iter) && iter.args == args && iter.Valid() && iter.argIndex == |all|
      invariant forall n | 0 <= n < |all| :: Presents(all[n], args.added[n], args.devicePointers[..args.numAddresses])
      decreases iter.numberOfArguments - iter.argIndex
    {
      var next := iter.Next();
      all := all + [next];
    }
  }

  method PackOneParam(args: KernelArgsArray, param: Arg)
    requires args.Valid() && args.numAddresses < args.addresses.Length && args.numShared < args.addresses.Length
    modifies args, args.devicePointers, args.addresses, args.sizes, args.sharedBytes, args.sharedIndices
    ensures args.Valid() && args.added == old(args.added) + [param]
  {
    match param
    case Plain(target, size) => args.AddArgument(target, size);
    case DeviceMemory(pointer) => args.AddDeviceMemoryArgument(pointer);
    case Shared(bytes) => args.AddSharedBytes(bytes);
  }

  /**
   Packing any parameters into an array made for as many, and iterating over it, presents those
   parameters in order; the shared bytes are the sum over the shared parameters.
   */
  method PackAndIterate(params: seq<Arg>) returns (all: seq<KernelArg>, slots: seq<nat>, sharedBytes: nat)
    ensures |all| == |params| && forall n | 0 <= n < |all| :: Presents(all[n], params[n], slots)
    ensures sharedBytes == Sum(SharedSizes(params)) % SIZE_LIMIT
  {
    var args := new KernelArgsArray(|params|);
    var n := 0;
    while n < |params|
      invariant n <= |params| && args.Valid() && args.added == params[..n] && args.addresses.Length == |params|
      invariant fresh(args) && fresh(args.devicePointers) && fresh(args.addresses) && fresh(args.sizes)
                && fresh(args.sharedBytes) && fresh(args.sharedIndices)
    {
      PartSizes(args.added);
      PackOneParam(args, params[n]);
      n := n + 1;
    }
    assert args.added == params;
    all := AllArguments(args);
    slots := args.devicePointers[..args.numAddresses];
    sharedBytes := args.NumberOfSharedBytes();
  }
}
