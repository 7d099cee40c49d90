/** Numeric and boolean tensors in go/tensor.go: row-major bytes in the platform's byte order, and back. */
module GoNumericTensor {
  import opened Basics
  import opened Bytes
  import opened GoValue

  predicate Numeric(k: Kind) {
    k.BoolKind? || (k.NumKind? && k.parts > 0 && k.width > 0)
  }

  function ElemSize(k: Kind): (n: nat)
    ensures Numeric(k) ==> n > 0
  {
    if k.NumKind? then
      assert k.parts > 0 ==> Span(k.parts, k.width) >= k.width;
      Span(k.parts, k.width)
    else
      1
  }

  // ---- Blocks of equal size -----------------------------------------------------------------------------

  /** The size of n blocks of w bytes. */
  function Span(n: nat, w: nat): nat {
    if n == 0 then 0 else Span(n - 1, w) + w
  }

  lemma {:induction false} SpanIsProduct(n: nat, w: nat)
    ensures Span(n, w) == n * w
  {
    if n > 0 {
      SpanIsProduct(n - 1, w);
      assert n * w == (n - 1) * w + w;
    }
  }

  lemma {:induction false} SpanAdd(m: nat, n: nat, w: nat)
    ensures Span(m + n, w) == Span(m, w) + Span(n, w)
  {
    if n > 0 {
      SpanAdd(m, n - 1, w);
    }
  }

  lemma {:induction false} SpanMonotone(m: nat, n: nat, w: nat)
    requires m <= n
    ensures Span(m, w) <= Span(n, w)
  {
    if m < n {
      SpanMonotone(m, n - 1, w);
    }
  }

  function Concat(blocks: seq<seq<byte>>): seq<byte> {
    if blocks == [] then [] else Concat(blocks[..|blocks| - 1]) + blocks[|blocks| - 1]
  }

  ghost predicate Uniform(blocks: seq<seq<byte>>, w: nat) {
    forall i | 0 <= i < |blocks| :: |blocks[i]| == w
  }

  lemma {:induction false} ConcatSize(blocks: seq<seq<byte>>, w: nat)
    requires Uniform(blocks, w)
    ensures |Concat(blocks)| == Span(|blocks|, w)
  {
    if blocks != [] {
      ConcatSize(blocks[..|blocks| - 1], w);
    }
  }

  lemma {:induction false} ConcatAppend(a: seq<seq<byte>>, b: seq<seq<byte>>)
    ensures Concat(a + b) == Concat(a) + Concat(b)
  {
    if b == [] {
      assert a + b == a;
    } else {
      var n := |b| - 1;
      assert (a + b)[..|a| + n] == a + b[..n];
      ConcatAppend(a, b[..n]);
    }
  }

  /** Block i sits at offset i times the block size. */
  lemma {:induction false} ConcatSlice(blocks: seq<seq<byte>>, w: nat, i: nat)
    requires Uniform(blocks, w) && i < |blocks|
    ensures Span(i, w) + w <= |Concat(blocks)|
    ensures Concat(blocks)[Span(i, w)..Span(i, w) + w] == blocks[i]
  {
    var n := |blocks| - 1;
    ConcatSize(blocks[..n], w);
    if i < n {
      ConcatSlice(blocks[..n], w, i);
    }
  }

  // ---- Bytes of an element --------------------------------------------------------------------------------

  function PartBlocks(e: Endian, bits: seq<nat>, width: nat): (blocks: seq<seq<byte>>)
    ensures |blocks| == |bits|
    ensures forall i | 0 <= i < |bits| :: blocks[i] == FixedWidth(e, bits[i], width)
  {
    seq(|bits|, i requires 0 <= i < |bits| => FixedWidth(e, bits[i], width))
  }

  function ElemBytes(e: Endian, k: Kind, x: Elem): (bs: seq<byte>)
    requires Numeric(k) && ElemHasKind(x, k)
    ensures |bs| == ElemSize(k)
  {
    match x
    case BoolElem(b) => [if b then 1 else 0]
    case NumElem(bits) =>
      ConcatSize(PartBlocks(e, bits, k.width), k.width);
      Concat(PartBlocks(e, bits, k.width))
  }

  function ReadPart(e: Endian, bs: seq<byte>, width: nat, i: nat): nat
    requires Span(i, width) + width <= |bs|
  {
    ReadFixed(e, bs[Span(i, width)..Span(i, width) + width])
  }

  function ReadParts(e: Endian, bs: seq<byte>, parts: nat, width: nat): (bits: seq<nat>)
    requires |bs| == Span(parts, width)
    ensures |bits| == parts
  {
    seq(parts, i requires 0 <= i < parts => SpanMonotone(i + 1, parts, width); ReadPart(e, bs, width, i))
  }

  function ReadElem(e: Endian, k: Kind, bs: seq<byte>): Elem
    requires Numeric(k) && |bs| == ElemSize(k)
  {
    if k.BoolKind? then BoolElem(bs[0] == 1) else NumElem(ReadParts(e, bs, k.parts, k.width))
  }

  lemma PartRoundTrip(e: Endian, bits: seq<nat>, width: nat, i: nat)
    requires i < |bits| && bits[i] < Pow256(width)
    ensures Span(i, width) + width <= |Concat(PartBlocks(e, bits, width))|
    ensures ReadPart(e, Concat(PartBlocks(e, bits, width)), width, i) == bits[i]
  {
    var blocks := PartBlocks(e, bits, width);
    ConcatSlice(blocks, width, i);
    assert blocks[i] == FixedWidth(e, bits[i], width);
    ReadPartIs(e, Concat(blocks), width, i, bits[i]);
  }

  lemma ReadPartIs(e: Endian, bs: seq<byte>, width: nat, i: nat, x: nat)
    requires Span(i, width) + width <= |bs| && x < Pow256(width)
    requires bs[Span(i, width)..Span(i, width) + width] == FixedWidth(e, x, width)
    ensures ReadPart(e, bs, width, i) == x
  {
    FixedRoundTrip(e, x, width);
  }

  lemma PartsRoundTrip(e: Endian, bits: seq<nat>, width: nat, bs: seq<byte>)
    requires forall i | 0 <= i < |bits| :: bits[i] < Pow256(width)
    requires bs == Concat(PartBlocks(e, bits, width)) && |bs| == Span(|bits|, width)
    ensures ReadParts(e, bs, |bits|, width) == bits
  {
    forall i | 0 <= i < |bits| ensures ReadParts(e, bs, |bits|, width)[i] == bits[i] {
      PartRoundTrip(e, bits, width, i);
    }
  }

  lemma ElemRoundTrip(e: Endian, k: Kind, x: Elem)
    requires Numeric(k) && ElemHasKind(x, k)
    ensures ReadElem(e, k, ElemBytes(e, k, x)) == x
  {
    if x.NumElem? {
      ConcatSize(PartBlocks(e, x.bits, k.width), k.width);
      PartsRoundTrip(e, x.bits, k.width, ElemBytes(e, k, x));
    }
  }

  // ---- Bytes of many elements -----------------------------------------------------------------------------

  ghost predicate AllOfKind(xs: seq<Elem>, k: Kind) {
    forall x | x in xs :: ElemHasKind(x, k)
  }

  ghost function Blocks(e: Endian, k: Kind, xs: seq<Elem>): (blocks: seq<seq<byte>>)
    requires Numeric(k) && AllOfKind(xs, k)
    ensures |blocks| == |xs| && Uniform(blocks, ElemSize(k))
    ensures forall i | 0 <= i < |xs| :: blocks[i] == ElemBytes(e, k, xs[i])
  {
    seq(|xs|, i requires 0 <= i < |xs| => ElemBytes(e, k, xs[i]))
  }

  /** Row-major bytes. */
  ghost function BytesOf(e: Endian, k: Kind, xs: seq<Elem>): (bs: seq<byte>)
    requires Numeric(k) && AllOfKind(xs, k)
    ensures |bs| == Span(|xs|, ElemSize(k))
  {
    ConcatSize(Blocks(e, k, xs), ElemSize(k));
    Concat(Blocks(e, k, xs))
  }

  lemma BytesAppend(e: Endian, k: Kind, a: seq<Elem>, b: seq<Elem>)
    requires Numeric(k) && AllOfKind(a, k) && AllOfKind(b, k)
    ensures AllOfKind(a + b, k) && BytesOf(e, k, a + b) == BytesOf(e, k, a) + BytesOf(e, k, b)
  {
    assert Blocks(e, k, a + b) == Blocks(e, k, a) + Blocks(e, k, b);
    ConcatAppend(Blocks(e, k, a), Blocks(e, k, b));
  }

  /** Element i of a buffer, None past its end. */
  function ElemAt(e: Endian, k: Kind, buf: seq<byte>, i: nat): Option<Elem>
    requires Numeric(k)
  {
    var pos, size := Span(i, ElemSize(k)), ElemSize(k);
    if pos + size <= |buf| then Some(ReadElem(e, k, buf[pos..pos + size])) else None
  }

  function ElemsOf(e: Endian, k: Kind, buf: seq<byte>): nat -> Option<Elem>
    requires Numeric(k)
  {
    (i: nat) => ElemAt(e, k, buf, i)
  }

  lemma ElemOfBuffer(e: Endian, k: Kind, xs: seq<Elem>, i: nat)
    requires Numeric(k) && AllOfKind(xs, k) && i < |xs|
    ensures ElemAt(e, k, BytesOf(e, k, xs), i) == Some(xs[i])
  {
    var blocks, size := Blocks(e, k, xs), ElemSize(k);
    ConcatSlice(blocks, size, i);
    assert xs[i] in xs && blocks[i] == ElemBytes(e, k, xs[i]);
    ElemAtIs(e, k, Concat(blocks), i, xs[i]);
  }

  lemma ElemAtIs(e: Endian, k: Kind, buf: seq<byte>, i: nat, x: Elem)
    requires Numeric(k) && ElemHasKind(x, k) && Span(i, ElemSize(k)) + ElemSize(k) <= |buf|
    requires buf[Span(i, ElemSize(k))..Span(i, ElemSize(k)) + ElemSize(k)] == ElemBytes(e, k, x)
    ensures ElemAt(e, k, buf, i) == Some(x)
  {
    ElemRoundTrip(e, k, x);
  }

  lemma BufferSupplies(e: Endian, k: Kind, xs: seq<Elem>)
    requires Numeric(k) && AllOfKind(xs, k)
    ensures Supplies(ElemsOf(e, k, BytesOf(e, k, xs)), 0, xs)
  {
    forall i | 0 <= i < |xs| ensures ElemsOf(e, k, BytesOf(e, k, xs))(0 + i) == Some(xs[i]) {
      ElemOfBuffer(e, k, xs, i);
    }
  }

  // ---- The encoder ---------------------------------------------------------------------------------------

  /** A bytes.Buffer appending into a fixed stretch of memory. */
  class ByteBuffer {
    const raw: array<byte>
    var len: nat

    ghost predicate Valid()
      reads this
    {
      len <= raw.Length
    }

    ghost function Contents(): seq<byte>
      reads this, raw
      requires Valid()
    {
      raw[..len]
    }

    constructor (raw: array<byte>)
      ensures Valid() && this.raw == raw && Contents() == []
    {
      this.raw, this.len := raw, 0;
    }

    method Write(bs: seq<byte>)
      requires Valid() && len + |bs| <= raw.Length
      modifies this, raw
      ensures Valid() && len == old(len) + |bs| && Contents() == old(Contents()) + bs
    {
      WriteBytes(raw, len, bs);
      len := len + |bs|;
    }
  }

  /** The bytes encodeTensor writes, up to the first mismatch. */
  ghost function Written(e: Endian, t: Type, v: Value, shape: seq<nat>): (bs: seq<byte>)
    requires HasType(v, t) && Numeric(KindOf(t))
    ensures |bs| == Span(|Visit(v, shape).elems|, ElemSize(KindOf(t)))
  {
    VisitKinds(v, t, shape);
    BytesOf(e, KindOf(t), Visit(v, shape).elems)
  }

  ghost function WrittenAll(e: Endian, t: Type, es: seq<Value>, shape: seq<nat>): (bs: seq<byte>)
    requires (forall x | x in es :: HasType(x, t)) && Numeric(KindOf(t))
    ensures |bs| == Span(|VisitAll(es, shape).elems|, ElemSize(KindOf(t)))
  {
    VisitAllKinds(es, t, shape);
    BytesOf(e, KindOf(t), VisitAll(es, shape).elems)
  }

  lemma WrittenStep(e: Endian, t: Type, es: seq<Value>, shape: seq<nat>, i: nat)
    requires (forall x | x in es :: HasType(x, t)) && Numeric(KindOf(t))
    requires i < |es| && VisitAll(es[..i], shape).ok
    ensures VisitAll(es[..i + 1], shape).ok == Visit(es[i], shape).ok
    ensures WrittenAll(e, t, es[..i + 1], shape) == WrittenAll(e, t, es[..i], shape) + Written(e, t, es[i], shape)
    ensures |WrittenAll(e, t, es[..i + 1], shape)| <= |WrittenAll(e, t, es, shape)|
    ensures !Visit(es[i], shape).ok ==>
              !VisitAll(es, shape).ok && WrittenAll(e, t, es[..i + 1], shape) == WrittenAll(e, t, es, shape)
  {
    VisitAllStep(es, shape, i);
    VisitAllPrefix(es, shape, i + 1);
    VisitKinds(es[i], t, shape);
    VisitAllKinds(es[..i], t, shape);
    BytesAppend(e, KindOf(t), VisitAll(es[..i], shape).elems, Visit(es[i], shape).elems);
    SpanMonotone(|VisitAll(es[..i + 1], shape).elems|, |VisitAll(es, shape).elems|, ElemSize(KindOf(t)));
  }

  /** The first i elements have been written after `before`. */
  ghost predicate Progress(e: Endian, t: Type, es: seq<Value>, shape: seq<nat>, i: nat,
                           before: seq<byte>, contents: seq<byte>)
    requires (forall x | x in es :: HasType(x, t)) && Numeric(KindOf(t)) && i <= |es|
  {
    VisitAll(es[..i], shape).ok && contents == before + WrittenAll(e, t, es[..i], shape)
  }

  lemma ProgressStep(e: Endian, t: Type, es: seq<Value>, shape: seq<nat>, i: nat, before: seq<byte>, contents: seq<byte>)
    requires (forall x | x in es :: HasType(x, t)) && Numeric(KindOf(t)) && i < |es|
    requires Progress(e, t, es, shape, i, before, contents)
    ensures HasType(es[i], t)
    ensures var next := contents + Written(e, t, es[i], shape);
            && |next| <= |before| + |WrittenAll(e, t, es, shape)|
            && (if Visit(es[i], shape).ok then Progress(e, t, es, shape, i + 1, before, next)
                else !VisitAll(es, shape).ok && next == before + WrittenAll(e, t, es, shape))
  {
    WrittenStep(e, t, es, shape, i);
    Regroup(before, WrittenAll(e, t, es[..i], shape), Written(e, t, es[i], shape));
  }

  lemma WrittenLeaf(e: Endian, t: Type, v: Value, shape: seq<nat>)
    requires HasType(v, t) && Numeric(KindOf(t)) && v.Leaf?
    ensures Written(e, t, v, shape) == ElemBytes(e, t.kind, v.e)
  {
    VisitKinds(v, t, shape);
    var blocks := Blocks(e, t.kind, [v.e]);
    assert blocks[..0] == [];
    assert Concat(blocks) == Concat(blocks[..0]) + blocks[0];
  }

  /**
   encodeTensor. It appends exactly the bytes of the elements visited before the first mismatch, so
   it stays within the memory whenever those fit.
   */
  method EncodeTensor(w: ByteBuffer, e: Endian, t: Type, v: Value, shape: seq<nat>) returns (ok: bool)
    requires w.Valid() && HasType(v, t) && Suits(t, shape) && Numeric(KindOf(t))
    requires w.len + |Written(e, t, v, shape)| <= w.raw.Length
    modifies w, w.raw
    ensures w.Valid() && ok == Visit(v, shape).ok
    ensures w.Contents() == old(w.Contents()) + Written(e, t, v, shape)
    decreases v, 1
  {
    if v.Leaf? {
      WrittenLeaf(e, t, v, shape);
      w.Write(ElemBytes(e, t.kind, v.e));
      return true;
    }
    if v.Slice? && |v.elems| != shape[0] {
      assert w.Contents() == w.Contents() + [];
      return false;
    }
    ok := EncodeElems(w, e, t.elem, v.elems, shape[1..]);
  }

  /** The loop over the elements of a slice or array. */
  method EncodeElems(w: ByteBuffer, e: Endian, t: Type, es: seq<Value>, shape: seq<nat>) returns (ok: bool)
    requires w.Valid() && (forall x | x in es :: HasType(x, t)) && (es != [] ==> Suits(t, shape)) && Numeric(KindOf(t))
    requires w.len + |WrittenAll(e, t, es, shape)| <= w.raw.Length
    modifies w, w.raw
    ensures w.Valid() && ok == VisitAll(es, shape).ok
    ensures w.Contents() == old(w.Contents()) + WrittenAll(e, t, es, shape)
    decreases es, 0
  {
    ghost var before := w.Contents();
    for i := 0 to |es|
      invariant w.Valid()
      invariant Progress(e, t, es, shape, i, before, w.Contents())
    {
      ProgressStep(e, t, es, shape, i, before, w.Contents());
      ok := EncodeTensor(w, e, t, es[i], shape);
      if !ok {
        return false;
      }
    }
    assert es[..|es|] == es;
    return true;
  }

  /** The bytes NewTensor allocates are enough for whatever the encoder writes, and exactly filled by a full walk. */
  lemma AllocationSuffices(e: Endian, t: Type, v: Value)
    requires HasType(v, t) && Numeric(KindOf(t))
    ensures var shape, size := ShapeOf(v, t), ElemSize(KindOf(t));
            && Suits(t, shape)
            && |Written(e, t, v, shape)| <= size * Product(shape)
            && (Visit(v, shape).ok ==> |Written(e, t, v, shape)| == size * Product(shape))
  {
    var shape := ShapeOf(v, t);
    ShapeSuits(v, t);
    VisitBounded(v, t, shape);
    SpanBound(|Visit(v, shape).elems|, Product(shape), ElemSize(KindOf(t)));
  }

  lemma SpanBound(m: nat, n: nat, w: nat)
    requires m <= n
    ensures Span(m, w) <= w * n
    ensures m == n ==> Span(m, w) == w * n
  {
    SpanMonotone(m, n, w);
    SpanIsProduct(n, w);
  }

  /** What NewTensor hands to the C library. */
  datatype Tensor = Tensor(kind: Kind, shape: seq<nat>, raw: seq<byte>)

  /**
   NewTensor for numeric values: it succeeds exactly on values that are rectangular in the inferred
   shape, never writes outside its allocation, and fills it exactly.
   */
  method NewTensor(e: Endian, v: Value, t: Type) returns (r: Option<Tensor>)
    requires HasType(v, t) && Numeric(KindOf(t))
    ensures r.Some? <==> Rectangular(v, ShapeOf(v, t))
    ensures r.Some? ==> r.value == Tensor(KindOf(t), ShapeOf(v, t), Written(e, t, v, ShapeOf(v, t)))
    ensures r.Some? ==> |r.value.raw| == ElemSize(KindOf(t)) * Product(ShapeOf(v, t))
  {
    var shape, kind, supported := ShapeAndKind(v, t);
    if !supported {
      return None;
    }
    var flattened := NumElements(shape);
    var nbytes := ElemSize(kind) * flattened;
    AllocationSuffices(e, t, v);
    VisitOkIff(v, t, shape);
    var raw := new byte[nbytes];
    var buf := new ByteBuffer(raw);
    var encoded := EncodeTensor(buf, e, t, v, shape);
    if !encoded {
      return None;
    }
    if buf.len != nbytes {
      return None;
    }
    assert raw[..] == buf.Contents();
    return Some(Tensor(kind, shape, raw[..]));
  }

  // ---- The decoder ---------------------------------------------------------------------------------------

  /** decodeTensor, reading element k at position pos. */
  method DecodeTensor(e: Endian, kind: Kind, raw: seq<byte>, pos: nat, shape: seq<nat>, ghost k: nat)
    returns (r: Option<(Value, nat)>, ghost next: nat)
    requires Numeric(kind) && pos == Span(k, ElemSize(kind))
    ensures r.None? <==> Build(ElemsOf(e, kind, raw), k, shape) == None
    ensures r.Some? ==> Build(ElemsOf(e, kind, raw), k, shape) == Some((r.value.0, next))
    ensures r.Some? ==> r.value.1 == Span(next, ElemSize(kind))
    decreases |shape|
  {
    next := k;
    if |shape| == 0 {
      var size := ElemSize(kind);
      if pos + size > |raw| {
        return None, next;
      }
      next := k + 1;
      return Some((Leaf(ReadElem(e, kind, raw[pos..pos + size])), pos + size)), next;
    }
    var vals: seq<Value> := [];
    var at := pos;
    ghost var elems := ElemsOf(e, kind, raw);
    for i := 0 to shape[0]
      invariant BuildMany(elems, k, i, shape[1..]) == Some((vals, next))
      invariant at == Span(next, ElemSize(kind))
    {
      var elem;
      elem, next := DecodeTensor(e, kind, raw, at, shape[1..], next);
      if elem.None? {
        BuildManyStops(elems, k, i, shape[0], shape[1..]);
        return None, next;
      }
      vals := vals + [elem.value.0];
      at := elem.value.1;
    }
    return Some((Slice(vals), at)), next;
  }

  /** Tensor.Value for numeric tensors. */
  method ValueOf(e: Endian, tensor: Tensor) returns (r: Option<Value>)
    requires Numeric(tensor.kind)
    ensures r.None? <==> Build(ElemsOf(e, tensor.kind, tensor.raw), 0, tensor.shape) == None
    ensures r.Some? ==> r.value == Build(ElemsOf(e, tensor.kind, tensor.raw), 0, tensor.shape).value.0
  {
    var decoded;
    ghost var next;
    decoded, next := DecodeTensor(e, tensor.kind, tensor.raw, 0, tensor.shape, 0);
    return if decoded.None? then None else Some(decoded.value.0);
  }

  /** Decoding what a rectangular value was encoded to rebuilds the value, arrays as slices. */
  lemma DecodedIsOriginal(e: Endian, t: Type, v: Value, shape: seq<nat>)
    requires HasType(v, t) && Numeric(KindOf(t)) && Suits(t, shape) && Rectangular(v, shape)
    ensures Build(ElemsOf(e, KindOf(t), Written(e, t, v, shape)), 0, shape)
            == Some((AsSlices(v), |Visit(v, shape).elems|))
  {
    VisitOkIff(v, t, shape);
    VisitKinds(v, t, shape);
    BufferSupplies(e, KindOf(t), Visit(v, shape).elems);
    BuildRestores(ElemsOf(e, KindOf(t), Written(e, t, v, shape)), 0, v, shape);
  }

  /** NewTensor followed by Value. */
  method RoundTrip(e: Endian, v: Value, t: Type) returns (r: Option<Value>)
    requires HasType(v, t) && Numeric(KindOf(t))
    ensures r == if Rectangular(v, ShapeOf(v, t)) then Some(AsSlices(v)) else None
  {
    var tensor := NewTensor(e, v, t);
    if tensor.None? {
      return None;
    }
    ShapeSuits(v, t);
    DecodedIsOriginal(e, t, v, ShapeOf(v, t));
    r := ValueOf(e, tensor.value);
  }
}
