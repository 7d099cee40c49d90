/**
 Nested Go values, the shape that go/tensor.go infers for them, and the order in which its encoders
 visit their elements.
 */
module GoValue {
  import opened Basics
  import opened Bytes

  /** An element: a boolean, the bit patterns of a number's components, or a string. */
  datatype Elem =
    | BoolElem(b: bool)
    | NumElem(bits: seq<nat>)
    | TextElem(s: seq<byte>)

  /** Numbers have `parts` components of `width` bytes; complex numbers have two. */
  datatype Kind =
    | BoolKind
    | NumKind(parts: nat, width: nat)
    | StringKind
    | OtherKind

  datatype Type = Prim(kind: Kind) | SliceOf(elem: Type) | ArrayOf(n: nat, elem: Type)

  datatype Value = Leaf(e: Elem) | Slice(elems: seq<Value>) | Array(elems: seq<Value>)

  predicate ElemHasKind(e: Elem, k: Kind) {
    match k
    case BoolKind => e.BoolElem?
    case NumKind(parts, width) => e.NumElem? && |e.bits| == parts && forall i | 0 <= i < parts :: e.bits[i] < Pow256(width)
    case StringKind => e.TextElem?
    case OtherKind => false
  }

  predicate HasType(v: Value, t: Type) {
    match t
    case Prim(k) => v.Leaf? && ElemHasKind(v.e, k)
    case SliceOf(u) => v.Slice? && forall x | x in v.elems :: HasType(x, u)
    case ArrayOf(n, u) => v.Array? && |v.elems| == n && forall x | x in v.elems :: HasType(x, u)
  }

  function KindOf(t: Type): Kind {
    match t
    case Prim(k) => k
    case SliceOf(u) => KindOf(u)
    case ArrayOf(_, u) => KindOf(u)
  }

  // ---- Shape inference ----------------------------------------------------------------------------

  /**
   The lengths found by following first elements. Below an empty container there is no first element,
   so the walk stays on the empty container and reports zero for every deeper dimension.
   */
  function ShapeOf(v: Value, t: Type): seq<nat> {
    if t.Prim? || v.Leaf? then []
    else [|v.elems|] + ShapeOf(if |v.elems| > 0 then v.elems[0] else v, t.elem)
  }

  /** The value the walk goes on with. */
  function FirstOrSelf(v: Value): Value
    requires !v.Leaf?
  {
    if |v.elems| > 0 then v.elems[0] else v
  }

  /** What the walk relies on: a value of the type, or an empty container. */
  ghost predicate Walkable(v: Value, t: Type) {
    HasType(v, t) || (!v.Leaf? && v.elems == [])
  }

  lemma WalkOn(v: Value, t: Type)
    requires Walkable(v, t) && !t.Prim?
    ensures !v.Leaf? && Walkable(FirstOrSelf(v), t.elem)
    ensures ShapeOf(v, t) == [|v.elems|] + ShapeOf(FirstOrSelf(v), t.elem)
  {
    assert !v.Leaf? && v.elems != [] ==> v.elems[0] in v.elems;
  }

  /** shapeAndDataTypeOf; false when the element type is not supported. */
  method ShapeAndKind(v: Value, t: Type) returns (shape: seq<nat>, kind: Kind, ok: bool)
    requires HasType(v, t)
    ensures shape == ShapeOf(v, t) && kind == KindOf(t) && (ok <==> kind != OtherKind)
  {
    var val, typ := v, t;
    shape := [];
    while !typ.Prim?
      invariant Walkable(val, typ)
      invariant ShapeOf(v, t) == shape + ShapeOf(val, typ)
      invariant KindOf(typ) == KindOf(t)
      decreases typ
    {
      WalkOn(val, typ);
      MoveFirst(ShapeOf(v, t), shape, |val.elems|, ShapeOf(FirstOrSelf(val), typ.elem));
      shape := shape + [|val.elems|];
      if |val.elems| > 0 {
        val := val.elems[0];
      }
      typ := typ.elem;
    }
    kind := typ.kind;
    ok := kind != OtherKind;
  }

  function Depth(t: Type): nat {
    if t.Prim? then 0 else 1 + Depth(t.elem)
  }

  /** One dimension per level of the type, the first being the length of the outermost container. */
  lemma {:induction false} ShapeHasDepth(v: Value, t: Type)
    requires Walkable(v, t)
    ensures |ShapeOf(v, t)| == Depth(t)
  {
    if !t.Prim? {
      WalkOn(v, t);
      ShapeHasDepth(FirstOrSelf(v), t.elem);
    }
  }

  /** From an empty container on, every dimension is zero. */
  lemma {:induction false} EmptyShapeIsZero(v: Value, t: Type, i: nat)
    requires !v.Leaf? && v.elems == [] && i < Depth(t)
    ensures |ShapeOf(v, t)| == Depth(t) && ShapeOf(v, t)[i] == 0
  {
    ShapeHasDepth(v, t);
    if i > 0 {
      EmptyShapeIsZero(v, t.elem, i - 1);
    }
  }

  /** Dimension i is the length found after following i first elements. */
  lemma {:induction false} ShapeFollowsFirst(v: Value, t: Type, i: nat)
    requires Walkable(v, t) && 0 < i < Depth(t)
    ensures !v.Leaf? && |ShapeOf(v, t)| == Depth(t) && ShapeOf(v, t)[0] == |v.elems|
    ensures |ShapeOf(FirstOrSelf(v), t.elem)| == Depth(t) - 1
    ensures ShapeOf(v, t)[i] == ShapeOf(FirstOrSelf(v), t.elem)[i - 1]
  {
    WalkOn(v, t);
    ShapeHasDepth(v, t);
    ShapeHasDepth(FirstOrSelf(v), t.elem);
  }

  method NumElements(shape: seq<nat>) returns (n: nat)
    ensures n == Product(shape)
  {
    n := 1;
    for i := 0 to |shape|
      invariant n * Product(shape[i..]) == Product(shape)
    {
      assert shape[i..][1..] == shape[i + 1..];
      assert n * (shape[i] * Product(shape[i + 1..])) == n * shape[i] * Product(shape[i + 1..]);
      n := n * shape[i];
    }
  }

  // ---- Visiting the elements ------------------------------------------------------------------------

  /** The elements an encoder writes, in order, and whether it got to the end without an error. */
  datatype Walk = Walk(elems: seq<Elem>, ok: bool)

  /** A slice must have the length its shape says; an array is not checked. */
  function Visit(v: Value, shape: seq<nat>): Walk {
    match v
    case Leaf(e) => Walk([e], true)
    case Slice(es) => if shape == [] || |es| != shape[0] then Walk([], false) else VisitAll(es, shape[1..])
    case Array(es) => if shape == [] then Walk([], false) else VisitAll(es, shape[1..])
  }

  function VisitAll(es: seq<Value>, shape: seq<nat>): Walk {
    if es == [] then Walk([], true)
    else
      var n := |es| - 1;
      var before := VisitAll(es[..n], shape);
      if !before.ok then before
      else
        var last := Visit(es[n], shape);
        Walk(before.elems + last.elems, last.ok)
  }

  /** A walk over the first i values is a prefix of the whole walk; once it fails it is the whole walk. */
  lemma {:induction false} VisitAllPrefix(es: seq<Value>, shape: seq<nat>, i: nat)
    requires i <= |es|
    ensures VisitAll(es[..i], shape).elems <= VisitAll(es, shape).elems
    ensures !VisitAll(es[..i], shape).ok ==> VisitAll(es[..i], shape) == VisitAll(es, shape)
    decreases |es|
  {
    if i == |es| {
      assert es[..i] == es;
    } else {
      var n := |es| - 1;
      assert es[..n][..i] == es[..i];
      VisitAllPrefix(es[..n], shape, i);
    }
  }

  lemma VisitAllStep(es: seq<Value>, shape: seq<nat>, i: nat)
    requires i < |es| && VisitAll(es[..i], shape).ok
    ensures VisitAll(es[..i + 1], shape)
            == Walk(VisitAll(es[..i], shape).elems + Visit(es[i], shape).elems, Visit(es[i], shape).ok)
  {
    assert es[..i + 1][..i] == es[..i];
  }

  /** Every container at depth i has shape[i] elements. */
  predicate Rectangular(v: Value, shape: seq<nat>) {
    match v
    case Leaf(_) => shape == []
    case Slice(es) => shape != [] && |es| == shape[0] && forall x | x in es :: Rectangular(x, shape[1..])
    case Array(es) => shape != [] && |es| == shape[0] && forall x | x in es :: Rectangular(x, shape[1..])
  }

  /** The shape has a dimension per level of the type and agrees with array lengths down to the first zero. */
  predicate Suits(t: Type, shape: seq<nat>) {
    match t
    case Prim(_) => shape == []
    case SliceOf(u) => shape != [] && (shape[0] == 0 || Suits(u, shape[1..]))
    case ArrayOf(n, u) => shape != [] && shape[0] == n && (n == 0 || Suits(u, shape[1..]))
  }

  lemma {:induction false} ShapeSuits(v: Value, t: Type)
    requires HasType(v, t)
    ensures Suits(t, ShapeOf(v, t))
  {
    if !t.Prim? && |v.elems| > 0 {
      assert v.elems[0] in v.elems;
      ShapeSuits(v.elems[0], t.elem);
    }
  }

  /** Encoding succeeds exactly on rectangular values. */
  lemma {:induction false} VisitOkIff(v: Value, t: Type, shape: seq<nat>)
    requires HasType(v, t) && Suits(t, shape)
    ensures Visit(v, shape).ok <==> Rectangular(v, shape)
    decreases v, 1
  {
    if !v.Leaf? && |v.elems| == shape[0] && shape[0] > 0 {
      VisitAllOkIff(v.elems, t.elem, shape[1..]);
    }
  }

  lemma {:induction false} VisitAllOkIff(es: seq<Value>, t: Type, shape: seq<nat>)
    requires (forall x | x in es :: HasType(x, t)) && Suits(t, shape)
    ensures VisitAll(es, shape).ok <==> forall x | x in es :: Rectangular(x, shape)
    decreases es, 0
  {
    if es != [] {
      var n := |es| - 1;
      assert es == es[..n] + [es[n]];
      VisitOkIff(es[n], t, shape);
      VisitAllOkIff(es[..n], t, shape);
    }
  }

  lemma Distribute(n: nat, p: int)
    ensures (n + 1) * p == n * p + p
  {
  }

  /** No more elements are visited than the shape has, even when a mismatch stops the walk midway. */
  lemma {:induction false} VisitBounded(v: Value, t: Type, shape: seq<nat>)
    requires HasType(v, t) && Suits(t, shape)
    ensures |Visit(v, shape).elems| <= Product(shape)
    ensures Visit(v, shape).ok ==> |Visit(v, shape).elems| == Product(shape)
    decreases v, 1
  {
    ProductNonNegative(shape);
    if !v.Leaf? && |v.elems| == shape[0] && shape[0] > 0 {
      VisitAllBounded(v.elems, t.elem, shape[1..]);
    }
  }

  lemma {:induction false} VisitAllBounded(es: seq<Value>, t: Type, shape: seq<nat>)
    requires (forall x | x in es :: HasType(x, t)) && Suits(t, shape)
    ensures |VisitAll(es, shape).elems| <= |es| * Product(shape)
    ensures VisitAll(es, shape).ok ==> |VisitAll(es, shape).elems| == |es| * Product(shape)
    decreases es, 0
  {
    if es != [] {
      var n := |es| - 1;
      assert es == es[..n] + [es[n]];
      VisitBounded(es[n], t, shape);
      VisitAllBounded(es[..n], t, shape);
      ProductNonNegative(shape);
      Distribute(n, Product(shape));
    }
  }

  lemma {:induction false} VisitKinds(v: Value, t: Type, shape: seq<nat>)
    requires HasType(v, t)
    ensures forall e | e in Visit(v, shape).elems :: ElemHasKind(e, KindOf(t))
    decreases v, 1
  {
    if !v.Leaf? && shape != [] {
      VisitAllKinds(v.elems, t.elem, shape[1..]);
    }
  }

  lemma {:induction false} VisitAllKinds(es: seq<Value>, t: Type, shape: seq<nat>)
    requires forall x | x in es :: HasType(x, t)
    ensures forall e | e in VisitAll(es, shape).elems :: ElemHasKind(e, KindOf(t))
    decreases es, 0
  {
    if es != [] {
      var n := |es| - 1;
      assert es == es[..n] + [es[n]];
      VisitKinds(es[n], t, shape);
      VisitAllKinds(es[..n], t, shape);
    }
  }

  // ---- Row-major order ------------------------------------------------------------------------------

  /** A path of indices that stays inside the shape. */
  ghost predicate InShape(path: seq<nat>, shape: seq<nat>) {
    |path| == |shape| && forall i | 0 <= i < |path| :: path[i] < shape[i]
  }

  /** Where row-major order has the element at a path. */
  function RowMajor(path: seq<nat>, shape: seq<nat>): int
    requires |path| == |shape|
  {
    if path == [] then 0 else path[0] * Product(shape[1..]) + RowMajor(path[1..], shape[1..])
  }

  /** The element at a path of indices. */
  function At(v: Value, path: seq<nat>): Option<Elem> {
    match v
    case Leaf(e) => if path == [] then Some(e) else None
    case Slice(es) => if path != [] && path[0] < |es| then At(es[path[0]], path[1..]) else None
    case Array(es) => if path != [] && path[0] < |es| then At(es[path[0]], path[1..]) else None
  }

  /** Element j of value k among n values of p elements each. */
  lemma {:induction false} VisitAllAt(es: seq<Value>, t: Type, shape: seq<nat>, k: nat, j: nat)
    requires (forall x | x in es :: HasType(x, t)) && Suits(t, shape) && VisitAll(es, shape).ok
    requires k < |es| && j < Product(shape)
    ensures es[k] in es && Visit(es[k], shape).ok && |Visit(es[k], shape).elems| == Product(shape)
    ensures 0 <= k * Product(shape) + j < |VisitAll(es, shape).elems|
    ensures VisitAll(es, shape).elems[k * Product(shape) + j] == Visit(es[k], shape).elems[j]
  {
    var n := |es| - 1;
    var front := es[..n];
    assert forall x | x in front :: x in es;
    assert es[n] in es && es[k] in es;
    VisitAllBounded(front, t, shape);
    VisitBounded(es[n], t, shape);
    if k < n {
      VisitAllAt(front, t, shape, k, j);
    }
  }

  lemma EnterContainer(v: Value, t: Type, shape: seq<nat>, path: seq<nat>)
    requires HasType(v, t) && Suits(t, shape) && Visit(v, shape).ok && InShape(path, shape) && !v.Leaf?
    ensures !t.Prim? && shape != [] && path[0] < |v.elems| && v.elems[path[0]] in v.elems
    ensures (forall x | x in v.elems :: HasType(x, t.elem)) && Suits(t.elem, shape[1..]) && InShape(path[1..], shape[1..])
    ensures Visit(v, shape) == VisitAll(v.elems, shape[1..]) && Visit(v.elems[path[0]], shape[1..]).ok
  {
    assert path[0] < shape[0];
    VisitAllOkIff(v.elems, t.elem, shape[1..]);
    VisitOkIff(v.elems[path[0]], t.elem, shape[1..]);
  }

  /** The encoders write elements in row-major order. */
  lemma {:induction false} VisitIsRowMajor(v: Value, t: Type, shape: seq<nat>, path: seq<nat>)
    requires HasType(v, t) && Suits(t, shape) && Visit(v, shape).ok && InShape(path, shape)
    ensures 0 <= RowMajor(path, shape) < |Visit(v, shape).elems| == Product(shape)
    ensures At(v, path) == Some(Visit(v, shape).elems[RowMajor(path, shape)])
    decreases |shape|
  {
    VisitBounded(v, t, shape);
    if !v.Leaf? {
      EnterContainer(v, t, shape, path);
      var rest := shape[1..];
      VisitIsRowMajor(v.elems[path[0]], t.elem, rest, path[1..]);
      VisitAllAt(v.elems, t.elem, rest, path[0], RowMajor(path[1..], rest));
    }
  }

  // ---- Rebuilding a value -----------------------------------------------------------------------------

  /** The same nesting with every array turned into a slice: what decoding produces. */
  function AsSlices(v: Value): Value {
    match v
    case Leaf(_) => v
    case Slice(es) => Slice(AllAsSlices(es))
    case Array(es) => Slice(AllAsSlices(es))
  }

  function AllAsSlices(es: seq<Value>): (r: seq<Value>)
    ensures |r| == |es|
  {
    if es == [] then [] else AllAsSlices(es[..|es| - 1]) + [AsSlices(es[|es| - 1])]
  }

  /** Builds slices of the given shape from a source of elements, starting at element k. */
  function Build(elems: nat -> Option<Elem>, k: nat, shape: seq<nat>): Option<(Value, nat)>
    decreases 2 * |shape|, 0
  {
    if shape == [] then
      match elems(k)
      case None => None
      case Some(e) => Some((Leaf(e), k + 1))
    else
      match BuildMany(elems, k, shape[0], shape[1..])
      case None => None
      case Some((vs, next)) => Some((Slice(vs), next))
  }

  function BuildMany(elems: nat -> Option<Elem>, k: nat, n: nat, shape: seq<nat>): Option<(seq<Value>, nat)>
    decreases 2 * |shape| + 1, n
  {
    if n == 0 then Some(([], k))
    else
      match BuildMany(elems, k, n - 1, shape)
      case None => None
      case Some((vs, mid)) =>
        match Build(elems, mid, shape)
        case None => None
        case Some((v, next)) => Some((vs + [v], next))
  }

  lemma {:induction false} BuildManyStops(elems: nat -> Option<Elem>, k: nat, i: nat, n: nat, shape: seq<nat>)
    requires i < n && BuildMany(elems, k, i + 1, shape) == None
    ensures BuildMany(elems, k, n, shape) == None
  {
    if i + 1 < n {
      BuildManyStops(elems, k, i, n - 1, shape);
    }
  }

  /** `elems` supplies these elements from position k on. */
  ghost predicate Supplies(elems: nat -> Option<Elem>, k: nat, es: seq<Elem>) {
    forall i | 0 <= i < |es| :: elems(k + i) == Some(es[i])
  }

  lemma SuppliesParts(elems: nat -> Option<Elem>, k: nat, a: seq<Elem>, b: seq<Elem>)
    requires Supplies(elems, k, a + b)
    ensures Supplies(elems, k, a) && Supplies(elems, k + |a|, b)
  {
    assert forall i | 0 <= i < |a| :: (a + b)[i] == a[i];
    forall i | 0 <= i < |b| ensures elems(k + |a| + i) == Some(b[i]) {
      assert (a + b)[|a| + i] == b[i];
    }
  }

  /** Rebuilding from a rectangular value's own elements gives the value back, arrays as slices. */
  lemma {:induction false} BuildRestores(elems: nat -> Option<Elem>, k: nat, v: Value, shape: seq<nat>)
    requires Rectangular(v, shape) && Visit(v, shape).ok && Supplies(elems, k, Visit(v, shape).elems)
    ensures Build(elems, k, shape) == Some((AsSlices(v), k + |Visit(v, shape).elems|))
    decreases v, 1
  {
    if v.Leaf? {
      assert Visit(v, shape).elems[0] == v.e && elems(k + 0) == Some(v.e);
    } else {
      BuildManyRestores(elems, k, v.elems, shape[1..]);
    }
  }

  lemma {:induction false} BuildManyRestores(elems: nat -> Option<Elem>, k: nat, es: seq<Value>, shape: seq<nat>)
    requires (forall x | x in es :: Rectangular(x, shape))
    requires VisitAll(es, shape).ok && Supplies(elems, k, VisitAll(es, shape).elems)
    ensures BuildMany(elems, k, |es|, shape) == Some((AllAsSlices(es), k + |VisitAll(es, shape).elems|))
    decreases es, 0
  {
    if es != [] {
      var n := |es| - 1;
      assert es[n] in es && forall x | x in es[..n] :: x in es;
      var before, last := VisitAll(es[..n], shape).elems, Visit(es[n], shape).elems;
      assert VisitAll(es, shape).elems == before + last;
      SuppliesParts(elems, k, before, last);
      BuildManyRestores(elems, k, es[..n], shape);
      BuildRestores(elems, k + |before|, es[n], shape);
    }
  }
}
