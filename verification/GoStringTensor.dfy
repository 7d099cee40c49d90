/**
 String tensors in go/tensor.go: an encoder of nested values that must produce what the C++ encoder
 produces for their row-major flattening, and the decoder that restores the nesting.
 */
module GoStringTensor {
  import opened Basics
  import opened Bytes
  import opened GoValue
  import StringTensor

  type Text = StringTensor.Text

  ghost predicate AllTexts(es: seq<Elem>) {
    forall i | 0 <= i < |es| :: es[i].TextElem?
  }

  function TextsOf(es: seq<Elem>): (ss: seq<Text>)
    requires forall i | 0 <= i < |es| :: es[i].TextElem?
    ensures |ss| == |es|
  {
    seq(|es|, i requires 0 <= i < |es| => es[i].s)
  }

  // ---- Sizes -------------------------------------------------------------------------------------------

  /** All elements of a value in row-major order, whatever the lengths. */
  function Flatten(v: Value): seq<Elem> {
    match v
    case Leaf(e) => [e]
    case Slice(es) => FlattenAll(es)
    case Array(es) => FlattenAll(es)
  }

  function FlattenAll(es: seq<Value>): seq<Elem> {
    if es == [] then [] else FlattenAll(es[..|es| - 1]) + Flatten(es[|es| - 1])
  }

  lemma {:induction false} FlattenAllPrefix(es: seq<Value>, i: nat)
    requires i <= |es|
    ensures FlattenAll(es[..i]) <= FlattenAll(es)
  {
    if i == |es| {
      assert es[..i] == es;
    } else {
      var n := |es| - 1;
      assert es[..n][..i] == es[..i];
      FlattenAllPrefix(es[..n], i);
    }
  }

  /** The encoder visits a prefix of the elements, and all of them unless it fails. */
  lemma {:induction false} VisitIsPrefix(v: Value, shape: seq<nat>)
    ensures Visit(v, shape).elems <= Flatten(v)
    ensures Visit(v, shape).ok ==> Visit(v, shape).elems == Flatten(v)
    decreases v, 1
  {
    if !v.Leaf? && shape != [] {
      VisitAllIsPrefix(v.elems, shape[1..]);
    }
  }

  lemma {:induction false} VisitAllIsPrefix(es: seq<Value>, shape: seq<nat>)
    ensures VisitAll(es, shape).elems <= FlattenAll(es)
    ensures VisitAll(es, shape).ok ==> VisitAll(es, shape).elems == FlattenAll(es)
    decreases es, 0
  {
    if es != [] {
      var n := |es| - 1;
      VisitAllIsPrefix(es[..n], shape);
      VisitIsPrefix(es[n], shape);
    }
  }

  lemma {:induction false} FlattenTexts(v: Value, t: Type)
    requires HasType(v, t) && KindOf(t).StringKind?
    ensures AllTexts(Flatten(v))
    decreases v, 1
  {
    if !v.Leaf? {
      FlattenAllTexts(v.elems, t.elem);
    }
  }

  lemma {:induction false} FlattenAllTexts(es: seq<Value>, t: Type)
    requires (forall x | x in es :: HasType(x, t)) && KindOf(t).StringKind?
    ensures AllTexts(FlattenAll(es))
    decreases es, 0
  {
    if es != [] {
      var n := |es| - 1;
      assert es == es[..n] + [es[n]];
      FlattenAllTexts(es[..n], t);
      FlattenTexts(es[n], t);
    }
  }

  /** Bytes of encoded string data. */
  function DataSize(es: seq<Elem>): nat
    requires forall i | 0 <= i < |es| :: es[i].TextElem?
  {
    |StringTensor.Data(TextsOf(es))|
  }

  lemma {:induction false} DataAppend(a: seq<Text>, b: seq<Text>)
    ensures StringTensor.Data(a + b) == StringTensor.Data(a) + StringTensor.Data(b)
  {
    if b == [] {
      assert a + b == a;
    } else {
      var n := |b| - 1;
      assert (a + b)[..|a| + n] == a + b[..n];
      DataAppend(a, b[..n]);
      Regroup(StringTensor.Data(a), StringTensor.Data(b[..n]), StringTensor.Encoded(b[n]));
    }
  }

  lemma TextsAppend(a: seq<Elem>, b: seq<Elem>)
    requires AllTexts(a) && AllTexts(b)
    ensures AllTexts(a + b) && TextsOf(a + b) == TextsOf(a) + TextsOf(b)
    ensures DataSize(a + b) == DataSize(a) + DataSize(b)
  {
    assert TextsOf(a + b) == TextsOf(a) + TextsOf(b);
    DataAppend(TextsOf(a), TextsOf(b));
  }

  lemma PrefixSmaller(a: seq<Elem>, b: seq<Elem>)
    requires AllTexts(b) && a <= b
    ensures AllTexts(a) && DataSize(a) <= DataSize(b)
  {
    var rest := b[|a|..];
    assert a + rest == b;
    TextsAppend(a, rest);
  }

  /** The whole tensor fits in memory. */
  ghost predicate Fits(es: seq<Elem>) {
    AllTexts(es) && DataSize(es) < TWO_TO_THE_63
  }

  /** byteSizeOfEncodedStrings. */
  method ByteSizeOfEncodedStrings(v: Value, t: Type) returns (size: nat)
    requires HasType(v, t) && KindOf(t).StringKind? && Fits(Flatten(v))
    ensures size == DataSize(Flatten(v))
    decreases v
  {
    if v.Leaf? {
      SingleSize(v.e);
      size := StringTensor.StringEncodedSize(|v.e.s|);
      return;
    }
    size := 0;
    for i := 0 to |v.elems|
      invariant AllTexts(FlattenAll(v.elems[..i])) && size == DataSize(FlattenAll(v.elems[..i]))
    {
      FlattenStep(v.elems, t.elem, i);
      var one := ByteSizeOfEncodedStrings(v.elems[i], t.elem);
      size := size + one;
    }
    assert v.elems[..|v.elems|] == v.elems;
  }

  lemma SingleSize(e: Elem)
    requires e.TextElem?
    ensures DataSize([e]) == |StringTensor.Encoded(e.s)|
  {
    assert TextsOf([e]) == [e.s];
    assert [e.s][..0] == [];
    assert StringTensor.Data([e.s]) == StringTensor.Data([e.s][..0]) + StringTensor.Encoded(e.s);
  }

  lemma FlattenStep(es: seq<Value>, t: Type, i: nat)
    requires (forall x | x in es :: HasType(x, t)) && KindOf(t).StringKind? && i < |es|
    requires Fits(FlattenAll(es))
    ensures HasType(es[i], t) && AllTexts(FlattenAll(es[..i])) && AllTexts(FlattenAll(es[..i + 1]))
    ensures Fits(Flatten(es[i]))
    ensures DataSize(FlattenAll(es[..i + 1])) == DataSize(FlattenAll(es[..i])) + DataSize(Flatten(es[i]))
  {
    assert es[..i + 1][..i] == es[..i];
    FlattenTexts(es[i], t);
    FlattenAllTexts(es[..i], t);
    TextsAppend(FlattenAll(es[..i]), Flatten(es[i]));
    FlattenAllPrefix(es, i + 1);
    PrefixSmaller(FlattenAll(es[..i + 1]), FlattenAll(es));
  }

  // ---- The encoder ---------------------------------------------------------------------------------------

  lemma TableStep(e: Endian, done: seq<Text>, s: Text)
    ensures StringTensor.Table(e, done + [s])
            == StringTensor.Table(e, done) + FixedWidth(e, |StringTensor.Data(done)|, 8)
    ensures StringTensor.Data(done + [s]) == StringTensor.Data(done) + StringTensor.Encoded(s)
  {
    assert (done + [s])[..|done|] == done;
  }

  /** Writes an offset into the table and a string into the data, after what is already there. */
  method WriteText(e: Endian, raw: array<byte>, dataStart: nat, offsetsLen: nat, offset: nat, s: Text,
                   ghost table: seq<byte>, ghost data: seq<byte>)
    returns (r: StringTensor.Result<nat>)
    requires |table| == offsetsLen && |data| == offset && StringTensor.Holds(raw[..], table, data, dataStart)
    requires offsetsLen + 8 <= dataStart && raw.Length < TWO_TO_THE_63
    requires dataStart + offset + |StringTensor.Encoded(s)| <= raw.Length
    modifies raw
    ensures r == StringTensor.Ok(|StringTensor.Encoded(s)|)
    ensures StringTensor.Holds(raw[..], table + FixedWidth(e, offset, 8), data + StringTensor.Encoded(s), dataStart)
  {
    ghost var before := raw[..];
    WriteBytes(raw, offsetsLen, FixedWidth(e, offset, 8));
    ghost var middle := raw[..];
    var dst := dataStart + offset;
    r := StringTensor.StringEncode(s, raw, dst, raw.Length - dst);
    StringTensor.HoldsMore(before, middle, raw[..], table, FixedWidth(e, offset, 8), data, StringTensor.Encoded(s), dataStart);
  }

  /** stringEncoder: offsets grow from the start of `raw`, string data from `dataStart`. */
  class StringEncoder {
    const e: Endian
    const raw: array<byte>
    const dataStart: nat
    var offsetsLen: nat
    var offset: nat
    ghost var done: seq<Text>  // the strings encoded so far

    ghost predicate Valid()
      reads this, raw
    {
      && offsetsLen == 8 * |done| && offset == |StringTensor.Data(done)|
      && StringTensor.Holds(raw[..], StringTensor.Table(e, done), StringTensor.Data(done), dataStart)
    }

    /** There is room for these strings after the ones already encoded. */
    ghost predicate RoomFor(es: seq<Elem>)
      reads this
    {
      && AllTexts(es)
      && offsetsLen + 8 * |es| <= dataStart && dataStart + offset + DataSize(es) <= raw.Length < TWO_TO_THE_63
    }

    constructor (e: Endian, raw: array<byte>, dataStart: nat)
      requires dataStart <= raw.Length
      ensures Valid() && done == [] && this.e == e && this.raw == raw && this.dataStart == dataStart
    {
      this.e, this.raw, this.dataStart, this.offsetsLen, this.offset, this.done := e, raw, dataStart, 0, 0, [];
    }

    /** One string: its offset, then its encoding. */
    method EncodeText(s: Text) returns (ok: bool)
      requires Valid() && RoomFor([TextElem(s)])
      modifies this, raw
      ensures Valid() && ok && done == old(done) + [s]
    {
      SingleSize(TextElem(s));
      TableStep(e, done, s);
      var consumed := WriteText(e, raw, dataStart, offsetsLen, offset, s, StringTensor.Table(e, done), StringTensor.Data(done));
      done := done + [s];
      offsetsLen := offsetsLen + 8;
      ok := consumed.Ok?;
      offset := offset + if ok then consumed.value else 0;
    }

    /** stringEncoder.encode: everything up to the first mismatch. */
    method Encode(t: Type, v: Value, shape: seq<nat>) returns (ok: bool)
      requires Valid() && HasType(v, t) && Suits(t, shape) && KindOf(t).StringKind?
      requires RoomFor(Visit(v, shape).elems)
      modifies this, raw
      ensures Valid() && ok == Visit(v, shape).ok
      ensures AllTexts(Visit(v, shape).elems) && done == old(done) + TextsOf(Visit(v, shape).elems)
      decreases v, 1
    {
      if v.Leaf? {
        ok := EncodeText(v.e.s);
        assert TextsOf([v.e]) == [v.e.s];
        return;
      }
      if v.Slice? && |v.elems| != shape[0] {
        assert done == done + [];
        return false;
      }
      ok := EncodeElems(t.elem, v.elems, shape[1..]);
    }

    /** The strings of the first i elements have been encoded after `before`. */
    ghost predicate Progress(es: seq<Value>, shape: seq<nat>, i: nat, before: seq<Text>)
      requires i <= |es|
      reads this
    {
      var w := VisitAll(es[..i], shape);
      w.ok && AllTexts(w.elems) && done == before + TextsOf(w.elems)
    }

    method EncodeElems(t: Type, es: seq<Value>, shape: seq<nat>) returns (ok: bool)
      requires Valid() && (forall x | x in es :: HasType(x, t)) && (es != [] ==> Suits(t, shape)) && KindOf(t).StringKind?
      requires RoomFor(VisitAll(es, shape).elems)
      modifies this, raw
      ensures Valid() && ok == VisitAll(es, shape).ok
      ensures AllTexts(VisitAll(es, shape).elems) && done == old(done) + TextsOf(VisitAll(es, shape).elems)
      decreases es, 0
    {
      ghost var before := done;
      assert done == before + TextsOf([]);
      for i := 0 to |es|
        invariant Valid() && Progress(es, shape, i, before)
      {
        BeforeElem(t, es, shape, i, before);
        ok := Encode(t, es[i], shape);
        if !ok {
          return false;
        }
      }
      assert es[..|es|] == es;
      return true;
    }

    lemma BeforeElem(t: Type, es: seq<Value>, shape: seq<nat>, i: nat, before: seq<Text>)
      requires Valid() && (forall x | x in es :: HasType(x, t)) && KindOf(t).StringKind?
      requires i < |es| && Progress(es, shape, i, before) && AllTexts(VisitAll(es, shape).elems)
      requires 8 * |before| + 8 * |VisitAll(es, shape).elems| <= dataStart
      requires dataStart + |StringTensor.Data(before)| + DataSize(VisitAll(es, shape).elems) <= raw.Length < TWO_TO_THE_63
      ensures HasType(es[i], t) && RoomFor(Visit(es[i], shape).elems)
      ensures VisitAll(es[..i + 1], shape).ok == Visit(es[i], shape).ok
      ensures !Visit(es[i], shape).ok ==> VisitAll(es[..i + 1], shape) == VisitAll(es, shape)
      ensures AllTexts(VisitAll(es[..i + 1], shape).elems)
      ensures done + TextsOf(Visit(es[i], shape).elems) == before + TextsOf(VisitAll(es[..i + 1], shape).elems)
    {
      var soFar, next := VisitAll(es[..i], shape).elems, Visit(es[i], shape).elems;
      VisitStep(es, t, shape, i);
      RoomLeft(before, soFar, next, VisitAll(es, shape).elems);
    }

    /** Having used the room of a prefix, there is room for what comes next. */
    lemma RoomLeft(before: seq<Text>, soFar: seq<Elem>, next: seq<Elem>, all: seq<Elem>)
      requires Valid() && AllTexts(all) && soFar + next <= all
      requires AllTexts(soFar) && AllTexts(next) && done == before + TextsOf(soFar)
      requires 8 * |before| + 8 * |all| <= dataStart
      requires dataStart + |StringTensor.Data(before)| + DataSize(all) <= raw.Length < TWO_TO_THE_63
      ensures RoomFor(next)
      ensures TextsOf(soFar + next) == TextsOf(soFar) + TextsOf(next)
      ensures before + TextsOf(soFar) + TextsOf(next) == before + TextsOf(soFar + next)
    {
      TextsAppend(soFar, next);
      SizeLeft(before, soFar, next, all);
      Regroup(before, TextsOf(soFar), TextsOf(next));
    }
  }

  lemma SizeLeft(before: seq<Text>, soFar: seq<Elem>, next: seq<Elem>, all: seq<Elem>)
    requires AllTexts(all) && soFar + next <= all && AllTexts(soFar) && AllTexts(next)
    ensures |soFar| + |next| <= |all|
    ensures |StringTensor.Data(before + TextsOf(soFar))| + DataSize(next) <= |StringTensor.Data(before)| + DataSize(all)
  {
    TextsAppend(soFar, next);
    PrefixSmaller(soFar + next, all);
    DataAppend(before, TextsOf(soFar));
  }

  lemma VisitStep(es: seq<Value>, t: Type, shape: seq<nat>, i: nat)
    requires (forall x | x in es :: HasType(x, t)) && KindOf(t).StringKind?
    requires i < |es| && VisitAll(es[..i], shape).ok
    ensures HasType(es[i], t)
    ensures AllTexts(VisitAll(es[..i], shape).elems) && AllTexts(Visit(es[i], shape).elems)
    ensures VisitAll(es[..i + 1], shape)
            == Walk(VisitAll(es[..i], shape).elems + Visit(es[i], shape).elems, Visit(es[i], shape).ok)
    ensures VisitAll(es[..i], shape).elems + Visit(es[i], shape).elems <= VisitAll(es, shape).elems
    ensures !Visit(es[i], shape).ok ==> VisitAll(es[..i + 1], shape) == VisitAll(es, shape)
  {
    VisitAllStep(es, shape, i);
    VisitAllPrefix(es, shape, i + 1);
    VisitTexts(es[i], t, shape);
    VisitAllKinds(es[..i], t, shape);
    var before := VisitAll(es[..i], shape).elems;
    assert forall j | 0 <= j < |before| :: before[j] in before;
  }

  lemma VisitTexts(v: Value, t: Type, shape: seq<nat>)
    requires HasType(v, t) && KindOf(t).StringKind?
    ensures AllTexts(Visit(v, shape).elems)
  {
    VisitKinds(v, t, shape);
    var es := Visit(v, shape).elems;
    assert forall j | 0 <= j < |es| :: es[j] in es;
  }

  // ---- The decoder ---------------------------------------------------------------------------------------

  /** String i of a buffer of n strings; None where decoding reports an error or panics. */
  function TextAt(e: Endian, raw: seq<byte>, n: nat, i: nat): Option<Elem>
    requires 8 * n <= |raw|
  {
    if i >= n then None else
      match StringTensor.StringAt(raw, n, ReadFixed(e, raw[8 * i..8 * i + 8]))
      case Err(_) => None
      case Ok(s) => Some(TextElem(s))
  }

  function TextsIn(e: Endian, raw: seq<byte>, n: nat): nat -> Option<Elem>
    requires 8 * n <= |raw|
  {
    (i: nat) => TextAt(e, raw, n, i)
  }

  /** stringDecoder.decode, reading offset k next. */
  method Decode(e: Endian, raw: seq<byte>, n: nat, k: nat, shape: seq<nat>)
    returns (r: Option<(Value, nat)>)
    requires 8 * n <= |raw|
    ensures r == Build(TextsIn(e, raw, n), k, shape)
    decreases |shape|
  {
    if |shape| == 0 {
      if k >= n {
        return None;
      }
      var offset := ReadFixed(e, raw[8 * k..8 * k + 8]);
      if offset >= |raw| - 8 * n {
        return None;
      }
      var found := StringTensor.StringDecode(raw, 8 * n + offset);
      if found.Err? || found.value.0 + found.value.1 > |raw| {
        return None;
      }
      return Some((Leaf(TextElem(raw[found.value.0..found.value.0 + found.value.1])), k + 1));
    }
    var vals: seq<Value>, next := [], k;
    ghost var elems := TextsIn(e, raw, n);
    for i := 0 to shape[0]
      invariant BuildMany(elems, k, i, shape[1..]) == Some((vals, next))
    {
      var elem := Decode(e, raw, n, next, shape[1..]);
      if elem.None? {
        BuildManyStops(elems, k, i, shape[0], shape[1..]);
        return None;
      }
      vals, next := vals + [elem.value.0], elem.value.1;
    }
    return Some((Slice(vals), next));
  }

  // ---- The two encoders agree ----------------------------------------------------------------------------

  datatype Tensor = Tensor(shape: seq<nat>, raw: seq<byte>)

  /** What NewTensor allocates leaves room for all that the encoder writes. */
  lemma RoomForVisit(v: Value, t: Type, shape: seq<nat>)
    requires HasType(v, t) && KindOf(t).StringKind? && Suits(t, shape) && AllTexts(Flatten(v))
    ensures AllTexts(Visit(v, shape).elems)
    ensures |Visit(v, shape).elems| <= Product(shape) && DataSize(Visit(v, shape).elems) <= DataSize(Flatten(v))
    ensures Visit(v, shape).ok ==> |Flatten(v)| == Product(shape) && Visit(v, shape).elems == Flatten(v)
  {
    VisitTexts(v, t, shape);
    VisitBounded(v, t, shape);
    VisitIsPrefix(v, shape);
    PrefixSmaller(Visit(v, shape).elems, Flatten(v));
  }

  /**
   NewTensor for strings: it succeeds exactly on rectangular values, and the memory then holds, byte
   for byte, what the C++ encoder writes for the row-major flattening.
   */
  method NewTensor(e: Endian, v: Value, t: Type) returns (r: Option<Tensor>)
    requires HasType(v, t) && KindOf(t).StringKind?
    requires AllTexts(Flatten(v)) && 8 * Product(ShapeOf(v, t)) + DataSize(Flatten(v)) < TWO_TO_THE_63
    ensures r.Some? <==> Rectangular(v, ShapeOf(v, t))
    ensures r.Some? ==> r.value == Tensor(ShapeOf(v, t), StringTensor.Buffer(e, TextsOf(Flatten(v))))
  {
    var shape, kind, supported := ShapeAndKind(v, t);
    var flattened := NumElements(shape);
    var dataBytes := ByteSizeOfEncodedStrings(v, t);
    var nbytes := flattened * 8 + dataBytes;
    ShapeSuits(v, t);
    VisitOkIff(v, t, shape);
    RoomForVisit(v, t, shape);
    var raw := new byte[nbytes];
    var enc := new StringEncoder(e, raw, flattened * 8);
    var encoded := enc.Encode(t, v, shape);
    if !encoded {
      return None;
    }
    if enc.offsetsLen != flattened * 8 {
      return None;
    }
    FilledExactly(e, raw[..], TextsOf(Flatten(v)));
    return Some(Tensor(shape, raw[..]));
  }

  lemma FilledExactly(e: Endian, raw: seq<byte>, ss: seq<Text>)
    requires |raw| == 8 * |ss| + |StringTensor.Data(ss)|
    requires StringTensor.Holds(raw, StringTensor.Table(e, [] + ss), StringTensor.Data([] + ss), 8 * |ss|)
    ensures raw == StringTensor.Buffer(e, ss)
  {
    assert [] + ss == ss;
    StringTensor.HoldsAll(raw, StringTensor.Table(e, ss), StringTensor.Data(ss));
  }

  lemma TextOfBuffer(e: Endian, es: seq<Elem>, i: nat)
    requires AllTexts(es) && StringTensor.Fits(TextsOf(es)) && i < |es|
    ensures 8 * |es| <= |StringTensor.Buffer(e, TextsOf(es))|
    ensures TextAt(e, StringTensor.Buffer(e, TextsOf(es)), |es|, i) == Some(es[i])
  {
    var ss := TextsOf(es);
    StringTensor.OffsetOfBuffer(e, ss, i);
    StringTensor.StringOfBuffer(StringTensor.Table(e, ss), ss, i);
  }

  lemma BufferSupplies(e: Endian, es: seq<Elem>)
    requires AllTexts(es) && StringTensor.Fits(TextsOf(es))
    ensures 8 * |es| <= |StringTensor.Buffer(e, TextsOf(es))|
    ensures Supplies(TextsIn(e, StringTensor.Buffer(e, TextsOf(es)), |es|), 0, es)
  {
    var raw := StringTensor.Buffer(e, TextsOf(es));
    forall i | 0 <= i < |es| ensures TextsIn(e, raw, |es|)(0 + i) == Some(es[i]) {
      TextOfBuffer(e, es, i);
    }
  }

  lemma BuildsBack(elems: nat -> Option<Elem>, v: Value, shape: seq<nat>, es: seq<Elem>)
    requires Rectangular(v, shape) && Visit(v, shape) == Walk(es, true) && Supplies(elems, 0, es)
    ensures Build(elems, 0, shape) == Some((AsSlices(v), |es|))
  {
    BuildRestores(elems, 0, v, shape);
  }

  /** stringDecoder restores the nesting, arrays as slices. */
  lemma DecodedIsOriginal(e: Endian, t: Type, v: Value, shape: seq<nat>)
    requires HasType(v, t) && KindOf(t).StringKind? && Suits(t, shape) && Rectangular(v, shape)
    requires AllTexts(Flatten(v)) && StringTensor.Fits(TextsOf(Flatten(v)))
    ensures |Flatten(v)| == Product(shape) && 8 * Product(shape) <= |StringTensor.Buffer(e, TextsOf(Flatten(v)))|
    ensures Build(TextsIn(e, StringTensor.Buffer(e, TextsOf(Flatten(v))), Product(shape)), 0, shape)
            == Some((AsSlices(v), Product(shape)))
  {
    VisitOkIff(v, t, shape);
    RoomForVisit(v, t, shape);
    var es := Flatten(v);
    BufferSupplies(e, es);
    var elems := TextsIn(e, StringTensor.Buffer(e, TextsOf(es)), |es|);
    BuildsBack(elems, v, shape, es);
  }

  /** Go encodes; Go decodes the nesting, and C++ decodes the flat list. */
  method RoundTrip(e: Endian, v: Value, t: Type) returns (inGo: Option<Value>, inCpp: StringTensor.Result<seq<Text>>)
    requires HasType(v, t) && KindOf(t).StringKind?
    requires AllTexts(Flatten(v)) && 8 * Product(ShapeOf(v, t)) + DataSize(Flatten(v)) < TWO_TO_THE_63
    ensures Rectangular(v, ShapeOf(v, t)) ==> inGo == Some(AsSlices(v)) && inCpp == StringTensor.Ok(TextsOf(Flatten(v)))
    ensures !Rectangular(v, ShapeOf(v, t)) ==> inGo == None
  {
    var tensor := NewTensor(e, v, t);
    if tensor.None? {
      return None, StringTensor.Err(StringTensor.TooShort);
    }
    ShapeSuits(v, t);
    var ss := TextsOf(Flatten(v));
    var n := NumElements(tensor.value.shape);
    VisitOkIff(v, t, ShapeOf(v, t));
    RoomForVisit(v, t, ShapeOf(v, t));
    DecodedIsOriginal(e, t, v, ShapeOf(v, t));
    var decoded := Decode(e, tensor.value.raw, n, 0, tensor.value.shape);
    inGo := if decoded.None? then None else Some(decoded.value.0);
    inCpp := StringTensor.TensorToTensor(e, tensor.value.raw, n);
    StringTensor.RoundTrip(e, ss, if inCpp.Ok? then inCpp.value else []);
  }
}
