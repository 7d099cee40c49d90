/** Dimension orders and strides of batch descriptors (stream_executor/dnn.cc), for any number of spatial dimensions. */
module Layout {
  import opened Basics

  datatype DataLayout = YXDepthBatch | YXBatchDepth | BatchYXDepth | BatchDepthYX | BatchDepthYX4

  /** The entries of a vector by meaning rather than by position. */
  datatype Entries = Entries(batch: int, depth: int, spatial: seq<int>)

  /** The position a layout's name describes. */
  function Place(x: Entries, layout: DataLayout): (v: seq<int>)
    ensures |v| == |x.spatial| + 2
  {
    match layout
    case YXDepthBatch => x.spatial + [x.depth, x.batch]
    case YXBatchDepth => x.spatial + [x.batch, x.depth]
    case BatchYXDepth => [x.batch] + x.spatial + [x.depth]
    case BatchDepthYX => [x.batch, x.depth] + x.spatial
    case BatchDepthYX4 => [x.batch, x.depth] + x.spatial
  }

  // ---- GetDimIndices and ReorderDims -----------------------------------------------------------------

  /** Positions of depth, batch and the first spatial dimension. */
  function GetDimIndices(layout: DataLayout, dataDims: int): (int, int, int) {
    match layout
    case YXBatchDepth => (dataDims - 1, dataDims - 2, 0)
    case YXDepthBatch => (dataDims - 2, dataDims - 1, 0)
    case BatchYXDepth => (dataDims - 1, 0, 1)
    case BatchDepthYX => (1, 0, 2)
    case BatchDepthYX4 => (1, 0, 2)
  }

  function View(v: seq<int>, layout: DataLayout): Entries
    requires |v| >= 2
  {
    var (d, b, s) := GetDimIndices(layout, |v|);
    Entries(v[b], v[d], v[s..s + |v| - 2])
  }

  /** The indices agree with what the layout's name says. */
  lemma PlaceView(v: seq<int>, x: Entries, layout: DataLayout)
    ensures View(Place(x, layout), layout) == x
    ensures |v| >= 2 ==> Place(View(v, layout), layout) == v
  {
    ViewOfPlace(x, layout);
    if |v| >= 2 {
      PlaceOfView(v, layout);
    }
  }

  lemma ViewOfPlace(x: Entries, layout: DataLayout)
    ensures View(Place(x, layout), layout) == x
  {
    assert View(Place(x, layout), layout).spatial == x.spatial;
  }

  lemma PlaceOfView(v: seq<int>, layout: DataLayout)
    requires |v| >= 2
    ensures Place(View(v, layout), layout) == v
  {
  }

  function Reordered(v: seq<int>, from: DataLayout, to: DataLayout): seq<int>
    requires |v| >= 2
  {
    Place(View(v, from), to)
  }

  ghost predicate Copied(dst: seq<int>, at: nat, src: seq<int>, from: nat, n: nat) {
    at + n <= |dst| && from + n <= |src| && dst[at..at + n] == src[from..from + n]
  }

  lemma CopyStep(dst: seq<int>, at: nat, src: seq<int>, from: nat, n: nat)
    requires Copied(dst, at, src, from, n) && at + n < |dst| && from + n < |src|
    ensures Copied(dst[at + n := src[from + n]], at, src, from, n + 1)
  {
    var next := dst[at + n := src[from + n]];
    assert next[at..at + n + 1] == dst[at..at + n] + [src[from + n]];
    assert src[from..from + n + 1] == src[from..from + n] + [src[from + n]];
  }

  /** Depth, batch and the spatial dimensions have their own positions. */
  lemma IndicesApart(layout: DataLayout, n: int)
    requires n >= 2
    ensures var (d, b, s) := GetDimIndices(layout, n);
            && 0 <= d < n && 0 <= b < n && d != b && 0 <= s <= 2
            && (d < s || s + n - 2 <= d) && (b < s || s + n - 2 <= b)
  {
  }

  lemma Assembled(input: seq<int>, reordered: seq<int>, from: DataLayout, to: DataLayout)
    requires |reordered| == |input| >= 2
    requires var (dFrom, bFrom, sFrom) := GetDimIndices(from, |input|);
             var (dTo, bTo, sTo) := GetDimIndices(to, |input|);
             && reordered[bTo] == input[bFrom] && reordered[dTo] == input[dFrom]
             && Copied(reordered, sTo, input, sFrom, |input| - 2)
    ensures reordered == Reordered(input, from, to)
  {
    assert View(reordered, to) == View(input, from);
    PlaceOfView(reordered, to);
  }

  method ReorderDims(input: seq<int>, from: DataLayout, to: DataLayout) returns (reordered: seq<int>)
    requires |input| >= 2
    ensures reordered == Reordered(input, from, to)
  {
    if from == to {
      PlaceOfView(input, from);
      return input;
    }
    IndicesApart(from, |input|);
    IndicesApart(to, |input|);
    var (dFrom, bFrom, sFrom) := GetDimIndices(from, |input|);
    var (dTo, bTo, sTo) := GetDimIndices(to, |input|);
    reordered := seq(|input|, i => 0);
    reordered := reordered[bTo := input[bFrom]];
    reordered := reordered[dTo := input[dFrom]];
    for i := 0 to |input| - 2
      invariant |reordered| == |input| && reordered[bTo] == input[bFrom] && reordered[dTo] == input[dFrom]
      invariant Copied(reordered, sTo, input, sFrom, i)
    {
      CopyStep(reordered, sTo, input, sFrom, i);
      reordered := reordered[sTo + i := input[sFrom + i]];
    }
    Assembled(input, reordered, from, to);
  }

  /** Reordering by way of any third layout changes nothing, and reordering back undoes it. */
  lemma ReorderComposes(v: seq<int>, a: DataLayout, b: DataLayout, c: DataLayout)
    requires |v| >= 2
    ensures Reordered(Reordered(v, a, b), b, c) == Reordered(v, a, c)
    ensures Reordered(Reordered(v, a, b), b, a) == v
  {
    PlaceView(v, View(v, a), b);
    PlaceView(v, View(v, a), a);
  }

  // ---- Descriptors -------------------------------------------------------------------------------------

  datatype BatchDescriptor = BatchDescriptor(count: nat, featureMaps: nat, spatial: seq<nat>, layout: DataLayout)

  method NodesPerFeatureMap(d: BatchDescriptor) returns (n: int)
    ensures n == Product(d.spatial)
  {
    n := 1;
    for i := 0 to |d.spatial|
      invariant n * Product(d.spatial[i..]) == Product(d.spatial)
    {
      assert d.spatial[i..][1..] == d.spatial[i + 1..];
      MulAssociates(n, d.spatial[i], Product(d.spatial[i + 1..]));
      n := n * d.spatial[i];
    }
  }

  lemma MulAssociates(a: int, b: int, c: int)
    ensures a * (b * c) == a * b * c
  {
  }

  function ElementCount(d: BatchDescriptor): int {
    d.count * d.featureMaps * Product(d.spatial)
  }

  function FullDims(d: BatchDescriptor, layout: DataLayout): (v: seq<int>)
    ensures |v| == |d.spatial| + 2
  {
    Place(Entries(d.count, d.featureMaps, d.spatial), layout)
  }

  /** Where each layout has the batch count, the feature maps and the spatial dimensions. */
  lemma DimsByName(d: BatchDescriptor)
    ensures FullDims(d, BatchDepthYX)[0] == d.count && FullDims(d, BatchDepthYX)[1] == d.featureMaps
    ensures FullDims(d, BatchDepthYX)[2..] == d.spatial && FullDims(d, BatchDepthYX4) == FullDims(d, BatchDepthYX)
    ensures var n, v := |d.spatial|, FullDims(d, BatchYXDepth);
            v[0] == d.count && v[1..n + 1] == d.spatial && v[n + 1] == d.featureMaps
    ensures var n, v := |d.spatial|, FullDims(d, YXBatchDepth);
            v[..n] == d.spatial && v[n] == d.count && v[n + 1] == d.featureMaps
    ensures var n, v := |d.spatial|, FullDims(d, YXDepthBatch);
            v[..n] == d.spatial && v[n] == d.featureMaps && v[n + 1] == d.count
  {
  }

  method FullDimsOf(d: BatchDescriptor, layout: DataLayout) returns (v: seq<int>)
    ensures v == FullDims(d, layout)
  {
    var bdyx: seq<int> := [d.count, d.featureMaps] + d.spatial;
    assert View(bdyx, BatchDepthYX) == Entries(d.count, d.featureMaps, d.spatial);
    v := ReorderDims(bdyx, BatchDepthYX, layout);
  }

  /** Row-major strides: the product of all later dimensions. */
  function Strides(dims: seq<int>): (s: seq<int>)
    ensures |s| == |dims|
  {
    if dims == [] then [] else [Product(dims[1..])] + Strides(dims[1..])
  }

  lemma {:induction false} StridesAt(dims: seq<int>, i: nat)
    requires i < |dims|
    ensures Strides(dims)[i] == Product(dims[i + 1..])
  {
    if i > 0 {
      StridesAt(dims[1..], i - 1);
      assert dims[1..][i..] == dims[i + 1..];
    }
  }

  function FullStrides(d: BatchDescriptor, layout: DataLayout): seq<int> {
    Reordered(Strides(FullDims(d, d.layout)), d.layout, layout)
  }

  /** full_strides; None where the source aborts because the physical layout is the vectorised one. */
  method FullStridesOf(d: BatchDescriptor, layout: DataLayout) returns (r: Option<seq<int>>)
    ensures r == if d.layout.BatchDepthYX4? then None else Some(FullStrides(d, layout))
  {
    if d.layout.BatchDepthYX4? {
      return None;
    }
    var dims := FullDimsOf(d, d.layout);
    var n := |d.spatial|;
    var strides: seq<int> := seq(|dims|, i => 1);
    var i := n;
    while i >= 0
      invariant -1 <= i <= n && |strides| == |dims|
      invariant forall k | i < k < |dims| :: strides[k] == Product(dims[k + 1..])
    {
      assert dims[i + 1..][1..] == dims[i + 2..];
      strides := strides[i := strides[i + 1] * dims[i + 1]];
      i := i - 1;
    }
    forall k | 0 <= k < |dims| ensures strides[k] == Strides(dims)[k] {
      StridesAt(dims, k);
    }
    assert strides == Strides(dims);
    var reordered := ReorderDims(strides, d.layout, layout);
    return Some(reordered);
  }

  // ---- Addresses ----------------------------------------------------------------------------------------

  function Dot(c: seq<int>, s: seq<int>): int
    requires |c| == |s|
  {
    if c == [] then 0 else c[0] * s[0] + Dot(c[1..], s[1..])
  }

  ghost predicate InBounds(c: seq<int>, dims: seq<int>) {
    |c| == |dims| && forall i | 0 <= i < |dims| :: 0 <= c[i] < dims[i]
  }

  ghost predicate Positive(dims: seq<int>) {
    forall i | 0 <= i < |dims| :: dims[i] > 0
  }

  lemma {:induction false} ProductPositive(dims: seq<int>)
    requires Positive(dims)
    ensures Product(dims) > 0
  {
    if dims != [] {
      ProductPositive(dims[1..]);
      MulPositive(dims[0], Product(dims[1..]));
    }
  }

  lemma LeadingDigit(c: int, n: int, p: int, low: int)
    requires 0 <= c < n && 0 <= low < p
    ensures 0 <= c * p + low < n * p
    ensures (c * p + low) / p == c && (c * p + low) % p == low
  {
    assert (c + 1) * p <= n * p by { MulMonotone(c + 1, n, p); }
    assert (c + 1) * p == c * p + p;
    assert c * p >= 0 by { MulMonotone(0, c, p); }
    DivModUnique(c * p + low, p, c, low);
  }

  /** The coordinates of the k-th element in row-major order. */
  function CoordsOf(k: int, dims: seq<int>): (c: seq<int>)
    ensures |c| == |dims|
    decreases dims
  {
    if dims == [] then [] else
      var p := Product(dims[1..]);
      if p == 0 then seq(|dims|, i => 0) else [k / p] + CoordsOf(k % p, dims[1..])
  }

  /** Offsets stay below the element count, and the coordinates can be read back from them. */
  lemma {:induction false} OffsetInRange(c: seq<int>, dims: seq<int>)
    requires Positive(dims) && InBounds(c, dims)
    ensures 0 <= Dot(c, Strides(dims)) < Product(dims)
    ensures CoordsOf(Dot(c, Strides(dims)), dims) == c
  {
    if dims != [] {
      var p := Product(dims[1..]);
      OffsetInRange(c[1..], dims[1..]);
      ProductPositive(dims[1..]);
      assert Strides(dims)[1..] == Strides(dims[1..]);
      LeadingDigit(c[0], dims[0], p, Dot(c[1..], Strides(dims[1..])));
      assert c == [c[0]] + c[1..];
    }
  }

  lemma QuotientBelow(k: int, n: int, p: int)
    requires 0 <= k < n * p && p > 0
    ensures 0 <= k / p < n && 0 <= k % p < p && k / p * p + k % p == k
  {
    if k / p >= n {
      MulMonotone(n, k / p, p);
      assert false;
    }
  }

  /** Every offset below the element count is the offset of its coordinates. */
  lemma {:induction false} OffsetReached(k: int, dims: seq<int>)
    requires Positive(dims) && 0 <= k < Product(dims)
    ensures InBounds(CoordsOf(k, dims), dims) && Dot(CoordsOf(k, dims), Strides(dims)) == k
  {
    if dims != [] {
      var p := Product(dims[1..]);
      ProductPositive(dims[1..]);
      QuotientBelow(k, dims[0], p);
      OffsetReached(k % p, dims[1..]);
      var c := CoordsOf(k, dims);
      assert c[1..] == CoordsOf(k % p, dims[1..]) && Strides(dims)[1..] == Strides(dims[1..]);
    }
  }

  // ---- Addresses do not depend on the view ------------------------------------------------------------------

  lemma {:induction false} DotAppend(a: seq<int>, b: seq<int>, s: seq<int>, t: seq<int>)
    requires |a| == |s| && |b| == |t|
    ensures Dot(a + b, s + t) == Dot(a, s) + Dot(b, t)
  {
    if a == [] {
      assert a + b == b && s + t == t;
    } else {
      assert (a + b)[1..] == a[1..] + b && (s + t)[1..] == s[1..] + t;
      DotAppend(a[1..], b, s[1..], t);
    }
  }

  lemma DotTwo(a: int, b: int, s: int, t: int)
    ensures Dot([a, b], [s, t]) == a * s + b * t && Dot([a], [s]) == a * s
  {
    assert [a, b][1..] == [b] && [s, t][1..] == [t];
    assert [b][1..] == [] && [t][1..] == [] && [a][1..] == [] && [s][1..] == [];
    assert Dot([b], [t]) == b * t + Dot([b][1..], [t][1..]);
    assert Dot([a, b], [s, t]) == a * s + Dot([a, b][1..], [s, t][1..]);
  }

  lemma DotByMeaning(x: Entries, y: Entries, layout: DataLayout)
    requires |x.spatial| == |y.spatial|
    ensures Dot(Place(x, layout), Place(y, layout)) == x.batch * y.batch + x.depth * y.depth + Dot(x.spatial, y.spatial)
  {
    match layout
    case YXDepthBatch => DotTwo(x.depth, x.batch, y.depth, y.batch);
      DotAppend(x.spatial, [x.depth, x.batch], y.spatial, [y.depth, y.batch]);
    case YXBatchDepth => DotTwo(x.batch, x.depth, y.batch, y.depth);
      DotAppend(x.spatial, [x.batch, x.depth], y.spatial, [y.batch, y.depth]);
    case BatchYXDepth => DotTwo(x.batch, 0, y.batch, 0); DotTwo(x.depth, 0, y.depth, 0);
      DotAppend([x.batch], x.spatial, [y.batch], y.spatial);
      DotAppend([x.batch] + x.spatial, [x.depth], [y.batch] + y.spatial, [y.depth]);
    case BatchDepthYX => DotTwo(x.batch, x.depth, y.batch, y.depth);
      DotAppend([x.batch, x.depth], x.spatial, [y.batch, y.depth], y.spatial);
    case BatchDepthYX4 => DotTwo(x.batch, x.depth, y.batch, y.depth);
      DotAppend([x.batch, x.depth], x.spatial, [y.batch, y.depth], y.spatial);
  }

  lemma DotReordered(c: seq<int>, s: seq<int>, from: DataLayout, to: DataLayout)
    requires |c| == |s| >= 2
    ensures Dot(Reordered(c, from, to), Reordered(s, from, to)) == Dot(c, s)
  {
    var x, y := View(c, from), View(s, from);
    DotByMeaning(x, y, from);
    DotByMeaning(x, y, to);
    PlaceView(c, x, from);
    PlaceView(s, y, from);
  }

  lemma {:induction false} ProductAppend(a: seq<int>, b: seq<int>)
    ensures Product(a + b) == Product(a) * Product(b)
  {
    if a == [] {
      assert a + b == b;
    } else {
      assert (a + b)[1..] == a[1..] + b;
      ProductAppend(a[1..], b);
      MulAssociates(a[0], Product(a[1..]), Product(b));
    }
  }

  lemma ProductSmall(a: int, b: int)
    ensures Product([a]) == a && Product([a, b]) == a * b
  {
    assert [a][1..] == [] && [a, b][1..] == [b] && [b][1..] == [];
  }

  lemma Commute(a: int, b: int, c: int)
    ensures a * b * c == c * (b * a) && a * b * c == c * (a * b) && a * b * c == a * c * b
  {
  }

  /** The element count is the product of the dimensions, whatever their order. */
  lemma ProductOfDims(d: BatchDescriptor, layout: DataLayout)
    ensures Product(FullDims(d, layout)) == ElementCount(d)
  {
    var b, f, s := d.count, d.featureMaps, d.spatial;
    var p := Product(s);
    ProductSmall(f, b); ProductSmall(b, f);
    Commute(b, f, p);
    match layout
    case YXDepthBatch => ProductAppend(s, [f, b]);
    case YXBatchDepth => ProductAppend(s, [b, f]);
    case BatchYXDepth => ProductAppend([b], s); ProductAppend([b] + s, [f]);
    case BatchDepthYX => ProductAppend([b, f], s);
    case BatchDepthYX4 => ProductAppend([b, f], s);
  }

  // ---- The theorems ------------------------------------------------------------------------------------------

  ghost predicate PositiveDims(d: BatchDescriptor) {
    d.count > 0 && d.featureMaps > 0 && Positive(d.spatial)
  }

  /** The offset of an element given its coordinates in some layout. */
  function Offset(d: BatchDescriptor, c: seq<int>, layout: DataLayout): int
    requires |c| == |d.spatial| + 2
  {
    Dot(c, FullStrides(d, layout))
  }

  /** An element's offset does not depend on the layout its coordinates and the strides are viewed in. */
  lemma OffsetViewIndependent(d: BatchDescriptor, c: seq<int>, from: DataLayout, to: DataLayout)
    requires |c| == |d.spatial| + 2
    ensures Offset(d, Reordered(c, from, to), to) == Offset(d, c, from)
  {
    var phys := Strides(FullDims(d, d.layout));
    ReorderComposes(phys, d.layout, from, to);
    DotReordered(c, FullStrides(d, from), from, to);
  }

  ghost predicate EntriesInBounds(x: Entries, y: Entries) {
    0 <= x.batch < y.batch && 0 <= x.depth < y.depth && InBounds(x.spatial, y.spatial)
  }

  lemma BoundsAppend(a: seq<int>, b: seq<int>, s: seq<int>, t: seq<int>)
    requires |a| == |s| && |b| == |t|
    ensures InBounds(a + b, s + t) <==> InBounds(a, s) && InBounds(b, t)
  {
    var c, dims := a + b, s + t;
    assert forall i | 0 <= i < |a| :: c[i] == a[i] && dims[i] == s[i];
    assert forall i | 0 <= i < |b| :: c[|a| + i] == b[i] && dims[|a| + i] == t[i];
  }

  lemma BoundsTwo(a: int, b: int, m: int, n: int)
    ensures InBounds([a], [m]) <==> 0 <= a < m
    ensures InBounds([a, b], [m, n]) <==> 0 <= a < m && 0 <= b < n
  {
    assert [a][0] == a && [m][0] == m;
    assert [a, b][0] == a && [a, b][1] == b && [m, n][0] == m && [m, n][1] == n;
  }

  lemma BoundsByMeaning(x: Entries, y: Entries, layout: DataLayout)
    requires |x.spatial| == |y.spatial|
    ensures InBounds(Place(x, layout), Place(y, layout)) <==> EntriesInBounds(x, y)
  {
    BoundsTwo(x.batch, x.depth, y.batch, y.depth);
    BoundsTwo(x.depth, x.batch, y.depth, y.batch);
    match layout
    case YXDepthBatch => BoundsAppend(x.spatial, [x.depth, x.batch], y.spatial, [y.depth, y.batch]);
    case YXBatchDepth => BoundsAppend(x.spatial, [x.batch, x.depth], y.spatial, [y.batch, y.depth]);
    case BatchYXDepth =>
      BoundsAppend([x.batch], x.spatial, [y.batch], y.spatial);
      BoundsAppend([x.batch] + x.spatial, [x.depth], [y.batch] + y.spatial, [y.depth]);
    case BatchDepthYX => BoundsAppend([x.batch, x.depth], x.spatial, [y.batch, y.depth], y.spatial);
    case BatchDepthYX4 => BoundsAppend([x.batch, x.depth], x.spatial, [y.batch, y.depth], y.spatial);
  }

  lemma BoundsReordered(d: BatchDescriptor, c: seq<int>, from: DataLayout, to: DataLayout)
    requires InBounds(c, FullDims(d, from))
    ensures InBounds(Reordered(c, from, to), FullDims(d, to))
  {
    var x, y := View(c, from), Entries(d.count, d.featureMaps, d.spatial);
    PlaceView(c, y, from);
    BoundsByMeaning(x, y, from);
    BoundsByMeaning(x, y, to);
  }

  lemma PhysicalOffset(d: BatchDescriptor, c: seq<int>, layout: DataLayout)
    requires |c| == |d.spatial| + 2
    ensures Offset(d, c, layout) == Dot(Reordered(c, layout, d.layout), Strides(FullDims(d, d.layout)))
  {
    var phys := Strides(FullDims(d, d.layout));
    OffsetViewIndependent(d, c, layout, d.layout);
    PlaceView(phys, View(phys, d.layout), d.layout);
  }

  lemma PhysicalPositive(d: BatchDescriptor)
    requires PositiveDims(d)
    ensures Positive(FullDims(d, d.layout))
  {
  }

  /** In every layout, offsets lie in [0, ElementCount()) and no two elements share one. */
  lemma OffsetsInjective(d: BatchDescriptor, layout: DataLayout, c: seq<int>, e: seq<int>)
    requires PositiveDims(d) && InBounds(c, FullDims(d, layout)) && InBounds(e, FullDims(d, layout))
    ensures 0 <= Offset(d, c, layout) < ElementCount(d)
    ensures Offset(d, c, layout) == Offset(d, e, layout) ==> c == e
  {
    var dims := FullDims(d, d.layout);
    var pc, pe := Reordered(c, layout, d.layout), Reordered(e, layout, d.layout);
    PhysicalPositive(d);
    ProductOfDims(d, d.layout);
    BoundsReordered(d, c, layout, d.layout);
    BoundsReordered(d, e, layout, d.layout);
    PhysicalOffset(d, c, layout);
    PhysicalOffset(d, e, layout);
    OffsetInRange(pc, dims);
    OffsetInRange(pe, dims);
    ReorderComposes(c, layout, d.layout, layout);
    ReorderComposes(e, layout, d.layout, layout);
  }

  /** In every layout, every offset in [0, ElementCount()) is some element's. */
  lemma OffsetsSurjective(d: BatchDescriptor, layout: DataLayout, k: int) returns (c: seq<int>)
    requires PositiveDims(d) && 0 <= k < ElementCount(d)
    ensures InBounds(c, FullDims(d, layout)) && Offset(d, c, layout) == k
  {
    var dims := FullDims(d, d.layout);
    PhysicalPositive(d);
    ProductOfDims(d, d.layout);
    OffsetReached(k, dims);
    var p := CoordsOf(k, dims);
    c := Reordered(p, d.layout, layout);
    BoundsReordered(d, p, d.layout, layout);
    ReorderComposes(p, d.layout, layout, d.layout);
    PhysicalOffset(d, c, layout);
  }
}
