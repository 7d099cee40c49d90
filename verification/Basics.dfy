/** Small notions that several modules share. */
module Basics {

  datatype Option<+T> = None | Some(value: T)

  // ---- Sequences and sets ----------------------------------------------------------------------

  ghost predicate Distinct<T>(s: seq<T>) {
    forall i, j | 0 <= i < j < |s| :: s[i] != s[j]
  }

  ghost predicate Ascending(s: seq<nat>) {
    forall i, j | 0 <= i < j < |s| :: s[i] < s[j]
  }

  lemma Regroup<T>(a: seq<T>, b: seq<T>, c: seq<T>)
    ensures (a + b) + c == a + (b + c)
  {
  }

  lemma MoveFirst<T>(whole: seq<T>, done: seq<T>, x: T, rest: seq<T>)
    requires whole == done + ([x] + rest)
    ensures whole == (done + [x]) + rest
  {
  }

  lemma SubsetSize<T>(a: set<T>, b: set<T>)
    requires a <= b
    ensures |a| <= |b|
  {
    assert b == a + (b - a);
  }

  // ---- Products --------------------------------------------------------------------------------

  lemma MulMonotone(a: int, b: int, p: int)
    requires a <= b && p >= 0
    ensures a * p <= b * p
  {
  }

  lemma MulPositive(a: int, b: int)
    requires a > 0 && b > 0
    ensures a * b > 0
  {
  }

  lemma DivModUnique(x: int, p: int, q: int, r: int)
    requires 0 <= r < p && x == q * p + r
    ensures x / p == q && x % p == r
  {
    var d := x / p - q;
    assert x == x / p * p + x % p;
    assert x / p * p == q * p + d * p;
    assert d * p == r - x % p;
    if d >= 1 { MulMonotone(1, d, p); assert false; }
    if d <= -1 { MulMonotone(d, -1, p); assert false; }
  }

  function Product(dims: seq<int>): int {
    if dims == [] then 1 else dims[0] * Product(dims[1..])
  }

  lemma {:induction false} ProductNonNegative(dims: seq<nat>)
    ensures Product(dims) >= 0
  {
    if dims != [] {
      ProductNonNegative(dims[1..]);
      MulMonotone(0, dims[0], Product(dims[1..]));
    }
  }
}
