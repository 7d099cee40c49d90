/** Bytes as the codecs lay them out: fixed-width integers and Base 128 varints. */
module Bytes {
  import opened Basics

  type byte = b: int | 0 <= b < 256

  const TWO_TO_THE_64 := 0x1_0000_0000_0000_0000
  const TWO_TO_THE_63 := 0x8000_0000_0000_0000

  // ---- Fixed-width integers ---------------------------------------------------------------------

  datatype Endian = Little | Big

  function Pow256(n: nat): (p: nat)
    ensures p > 0
  {
    if n == 0 then 1 else 256 * Pow256(n - 1)
  }

  function LittleEndian(x: nat, n: nat): (bs: seq<byte>)
    ensures |bs| == n
  {
    if n == 0 then [] else [x % 256] + LittleEndian(x / 256, n - 1)
  }

  function FromLittleEndian(bs: seq<byte>): nat {
    if bs == [] then 0 else bs[0] + 256 * FromLittleEndian(bs[1..])
  }

  lemma {:induction false} LittleEndianRoundTrip(x: nat, n: nat)
    requires x < Pow256(n)
    ensures FromLittleEndian(LittleEndian(x, n)) == x
  {
    if n > 0 {
      assert LittleEndian(x, n)[1..] == LittleEndian(x / 256, n - 1);
      LittleEndianRoundTrip(x / 256, n - 1);
    }
  }

  /** Byte i, from the low end, holds bits 8i to 8i+7. */
  lemma {:induction false} LittleEndianAt(x: nat, n: nat, i: nat)
    requires i < n
    ensures LittleEndian(x, n)[i] == x / Pow256(i) % 256
  {
    if i > 0 {
      LittleEndianAt(x / 256, n - 1, i - 1);
      DivTwice(x, 256, Pow256(i - 1));
    }
  }

  lemma Euclid(x: nat, d: nat)
    requires d > 0
    ensures x == x / d * d + x % d && 0 <= x % d < d
  {
  }

  lemma Rebuilt(x: nat, a: nat, b: nat, p: nat, q: nat, s: nat, r: nat)
    requires x == q * a + r && q == p * b + s
    ensures x == p * (a * b) + (s * a + r)
  {
    assert (p * b + s) * a == p * b * a + s * a;
    assert p * b * a == p * (a * b);
  }

  lemma RemainderSmall(a: nat, b: nat, s: nat, r: nat)
    requires r < a && s < b
    ensures s * a + r < a * b
  {
    MulMonotone(s + 1, b, a);
    assert (s + 1) * a == s * a + a;
  }

  lemma DivTwice(x: nat, a: nat, b: nat)
    requires a > 0 && b > 0
    ensures a * b > 0 && x / a / b == x / (a * b)
  {
    var q := x / a;
    Euclid(x, a);
    Euclid(q, b);
    Rebuilt(x, a, b, q / b, q, q % b, x % a);
    RemainderSmall(a, b, q % b, x % a);
    DivModUnique(x, a * b, q / b, q % b * a + x % a);
  }

  function Reversed(bs: seq<byte>): (r: seq<byte>)
    ensures |r| == |bs|
    ensures forall i | 0 <= i < |bs| :: r[i] == bs[|bs| - 1 - i]
  {
    seq(|bs|, i requires 0 <= i < |bs| => bs[|bs| - 1 - i])
  }

  /** An n-byte unsigned integer in the platform's byte order. */
  function FixedWidth(e: Endian, x: nat, n: nat): (bs: seq<byte>)
    ensures |bs| == n
  {
    if e.Little? then LittleEndian(x, n) else Reversed(LittleEndian(x, n))
  }

  /** In little-endian order the low byte comes first, in big-endian order the high byte. */
  lemma FixedWidthAt(e: Endian, x: nat, n: nat, i: nat)
    requires i < n
    ensures FixedWidth(e, x, n)[if e == Little then i else n - 1 - i] == x / Pow256(i) % 256
  {
    LittleEndianAt(x, n, i);
  }

  function ReadFixed(e: Endian, bs: seq<byte>): nat {
    FromLittleEndian(if e.Little? then bs else Reversed(bs))
  }

  lemma FixedRoundTrip(e: Endian, x: nat, n: nat)
    requires x < Pow256(n)
    ensures ReadFixed(e, FixedWidth(e, x, n)) == x
  {
    LittleEndianRoundTrip(x, n);
    assert Reversed(Reversed(LittleEndian(x, n))) == LittleEndian(x, n);
  }

  lemma Pow256Of8()
    ensures Pow256(8) == TWO_TO_THE_64
  {
    assert Pow256(1) == 256;
    assert Pow256(2) == 0x1_0000;
    assert Pow256(4) == 0x1_0000_0000;
    assert Pow256(6) == 0x1_0000_0000_0000;
  }

  // ---- Varints ("Base 128 Varints", Protocol Buffers Encoding) --------------------------------------

  /** Seven bits a byte, least significant first; the top bit says that more follow. */
  function Varint(v: nat): (bs: seq<byte>)
    ensures |bs| > 0
  {
    if v < 128 then [v] else [128 + v % 128] + Varint(v / 128)
  }

  function Pow2(n: nat): (p: nat)
    ensures p > 0
  {
    if n == 0 then 1 else 2 * Pow2(n - 1)
  }

  lemma Pow2Add7(n: nat)
    ensures Pow2(n + 7) == 128 * Pow2(n)
  {
    assert Pow2(n + 7) == 2 * Pow2(n + 6) == 4 * Pow2(n + 5) == 8 * Pow2(n + 4) == 16 * Pow2(n + 3);
    assert Pow2(n + 3) == 8 * Pow2(n) by {
      assert Pow2(n + 3) == 2 * Pow2(n + 2) == 4 * Pow2(n + 1);
    }
  }

  lemma {:induction false} Pow2Monotone(m: nat, n: nat)
    requires m <= n
    ensures Pow2(m) <= Pow2(n)
  {
    if m < n {
      Pow2Monotone(m, n - 1);
    }
  }

  lemma Pow2Of64()
    ensures Pow2(64) == TWO_TO_THE_64
  {
    assert Pow2(1) == 2;
    Pow2Add7(1);
    Pow2Add7(8);
    assert Pow2(15) == 0x8000;
    Pow2Add7(15);
    Pow2Add7(22);
    assert Pow2(29) == 0x2000_0000;
    Pow2Add7(29);
    Pow2Add7(36);
    assert Pow2(43) == 0x800_0000_0000;
    Pow2Add7(43);
    Pow2Add7(50);
    Pow2Add7(57);
  }

  /**
   What GetVarint64Ptr reads: the value and how many bytes it took, or None when the input runs out
   or no byte ends the number within 64 bits. Bits shifted past the 64th are lost; the others land
   on bits that are still zero, so the source's `|=` adds.
   */
  function ReadVarint(bs: seq<byte>, shift: nat, acc: nat): (r: Option<(nat, nat)>)
    ensures r.Some? ==> 0 < r.value.1 <= |bs|
  {
    if shift > 63 || bs == [] then None
    else
      var next := acc + (bs[0] % 128 * Pow2(shift)) % TWO_TO_THE_64;
      if bs[0] < 128 then Some((next, 1))
      else
        match ReadVarint(bs[1..], shift + 7, next)
        case None => None
        case Some((value, n)) => Some((value, n + 1))
  }

  lemma ScaledDigits(v: nat, p: nat)
    ensures v % 128 * p + v / 128 * (128 * p) == v * p
    ensures v % 128 * p <= v * p
    ensures v / 128 * (128 * p) <= v * p
  {
    assert v == v % 128 + 128 * (v / 128);
    assert v * p == (v % 128 + 128 * (v / 128)) * p == v % 128 * p + 128 * (v / 128) * p;
    assert 128 * (v / 128) * p == v / 128 * (128 * p);
    assert v % 128 * p >= 0 && v / 128 * (128 * p) >= 0;
  }

  /** A number at a bit position is its low seven bits there and the others seven bits further up. */
  lemma DigitsAt(v: nat, shift: nat)
    ensures v % 128 * Pow2(shift) + v / 128 * Pow2(shift + 7) == v * Pow2(shift)
    ensures v % 128 * Pow2(shift) <= v * Pow2(shift)
    ensures v / 128 * Pow2(shift + 7) <= v * Pow2(shift)
    ensures v < 128 ==> v % 128 * Pow2(shift) == v * Pow2(shift)
  {
    Pow2Add7(shift);
    ScaledDigits(v, Pow2(shift));
  }

  lemma MulMonotoneBoth(a: nat, b: nat, p: nat, q: nat)
    requires a <= b && p <= q
    ensures a * p <= b * q
  {
    assert a * p <= b * p <= b * q;
  }

  /** A number of two or more digits leaves room for another seven bits. */
  lemma ShiftRoom(v: nat, shift: nat)
    requires v >= 128 && v * Pow2(shift) < TWO_TO_THE_64
    ensures shift < 57
  {
    if shift >= 57 {
      Pow2Monotone(57, shift);
      Pow2Add7(57);
      Pow2Of64();
      MulMonotoneBoth(128, v, Pow2(57), Pow2(shift));
      assert false;
    }
  }

  /** Byte i of a varint holds bits 7i to 7i+6, and its top bit says whether another byte follows. */
  lemma {:induction false} VarintAt(v: nat, i: nat)
    requires i < |Varint(v)|
    ensures Varint(v)[i] % 128 == v / Pow2(7 * i) % 128
    ensures Varint(v)[i] >= 128 <==> i + 1 < |Varint(v)|
  {
    if i > 0 {
      VarintAt(v / 128, i - 1);
      Pow2Add7(7 * (i - 1));
      DivTwice(v, 128, Pow2(7 * (i - 1)));
    }
  }

  /** A varint has no more bytes than it needs. */
  lemma {:induction false} VarintShortest(v: nat)
    ensures |Varint(v)| > 1 ==> v >= Pow2(7 * (|Varint(v)| - 1))
  {
    if v >= 128 {
      VarintShortest(v / 128);
      var n := |Varint(v / 128)|;
      Pow2Add7(7 * (n - 1));
    }
  }

  lemma ReadDigit(bs: seq<byte>, shift: nat, acc: nat, digit: nat)
    requires bs != [] && shift <= 63 && bs[0] % 128 == digit && digit * Pow2(shift) < TWO_TO_THE_64
    ensures var next := acc + digit * Pow2(shift);
            ReadVarint(bs, shift, acc) ==
              if bs[0] < 128 then Some((next, 1))
              else
                match ReadVarint(bs[1..], shift + 7, next)
                case None => None
                case Some((value, n)) => Some((value, n + 1))
  {
    SmallMod(digit * Pow2(shift), TWO_TO_THE_64);
  }

  lemma SmallMod(x: nat, m: nat)
    requires x < m
    ensures x % m == x
  {
  }

  lemma VarintDigits(v: nat, rest: seq<byte>)
    ensures var bs := Varint(v) + rest;
            && bs[0] % 128 == v % 128 && (bs[0] < 128 <==> v < 128)
            && (v >= 128 ==> bs[1..] == Varint(v / 128) + rest && |Varint(v)| == 1 + |Varint(v / 128)|)
            && (v < 128 ==> |Varint(v)| == 1)
  {
    if v >= 128 {
      AfterFirst(128 + v % 128, Varint(v / 128), rest);
    }
  }

  lemma AfterFirst(b: byte, more: seq<byte>, rest: seq<byte>)
    ensures var bs := ([b] + more) + rest; bs[0] == b && bs[1..] == more + rest
  {
  }

  lemma {:induction false} VarintRead(v: nat, rest: seq<byte>, shift: nat, acc: nat)
    requires shift % 7 == 0 && shift <= 63 && v * Pow2(shift) < TWO_TO_THE_64
    ensures ReadVarint(Varint(v) + rest, shift, acc) == Some((acc + v * Pow2(shift), |Varint(v)|))
    decreases v
  {
    DigitsAt(v, shift);
    VarintDigits(v, rest);
    ReadDigit(Varint(v) + rest, shift, acc, v % 128);
    if v >= 128 {
      ShiftRoom(v, shift);
      VarintRead(v / 128, rest, shift + 7, acc + v % 128 * Pow2(shift));
    }
  }

  /** Every 64-bit number reads back, with whatever follows it left unread. */
  lemma VarintRoundTrip(v: nat, rest: seq<byte>)
    requires v < TWO_TO_THE_64
    ensures ReadVarint(Varint(v) + rest, 0, 0) == Some((v, |Varint(v)|))
  {
    assert v * Pow2(0) == v;
    VarintRead(v, rest, 0, 0);
  }

  // ---- Loops over byte arrays ------------------------------------------------------------------------

  /** s with the bytes from `at` on replaced by bs. */
  function Patched(s: seq<byte>, at: nat, bs: seq<byte>): (r: seq<byte>)
    requires at + |bs| <= |s|
    ensures |r| == |s|
  {
    s[..at] + bs + s[at + |bs|..]
  }

  lemma PatchedTwice(s: seq<byte>, at: nat, a: seq<byte>, b: seq<byte>)
    requires at + |a| + |b| <= |s|
    ensures Patched(Patched(s, at, a), at + |a|, b) == Patched(s, at, a + b)
  {
    var once := Patched(s, at, a);
    assert once[..at + |a|] == s[..at] + a;
    assert once[at + |a| + |b|..] == s[at + |a| + |b|..];
  }

  lemma PatchNext(s: seq<byte>, at: nat, done: seq<byte>, b: byte)
    requires at + |done| < |s|
    ensures Patched(s, at, done)[at + |done| := b] == Patched(s, at, done + [b])
  {
    PatchedTwice(s, at, done, [b]);
  }

  method WriteBytes(a: array<byte>, at: nat, bs: seq<byte>)
    requires at + |bs| <= a.Length
    modifies a
    ensures a[..] == Patched(old(a[..]), at, bs)
  {
    for i := 0 to |bs|
      invariant a[..] == Patched(old(a[..]), at, bs[..i])
    {
      assert bs[..i + 1] == bs[..i] + [bs[i]];
      PatchNext(old(a[..]), at, bs[..i], bs[i]);
      a[at + i] := bs[i];
    }
    assert bs[..|bs|] == bs;
  }

  method PutByte(dst: array<byte>, at: nat, b: byte)
    requires at < dst.Length
    modifies dst
    ensures dst[..] == old(dst[..])[at := b]
  {
    dst[at] := b;
  }

  method EncodeVarint64(dst: array<byte>, at: nat, v: nat) returns (end: nat)
    requires at + |Varint(v)| <= dst.Length
    modifies dst
    ensures end == at + |Varint(v)|
    ensures dst[..] == Patched(old(dst[..]), at, Varint(v))
  {
    var rest := v;
    end := at;
    ghost var done: seq<byte> := [];
    while rest >= 128
      invariant end == at + |done| && at + |done| + |Varint(rest)| <= dst.Length
      invariant Varint(v) == done + Varint(rest)
      invariant dst[..] == Patched(old(dst[..]), at, done)
      decreases rest
    {
      MoveFirst(Varint(v), done, 128 + rest % 128, Varint(rest / 128));
      PatchNext(old(dst[..]), at, done, rest % 128 + 128);
      PutByte(dst, end, rest % 128 + 128);
      done := done + [rest % 128 + 128];
      rest := rest / 128;
      end := end + 1;
    }
    PatchNext(old(dst[..]), at, done, rest);
    PutByte(dst, end, rest);
    end := end + 1;
  }

  method VarintLength(v: nat) returns (len: nat)
    ensures len == |Varint(v)|
  {
    len := 1;
    var rest := v;
    while rest >= 128
      invariant len - 1 + |Varint(rest)| == |Varint(v)|
      decreases rest
    {
      rest := rest / 128;
      len := len + 1;
    }
  }

  method GetVarint64(bs: seq<byte>, p: nat) returns (r: Option<(nat, nat)>)
    requires p <= |bs|
    ensures r == ReadVarint(bs[p..], 0, 0)
  {
    var result: nat, shift: nat, q := 0, 0, p;
    while shift <= 63 && q < |bs|
      invariant p <= q <= |bs|
      invariant ReadVarint(bs[p..], 0, 0) ==
                match ReadVarint(bs[q..], shift, result)
                case None => None
                case Some((value, n)) => Some((value, n + (q - p)))
      decreases |bs| - q
    {
      var b := bs[q];
      assert bs[q..][0] == b && bs[q..][1..] == bs[q + 1..];
      q := q + 1;
      result := result + (b % 128 * Pow2(shift)) % TWO_TO_THE_64;
      if b < 128 {
        return Some((result, q - p));
      }
      shift := shift + 7;
    }
    return None;
  }
}
