/**
 TF_STRING tensors in the C++ API (c_api.cc): a table of 64-bit offsets followed by the strings,
 each with its length as a varint.
 */
module StringTensor {
  import opened Bytes

  datatype Error =
    | TooLargeToEncode
    | DestinationTooSmall
    | TooShort
    | OffsetOutOfRange
    | BadEncoding
    | OutsideBuffer  // not an error of the source: it would read memory outside the tensor's buffer

  datatype Result<+T> = Ok(value: T) | Err(error: Error)

  type Text = seq<byte>

  // ---- The format -----------------------------------------------------------------------------------

  function Encoded(s: Text): (bs: seq<byte>)
    ensures |bs| > 0
  {
    Varint(|s|) + s
  }

  /** The string data. */
  function Data(ss: seq<Text>): (bs: seq<byte>)
    ensures |bs| >= |ss|
  {
    if ss == [] then [] else Data(ss[..|ss| - 1]) + Encoded(ss[|ss| - 1])
  }

  /** The table of offsets into the string data. */
  function Table(e: Endian, ss: seq<Text>): (bs: seq<byte>)
    ensures |bs| == 8 * |ss|
  {
    if ss == [] then []
    else Table(e, ss[..|ss| - 1]) + FixedWidth(e, |Data(ss[..|ss| - 1])|, 8)
  }

  function Buffer(e: Endian, ss: seq<Text>): seq<byte> {
    Table(e, ss) + Data(ss)
  }

  /** The whole tensor is no larger than an object can be, so that ptrdiff_t can index it. */
  predicate Fits(ss: seq<Text>) {
    8 * |ss| + |Data(ss)| < TWO_TO_THE_63
  }

  lemma DataPrefix(ss: seq<Text>, k: nat)
    requires k < |ss|
    ensures Data(ss[..k + 1]) == Data(ss[..k]) + Encoded(ss[k])
  {
    assert ss[..k + 1][..k] == ss[..k];
  }

  lemma TablePrefix(e: Endian, ss: seq<Text>, k: nat)
    requires k < |ss|
    ensures Table(e, ss[..k + 1]) == Table(e, ss[..k]) + FixedWidth(e, |Data(ss[..k])|, 8)
  {
    assert ss[..k + 1][..k] == ss[..k];
  }

  /** The data splits at string k: what precedes it, its encoding, and a rest. */
  lemma {:induction false} DataAt(ss: seq<Text>, k: nat) returns (rest: seq<byte>)
    requires k < |ss|
    ensures Data(ss) == Data(ss[..k]) + (Encoded(ss[k]) + rest)
  {
    var n := |ss| - 1;
    if k == n {
      rest := [];
      assert Encoded(ss[k]) + [] == Encoded(ss[k]);
    } else {
      assert ss[..n][..k] == ss[..k];
      rest := DataAt(ss[..n], k);
      var last := Encoded(ss[n]);
      assert (Data(ss[..k]) + (Encoded(ss[k]) + rest)) + last == Data(ss[..k]) + (Encoded(ss[k]) + (rest + last));
      rest := rest + last;
    }
  }

  lemma SliceOfAppend(a: seq<byte>, b: seq<byte>, from: nat, to: nat)
    requires from <= to <= |a|
    ensures (a + b)[from..to] == a[from..to]
  {
  }

  lemma EndOfAppend(a: seq<byte>, b: seq<byte>)
    ensures (a + b)[|a|..|a| + |b|] == b
  {
  }

  ghost predicate EntryAt(table: seq<byte>, k: nat, word: seq<byte>) {
    8 * k + 8 <= |table| && table[8 * k..8 * k + 8] == word
  }

  lemma EntryKept(table: seq<byte>, more: seq<byte>, k: nat, word: seq<byte>)
    requires EntryAt(table, k, word)
    ensures EntryAt(table + more, k, word)
  {
    SliceOfAppend(table, more, 8 * k, 8 * k + 8);
  }

  lemma EntryAdded(table: seq<byte>, k: nat, word: seq<byte>)
    requires |table| == 8 * k && |word| == 8
    ensures EntryAt(table + word, k, word)
  {
    EndOfAppend(table, word);
  }

  lemma TableKeeps(e: Endian, ss: seq<Text>, m: nat, k: nat, word: seq<byte>)
    requires m < |ss| && EntryAt(Table(e, ss[..m]), k, word)
    ensures EntryAt(Table(e, ss[..m + 1]), k, word)
  {
    TablePrefix(e, ss, m);
    EntryKept(Table(e, ss[..m]), FixedWidth(e, |Data(ss[..m])|, 8), k, word);
  }

  lemma TableAdds(e: Endian, ss: seq<Text>, m: nat)
    requires m < |ss|
    ensures EntryAt(Table(e, ss[..m + 1]), m, FixedWidth(e, |Data(ss[..m])|, 8))
  {
    TablePrefix(e, ss, m);
    EntryAdded(Table(e, ss[..m]), m, FixedWidth(e, |Data(ss[..m])|, 8));
  }

  /** Entry k of the table is the size of the data before string k. */
  lemma {:induction false} TableAt(e: Endian, ss: seq<Text>, k: nat, m: nat)
    requires k < m <= |ss|
    ensures EntryAt(Table(e, ss[..m]), k, FixedWidth(e, |Data(ss[..k])|, 8))
  {
    if k == m - 1 {
      TableAdds(e, ss, k);
    } else {
      TableAt(e, ss, k, m - 1);
      TableKeeps(e, ss, m - 1, k, FixedWidth(e, |Data(ss[..k])|, 8));
    }
  }

  lemma {:induction false} DataGrows(ss: seq<Text>, k: nat)
    requires k <= |ss|
    ensures |Data(ss[..k])| <= |Data(ss)|
  {
    if k == |ss| {
      assert ss[..k] == ss;
    } else {
      var rest := DataAt(ss, k);
    }
  }

  // ---- Encoding ----------------------------------------------------------------------------------------

  /** TF_StringEncodedSize, in size_t arithmetic. */
  method StringEncodedSize(len: nat) returns (size: nat)
    requires len < TWO_TO_THE_64
    ensures size == (|Varint(len)| + len) % TWO_TO_THE_64
  {
    var n := VarintLength(len);
    size := (n + len) % TWO_TO_THE_64;
  }

  lemma {:induction false} VarintShort(v: nat)
    ensures |Varint(v)| <= v / 128 + 1
  {
    if v >= 128 {
      VarintShort(v / 128);
    }
  }

  /** TF_StringEncode. Nothing is written on an error, nor outside [at, at + dstLen). */
  method StringEncode(src: Text, dst: array<byte>, at: nat, dstLen: nat) returns (r: Result<nat>)
    requires |src| < TWO_TO_THE_64 && at + dstLen <= dst.Length
    modifies dst
    ensures r.Ok? <==> |Encoded(src)| < TWO_TO_THE_64 && |Encoded(src)| <= dstLen
    ensures r.Ok? ==> r.value == |Encoded(src)|
    ensures r.Ok? ==> dst[..] == Patched(old(dst[..]), at, Encoded(src))
    ensures r.Err? ==> dst[..] == old(dst[..])
  {
    VarintShort(|src|);
    var sz := StringEncodedSize(|src|);
    if sz < |src| {
      return Err(TooLargeToEncode);
    }
    if dstLen < sz {
      return Err(DestinationTooSmall);
    }
    var end := EncodeVarint64(dst, at, |src|);
    WriteBytes(dst, end, src);
    PatchedTwice(old(dst[..]), at, Varint(|src|), src);
    return Ok(sz);
  }

  method BytesNeeded(src: seq<Text>) returns (size: nat)
    requires Fits(src)
    ensures size == 8 * |src| + |Data(src)|
  {
    size := 0;
    for i := 0 to |src|
      invariant size == 8 * i + |Data(src[..i])|
    {
      DataPrefix(src, i);
      DataGrows(src, i + 1);
      var encoded := StringEncodedSize(|src[i]|);
      size := size + 8 + encoded;
    }
    assert src[..|src|] == src;
  }

  /**
   TF_TensorFromTensor for strings. When the size fits, no error path is taken and the buffer of
   the computed size is filled exactly.
   */
  method TensorFromTensor(e: Endian, src: seq<Text>) returns (r: Result<array<byte>>)
    requires Fits(src)
    ensures r.Ok? && fresh(r.value)
    ensures r.value[..] == Buffer(e, src)
  {
    if |src| == 0 {
      var empty := new byte[0];
      return Ok(empty);
    }
    var size := BytesNeeded(src);
    var base := new byte[size];
    var dataStart := 8 * |src|;
    var dst, dstLen := dataStart, size - dataStart;
    ghost var table: seq<byte>, data: seq<byte> := [], [];
    for i := 0 to |src|
      invariant table == Table(e, src[..i]) && data == Data(src[..i])
      invariant dst == dataStart + |data| && dst + dstLen == size == base.Length
      invariant Holds(base[..], table, data, dataStart)
    {
      DataPrefix(src, i);
      DataGrows(src, i + 1);
      TablePrefix(e, src, i);
      var consumed := PutString(e, base, i, dataStart, dst, dstLen, src[i], table, data);
      if consumed.Err? {
        return Err(BadEncoding);
      }
      table, data := table + FixedWidth(e, |data|, 8), data + Encoded(src[i]);
      dst := dst + consumed.value;
      dstLen := dstLen - consumed.value;
    }
    assert src[..|src|] == src;
    if dst != size {
      return Err(BadEncoding);
    }
    HoldsAll(base[..], table, data);
    return Ok(base);
  }

  /** The table and the data written so far are in place. */
  ghost predicate Holds(buf: seq<byte>, table: seq<byte>, data: seq<byte>, dataStart: nat) {
    && |table| <= dataStart && dataStart + |data| <= |buf|
    && buf[..|table|] == table
    && buf[dataStart..dataStart + |data|] == data
  }

  lemma HoldsAll(buf: seq<byte>, table: seq<byte>, data: seq<byte>)
    requires Holds(buf, table, data, |table|) && |buf| == |table| + |data|
    ensures buf == table + data
  {
    assert buf == buf[..|table|] + buf[|table|..];
    assert buf[|table|..] == buf[|table|..|table| + |data|];
  }

  lemma HoldsMore(before: seq<byte>, middle: seq<byte>, after: seq<byte>, table: seq<byte>, t: seq<byte>,
                  data: seq<byte>, d: seq<byte>, dataStart: nat)
    requires Holds(before, table, data, dataStart)
    requires |table| + |t| <= dataStart && dataStart + |data| + |d| <= |before|
    requires middle == Patched(before, |table|, t) && after == Patched(middle, dataStart + |data|, d)
    ensures Holds(after, table + t, data + d, dataStart)
  {
    assert middle[..|table| + |t|] == table + t;
    assert middle[dataStart..dataStart + |data|] == data;
    assert after[..|table| + |t|] == middle[..|table| + |t|];
    assert after[dataStart..dataStart + |data|] == data;
  }

  /** One round of the encoding loop: the offset of a string, then the string. */
  method PutString(e: Endian, base: array<byte>, i: nat, dataStart: nat, dst: nat, dstLen: nat, s: Text,
                   ghost table: seq<byte>, ghost data: seq<byte>)
    returns (r: Result<nat>)
    requires |table| == 8 * i && dst == dataStart + |data| && dst + dstLen == base.Length
    requires Holds(base[..], table, data, dataStart) && 8 * i + 8 <= dataStart
    requires |s| < TWO_TO_THE_64 && |Encoded(s)| < TWO_TO_THE_64 && |Encoded(s)| <= dstLen
    modifies base
    ensures r == Ok(|Encoded(s)|)
    ensures Holds(base[..], table + FixedWidth(e, |data|, 8), data + Encoded(s), dataStart)
  {
    ghost var before := base[..];
    WriteBytes(base, 8 * i, FixedWidth(e, dst - dataStart, 8));
    ghost var middle := base[..];
    r := StringEncode(s, base, dst, dstLen);
    HoldsMore(before, middle, base[..], table, FixedWidth(e, |data|, 8), data, Encoded(s), dataStart);
  }

  // ---- Decoding ----------------------------------------------------------------------------------------

  /** TF_StringDecode_Impl on [p, |bs|): where the string starts and how long it claims to be. */
  function DecodeAt(bs: seq<byte>, p: nat): Result<(nat, nat)>
    requires p <= |bs|
  {
    match ReadVarint(bs[p..], 0, 0)
    case None => Err(BadEncoding)
    case Some((len, n)) => Ok((p + n, len))
  }

  method StringDecode(bs: seq<byte>, p: nat) returns (r: Result<(nat, nat)>)
    requires p <= |bs|
    ensures r == DecodeAt(bs, p)
  {
    var v := GetVarint64(bs, p);
    if v.None? {
      return Err(BadEncoding);
    }
    return Ok((p + v.value.1, v.value.0));
  }

  /** static_cast<ptrdiff_t> of an unsigned 64-bit number. */
  function Signed(x: nat): (r: int)
    ensures x < TWO_TO_THE_64 ==> -TWO_TO_THE_63 <= r < TWO_TO_THE_63 && (r - x) % TWO_TO_THE_64 == 0
  {
    if x >= TWO_TO_THE_63 then x - TWO_TO_THE_64 else x
  }

  /** The string at an offset into the data of a buffer that should hold n strings. */
  function StringAt(buf: seq<byte>, n: nat, offset: int): Result<Text>
    requires 8 * n <= |buf|
  {
    if offset >= |buf| - 8 * n then Err(OffsetOutOfRange)
    else if offset < -8 * n then Err(OutsideBuffer)
    else
      match DecodeAt(buf, 8 * n + offset)
      case Err(x) => Err(x)
      case Ok((p, len)) => if p + len <= |buf| then Ok(buf[p..p + len]) else Err(OutsideBuffer)
  }

  /** Element i of a buffer that should hold n strings. */
  function Element(e: Endian, buf: seq<byte>, n: nat, i: nat): Result<Text>
    requires i < n && 8 * n <= |buf|
  {
    StringAt(buf, n, Signed(ReadFixed(e, buf[8 * i..8 * i + 8])))
  }

  ghost predicate Decodes(e: Endian, buf: seq<byte>, n: nat, ss: seq<Text>) {
    8 * n <= |buf| && |ss| == n && forall i | 0 <= i < n :: Element(e, buf, n, i) == Ok(ss[i])
  }

  /** Element i is the first that does not decode, and this is its error. */
  ghost predicate FirstError(e: Endian, buf: seq<byte>, n: nat, i: nat, error: Error) {
    && i < n && 8 * n <= |buf| && Element(e, buf, n, i) == Err(error)
    && forall k | 0 <= k < i :: Element(e, buf, n, k).Ok?
  }

  /** TF_TensorToTensor for strings: every element, or the error of the first one that has one. */
  method TensorToTensor(e: Endian, buf: seq<byte>, numElements: nat) returns (r: Result<seq<Text>>)
    ensures r.Ok? ==> Decodes(e, buf, numElements, r.value)
    ensures |buf| / 8 < numElements ==> r == Err(TooShort)
    ensures r.Err? && |buf| / 8 >= numElements ==> exists i: nat :: FirstError(e, buf, numElements, i, r.error)
  {
    if |buf| / 8 < numElements {
      return Err(TooShort);
    }
    var out: seq<Text> := [];
    for i := 0 to numElements
      invariant |out| == i && forall k | 0 <= k < i :: Element(e, buf, numElements, k) == Ok(out[k])
    {
      var element := GetString(e, buf, numElements, i);
      if element.Err? {
        assert FirstError(e, buf, numElements, i, element.error);
        return Err(element.error);
      }
      out := out + [element.value];
    }
    return Ok(out);
  }

  /** One round of the decoding loop. */
  method GetString(e: Endian, buf: seq<byte>, numElements: nat, i: nat) returns (r: Result<Text>)
    requires i < numElements && 8 * numElements <= |buf|
    ensures r == Element(e, buf, numElements, i)
  {
    var offset := Signed(ReadFixed(e, buf[8 * i..8 * i + 8]));
    if offset >= |buf| - 8 * numElements {
      return Err(OffsetOutOfRange);
    }
    if offset < -8 * numElements {
      return Err(OutsideBuffer);
    }
    var found := StringDecode(buf, 8 * numElements + offset);
    if found.Err? {
      return Err(found.error);
    }
    var (p, len) := found.value;
    if p + len > |buf| {
      return Err(OutsideBuffer);
    }
    return Ok(buf[p..p + len]);
  }

  // ---- Round trip ----------------------------------------------------------------------------------------

  /** A string encoded at p is read back from p, entirely inside the buffer. */
  lemma DecodeEncoded(before: seq<byte>, s: Text, rest: seq<byte>)
    requires |s| < TWO_TO_THE_64
    ensures var buf := before + (Encoded(s) + rest);
            && DecodeAt(buf, |before|) == Ok((|before| + |Varint(|s|)|, |s|))
            && buf[|before| + |Varint(|s|)|..][..|s|] == s
  {
    var buf := before + (Encoded(s) + rest);
    assert buf[|before|..] == Encoded(s) + rest == Varint(|s|) + (s + rest);
    VarintRoundTrip(|s|, s + rest);
    assert buf[|before| + |Varint(|s|)|..] == s + rest;
  }

  lemma OffsetOfBuffer(e: Endian, ss: seq<Text>, i: nat)
    requires Fits(ss) && i < |ss|
    ensures 8 * |ss| <= |Buffer(e, ss)|
    ensures ReadFixed(e, Buffer(e, ss)[8 * i..8 * i + 8]) == |Data(ss[..i])|
  {
    TableAt(e, ss, i, |ss|);
    assert ss[..|ss|] == ss;
    SliceOfAppend(Table(e, ss), Data(ss), 8 * i, 8 * i + 8);
    Pow256Of8();
    DataGrows(ss, i);
    FixedRoundTrip(e, |Data(ss[..i])|, 8);
  }

  lemma StringInside(table: seq<byte>, head: seq<byte>, s: Text, rest: seq<byte>, n: nat)
    requires |s| < TWO_TO_THE_64 && |table| == 8 * n
    ensures StringAt(table + (head + (Encoded(s) + rest)), n, |head|) == Ok(s)
  {
    var before := table + head;
    var buf := before + (Encoded(s) + rest);
    DecodeEncoded(before, s, rest);
    var p := |before| + |Varint(|s|)|;
    assert buf[p..p + |s|] == buf[p..][..|s|];
    assert table + (head + (Encoded(s) + rest)) == buf;
  }

  lemma StringOfBuffer(table: seq<byte>, ss: seq<Text>, i: nat)
    requires Fits(ss) && i < |ss| && |table| == 8 * |ss|
    ensures |Data(ss[..i])| < |Data(ss)|
    ensures StringAt(table + Data(ss), |ss|, |Data(ss[..i])|) == Ok(ss[i])
  {
    var rest := DataAt(ss, i);
    StringInside(table, Data(ss[..i]), ss[i], rest, |ss|);
  }

  /** Every element of an encoded buffer decodes to its string, within the buffer. */
  lemma ElementOfBuffer(e: Endian, ss: seq<Text>, i: nat)
    requires Fits(ss) && i < |ss|
    ensures Element(e, Buffer(e, ss), |ss|, i) == Ok(ss[i])
  {
    OffsetOfBuffer(e, ss, i);
    StringOfBuffer(Table(e, ss), ss, i);
  }

  /**
   Round trip: whatever TF_TensorToTensor returns on a buffer filled by TF_TensorFromTensor is the
   list of strings that went in.
   */
  lemma RoundTrip(e: Endian, ss: seq<Text>, out: seq<Text>)
    requires Fits(ss)
    ensures Decodes(e, Buffer(e, ss), |ss|, ss)
    ensures Decodes(e, Buffer(e, ss), |ss|, out) ==> out == ss
  {
    forall i | 0 <= i < |ss| ensures Element(e, Buffer(e, ss), |ss|, i) == Ok(ss[i]) {
      ElementOfBuffer(e, ss, i);
    }
  }

  /** The two C API calls composed. */
  method EncodeThenDecode(e: Endian, ss: seq<Text>) returns (out: Result<seq<Text>>)
    requires Fits(ss)
    ensures out == Ok(ss)
  {
    var encoded := TensorFromTensor(e, ss);
    out := TensorToTensor(e, encoded.value[..], |ss|);
    RoundTrip(e, ss, if out.Ok? then out.value else []);
  }
}
