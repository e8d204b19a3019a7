/** String tensors in the C interface: TF_StringEncode and TF_StringDecode for one string, and the conversions between
    a tensor of strings and its byte buffer. */
module StringTensor {
  import opened MachineNumbers
  import opened Sequences
  import opened Varint
  import opened StringFormat

  /** A string after its length. */
  function Encoded(s: seq<byte>): (r: seq<byte>)
    ensures |r| == |Encoding(|s|)| + |s|
  {
    Encoding(|s|) + s
  }

  function Chunks(strings: seq<seq<byte>>): (r: seq<seq<byte>>)
    ensures |r| == |strings|
  {
    seq(|strings|, i requires 0 <= i < |strings| => Encoded(strings[i]))
  }

  datatype Error = TooLarge | TooSmall | BadVarint | TooShort | OutOfRange | WrongSize

  datatype Result<T> = Ok(value: T) | Err(error: Error)

  // ----- one string

  /** The size is computed in 64 bits and may wrap around. */
  method StringEncodedSize(len: nat) returns (size: nat)
    ensures size == (|Encoding(len)| + len) % TWO_64
  {
    var n := VarintLength(len);
    size := (n + len) % TWO_64;
  }

  method CopyBytes(src: seq<byte>, dst: array<byte>, pos: nat)
    requires pos + |src| <= dst.Length
    modifies dst
    ensures Overwritten(old(dst[..]), dst[..], pos, src)
  {
    forall k | 0 <= k < |src| {
      dst[pos + k] := src[k];
    }
    assert dst[pos..pos + |src|] == src;
    assert dst[..pos] == old(dst[..pos]) && dst[pos + |src|..] == old(dst[pos + |src|..]);
  }

  /** Writes a string; fails if its encoding has no 64-bit size or does not fit. */
  method StringEncode(src: seq<byte>, dst: array<byte>, pos: nat, dstLen: nat) returns (r: Result<nat>)
    requires |src| < TWO_64 && dstLen < TWO_64 && pos + dstLen <= dst.Length
    modifies dst
    ensures r.Ok? <==> |Encoded(src)| <= dstLen
    ensures r.Ok? ==> r.value == |Encoded(src)| && Overwritten(old(dst[..]), dst[..], pos, Encoded(src))
    ensures r.Err? ==> dst[..] == old(dst[..]) && r.error == if |Encoded(src)| >= TWO_64 then TooLarge else TooSmall
  {
    EncodingFits(|src|);
    var size := StringEncodedSize(|src|);
    if size < |src| {
      return Err(TooLarge);
    }
    if dstLen < size {
      return Err(TooSmall);
    }
    var next := EncodeVarint64(dst, pos, |src|);
    ghost var between := dst[..];
    CopyBytes(src, dst, next);
    OverwrittenTwice(old(dst[..]), between, dst[..], pos, Encoding(|src|), src);
    r := Ok(size);
  }

  /** Where the string that is encoded at pos starts, and how long it is. */
  function Find(bytes: seq<byte>, pos: nat, limit: nat): Result<(nat, nat)>
    requires limit <= |bytes|
  {
    var (ok, len, start) := Read(bytes, pos, limit, 0, 0);
    if ok then Ok((start, len)) else Err(BadVarint)
  }

  /** Finds a string. Its end is not compared with the limit. */
  method StringDecode(src: array<byte>, pos: nat, limit: nat) returns (r: Result<(nat, nat)>)
    requires pos <= limit <= src.Length
    ensures r == Find(src[..], pos, limit)
  {
    var ok, len, start := GetVarint64Ptr(src, pos, limit);
    r := if ok then Ok((start, len)) else Err(BadVarint);
  }

  /** Decoding an encoded string finds it. */
  lemma StringRoundTrip(bytes: seq<byte>, pos: nat, limit: nat, s: seq<byte>)
    requires |s| < TWO_64 && pos + |Encoded(s)| <= limit <= |bytes| && bytes[pos..pos + |Encoded(s)|] == Encoded(s)
    ensures Find(bytes, pos, limit) == Ok((pos + |Encoding(|s|)|, |s|))
    ensures bytes[pos + |Encoding(|s|)|..pos + |Encoding(|s|)| + |s|] == s
  {
    EncodedParts(bytes, pos, s);
    ReadWritten(bytes, pos, limit, |s|);
  }

  lemma EncodedParts(bytes: seq<byte>, pos: nat, s: seq<byte>)
    requires pos + |Encoded(s)| <= |bytes| && bytes[pos..pos + |Encoded(s)|] == Encoded(s)
    ensures bytes[pos..pos + |Encoding(|s|)|] == Encoding(|s|)
    ensures bytes[pos + |Encoding(|s|)|..pos + |Encoding(|s|)| + |s|] == s
  {
    PartsOf(bytes, pos, Encoding(|s|), s);
  }

  lemma PartsOf(bytes: seq<byte>, pos: nat, a: seq<byte>, b: seq<byte>)
    requires pos + |a| + |b| <= |bytes| && bytes[pos..pos + |a| + |b|] == a + b
    ensures bytes[pos..pos + |a|] == a && bytes[pos + |a|..pos + |a| + |b|] == b
  {
    SplitSlice(bytes, pos, pos + |a|, pos + |a| + |b|);
    SameParts(bytes[pos..pos + |a|], bytes[pos + |a|..pos + |a| + |b|], a, b);
  }

  // ----- 64-bit words

  method PutWord(m: Machine, dst: array<byte>, pos: nat, x: nat)
    requires pos + 8 <= dst.Length
    modifies dst
    ensures Overwritten(old(dst[..]), dst[..], pos, m.put(x))
  {
    CopyBytes(m.put(x), dst, pos);
  }

  /** The offset of element i. */
  function OffsetOf(m: Machine, bytes: seq<byte>, i: nat): nat
    requires 8 * i + 8 <= |bytes|
  {
    m.get(bytes[8 * i..8 * i + 8])
  }

  method GetOffset(m: Machine, src: array<byte>, i: nat) returns (offset: nat)
    requires 8 * i + 8 <= src.Length
    ensures offset == OffsetOf(m, src[..], i)
  {
    assert src[8 * i..8 * i + 8] == src[..][8 * i..8 * i + 8];
    offset := m.get(src[8 * i..8 * i + 8]);
  }

  // ----- encoding a tensor

  /** Adds the sizes of an offset and a string, in 64 bits. */
  method AddSize(size: nat, n: nat) returns (sum: nat)
    requires size + 8 + n < TWO_64
    ensures sum == size + 8 + n
  {
    sum := (size + (8 + n) % TWO_64) % TWO_64;
  }

  method SizeOf(s: seq<byte>, ghost chunk: seq<byte>) returns (n: nat)
    requires chunk == Encoded(s) && |chunk| < TWO_64
    ensures n == |chunk|
  {
    n := StringEncodedSize(|s|);
  }

  /** The first loop: bytes needed for encoding. */
  method EncodedTensorSize(strings: seq<seq<byte>>, ghost chunks: seq<seq<byte>>) returns (size: nat)
    requires chunks == Chunks(strings) && 8 * |chunks| + |Data(chunks)| < TWO_64
    ensures size == 8 * |chunks| + |Data(chunks)|
  {
    size := 0;
    for i := 0 to |strings|
      invariant size == 8 * i + |Data(chunks[..i])|
    {
      StringFits(chunks, i);
      DataNext(chunks, i);
      var n := SizeOf(strings[i], chunks[i]);
      size := AddSize(size, n);
    }
    assert chunks[..|strings|] == chunks;
  }

  /** Writes offset i of n. */
  method PutOffset(m: Machine, ghost chunks: seq<seq<byte>>, ghost n: nat, i: nat, base: array<byte>, offset: nat)
    requires i < |chunks| && i < n && 8 * n <= base.Length
    requires Filled(m, base[..], chunks, n, i) && offset == |Data(chunks[..i])|
    modifies base
    ensures OffsetsFilled(m, base[..], chunks, i + 1) && DataFilled(base[..], chunks, n, i)
  {
    ghost var before := base[..];
    PutWord(m, base, 8 * i, offset);
    WordWritten(m, chunks, n, i, before, base[..]);
  }

  /** Writes string i of n. */
  method PutString(ghost m: Machine, s: seq<byte>, ghost chunks: seq<seq<byte>>, ghost n: nat, ghost i: nat,
                   base: array<byte>, dst: nat, dstLen: nat)
    returns (r: Result<nat>)
    requires i < |chunks| && i < n && chunks[i] == Encoded(s)
    requires OffsetsFilled(m, base[..], chunks, i + 1) && DataFilled(base[..], chunks, n, i)
    requires dst == 8 * n + |Data(chunks[..i])| && dst + dstLen <= base.Length && dstLen < TWO_64
    requires |s| < TWO_64
    modifies base
    ensures r.Ok? <==> |chunks[i]| <= dstLen
    ensures r.Ok? ==> r.value == |chunks[i]| && Filled(m, base[..], chunks, n, i + 1)
  {
    ghost var before := base[..];
    r := StringEncode(s, base, dst, dstLen);
    if r.Ok? {
      StringWritten(m, chunks, n, i, before, base[..]);
    }
  }

  /** One turn of the second loop: writes offset i and string i. */
  method EncodeElement(m: Machine, s: seq<byte>, ghost chunks: seq<seq<byte>>, i: nat, base: array<byte>,
                       start: nat, dst: nat, dstLen: nat)
    returns (r: Result<nat>)
    requires i < |chunks| && chunks[i] == Encoded(s) && base.Length == 8 * |chunks| + |Data(chunks)| < TWO_64
    requires Filled(m, base[..], chunks, |chunks|, i) && start == 8 * |chunks|
    requires dst == start + |Data(chunks[..i])| && dstLen == base.Length - dst
    modifies base
    ensures r == Ok(|chunks[i]|) && Filled(m, base[..], chunks, |chunks|, i + 1)
  {
    StringFits(chunks, i);
    PutOffset(m, chunks, |chunks|, i, base, dst - start);
    r := PutString(m, s, chunks, |chunks|, i, base, dst, dstLen);
  }

  /** Encodes the strings of a tensor; a tensor without elements gets an empty buffer. */
  method FromTensor(m: Machine, strings: seq<seq<byte>>) returns (r: Result<array<byte>>)
    requires |TensorBytes(m, Chunks(strings))| < TWO_64
    ensures r.Ok? && fresh(r.value) && r.value[..] == TensorBytes(m, Chunks(strings))
  {
    ghost var chunks := Chunks(strings);
    if |strings| == 0 {
      var empty := new byte[0];
      return Ok(empty);
    }
    var size := EncodedTensorSize(strings, chunks);
    var base := new byte[size];
    var start := 8 * |strings|;
    var dst, dstLen := start, size - start;
    assert base[0..0] == [] && base[start..start] == [];
    for i := 0 to |strings|
      invariant dst == start + |Data(chunks[..i])| && dstLen == size - dst
      invariant Filled(m, base[..], chunks, |chunks|, i)
    {
      DataNext(chunks, i);
      var consumed := EncodeElement(m, strings[i], chunks, i, base, start, dst, dstLen);
      match consumed {
        case Err(e) => return Err(e);
        case Ok(n) => dst, dstLen := dst + n, dstLen - n;
      }
    }
    assert chunks[..|strings|] == chunks;
    if dst != size {
      return Err(WrongSize);
    }
    FilledAll(m, base[..], chunks);
    r := Ok(base);
  }

  // ----- decoding a tensor

  /** Where element i of n starts in the bytes of a tensor, and how long it is. */
  function Locate(m: Machine, bytes: seq<byte>, n: nat, i: nat): Result<(nat, nat)>
    requires i < n && 8 * n <= |bytes|
  {
    var offset := OffsetOf(m, bytes, i);
    if offset >= |bytes| - 8 * n then Err(OutOfRange)
    else Find(bytes, 8 * n + offset, |bytes|)
  }

  predicate Located(m: Machine, bytes: seq<byte>, n: nat, i: nat)
    requires i < n && 8 * n <= |bytes|
  {
    Locate(m, bytes, n, i).Ok?
  }

  /** The element ends in the buffer, and its offset is positive as a signed number. The decoder takes both for
      granted. */
  predicate EndsInside(m: Machine, bytes: seq<byte>, n: nat, i: nat)
    requires i < n && 8 * n <= |bytes|
  {
    var r := Locate(m, bytes, n, i);
    OffsetOf(m, bytes, i) < TWO_63 && (r.Ok? ==> r.value.0 + r.value.1 <= |bytes|)
  }

  /** All n elements are found where the bytes say, and they are these strings. */
  ghost predicate Holds(m: Machine, bytes: seq<byte>, strings: seq<seq<byte>>) {
    8 * |strings| <= |bytes| && forall i :: 0 <= i < |strings| ==> HoldsAt(m, bytes, |strings|, i, strings[i])
  }

  ghost predicate HoldsAt(m: Machine, bytes: seq<byte>, n: nat, i: nat, s: seq<byte>)
    requires i < n && 8 * n <= |bytes|
  {
    var found := Locate(m, bytes, n, i);
    found.Ok? && var (p, len) := found.value; len == |s| && p + len <= |bytes| && bytes[p..p + len] == s
  }

  method LocateElement(m: Machine, src: array<byte>, n: nat, i: nat) returns (r: Result<(nat, nat)>)
    requires i < n && 8 * n <= src.Length
    ensures r == Locate(m, src[..], n, i)
  {
    var offset := GetOffset(m, src, i);
    if offset >= src.Length - 8 * n {
      return Err(OutOfRange);
    }
    r := StringDecode(src, 8 * n + offset, src.Length);
  }

  method DecodeElement(m: Machine, src: array<byte>, n: nat, i: nat) returns (r: Result<seq<byte>>)
    requires i < n && 8 * n <= src.Length && EndsInside(m, src[..], n, i)
    ensures r.Ok? <==> Located(m, src[..], n, i)
    ensures r.Err? ==> Locate(m, src[..], n, i) == Err(r.error)
    ensures r.Ok? ==> HoldsAt(m, src[..], n, i, r.value)
  {
    var found := LocateElement(m, src, n, i);
    match found {
      case Err(e) => r := Err(e);
      case Ok((p, len)) => r := Ok(src[..][p..p + len]);
    }
  }

  ghost predicate FirstHold(m: Machine, bytes: seq<byte>, n: nat, decoded: seq<seq<byte>>)
    requires 8 * n <= |bytes| && |decoded| <= n
  {
    forall k :: 0 <= k < |decoded| ==> Located(m, bytes, n, k) && HoldsAt(m, bytes, n, k, decoded[k])
  }

  /** The error is that of the first element that cannot be found: its offset is behind the data, or there is no varint
      at its offset. */
  ghost predicate Misses(m: Machine, bytes: seq<byte>, n: nat, error: Error)
    requires 8 * n <= |bytes|
  {
    exists i: nat :: i < n && FirstMissing(m, bytes, n, i, error)
  }

  ghost predicate FirstMissing(m: Machine, bytes: seq<byte>, n: nat, i: nat, error: Error)
    requires i < n && 8 * n <= |bytes|
  {
    && !Located(m, bytes, n, i) && (forall k :: 0 <= k < i ==> Located(m, bytes, n, k))
    && error == if 8 * n + m.get(bytes[8 * i..8 * i + 8]) >= |bytes| then OutOfRange else BadVarint
  }

  /** Decodes a tensor with n elements; fails if the offsets do not fit, or one element cannot be found. */
  method ToTensor(m: Machine, src: array<byte>, n: nat) returns (r: Result<seq<seq<byte>>>)
    requires 8 * n <= src.Length ==> forall i :: 0 <= i < n ==> EndsInside(m, src[..], n, i)
    ensures r.Ok? <==> 8 * n <= src.Length && forall i :: 0 <= i < n ==> Located(m, src[..], n, i)
    ensures r.Ok? ==> |r.value| == n && Holds(m, src[..], r.value)
    ensures r.Err? ==> if 8 * n > src.Length then r.error == TooShort else Misses(m, src[..], n, r.error)
  {
    if src.Length / 8 < n {
      return Err(TooShort);
    }
    var decoded: seq<seq<byte>> := [];
    for i := 0 to n
      invariant |decoded| == i && FirstHold(m, src[..], n, decoded)
    {
      var s := DecodeElement(m, src, n, i);
      match s {
        case Err(e) =>
          assert FirstMissing(m, src[..], n, i, e);
          return Err(e);
        case Ok(element) => decoded := decoded + [element];
      }
    }
    r := Ok(decoded);
  }

  // ----- the round trip

  /** The bytes of an encoded tensor hold its strings. */
  lemma EncodedHolds(m: Machine, strings: seq<seq<byte>>)
    requires |TensorBytes(m, Chunks(strings))| < TWO_64
    ensures Holds(m, TensorBytes(m, Chunks(strings)), strings)
  {
    var chunks := Chunks(strings);
    forall i | 0 <= i < |strings|
      ensures HoldsAt(m, TensorBytes(m, chunks), |strings|, i, strings[i])
    {
      EncodedHoldsAt(m, chunks, i, strings[i]);
    }
  }

  lemma EncodedHoldsAt(m: Machine, chunks: seq<seq<byte>>, i: nat, s: seq<byte>)
    requires |TensorBytes(m, chunks)| < TWO_64 && i < |chunks| && chunks[i] == Encoded(s)
    ensures HoldsAt(m, TensorBytes(m, chunks), |chunks|, i, s)
  {
    var bytes, offset := TensorBytes(m, chunks), |Data(chunks[..i])|;
    StringAt(m, chunks, i);
    OffsetAt(m, chunks, i);
    ChunkHolds(m, bytes, |chunks|, i, offset, s);
  }

  lemma ChunkHolds(m: Machine, bytes: seq<byte>, n: nat, i: nat, offset: nat, s: seq<byte>)
    requires i < n && 8 * n <= |bytes| && OffsetOf(m, bytes, i) == offset && |s| < TWO_64
    requires var p := 8 * n + offset;
             p + |Encoded(s)| <= |bytes| && bytes[p..p + |Encoded(s)|] == Encoded(s)
    ensures HoldsAt(m, bytes, n, i, s)
  {
    var p := 8 * n + offset;
    StringRoundTrip(bytes, p, |bytes|, s);
    FoundHolds(m, bytes, n, i, offset, p + |Encoding(|s|)|, s);
  }

  lemma FoundHolds(m: Machine, bytes: seq<byte>, n: nat, i: nat, offset: nat, start: nat, s: seq<byte>)
    requires i < n && 8 * n + offset < |bytes| && OffsetOf(m, bytes, i) == offset
    requires Find(bytes, 8 * n + offset, |bytes|) == Ok((start, |s|))
    requires start + |s| <= |bytes| && bytes[start..start + |s|] == s
    ensures HoldsAt(m, bytes, n, i, s)
  {
  }

  /** The bytes hold only one list of strings of a given length. */
  lemma HoldsUnique(m: Machine, bytes: seq<byte>, a: seq<seq<byte>>, b: seq<seq<byte>>)
    requires |a| == |b| && Holds(m, bytes, a) && Holds(m, bytes, b)
    ensures a == b
  {
    forall i | 0 <= i < |a|
      ensures a[i] == b[i]
    {
      assert HoldsAt(m, bytes, |a|, i, a[i]) && HoldsAt(m, bytes, |a|, i, b[i]);
    }
  }

  lemma HoldsLocated(m: Machine, bytes: seq<byte>, strings: seq<seq<byte>>)
    requires Holds(m, bytes, strings) && |bytes| < TWO_63
    ensures forall i :: 0 <= i < |strings| ==>
              Located(m, bytes, |strings|, i) && EndsInside(m, bytes, |strings|, i)
  {
    forall i | 0 <= i < |strings|
      ensures Located(m, bytes, |strings|, i) && EndsInside(m, bytes, |strings|, i)
    {
      assert HoldsAt(m, bytes, |strings|, i, strings[i]);
    }
  }

  /** Decoding what has been encoded gives back the strings. */
  method EncodeDecode(m: Machine, strings: seq<seq<byte>>) returns (r: Result<seq<seq<byte>>>)
    requires |TensorBytes(m, Chunks(strings))| < TWO_63
    ensures r == Ok(strings)
  {
    var encoded := FromTensor(m, strings);
    EncodedHolds(m, strings);
    HoldsLocated(m, encoded.value[..], strings);
    r := ToTensor(m, encoded.value, |strings|);
    HoldsUnique(m, encoded.value[..], r.value, strings);
  }
}
