/** The bytes of a string tensor, place by place. */
module StringLayout {
  import opened MachineNumbers
  import opened Sequences
  import opened Varint
  import opened StringFormat
  import opened StringTensor

  // ----- lengths

  /** As many groups of seven bits as the number needs, and at least one. */
  lemma {:induction false} EncodingIsShortest(v: nat)
    ensures v < Pow128(|Encoding(v)|) && (|Encoding(v)| > 1 ==> Pow128(|Encoding(v)| - 1) <= v)
  {
    var n := |Encoding(v)|;
    if v < 128 {
      assert Pow128(1) == 128 * Pow128(0);
    } else {
      EncodingIsShortest(v / 128);
      if n == 2 {
        assert Pow128(1) == 128 * Pow128(0);
      }
    }
  }

  /** The bytes of a length: its groups of seven bits, lowest first, all marked but the last, no more than needed. */
  ghost predicate IsLength(e: seq<byte>, v: nat) {
    && IsVarint(e) && GroupValue(e) == v
    && v < Pow128(|e|) && (|e| > 1 ==> Pow128(|e| - 1) <= v)
  }

  lemma {:induction false} EncodingGroups(v: nat)
    ensures IsVarint(Encoding(v)) && GroupValue(Encoding(v)) == v
  {
    var e := Encoding(v);
    if v < 128 {
      assert e[1..] == [];
    } else {
      EncodingGroups(v / 128);
      assert e[1..] == Encoding(v / 128);
    }
  }

  lemma SplitGroup(low: nat, rest: nat)
    requires low < 128
    ensures (low + 128 * rest) / 128 == rest && (low + 128 * rest) % 128 == low
  {
  }

  /** The groups of a varint with more than one: the first one and the others. */
  lemma FirstGroup(e: seq<byte>, v: nat)
    requires IsVarint(e) && |e| > 1 && GroupValue(e) == v && Pow128(|e| - 1) <= v
    ensures v >= 128 && e[0] == v % 128 + 128
    ensures IsVarint(e[1..]) && GroupValue(e[1..]) == v / 128 && Pow128(|e| - 2) <= v / 128
  {
    assert Pow128(|e| - 1) == 128 * Pow128(|e| - 2);
    SplitGroup(e[0] % 128, GroupValue(e[1..]));
  }

  /** There is only one way to write a length. */
  lemma {:induction false} OnlyEncoding(e: seq<byte>, v: nat)
    requires IsVarint(e) && GroupValue(e) == v && (|e| > 1 ==> Pow128(|e| - 1) <= v)
    ensures e == Encoding(v)
    decreases |e|
  {
    if |e| == 1 {
      assert e[1..] == [];
    } else {
      FirstGroup(e, v);
      OnlyEncoding(e[1..], v / 128);
      assert e == [e[0]] + e[1..];
    }
  }

  lemma LengthIsEncoding(e: seq<byte>, v: nat)
    ensures e == Encoding(v) <==> IsLength(e, v)
  {
    EncodingIsShortest(v);
    EncodingGroups(v);
    if IsLength(e, v) {
      OnlyEncoding(e, v);
    }
  }

  // ----- the layout

  /** How many bytes each string takes. */
  function Sizes(strings: seq<seq<byte>>): seq<nat> {
    seq(|strings|, i requires 0 <= i < |strings| => |Encoded(strings[i])|)
  }

  lemma {:induction false} DataIsSum(strings: seq<seq<byte>>, i: nat)
    requires i <= |strings|
    ensures |Data(Chunks(strings)[..i])| == Sum(Sizes(strings)[..i])
  {
    if i > 0 {
      DataIsSum(strings, i - 1);
      DataNext(Chunks(strings), i - 1);
      assert Sizes(strings)[..i][..i - 1] == Sizes(strings)[..i - 1];
    }
  }

  /** The length of the string takes n bytes, and the string is behind it. */
  ghost predicate StringAfter(bytes: seq<byte>, p: nat, n: nat, s: seq<byte>) {
    p + n + |s| <= |bytes| && IsLength(bytes[p..p + n], |s|) && bytes[p + n..p + n + |s|] == s
  }

  /** The string is there after its length. */
  ghost predicate IsStringAt(bytes: seq<byte>, p: nat, s: seq<byte>) {
    exists n: nat :: StringAfter(bytes, p, n, s)
  }

  lemma StringIsThere(bytes: seq<byte>, p: nat, s: seq<byte>)
    requires p + |Encoded(s)| <= |bytes| && bytes[p..p + |Encoded(s)|] == Encoded(s)
    ensures IsStringAt(bytes, p, s)
  {
    EncodedParts(bytes, p, s);
    LengthIsEncoding(Encoding(|s|), |s|);
    assert StringAfter(bytes, p, |Encoding(|s|)|, s);
  }

  /** Where string i starts, from the end of the words on. */
  function Start(strings: seq<seq<byte>>, i: nat): nat
    requires i <= |strings|
  {
    Sum(Sizes(strings)[..i])
  }

  lemma ChunkIsThere(m: Machine, chunks: seq<seq<byte>>, i: nat, s: seq<byte>)
    requires i < |chunks| && chunks[i] == Encoded(s)
    ensures IsStringAt(TensorBytes(m, chunks), 8 * |chunks| + |Data(chunks[..i])|, s)
  {
    StringAt(m, chunks, i);
    StringIsThere(TensorBytes(m, chunks), 8 * |chunks| + |Data(chunks[..i])|, s);
  }

  /** Word i of a tensor is the number of bytes of the strings before string i. */
  lemma WordLayout(m: Machine, strings: seq<seq<byte>>, i: nat)
    requires i < |strings|
    ensures TensorBytes(m, Chunks(strings))[8 * i..8 * i + 8] == m.put(Start(strings, i))
  {
    DataIsSum(strings, i);
    OffsetAt(m, Chunks(strings), i);
  }

  /** String i stands that far behind the words. */
  lemma TensorLayout(m: Machine, strings: seq<seq<byte>>, i: nat)
    requires i < |strings|
    ensures TensorBytes(m, Chunks(strings))[8 * i..8 * i + 8] == m.put(Start(strings, i))
    ensures IsStringAt(TensorBytes(m, Chunks(strings)), 8 * |strings| + Start(strings, i), strings[i])
  {
    WordLayout(m, strings, i);
    DataIsSum(strings, i);
    ChunkIsThere(m, Chunks(strings), i, strings[i]);
  }

  /** And nothing else. */
  lemma TensorSize(m: Machine, strings: seq<seq<byte>>)
    ensures |TensorBytes(m, Chunks(strings))| == 8 * |strings| + Start(strings, |strings|)
  {
    DataIsSum(strings, |strings|);
    assert Chunks(strings)[..|strings|] == Chunks(strings);
  }
}
