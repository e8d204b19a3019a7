/** The wire format of string tensors: a table of offsets, followed by the strings, each after its length. The byte
    order of the offsets is that of the machine. */
module StringFormat {
  import opened MachineNumbers
  import opened Sequences
  import opened Varint

  // ----- 64-bit words in the byte order of the machine

  function LittleEndian(x: nat, n: nat): (r: seq<byte>)
    ensures |r| == n
  {
    if n == 0 then [] else [x % 256] + LittleEndian(x / 256, n - 1)
  }

  function FromLittleEndian(s: seq<byte>): nat {
    if s == [] then 0 else s[0] + 256 * FromLittleEndian(s[1..])
  }

  function Pow256(n: nat): (r: nat)
    ensures r >= 1
  {
    if n == 0 then 1 else 256 * Pow256(n - 1)
  }

  lemma {:induction false} LittleEndianRoundTrip(x: nat, n: nat)
    requires x < Pow256(n)
    ensures FromLittleEndian(LittleEndian(x, n)) == x
  {
    if n > 0 {
      LittleEndianRoundTrip(x / 256, n - 1);
      assert LittleEndian(x, n)[1..] == LittleEndian(x / 256, n - 1);
    }
  }

  lemma WordRoundTrip(x: nat)
    requires x < TWO_64
    ensures FromLittleEndian(LittleEndian(x, 8)) == x
  {
    assert Pow256(8) == 256 * 256 * 256 * 256 * Pow256(4);
    LittleEndianRoundTrip(x, 8);
  }

  /** How a machine keeps 64-bit numbers in 8 bytes. */
  datatype Words = Words(put: nat -> seq<byte>, get: seq<byte> -> nat)

  ghost predicate GoodWords(w: Words) {
    (forall x: nat :: |w.put(x)| == 8) && (forall x: nat :: x < TWO_64 ==> w.get(w.put(x)) == x)
  }

  type Machine = w: Words | GoodWords(w) witness Little()

  function Little(): (w: Words)
    ensures GoodWords(w)
  {
    var w := Words(x => LittleEndian(x, 8), s => FromLittleEndian(s));
    assert GoodWords(w) by {
      forall x: nat | x < TWO_64
        ensures w.get(w.put(x)) == x
      {
        WordRoundTrip(x);
      }
    }
    w
  }

  // ----- the format

  /** All encoded strings, one after the other. */
  function Data(chunks: seq<seq<byte>>): seq<byte> {
    if chunks == [] then []
    else Data(chunks[..|chunks| - 1]) + chunks[|chunks| - 1]
  }

  /** Where each string starts in the data. */
  function Offsets(m: Machine, chunks: seq<seq<byte>>): (r: seq<byte>)
    ensures |r| == 8 * |chunks|
  {
    if chunks == [] then []
    else
      var before := chunks[..|chunks| - 1];
      Offsets(m, before) + m.put(|Data(before)|)
  }

  function TensorBytes(m: Machine, chunks: seq<seq<byte>>): (r: seq<byte>)
    ensures |r| == 8 * |chunks| + |Data(chunks)|
  {
    Offsets(m, chunks) + Data(chunks)
  }

  lemma DataNext(chunks: seq<seq<byte>>, i: nat)
    requires i < |chunks|
    ensures Data(chunks[..i + 1]) == Data(chunks[..i]) + chunks[i]
  {
    assert chunks[..i + 1][..i] == chunks[..i];
  }

  lemma OffsetsNext(m: Machine, chunks: seq<seq<byte>>, i: nat)
    requires i < |chunks|
    ensures Offsets(m, chunks[..i + 1]) == Offsets(m, chunks[..i]) + m.put(|Data(chunks[..i])|)
  {
    assert chunks[..i + 1][..i] == chunks[..i];
  }

  /** The data of the first chunks is a prefix of the data of all. */
  lemma {:induction false} DataPrefix(chunks: seq<seq<byte>>, i: nat)
    requires i <= |chunks|
    ensures Data(chunks[..i]) <= Data(chunks)
    decreases |chunks| - i
  {
    if i < |chunks| {
      DataNext(chunks, i);
      DataPrefix(chunks, i + 1);
    } else {
      assert chunks[..i] == chunks;
    }
  }

  lemma StringFits(chunks: seq<seq<byte>>, i: nat)
    requires i < |chunks|
    ensures |Data(chunks[..i])| + |chunks[i]| <= |Data(chunks)|
  {
    DataNext(chunks, i);
    DataPrefix(chunks, i + 1);
  }

  lemma {:induction false} OffsetsPrefix(m: Machine, chunks: seq<seq<byte>>, i: nat)
    requires i <= |chunks|
    ensures Offsets(m, chunks[..i]) <= Offsets(m, chunks)
    decreases |chunks| - i
  {
    if i < |chunks| {
      OffsetsNext(m, chunks, i);
      OffsetsPrefix(m, chunks, i + 1);
    } else {
      assert chunks[..i] == chunks;
    }
  }

  // ----- slices

  /** Where to find e if the second part starts with x + e. */
  lemma MiddleOfRight<T>(left: seq<T>, right: seq<T>, x: seq<T>, e: seq<T>)
    requires x + e <= right
    ensures (left + right)[|left| + |x|..|left| + |x| + |e|] == e
  {
    var p, q := |x|, |x| + |e|;
    assert (left + right)[|left| + p..|left| + q] == right[p..q] == (x + e)[p..q] == e;
  }

  lemma MiddleOfLeft<T>(left: seq<T>, right: seq<T>, x: seq<T>, e: seq<T>)
    requires x + e <= left
    ensures (left + right)[|x|..|x| + |e|] == e
  {
    var p, q := |x|, |x| + |e|;
    assert (left + right)[p..q] == left[p..q] == (x + e)[p..q] == e;
  }

  lemma Appended(b: seq<byte>, b': seq<byte>, from: nat, pos: nat, x: seq<byte>, chunk: seq<byte>)
    requires Overwritten(b, b', pos, chunk) && from <= pos && b[from..pos] == x
    ensures b'[from..pos + |chunk|] == x + chunk
  {
    OverwrittenElsewhere(b, b', pos, chunk, from, pos);
    SplitSlice(b', from, pos, pos + |chunk|);
  }

  /** Where to find the offset of string i. */
  lemma OffsetAt(m: Machine, chunks: seq<seq<byte>>, i: nat)
    requires i < |chunks|
    ensures TensorBytes(m, chunks)[8 * i..8 * i + 8] == m.put(|Data(chunks[..i])|)
  {
    OffsetsNext(m, chunks, i);
    OffsetsPrefix(m, chunks, i + 1);
    MiddleOfLeft(Offsets(m, chunks), Data(chunks), Offsets(m, chunks[..i]), m.put(|Data(chunks[..i])|));
  }

  /** Where to find string i. */
  lemma StringAt(m: Machine, chunks: seq<seq<byte>>, i: nat)
    requires i < |chunks|
    ensures var p := 8 * |chunks| + |Data(chunks[..i])|;
            var q := p + |chunks[i]|;
            q <= |TensorBytes(m, chunks)| && TensorBytes(m, chunks)[p..q] == chunks[i]
  {
    DataNext(chunks, i);
    DataPrefix(chunks, i + 1);
    MiddleOfRight(Offsets(m, chunks), Data(chunks), Data(chunks[..i]), chunks[i]);
  }

  /** The beginning of a tensor's bytes that the encoders have written when they have done i chunks. */
  ghost predicate Filled(m: Machine, bytes: seq<byte>, chunks: seq<seq<byte>>, n: nat, i: nat) {
    i <= |chunks| && i <= n && OffsetsFilled(m, bytes, chunks, i) && DataFilled(bytes, chunks, n, i)
  }

  ghost predicate OffsetsFilled(m: Machine, bytes: seq<byte>, chunks: seq<seq<byte>>, i: nat)
    requires i <= |chunks|
  {
    8 * i <= |bytes| && bytes[0..8 * i] == Offsets(m, chunks[..i])
  }

  ghost predicate DataFilled(bytes: seq<byte>, chunks: seq<seq<byte>>, n: nat, i: nat)
    requires i <= |chunks|
  {
    var end := 8 * n + |Data(chunks[..i])|;
    end <= |bytes| && bytes[8 * n..end] == Data(chunks[..i])
  }

  lemma WordWritten(m: Machine, chunks: seq<seq<byte>>, n: nat, i: nat, b: seq<byte>, b': seq<byte>)
    requires i < |chunks| && i < n && Filled(m, b, chunks, n, i)
    requires Overwritten(b, b', 8 * i, m.put(|Data(chunks[..i])|))
    ensures OffsetsFilled(m, b', chunks, i + 1) && DataFilled(b', chunks, n, i)
  {
    var word := m.put(|Data(chunks[..i])|);
    OffsetsNext(m, chunks, i);
    Appended(b, b', 0, 8 * i, Offsets(m, chunks[..i]), word);
    OverwrittenElsewhere(b, b', 8 * i, word, 8 * n, 8 * n + |Data(chunks[..i])|);
  }

  lemma StringWritten(m: Machine, chunks: seq<seq<byte>>, n: nat, i: nat, b: seq<byte>, b': seq<byte>)
    requires i < |chunks| && i < n && OffsetsFilled(m, b, chunks, i + 1) && DataFilled(b, chunks, n, i)
    requires Overwritten(b, b', 8 * n + |Data(chunks[..i])|, chunks[i])
    ensures Filled(m, b', chunks, n, i + 1)
  {
    OffsetsKept(m, chunks, i + 1, b, b', 8 * n + |Data(chunks[..i])|, chunks[i]);
    DataExtended(chunks, n, i, b, b');
  }

  lemma OffsetsKept(m: Machine, chunks: seq<seq<byte>>, i: nat, b: seq<byte>, b': seq<byte>, pos: nat, e: seq<byte>)
    requires i <= |chunks| && 8 * i <= pos && OffsetsFilled(m, b, chunks, i) && Overwritten(b, b', pos, e)
    ensures OffsetsFilled(m, b', chunks, i)
  {
    OverwrittenElsewhere(b, b', pos, e, 0, 8 * i);
  }

  lemma DataExtended(chunks: seq<seq<byte>>, n: nat, i: nat, b: seq<byte>, b': seq<byte>)
    requires i < |chunks| && DataFilled(b, chunks, n, i)
    requires Overwritten(b, b', 8 * n + |Data(chunks[..i])|, chunks[i])
    ensures DataFilled(b', chunks, n, i + 1)
  {
    DataNext(chunks, i);
    Appended(b, b', 8 * n, 8 * n + |Data(chunks[..i])|, Data(chunks[..i]), chunks[i]);
  }

  lemma FilledAll(m: Machine, bytes: seq<byte>, chunks: seq<seq<byte>>)
    requires |bytes| == 8 * |chunks| + |Data(chunks)| && Filled(m, bytes, chunks, |chunks|, |chunks|)
    ensures bytes == TensorBytes(m, chunks)
  {
    assert chunks[..|chunks|] == chunks;
    SplitSlice(bytes, 0, 8 * |chunks|, |bytes|);
    assert bytes[0..|bytes|] == bytes;
  }
}
