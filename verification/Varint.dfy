/** Base 128 varints in byte buffers: seven bits of the number in each byte, the lowest first, with the top bit
    of a byte set while more bytes follow. */
module Varint {
  import opened MachineNumbers

  type byte = x: int | 0 <= x < 256

  // ----- writing into buffers

  /** `after` is `before` with the chunk written at pos. */
  ghost predicate Overwritten(before: seq<byte>, after: seq<byte>, pos: nat, chunk: seq<byte>) {
    && |after| == |before| && pos + |chunk| <= |before|
    && after[pos..pos + |chunk|] == chunk
    && after[..pos] == before[..pos] && after[pos + |chunk|..] == before[pos + |chunk|..]
  }

  /** What lies outside the chunk stays. */
  lemma OverwrittenElsewhere(before: seq<byte>, after: seq<byte>, pos: nat, chunk: seq<byte>, a: nat, b: nat)
    requires Overwritten(before, after, pos, chunk) && a <= b <= |before|
    requires b <= pos || pos + |chunk| <= a
    ensures after[a..b] == before[a..b]
  {
    var q := pos + |chunk|;
    forall k | a <= k < b
      ensures after[k] == before[k]
    {
      if b <= pos {
        assert after[..pos][k] == before[..pos][k];
      } else {
        assert after[q..][k - q] == before[q..][k - q];
      }
    }
  }

  /** Writing two chunks one after the other is writing both at once. */
  lemma OverwrittenTwice(s: seq<byte>, s': seq<byte>, s'': seq<byte>, pos: nat, c: seq<byte>, c': seq<byte>)
    requires Overwritten(s, s', pos, c) && Overwritten(s', s'', pos + |c|, c')
    ensures Overwritten(s, s'', pos, c + c')
  {
    var q, r := pos + |c|, pos + |c| + |c'|;
    OverwrittenElsewhere(s', s'', q, c', 0, pos);
    OverwrittenElsewhere(s', s'', q, c', pos, q);
    OverwrittenElsewhere(s, s', pos, c, r, |s|);
    assert s''[pos..r] == s''[pos..q] + s''[q..r];
    assert s''[..pos] == s''[0..pos] && s'[..pos] == s'[0..pos];
    assert s''[r..] == s'[r..] && s'[r..] == s'[r..|s|] && s[r..] == s[r..|s|];
  }

  // ----- the format

  /** The varint of v: groups of 7 bits, low group first, with 128 added to all but the last. */
  function Encoding(v: nat): (r: seq<byte>)
    ensures |r| >= 1
  {
    if v < 128 then [v] else [v % 128 + 128] + Encoding(v / 128)
  }

  method VarintLength(v: nat) returns (len: nat)
    ensures len == |Encoding(v)|
  {
    len := 1;
    var w := v;
    while w >= 128
      invariant len + |Encoding(w)| == 1 + |Encoding(v)|
    {
      w := w / 128;
      len := len + 1;
    }
  }

  function Pow128(i: nat): (r: nat)
    ensures r >= 1
  {
    if i == 0 then 1 else 128 * Pow128(i - 1)
  }

  lemma {:induction false} EncodingLength(v: nat, n: nat)
    requires v < Pow128(n) && n > 0
    ensures |Encoding(v)| <= n
  {
    if v >= 128 {
      assert n > 1 by {
        assert Pow128(1) == 128 * Pow128(0);
      }
      EncodingLength(v / 128, n - 1);
    }
  }

  /** The varint of a 64-bit number has at most 10 bytes. */
  lemma EncodingFits(v: nat)
    requires v < TWO_64
    ensures |Encoding(v)| <= 10
  {
    assert Pow128(10) == 128 * 128 * 128 * 128 * 128 * Pow128(5);
    EncodingLength(v, 10);
  }

  method EncodeVarint64(dst: array<byte>, pos: nat, v: nat) returns (next: nat)
    requires pos + |Encoding(v)| <= dst.Length
    modifies dst
    ensures next == pos + |Encoding(v)| && Overwritten(old(dst[..]), dst[..], pos, Encoding(v))
  {
    var w := v;
    next := pos;
    ghost var written: seq<byte> := [];
    while w >= 128
      invariant next == pos + |written| && written + Encoding(w) == Encoding(v)
      invariant Overwritten(old(dst[..]), dst[..], pos, written)
      decreases w
    {
      PutByte(dst, next, w % 128 + 128, old(dst[..]), pos, written);
      written := written + [w % 128 + 128];
      w := w / 128;
      next := next + 1;
    }
    PutByte(dst, next, w, old(dst[..]), pos, written);
    next := next + 1;
  }

  method PutByte(dst: array<byte>, next: nat, b: byte, ghost start: seq<byte>, ghost pos: nat, ghost written: seq<byte>)
    requires next == pos + |written| < dst.Length && Overwritten(start, dst[..], pos, written)
    modifies dst
    ensures Overwritten(start, dst[..], pos, written + [b])
  {
    ghost var before := dst[..];
    dst[next] := b;
    assert Overwritten(before, dst[..], next, [b]);
    OverwrittenTwice(start, before, dst[..], pos, written, [b]);
  }

  // ----- reading

  /** x shifted left by i groups of 7 bits, in 64 bits. */
  function ShiftLeft(x: nat, i: nat): nat
    decreases i
  {
    if i == 0 then x % TWO_64 else ShiftLeft(x * 128 % TWO_64, i - 1)
  }

  /** x times 128, i times. */
  function Times128(x: nat, i: nat): (r: nat)
    ensures r >= x
    decreases i
  {
    if i == 0 then x else Times128(x * 128, i - 1)
  }

  /** The shift loses nothing if the product has 64 bits. */
  lemma {:induction false} ShiftLeftExact(x: nat, i: nat)
    requires Times128(x, i) < TWO_64
    ensures ShiftLeft(x, i) == Times128(x, i)
    decreases i
  {
    if i > 0 {
      ShiftLeftExact(x * 128, i - 1);
    }
  }

  lemma {:induction false} Times128Sum(x: nat, y: nat, i: nat)
    ensures Times128(x + y, i) == Times128(x, i) + Times128(y, i)
    decreases i
  {
    if i > 0 {
      Times128Sum(x * 128, y * 128, i - 1);
    }
  }

  /** Reading from group i on, with the value of the groups before it; at most 10 groups are read. */
  function Read(s: seq<byte>, p: nat, limit: nat, i: nat, value: nat): (r: (bool, nat, nat))
    requires limit <= |s|
    decreases 10 - i
  {
    if i >= 10 || p >= limit then (false, 0, p)
    else
      var next := value + ShiftLeft(s[p] % 128, i);
      if s[p] >= 128 then Read(s, p + 1, limit, i + 1, next) else (true, next, p + 1)
  }

  /** Reads a varint before the limit; fails if it does not end there or has more than 10 bytes. */
  method GetVarint64Ptr(src: array<byte>, p: nat, limit: nat) returns (ok: bool, value: nat, next: nat)
    requires limit <= src.Length
    ensures (ok, value, next) == Read(src[..], p, limit, 0, 0)
  {
    value, next := 0, p;
    var i := 0;
    ghost var result := Read(src[..], p, limit, 0, 0);
    while i < 10 && next < limit
      invariant i <= 10
      invariant Read(src[..], next, limit, i, value) == result
    {
      var b := src[next];
      next := next + 1;
      value := value + ShiftLeft(b % 128, i);
      if b < 128 {
        return true, value, next;
      }
      i := i + 1;
    }
    return false, 0, next;
  }

  /** All bytes but the last are marked. */
  predicate IsVarint(e: seq<byte>) {
    e != [] && (e[0] < 128 <==> |e| == 1) && (|e| > 1 ==> IsVarint(e[1..]))
  }

  /** What the bytes stand for, from group i on. */
  function Value(e: seq<byte>, i: nat): nat
    requires IsVarint(e)
  {
    if |e| == 1 then Times128(e[0], i) else Times128(e[0] - 128, i) + Value(e[1..], i + 1)
  }

  lemma {:induction false} ReadVarint(s: seq<byte>, p: nat, limit: nat, i: nat, value: nat, e: seq<byte>)
    requires IsVarint(e) && p + |e| <= limit <= |s| && s[p..p + |e|] == e
    requires i + |e| <= 10 && Value(e, i) < TWO_64
    ensures Read(s, p, limit, i, value) == (true, value + Value(e, i), p + |e|)
    decreases |e|
  {
    assert s[p] == e[0];
    if |e| == 1 {
      ReadLastGroup(s, p, limit, i, value, e[0]);
    } else {
      assert s[p + 1..p + 1 + |e[1..]|] == e[1..];
      ReadGroup(s, p, limit, i, value, e[0] - 128);
      ReadVarint(s, p + 1, limit, i + 1, value + Times128(e[0] - 128, i), e[1..]);
    }
  }

  /** Reading a group that is not the last. */
  lemma ReadGroup(s: seq<byte>, p: nat, limit: nat, i: nat, value: nat, low: nat)
    requires p < limit <= |s| && i < 10 && low < 128 && s[p] == low + 128 && Times128(low, i) < TWO_64
    ensures Read(s, p, limit, i, value) == Read(s, p + 1, limit, i + 1, value + Times128(low, i))
  {
    ShiftLeftExact(low, i);
  }

  lemma ReadLastGroup(s: seq<byte>, p: nat, limit: nat, i: nat, value: nat, low: nat)
    requires p < limit <= |s| && i < 10 && low < 128 && s[p] == low && Times128(low, i) < TWO_64
    ensures Read(s, p, limit, i, value) == (true, value + Times128(low, i), p + 1)
  {
    ShiftLeftExact(low, i);
  }

  /** The varint of v stands for v. */
  lemma {:induction false} EncodingValue(v: nat, i: nat)
    ensures IsVarint(Encoding(v)) && Value(Encoding(v), i) == Times128(v, i)
  {
    if v >= 128 {
      assert Encoding(v)[1..] == Encoding(v / 128);
      EncodingValue(v / 128, i + 1);
      Times128Sum(v % 128, v / 128 * 128, i);
    }
  }

  /** Reading a written 64-bit number gives it back and stops at its end. */
  lemma ReadWritten(s: seq<byte>, p: nat, limit: nat, v: nat)
    requires v < TWO_64 && p + |Encoding(v)| <= limit <= |s| && s[p..p + |Encoding(v)|] == Encoding(v)
    ensures Read(s, p, limit, 0, 0) == (true, v, p + |Encoding(v)|)
  {
    EncodingFits(v);
    EncodingValue(v, 0);
    ReadVarint(s, p, limit, 0, 0, Encoding(v));
  }

  // ----- what is read, whatever the bytes are

  /** What groups of seven bits stand for, the first one lowest. */
  function GroupValue(e: seq<byte>): nat {
    if e == [] then 0 else e[0] % 128 + 128 * GroupValue(e[1..])
  }

  /** What reading adds up for groups i and later. */
  function Shifted(e: seq<byte>, i: nat): nat
    decreases |e|
  {
    if e == [] then 0 else ShiftLeft(e[0] % 128, i) + Shifted(e[1..], i + 1)
  }

  lemma MarkedNext(s: seq<byte>, p: nat, n: nat)
    requires p + n <= |s| && n > 0
    ensures IsVarint(s[p..p + n]) <==>
      if n == 1 then s[p] < 128 else s[p] >= 128 && IsVarint(s[p + 1..p + n])
  {
    var e := s[p..p + n];
    assert e[1..] == s[p + 1..p + n];
  }

  lemma ShiftedNext(s: seq<byte>, p: nat, n: nat, i: nat)
    requires p + n <= |s| && n > 0
    ensures Shifted(s[p..p + n], i) == ShiftLeft(s[p] % 128, i) + Shifted(s[p + 1..p + n], i + 1)
  {
    assert s[p..p + n][1..] == s[p + 1..p + n];
  }

  /** If reading succeeds, it has read a varint of n bytes. */
  lemma {:induction false} ReadVarintOnly(s: seq<byte>, p: nat, limit: nat, i: nat, value: nat) returns (n: nat)
    requires limit <= |s| && Read(s, p, limit, i, value).0
    ensures 1 <= n && i + n <= 10 && p + n <= limit && IsVarint(s[p..p + n])
    ensures Read(s, p, limit, i, value) == (true, value + Shifted(s[p..p + n], i), p + n)
    decreases 10 - i
  {
    if s[p] < 128 {
      n := 1;
      assert s[p + 1..p + n] == [];
    } else {
      n := ReadVarintOnly(s, p + 1, limit, i + 1, value + ShiftLeft(s[p] % 128, i));
      n := n + 1;
    }
    MarkedNext(s, p, n);
    ShiftedNext(s, p, n, i);
  }

  /** If it fails, there is none. */
  lemma {:induction false} NoVarintThere(s: seq<byte>, p: nat, limit: nat, i: nat, value: nat, n: nat)
    requires limit <= |s| && !Read(s, p, limit, i, value).0 && 1 <= n && i + n <= 10 && p + n <= limit
    ensures !IsVarint(s[p..p + n])
    decreases n
  {
    MarkedNext(s, p, n);
    if s[p] >= 128 && n > 1 {
      NoVarintThere(s, p + 1, limit, i + 1, value + ShiftLeft(s[p] % 128, i), n - 1);
    }
  }

  lemma {:induction false} Times128IsProduct(x: nat, i: nat)
    ensures Times128(x, i) == x * Pow128(i)
    decreases i
  {
    if i > 0 {
      Times128IsProduct(x * 128, i - 1);
      assert x * 128 * Pow128(i - 1) == x * (128 * Pow128(i - 1));
    }
  }

  lemma Powers()
    ensures Pow128(1) == 0x80 && Pow128(2) == 0x4000 && Pow128(3) == 0x20_0000 && Pow128(4) == 0x1000_0000
    ensures Pow128(5) == 0x8_0000_0000 && Pow128(6) == 0x400_0000_0000 && Pow128(7) == 0x2_0000_0000_0000
    ensures Pow128(8) == 0x100_0000_0000_0000 && Pow128(9) == 0x8000_0000_0000_0000
  {
    assert Pow128(3) == 128 * Pow128(2) && Pow128(2) == 128 * Pow128(1) && Pow128(1) == 128 * Pow128(0);
    assert Pow128(6) == 128 * Pow128(5) && Pow128(5) == 128 * Pow128(4) && Pow128(4) == 128 * Pow128(3);
    assert Pow128(9) == 128 * Pow128(8) && Pow128(8) == 128 * Pow128(7) && Pow128(7) == 128 * Pow128(6);
  }

  lemma {:induction false} PowersGrow(i: nat, j: nat)
    requires i <= j
    ensures Pow128(i) <= Pow128(j)
  {
    if i < j {
      PowersGrow(i, j - 1);
    }
  }

  /** The first nine groups are shifted without loss. */
  lemma GroupExact(x: nat, i: nat)
    requires x < 128 && i <= 8
    ensures ShiftLeft(x, i) == x * Pow128(i)
  {
    Powers();
    PowersGrow(i, 8);
    Times128IsProduct(x, i);
    Smaller(x, Pow128(i), Pow128(8));
    ShiftLeftExact(x, i);
  }

  lemma Smaller(x: nat, a: nat, b: nat)
    requires x < 128 && a <= b
    ensures x * a <= 127 * b
  {
  }

  /** As long as nothing is lost, shifting is multiplying. */
  lemma {:induction false} ShiftOn(x: nat, i: nat, j: nat)
    requires Times128(x, i) < TWO_64
    ensures ShiftLeft(x, i + j) == ShiftLeft(Times128(x, i), j)
    decreases i
  {
    if i > 0 {
      ShiftOn(x * 128, i - 1, j);
    }
  }

  lemma LastBit(x: nat)
    requires x < 128
    ensures x * 0x100_0000_0000_0000 * 128 % TWO_64 == x % 2 * TWO_63
  {
    var half := x / 2;
    assert x == 2 * half + x % 2;
    assert x * 0x100_0000_0000_0000 * 128 == half * TWO_64 + x % 2 * TWO_63;
  }

  /** Of the tenth group, the last bit is left. */
  lemma TenthGroup(x: nat, i: nat)
    requires x < 128 && i == 9
    ensures ShiftLeft(x, i) == x % 2 * TWO_63
  {
    Powers();
    Times128IsProduct(x, i - 1);
    ShiftOn(x, i - 1, 1);
    LastBit(x);
    OneShift(x * 0x100_0000_0000_0000);
  }

  lemma OneShift(y: nat)
    ensures ShiftLeft(y, 1) == y * 128 % TWO_64
  {
    assert ShiftLeft(y, 1) == ShiftLeft(y * 128 % TWO_64, 0);
  }

  lemma Distributes(low: nat, rest: nat, p: nat)
    ensures (low + 128 * rest) * p == low * p + rest * (128 * p)
  {
  }

  lemma {:induction false} NineGroups(e: seq<byte>, i: nat)
    requires i + |e| <= 9
    ensures Shifted(e, i) == GroupValue(e) * Pow128(i)
    decreases |e|
  {
    if e != [] {
      GroupExact(e[0] % 128, i);
      NineGroups(e[1..], i + 1);
      Distributes(e[0] % 128, GroupValue(e[1..]), Pow128(i));
    }
  }

  lemma {:induction false} ShiftedAppend(a: seq<byte>, b: seq<byte>, i: nat)
    ensures Shifted(a + b, i) == Shifted(a, i) + Shifted(b, i + |a|)
    decreases |a|
  {
    if a == [] {
      assert a + b == b;
    } else {
      assert (a + b)[1..] == a[1..] + b;
      ShiftedAppend(a[1..], b, i + 1);
    }
  }

  /** What a varint is read as: its groups of seven bits; of a tenth group only the lowest bit counts. */
  ghost predicate ReadsAs(e: seq<byte>, value: nat) {
    if |e| <= 9 then value == GroupValue(e)
    else |e| == 10 && value == GroupValue(e[..9]) + e[9] % 2 * TWO_63
  }

  lemma ShiftedReadsAs(e: seq<byte>)
    requires |e| <= 10
    ensures ReadsAs(e, Shifted(e, 0))
  {
    if |e| <= 9 {
      NineGroups(e, 0);
    } else {
      assert e == e[..9] + [e[9]];
      ShiftedAppend(e[..9], [e[9]], 0);
      NineGroups(e[..9], 0);
      ShiftedTenth(e[9], |e[..9]|);
    }
  }

  lemma ShiftedOne(b: byte, i: nat)
    ensures Shifted([b], i) == ShiftLeft(b % 128, i)
  {
    assert [b][1..] == [];
  }

  lemma ShiftedTenth(b: byte, i: nat)
    requires i == 9
    ensures Shifted([b], i) == b % 2 * TWO_63
  {
    ShiftedOne(b, i);
    LowParity(b);
    TenthGroup(b % 128, i);
  }

  lemma LowParity(b: byte)
    ensures b % 128 % 2 == b % 2
  {
    assert b % 128 == if b < 128 then b else b - 128;
  }

  /** The first n bytes from p on are a varint that ends before the limit. */
  ghost predicate VarintAt(s: seq<byte>, p: nat, limit: nat, n: nat) {
    1 <= n <= 10 && p + n <= limit <= |s| && IsVarint(s[p..p + n])
  }

  lemma ReadSucceeds(s: seq<byte>, p: nat, limit: nat)
    requires limit <= |s| && Read(s, p, limit, 0, 0).0
    ensures var r := Read(s, p, limit, 0, 0);
      r.2 >= p && VarintAt(s, p, limit, r.2 - p) && ReadsAs(s[p..r.2], r.1)
  {
    var n := ReadVarintOnly(s, p, limit, 0, 0);
    ShiftedReadsAs(s[p..p + n]);
  }

  /** For all bytes: reading succeeds if and only if there is a varint of at most ten bytes before the limit; then it
      gives what that stands for in 64 bits and stops at its end. */
  lemma ReadIff(s: seq<byte>, p: nat, limit: nat)
    requires limit <= |s|
    ensures var r := Read(s, p, limit, 0, 0);
      if r.0 then r.2 >= p && VarintAt(s, p, limit, r.2 - p) && ReadsAs(s[p..r.2], r.1)
      else forall n: nat :: !VarintAt(s, p, limit, n)
  {
    if Read(s, p, limit, 0, 0).0 {
      ReadSucceeds(s, p, limit);
    } else {
      forall n: nat
        ensures !VarintAt(s, p, limit, n)
      {
        if 1 <= n <= 10 && p + n <= limit {
          NoVarintThere(s, p, limit, 0, 0, n);
        }
      }
    }
  }
}
