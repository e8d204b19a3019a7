/** The bytes of a numeric tensor, place by place. */
module GoTensorLayout {
  import opened Sequences
  import opened Varint
  import opened NestedValues
  import opened GoTensor

  /** The bytes that hold a scalar: those of a number, or one byte that is 1 for true and 0 for false. */
  ghost predicate Holds(bytes: seq<byte>, x: Scalar) {
    match x
    case Flag(b) => |bytes| == 1 && bytes[0] == if b then 1 else 0
    case Number(own) => bytes == own
  }

  lemma HeldLast(a: seq<byte>, b: seq<byte>, x: Scalar)
    requires Holds(b, x)
    ensures Holds((a + b)[|a|..|a| + |b|], x)
  {
    assert (a + b)[|a|..|a| + |b|] == b;
  }

  lemma HeldBefore(a: seq<byte>, b: seq<byte>, p: nat, q: nat, x: Scalar)
    requires p <= q <= |a| && Holds(a[p..q], x)
    ensures Holds((a + b)[p..q], x)
  {
    assert (a + b)[p..q] == a[p..q];
  }

  /** The bytes from p on hold the scalar. */
  ghost predicate HeldAt(bytes: seq<byte>, p: nat, size: nat, x: Scalar) {
    p + size <= |bytes| && Holds(bytes[p..p + size], x)
  }

  lemma {:induction false} TimesGrows(k: nat, n: nat, size: nat)
    requires k < n
    ensures Times(k, size) + size <= Times(n, size)
  {
    if k < n - 1 {
      TimesGrows(k, n - 1, size);
    }
  }

  /** The elements before the last one, and the last one. */
  lemma WrittenParts(xs: seq<Scalar>, kind: Kind)
    requires xs != [] && forall x :: x in xs ==> OfKind(x, kind)
    ensures var ys, x := xs[..|xs| - 1], xs[|xs| - 1];
      && (forall y :: y in ys ==> OfKind(y, kind)) && |AllBytes(ys)| == Times(|ys|, Size(kind))
      && AllBytes(xs) == AllBytes(ys) + ScalarBytes(x)
      && |ScalarBytes(x)| == Size(kind) && Holds(ScalarBytes(x), x)
  {
    var ys, x := xs[..|xs| - 1], xs[|xs| - 1];
    assert xs == ys + [x] && OfKind(x, kind);
    AllBytesLength(ys, kind);
    TimesIsProduct(|ys|, Size(kind));
  }

  /** Element k is written behind k elements. */
  lemma {:induction false} WrittenAt(xs: seq<Scalar>, kind: Kind, k: nat)
    requires k < |xs| && forall x :: x in xs ==> OfKind(x, kind)
    ensures HeldAt(AllBytes(xs), Times(k, Size(kind)), Size(kind), xs[k])
  {
    var n := |xs| - 1;
    WrittenParts(xs, kind);
    if k == n {
      HeldLast(AllBytes(xs[..n]), ScalarBytes(xs[n]), xs[n]);
    } else {
      WrittenAt(xs[..n], kind, k);
      var p := Times(k, Size(kind));
      HeldBefore(AllBytes(xs[..n]), ScalarBytes(xs[n]), p, p + Size(kind), xs[k]);
    }
  }

  /** The bytes of an element of a value are found at its place in row-major order. */
  lemma NumbersLayout(v: Nested<Scalar>, shape: seq<nat>, index: seq<nat>, kind: Kind)
    requires Fits(v, shape) && AllOfKind(v, kind) && InBounds(shape, index)
    ensures HeldAt(AllBytes(Flatten(v)), Place(shape, index) * Size(kind), Size(kind), At(v, shape, index))
  {
    FlattenOfKind(v, kind);
    FlattenIsRowMajor(v, shape, index);
    TimesIsProduct(Place(shape, index), Size(kind));
    WrittenAt(Flatten(v), kind, Place(shape, index));
  }

  /** What bytes are read as: a number keeps them, a flag is true exactly for a 1. */
  ghost predicate Means(kind: Kind, bytes: seq<byte>, x: Scalar) {
    match kind
    case NumberKind(_) => x == Number(bytes)
    case BoolKind => x == Flag(bytes == [1])
  }

  ghost predicate MeansAt(kind: Kind, bytes: seq<byte>, p: nat, x: Scalar) {
    p + Size(kind) <= |bytes| && Means(kind, bytes[p..p + Size(kind)], x)
  }

  lemma MeansBefore(kind: Kind, bytes: seq<byte>, end: nat, p: nat, x: Scalar)
    requires end <= |bytes| && MeansAt(kind, bytes[..end], p, x)
    ensures MeansAt(kind, bytes, p, x)
  {
    assert bytes[..end][p..p + Size(kind)] == bytes[p..p + Size(kind)];
  }

  lemma MeansLast(kind: Kind, bytes: seq<byte>, p: nat, x: Scalar)
    requires p + Size(kind) == |bytes| && x == ScalarOf(kind, bytes[p..])
    ensures MeansAt(kind, bytes, p, x)
  {
    assert bytes[p..p + Size(kind)] == bytes[p..];
  }

  lemma {:induction false} ReadLength(kind: Kind, bytes: seq<byte>, xs: seq<Scalar>)
    requires WholeReadAs(kind, bytes, xs)
    ensures |bytes| == Times(|xs|, Size(kind))
    decreases |xs|
  {
    if xs == [] {
      assert ReadAs(kind, bytes, xs);
    } else {
      ReadLast(kind, bytes, xs);
      ReadLength(kind, bytes[..|bytes| - Size(kind)], xs[..|xs| - 1]);
    }
  }

  /** Element k is read behind k elements. */
  lemma {:induction false} ReadAt(kind: Kind, bytes: seq<byte>, xs: seq<Scalar>, k: nat)
    requires WholeReadAs(kind, bytes, xs) && k < |xs|
    ensures MeansAt(kind, bytes, Times(k, Size(kind)), xs[k])
    decreases |xs|
  {
    var n := |xs| - 1;
    ReadLast(kind, bytes, xs);
    var end := |bytes| - Size(kind);
    ReadLength(kind, bytes, xs);
    if k == n {
      MeansLast(kind, bytes, end, xs[n]);
    } else {
      ReadAt(kind, bytes[..end], xs[..n], k);
      MeansBefore(kind, bytes, end, Times(k, Size(kind)), xs[k]);
    }
  }

  /** The element of a decoded value at an index is what the bytes at its place mean. */
  lemma ReadLayout(kind: Kind, bytes: seq<byte>, v: Nested<Scalar>, shape: seq<nat>, index: seq<nat>)
    requires Fits(v, shape) && InBounds(shape, index) && ReadAs(kind, bytes, Flatten(v))
    ensures MeansAt(kind, bytes, Place(shape, index) * Size(kind), At(v, shape, index))
  {
    FlattenIsRowMajor(v, shape, index);
    TimesIsProduct(Place(shape, index), Size(kind));
    ReadAtPlace(kind, bytes, Flatten(v), Place(shape, index), At(v, shape, index));
  }

  lemma ReadAtPlace(kind: Kind, bytes: seq<byte>, xs: seq<Scalar>, k: nat, x: Scalar)
    requires ReadAs(kind, bytes, xs) && k < |xs| && xs[k] == x
    ensures MeansAt(kind, bytes, Times(k, Size(kind)), x)
  {
    ReadAt(kind, bytes, xs, k);
  }
}
