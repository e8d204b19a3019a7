/** Nested slices of scalars: their shape along zero indices, when they are rectangular, and their row-major
    flattening. A value is determined by its shape and its elements. */
module NestedValues {

  datatype Nested<T> = Leaf(value: T) | List(items: seq<Nested<T>>)

  /** A value of a slice type with the given number of dimensions. */
  predicate HasDepth<T>(v: Nested<T>, depth: nat)
    decreases depth
  {
    match v
    case Leaf(_) => depth == 0
    case List(items) => depth > 0 && forall i :: 0 <= i < |items| ==> HasDepth(items[i], depth - 1)
  }

  function Zeros(n: nat): (r: seq<nat>)
    ensures |r| == n && forall i :: 0 <= i < n ==> r[i] == 0
  {
    seq(n, _ => 0)
  }

  /** The lengths of the slices on the way to the element with only zero indices; zeros after an empty one. */
  function ShapeOf<T>(v: Nested<T>, depth: nat): (r: seq<nat>)
    ensures |r| == depth
    decreases depth
  {
    if depth == 0 then []
    else if v.Leaf? || v.items == [] then Zeros(depth)
    else [|v.items|] + ShapeOf(v.items[0], depth - 1)
  }

  /** Every slice has the length that the shape says. */
  predicate Fits<T>(v: Nested<T>, shape: seq<nat>)
    decreases |shape|
  {
    match v
    case Leaf(_) => shape == []
    case List(items) =>
      shape != [] && |items| == shape[0] && forall i :: 0 <= i < |items| ==> Fits(items[i], shape[1..])
  }

  lemma {:induction false} FitsShapeOf<T>(v: Nested<T>, w: Nested<T>, shape: seq<nat>)
    requires Fits(v, shape) && Fits(w, shape)
    ensures Fits(v, ShapeOf(w, |shape|))
    decreases |shape|
  {
    if v.List? {
      forall i | 0 <= i < |v.items|
        ensures Fits(v.items[i], ShapeOf(w, |shape|)[1..])
      {
        FitsShapeOf(v.items[i], w.items[0], shape[1..]);
      }
    }
  }

  /** A value has some shape if and only if it has the shape read from its elements with zero indices. */
  lemma HasShapeIffOwn<T>(v: Nested<T>, depth: nat)
    ensures (exists shape :: |shape| == depth && Fits(v, shape)) <==> Fits(v, ShapeOf(v, depth))
  {
    if shape :| |shape| == depth && Fits(v, shape) {
      FitsShapeOf(v, v, shape);
    }
  }

  function Product(shape: seq<nat>): nat {
    if shape == [] then 1 else shape[0] * Product(shape[1..])
  }

  // ----- row-major order

  /** The elements of a value, last index fastest. */
  function Flatten<T>(v: Nested<T>): seq<T>
    decreases v, 0
  {
    match v
    case Leaf(x) => [x]
    case List(items) => FlattenFirst(v, |items|)
  }

  /** The elements of the first n items. */
  function FlattenFirst<T>(v: Nested<T>, n: nat): seq<T>
    requires v.List? && n <= |v.items|
    decreases v, 0, n
  {
    if n == 0 then [] else FlattenFirst(v, n - 1) + Flatten(v.items[n - 1])
  }

  lemma OneLess(n: nat, room: nat)
    requires n > 0
    ensures n * room == (n - 1) * room + room
  {
  }

  lemma {:induction false} FlattenLength<T>(v: Nested<T>, shape: seq<nat>)
    requires Fits(v, shape)
    ensures |Flatten(v)| == Product(shape)
    decreases |shape|
  {
    if v.List? {
      FlattenFirstLength(v, shape, |v.items|);
    }
  }

  lemma {:induction false} FlattenFirstLength<T>(v: Nested<T>, shape: seq<nat>, n: nat)
    requires Fits(v, shape) && v.List? && n <= |v.items|
    ensures |FlattenFirst(v, n)| == n * Product(shape[1..])
    decreases |shape|, n
  {
    if n > 0 {
      FlattenFirstLength(v, shape, n - 1);
      FlattenLength(v.items[n - 1], shape[1..]);
      OneLess(n, Product(shape[1..]));
    }
  }

  /** The place of an index in row-major order. */
  function Place(shape: seq<nat>, index: seq<nat>): nat
    requires |shape| == |index|
  {
    if shape == [] then 0 else index[0] * Product(shape[1..]) + Place(shape[1..], index[1..])
  }

  predicate InBounds(shape: seq<nat>, index: seq<nat>) {
    |shape| == |index| && forall k :: 0 <= k < |index| ==> index[k] < shape[k]
  }

  /** The element at an index. */
  function At<T>(v: Nested<T>, shape: seq<nat>, index: seq<nat>): T
    requires Fits(v, shape) && InBounds(shape, index)
    decreases |shape|
  {
    if shape == [] then v.value else At(v.items[index[0]], shape[1..], index[1..])
  }

  lemma {:induction false} PlaceInside(shape: seq<nat>, index: seq<nat>)
    requires InBounds(shape, index)
    ensures Place(shape, index) < Product(shape)
  {
    if shape != [] {
      PlaceInside(shape[1..], index[1..]);
      InBlock(index[0], shape[0], Product(shape[1..]), Place(shape[1..], index[1..]));
    }
  }

  lemma InBlock(i: nat, n: nat, p: nat, k: nat)
    requires i < n && k < p
    ensures i * p + k < n * p
  {
    assert (i + 1) * p <= n * p;
  }

  lemma {:induction false} ItemPlace<T>(v: Nested<T>, shape: seq<nat>, n: nat, i: nat, k: nat)
    requires Fits(v, shape) && v.List? && i < n <= |v.items| && k < Product(shape[1..])
    ensures |Flatten(v.items[i])| == Product(shape[1..])
    ensures i * Product(shape[1..]) + k < |FlattenFirst(v, n)|
    ensures FlattenFirst(v, n)[i * Product(shape[1..]) + k] == Flatten(v.items[i])[k]
    decreases n
  {
    FlattenFirstLength(v, shape, n - 1);
    FlattenLength(v.items[n - 1], shape[1..]);
    if i < n - 1 {
      ItemPlace(v, shape, n - 1, i, k);
    }
  }

  /** Flattening is row-major: the element at an index is found at its place. */
  lemma {:induction false} FlattenIsRowMajor<T>(v: Nested<T>, shape: seq<nat>, index: seq<nat>)
    requires Fits(v, shape) && InBounds(shape, index)
    ensures Place(shape, index) < |Flatten(v)|
    ensures Flatten(v)[Place(shape, index)] == At(v, shape, index)
    decreases |shape|
  {
    if shape != [] {
      FlattenIsRowMajor(v.items[index[0]], shape[1..], index[1..]);
      FlattenLength(v.items[index[0]], shape[1..]);
      ItemPlace(v, shape, |v.items|, index[0], Place(shape[1..], index[1..]));
    }
  }

  // ----- building values

  /** The value of the given shape with the given elements. */
  function Build<T>(shape: seq<nat>, flat: seq<T>): (v: Nested<T>)
    requires |flat| == Product(shape)
    decreases |shape|, 1
  {
    if shape == [] then Leaf(flat[0]) else List(BuildItems(shape, flat, shape[0]))
  }

  /** The first n items of the value with the given elements. */
  function BuildItems<T>(shape: seq<nat>, flat: seq<T>, n: nat): (r: seq<Nested<T>>)
    requires shape != [] && |flat| == n * Product(shape[1..])
    ensures |r| == n
    decreases |shape|, 0, n
  {
    if n == 0 then []
    else
      var p := Product(shape[1..]);
      assert n * p == (n - 1) * p + p;
      BuildItems(shape, flat[..(n - 1) * p], n - 1) + [Build(shape[1..], flat[(n - 1) * p..])]
  }

  /** Rebuilding a value from its elements gives it back. */
  lemma {:induction false} BuildFlatten<T>(v: Nested<T>, shape: seq<nat>)
    requires Fits(v, shape)
    ensures |Flatten(v)| == Product(shape) && Build(shape, Flatten(v)) == v
    decreases |shape|, 1
  {
    FlattenLength(v, shape);
    if v.List? {
      BuildFlattenItems(v, shape, |v.items|);
      assert v.items[..|v.items|] == v.items;
    }
  }

  lemma {:induction false} BuildFlattenItems<T>(v: Nested<T>, shape: seq<nat>, n: nat)
    requires Fits(v, shape) && v.List? && n <= |v.items|
    ensures |FlattenFirst(v, n)| == n * Product(shape[1..])
    ensures BuildItems(shape, FlattenFirst(v, n), n) == v.items[..n]
    decreases |shape|, 0, n
  {
    FlattenFirstLength(v, shape, n);
    if n > 0 {
      var p := Product(shape[1..]);
      assert n * p == (n - 1) * p + p;
      BuildFlattenItems(v, shape, n - 1);
      BuildFlatten(v.items[n - 1], shape[1..]);
      var flat := FlattenFirst(v, n);
      assert flat[..(n - 1) * p] == FlattenFirst(v, n - 1) && flat[(n - 1) * p..] == Flatten(v.items[n - 1]);
    }
  }

  /** A built value has its shape and its elements. */
  lemma {:induction false} FlattenBuild<T>(shape: seq<nat>, flat: seq<T>)
    requires |flat| == Product(shape)
    ensures Fits(Build(shape, flat), shape) && Flatten(Build(shape, flat)) == flat
    decreases |shape|, 1
  {
    if shape != [] {
      FlattenBuildItems(shape, flat, shape[0]);
      var items := BuildItems(shape, flat, shape[0]);
      FlattenFirstSame(Build(shape, flat), List(items), shape[0]);
    }
  }

  lemma {:induction false} FlattenFirstSame<T>(v: Nested<T>, w: Nested<T>, n: nat)
    requires v.List? && w.List? && n <= |v.items| && n <= |w.items| && v.items[..n] == w.items[..n]
    ensures FlattenFirst(v, n) == FlattenFirst(w, n)
    decreases n
  {
    if n > 0 {
      assert v.items[..n][..n - 1] == v.items[..n - 1] && w.items[..n][..n - 1] == w.items[..n - 1];
      FlattenFirstSame(v, w, n - 1);
      assert v.items[n - 1] == v.items[..n][n - 1] == w.items[n - 1];
    }
  }

  /** The elements of one item more. */
  lemma FlattenMore<T>(items: seq<Nested<T>>, v: Nested<T>)
    ensures FlattenFirst(List(items + [v]), |items + [v]|) == FlattenFirst(List(items), |items|) + Flatten(v)
  {
    var more := items + [v];
    assert items[..|items|] == more[..|items|];
    FlattenFirstSame(List(items), List(more), |items|);
  }

  lemma {:induction false} FlattenBuildItems<T>(shape: seq<nat>, flat: seq<T>, n: nat)
    requires shape != [] && |flat| == n * Product(shape[1..])
    ensures var items := BuildItems(shape, flat, n);
            && (forall i :: 0 <= i < n ==> Fits(items[i], shape[1..]))
            && FlattenFirst(List(items), n) == flat
    decreases |shape|, 0, n
  {
    if n > 0 {
      var p := Product(shape[1..]);
      assert n * p == (n - 1) * p + p;
      var before, last := flat[..(n - 1) * p], flat[(n - 1) * p..];
      FlattenBuildItems(shape, before, n - 1);
      FlattenBuild(shape[1..], last);
      var items := BuildItems(shape, flat, n);
      assert items[..n - 1] == BuildItems(shape, before, n - 1);
      FlattenFirstSame(List(items), List(BuildItems(shape, before, n - 1)), n - 1);
      assert flat == before + last;
    }
  }
}
