/** Attributes that are lists of shapes: set through flat buffers and read back through storage that the
    metadata of the attribute sizes. */
module ShapeList {
  import opened MachineNumbers
  import opened Sequences
  import opened PartialShape

  /** A shape of unknown rank, or with dimensions of which some may be unknown. */
  datatype Shape = Unknown | Known(dims: seq<int>)

  datatype Outcome<T> = Ok(value: T) | Aborts | InvalidShape | NotEnoughStorage

  function NumDimensions(s: Shape): int {
    if s.Unknown? then -1 else |s.dims|
  }

  /** Shapes that can be made at all; making any other aborts the process. */
  predicate Makeable(s: Shape) {
    s.Known? ==> |s.dims| <= MAX_DIMENSIONS && NoOverflow(s.dims)
  }

  /** Shapes that are not changed by being kept. */
  predicate Storable(s: Shape) {
    Makeable(s) && (s.Known? ==> forall d :: 0 <= d < |s.dims| ==> s.dims[d] >= -1)
  }

  predicate Fits64(s: Shape) {
    s.Known? ==> forall d :: 0 <= d < |s.dims| ==> s.dims[d] < TWO_63
  }

  // ----- flat buffers

  /** The dimensions of all shapes, one after the other. */
  function FlatDims(shapes: seq<Shape>): seq<int> {
    if shapes == [] then []
    else
      var before, last := FlatDims(shapes[..|shapes| - 1]), shapes[|shapes| - 1];
      if last.Unknown? then before else before + last.dims
  }

  /** Where the dimensions of shape i start. */
  function Position(shapes: seq<Shape>, i: nat): nat
    requires i <= |shapes|
  {
    |FlatDims(shapes[..i])|
  }

  lemma FlatNext(shapes: seq<Shape>, i: nat)
    requires i < |shapes|
    ensures FlatDims(shapes[..i + 1])
         == if shapes[i].Unknown? then FlatDims(shapes[..i]) else FlatDims(shapes[..i]) + shapes[i].dims
  {
    assert shapes[..i + 1][..i] == shapes[..i];
  }

  lemma {:induction false} FlatPrefix(shapes: seq<Shape>, i: nat)
    requires i <= |shapes|
    ensures FlatDims(shapes[..i]) <= FlatDims(shapes)
    decreases |shapes| - i
  {
    if i < |shapes| {
      FlatNext(shapes, i);
      FlatPrefix(shapes, i + 1);
    } else {
      assert shapes[..i] == shapes;
    }
  }

  /** Where to find the dimensions of shape i. */
  lemma DimsAt(shapes: seq<Shape>, i: nat)
    requires i < |shapes| && shapes[i].Known?
    ensures var p := Position(shapes, i);
            var q := p + |shapes[i].dims|;
            q <= |FlatDims(shapes)| && FlatDims(shapes)[p..q] == shapes[i].dims
  {
    FlatNext(shapes, i);
    FlatPrefix(shapes, i + 1);
    PrefixEnd(FlatDims(shapes[..i]), shapes[i].dims, FlatDims(shapes));
  }

  lemma PrefixEnd<T>(x: seq<T>, y: seq<T>, s: seq<T>)
    requires x + y <= s
    ensures s[|x|..|x| + |y|] == y
  {
    assert s[|x|..|x| + |y|] == s[..|x + y|][|x|..];
  }

  /** How many dimensions each shape has; none if its rank is unknown. */
  function Ranks(shapes: seq<Shape>): seq<nat> {
    seq(|shapes|, i requires 0 <= i < |shapes| => if shapes[i].Known? then |shapes[i].dims| else 0)
  }

  /** The dimensions of a shape start behind as many numbers as the shapes before it have dimensions. */
  lemma {:induction false} PositionIsSum(shapes: seq<Shape>, i: nat)
    requires i <= |shapes|
    ensures Position(shapes, i) == Sum(Ranks(shapes)[..i])
  {
    if i > 0 {
      PositionIsSum(shapes, i - 1);
      FlatNext(shapes, i - 1);
      assert Ranks(shapes)[..i][..i - 1] == Ranks(shapes)[..i - 1];
    }
  }

  lemma DimAt(shapes: seq<Shape>, i: nat, d: nat)
    requires i < |shapes| && shapes[i].Known? && d < |shapes[i].dims|
    ensures Position(shapes, i) + d < |FlatDims(shapes)|
    ensures FlatDims(shapes)[Position(shapes, i) + d] == shapes[i].dims[d]
  {
    DimsAt(shapes, i);
    InSlice(FlatDims(shapes), Position(shapes, i), shapes[i].dims, d);
  }

  lemma InSlice(s: seq<int>, p: nat, x: seq<int>, d: nat)
    requires p + |x| <= |s| && s[p..p + |x|] == x && d < |x|
    ensures s[p + d] == x[d]
  {
    assert s[p..p + |x|][d] == s[p + d];
  }

  lemma FlatLength(shapes: seq<Shape>)
    ensures |FlatDims(shapes)| == Sum(Ranks(shapes))
  {
    PositionIsSum(shapes, |shapes|);
    assert shapes[..|shapes|] == shapes && Ranks(shapes)[..|shapes|] == Ranks(shapes);
  }

  /** The flat list, place by place: dimension d of shape i is behind all those of the shapes before it. */
  lemma FlatLayout(shapes: seq<Shape>, i: nat, d: nat)
    requires i < |shapes| && shapes[i].Known? && d < |shapes[i].dims|
    ensures Sum(Ranks(shapes)[..i]) + d < |FlatDims(shapes)| == Sum(Ranks(shapes))
    ensures FlatDims(shapes)[Sum(Ranks(shapes)[..i]) + d] == shapes[i].dims[d]
  {
    PositionIsSum(shapes, i);
    FlatLength(shapes);
    DimAt(shapes, i, d);
  }

  // ----- setting

  /** Flattens the shapes. */
  method Flatten(value: seq<Shape>) returns (flat: seq<int>, ndims: seq<int>)
    ensures flat == FlatDims(value)
    ensures |ndims| == |value| && forall i :: 0 <= i < |value| ==>
      ndims[i] == NumDimensions(value[i]) == if value[i].Unknown? then -1 else |value[i].dims|
  {
    flat, ndims := [], [];
    for i := 0 to |value|
      invariant flat == FlatDims(value[..i])
      invariant |ndims| == i && forall k :: 0 <= k < i ==> ndims[k] == NumDimensions(value[k])
    {
      FlatNext(value, i);
      ndims := ndims + [NumDimensions(value[i])];
      flat := flat + if value[i].Unknown? then [] else value[i].dims;
    }
    assert value[..|value|] == value;
  }

  /** Finds out where each shape starts in the flat dimensions, from the numbers of dimensions alone. */
  method SetAttrShapeListHelper(ndims: seq<int>, ghost value: seq<Shape>) returns (starts: seq<nat>)
    requires |ndims| == |value| && forall i :: 0 <= i < |value| ==> ndims[i] == NumDimensions(value[i])
    ensures |starts| == |value| && forall i :: 0 <= i < |value| ==> starts[i] == Position(value, i)
  {
    starts := [];
    var p := 0;
    for i := 0 to |ndims|
      invariant p == Position(value, i)
      invariant |starts| == i && forall k :: 0 <= k < i ==> starts[k] == Position(value, k)
    {
      FlatNext(value, i);
      starts := starts + [p];
      if ndims[i] > 0 {
        p := p + ndims[i];
      }
    }
  }

  /** Dimensions that differ at most in which negative number stands for an unknown one. */
  ghost predicate Alike(a: seq<int>, b: seq<int>) {
    |a| == |b| && forall d :: 0 <= d < |a| ==> AlikeAt(a[d], b[d])
  }

  predicate AlikeAt(x: int, y: int) {
    (x >= -1 ==> y == x) && (x < -1 ==> y < 0)
  }

  lemma {:induction false} AlikeElements(a: seq<int>, b: seq<int>)
    requires Alike(a, b)
    ensures Elements(a) == Elements(b) && (NoOverflow(a) <==> NoOverflow(b))
    decreases |a|
  {
    if a != [] {
      var n := |a| - 1;
      assert AlikeAt(a[n], b[n]);
      assert Alike(a[..n], b[..n]) by {
        assert forall d :: 0 <= d < n ==> AlikeAt(a[d], b[d]);
      }
      AlikeElements(a[..n], b[..n]);
    }
  }

  /** Makes a shape dimension by dimension; fails, that is aborts, if it cannot be made. */
  method MakeShape(dims: seq<int>) returns (ok: bool, s: PartialTensorShape)
    requires forall d :: 0 <= d < |dims| ==> dims[d] < TWO_63
    ensures fresh(s) && s.Valid() && !s.UnknownRank()
    ensures ok <==> Makeable(Known(dims))
    ensures ok ==> Alike(dims, s.Dims())
  {
    s := new PartialTensorShape.Scalar();
    for i := 0 to |dims|
      invariant fresh(s) && s.Valid() && !s.UnknownRank() && i <= MAX_DIMENSIONS
      invariant Alike(dims[..i], s.Dims()) && NoOverflow(s.Dims())
    {
      ghost var before := s.Dims();
      AlikeNext(dims, i, before, dims[i]);
      ok := s.AddDim(dims[i]);
      if !ok {
        PrefixOverflow(dims, i + 1);
        return false, s;
      }
      AlikeNext(dims, i, before, s.Kept(dims[i]));
    }
    assert dims[..|dims|] == dims;
    AlikeElements(dims, s.Dims());
    ok := true;
  }

  lemma AlikeNext(dims: seq<int>, i: nat, before: seq<int>, last: int)
    requires i < |dims| && Alike(dims[..i], before) && AlikeAt(dims[i], last)
    ensures Alike(dims[..i + 1], before + [last])
    ensures NoOverflow(dims[..i + 1]) <==> NoOverflow(before + [last])
  {
    var a, b := dims[..i + 1], before + [last];
    forall d | 0 <= d < |a|
      ensures AlikeAt(a[d], b[d])
    {
      assert d < i ==> AlikeAt(dims[..i][d], before[d]);
    }
    AlikeElements(a, b);
  }

  lemma {:induction false} PrefixOverflow(dims: seq<int>, i: nat)
    requires i <= |dims|
    ensures NoOverflow(dims) ==> NoOverflow(dims[..i])
    decreases |dims|
  {
    if i == |dims| {
      assert dims[..i] == dims;
    } else {
      assert dims[..|dims| - 1][..i] == dims[..i];
      PrefixOverflow(dims[..|dims| - 1], i);
    }
  }

  /** A kept shape: unknown rank stays, and dimensions are alike. */
  ghost predicate KeptAs(s: Shape, kept: Shape) {
    if s.Unknown? then kept == Unknown else kept.Known? && Alike(s.dims, kept.dims)
  }

  /** Sets the attribute from pointers into the flat dimensions. */
  method TFSetAttrShapeList(flat: seq<int>, starts: seq<nat>, ndims: seq<int>, ghost value: seq<Shape>)
    returns (r: Outcome<seq<Shape>>)
    requires flat == FlatDims(value) && |starts| == |ndims| == |value| &&
      forall i :: 0 <= i < |value| ==> Fits64(value[i])
    requires forall i :: 0 <= i < |value| ==> starts[i] == Position(value, i) && ndims[i] == NumDimensions(value[i])
    ensures r.Ok? || r == Aborts
    ensures r.Ok? <==> forall i :: 0 <= i < |value| ==> Makeable(value[i])
    ensures r.Ok? ==> |r.value| == |value| && forall i :: 0 <= i < |value| ==> KeptAs(value[i], r.value[i])
  {
    var shapes: seq<Shape> := [];
    for i := 0 to |ndims|
      invariant |shapes| == i
      invariant forall k :: 0 <= k < i ==> Makeable(value[k]) && KeptAs(value[k], shapes[k])
    {
      if ndims[i] < 0 {
        shapes := shapes + [Unknown];
      } else {
        DimsAt(value, i);
        assert Fits64(value[i]);
        var ok, s := MakeShape(flat[starts[i]..starts[i] + ndims[i]]);
        if !ok {
          return Aborts;
        }
        shapes := shapes + [Known(s.Dims())];
      }
    }
    r := Ok(shapes);
  }

  /** Sets a list of shapes; the attribute keeps them unless one cannot be made. */
  method SetAttr(value: seq<Shape>) returns (r: Outcome<seq<Shape>>)
    requires forall i :: 0 <= i < |value| ==> Fits64(value[i])
    ensures r.Ok? || r == Aborts
    ensures r.Ok? <==> forall i :: 0 <= i < |value| ==> Makeable(value[i])
    ensures r.Ok? ==> |r.value| == |value| && forall i :: 0 <= i < |value| ==> KeptAs(value[i], r.value[i])
  {
    if |value| == 0 {
      return Ok([]);
    }
    var flat, ndims := Flatten(value);
    var starts := SetAttrShapeListHelper(ndims, value);
    r := TFSetAttrShapeList(flat, starts, ndims, value);
  }

  // ----- reading back

  /** Checks a kept shape before it is used. */
  method IsValidShape(s: Shape) returns (ok: bool)
    requires Fits64(s)
    ensures ok <==> Storable(s)
  {
    if s.Unknown? {
      return true;
    }
    if |s.dims| > MAX_DIMENSIONS {
      return false;
    }
    var elements := 1;
    for i := 0 to |s.dims|
      invariant elements == Elements(s.dims[..i]) && NoOverflow(s.dims[..i])
      invariant forall d :: 0 <= d < i ==> s.dims[d] >= -1
    {
      PrefixOverflow(s.dims, i + 1);
      ok, elements := CheckDim(s.dims, i, elements);
      if !ok {
        return false;
      }
    }
    assert s.dims[..|s.dims|] == s.dims;
    ok := true;
  }

  /** Checks one dimension and counts the elements. */
  method CheckDim(dims: seq<int>, i: nat, elements: int) returns (ok: bool, next: int)
    requires i < |dims| && dims[i] < TWO_63 && elements == Elements(dims[..i]) && NoOverflow(dims[..i])
    ensures ok <==> dims[i] >= -1 && NoOverflow(dims[..i + 1])
    ensures ok ==> next == Elements(dims[..i + 1])
  {
    assert dims[..i + 1][..i] == dims[..i];
    FewElements(dims[..i]);
    next := elements;
    if dims[i] < -1 {
      return false, next;
    }
    if dims[i] == -1 {
      next := -1;
    } else if elements >= 0 {
      next := MultiplyWithoutOverflow(elements, dims[i]);
      if next < 0 {
        return false, next;
      }
    }
    ok := true;
  }

  lemma AlikeIsSame(a: seq<int>, b: seq<int>)
    requires Alike(a, b) && forall d :: 0 <= d < |a| ==> a[d] >= -1
    ensures a == b
  {
    forall d | 0 <= d < |a|
      ensures a[d] == b[d]
    {
      assert AlikeAt(a[d], b[d]);
    }
  }

  /** The shapes of the attribute; fails if one of them is not valid. */
  method GetNodeAttr(attr: seq<Shape>) returns (r: Outcome<seq<Shape>>)
    requires forall i :: 0 <= i < |attr| ==> Fits64(attr[i])
    ensures r == if forall i :: 0 <= i < |attr| ==> Storable(attr[i]) then Ok(attr) else InvalidShape
  {
    var shapes: seq<Shape> := [];
    for i := 0 to |attr|
      invariant shapes == attr[..i] && forall k :: 0 <= k < i ==> Storable(attr[k])
    {
      assert Fits64(attr[i]);
      var ok := IsValidShape(attr[i]);
      if !ok {
        assert !Storable(attr[i]);
        return InvalidShape;
      }
      if attr[i].Unknown? {
        shapes := shapes + [Unknown];
      } else {
        var made, s := MakeShape(attr[i].dims);
        AlikeIsSame(attr[i].dims, s.Dims());
        shapes := shapes + [Known(s.Dims())];
      }
    }
    assert attr[..|attr|] == attr;
    r := Ok(shapes);
  }

  /** The length of the list, and the number of all dimensions in it. */
  method Metadata(attr: seq<Shape>) returns (listSize: nat, totalSize: int)
    ensures listSize == |attr|
    ensures totalSize == if attr == [] then -1 else |FlatDims(attr)|
  {
    listSize, totalSize := |attr|, -1;
    if |attr| > 0 {
      totalSize := 0;
      for i := 0 to |attr|
        invariant totalSize == Position(attr, i)
      {
        FlatNext(attr, i);
        totalSize := totalSize + if attr[i].Unknown? then 0 else |attr[i].dims|;
      }
      assert attr[..|attr|] == attr;
    }
  }

  /** Copies one shape into the storage. */
  method CopyDims(dims: seq<int>, storage: array<int>, p: nat)
    requires p + |dims| <= storage.Length
    modifies storage
    ensures storage[p..p + |dims|] == dims && storage[..p] == old(storage[..p])
  {
    for j := 0 to |dims|
      invariant storage[p..p + j] == dims[..j] && storage[..p] == old(storage[..p])
    {
      storage[p + j] := dims[j];
      assert storage[p..p + j + 1] == storage[p..p + j] + [dims[j]];
      assert dims[..j + 1] == dims[..j] + [dims[j]];
    }
    assert dims[..|dims|] == dims;
  }

  /** What has been read of the shapes when i are done. */
  ghost predicate ReadBack(shapes: seq<Shape>, i: nat, values: seq<nat>, numDims: seq<int>, storage: seq<int>)
    requires i <= |shapes|
  {
    && i <= |values| && i <= |numDims| && Position(shapes, i) <= |storage|
    && storage[..Position(shapes, i)] == FlatDims(shapes[..i])
    && forall k :: 0 <= k < i ==> Located(shapes, k, values, numDims)
  }

  ghost predicate Located(shapes: seq<Shape>, k: nat, values: seq<nat>, numDims: seq<int>)
    requires k < |shapes| && k < |values| && k < |numDims|
  {
    values[k] == Position(shapes, k) && numDims[k] == NumDimensions(shapes[k])
  }

  lemma ReadBackNext(shapes: seq<Shape>, i: nat, values: seq<nat>, numDims: seq<int>, storage: seq<int>,
                     values': seq<nat>, numDims': seq<int>, storage': seq<int>)
    requires i < |shapes| && i < |values| && i < |numDims| && ReadBack(shapes, i, values, numDims, storage)
    requires values' == values[i := Position(shapes, i)] && numDims' == numDims[i := NumDimensions(shapes[i])]
    requires var p := Position(shapes, i);
             var n := if shapes[i].Known? then |shapes[i].dims| else 0;
             && p + n <= |storage'| && storage'[..p] == storage[..p]
             && (shapes[i].Known? ==> storage'[p..p + n] == shapes[i].dims)
    ensures ReadBack(shapes, i + 1, values', numDims', storage')
  {
    FlatNext(shapes, i);
    var p := Position(shapes, i);
    if shapes[i].Known? {
      var n := |shapes[i].dims|;
      assert storage'[..p + n] == storage'[..p] + storage'[p..p + n];
    }
    forall k | 0 <= k < i + 1
      ensures Located(shapes, k, values', numDims')
    {
      assert k < i ==> Located(shapes, k, values, numDims);
    }
  }

  /** Reads one shape; fails if its dimensions do not fit in what is left of the storage. */
  method GetShape(shapes: seq<Shape>, i: nat, values: array<nat>, numDims: array<int>, storage: array<int>,
                  p: nat, left: nat)
    returns (ok: bool, next: nat)
    requires values != storage as object && numDims != storage && values != numDims as object
    requires i < |shapes| && i < values.Length && i < numDims.Length && p + left <= storage.Length
    requires p == Position(shapes, i) && ReadBack(shapes, i, values[..], numDims[..], storage[..])
    modifies values, numDims, storage
    ensures ok <==> Position(shapes, i + 1) <= p + left
    ensures ok ==> next == Position(shapes, i + 1) && ReadBack(shapes, i + 1, values[..], numDims[..], storage[..])
  {
    var n := NumDimensions(shapes[i]);
    ghost var v, d, s := values[..], numDims[..], storage[..];
    FlatNext(shapes, i);
    numDims[i] := n;
    values[i] := p;
    ok, next := true, p;
    if n >= 0 {
      if left < n {
        return false, p;
      }
      CopyDims(shapes[i].dims, storage, p);
      next := p + n;
    }
    ReadBackNext(shapes, i, v, d, s, values[..], numDims[..], storage[..]);
  }

  lemma PositionGrows(shapes: seq<Shape>, i: nat, j: nat)
    requires i <= j <= |shapes|
    ensures Position(shapes, i) <= Position(shapes, j)
  {
    assert shapes[..j][..i] == shapes[..i];
    FlatPrefix(shapes[..j], i);
  }

  /** Reads at most maxValues shapes of the list into the caller's arrays; fails if the storage is too small for
      these. */
  method GetShapes(shapes: seq<Shape>, values: array<nat>, numDims: array<int>, maxValues: int,
                   storage: array<int>, storageSize: nat)
    returns (ok: bool, ghost len: nat)
    requires values != numDims as object && values != storage as object && numDims != storage
    requires maxValues <= values.Length && maxValues <= numDims.Length && storageSize <= storage.Length
    modifies values, numDims, storage
    ensures len == if maxValues < 0 then 0 else if maxValues < |shapes| then maxValues else |shapes|
    ensures ok <==> |FlatDims(shapes[..len])| <= storageSize
    ensures ok ==> ReadBack(shapes, len, values[..], numDims[..], storage[..])
  {
    len := if maxValues < 0 then 0 else if maxValues < |shapes| then maxValues else |shapes|;
    var n := if maxValues < |shapes| then maxValues else |shapes|;
    var p, i := 0, 0;
    while i < n
      invariant 0 <= i <= len && p == Position(shapes, i) <= storageSize
      invariant ReadBack(shapes, i, values[..], numDims[..], storage[..])
    {
      PositionGrows(shapes, i + 1, len);
      ok, p := GetShape(shapes, i, values, numDims, storage, p, storageSize - p);
      if !ok {
        return;
      }
      i := i + 1;
    }
    ok := true;
  }

  /** The shape that the arrays hold at i. */
  method ListItem(ghost attr: seq<Shape>, i: nat, dims: array<nat>, numDims: array<int>, storage: array<int>)
    returns (s: Shape)
    requires i < |attr| && ReadBack(attr, |attr|, dims[..], numDims[..], storage[..])
    ensures s == attr[i]
  {
    assert Located(attr, i, dims[..], numDims[..]);
    if numDims[i] < 0 {
      return Unknown;
    }
    DimsAt(attr, i);
    assert attr[..|attr|] == attr;
    InPrefix(storage[..], FlatDims(attr), dims[i], dims[i] + numDims[i]);
    s := Known(storage[..][dims[i]..dims[i] + numDims[i]]);
  }

  lemma InPrefix<T>(s: seq<T>, p: seq<T>, a: nat, b: nat)
    requires a <= b <= |p| <= |s| && s[..|p|] == p
    ensures s[a..b] == p[a..b]
  {
    forall k | a <= k < b
      ensures s[k] == p[k]
    {
      assert s[..|p|][k] == s[k];
    }
  }

  /** Reads the attribute back. */
  method Attr(attr: seq<Shape>) returns (r: Outcome<seq<Shape>>)
    requires forall i :: 0 <= i < |attr| ==> Fits64(attr[i])
    ensures r == if forall i :: 0 <= i < |attr| ==> Storable(attr[i]) then Ok(attr) else InvalidShape
  {
    var listSize, totalSize := Metadata(attr);
    if listSize == 0 {
      return Ok([]);
    }
    var dims: array<nat> := new nat[listSize];
    var numDims := new int[listSize];
    var storage := new int[totalSize + 1];
    var shapes := GetNodeAttr(attr);
    if shapes.InvalidShape? {
      return InvalidShape;
    }
    var ok, _ := GetShapes(attr, dims, numDims, listSize, storage, totalSize);
    assert attr[..|attr|] == attr;
    if !ok {
      return NotEnoughStorage;
    }
    var list: seq<Shape> := [];
    for i := 0 to listSize
      invariant list == attr[..i]
      invariant ReadBack(attr, |attr|, dims[..], numDims[..], storage[..])
    {
      var item := ListItem(attr, i, dims, numDims, storage);
      list := list + [item];
    }
    assert attr[..|attr|] == attr;
    r := Ok(list);
  }

  // ----- the round trip

  /** Setting a list of shapes and reading it back gives the list if and only if all its shapes are storable. */
  method RoundTrip(value: seq<Shape>) returns (r: Outcome<seq<Shape>>)
    requires forall i :: 0 <= i < |value| ==> Fits64(value[i])
    ensures r == Ok(value) <==> forall i :: 0 <= i < |value| ==> Storable(value[i])
    ensures r == Aborts <==> exists i :: 0 <= i < |value| && !Makeable(value[i])
  {
    var attr := SetAttr(value);
    if attr.Aborts? {
      return Aborts;
    }
    forall i | 0 <= i < |value|
      ensures Fits64(attr.value[i]) && (Storable(value[i]) ==> attr.value[i] == value[i])
    {
      KeptStorable(value[i], attr.value[i]);
    }
    r := Attr(attr.value);
    assert (forall i :: 0 <= i < |value| ==> Storable(value[i])) ==> attr.value == value;
  }

  /** A dimension of -2 does not come back: the shape is accepted when it is set, but it is not storable. */
  lemma NegativeDimensionIsLost()
    ensures Makeable(Known([-2])) && !Storable(Known([-2])) && Fits64(Known([-2]))
  {
  }

  method MinusTwoIsLost() returns (r: Outcome<seq<Shape>>)
    ensures r != Ok([Known([-2])]) && r != Aborts
  {
    NegativeDimensionIsLost();
    var value := [Known([-2])];
    assert !Storable(value[0]);
    r := RoundTrip(value);
  }

  lemma KeptStorable(s: Shape, kept: Shape)
    requires KeptAs(s, kept) && Fits64(s)
    ensures Fits64(kept) && (Storable(s) ==> kept == s)
  {
    if s.Known? {
      forall d | 0 <= d < |s.dims|
        ensures kept.dims[d] < TWO_63
      {
        assert AlikeAt(s.dims[d], kept.dims[d]);
      }
      if Storable(s) {
        AlikeIsSame(s.dims, kept.dims);
      }
    }
  }
}
