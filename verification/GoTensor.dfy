/** Numeric tensors in the Go interface: encoding nested slices into a buffer and decoding them. */
module GoTensor {
  import opened Sequences
  import opened Varint
  import opened NestedValues

  // ----- elements

  /** A number is kept as the bytes that it has in memory. */
  datatype Scalar = Flag(b: bool) | Number(bytes: seq<byte>)

  datatype Kind = BoolKind | NumberKind(size: nat)

  function Size(kind: Kind): nat {
    if kind.BoolKind? then 1 else kind.size
  }

  predicate OfKind(x: Scalar, kind: Kind) {
    match x
    case Flag(_) => kind.BoolKind?
    case Number(bytes) => kind.NumberKind? && |bytes| == kind.size
  }

  predicate AllOfKind(v: Nested<Scalar>, kind: Kind) {
    match v
    case Leaf(x) => OfKind(x, kind)
    case List(items) => forall i :: 0 <= i < |items| ==> AllOfKind(items[i], kind)
  }

  function ScalarBytes(x: Scalar): seq<byte> {
    if x.Number? then x.bytes else if x.b then [1] else [0]
  }

  function AllBytes(xs: seq<Scalar>): seq<byte> {
    if xs == [] then [] else AllBytes(xs[..|xs| - 1]) + ScalarBytes(xs[|xs| - 1])
  }

  /** The element that the bytes are read as. */
  function ScalarOf(kind: Kind, bytes: seq<byte>): Scalar {
    if kind.NumberKind? then Number(bytes) else Flag(bytes == [1])
  }

  /** The bytes are read as these elements, one after the other. */
  predicate ReadAs(kind: Kind, bytes: seq<byte>, xs: seq<Scalar>)
    decreases |xs|
  {
    if xs == [] then bytes == []
    else
      |bytes| >= Size(kind) &&
      var n, end := |xs| - 1, |bytes| - Size(kind);
      xs[n] == ScalarOf(kind, bytes[end..]) && ReadAs(kind, bytes[..end], xs[..n])
  }

  lemma {:induction false} FlattenOfKind(v: Nested<Scalar>, kind: Kind)
    requires AllOfKind(v, kind)
    ensures forall x :: x in Flatten(v) ==> OfKind(x, kind)
    decreases v, 1
  {
    if v.List? {
      FlattenFirstOfKind(v, |v.items|, kind);
    }
  }

  lemma {:induction false} FlattenFirstOfKind(v: Nested<Scalar>, n: nat, kind: Kind)
    requires AllOfKind(v, kind) && v.List? && n <= |v.items|
    ensures forall x :: x in FlattenFirst(v, n) ==> OfKind(x, kind)
    decreases v, 0, n
  {
    if n > 0 {
      FlattenFirstOfKind(v, n - 1, kind);
      FlattenOfKind(v.items[n - 1], kind);
    }
  }

  lemma {:induction false} AllBytesLength(xs: seq<Scalar>, kind: Kind)
    requires forall x :: x in xs ==> OfKind(x, kind)
    ensures |AllBytes(xs)| == |xs| * Size(kind)
  {
    if xs != [] {
      var n := |xs| - 1;
      AllBytesLength(xs[..n], kind);
      assert OfKind(xs[n], kind);
      OneLess(|xs|, Size(kind));
    }
  }

  lemma AllBytesNext(xs: seq<Scalar>, x: Scalar)
    ensures AllBytes(xs + [x]) == AllBytes(xs) + ScalarBytes(x)
  {
    assert (xs + [x])[..|xs|] == xs;
  }

  lemma {:induction false} AllBytesAppend(xs: seq<Scalar>, ys: seq<Scalar>)
    ensures AllBytes(xs + ys) == AllBytes(xs) + AllBytes(ys)
  {
    if ys == [] {
      assert xs + ys == xs;
    } else {
      var zs, y := ys[..|ys| - 1], ys[|ys| - 1];
      assert ys == zs + [y];
      Associative(xs, zs, [y]);
      AllBytesAppend(xs, zs);
      AllBytesNext(xs + zs, y);
      Associative(AllBytes(xs), AllBytes(zs), ScalarBytes(y));
    }
  }

  lemma ReadNext(kind: Kind, a: seq<byte>, xs: seq<Scalar>, b: seq<byte>)
    requires ReadAs(kind, a, xs) && |b| == Size(kind)
    ensures ReadAs(kind, a + b, xs + [ScalarOf(kind, b)])
  {
    assert (a + b)[..|a|] == a && (a + b)[|a|..] == b && (xs + [ScalarOf(kind, b)])[..|xs|] == xs;
  }

  lemma SplitEnd<T>(s: seq<T>, n: nat)
    requires n <= |s|
    ensures s == s[..n] + s[n..] && (n == |s| - 1 ==> s[n..] == [s[n]])
  {
  }

  lemma {:induction false} ReadAppend(kind: Kind, a: seq<byte>, xs: seq<Scalar>, b: seq<byte>, ys: seq<Scalar>)
    requires ReadAs(kind, a, xs) && ReadAs(kind, b, ys)
    ensures ReadAs(kind, a + b, xs + ys)
    decreases |ys|
  {
    if ys == [] {
      assert a + b == a && xs + ys == xs;
    } else {
      var n, end := |ys| - 1, |b| - Size(kind);
      ReadAppend(kind, a, xs, b[..end], ys[..n]);
      ReadNext(kind, a + b[..end], xs + ys[..n], b[end..]);
      SplitEnd(b, end);
      SplitEnd(ys, n);
      Associative(a, b[..end], b[end..]);
      Associative(xs, ys[..n], ys[n..]);
    }
  }

  /** Written elements are read again. */
  lemma {:induction false} WrittenIsRead(kind: Kind, xs: seq<Scalar>)
    requires forall x :: x in xs ==> OfKind(x, kind)
    ensures ReadAs(kind, AllBytes(xs), xs)
  {
    if xs != [] {
      var ys, x := xs[..|xs| - 1], xs[|xs| - 1];
      assert OfKind(x, kind) && xs == ys + [x];
      WrittenIsRead(kind, ys);
      ReadNext(kind, AllBytes(ys), ys, ScalarBytes(x));
    }
  }

  /** Read as, without regard to how the bytes are made up. */
  ghost predicate WholeReadAs(kind: Kind, bytes: seq<byte>, xs: seq<Scalar>) {
    forall b: seq<byte> :: b == bytes ==> ReadAs(kind, b, xs)
  }

  lemma ReadLast(kind: Kind, bytes: seq<byte>, xs: seq<Scalar>)
    requires WholeReadAs(kind, bytes, xs) && xs != []
    ensures |bytes| >= Size(kind)
    ensures var n, end := |xs| - 1, |bytes| - Size(kind);
      xs[n] == ScalarOf(kind, bytes[end..]) && WholeReadAs(kind, bytes[..end], xs[..n])
  {
    assert ReadAs(kind, bytes, xs);
  }

  lemma {:induction false} WholeReadUnique(kind: Kind, bytes: seq<byte>, xs: seq<Scalar>, ys: seq<Scalar>)
    requires |xs| == |ys| && WholeReadAs(kind, bytes, xs) && WholeReadAs(kind, bytes, ys)
    ensures xs == ys
    decreases |xs|
  {
    if xs != [] {
      var n := |xs| - 1;
      ReadLast(kind, bytes, xs);
      ReadLast(kind, bytes, ys);
      WholeReadUnique(kind, bytes[..|bytes| - Size(kind)], xs[..n], ys[..n]);
      SameWithLast(xs, ys);
    }
  }

  /** Bytes are read in one way only. */
  lemma ReadUnique(kind: Kind, bytes: seq<byte>, xs: seq<Scalar>, ys: seq<Scalar>)
    requires |xs| == |ys| && ReadAs(kind, bytes, xs) && ReadAs(kind, bytes, ys)
    ensures xs == ys
  {
    WholeReadUnique(kind, bytes, xs, ys);
  }

  lemma SameWithLast(xs: seq<Scalar>, ys: seq<Scalar>)
    requires |xs| == |ys| > 0 && xs[..|xs| - 1] == ys[..|xs| - 1] && xs[|xs| - 1] == ys[|xs| - 1]
    ensures xs == ys
  {
    var n := |xs| - 1;
    assert xs == xs[..n] + [xs[n]] && ys == ys[..n] + [ys[n]];
  }

  // ----- writing

  /** A growing buffer over memory of a fixed size. */
  class Buffer {
    const raw: array<byte>
    var len: nat

    ghost predicate Valid()
      reads this
    {
      len <= raw.Length
    }

    ghost function Contents(): seq<byte>
      requires Valid()
      reads this, raw
    {
      raw[..len]
    }

    constructor (raw: array<byte>)
      ensures Valid() && this.raw == raw && Contents() == []
    {
      this.raw := raw;
      len := 0;
    }

    /** Appends bytes for which there is room; with less room the buffer would move to other memory. */
    method Write(bytes: seq<byte>)
      requires Valid() && len + |bytes| <= raw.Length
      modifies this, raw
      ensures Valid() && len == old(len) + |bytes| && Contents() == old(Contents()) + bytes
    {
      forall k | 0 <= k < |bytes| {
        raw[len + k] := bytes[k];
      }
      len := len + |bytes|;
    }
  }

  /** How many bytes the elements of a shape take. */
  function Room(kind: Kind, shape: seq<nat>): nat {
    Product(shape) * Size(kind)
  }

  function Times(n: nat, room: nat): nat {
    if n == 0 then 0 else Times(n - 1, room) + room
  }

  lemma {:induction false} TimesIsProduct(n: nat, room: nat)
    ensures Times(n, room) == n * room
  {
    if n > 0 {
      TimesIsProduct(n - 1, room);
      OneLess(n, room);
    }
  }

  lemma RoomOfItems(kind: Kind, shape: seq<nat>)
    requires shape != []
    ensures Room(kind, shape) == Times(shape[0], Room(kind, shape[1..]))
  {
    TimesIsProduct(shape[0], Room(kind, shape[1..]));
  }

  lemma WrittenSize(v: Nested<Scalar>, shape: seq<nat>, kind: Kind)
    requires Fits(v, shape) && AllOfKind(v, kind)
    ensures |AllBytes(Flatten(v))| == Room(kind, shape)
  {
    FlattenLength(v, shape);
    FlattenOfKind(v, kind);
    AllBytesLength(Flatten(v), kind);
  }

  /** The elements of a slice of numbers. */
  function Leaves(items: seq<Nested<Scalar>>): (r: seq<Scalar>)
    requires forall i :: 0 <= i < |items| ==> items[i].Leaf?
    ensures |r| == |items| && forall i :: 0 <= i < |r| ==> r[i] == items[i].value
  {
    seq(|items|, i requires 0 <= i < |items| => items[i].value)
  }

  lemma {:induction false} FlattenLeaves(v: Nested<Scalar>, n: nat)
    requires v.List? && n <= |v.items| && forall i :: 0 <= i < |v.items| ==> v.items[i].Leaf?
    ensures FlattenFirst(v, n) == Leaves(v.items)[..n]
    decreases n
  {
    if n > 0 {
      FlattenLeaves(v, n - 1);
    }
  }

  /** Writes a whole slice of numbers at once. */
  method WriteSlice(w: Buffer, xs: seq<Scalar>, ghost kind: Kind)
    requires w.Valid() && (forall x :: x in xs ==> OfKind(x, kind)) && w.len + |xs| * Size(kind) <= w.raw.Length
    modifies w, w.raw
    ensures w.Valid() && w.Contents() == old(w.Contents()) + AllBytes(xs)
  {
    var chunk: seq<byte> := [];
    for i := 0 to |xs|
      invariant chunk == AllBytes(xs[..i])
    {
      assert xs[..i + 1][..i] == xs[..i];
      chunk := chunk + ScalarBytes(xs[i]);
    }
    assert xs[..|xs|] == xs;
    AllBytesLength(xs, kind);
    w.Write(chunk);
  }

  lemma LeafBytes(x: Scalar, kind: Kind)
    requires OfKind(x, kind)
    ensures AllBytes([x]) == ScalarBytes(x) && |ScalarBytes(x)| == Room(kind, [])
  {
    AllBytesNext([], x);
  }

  /** A slice with one dimension. */
  lemma SliceOfLeaves(v: Nested<Scalar>, shape: seq<nat>, kind: Kind)
    requires v.List? && |shape| == 1 && |v.items| == shape[0] && HasDepth(v, 1) && AllOfKind(v, kind)
    ensures (forall i :: 0 <= i < |v.items| ==> v.items[i].Leaf?) && Fits(v, shape)
    ensures Flatten(v) == Leaves(v.items) && forall x :: x in Leaves(v.items) ==> OfKind(x, kind)
    ensures |Leaves(v.items)| * Size(kind) == Room(kind, shape)
  {
    FlattenLeaves(v, |v.items|);
    assert Product(shape) == shape[0] * Product([]);
    assert forall i :: 0 <= i < |v.items| ==> HasDepth(v.items[i], 0) && AllOfKind(v.items[i], kind);
  }

  /** Writes the elements of a value; fails if it does not fit the shape. */
  method EncodeTensor(w: Buffer, v: Nested<Scalar>, shape: seq<nat>, ghost kind: Kind) returns (ok: bool)
    requires w.Valid() && HasDepth(v, |shape|) && AllOfKind(v, kind)
    requires w.len + Room(kind, shape) <= w.raw.Length
    modifies w, w.raw
    ensures w.Valid() && (ok <==> Fits(v, shape))
    ensures ok ==> w.Contents() == old(w.Contents()) + AllBytes(Flatten(v))
    decreases |shape|, 1
  {
    match v {
      case Leaf(x) =>
        LeafBytes(x, kind);
        w.Write(ScalarBytes(x));
        ok := true;
      case List(items) =>
        if |items| != shape[0] {
          return false;
        }
        if |shape| == 1 && |items| > 0 && items[0].value.Number? {
          SliceOfLeaves(v, shape, kind);
          WriteSlice(w, Leaves(items), kind);
          return true;
        }
        RoomOfItems(kind, shape);
        ok := EncodeItems(w, v, shape, kind);
    }
  }

  /** The first i items fit and are written behind base, and there is room for the others. */
  ghost predicate EncodedTo(base: seq<byte>, now: seq<byte>, capacity: nat, v: Nested<Scalar>, i: nat,
                            shape: seq<nat>, kind: Kind)
    requires v.List? && shape != []
  {
    forall n: nat :: n == i ==> FirstEncoded(base, now, capacity, v, n, shape, kind)
  }

  ghost predicate FirstEncoded(base: seq<byte>, now: seq<byte>, capacity: nat, v: Nested<Scalar>, i: nat,
                               shape: seq<nat>, kind: Kind)
    requires v.List? && shape != []
  {
    && i <= |v.items| && FirstFit(v, i, shape) && ItemsWritten(base, now, v, i)
    && |now| + Times(|v.items| - i, Room(kind, shape[1..])) <= capacity
  }

  /** Writes the items of a slice one by one. */
  method EncodeItems(w: Buffer, v: Nested<Scalar>, shape: seq<nat>, ghost kind: Kind) returns (ok: bool)
    requires w.Valid() && v.List? && HasDepth(v, |shape|) && AllOfKind(v, kind) && |v.items| == shape[0]
    requires w.len + Times(shape[0], Room(kind, shape[1..])) <= w.raw.Length
    modifies w, w.raw
    ensures w.Valid() && (ok <==> Fits(v, shape))
    ensures ok ==> w.Contents() == old(w.Contents()) + AllBytes(Flatten(v))
    decreases |shape|, 0
  {
    ghost var base := w.Contents();
    NothingWritten(base, w.raw.Length, v, shape, kind);
    for i := 0 to |v.items|
      invariant w.Valid() && EncodedTo(base, w.Contents(), w.raw.Length, v, i, shape, kind)
    {
      ok := EncodeItem(w, base, v, i, shape, kind);
      if !ok {
        ItemMisfits(v, shape, i);
        return false;
      }
    }
    AllItemsWritten(base, w.Contents(), w.raw.Length, v, shape, kind);
    ok := true;
  }

  /** The first i items fit. */
  ghost predicate FirstFit(v: Nested<Scalar>, i: nat, shape: seq<nat>)
    requires v.List? && i <= |v.items| && shape != []
  {
    forall k :: 0 <= k < i ==> Fits(v.items[k], shape[1..])
  }

  lemma NothingWritten(base: seq<byte>, capacity: nat, v: Nested<Scalar>, shape: seq<nat>, kind: Kind)
    requires v.List? && shape != [] && |base| + Times(|v.items|, Room(kind, shape[1..])) <= capacity
    ensures EncodedTo(base, base, capacity, v, 0, shape, kind)
  {
    assert base + AllBytes([]) == base;
  }

  lemma ItemMisfits(v: Nested<Scalar>, shape: seq<nat>, i: nat)
    requires v.List? && shape != [] && i < |v.items| && !Fits(v.items[i], shape[1..])
    ensures !Fits(v, shape)
  {
  }

  lemma AllItemsWritten(base: seq<byte>, now: seq<byte>, capacity: nat, v: Nested<Scalar>, shape: seq<nat>, kind: Kind)
    requires v.List? && shape != [] && |v.items| == shape[0]
    requires EncodedTo(base, now, capacity, v, |v.items|, shape, kind)
    ensures Fits(v, shape) && now == base + AllBytes(Flatten(v))
  {
    assert FirstEncoded(base, now, capacity, v, |v.items|, shape, kind);
  }

  /** Writes item i after the items before it. */
  method EncodeItem(w: Buffer, ghost base: seq<byte>, v: Nested<Scalar>, i: nat, shape: seq<nat>, ghost kind: Kind)
    returns (ok: bool)
    requires w.Valid() && v.List? && shape != [] && i < |v.items|
    requires HasDepth(v, |shape|) && AllOfKind(v, kind)
    requires EncodedTo(base, w.Contents(), w.raw.Length, v, i, shape, kind)
    modifies w, w.raw
    ensures w.Valid() && (ok <==> Fits(v.items[i], shape[1..]))
    ensures ok ==> EncodedTo(base, w.Contents(), w.raw.Length, v, i + 1, shape, kind)
    decreases |shape| - 1, 2
  {
    ghost var before := w.Contents();
    RoomForItem(base, before, w.raw.Length, v, i, shape, kind);
    ok := EncodeTensor(w, v.items[i], shape[1..], kind);
    if ok {
      EncodedNext(base, before, w.Contents(), w.raw.Length, v, i, shape, kind);
    }
  }

  lemma RoomForItem(base: seq<byte>, now: seq<byte>, capacity: nat, v: Nested<Scalar>, i: nat, shape: seq<nat>,
                    kind: Kind)
    requires v.List? && shape != [] && i < |v.items| && EncodedTo(base, now, capacity, v, i, shape, kind)
    ensures |now| + Room(kind, shape[1..]) <= capacity
  {
    assert FirstEncoded(base, now, capacity, v, i, shape, kind);
  }

  lemma EncodedNext(base: seq<byte>, now: seq<byte>, after: seq<byte>, capacity: nat, v: Nested<Scalar>, i: nat,
                    shape: seq<nat>, kind: Kind)
    requires v.List? && shape != [] && i < |v.items| && EncodedTo(base, now, capacity, v, i, shape, kind)
    requires Fits(v.items[i], shape[1..]) && AllOfKind(v.items[i], kind)
    requires after == now + AllBytes(Flatten(v.items[i]))
    ensures EncodedTo(base, after, capacity, v, i + 1, shape, kind)
  {
    assert FirstEncoded(base, now, capacity, v, i, shape, kind);
    WrittenSize(v.items[i], shape[1..], kind);
    ItemWritten(base, v, i, now, after);
    assert FirstFit(v, i + 1, shape);
  }

  ghost predicate ItemsWritten(base: seq<byte>, now: seq<byte>, v: Nested<Scalar>, i: nat)
    requires v.List? && i <= |v.items|
  {
    now == base + AllBytes(FlattenFirst(v, i))
  }

  lemma ItemWritten(base: seq<byte>, v: Nested<Scalar>, i: nat, before: seq<byte>, after: seq<byte>)
    requires v.List? && i < |v.items|
    requires ItemsWritten(base, before, v, i)
    requires after == before + AllBytes(Flatten(v.items[i]))
    ensures ItemsWritten(base, after, v, i + 1)
  {
    AllBytesAppend(FlattenFirst(v, i), Flatten(v.items[i]));
    Associative(base, AllBytes(FlattenFirst(v, i)), AllBytes(Flatten(v.items[i])));
  }

  // ----- reading

  class Reader {
    const data: seq<byte>
    var pos: nat

    constructor (data: seq<byte>)
      ensures Valid() && this.data == data && pos == 0
    {
      this.data := data;
      pos := 0;
    }

    ghost predicate Valid()
      reads this
    {
      pos <= |data|
    }

    /** Reads n bytes; fails if there are fewer. */
    method Read(n: nat) returns (ok: bool, bytes: seq<byte>)
      requires Valid()
      modifies this
      ensures Valid()
      ensures ok <==> old(pos) + n <= |data|
      ensures ok ==> pos == old(pos) + n && bytes == data[old(pos)..pos]
    {
      ok := pos + n <= |data|;
      bytes := if ok then data[pos..pos + n] else [];
      pos := if ok then pos + n else pos;
    }
  }

  lemma ReadMore(kind: Kind, bytes: seq<byte>, pos: nat, xs: seq<Scalar>, next: nat)
    requires next == pos + Size(kind) <= |bytes| && ReadAs(kind, bytes[0..pos], xs)
    ensures ReadAs(kind, bytes[0..next], xs + [ScalarOf(kind, bytes[pos..next])])
  {
    SplitSlice(bytes, 0, pos, next);
    ReadNext(kind, bytes[0..pos], xs, bytes[pos..next]);
  }

  /** Splits the bytes of a slice of numbers. */
  method SplitNumbers(kind: Kind, bytes: seq<byte>, n: nat) returns (xs: seq<Scalar>)
    requires |bytes| == Times(n, Size(kind))
    ensures |xs| == n && ReadAs(kind, bytes, xs)
  {
    var pos := 0;
    xs := [];
    ghost var size, rest := Size(kind), |bytes|;
    for k := 0 to n
      invariant |xs| == k && 0 <= pos && pos + rest == |bytes| && rest == Times(n - k, size)
      invariant ReadAs(kind, bytes[0..pos], xs)
    {
      rest := rest - size;
      xs, pos := SplitNumber(kind, bytes, pos, xs);
    }
    assert bytes[0..pos] == bytes;
  }

  method SplitNumber(kind: Kind, bytes: seq<byte>, pos: nat, xs: seq<Scalar>) returns (more: seq<Scalar>, next: nat)
    requires pos + Size(kind) <= |bytes| && ReadAs(kind, bytes[0..pos], xs)
    ensures next == pos + Size(kind) && |more| == |xs| + 1 && ReadAs(kind, bytes[0..next], more)
  {
    next := pos + Size(kind);
    ReadMore(kind, bytes, pos, xs, next);
    more := xs + [ScalarOf(kind, bytes[pos..next])];
  }

  function Leafs(xs: seq<Scalar>): (r: seq<Nested<Scalar>>)
    ensures |r| == |xs| && forall k :: 0 <= k < |xs| ==> r[k] == Leaf(xs[k])
  {
    seq(|xs|, k requires 0 <= k < |xs| => Leaf(xs[k]))
  }

  lemma ListOfNumbers(xs: seq<Scalar>, shape: seq<nat>)
    requires shape == [|xs|]
    ensures Fits(List(Leafs(xs)), shape) && Flatten(List(Leafs(xs))) == xs
  {
    var v := List(Leafs(xs));
    FlattenLeaves(v, |xs|);
    assert Leaves(v.items) == xs;
  }

  /** Reads a value of the given shape; fails if there are too few bytes. */
  method DecodeTensor(r: Reader, kind: Kind, shape: seq<nat>) returns (ok: bool, v: Nested<Scalar>)
    requires r.Valid()
    modifies r
    ensures r.Valid() && (ok <==> old(r.pos) + Room(kind, shape) <= |r.data|)
    ensures ok ==> r.pos == old(r.pos) + Room(kind, shape)
    ensures ok ==> Fits(v, shape) && ReadAs(kind, r.data[old(r.pos)..r.pos], Flatten(v))
    decreases |shape|, 1
  {
    if shape == [] {
      var bytes;
      ok, bytes := r.Read(Size(kind));
      v := Leaf(ScalarOf(kind, bytes));
      return;
    }
    RoomOfItems(kind, shape);
    if |shape| == 1 && shape[0] > 0 && kind.NumberKind? {
      TimesIsProduct(shape[0], Size(kind));
      assert Product(shape) == shape[0] * Product([]);
      var bytes;
      ok, bytes := r.Read(shape[0] * Size(kind));
      if !ok {
        return false, List([]);
      }
      var xs := SplitNumbers(kind, bytes, shape[0]);
      ListOfNumbers(xs, shape);
      return true, List(Leafs(xs));
    }
    var items;
    ok, items := DecodeItems(r, kind, shape);
    v := List(items);
    if ok {
      AllItemsRead(kind, shape, r.data[old(r.pos)..r.pos], items);
    }
  }

  /** The bytes are read as the items. */
  ghost predicate ItemsRead(kind: Kind, shape: seq<nat>, bytes: seq<byte>, items: seq<Nested<Scalar>>) {
    shape != [] && forall its: seq<Nested<Scalar>> :: its == items ==> ReadItems(kind, shape, bytes, its)
  }

  ghost predicate ReadItems(kind: Kind, shape: seq<nat>, bytes: seq<byte>, items: seq<Nested<Scalar>>)
    requires shape != []
  {
    && (forall k :: 0 <= k < |items| ==> Fits(items[k], shape[1..]))
    && ReadAs(kind, bytes, FlattenFirst(List(items), |items|))
  }

  lemma NoItemsRead(kind: Kind, shape: seq<nat>)
    requires shape != []
    ensures ItemsRead(kind, shape, [], [])
  {
  }

  lemma AllItemsRead(kind: Kind, shape: seq<nat>, bytes: seq<byte>, items: seq<Nested<Scalar>>)
    requires ItemsRead(kind, shape, bytes, items) && |items| == shape[0]
    ensures Fits(List(items), shape) && ReadAs(kind, bytes, Flatten(List(items)))
  {
    assert ReadItems(kind, shape, bytes, items);
  }

  lemma ItemRead(kind: Kind, shape: seq<nat>, a: seq<byte>, items: seq<Nested<Scalar>>, b: seq<byte>, v: Nested<Scalar>)
    requires ItemsRead(kind, shape, a, items) && Fits(v, shape[1..]) && ReadAs(kind, b, Flatten(v))
    ensures ItemsRead(kind, shape, a + b, items + [v])
  {
    assert ReadItems(kind, shape, a, items);
    AppendItem(kind, a, items, b, v);
    AllFit(items, v, shape[1..]);
  }

  lemma AppendItem(kind: Kind, a: seq<byte>, items: seq<Nested<Scalar>>, b: seq<byte>, v: Nested<Scalar>)
    requires ReadAs(kind, a, FlattenFirst(List(items), |items|)) && ReadAs(kind, b, Flatten(v))
    ensures ReadAs(kind, a + b, FlattenFirst(List(items + [v]), |items + [v]|))
  {
    FlattenMore(items, v);
    ReadAppend(kind, a, FlattenFirst(List(items), |items|), b, Flatten(v));
  }

  lemma AllFit<T>(items: seq<Nested<T>>, v: Nested<T>, shape: seq<nat>)
    requires (forall k :: 0 <= k < |items| ==> Fits(items[k], shape)) && Fits(v, shape)
    ensures forall k :: 0 <= k < |items + [v]| ==> Fits((items + [v])[k], shape)
  {
  }

  /** Reads the items of a slice one by one. */
  method DecodeItems(r: Reader, kind: Kind, shape: seq<nat>) returns (ok: bool, items: seq<Nested<Scalar>>)
    requires r.Valid() && shape != []
    modifies r
    ensures r.Valid() && (ok <==> old(r.pos) + Times(shape[0], Room(kind, shape[1..])) <= |r.data|)
    ensures ok ==> r.pos == old(r.pos) + Times(shape[0], Room(kind, shape[1..]))
    ensures ok ==> |items| == shape[0] && ItemsRead(kind, shape, r.data[old(r.pos)..r.pos], items)
    decreases |shape|, 0
  {
    ghost var start, room := r.pos, Room(kind, shape[1..]);
    ghost var rest := Times(shape[0], room);
    ghost var end := start + rest;
    items := [];
    NoItemsRead(kind, shape);
    for i := 0 to shape[0]
      invariant r.Valid() && r.pos + rest == end && rest == Times(shape[0] - i, room) && start <= r.pos
      invariant |items| == i && ItemsRead(kind, shape, r.data[start..r.pos], items)
    {
      rest := rest - room;
      ghost var before := r.pos;
      var v;
      ok, v := DecodeTensor(r, kind, shape[1..]);
      if !ok {
        return false, items;
      }
      ItemReadAt(kind, shape, r.data, start, before, r.pos, items, v);
      items := items + [v];
    }
    ok := true;
  }

  lemma ItemReadAt(kind: Kind, shape: seq<nat>, data: seq<byte>, start: nat, pos: nat, next: nat,
                   items: seq<Nested<Scalar>>, v: Nested<Scalar>)
    requires start <= pos <= next <= |data| && ItemsRead(kind, shape, data[start..pos], items)
    requires Fits(v, shape[1..]) && ReadAs(kind, data[pos..next], Flatten(v))
    ensures ItemsRead(kind, shape, data[start..next], items + [v])
  {
    SplitSlice(data, start, pos, next);
    ItemRead(kind, shape, data[start..pos], items, data[pos..next], v);
  }

  // ----- tensors

  /** Panics if the bytes of the tensor do not fit the array type through which they are seen. */
  datatype Outcome<T> = Ok(value: T) | Mismatch | Panics | Bug

  const MAX_BYTES := 0x4000_0000

  class Tensor {
    const kind: Kind
    const shape: seq<nat>
    const raw: array<byte>

    constructor (kind: Kind, shape: seq<nat>, raw: array<byte>)
      ensures this.kind == kind && this.shape == shape && this.raw == raw
    {
      this.kind, this.shape, this.raw := kind, shape, raw;
    }
  }

  /** Follows the elements with index zero. */
  method ShapeOfValue<T>(v: Nested<T>, depth: nat) returns (shape: seq<nat>)
    requires HasDepth(v, depth)
    ensures shape == ShapeOf(v, depth)
  {
    var val := v;
    shape := [];
    for d := 0 to depth
      invariant |shape| == d
      invariant HasDepth(val, depth - d) || val == List([])
      invariant shape + ShapeOf(val, depth - d) == ShapeOf(v, depth)
    {
      ShapeOfNext(val, depth - d);
      Associative(shape, [|val.items|], ShapeOf(if |val.items| > 0 then val.items[0] else val, depth - d - 1));
      shape := shape + [|val.items|];
      if |val.items| > 0 {
        val := val.items[0];
      }
    }
  }

  lemma ShapeOfNext<T>(v: Nested<T>, n: nat)
    requires n > 0 && (HasDepth(v, n) || v == List([]))
    ensures v.List? && var next := if |v.items| > 0 then v.items[0] else v;
      && (HasDepth(next, n - 1) || next == List([]))
      && ShapeOf(v, n) == [|v.items|] + ShapeOf(next, n - 1)
  {
    if v.items == [] && n > 1 {
      assert Zeros(n) == [0] + Zeros(n - 1);
    }
  }

  method NumElements(shape: seq<nat>) returns (n: nat)
    ensures n == Product(shape)
  {
    n := 1;
    for i := 0 to |shape|
      invariant n * Product(shape[i..]) == Product(shape)
    {
      assert shape[i..][1..] == shape[i + 1..];
      Regroup(n, shape[i], Product(shape[i + 1..]));
      n := n * shape[i];
    }
  }

  lemma Regroup(n: nat, d: nat, p: nat)
    ensures n * (d * p) == n * d * p
  {
  }

  /** Makes a tensor from a value; fails if the value has no shape. */
  method NewTensor(v: Nested<Scalar>, depth: nat, kind: Kind) returns (r: Outcome<Tensor>)
    requires HasDepth(v, depth) && AllOfKind(v, kind)
    ensures var shape := ShapeOf(v, depth);
            && r != Bug
            && (r == Panics <==> Room(kind, shape) > MAX_BYTES)
            && (r == Mismatch <==> Room(kind, shape) <= MAX_BYTES && !Fits(v, shape))
            && (r.Ok? ==> r.value.kind == kind && r.value.shape == shape && r.value.raw[..] == AllBytes(Flatten(v)))
  {
    var shape := ShapeOfValue(v, depth);
    var n := NumElements(shape);
    var nbytes := n * Size(kind);
    if nbytes > MAX_BYTES {
      return Panics;
    }
    var raw := new byte[nbytes];
    var buf := new Buffer(raw);
    var ok := EncodeTensor(buf, v, shape, kind);
    if !ok {
      return Mismatch;
    }
    WrittenSize(v, shape, kind);
    if buf.len != nbytes {
      return Bug;
    }
    assert raw[..nbytes] == raw[..];
    var t := new Tensor(kind, shape, raw);
    r := Ok(t);
  }

  /** The value of a tensor. */
  method ValueOf(t: Tensor) returns (r: Outcome<Nested<Scalar>>)
    ensures r == Panics <==> t.raw.Length > MAX_BYTES || t.raw.Length < Room(t.kind, t.shape)
    ensures r.Ok? || r == Panics
    ensures r.Ok? ==> Fits(r.value, t.shape)
                      && ReadAs(t.kind, t.raw[..Room(t.kind, t.shape)], Flatten(r.value))
  {
    if t.raw.Length > MAX_BYTES {
      return Panics;
    }
    var reader := new Reader(t.raw[..]);
    var ok, v := DecodeTensor(reader, t.kind, t.shape);
    assert ok ==> t.raw[..][0..Room(t.kind, t.shape)] == t.raw[..Room(t.kind, t.shape)];
    r := if ok then Ok(v) else Panics;
  }

  /** The bytes of a value are read as the value. */
  lemma DecodedIsEncoded(v: Nested<Scalar>, w: Nested<Scalar>, shape: seq<nat>, kind: Kind)
    requires Fits(v, shape) && AllOfKind(v, kind) && Fits(w, shape)
    requires ReadAs(kind, AllBytes(Flatten(v)), Flatten(w))
    ensures v == w
  {
    FlattenOfKind(v, kind);
    WrittenIsRead(kind, Flatten(v));
    FlattenLength(v, shape);
    FlattenLength(w, shape);
    ReadUnique(kind, AllBytes(Flatten(v)), Flatten(v), Flatten(w));
    BuildFlatten(v, shape);
    BuildFlatten(w, shape);
  }

  /** A value that can be made into a tensor is the value of that tensor. */
  method RoundTrip(v: Nested<Scalar>, depth: nat, kind: Kind) returns (r: Outcome<Nested<Scalar>>)
    requires HasDepth(v, depth) && AllOfKind(v, kind)
    ensures r.Ok? <==> Room(kind, ShapeOf(v, depth)) <= MAX_BYTES && exists shape :: |shape| == depth && Fits(v, shape)
    ensures r.Ok? ==> r.value == v
  {
    HasShapeIffOwn(v, depth);
    var made := NewTensor(v, depth, kind);
    match made {
      case Mismatch => r := Mismatch;
      case Panics => r := Panics;
      case Bug => r := Bug;
      case Ok(t) =>
        WrittenSize(v, t.shape, kind);
        assert t.raw[..Room(kind, t.shape)] == t.raw[..];
        r := ValueOf(t);
        DecodedIsEncoded(v, r.value, t.shape, kind);
    }
  }
}
