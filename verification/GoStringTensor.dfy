/** String tensors in the Go interface, and their agreement with the C interface. */
module GoStringTensor {
  import opened MachineNumbers
  import opened Sequences
  import opened Varint
  import opened StringFormat
  import opened StringTensor
  import opened NestedValues
  import GoTensor

  type Text = seq<byte>

  // ----- sizes

  /** The size of the encoded strings. */
  ghost function DataSize(strings: seq<Text>): nat {
    |Data(Chunks(strings))|
  }

  lemma {:induction false} DataAppend(a: seq<seq<byte>>, b: seq<seq<byte>>)
    ensures |Data(a + b)| == |Data(a)| + |Data(b)|
  {
    if b == [] {
      assert a + b == a;
    } else {
      var n := |b| - 1;
      assert (a + b)[..|a + b| - 1] == a + b[..n];
      DataAppend(a, b[..n]);
    }
  }

  lemma ChunksAppend(a: seq<Text>, b: seq<Text>)
    ensures Chunks(a + b) == Chunks(a) + Chunks(b)
  {
  }

  lemma DataSizeAppend(a: seq<Text>, b: seq<Text>)
    ensures DataSize(a + b) == DataSize(a) + DataSize(b)
  {
    ChunksAppend(a, b);
    DataAppend(Chunks(a), Chunks(b));
  }

  lemma DataSizeOne(s: Text)
    ensures DataSize([s]) == |Encoded(s)|
  {
    assert Chunks([s]) == [Encoded(s)];
    assert Data([Encoded(s)]) == Data([]) + Encoded(s);
  }

  lemma {:induction false} FirstItemsSmaller(v: Nested<Text>, n: nat)
    requires v.List? && n <= |v.items|
    ensures DataSize(FlattenFirst(v, n)) <= DataSize(Flatten(v))
    decreases |v.items| - n
  {
    if n < |v.items| {
      DataSizeAppend(FlattenFirst(v, n), Flatten(v.items[n]));
      FirstItemsSmaller(v, n + 1);
    }
  }

  /** The first n + 1 items are the first n and one more. */
  lemma ItemSize(v: Nested<Text>, n: nat)
    requires v.List? && n < |v.items|
    ensures DataSize(FlattenFirst(v, n + 1)) == DataSize(FlattenFirst(v, n)) + DataSize(Flatten(v.items[n]))
    ensures DataSize(FlattenFirst(v, n + 1)) <= DataSize(Flatten(v))
  {
    DataSizeAppend(FlattenFirst(v, n), Flatten(v.items[n]));
    FirstItemsSmaller(v, n + 1);
  }

  method ByteSizeOfEncodedStrings(v: Nested<Text>) returns (size: nat)
    requires DataSize(Flatten(v)) < TWO_64
    ensures size == DataSize(Flatten(v))
    decreases v
  {
    match v {
      case Leaf(s) =>
        DataSizeOne(s);
        size := StringEncodedSize(|s|);
      case List(items) =>
        size := 0;
        for i := 0 to |items|
          invariant size == DataSize(FlattenFirst(v, i))
        {
          ItemSize(v, i);
          var n := ByteSizeOfEncodedStrings(items[i]);
          size := size + n;
        }
    }
  }

  // ----- encoding

  /** The strings are in place, seen as the first of one more. */
  lemma NextString(m: Machine, bytes: seq<byte>, strings: seq<Text>, n: nat, s: Text)
    requires |strings| < n && Filled(m, bytes, Chunks(strings), n, |strings|)
    ensures var chunks := Chunks(strings + [s]);
            && Filled(m, bytes, chunks, n, |strings|) && chunks[|strings|] == Encoded(s)
            && |Data(chunks[..|strings|])| == DataSize(strings)
    ensures DataSize(strings + [s]) == DataSize(strings) + |Encoded(s)|
  {
    ChunksAppend(strings, [s]);
    DataSizeAppend(strings, [s]);
    DataSizeOne(s);
    assert Chunks(strings + [s])[..|strings|] == Chunks(strings) == Chunks(strings)[..|strings|];
  }

  /** Writes offset and string i. */
  method PutNext(m: Machine, s: Text, ghost chunks: seq<seq<byte>>, n: nat, i: nat, raw: array<byte>, offset: nat)
    returns (r: Result<nat>)
    requires i < |chunks| && i < n && chunks[i] == Encoded(s) && Filled(m, raw[..], chunks, n, i)
    requires offset == |Data(chunks[..i])| && 8 * n + offset + |chunks[i]| <= raw.Length < TWO_64
    modifies raw
    ensures r == Ok(|chunks[i]|) && Filled(m, raw[..], chunks, n, i + 1)
  {
    PutOffset(m, chunks, n, i, raw, offset);
    r := PutString(m, s, chunks, n, i, raw, 8 * n + offset, raw.Length - 8 * n - offset);
  }

  /** If there is room for all items, there is room for the next. */
  lemma RoomForItem(before: seq<Text>, v: Nested<Text>, i: nat)
    requires v.List? && i < |v.items|
    ensures DataSize(before + FlattenFirst(v, i)) + DataSize(Flatten(v.items[i])) <=
      DataSize(before) + DataSize(Flatten(v))
  {
    ItemSize(v, i);
    DataSizeAppend(before, FlattenFirst(v, i));
  }

  ghost predicate ItemsDone(before: seq<Text>, v: Nested<Text>, i: nat, now: seq<Text>)
    requires v.List? && i <= |v.items|
  {
    now == before + FlattenFirst(v, i)
  }

  predicate FirstFit(v: Nested<Text>, shape: seq<nat>, n: nat)
    requires v.List? && n <= |v.items|
  {
    forall k :: 0 <= k < n ==> Fits(v.items[k], shape)
  }

  lemma ItemDone(before: seq<Text>, v: Nested<Text>, i: nat, now: seq<Text>)
    requires v.List? && i < |v.items| && now == before + FlattenFirst(v, i) + Flatten(v.items[i])
    ensures ItemsDone(before, v, i + 1, now)
  {
    Associative(before, FlattenFirst(v, i), Flatten(v.items[i]));
  }

  class StringEncoder {
    const m: Machine
    const raw: array<byte>
    const n: nat
    var written: nat
    var offset: nat
    ghost var strings: seq<Text>

    /** The first `written` offsets and strings of n are in place. */
    ghost predicate Valid()
      reads this, raw
    {
      && written == |strings| <= n && offset == DataSize(strings) && 8 * n + offset <= raw.Length < TWO_64
      && forall i :: i == written ==> Filled(m, raw[..], Chunks(strings), n, i)
    }

    constructor (m: Machine, raw: array<byte>, n: nat)
      requires 8 * n <= raw.Length < TWO_64
      ensures Valid() && this.m == m && this.raw == raw && this.n == n && strings == []
    {
      this.m, this.raw, this.n := m, raw, n;
      written, offset, strings := 0, 0, [];
      new;
      assert raw[0..0] == [] && raw[8 * n..8 * n] == [];
    }

    /** Writes the offset and the string. */
    method EncodeString(s: Text) returns (ok: bool)
      requires Valid() && written < n && 8 * n + offset + |Encoded(s)| <= raw.Length
      modifies this, raw
      ensures ok && Valid() && strings == old(strings) + [s]
    {
      ghost var chunks := Chunks(strings + [s]);
      NextString(m, raw[..], strings, n, s);
      var r := PutNext(m, s, chunks, n, written, raw, offset);
      match r {
        case Err(_) => ok := false;
        case Ok(size) =>
          written, offset, strings := written + 1, offset + size, strings + [s];
          ok := true;
      }
    }

    /** Writes all strings of a value; fails if it does not fit the shape. */
    method Encode(v: Nested<Text>, shape: seq<nat>) returns (ok: bool)
      requires Valid() && HasDepth(v, |shape|) && written + Product(shape) <= n
      requires 8 * n + DataSize(strings) + DataSize(Flatten(v)) <= raw.Length
      modifies this, raw
      ensures Valid() && (ok <==> Fits(v, shape))
      ensures ok ==> strings == old(strings) + Flatten(v)
      decreases |shape|, 1
    {
      match v {
        case Leaf(s) =>
          DataSizeOne(s);
          ok := EncodeString(s);
        case List(items) =>
          if |items| != shape[0] {
            return false;
          }
          GoTensor.TimesIsProduct(shape[0], Product(shape[1..]));
          ok := EncodeItems(v, shape);
      }
    }

    method EncodeItems(v: Nested<Text>, shape: seq<nat>) returns (ok: bool)
      requires Valid() && v.List? && HasDepth(v, |shape|) && |v.items| == shape[0]
      requires written + GoTensor.Times(shape[0], Product(shape[1..])) <= n
      requires 8 * n + DataSize(strings) + DataSize(Flatten(v)) <= raw.Length
      modifies this, raw
      ensures Valid() && (ok <==> Fits(v, shape))
      ensures ok ==> strings == old(strings) + Flatten(v)
      decreases |shape|, 0
    {
      ghost var before, count := strings, Product(shape[1..]);
      for i := 0 to |v.items|
        invariant Valid() && ItemsDone(before, v, i, strings) && FirstFit(v, shape[1..], i)
        invariant written + GoTensor.Times(shape[0] - i, count) <= n
      {
        ok := EncodeItem(before, v, i, shape);
        if !ok {
          return false;
        }
      }
      assert Fits(v, shape);
      ok := true;
    }

    /** Writes item i after the items before it. */
    method EncodeItem(ghost before: seq<Text>, v: Nested<Text>, i: nat, shape: seq<nat>) returns (ok: bool)
      requires Valid() && shape != [] && v.List? && i < |v.items| && HasDepth(v.items[i], |shape| - 1)
      requires ItemsDone(before, v, i, strings) && written + Product(shape[1..]) <= n
      requires 8 * n + DataSize(before) + DataSize(Flatten(v)) <= raw.Length
      modifies this, raw
      ensures Valid() && (ok <==> Fits(v.items[i], shape[1..]))
      ensures ok ==> ItemsDone(before, v, i + 1, strings) && written == old(written) + Product(shape[1..])
      decreases |shape| - 1, 2
    {
      RoomForItem(before, v, i);
      FlattenLengthIf(v.items[i], shape[1..]);
      ok := Encode(v.items[i], shape[1..]);
      if ok {
        ItemDone(before, v, i, strings);
      }
    }
  }

  lemma FlattenLengthIf(v: Nested<Text>, shape: seq<nat>)
    ensures Fits(v, shape) ==> |Flatten(v)| == Product(shape)
  {
    if Fits(v, shape) {
      FlattenLength(v, shape);
    }
  }

  // ----- decoding

  /** Strings a to b - 1 of n can be found. */
  predicate RangeLocated(m: Machine, bytes: seq<byte>, n: nat, a: nat, b: nat)
    requires a <= b <= n && 8 * n <= |bytes|
  {
    forall i :: a <= i < b ==> Located(m, bytes, n, i)
  }

  /** The strings are found from number a on. */
  ghost predicate FoundFrom(m: Machine, bytes: seq<byte>, n: nat, a: nat, strings: seq<Text>)
    requires 8 * n <= |bytes|
  {
    a + |strings| <= n && forall k :: 0 <= k < |strings| ==> HoldsAt(m, bytes, n, a + k, strings[k])
  }

  lemma FoundAppend(m: Machine, bytes: seq<byte>, n: nat, a: nat, xs: seq<Text>, ys: seq<Text>)
    requires 8 * n <= |bytes| && FoundFrom(m, bytes, n, a, xs) && FoundFrom(m, bytes, n, a + |xs|, ys)
    ensures FoundFrom(m, bytes, n, a, xs + ys)
  {
    forall k | 0 <= k < |xs + ys|
      ensures HoldsAt(m, bytes, n, a + k, (xs + ys)[k])
    {
      if k >= |xs| {
        assert HoldsAt(m, bytes, n, a + |xs| + (k - |xs|), ys[k - |xs|]);
      }
    }
  }

  /** The bytes of a string tensor with n elements; all ends are inside. */
  ghost predicate Readable(m: Machine, bytes: seq<byte>, n: nat) {
    8 * n <= |bytes| && forall i :: 0 <= i < n ==> EndsInside(m, bytes, n, i)
  }

  class StringDecoder {
    const m: Machine
    const raw: array<byte>
    const n: nat
    var next: nat

    constructor (m: Machine, raw: array<byte>, n: nat)
      ensures this.m == m && this.raw == raw && this.n == n && next == 0
    {
      this.m, this.raw, this.n, next := m, raw, n, 0;
    }

    /** Reads a value of the given shape; fails if one of its strings cannot be found. */
    method Decode(shape: seq<nat>) returns (ok: bool, v: Nested<Text>)
      requires Readable(m, raw[..], n) && next + Product(shape) <= n
      modifies this
      ensures next <= n && (ok <==> RangeLocated(m, raw[..], n, old(next), old(next) + Product(shape)))
      ensures ok ==> next == old(next) + Product(shape)
      ensures ok ==> Fits(v, shape) && FoundFrom(m, raw[..], n, old(next), Flatten(v))
      decreases |shape|, 1
    {
      if shape == [] {
        ok, v := DecodeString();
      } else {
        GoTensor.TimesIsProduct(shape[0], Product(shape[1..]));
        var items;
        ok, items := DecodeItems(shape);
        v := List(items);
      }
    }

    method DecodeString() returns (ok: bool, v: Nested<Text>)
      requires Readable(m, raw[..], n) && next < n
      modifies this
      ensures next == old(next) + 1 && (ok <==> RangeLocated(m, raw[..], n, old(next), old(next) + 1))
      ensures ok ==> v.Leaf? && FoundFrom(m, raw[..], n, old(next), Flatten(v))
    {
      var r := DecodeElement(m, raw, n, next);
      OneLocated(m, raw[..], n, next);
      match r {
        case Err(_) => ok, v := false, Leaf([]);
        case Ok(s) =>
          OneFound(m, raw[..], n, next, s);
          ok, v := true, Leaf(s);
      }
      next := next + 1;
    }

    method DecodeItems(shape: seq<nat>) returns (ok: bool, items: seq<Nested<Text>>)
      requires Readable(m, raw[..], n) && shape != []
      requires next + GoTensor.Times(shape[0], Product(shape[1..])) <= n
      modifies this
      ensures next <= n
      ensures ok <==> RangeLocated(m, raw[..], n, old(next), old(next) + GoTensor.Times(shape[0], Product(shape[1..])))
      ensures ok ==> next == old(next) + GoTensor.Times(shape[0], Product(shape[1..]))
      ensures ok ==> Fits(List(items), shape) && FoundFrom(m, raw[..], n, old(next), Flatten(List(items)))
      decreases |shape|, 0
    {
      ghost var first, count := next, Product(shape[1..]);
      ghost var end := first + GoTensor.Times(shape[0], count);
      items := [];
      NothingFound(m, raw[..], n, first, shape);
      for i := 0 to shape[0]
        invariant first <= next <= end && next + GoTensor.Times(shape[0] - i, count) == end
        invariant RangeLocated(m, raw[..], n, first, next)
        invariant |items| == i && ItemsFound(m, raw[..], n, first, next, shape, items)
      {
        ghost var here := next;
        ok, items := DecodeItem(first, items, shape);
        LocatedParts(m, raw[..], n, first, here, here + count, end);
        if !ok {
          return false, items;
        }
      }
      AllItemsFound(m, raw[..], n, first, next, shape, items);
      ok := true;
    }

    /** Reads one item more. */
    method DecodeItem(ghost first: nat, items: seq<Nested<Text>>, shape: seq<nat>)
      returns (ok: bool, more: seq<Nested<Text>>)
      requires Readable(m, raw[..], n) && shape != [] && next + Product(shape[1..]) <= n
      requires ItemsFound(m, raw[..], n, first, next, shape, items)
      modifies this
      ensures next <= n && (ok <==> RangeLocated(m, raw[..], n, old(next), old(next) + Product(shape[1..])))
      ensures ok ==> next == old(next) + Product(shape[1..])
      ensures ok ==> |more| == |items| + 1 && ItemsFound(m, raw[..], n, first, next, shape, more)
      decreases |shape| - 1, 2
    {
      ghost var here := next;
      var v;
      ok, v := Decode(shape[1..]);
      more := items + [v];
      if ok {
        FlattenLength(v, shape[1..]);
        ItemFound(m, raw[..], n, first, here, shape, items, v);
      }
    }
  }

  lemma OneLocated(m: Machine, bytes: seq<byte>, n: nat, a: nat)
    requires a < n && 8 * n <= |bytes|
    ensures RangeLocated(m, bytes, n, a, a + 1) <==> Located(m, bytes, n, a)
  {
  }

  lemma OneFound(m: Machine, bytes: seq<byte>, n: nat, a: nat, s: Text)
    requires a < n && 8 * n <= |bytes| && HoldsAt(m, bytes, n, a, s)
    ensures FoundFrom(m, bytes, n, a, Flatten(Leaf(s)))
  {
    assert Flatten(Leaf(s)) == [s];
  }

  lemma LocatedParts(m: Machine, bytes: seq<byte>, n: nat, a: nat, b: nat, c: nat, d: nat)
    requires a <= b <= c <= d <= n && 8 * n <= |bytes|
    ensures RangeLocated(m, bytes, n, a, c) <==> RangeLocated(m, bytes, n, a, b) && RangeLocated(m, bytes, n, b, c)
    ensures RangeLocated(m, bytes, n, a, d) ==> RangeLocated(m, bytes, n, b, c)
  {
  }

  /** The items hold the strings from a to b - 1. */
  ghost predicate ItemsFound(m: Machine, bytes: seq<byte>, n: nat, a: nat, b: nat, shape: seq<nat>,
                             items: seq<Nested<Text>>)
    requires 8 * n <= |bytes| && shape != []
  {
    forall its: seq<Nested<Text>> :: its == items ==> FoundItems(m, bytes, n, a, b, shape, its)
  }

  ghost predicate FoundItems(m: Machine, bytes: seq<byte>, n: nat, a: nat, b: nat, shape: seq<nat>,
                             items: seq<Nested<Text>>)
    requires 8 * n <= |bytes| && shape != []
  {
    && (forall k :: 0 <= k < |items| ==> Fits(items[k], shape[1..]))
    && FoundFrom(m, bytes, n, a, FlattenFirst(List(items), |items|))
    && a + |FlattenFirst(List(items), |items|)| == b
  }

  lemma ItemFound(m: Machine, bytes: seq<byte>, n: nat, a: nat, b: nat, shape: seq<nat>,
                  items: seq<Nested<Text>>, v: Nested<Text>)
    requires 8 * n <= |bytes| && shape != [] && ItemsFound(m, bytes, n, a, b, shape, items)
    requires Fits(v, shape[1..]) && FoundFrom(m, bytes, n, b, Flatten(v))
    ensures ItemsFound(m, bytes, n, a, b + |Flatten(v)|, shape, items + [v])
  {
    assert FoundItems(m, bytes, n, a, b, shape, items);
    FlattenMore(items, v);
    FoundAppend(m, bytes, n, a, FlattenFirst(List(items), |items|), Flatten(v));
    GoTensor.AllFit(items, v, shape[1..]);
  }

  lemma NothingFound(m: Machine, bytes: seq<byte>, n: nat, a: nat, shape: seq<nat>)
    requires a <= n && 8 * n <= |bytes| && shape != []
    ensures ItemsFound(m, bytes, n, a, a, shape, [])
  {
  }

  lemma AllItemsFound(m: Machine, bytes: seq<byte>, n: nat, a: nat, b: nat, shape: seq<nat>, items: seq<Nested<Text>>)
    requires 8 * n <= |bytes| && shape != [] && |items| == shape[0] && ItemsFound(m, bytes, n, a, b, shape, items)
    ensures Fits(List(items), shape) && FoundFrom(m, bytes, n, a, Flatten(List(items)))
  {
    assert FoundItems(m, bytes, n, a, b, shape, items);
  }

  // ----- tensors

  /** Makes a string tensor from a value; fails if the value has no shape. */
  method NewStringTensor(m: Machine, v: Nested<Text>, depth: nat) returns (r: GoTensor.Outcome<array<byte>>)
    requires HasDepth(v, depth) && DataSize(Flatten(v)) < TWO_64
    ensures var shape := ShapeOf(v, depth);
            var nbytes := 8 * Product(shape) + DataSize(Flatten(v));
            && r != GoTensor.Bug
            && (r == GoTensor.Panics <==> nbytes > GoTensor.MAX_BYTES)
            && (r == GoTensor.Mismatch <==> nbytes <= GoTensor.MAX_BYTES && !Fits(v, shape))
            && (r.Ok? ==> fresh(r.value) && r.value[..] == TensorBytes(m, Chunks(Flatten(v))))
  {
    var shape := GoTensor.ShapeOfValue(v, depth);
    var n := GoTensor.NumElements(shape);
    var size := ByteSizeOfEncodedStrings(v);
    var nbytes := n * 8 + size;
    if nbytes > GoTensor.MAX_BYTES {
      return GoTensor.Panics;
    }
    var raw := new byte[nbytes];
    var ok := EncodeStrings(m, v, shape, n, raw);
    r := if ok then GoTensor.Ok(raw) else GoTensor.Mismatch;
  }

  /** Encodes a value into a buffer that is as large as it has to be if the value fits the shape. */
  method EncodeStrings(m: Machine, v: Nested<Text>, shape: seq<nat>, n: nat, raw: array<byte>) returns (ok: bool)
    requires HasDepth(v, |shape|) && n == Product(shape)
    requires raw.Length == 8 * n + DataSize(Flatten(v)) < TWO_64
    modifies raw
    ensures ok <==> Fits(v, shape)
    ensures ok ==> raw[..] == TensorBytes(m, Chunks(Flatten(v)))
  {
    var e := new StringEncoder(m, raw, n);
    NoStrings();
    ok := e.Encode(v, shape);
    if ok {
      FlattenLength(v, shape);
      assert e.strings == Flatten(v);
      FilledAll(m, raw[..], Chunks(Flatten(v)));
    }
  }

  lemma NoStrings()
    ensures DataSize([]) == 0
  {
  }

  // ----- agreement

  /** The same strings: the Go encoder and the C encoder write the same bytes. */
  method EncodersAgree(m: Machine, v: Nested<Text>, depth: nat)
    returns (go: GoTensor.Outcome<array<byte>>, c: Result<array<byte>>)
    requires HasDepth(v, depth) && |TensorBytes(m, Chunks(Flatten(v)))| < TWO_64
    ensures c.Ok? && (go.Ok? ==> go.value[..] == c.value[..])
  {
    go := NewStringTensor(m, v, depth);
    c := FromTensor(m, Flatten(v));
  }

  /** A value of a string tensor, if all its strings can be found; panics otherwise. */
  method StringValueOf(m: Machine, raw: array<byte>, shape: seq<nat>) returns (r: GoTensor.Outcome<Nested<Text>>)
    requires Readable(m, raw[..], Product(shape))
    ensures r.Ok? <==> raw.Length <= GoTensor.MAX_BYTES && RangeLocated(m, raw[..], Product(shape), 0, Product(shape))
    ensures r.Ok? ==> Fits(r.value, shape) && Holds(m, raw[..], Flatten(r.value))
    ensures r.Ok? || r == GoTensor.Panics
  {
    if raw.Length > GoTensor.MAX_BYTES {
      return GoTensor.Panics;
    }
    var ok, v := DecodeStrings(m, raw, shape);
    if ok {
      AllFound(m, raw[..], Flatten(v));
    }
    r := if ok then GoTensor.Ok(v) else GoTensor.Panics;
  }

  method DecodeStrings(m: Machine, raw: array<byte>, shape: seq<nat>) returns (ok: bool, v: Nested<Text>)
    requires Readable(m, raw[..], Product(shape))
    ensures ok <==> RangeLocated(m, raw[..], Product(shape), 0, Product(shape))
    ensures ok ==> Fits(v, shape) && |Flatten(v)| == Product(shape)
    ensures ok ==> FoundFrom(m, raw[..], Product(shape), 0, Flatten(v))
  {
    var n := GoTensor.NumElements(shape);
    var d := new StringDecoder(m, raw, n);
    ok, v := d.Decode(shape);
    if ok {
      FlattenLength(v, shape);
    }
  }

  lemma AllFound(m: Machine, bytes: seq<byte>, strings: seq<Text>)
    requires 8 * |strings| <= |bytes| && FoundFrom(m, bytes, |strings|, 0, strings)
    ensures Holds(m, bytes, strings)
  {
    forall i | 0 <= i < |strings|
      ensures HoldsAt(m, bytes, |strings|, i, strings[i])
    {
      assert HoldsAt(m, bytes, |strings|, 0 + i, strings[i]);
    }
  }

  lemma EncodedReadable(m: Machine, strings: seq<Text>)
    requires |TensorBytes(m, Chunks(strings))| < TWO_63
    ensures Readable(m, TensorBytes(m, Chunks(strings)), |strings|)
    ensures RangeLocated(m, TensorBytes(m, Chunks(strings)), |strings|, 0, |strings|)
  {
    EncodedHolds(m, strings);
    HoldsLocated(m, TensorBytes(m, Chunks(strings)), strings);
  }

  /** Both decoders give back the strings that either encoder has written. */
  method DecodersAgree(m: Machine, v: Nested<Text>, shape: seq<nat>, raw: array<byte>)
    returns (go: GoTensor.Outcome<Nested<Text>>, c: Result<seq<Text>>)
    requires Fits(v, shape) && raw[..] == TensorBytes(m, Chunks(Flatten(v))) && raw.Length < TWO_63
    ensures go == if raw.Length <= GoTensor.MAX_BYTES then GoTensor.Ok(v) else GoTensor.Panics
    ensures c == Ok(Flatten(v))
  {
    FlattenLength(v, shape);
    EncodedReadable(m, Flatten(v));
    EncodedHolds(m, Flatten(v));
    go := StringValueOf(m, raw, shape);
    if go.Ok? {
      SameValue(m, raw[..], v, go.value, shape);
    }
    c := ToTensor(m, raw, Product(shape));
    HoldsUnique(m, raw[..], c.value, Flatten(v));
  }

  lemma SameValue(m: Machine, bytes: seq<byte>, v: Nested<Text>, w: Nested<Text>, shape: seq<nat>)
    requires Fits(v, shape) && Fits(w, shape) && Holds(m, bytes, Flatten(v)) && Holds(m, bytes, Flatten(w))
    ensures v == w
  {
    FlattenLength(v, shape);
    FlattenLength(w, shape);
    HoldsUnique(m, bytes, Flatten(v), Flatten(w));
    BuildFlatten(v, shape);
    BuildFlatten(w, shape);
  }

  /** A value that can be made into a string tensor is the value of that tensor. */
  method RoundTrip(m: Machine, v: Nested<Text>, depth: nat) returns (r: GoTensor.Outcome<Nested<Text>>)
    requires HasDepth(v, depth) && DataSize(Flatten(v)) < TWO_64
    ensures r.Ok? <==> 8 * Product(ShapeOf(v, depth)) + DataSize(Flatten(v)) <= GoTensor.MAX_BYTES
                       && exists shape :: |shape| == depth && Fits(v, shape)
    ensures r.Ok? ==> r.value == v
  {
    HasShapeIffOwn(v, depth);
    var made := NewStringTensor(m, v, depth);
    var shape := GoTensor.ShapeOfValue(v, depth);
    match made {
      case Mismatch => r := GoTensor.Mismatch;
      case Panics => r := GoTensor.Panics;
      case Bug => r := GoTensor.Bug;
      case Ok(raw) =>
        FlattenLength(v, shape);
        var strings;
        r, strings := DecodersAgree(m, v, shape, raw);
    }
  }
}
