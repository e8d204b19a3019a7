/** Partially known shapes: a list of dimensions, kept in one of three compact forms. Which form is chosen depends
    on the number of dimensions and on their sizes. */
module PartialShape {
  import opened MachineNumbers

  const MAX_DIMENSIONS := 254
  const UNKNOWN_RANK := 255
  const UNKNOWN_REP16 := 0xffff
  const UNKNOWN_REP32 := 0xffff_ffff
  const MAX_REP16 := UNKNOWN_REP16 - 1
  const MAX_REP32 := UNKNOWN_REP32 - 1

  // ----- the number of elements

  /** The number of elements; -1 if a dimension is unknown. */
  function Elements(dims: seq<int>): int {
    if dims == [] then 1
    else
      var n, last := Elements(dims[..|dims| - 1]), dims[|dims| - 1];
      if n < 0 || last < 0 then -1 else n * last
  }

  /** The number of elements of each shape on the way has 63 bits. */
  predicate NoOverflow(dims: seq<int>) {
    dims == [] || (NoOverflow(dims[..|dims| - 1]) && Elements(dims) < TWO_63)
  }

  lemma TimesAssociates(x: int, y: int, z: int)
    ensures (x * y) * z == x * (y * z)
  {
  }

  lemma {:induction false} ElementsAppend(a: seq<int>, b: seq<int>)
    ensures Elements(a + b) == if Elements(a) < 0 || Elements(b) < 0 then -1 else Elements(a) * Elements(b)
    decreases |b|
  {
    ElementsAtLeast(a);
    if b == [] {
      assert a + b == a;
    } else {
      var head, last := b[..|b| - 1], b[|b| - 1];
      assert a + b == (a + head) + [last] && b == head + [last];
      ElementsAppend(a, head);
      ElementsNext(a + head, last);
      ElementsNext(head, last);
      TimesAssociates(Elements(a), Elements(head), last);
      SignOfTimes(Elements(a), Elements(head));
      SignOfTimes(Elements(head), last);
    }
  }

  lemma SignOfTimes(x: int, y: int)
    ensures x >= 0 && y >= 0 ==> x * y >= 0
  {
  }

  lemma {:induction false} ElementsAtLeast(a: seq<int>)
    ensures Elements(a) >= -1
    ensures Elements(a) < 0 <==> exists d :: 0 <= d < |a| && a[d] < 0
  {
    if a != [] {
      var head, last := a[..|a| - 1], a[|a| - 1];
      ElementsAtLeast(head);
      SignOfTimes(Elements(head), last);
      assert forall d :: 0 <= d < |head| ==> head[d] == a[d];
    }
  }

  /** The number of elements is a product: lists of dimensions behind each other multiply, unless one is unknown, and a
      single dimension counts as its size. */
  lemma ElementsMultiply(a: seq<int>, b: seq<int>, x: nat)
    ensures Elements(a + b) == if Elements(a) < 0 || Elements(b) < 0 then -1 else Elements(a) * Elements(b)
    ensures Elements([x]) == x && Elements([]) == 1 && Elements(a) >= -1
    ensures Elements(a) < 0 <==> exists d :: 0 <= d < |a| && a[d] < 0
  {
    ElementsAppend(a, b);
    ElementsAtLeast(a);
    assert [x][..0] == [];
  }

  /** No shape on the way has 2^63 elements or more. */
  lemma {:induction false} NoOverflowIff(dims: seq<int>)
    ensures NoOverflow(dims) <==> forall k :: 0 <= k <= |dims| ==> Elements(dims[..k]) < 0x8000_0000_0000_0000
  {
    assert dims[..|dims|] == dims;
    if dims != [] {
      var head := dims[..|dims| - 1];
      NoOverflowIff(head);
      forall k | 0 <= k <= |head|
        ensures head[..k] == dims[..k]
      {
      }
    }
  }

  function ToSigned(x: nat): int {
    if x < TWO_63 then x else x - TWO_64
  }

  /** The product of two numbers; negative if it has more than 63 bits. */
  method MultiplyWithoutOverflow(x: nat, y: nat) returns (r: int)
    requires x < TWO_63 && y < TWO_63
    ensures if x * y < TWO_63 then r == x * y else r < 0
  {
    var product := x * y % TWO_64;
    if x >= TWO_32 || y >= TWO_32 {
      if x != 0 {
        Quotient(x, y);
        if product / x != y {
          return -1;
        }
      }
    } else {
      SmallProduct(x, y);
    }
    r := ToSigned(product);
  }

  lemma Monotone(x: nat, y: nat, z: nat)
    requires x <= y
    ensures x * z <= y * z
  {
  }

  lemma SmallProduct(x: nat, y: nat)
    requires x < TWO_32 && y < TWO_32
    ensures x * y < TWO_64
  {
    Monotone(x, TWO_32 - 1, y);
  }

  lemma QuotientIs(p: nat, x: nat, y: nat)
    requires x > 0 && p == x * y
    ensures p / x == y
  {
    var q, r := p / x, p % x;
    assert p == q * x + r;
    if q < y {
      Monotone(q + 1, y, x);
    } else if q > y {
      Monotone(y + 1, q, x);
    }
  }

  lemma QuotientSmaller(p: nat, x: nat, y: nat)
    requires x > 0 && p < x * y
    ensures p / x < y
  {
    var q := p / x;
    assert p == q * x + p % x;
    if q >= y {
      Monotone(y, q, x);
    }
  }

  /** The division finds out whether the product has wrapped around. */
  lemma Quotient(x: nat, y: nat)
    requires x > 0
    ensures x * y % TWO_64 / x == y <==> x * y < TWO_64
  {
    var product := x * y;
    var p := product % TWO_64;
    if product < TWO_64 {
      QuotientIs(p, x, y);
    } else {
      QuotientSmaller(p, x, y);
    }
  }

  // ----- shapes

  datatype Tag = Rep16 | Rep32 | OutOfLine

  ghost predicate AllBelow(dims: seq<int>, bound: int) {
    forall d :: 0 <= d < |dims| ==> dims[d] < bound
  }

  /** The form that dimensions are kept in: 16 bits for up to six small ones, 32 bits for up to three larger ones. */
  ghost function FormOf(dims: seq<int>): Tag {
    if |dims| <= 6 && AllBelow(dims, 65534) then Rep16
    else if |dims| <= 3 && AllBelow(dims, 4294967294) then Rep32
    else OutOfLine
  }

  /** With one dimension more, the form stays if it can hold that, too, and there is room. */
  lemma FormNext(before: seq<int>, last: int)
    ensures var form := FormOf(before);
      FormOf(before + [last]) ==
        if form == Rep16 && |before| < 6 && last < 65534 then Rep16
        else if form != OutOfLine && |before| < 3 && last < 4294967294 then Rep32
        else OutOfLine
  {
    forall bound: int
      ensures AllBelow(before + [last], bound) <==> AllBelow(before, bound) && last < bound
    {
      AllBelowNext(before, last, bound);
    }
    assert AllBelow(before, 65534) ==> AllBelow(before, 4294967294);
  }

  lemma AllBelowNext(before: seq<int>, last: int, bound: int)
    ensures AllBelow(before + [last], bound) <==> AllBelow(before, bound) && last < bound
  {
    if AllBelow(before + [last], bound) {
      forall d | 0 <= d < |before|
        ensures before[d] < bound
      {
        assert (before + [last])[d] == before[d];
      }
      assert (before + [last])[|before|] == last;
    }
  }

  class PartialTensorShape {
    var tag: Tag
    var cells: seq<int>
    var ndims: nat
    var numElements: int

    predicate UnknownRank()
      reads this
    {
      ndims == UNKNOWN_RANK
    }

    ghost predicate Valid()
      reads this
    {
      if UnknownRank() then numElements == -1
      else
        && ndims == |cells| <= MAX_DIMENSIONS && numElements == Elements(Dims())
        && FitsForm() && IsCanonical()
    }

    /** The form is the most compact one that can hold the dimensions, with a bound on their sizes that leaves out the
        largest numbers. */
    ghost predicate IsCanonical()
      requires !UnknownRank()
      reads this
    {
      tag == FormOf(Dims())
    }

    /** The cells have the width that the form gives them. */
    ghost predicate FitsForm()
      reads this
    {
      && (tag == Rep16 ==> |cells| <= 6 && forall d :: 0 <= d < |cells| ==> 0 <= cells[d] <= UNKNOWN_REP16)
      && (tag == Rep32 ==> |cells| <= 3 && forall d :: 0 <= d < |cells| ==> 0 <= cells[d] <= UNKNOWN_REP32)
    }

    function DimSize(d: nat): int
      requires d < |cells|
      reads this
    {
      if tag == Rep16 && cells[d] == UNKNOWN_REP16 then -1
      else if tag == Rep32 && cells[d] == UNKNOWN_REP32 then -1
      else cells[d]
    }

    /** The dimensions, whatever form they are kept in. */
    function Dims(): (r: seq<int>)
      requires !UnknownRank()
      reads this
      ensures |r| == |cells|
    {
      seq(|cells|, d requires 0 <= d < |cells| reads this => DimSize(d))
    }

    constructor Unknown()
      ensures Valid() && UnknownRank()
    {
      tag, cells, ndims, numElements := Rep16, [], UNKNOWN_RANK, -1;
    }

    constructor Scalar()
      ensures Valid() && !UnknownRank() && Dims() == []
    {
      tag, cells, ndims, numElements := Rep16, [], 0, 1;
    }

    /** Appends a dimension; aborts if there are too many or the number of elements overflows. */
    method AddDim(size: int) returns (ok: bool)
      requires Valid() && !UnknownRank() && size < TWO_63 && NoOverflow(Dims())
      modifies this
      ensures Valid() && !UnknownRank()
      ensures ok <==> old(ndims) < MAX_DIMENSIONS && NoOverflow(old(Dims()) + [size])
      ensures ok ==> Dims() == old(Dims()) + [Kept(size)] && NoOverflow(Dims())
      ensures size >= -1 ==> Kept(size) == size
    {
      ghost var before := Dims();
      ElementsNext(before, size);
      if ndims >= MAX_DIMENSIONS {
        return false;
      }
      var elements := -1;
      if numElements >= 0 && size >= 0 {
        FewElements(before);
        TimesNotNegative(numElements, size);
        elements := MultiplyWithoutOverflow(numElements, size);
        if elements < 0 {
          return false;
        }
      }
      UnsafeAddDim(size, elements);
      ElementsNext(before, Kept(size));
      ok := true;
    }

    /** How a dimension is kept: the compact forms keep no number below -1. */
    ghost function Kept(size: int): int
      reads this
    {
      if size < -1 && tag != OutOfLine then -1 else size
    }

    method UnsafeAddDim(size: int, elements: int)
      requires !UnknownRank() && ndims == |cells| < MAX_DIMENSIONS && Valid()
      requires elements == if numElements < 0 || size < 0 then -1 else numElements * size
      modifies this
      ensures Valid() && !UnknownRank() && Dims() == old(Dims()) + [Kept(size)]
    {
      ghost var before := Dims();
      assert IsCanonical();
      StoreDim(size);
      ndims := ndims + 1;
      numElements := elements;
      Extended(before, size);
    }

    /** Stores a dimension, in another form if it does not fit. */
    method StoreDim(size: int)
      requires !UnknownRank() && ndims == |cells| && FitsForm() && IsCanonical()
      modifies `tag, `cells
      ensures tag == FormOf(old(Dims()) + [Kept(size)])
      ensures FitsForm() && |cells| == old(|cells|) + 1 && HoldsDims(old(Dims()) + [Kept(size)])
    {
      ghost var before := Dims();
      FormNext(before, size);
      FormNext(before, -1);
      if tag == Rep16 && ndims < 6 && size < MAX_REP16 {
        AppendCell(if size < 0 then UNKNOWN_REP16 else size, size);
      } else if tag == Rep32 && ndims < 3 && size < MAX_REP32 {
        AppendCell(if size < 0 then UNKNOWN_REP32 else size, size);
      } else if tag == OutOfLine {
        AppendCell(size, size);
      } else {
        assert (before + [size])[..|before|] == before;
        AllBelowNext(before, size, 4294967294);
        ChangeForm(Dims() + [size]);
      }
    }

    /** The shape has the dimensions before and one more. */
    lemma Extended(before: seq<int>, size: int)
      requires !UnknownRank() && HoldsDims(before + [Kept(size)])
      requires numElements == if Elements(before) < 0 || size < 0 then -1 else Elements(before) * size
      ensures Dims() == before + [Kept(size)] && numElements == Elements(Dims())
    {
      assert (before + [Kept(size)])[..|before|] == before;
    }

    ghost predicate HoldsDims(dims: seq<int>)
      reads this
    {
      |cells| == |dims| && forall d :: 0 <= d < |dims| ==> DimSize(d) == dims[d]
    }

    method AppendCell(cell: int, ghost size: int)
      requires !UnknownRank()
      requires tag == Rep16 ==> cell == if size < 0 then UNKNOWN_REP16 else size
      requires tag == Rep32 ==> cell == if size < 0 then UNKNOWN_REP32 else size
      requires tag == Rep16 ==> size < MAX_REP16
      requires tag == Rep32 ==> size < MAX_REP32
      requires tag == OutOfLine ==> cell == size
      modifies `cells
      ensures cells == old(cells) + [cell] && HoldsDims(old(Dims()) + [Kept(size)])
    {
      cells := cells + [cell];
    }

    /** Chooses a form that can hold the values. */
    method ChangeForm(vals: seq<int>)
      requires tag != OutOfLine && vals != [] && forall d :: 0 <= d < |vals| - 1 ==> vals[d] >= -1
      modifies `tag, `cells
      ensures tag == if |vals| <= 3 && AllBelow(vals, 4294967294) then Rep32 else OutOfLine
      ensures tag != Rep16 && HoldsDims(vals[..|vals| - 1] + [Kept(vals[|vals| - 1])])
      ensures FitsForm()
    {
      var canBeRep32 := |vals| <= 3;
      if canBeRep32 {
        for i := 0 to |vals|
          invariant canBeRep32 == forall d :: 0 <= d < i ==> vals[d] < MAX_REP32
        {
          if vals[i] >= MAX_REP32 {
            canBeRep32 := false;
            break;
          }
        }
      }
      if canBeRep32 {
        tag := Rep32;
        cells := seq(|vals|, d requires 0 <= d < |vals| => if vals[d] < 0 then UNKNOWN_REP32 else vals[d]);
      } else {
        tag := OutOfLine;
        cells := vals;
      }
    }
  }

  /** One dimension more. */
  lemma ElementsNext(dims: seq<int>, size: int)
    ensures Elements(dims + [size]) == if Elements(dims) < 0 || size < 0 then -1 else Elements(dims) * size
    ensures NoOverflow(dims + [size]) <==> NoOverflow(dims) && Elements(dims + [size]) < TWO_63
  {
    assert (dims + [size])[..|dims|] == dims;
  }

  lemma TimesNotNegative(x: nat, y: nat)
    ensures 0 <= x * y
  {
  }

  lemma {:induction false} FewElements(dims: seq<int>)
    requires NoOverflow(dims)
    ensures Elements(dims) < TWO_63
  {
  }
}
