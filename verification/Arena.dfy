/** The memory arena that the planner fills: blocks with offsets, found by best fit. The high-water mark is the
    size that the arena needs. */
module Arena {

  datatype ArenaAlloc = ArenaAlloc(offset: nat, size: nat) {
    function End(): nat { offset + size }
  }

  ghost predicate Disjoint(a: ArenaAlloc, b: ArenaAlloc) {
    a.End() <= b.offset || b.End() <= a.offset
  }

  /** The remainder of a division, by repeated subtraction, which keeps the proofs about blocks linear. */
  function Remainder(offset: nat, alignment: nat): (r: nat)
    requires alignment > 0
    ensures r < alignment && r <= offset
  {
    if offset < alignment then offset else Remainder(offset - alignment, alignment)
  }

  /** The least multiple of the alignment that is not below the offset. */
  function AlignTo(alignment: nat, offset: nat): (r: nat)
    requires alignment > 0
    ensures offset <= r < offset + alignment
  {
    var rest := Remainder(offset, alignment);
    if rest == 0 then offset else offset + (alignment - rest)
  }

  lemma {:induction false} RemainderIsModulo(offset: nat, alignment: nat) returns (k: nat)
    requires alignment > 0
    ensures offset == k * alignment + Remainder(offset, alignment)
  {
    if offset < alignment {
      k := 0;
    } else {
      k := RemainderIsModulo(offset - alignment, alignment);
      k := k + 1;
    }
  }

  /** The aligned offset is a multiple of the alignment, and the first one from the offset on. */
  lemma AlignToIsLeastMultiple(alignment: nat, offset: nat) returns (k: nat)
    requires alignment > 0
    ensures AlignTo(alignment, offset) == k * alignment
    ensures k > 0 ==> (k - 1) * alignment < offset
  {
    k := RemainderIsModulo(offset, alignment);
    if Remainder(offset, alignment) == 0 {
      assert (k - 1) * alignment == k * alignment - alignment;
    } else {
      assert (k + 1) * alignment == k * alignment + alignment;
      k := k + 1;
    }
  }

  /** Live blocks are not empty, sorted by offset, and do not overlap. */
  ghost predicate Layout(allocs: seq<ArenaAlloc>) {
    && (forall i :: 0 <= i < |allocs| ==> allocs[i].size > 0)
    && (forall i, j :: 0 <= i < j < |allocs| ==> allocs[i].End() <= allocs[j].offset)
  }

  /** Where the gap in front of block i starts; i == |allocs| is the open end. */
  function GapStart(allocs: seq<ArenaAlloc>, i: int): nat
    requires 0 <= i <= |allocs|
  {
    if i == 0 then 0 else allocs[i - 1].End()
  }

  /** The aligned block fits into the gap in front of block i. */
  predicate Fits(allocs: seq<ArenaAlloc>, alignment: nat, size: nat, i: int)
    requires alignment > 0
  {
    0 <= i < |allocs| && AlignTo(alignment, GapStart(allocs, i)) + size <= allocs[i].offset
  }

  /** The size of the gap in front of block i. */
  function Gap(allocs: seq<ArenaAlloc>, i: int): int
    requires 0 <= i < |allocs|
  {
    allocs[i].offset - GapStart(allocs, i)
  }

  /** Index p is the first of the smallest gaps that fit, or the open end if none does. */
  ghost predicate BestFit(allocs: seq<ArenaAlloc>, alignment: nat, size: nat, p: int)
    requires alignment > 0
  {
    && 0 <= p <= |allocs|
    && (p < |allocs| ==> Fits(allocs, alignment, size, p))
    && (forall i :: Fits(allocs, alignment, size, i) ==>
          p < |allocs| && (Gap(allocs, p) < Gap(allocs, i) || (Gap(allocs, p) == Gap(allocs, i) && p <= i)))
  }

  /** The index that best fit chooses. */
  ghost function BestIndex(allocs: seq<ArenaAlloc>, alignment: nat, size: nat): (p: nat)
    requires alignment > 0
    ensures BestFit(allocs, alignment, size, p)
  {
    BestOfFirst(allocs, alignment, size, |allocs|)
  }

  ghost function BestOfFirst(allocs: seq<ArenaAlloc>, alignment: nat, size: nat, k: nat): (p: nat)
    requires alignment > 0 && k <= |allocs|
    ensures p < k || p == |allocs|
    ensures p < k ==> Fits(allocs, alignment, size, p)
    ensures forall i :: i < k && Fits(allocs, alignment, size, i) ==>
      p < k && (Gap(allocs, p) < Gap(allocs, i) || (Gap(allocs, p) == Gap(allocs, i) && p <= i))
  {
    if k == 0 then |allocs|
    else
      var best := BestOfFirst(allocs, alignment, size, k - 1);
      if Fits(allocs, alignment, size, k - 1) && (best == |allocs| || Gap(allocs, k - 1) < Gap(allocs, best)) then k - 1
      else best
  }

  /** Best fit leaves no choice. */
  lemma BestFitUnique(allocs: seq<ArenaAlloc>, alignment: nat, size: nat, p: int, q: int)
    requires alignment > 0 && BestFit(allocs, alignment, size, p) && BestFit(allocs, alignment, size, q)
    ensures p == q
  {
    assert Fits(allocs, alignment, size, p) <==> Fits(allocs, alignment, size, q);
  }

  /** The block that goes to index p. */
  function Placed(allocs: seq<ArenaAlloc>, alignment: nat, size: nat, p: int): ArenaAlloc
    requires alignment > 0 && 0 <= p <= |allocs|
  {
    ArenaAlloc(AlignTo(alignment, GapStart(allocs, p)), size)
  }

  function Inserted(allocs: seq<ArenaAlloc>, p: int, a: ArenaAlloc): seq<ArenaAlloc>
    requires 0 <= p <= |allocs|
  {
    allocs[..p] + [a] + allocs[p..]
  }

  function Removed(allocs: seq<ArenaAlloc>, p: int): seq<ArenaAlloc>
    requires 0 <= p < |allocs|
  {
    allocs[..p] + allocs[p + 1..]
  }

  /** A block put between its neighbours overlaps no live block and keeps the layout. */
  lemma InsertKeepsLayout(allocs: seq<ArenaAlloc>, p: int, a: ArenaAlloc)
    requires Layout(allocs) && 0 <= p <= |allocs| && a.size > 0
    requires GapStart(allocs, p) <= a.offset && (p < |allocs| ==> a.End() <= allocs[p].offset)
    ensures forall b :: b in allocs ==> Disjoint(a, b)
    ensures Layout(Inserted(allocs, p, a))
  {
    forall i | 0 <= i < |allocs|
      ensures if i < p then allocs[i].End() <= a.offset else a.End() <= allocs[i].offset
    {
      SideOf(allocs, p, a, i);
    }
    var s := Inserted(allocs, p, a);
    forall i, j | 0 <= i < j < |s|
      ensures s[i].End() <= s[j].offset
    {
      assert s[i] == if i < p then allocs[i] else if i == p then a else allocs[i - 1];
      assert s[j] == if j < p then allocs[j] else if j == p then a else allocs[j - 1];
    }
  }

  /** On which side of the new block a live one is. */
  lemma SideOf(allocs: seq<ArenaAlloc>, p: int, a: ArenaAlloc, i: int)
    requires Layout(allocs) && 0 <= p <= |allocs| && 0 <= i < |allocs|
    requires GapStart(allocs, p) <= a.offset && (p < |allocs| ==> a.End() <= allocs[p].offset)
    ensures if i < p then allocs[i].End() <= a.offset else a.End() <= allocs[i].offset
  {
    if i < p - 1 {
      assert allocs[i].End() <= allocs[p - 1].offset;
    } else if i > p {
      assert allocs[p].End() <= allocs[i].offset;
    }
  }

  /** A block placed by best fit is aligned, overlaps no live block, and keeps the layout. */
  lemma PlacedKeepsLayout(allocs: seq<ArenaAlloc>, alignment: nat, size: nat, p: int)
    requires alignment > 0 && size > 0 && Layout(allocs) && BestFit(allocs, alignment, size, p)
    ensures var a := Placed(allocs, alignment, size, p);
      && a.size == size && a.offset == AlignTo(alignment, GapStart(allocs, p))
      && (forall b :: b in allocs ==> Disjoint(a, b))
      && Layout(Inserted(allocs, p, a))
  {
    InsertKeepsLayout(allocs, p, Placed(allocs, alignment, size, p));
  }

  /** Removing the block again gives back the arena. */
  lemma RemoveUndoesInsert(allocs: seq<ArenaAlloc>, p: int, a: ArenaAlloc)
    requires 0 <= p <= |allocs|
    ensures Removed(Inserted(allocs, p, a), p) == allocs
  {
  }

  lemma RemovedKeepsLayout(allocs: seq<ArenaAlloc>, p: int)
    requires Layout(allocs) && 0 <= p < |allocs|
    ensures Layout(Removed(allocs, p))
    ensures forall b :: b in Removed(allocs, p) <==> b in allocs && b != allocs[p]
  {
    var r := Removed(allocs, p);
    forall i | 0 <= i < |r|
      ensures r[i] == allocs[if i < p then i else i + 1]
    {
    }
    forall b | b in allocs && b != allocs[p]
      ensures b in r
    {
      var i :| 0 <= i < |allocs| && allocs[i] == b;
      assert r[if i < p then i else i - 1] == b;
    }
  }

  /** The block that an allocation yields; an empty one takes no room. */
  ghost function NewBlock(allocs: seq<ArenaAlloc>, alignment: nat, size: nat): ArenaAlloc
    requires alignment > 0
  {
    if size == 0 then ArenaAlloc(0, 0) else Placed(allocs, alignment, size, BestIndex(allocs, alignment, size))
  }

  ghost function AfterAllocate(allocs: seq<ArenaAlloc>, alignment: nat, size: nat): seq<ArenaAlloc>
    requires alignment > 0
  {
    if size == 0 then allocs
    else Inserted(allocs, BestIndex(allocs, alignment, size), NewBlock(allocs, alignment, size))
  }

  function Without(allocs: seq<ArenaAlloc>, a: ArenaAlloc): seq<ArenaAlloc> {
    if allocs == [] then []
    else if allocs[0] == a then allocs[1..]
    else [allocs[0]] + Without(allocs[1..], a)
  }

  lemma RestOfLayout(allocs: seq<ArenaAlloc>)
    requires Layout(allocs) && allocs != []
    ensures Layout(allocs[1..])
  {
  }

  lemma {:induction false} WithoutAt(allocs: seq<ArenaAlloc>, p: int)
    requires Layout(allocs) && 0 <= p < |allocs|
    ensures Without(allocs, allocs[p]) == Removed(allocs, p)
  {
    if p > 0 {
      assert allocs[0].offset < allocs[p].offset;
      RestOfLayout(allocs);
      WithoutAt(allocs[1..], p - 1);
      assert Removed(allocs, p) == [allocs[0]] + Removed(allocs[1..], p - 1);
    }
  }

  /** What a step of the arena does to the live blocks: the new block is clear of all of them and joins them. */
  lemma AllocateStep(allocs: seq<ArenaAlloc>, alignment: nat, size: nat)
    requires alignment > 0 && Layout(allocs)
    ensures Layout(AfterAllocate(allocs, alignment, size)) && NewBlock(allocs, alignment, size).size == size
    ensures size > 0 ==> forall b :: b in allocs ==> Disjoint(NewBlock(allocs, alignment, size), b)
    ensures size > 0 ==> forall b :: b in AfterAllocate(allocs, alignment, size) <==>
      b in allocs || b == NewBlock(allocs, alignment, size)
  {
    if size > 0 {
      var p := BestIndex(allocs, alignment, size);
      PlacedKeepsLayout(allocs, alignment, size, p);
      assert allocs == allocs[..p] + allocs[p..];
    }
  }

  /** The block of an allocation starts at a multiple of the alignment. */
  lemma NewBlockIsAligned(allocs: seq<ArenaAlloc>, alignment: nat, size: nat) returns (k: nat)
    requires alignment > 0
    ensures NewBlock(allocs, alignment, size).offset == k * alignment
  {
    if size == 0 {
      k := 0;
    } else {
      k := AlignToIsLeastMultiple(alignment, GapStart(allocs, BestIndex(allocs, alignment, size)));
    }
  }

  lemma {:induction false} SumOfMultiple(k: nat, a: nat)
    requires a > 0
    ensures k * a >= 0 && (k > 0 ==> k * a >= a)
  {
    if k > 0 {
      SumOfMultiple(k - 1, a);
      assert k * a == (k - 1) * a + a;
    }
  }

  /** A multiple leaves no rest. */
  lemma MultipleHasNoRest(k: nat, a: nat)
    requires a > 0
    ensures k * a % a == 0
  {
    var q, r := k * a / a, k * a % a;
    assert (k - q) * a == r;
    if k > q {
      SumOfMultiple(k - q, a);
    } else if k < q {
      assert (k - q) * a == -((q - k) * a);
      SumOfMultiple(q - k, a);
    }
  }

  lemma NewBlockHasNoRest(allocs: seq<ArenaAlloc>, alignment: nat, size: nat)
    requires alignment > 0
    ensures NewBlock(allocs, alignment, size).offset % alignment == 0
    ensures NewBlock(allocs, alignment, size).size == size
  {
    var k := NewBlockIsAligned(allocs, alignment, size);
    MultipleHasNoRest(k, alignment);
  }

  lemma DeallocateStep(allocs: seq<ArenaAlloc>, a: ArenaAlloc)
    requires Layout(allocs) && a in allocs
    ensures Layout(Without(allocs, a)) && forall b :: b in Without(allocs, a) <==> b in allocs && b != a
  {
    var p :| 0 <= p < |allocs| && allocs[p] == a;
    WithoutAt(allocs, p);
    RemovedKeepsLayout(allocs, p);
  }

  /** After the block at p is removed, no block starts where it did. */
  lemma NoOtherAt(allocs: seq<ArenaAlloc>, p: int, i: int)
    requires Layout(allocs) && 0 <= p < |allocs| && p <= i < |Removed(allocs, p)|
    ensures Removed(allocs, p)[i].offset != allocs[p].offset
  {
    assert Removed(allocs, p)[i] == allocs[i + 1];
    assert allocs[p].End() <= allocs[i + 1].offset;
  }

  /** A block that starts where a live one does is live only if it is that one. */
  lemma OnlyBlockAt(allocs: seq<ArenaAlloc>, i: int, a: ArenaAlloc)
    requires Layout(allocs) && 0 <= i < |allocs| && allocs[i].offset == a.offset && allocs[i].size != a.size
    ensures a !in allocs
  {
    forall k | 0 <= k < |allocs|
      ensures allocs[k] != a
    {
      assert k < i ==> allocs[k].End() <= allocs[i].offset;
      assert i < k ==> allocs[i].End() <= allocs[k].offset;
    }
  }

  // ----- best fit, without the search

  /** There is room for an aligned block in front of block i. */
  ghost predicate HasRoom(allocs: seq<ArenaAlloc>, alignment: nat, size: nat, i: int)
    requires alignment > 0
  {
    0 <= i < |allocs| && exists x: nat :: IsAlignedIn(allocs, alignment, i, x) && x + size <= allocs[i].offset
  }

  /** An offset that is a multiple of the alignment and not before the end of block i - 1. */
  ghost predicate IsAlignedIn(allocs: seq<ArenaAlloc>, alignment: nat, i: int, x: nat)
    requires alignment > 0 && 0 <= i <= |allocs|
  {
    x % alignment == 0 && (i > 0 ==> allocs[i - 1].offset + allocs[i - 1].size <= x)
  }

  /** The gap in front of block p is narrower than that in front of block i, or as wide and not behind it. */
  ghost predicate Better(allocs: seq<ArenaAlloc>, p: int, i: int)
    requires 0 <= p < |allocs| && 0 <= i < |allocs|
  {
    var width := allocs[p].offset - if p > 0 then allocs[p - 1].offset + allocs[p - 1].size else 0;
    var width' := allocs[i].offset - if i > 0 then allocs[i - 1].offset + allocs[i - 1].size else 0;
    width < width' || (width == width' && p <= i)
  }

  lemma MultiplesAreOrdered(k: int, l: int, a: nat)
    requires a > 0 && k >= l
    ensures k * a >= l * a
  {
    SumOfMultiple(k - l, a);
    assert k * a == (k - l) * a + l * a;
  }

  /** No multiple from the offset on comes before the aligned offset. */
  lemma AlignToIsFirst(alignment: nat, offset: nat, x: nat)
    requires alignment > 0 && x % alignment == 0 && offset <= x
    ensures AlignTo(alignment, offset) <= x
  {
    var k := AlignToIsLeastMultiple(alignment, offset);
    var l := x / alignment;
    assert x == l * alignment;
    if k > l {
      MultiplesAreOrdered(k - 1, l, alignment);
    } else {
      MultiplesAreOrdered(l, k, alignment);
    }
  }

  lemma RoomIsFit(allocs: seq<ArenaAlloc>, alignment: nat, size: nat, i: int)
    requires alignment > 0
    ensures HasRoom(allocs, alignment, size, i) <==> Fits(allocs, alignment, size, i)
  {
    if HasRoom(allocs, alignment, size, i) {
      var x: nat :| IsAlignedIn(allocs, alignment, i, x) && x + size <= allocs[i].offset;
      AlignToIsFirst(alignment, GapStart(allocs, i), x);
    }
    if Fits(allocs, alignment, size, i) {
      var x := AlignTo(alignment, GapStart(allocs, i));
      var k := AlignToIsLeastMultiple(alignment, GapStart(allocs, i));
      MultipleHasNoRest(k, alignment);
      assert IsAlignedIn(allocs, alignment, i, x);
    }
  }

  /** What best fit does, in terms of the blocks alone: the new block goes to the narrowest gap that has room for it, of
      several the first, and behind the last block if no gap has room, at the first aligned offset there. */
  lemma AllocationIsBestFit(allocs: seq<ArenaAlloc>, alignment: nat, size: nat) returns (p: nat)
    requires alignment > 0 && size > 0
    ensures p <= |allocs|
    ensures var a := NewBlock(allocs, alignment, size);
      && AfterAllocate(allocs, alignment, size) == allocs[..p] + [a] + allocs[p..]
      && a.size == size && IsAlignedIn(allocs, alignment, p, a.offset)
      && (forall x: nat :: IsAlignedIn(allocs, alignment, p, x) ==> a.offset <= x)
      && (p < |allocs| ==> a.offset + size <= allocs[p].offset)
    ensures forall i :: HasRoom(allocs, alignment, size, i) ==> p < |allocs| && Better(allocs, p, i)
  {
    p := BestIndex(allocs, alignment, size);
    var a := NewBlock(allocs, alignment, size);
    NewBlockHasNoRest(allocs, alignment, size);
    forall x: nat | IsAlignedIn(allocs, alignment, p, x)
      ensures a.offset <= x
    {
      AlignToIsFirst(alignment, GapStart(allocs, p), x);
    }
    forall i | HasRoom(allocs, alignment, size, i)
      ensures p < |allocs| && Better(allocs, p, i)
    {
      RoomIsFit(allocs, alignment, size, i);
    }
  }

  class SimpleMemoryArena {
    const arenaAlignment: nat
    var highWaterMark: nat
    var allocs: seq<ArenaAlloc>

    /** The live blocks keep the layout and lie below the high-water mark, so in the committed buffer. */
    ghost predicate Valid()
      reads this
    {
      Layout(allocs) && forall b :: b in allocs ==> b.End() <= highWaterMark
    }

    constructor (arenaAlignment: nat)
      ensures Valid() && this.arenaAlignment == arenaAlignment && allocs == [] && highWaterMark == 0
    {
      this.arenaAlignment := arenaAlignment;
      highWaterMark := 0;
      allocs := [];
    }

    /** Reserves a block; fails only if the alignment exceeds that of the arena. An empty block takes no room. */
    method Allocate(alignment: nat, size: nat) returns (ok: bool, newAlloc: ArenaAlloc)
      requires Valid() && alignment > 0
      modifies this
      ensures Valid()
      ensures ok == (alignment <= arenaAlignment)
      ensures !ok ==> allocs == old(allocs) && highWaterMark == old(highWaterMark)
      ensures ok ==> newAlloc == NewBlock(old(allocs), alignment, size)
      ensures ok ==> allocs == AfterAllocate(old(allocs), alignment, size)
      ensures ok && size == 0 ==> highWaterMark == old(highWaterMark)
      ensures ok && size > 0 ==>
        highWaterMark == if old(highWaterMark) < newAlloc.End() then newAlloc.End() else old(highWaterMark)
    {
      newAlloc := ArenaAlloc(0, 0);
      if alignment > arenaAlignment {
        return false, newAlloc;
      }
      if size == 0 {
        return true, newAlloc;
      }
      newAlloc := Reserve(alignment, size);
      ok := true;
    }

    /** The part of Allocate that reserves a block that is not empty. */
    method Reserve(alignment: nat, size: nat) returns (newAlloc: ArenaAlloc)
      requires Valid() && alignment > 0 && size > 0
      modifies this
      ensures Valid()
      ensures newAlloc == NewBlock(old(allocs), alignment, size)
      ensures allocs == AfterAllocate(old(allocs), alignment, size)
      ensures highWaterMark == if old(highWaterMark) < newAlloc.End() then newAlloc.End() else old(highWaterMark)
    {
      ghost var s := allocs;
      var best, bestOffset := FindBestFit(alignment, size);
      newAlloc := ArenaAlloc(bestOffset, size);
      allocs := Inserted(allocs, best, newAlloc);
      AllocateStep(s, alignment, size);
      if highWaterMark < newAlloc.End() {
        highWaterMark := newAlloc.End();
      }
    }

    /** The loop of Allocate over the gaps between the sorted blocks. */
    method FindBestFit(alignment: nat, size: nat) returns (best: nat, bestOffset: nat)
      requires alignment > 0 && size > 0
      ensures best <= |allocs| && ArenaAlloc(bestOffset, size) == NewBlock(allocs, alignment, size)
      ensures Inserted(allocs, best, ArenaAlloc(bestOffset, size)) == AfterAllocate(allocs, alignment, size)
    {
      var currentTop := 0;
      if allocs != [] {
        currentTop := allocs[|allocs| - 1].End();
      }
      // Without a better gap the block goes to the end of the buffer.
      bestOffset := AlignTo(alignment, currentTop);
      best := |allocs|;
      var bestOffsetFit := -1;
      var currentOffset := 0;
      for i := 0 to |allocs|
        invariant currentOffset == GapStart(allocs, i)
        invariant best == |allocs| ||
          (best < i && Fits(allocs, alignment, size, best) && bestOffsetFit == Gap(allocs, best))
        invariant forall k :: 0 <= k < i && Fits(allocs, alignment, size, k) ==>
          best < i && (Gap(allocs, best) < Gap(allocs, k) || (Gap(allocs, best) == Gap(allocs, k) && best <= k))
        invariant bestOffset == AlignTo(alignment, GapStart(allocs, best))
      {
        var alignedCurrentOffset := AlignTo(alignment, currentOffset);
        if alignedCurrentOffset + size <= allocs[i].offset &&
           (best == |allocs| || allocs[i].offset - currentOffset < bestOffsetFit) {
          bestOffset := alignedCurrentOffset;
          bestOffsetFit := allocs[i].offset - currentOffset;
          best := i;
        }
        currentOffset := allocs[i].End();
      }
      BestFitUnique(allocs, alignment, size, best, BestIndex(allocs, alignment, size));
    }

    /** Releases a block: succeeds exactly for an empty block, which it ignores, and for a live one. */
    method Deallocate(alloc: ArenaAlloc) returns (ok: bool)
      requires Valid()
      modifies this
      ensures Valid() && highWaterMark == old(highWaterMark)
      ensures ok == (alloc.size == 0 || alloc in old(allocs))
      ensures !ok || alloc.size == 0 ==> allocs == old(allocs)
      ensures ok && alloc.size > 0 ==> allocs == Without(old(allocs), alloc)
    {
      if alloc.size == 0 {
        return true;
      }
      var erasedAllocsCount := 0;
      var i := 0;
      ghost var s, p := allocs, -1;
      while i < |allocs|
        invariant 0 <= i <= |allocs| && highWaterMark == old(highWaterMark)
        invariant erasedAllocsCount == 0 ==> allocs == s && forall k :: 0 <= k < i ==> s[k].offset != alloc.offset
        invariant erasedAllocsCount == 0 || erasedAllocsCount == 1
        invariant erasedAllocsCount == 1 ==> 0 <= p < |s| && p <= i && s[p] == alloc && allocs == Removed(s, p)
        decreases |allocs| - i
      {
        if allocs[i].offset == alloc.offset {
          if erasedAllocsCount == 1 {
            NoOtherAt(s, p, i);
          }
          if allocs[i].size != alloc.size {
            OnlyBlockAt(s, i, alloc);
            return false;
          }
          erasedAllocsCount := erasedAllocsCount + 1;
          RemovedKeepsLayout(s, i);
          p := i;
          allocs := Removed(allocs, i);
        } else {
          i := i + 1;
        }
      }
      if erasedAllocsCount == 1 {
        RemovedKeepsLayout(s, p);
        WithoutAt(s, p);
      } else {
        assert allocs == s;
      }
      return erasedAllocsCount == 1;
    }

    /** Forgets all blocks. */
    method Clear()
      modifies this
      ensures Valid() && allocs == [] && highWaterMark == 0
    {
      highWaterMark := 0;
      allocs := [];
    }
  }

  /** Releasing a block right after it was allocated gives back the blocks of the arena. */
  lemma DeallocateUndoesAllocate(allocs: seq<ArenaAlloc>, alignment: nat, size: nat)
    requires alignment > 0 && size > 0 && Layout(allocs)
    ensures Without(AfterAllocate(allocs, alignment, size), NewBlock(allocs, alignment, size)) == allocs
  {
    var p := BestIndex(allocs, alignment, size);
    var after := AfterAllocate(allocs, alignment, size);
    AllocateStep(allocs, alignment, size);
    assert after[p] == NewBlock(allocs, alignment, size);
    WithoutAt(after, p);
    RemoveUndoesInsert(allocs, p, NewBlock(allocs, alignment, size));
  }
}
