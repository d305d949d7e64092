/**
 The host side heap (src/teenyheap.h): an unordered list of free blocks, in which empty blocks may stay,
 and a map of allocation sizes.
 */
module TeenyHeap {
  import opened Words

  const TWO_64: int := 0x1_0000_0000_0000_0000

  datatype FreeBlock = FreeBlock(start: int, end: int)

  // ---------------------------------------------------------------- what the heap keeps

  /** Free blocks do not even touch each other. */
  predicate Clear(a: FreeBlock, b: FreeBlock) {
    a.end < b.start || b.end < a.start
  }

  predicate Apart(f: FreeBlock, p: int, n: int) {
    f.end <= p || p + n <= f.start
  }

  ghost predicate Separated(free: seq<FreeBlock>) {
    forall i, j :: 0 <= i < j < |free| ==> Clear(free[i], free[j])
  }

  ghost predicate InFree(free: seq<FreeBlock>, b: int) {
    exists i :: 0 <= i < |free| && free[i].start <= b < free[i].end
  }

  ghost predicate InUsed(used: map<int, int>, b: int) {
    exists p :: p in used && p <= b < p + used[p]
  }

  /** Live allocations and free blocks are disjoint and cover [lo, hi). */
  ghost predicate Tiles(free: seq<FreeBlock>, used: map<int, int>, lo: int, hi: int) {
    && (forall i :: 0 <= i < |free| ==> lo <= free[i].start <= free[i].end <= hi)
    && (forall p :: p in used ==> lo <= p && used[p] > 0 && p + used[p] <= hi)
    && Separated(free)
    && (forall i, p :: 0 <= i < |free| && p in used ==> Apart(free[i], p, used[p]))
    && (forall p, q :: p in used && q in used && p != q ==> p + used[p] <= q || q + used[q] <= p)
    && (forall b :: lo <= b < hi ==> InFree(free, b) || InUsed(used, b))
  }

  /** With nothing allocated one free block is left, and it is the whole buffer. */
  lemma AllFree(free: seq<FreeBlock>, lo: int, hi: int)
    requires Tiles(free, map[], lo, hi) && lo < hi
    ensures free == [FreeBlock(lo, hi)]
  {
    assert InFree(free, lo);
    var i :| 0 <= i < |free| && free[i].start <= lo < free[i].end;
    var last := if free[i].end < hi then free[i].end else lo;
    assert InFree(free, last);
    var k :| 0 <= k < |free| && free[k].start <= last < free[k].end;
    assert free[i] == FreeBlock(lo, hi);
    var j := if i == 0 then |free| - 1 else 0;
    assert lo <= free[j].start <= free[j].end <= hi;
  }

  // ---------------------------------------------------------------- entries of size 0

  /** The allocations that have bytes. */
  function Positive(used: map<int, int>): map<int, int> {
    map p | p in used && used[p] > 0 :: used[p]
  }

  /** The tiling, when entries of size 0 may be among the allocations. */
  ghost predicate Whole(free: seq<FreeBlock>, used: map<int, int>, lo: int, hi: int) {
    && Tiles(free, Positive(used), lo, hi)
    && forall p :: p in used ==> lo <= p && used[p] >= 0 && p + used[p] <= hi
  }

  /** `p` lies strictly inside a free block or an allocation. */
  ghost predicate Inside(free: seq<FreeBlock>, used: map<int, int>, p: int) {
    || (exists i :: 0 <= i < |free| && free[i].start < p < free[i].end)
    || (exists q :: q in used && q < p < q + used[q])
  }

  // ---------------------------------------------------------------- releasing

  function Erase(free: seq<FreeBlock>, i: nat): seq<FreeBlock>
    requires i < |free|
  {
    free[..i] + free[i + 1..]
  }

  /** The first block that touches `block`, from position `i` on; |free| if there is none. */
  function FirstTouching(free: seq<FreeBlock>, block: FreeBlock, i: nat): (k: nat)
    requires i <= |free|
    ensures i <= k <= |free|
    ensures k < |free| ==> free[k].end == block.start || block.end == free[k].start
    ensures forall j :: i <= j < k ==> free[j].end != block.start && block.end != free[j].start
    decreases |free| - i
  {
    if i == |free| then i
    else if free[i].end == block.start || block.end == free[i].start then i
    else FirstTouching(free, block, i + 1)
  }

  function Joined(f: FreeBlock, block: FreeBlock): FreeBlock {
    if f.end == block.start then FreeBlock(f.start, block.end) else FreeBlock(block.start, f.end)
  }

  /** releaseBlock: the recursion ends because the free list shrinks. */
  function Release(free: seq<FreeBlock>, block: FreeBlock): seq<FreeBlock>
    decreases |free|
  {
    var k := FirstTouching(free, block, 0);
    if k == |free| then free + [block] else Release(Erase(free, k), Joined(free[k], block))
  }

  ghost predicate Disjoint(free: seq<FreeBlock>, block: FreeBlock) {
    forall i :: 0 <= i < |free| ==> free[i].end <= block.start || block.end <= free[i].start
  }

  /** Releasing keeps the free list separated and within bounds, and adds exactly the block's bytes. */
  lemma {:induction false} ReleaseKeeps(free: seq<FreeBlock>, block: FreeBlock, lo: int, hi: int)
    requires Separated(free) && Disjoint(free, block) && block.start < block.end
    requires lo <= block.start && block.end <= hi
    requires forall i :: 0 <= i < |free| ==> lo <= free[i].start <= free[i].end <= hi
    ensures Separated(Release(free, block))
    ensures forall i :: 0 <= i < |Release(free, block)| ==> lo <= Release(free, block)[i].start <= Release(free, block)[i].end <= hi
    ensures forall b :: InFree(Release(free, block), b) <==> InFree(free, b) || block.start <= b < block.end
    decreases |free|
  {
    var k := FirstTouching(free, block, 0);
    if k == |free| {
      AppendIn(free, block);
    } else {
      var rest, joined := Erase(free, k), Joined(free[k], block);
      EraseClear(free, k);
      ReleaseKeeps(rest, joined, lo, hi);
      EraseIn(free, k);
    }
  }

  lemma AppendIn(free: seq<FreeBlock>, block: FreeBlock)
    ensures forall b :: InFree(free + [block], b) <==> InFree(free, b) || block.start <= b < block.end
  {
    forall b
      ensures InFree(free + [block], b) <==> InFree(free, b) || block.start <= b < block.end
    {
      if block.start <= b < block.end {
        assert (free + [block])[|free|] == block;
      } else if InFree(free, b) {
        var i :| 0 <= i < |free| && free[i].start <= b < free[i].end;
        assert (free + [block])[i] == free[i];
      }
    }
  }

  lemma EraseIn(free: seq<FreeBlock>, k: nat)
    requires k < |free|
    ensures forall b :: InFree(free, b) <==> InFree(Erase(free, k), b) || free[k].start <= b < free[k].end
  {
    var rest := Erase(free, k);
    forall b
      ensures InFree(free, b) <==> InFree(rest, b) || free[k].start <= b < free[k].end
    {
      if InFree(free, b) && !(free[k].start <= b < free[k].end) {
        var i :| 0 <= i < |free| && free[i].start <= b < free[i].end;
        assert rest[if i < k then i else i - 1] == free[i];
      }
      if InFree(rest, b) {
        var i :| 0 <= i < |rest| && rest[i].start <= b < rest[i].end;
        assert free[if i < k then i else i + 1] == rest[i];
      }
    }
  }

  lemma EraseClear(free: seq<FreeBlock>, k: nat)
    requires Separated(free) && k < |free|
    ensures Separated(Erase(free, k))
    ensures forall i :: 0 <= i < |Erase(free, k)| ==> Erase(free, k)[i] in free && Clear(Erase(free, k)[i], free[k])
  {
    var rest := Erase(free, k);
    forall i | 0 <= i < |rest|
      ensures rest[i] in free && Clear(rest[i], free[k])
    {
      var j := if i < k then i else i + 1;
      assert rest[i] == free[j];
      assert if j < k then Clear(free[j], free[k]) else Clear(free[k], free[j]);
    }
  }

  /** What is apart from the free list and the block stays apart from the result. */
  lemma {:induction false} ReleaseApart(free: seq<FreeBlock>, block: FreeBlock, p: int, n: int)
    requires n > 0 && Apart(block, p, n) && block.start < block.end
    requires forall i :: 0 <= i < |free| ==> free[i].start <= free[i].end && Apart(free[i], p, n)
    ensures forall i :: 0 <= i < |Release(free, block)| ==> Apart(Release(free, block)[i], p, n)
    decreases |free|
  {
    var k := FirstTouching(free, block, 0);
    if k < |free| {
      ReleaseApart(Erase(free, k), Joined(free[k], block), p, n);
    }
  }

  /** Giving back the block [a, a + n) that `used` had and `used'` has not keeps the tiling. */
  lemma GiveBack(free: seq<FreeBlock>, used: map<int, int>, used': map<int, int>, lo: int, hi: int, a: int, n: int)
    requires Tiles(free, used, lo, hi) && n > 0 && lo <= a && a + n <= hi
    requires forall i :: 0 <= i < |free| ==> Apart(free[i], a, n)
    requires forall q :: q in used' ==> q in used && 0 < used'[q] <= used[q] && (q + used'[q] <= a || a + n <= q)
    requires forall b :: InUsed(used, b) ==> InUsed(used', b) || a <= b < a + n
    ensures Tiles(Release(free, FreeBlock(a, a + n)), used', lo, hi)
  {
    hide Release, InFree, InUsed;
    var block := FreeBlock(a, a + n);
    var free' := Release(free, block);
    ReleaseKeeps(free, block, lo, hi);
    forall i, q | 0 <= i < |free'| && q in used'
      ensures Apart(free'[i], q, used'[q])
    {
      forall j | 0 <= j < |free|
        ensures Apart(free[j], q, used'[q])
      {
        assert Apart(free[j], q, used[q]);
      }
      ReleaseApart(free, block, q, used'[q]);
    }
  }

  /** free */
  lemma FreeTiles(free: seq<FreeBlock>, used: map<int, int>, lo: int, hi: int, p: int)
    requires Tiles(free, used, lo, hi) && p in used
    ensures Tiles(Release(free, FreeBlock(p, p + used[p])), used - {p}, lo, hi)
  {
    hide Release;
    forall b | InUsed(used, b)
      ensures InUsed(used - {p}, b) || p <= b < p + used[p]
    {
      var q :| q in used && q <= b < q + used[q];
      assert q != p ==> q in used - {p};
    }
    GiveBack(free, used, used - {p}, lo, hi, p, used[p]);
  }

  /** A shrinking realloc to a positive size. */
  lemma ShrinkTiles(free: seq<FreeBlock>, used: map<int, int>, lo: int, hi: int, p: int, size: nat)
    requires Tiles(free, used, lo, hi) && p in used && 0 < size < used[p]
    ensures Tiles(Release(free, FreeBlock(p + size, p + used[p])), used[p := size], lo, hi)
  {
    hide Release;
    var used' := used[p := size];
    forall b | InUsed(used, b)
      ensures InUsed(used', b) || p + size <= b < p + used[p]
    {
      var q :| q in used && q <= b < q + used[q];
      assert q in used' && (q != p ==> used'[q] == used[q]);
    }
    forall i | 0 <= i < |free|
      ensures Apart(free[i], p + size, used[p] - size)
    {
      assert Apart(free[i], p, used[p]);
    }
    GiveBack(free, used, used', lo, hi, p + size, used[p] - size);
  }

  /** A free of an entry of size 0 keeps the tiling exactly when nothing has been built across its place. */
  lemma EmptyReleaseExactlyWhen(free: seq<FreeBlock>, used: map<int, int>, lo: int, hi: int, p: int)
    requires Tiles(free, used, lo, hi) && lo <= p <= hi
    ensures Tiles(Release(free, FreeBlock(p, p)), used, lo, hi) <==> !Inside(free, used, p)
  {
    var block := FreeBlock(p, p);
    var k := FirstTouching(free, block, 0);
    if k < |free| {
      assert Joined(free[k], block) == free[k];
      MovedToEnd(free, k);
      assert Release(free, block) == Erase(free, k) + [free[k]];
      MovedTiles(free, used, lo, hi, k);
      TouchedNotInside(free, used, lo, hi, k, p);
    } else {
      assert Release(free, block) == free + [block];
      if Inside(free, used, p) {
        InsideBreaks(free, used, lo, hi, p);
      } else {
        OutsideKeeps(free, used, lo, hi, p);
      }
    }
  }

  /** Nothing touches a block of a separated list. */
  lemma MovedToEnd(free: seq<FreeBlock>, k: nat)
    requires Separated(free) && k < |free| && forall i :: 0 <= i < |free| ==> free[i].start <= free[i].end
    ensures Release(Erase(free, k), free[k]) == Erase(free, k) + [free[k]]
  {
    EraseClear(free, k);
  }

  lemma MovedTiles(free: seq<FreeBlock>, used: map<int, int>, lo: int, hi: int, k: nat)
    requires Tiles(free, used, lo, hi) && k < |free|
    ensures Tiles(Erase(free, k) + [free[k]], used, lo, hi)
  {
    hide InFree, InUsed;
    var rest := Erase(free, k);
    EraseClear(free, k);
    EraseIn(free, k);
    AppendIn(rest, free[k]);
    forall i | 0 <= i < |rest|
      ensures lo <= rest[i].start <= rest[i].end <= hi
      ensures forall p :: p in used ==> Apart(rest[i], p, used[p])
    {
      var j :| 0 <= j < |free| && free[j] == rest[i];
    }
  }

  lemma TouchedNotInside(free: seq<FreeBlock>, used: map<int, int>, lo: int, hi: int, k: nat, p: int)
    requires Tiles(free, used, lo, hi) && k < |free| && (free[k].end == p || p == free[k].start)
    ensures !Inside(free, used, p)
  {
    forall i | 0 <= i < |free|
      ensures !(free[i].start < p < free[i].end)
    {
      if i < k {
        assert Clear(free[i], free[k]);
      } else if i > k {
        assert Clear(free[k], free[i]);
      }
    }
    forall q | q in used
      ensures !(q < p < q + used[q])
    {
      assert Apart(free[k], q, used[q]);
    }
  }

  lemma InsideBreaks(free: seq<FreeBlock>, used: map<int, int>, lo: int, hi: int, p: int)
    requires Inside(free, used, p)
    ensures !Tiles(free + [FreeBlock(p, p)], used, lo, hi)
  {
    var free' := free + [FreeBlock(p, p)];
    var n := |free|;
    assert free'[n] == FreeBlock(p, p);
    if i :| 0 <= i < |free| && free[i].start < p < free[i].end {
      assert free'[i] == free[i] && !Clear(free'[i], free'[n]);
    } else {
      var q :| q in used && q < p < q + used[q];
      assert !Apart(free'[n], q, used[q]);
    }
  }

  lemma OutsideKeeps(free: seq<FreeBlock>, used: map<int, int>, lo: int, hi: int, p: int)
    requires Tiles(free, used, lo, hi) && lo <= p <= hi && !Inside(free, used, p)
    requires forall i :: 0 <= i < |free| ==> free[i].end != p && p != free[i].start
    ensures Tiles(free + [FreeBlock(p, p)], used, lo, hi)
  {
    hide InFree, InUsed;
    AppendIn(free, FreeBlock(p, p));
  }

  /** What free does to a heap in which entries of size 0 may be. */
  lemma FreeWholeExactlyWhen(free: seq<FreeBlock>, used: map<int, int>, lo: int, hi: int, p: int)
    requires Whole(free, used, lo, hi) && p in used
    ensures Whole(Release(free, FreeBlock(p, p + used[p])), used - {p}, lo, hi)
      <==> used[p] > 0 || !Inside(free, Positive(used), p)
  {
    hide Tiles, Release, Inside;
    if used[p] > 0 {
      FreeTiles(free, Positive(used), lo, hi, p);
      assert Positive(used - {p}) == Positive(used) - {p};
    } else {
      EmptyReleaseExactlyWhen(free, Positive(used), lo, hi, p);
      assert Positive(used - {p}) == Positive(used);
    }
  }

  /** A shrink keeps the tiling, to size 0 as well. */
  lemma ShrinkWhole(free: seq<FreeBlock>, used: map<int, int>, lo: int, hi: int, p: int, size: nat)
    requires Whole(free, used, lo, hi) && p in used && size < used[p]
    ensures Whole(Release(free, FreeBlock(p + size, p + used[p])), used[p := size], lo, hi)
  {
    hide Tiles, Release;
    if size > 0 {
      ShrinkTiles(free, Positive(used), lo, hi, p, size);
      assert Positive(used[p := size]) == Positive(used)[p := size];
    } else {
      FreeTiles(free, Positive(used), lo, hi, p);
      assert Positive(used[p := 0]) == Positive(used) - {p};
    }
  }

  // ---------------------------------------------------------------- allocating

  /** static_cast<size_t>(end - alignedStart) >= size: the difference wraps when the block is passed over. */
  predicate BigEnough(f: FreeBlock, size: nat, alignment: int)
    requires alignment > 0
  {
    (f.end - AlignUp(f.start, alignment)) % TWO_64 >= size
  }

  /** The first block taken for big enough; |free| if there is none. */
  function FirstBigEnough(free: seq<FreeBlock>, size: nat, alignment: int, i: nat): (k: nat)
    requires i <= |free| && alignment > 0
    ensures i <= k <= |free|
    ensures k < |free| ==> BigEnough(free[k], size, alignment)
    ensures forall j :: i <= j < k ==> !BigEnough(free[j], size, alignment)
    decreases |free| - i
  {
    if i == |free| || BigEnough(free[i], size, alignment) then i else FirstBigEnough(free, size, alignment, i + 1)
  }

  /** The free list after allocating from block `k`. */
  function Taken(free: seq<FreeBlock>, k: nat, size: nat, alignment: int): seq<FreeBlock>
    requires k < |free| && alignment > 0
  {
    var offset := AlignUp(free[k].start, alignment) - free[k].start;
    var alignedSize := size + offset;
    (if (free[k].start - free[k].end) % TWO_64 == alignedSize then Erase(free, k)
     else free[k := FreeBlock(free[k].start + alignedSize, free[k].end)])
    + (if offset > 0 then [FreeBlock(free[k].start, free[k].start + offset)] else [])
  }

  /** map::emplace: an existing entry stays. */
  function Emplaced(used: map<int, int>, p: int, n: int): map<int, int> {
    if p in used then used else used[p := n]
  }

  /** The block found really holds the aligned allocation. */
  predicate Holds(f: FreeBlock, size: nat, alignment: int)
    requires alignment > 0
  {
    AlignUp(f.start, alignment) + size <= f.end
  }

  /** Without wrap-around, big enough means what it says. */
  lemma BigEnoughExactly(f: FreeBlock, size: nat, alignment: int)
    requires alignment > 0 && IsPowerOfTwo(alignment) && 0 <= f.start <= f.end < TWO_64 && AlignUp(f.start, alignment) < TWO_64
    ensures AlignUp(f.start, alignment) <= f.end ==> (BigEnough(f, size, alignment) <==> Holds(f, size, alignment))
    ensures AlignUp(f.start, alignment) > f.end ==>
      (BigEnough(f, size, alignment) <==> size <= f.end - AlignUp(f.start, alignment) + TWO_64)
  {
    hide AlignUp;
    var d := f.end - AlignUp(f.start, alignment);
    if d >= 0 {
      DivModIs(d, TWO_64, 0, d);
    } else {
      DivModIs(d, TWO_64, -1, d + TWO_64);
    }
  }

  /** No erasure for positive sizes: the test for it has its operands the wrong way round, so a block that
      is used up stays as an empty one. */
  lemma NeverErased(f: FreeBlock, alignedSize: int)
    requires 0 <= f.start <= f.end < TWO_64 && 0 < alignedSize <= f.end - f.start && 2 * (f.end - f.start) < TWO_64
    ensures (f.start - f.end) % TWO_64 != alignedSize
  {
    DivModIs(f.start - f.end, TWO_64, -1, f.start - f.end + TWO_64);
  }

  lemma TakenIs(free: seq<FreeBlock>, k: nat, size: nat, alignment: int)
    requires k < |free| && alignment > 0 && size > 0 && Holds(free[k], size, alignment)
    requires 0 <= free[k].start && free[k].end < TWO_64 / 2
    ensures var f := free[k]; var p := AlignUp(f.start, alignment);
      Taken(free, k, size, alignment) ==
        free[k := FreeBlock(p + size, f.end)] + if p > f.start then [FreeBlock(f.start, p)] else []
  {
    hide AlignUp;
    NeverErased(free[k], AlignUp(free[k].start, alignment) - free[k].start + size);
  }

  /** Allocating from a block that holds the allocation keeps the tiling and adds exactly the allocation. */
  lemma TakenTiles(free: seq<FreeBlock>, used: map<int, int>, lo: int, hi: int, k: nat, size: nat, alignment: int)
    requires Tiles(free, used, lo, hi) && 0 <= lo && hi < TWO_64 / 2 && k < |free| && size > 0
    requires alignment > 0 && IsPowerOfTwo(alignment)
    requires Holds(free[k], size, alignment)
    ensures var p := AlignUp(free[k].start, alignment);
      p !in used && Tiles(Taken(free, k, size, alignment), used[p := size], lo, hi)
  {
    hide AlignUp, Taken;
    TakenIs(free, k, size, alignment);
    var f, p := free[k], AlignUp(free[k].start, alignment);
    CarvedTiles(free, used, lo, hi, k, p, size);
  }

  lemma CarvedSeparated(free: seq<FreeBlock>, k: nat, p: int, size: nat)
    requires Separated(free) && k < |free| && size > 0 && free[k].start <= p && p + size <= free[k].end
    ensures Separated(free[k := FreeBlock(p + size, free[k].end)] + if p > free[k].start then [FreeBlock(free[k].start, p)] else [])
  {
    var f := free[k];
    var free' := free[k := FreeBlock(p + size, f.end)] + if p > f.start then [FreeBlock(f.start, p)] else [];
    forall i, j | 0 <= i < j < |free'|
      ensures Clear(free'[i], free'[j])
    {
      if j < |free| {
        assert Clear(free[i], free[j]);
      } else if i < k {
        assert Clear(free[i], f);
      } else if i > k {
        assert Clear(f, free[i]);
      }
    }
  }

  lemma CarvedCovers(free: seq<FreeBlock>, used: map<int, int>, lo: int, hi: int, k: nat, p: int, size: nat)
    requires k < |free| && size > 0 && free[k].start <= p && p + size <= free[k].end && p !in used
    requires forall b :: lo <= b < hi ==> InFree(free, b) || InUsed(used, b)
    ensures var free' := free[k := FreeBlock(p + size, free[k].end)] + if p > free[k].start then [FreeBlock(free[k].start, p)] else [];
      forall b :: lo <= b < hi ==> InFree(free', b) || InUsed(used[p := size], b)
  {
    var free' := free[k := FreeBlock(p + size, free[k].end)] + if p > free[k].start then [FreeBlock(free[k].start, p)] else [];
    var used' := used[p := size];
    forall b | lo <= b < hi
      ensures InFree(free', b) || InUsed(used', b)
    {
      if InUsed(used, b) {
        var q :| q in used && q <= b < q + used[q];
        assert q in used' && used'[q] == used[q];
      } else {
        var i :| 0 <= i < |free| && free[i].start <= b < free[i].end;
        if i != k {
          assert free'[i] == free[i];
        } else if b >= p + size {
          assert free'[k].start <= b < free'[k].end;
        } else if b >= p {
          assert p in used' && p <= b < p + used'[p];
        } else {
          assert free'[|free|].start <= b < free'[|free|].end;
        }
      }
    }
  }

  lemma CarvedTiles(free: seq<FreeBlock>, used: map<int, int>, lo: int, hi: int, k: nat, p: int, size: nat)
    requires Tiles(free, used, lo, hi) && k < |free| && size > 0 && free[k].start <= p && p + size <= free[k].end
    ensures p !in used
    ensures Tiles(free[k := FreeBlock(p + size, free[k].end)] + if p > free[k].start then [FreeBlock(free[k].start, p)] else [],
                  used[p := size], lo, hi)
  {
    var f := free[k];
    var free' := free[k := FreeBlock(p + size, f.end)] + if p > f.start then [FreeBlock(f.start, p)] else [];
    CarvedSeparated(free, k, p, size);
    assert p !in used by {
      assert forall q :: q in used ==> Apart(f, q, used[q]);
    }
    var used' := used[p := size];
    forall i, q | 0 <= i < |free'| && q in used'
      ensures Apart(free'[i], q, used'[q])
    {
      if q != p {
        assert Apart(free[if i < |free| then i else k], q, used[q]);
        assert Apart(f, q, used[q]);
      } else if i < |free| && i != k {
        assert if i < k then Clear(free[i], f) else Clear(f, free[i]);
      }
    }
    forall q | q in used
      ensures q + used[q] <= p || p + size <= q
    {
      assert Apart(f, q, used[q]);
    }
    CarvedCovers(free, used, lo, hi, k, p, size);
  }

  /** The allocation leaves the tiling as it should: `p` is where it starts in the block `f`. */
  predicate Lands(f: FreeBlock, used: map<int, int>, p: int, size: nat) {
    if size > 0 then p <= f.end && p !in used else p == f.start
  }

  /**
   An allocation keeps the tiling exactly when alignment does not carry it past the block it is taken from
   and no entry of size 0 is left at its place; one of size 0, when its block starts aligned.
   */
  lemma AllocTilesExactlyWhen(free: seq<FreeBlock>, used: map<int, int>, lo: int, hi: int, size: nat, alignment: int)
    requires Whole(free, used, lo, hi) && 0 <= lo && hi < TWO_64 / 2 && size + alignment < TWO_64 / 2
    requires alignment > 0 && IsPowerOfTwo(alignment)
    ensures var k := FirstBigEnough(free, size, alignment, 0);
      k < |free| ==> var p := AlignUp(free[k].start, alignment);
        Whole(Taken(free, k, size, alignment), Emplaced(used, p, size), lo, hi) <==> Lands(free[k], used, p, size)
  {
    hide AlignUp, Taken, Tiles;
    var k := FirstBigEnough(free, size, alignment, 0);
    if k < |free| {
      BlockBounds(free, Positive(used), lo, hi, k);
      var f, p := free[k], AlignUp(free[k].start, alignment);
      AlignUpBounds(f.start, alignment);
      BigEnoughExactly(f, size, alignment);
      if size == 0 {
        EmptyAlloc(free, Positive(used), lo, hi, k, alignment);
        assert Positive(Emplaced(used, p, 0)) == Positive(used);
      } else if p > f.end {
        PassedOver(free, k, size, alignment);
        NotTiles(Taken(free, k, size, alignment), Positive(Emplaced(used, p, size)), lo, hi, k);
      } else if p in used {
        StaleEntry(free, Positive(used), lo, hi, k, size, alignment);
      } else {
        TakenTiles(free, Positive(used), lo, hi, k, size, alignment);
        assert Positive(used[p := size]) == Positive(used)[p := size];
      }
    }
  }

  /** An entry of size 0 at its place stays, and the first byte of the allocation is lost. */
  lemma StaleEntry(free: seq<FreeBlock>, used: map<int, int>, lo: int, hi: int, k: nat, size: nat, alignment: int)
    requires Tiles(free, used, lo, hi) && 0 <= lo && hi < TWO_64 / 2 && k < |free| && size > 0
    requires alignment > 0 && IsPowerOfTwo(alignment) && Holds(free[k], size, alignment)
    ensures !Tiles(Taken(free, k, size, alignment), used, lo, hi)
  {
    hide AlignUp, Taken;
    var f, p, free' := free[k], AlignUp(free[k].start, alignment), Taken(free, k, size, alignment);
    AlignUpBounds(f.start, alignment);
    TakenIs(free, k, size, alignment);
    forall i | 0 <= i < |free'|
      ensures !(free'[i].start <= p < free'[i].end)
    {
      if i < |free| && i != k {
        assert free'[i] == free[i];
        assert if i < k then Clear(free[i], f) else Clear(f, free[i]);
      }
    }
    forall q | q in used
      ensures !(q <= p < q + used[q])
    {
      assert Apart(f, q, used[q]);
    }
    assert !InFree(free', p) && !InUsed(used, p) && lo <= p < hi;
  }

  /** An allocation of size 0 leaves two touching pieces of its block unless the block starts aligned. */
  lemma EmptyAlloc(free: seq<FreeBlock>, used: map<int, int>, lo: int, hi: int, k: nat, alignment: int)
    requires Tiles(free, used, lo, hi) && 0 <= lo && hi < TWO_64 / 2 && k < |free|
    requires 0 < alignment < TWO_64 / 2
    ensures Tiles(Taken(free, k, 0, alignment), used, lo, hi) <==> AlignUp(free[k].start, alignment) == free[k].start
  {
    hide AlignUp;
    var f, p, free' := free[k], AlignUp(free[k].start, alignment), Taken(free, k, 0, alignment);
    AlignUpBounds(f.start, alignment);
    EmptyDifference(f);
    if p > f.start {
      assert free'[k] == FreeBlock(p, f.end) && free'[|free|] == FreeBlock(f.start, p);
      assert !Clear(free'[k], free'[|free|]);
    } else if f.start == f.end {
      assert free' == Erase(free, k);
      ErasedTiles(free, used, lo, hi, k);
    } else {
      assert free' == free;
    }
  }

  lemma EmptyDifference(f: FreeBlock)
    requires 0 <= f.start <= f.end < TWO_64 / 2
    ensures (f.start - f.end) % TWO_64 == 0 <==> f.start == f.end
    ensures (f.start - f.end) % TWO_64 == 0 || (f.start - f.end) % TWO_64 > TWO_64 / 2
  {
    if f.start < f.end {
      DivModIs(f.start - f.end, TWO_64, -1, f.start - f.end + TWO_64);
    }
  }

  lemma ErasedTiles(free: seq<FreeBlock>, used: map<int, int>, lo: int, hi: int, k: nat)
    requires Tiles(free, used, lo, hi) && k < |free| && free[k].start == free[k].end
    ensures Tiles(Erase(free, k), used, lo, hi)
  {
    hide InFree, InUsed;
    var rest := Erase(free, k);
    EraseClear(free, k);
    EraseIn(free, k);
    forall i | 0 <= i < |rest|
      ensures lo <= rest[i].start <= rest[i].end <= hi
      ensures forall p :: p in used ==> Apart(rest[i], p, used[p])
    {
      var j :| 0 <= j < |free| && free[j] == rest[i];
    }
  }

  lemma AlignUpBounds(v: int, alignment: int)
    requires alignment > 0
    ensures v <= AlignUp(v, alignment) < v + alignment
  {}

  lemma BlockBounds(free: seq<FreeBlock>, used: map<int, int>, lo: int, hi: int, k: nat)
    requires Tiles(free, used, lo, hi) && k < |free|
    ensures lo <= free[k].start <= free[k].end <= hi
  {}

  lemma NotTiles(free: seq<FreeBlock>, used: map<int, int>, lo: int, hi: int, k: nat)
    requires k < |free| && free[k].start > free[k].end
    ensures !Tiles(free, used, lo, hi)
  {}

  lemma PassedOver(free: seq<FreeBlock>, k: nat, size: nat, alignment: int)
    requires k < |free| && alignment > 0 && size > 0 && BigEnough(free[k], size, alignment)
    requires 0 <= free[k].start <= free[k].end < TWO_64 / 2 && free[k].end < AlignUp(free[k].start, alignment)
    requires size + alignment < TWO_64 / 2
    ensures k < |Taken(free, k, size, alignment)| && Taken(free, k, size, alignment)[k].start > Taken(free, k, size, alignment)[k].end
  {
    hide AlignUp;
    var f := free[k];
    AlignUpBounds(f.start, alignment);
    var alignedSize := size + AlignUp(f.start, alignment) - f.start;
    if f.start == f.end {
      DivModIs(0, TWO_64, 0, 0);
    } else {
      DivModIs(f.start - f.end, TWO_64, -1, f.start - f.end + TWO_64);
    }
  }

  /** Alignment carries an allocation past a block of two bytes, and the block ends up inside out. */
  lemma AlignmentPassesBlock()
    ensures Tiles([FreeBlock(4, 6)], map[], 4, 6) && FirstBigEnough([FreeBlock(4, 6)], 4, 8, 0) == 0
    ensures Taken([FreeBlock(4, 6)], 0, 4, 8) == [FreeBlock(12, 6), FreeBlock(4, 8)]
    ensures !Tiles([FreeBlock(12, 6), FreeBlock(4, 8)], map[8 := 4], 4, 6)
  {
    var free := [FreeBlock(4, 6)];
    NewTiles(4, 2);
    assert AlignUp(4, 8) == 8;
    DivModIs(6 - 8, TWO_64, -1, TWO_64 - 2);
    NotTiles([FreeBlock(12, 6), FreeBlock(4, 8)], map[8 := 4], 4, 6, 0);
  }

  // ---------------------------------------------------------------- one alignment unit

  /** All addresses and sizes are multiples of one unit. */
  ghost predicate OnUnit(free: seq<FreeBlock>, used: map<int, int>, unit: int)
    requires unit > 0
  {
    && (forall i :: 0 <= i < |free| ==> free[i].start % unit == 0 && free[i].end % unit == 0)
    && (forall p :: p in used ==> p % unit == 0 && used[p] % unit == 0)
  }

  lemma SumOnUnit(a: int, b: int, unit: int)
    requires unit > 0 && a % unit == 0 && b % unit == 0
    ensures (a + b) % unit == 0
  {
    assert a + b == unit * (a / unit + b / unit);
    DivModIs(a + b, unit, a / unit + b / unit, 0);
  }

  /** Alignment leaves a multiple of the unit alone, so that no block is passed over. */
  lemma AlignedAlready(v: int, unit: int, alignment: int)
    requires alignment > 0 && unit > 0 && unit % alignment == 0 && v % unit == 0
    ensures AlignUp(v, alignment) == v
  {
    var k, u := v / unit, unit / alignment;
    assert v == unit * k && unit == alignment * u;
    assert v == alignment * (u * k);
    DivModIs(v + alignment - 1, alignment, u * k, alignment - 1);
  }

  /** With one unit, every allocation that finds a block keeps the tiling and the unit. */
  lemma AllocOnUnit(free: seq<FreeBlock>, used: map<int, int>, lo: int, hi: int, size: nat, unit: int, alignment: int)
    requires Tiles(free, used, lo, hi) && 0 <= lo && hi < TWO_64 / 2 && size > 0
    requires alignment > 0 && unit > 0 && unit % alignment == 0 && size % unit == 0 && OnUnit(free, used, unit)
    requires IsPowerOfTwo(alignment)
    ensures var k := FirstBigEnough(free, size, alignment, 0);
      k < |free| ==> var p := AlignUp(free[k].start, alignment);
        && p == free[k].start && p !in used
        && Tiles(Taken(free, k, size, alignment), Emplaced(used, p, size), lo, hi)
        && OnUnit(Taken(free, k, size, alignment), Emplaced(used, p, size), unit)
  {
    hide AlignUp, Taken, Tiles;
    var k := FirstBigEnough(free, size, alignment, 0);
    if k < |free| {
      BlockBounds(free, used, lo, hi, k);
      AlignedAlready(free[k].start, unit, alignment);
      BigEnoughExactly(free[k], size, alignment);
      TakenTiles(free, used, lo, hi, k, size, alignment);
      TakenIs(free, k, size, alignment);
      SumOnUnit(free[k].start, size, unit);
    }
  }

  lemma {:induction false} ReleaseOnUnit(free: seq<FreeBlock>, block: FreeBlock, used: map<int, int>, unit: int)
    requires unit > 0 && OnUnit(free, used, unit) && block.start % unit == 0 && block.end % unit == 0
    ensures OnUnit(Release(free, block), used, unit)
    decreases |free|
  {
    var k := FirstTouching(free, block, 0);
    if k < |free| {
      ReleaseOnUnit(Erase(free, k), Joined(free[k], block), used, unit);
    }
  }

  // ---------------------------------------------------------------- all runs

  datatype State = State(free: seq<FreeBlock>, used: map<int, int>)

  datatype Op = DoAlloc(size: nat, alignment: nat) | DoFree(ptr: int) | DoShrink(ptr: int, size: nat)

  /**
   Sizes are positive multiples of the unit, alignments are powers of two that divide it, and only
   live pointers are given back.
   */
  ghost predicate Allowed(s: State, op: Op, unit: int)
    requires unit > 0
  {
    Possible(s, op) && match op
    case DoAlloc(size, alignment) => size > 0 && size % unit == 0 && unit % alignment == 0
    case DoFree(p) => true
    case DoShrink(p, size) => size > 0 && size % unit == 0
  }

  /** What the code asserts: alignments are powers of two, live pointers are given back, and sizes shrink. */
  ghost predicate Possible(s: State, op: Op) {
    match op
    case DoAlloc(size, alignment) => alignment > 0 && IsPowerOfTwo(alignment)
    case DoFree(p) => p in s.used
    case DoShrink(p, size) => p in s.used && size <= s.used[p]
  }

  function Next(s: State, op: Op): State
    requires op.DoAlloc? ==> op.alignment > 0
    requires op.DoFree? || op.DoShrink? ==> op.ptr in s.used
  {
    match op
    case DoAlloc(size, alignment) =>
      var k := FirstBigEnough(s.free, size, alignment, 0);
      if k == |s.free| then s
      else State(Taken(s.free, k, size, alignment), Emplaced(s.used, AlignUp(s.free[k].start, alignment), size))
    case DoFree(p) => State(Release(s.free, FreeBlock(p, p + s.used[p])), s.used - {p})
    case DoShrink(p, size) =>
      if size == s.used[p] then s
      else State(Release(s.free, FreeBlock(p + size, p + s.used[p])), s.used[p := size])
  }

  ghost predicate Sound(s: State, lo: int, hi: int, unit: int)
    requires unit > 0
  {
    Tiles(s.free, s.used, lo, hi) && OnUnit(s.free, s.used, unit)
  }

  lemma NextSound(s: State, op: Op, lo: int, hi: int, unit: int)
    requires 0 <= lo && hi < TWO_64 / 2 && unit > 0 && Sound(s, lo, hi, unit) && Allowed(s, op, unit)
    ensures Sound(Next(s, op), lo, hi, unit)
  {
    hide Tiles, Release, Taken, AlignUp;
    match op {
      case DoAlloc(size, alignment) => { AllocOnUnit(s.free, s.used, lo, hi, size, unit, alignment); }
      case DoFree(p) => {
        FreeTiles(s.free, s.used, lo, hi, p);
        SumOnUnit(p, s.used[p], unit);
        ReleaseOnUnit(s.free, FreeBlock(p, p + s.used[p]), s.used, unit);
      }
      case DoShrink(p, size) => {
        if size < s.used[p] {
          ShrinkTiles(s.free, s.used, lo, hi, p, size);
          SumOnUnit(p, s.used[p], unit);
          SumOnUnit(p, size, unit);
          ReleaseOnUnit(s.free, FreeBlock(p + size, p + s.used[p]), s.used, unit);
        }
      }
    }
  }

  ghost predicate Runs(s: State, ops: seq<Op>, s': State, unit: int)
    requires unit > 0
    decreases |ops|
  {
    if ops == [] then s' == s else Allowed(s, ops[0], unit) && Runs(Next(s, ops[0]), ops[1..], s', unit)
  }

  lemma {:induction false} RunSound(s: State, ops: seq<Op>, s': State, lo: int, hi: int, unit: int)
    requires 0 <= lo && hi < TWO_64 / 2 && unit > 0 && Sound(s, lo, hi, unit) && Runs(s, ops, s', unit)
    ensures Sound(s', lo, hi, unit)
    decreases |ops|
  {
    hide Sound, Next;
    if ops != [] {
      NextSound(s, ops[0], lo, hi, unit);
      RunSound(Next(s, ops[0]), ops[1..], s', lo, hi, unit);
    }
  }

  /** Conservation: from a new heap, every run keeps the tiling, and once all is freed the one block is back. */
  lemma RunConserves(ops: seq<Op>, s': State, buffer: nat, size: nat, unit: int)
    requires unit > 0 && buffer % unit == 0 && size % unit == 0 && size > 0 && buffer + size < TWO_64 / 2
    requires Runs(State([FreeBlock(buffer, buffer + size)], map[]), ops, s', unit)
    ensures Tiles(s'.free, s'.used, buffer, buffer + size)
    ensures s'.used == map[] ==> s'.free == [FreeBlock(buffer, buffer + size)]
  {
    hide Next;
    var s := State([FreeBlock(buffer, buffer + size)], map[]);
    NewTiles(buffer, size);
    SumOnUnit(buffer, size, unit);
    RunSound(s, ops, s', buffer, buffer + size, unit);
    if s'.used == map[] {
      AllFree(s'.free, buffer, buffer + size);
    }
  }

  // ---------------------------------------------------------------- all runs with any sizes and alignments

  /** The call lands as it should, or gives back an entry that has bytes or nothing built across it. */
  ghost predicate Keeps(s: State, op: Op)
    requires Possible(s, op)
  {
    match op
    case DoAlloc(size, alignment) =>
      var k := FirstBigEnough(s.free, size, alignment, 0);
      k < |s.free| ==> Lands(s.free[k], s.used, AlignUp(s.free[k].start, alignment), size)
    case DoFree(p) => s.used[p] > 0 || !Inside(s.free, Positive(s.used), p)
    case DoShrink(p, size) => true
  }

  predicate Bounded(op: Op) {
    op.DoAlloc? ==> op.size + op.alignment < TWO_64 / 2
  }

  lemma NextWholeExactlyWhen(s: State, op: Op, lo: int, hi: int)
    requires 0 <= lo && hi < TWO_64 / 2 && Whole(s.free, s.used, lo, hi) && Possible(s, op) && Bounded(op)
    ensures Whole(Next(s, op).free, Next(s, op).used, lo, hi) <==> Keeps(s, op)
  {
    hide Whole, Release, Taken, AlignUp, Inside, Lands;
    match op
    case DoAlloc(size, alignment) => AllocTilesExactlyWhen(s.free, s.used, lo, hi, size, alignment);
    case DoFree(p) => FreeWholeExactlyWhen(s.free, s.used, lo, hi, p);
    case DoShrink(p, size) =>
      if size < s.used[p] {
        ShrinkWhole(s.free, s.used, lo, hi, p, size);
      }
  }

  /** A history of heap states, one per call. */
  ghost predicate History(states: seq<State>, ops: seq<Op>) {
    && |states| == |ops| + 1
    && forall i :: 0 <= i < |ops| ==> Possible(states[i], ops[i]) && Bounded(ops[i]) && states[i + 1] == Next(states[i], ops[i])
  }

  /** Conservation throughout a run of any sizes and alignments, exactly when every call keeps the tiling. */
  lemma RunWholeExactlyWhen(states: seq<State>, ops: seq<Op>, buffer: nat, size: nat)
    requires size > 0 && buffer + size < TWO_64 / 2
    requires History(states, ops) && states[0] == State([FreeBlock(buffer, buffer + size)], map[])
    ensures (forall i :: 0 <= i < |states| ==> Whole(states[i].free, states[i].used, buffer, buffer + size))
      <==> (forall i :: 0 <= i < |ops| ==> Keeps(states[i], ops[i]))
  {
    hide Whole, Keeps, Next;
    if forall i :: 0 <= i < |states| ==> Whole(states[i].free, states[i].used, buffer, buffer + size) {
      forall i | 0 <= i < |ops|
        ensures Keeps(states[i], ops[i])
      {
        assert Whole(states[i + 1].free, states[i + 1].used, buffer, buffer + size);
        NextWholeExactlyWhen(states[i], ops[i], buffer, buffer + size);
      }
    }
    if forall i :: 0 <= i < |ops| ==> Keeps(states[i], ops[i]) {
      forall i | 0 <= i < |states|
        ensures Whole(states[i].free, states[i].used, buffer, buffer + size)
      {
        WholeUpTo(states, ops, buffer, size, i);
      }
    }
  }

  lemma NewWhole(buffer: nat, size: nat)
    ensures Whole([FreeBlock(buffer, buffer + size)], map[], buffer, buffer + size)
  {
    NewTiles(buffer, size);
    assert Positive(map[]) == map[];
  }

  lemma {:induction false} WholeUpTo(states: seq<State>, ops: seq<Op>, buffer: nat, size: nat, i: nat)
    requires buffer + size < TWO_64 / 2 && i < |states|
    requires History(states, ops) && states[0] == State([FreeBlock(buffer, buffer + size)], map[])
    requires forall k :: 0 <= k < i ==> Keeps(states[k], ops[k])
    ensures Whole(states[i].free, states[i].used, buffer, buffer + size)
  {
    hide Keeps, Next, Whole;
    if i == 0 {
      NewWhole(buffer, size);
    } else {
      WholeUpTo(states, ops, buffer, size, i - 1);
      NextWholeExactlyWhen(states[i - 1], ops[i - 1], buffer, buffer + size);
    }
  }

  /** Once no allocation with bytes is left, the free list is the whole buffer again. */
  lemma NoneLeft(free: seq<FreeBlock>, used: map<int, int>, lo: int, hi: int)
    requires Whole(free, used, lo, hi) && lo < hi && forall p :: p in used ==> used[p] == 0
    ensures free == [FreeBlock(lo, hi)]
  {
    var none: map<int, int> := map[];
    forall p ensures p !in Positive(used) {}
    assert Positive(used) == none;
    AllFree(free, lo, hi);
  }

  /** A shrink to nothing keeps its entry, and a later allocation at the same place leaves it at 0. */
  lemma ShrinkToZeroLosesBytes()
    ensures var s0 := State([FreeBlock(8, 16)], map[]);
      var s1 := Next(s0, DoAlloc(8, 4));
      8 in s1.used
    ensures var s0 := State([FreeBlock(8, 16)], map[]);
      var s1 := Next(s0, DoAlloc(8, 4));
      var s3 := Next(Next(s1, DoShrink(8, 0)), DoAlloc(8, 4));
      !InFree(s3.free, 8) && !InUsed(s3.used, 8)
  {
    var s0 := State([FreeBlock(8, 16)], map[]);
    AlignedAlready(8, 4, 4);
    DivModIs(8, TWO_64, 0, 8);
    DivModIs(-8, TWO_64, -1, TWO_64 - 8);
    assert Next(s0, DoAlloc(8, 4)) == State([FreeBlock(16, 16)], map[8 := 8]);
  }

  lemma NewTiles(buffer: nat, size: nat)
    ensures Tiles([FreeBlock(buffer, buffer + size)], map[], buffer, buffer + size)
  {
    var free := [FreeBlock(buffer, buffer + size)];
    forall b | buffer <= b < buffer + size
      ensures InFree(free, b)
    {
      assert free[0].start <= b < free[0].end;
    }
  }

  // ---------------------------------------------------------------- the code

  class TeenyHeap {
    const buffer: nat
    const size: nat
    var allocSizes: map<int, int>
    var freeBlocks: seq<FreeBlock>

    constructor (buffer: nat, size: nat)
      requires buffer + size < TWO_64 / 2
      ensures this.buffer == buffer && this.size == size && Valid()
      ensures freeBlocks == [FreeBlock(buffer, buffer + size)] && allocSizes == map[]
    {
      this.buffer, this.size, allocSizes, freeBlocks := buffer, size, map[], [FreeBlock(buffer, buffer + size)];
      new;
      NewTiles(buffer, size);
      assert Positive(map[]) == map[];
    }

    ghost predicate Valid()
      reads this
    {
      buffer + size < TWO_64 / 2 && Whole(freeBlocks, allocSizes, buffer, buffer + size)
    }

    function View(): State
      reads this
    {
      State(freeBlocks, allocSizes)
    }

    /** The search loop of alloc. */
    method FindBlock(size: nat, alignment: nat) returns (i: nat, alignOffset: int)
      requires alignment > 0 && IsPowerOfTwo(alignment)
      ensures i == FirstBigEnough(freeBlocks, size, alignment, 0)
      ensures i < |freeBlocks| ==> alignOffset == AlignUp(freeBlocks[i].start, alignment) - freeBlocks[i].start
    {
      i, alignOffset := 0, 0;
      while i < |freeBlocks|
        invariant 0 <= i <= |freeBlocks|
        invariant FirstBigEnough(freeBlocks, size, alignment, 0) == FirstBigEnough(freeBlocks, size, alignment, i)
      {
        var alignedStart := AlignUp(freeBlocks[i].start, alignment);
        if (freeBlocks[i].end - alignedStart) % TWO_64 >= size {
          alignOffset := alignedStart - freeBlocks[i].start;
          return;
        }
        i := i + 1;
      }
    }

    /** Null, as -1, exactly when no block is taken for big enough. */
    method Alloc(size: nat, alignment: nat) returns (ptr: int)
      requires Valid() && alignment > 0 && IsPowerOfTwo(alignment) && size + alignment < TWO_64 / 2
      modifies this
      ensures var k := FirstBigEnough(old(freeBlocks), size, alignment, 0);
        if k == |old(freeBlocks)| then ptr == -1 && freeBlocks == old(freeBlocks) && allocSizes == old(allocSizes)
        else
          && ptr == AlignUp(old(freeBlocks)[k].start, alignment)
          && (Valid() <==> Lands(old(freeBlocks)[k], old(allocSizes), ptr, size))
          && allocSizes == Emplaced(old(allocSizes), ptr, size)
      ensures View() == Next(old(View()), DoAlloc(size, alignment))
    {
      hide AlignUp, Tiles, Whole, Lands, Positive, FirstBigEnough;
      AllocTilesExactlyWhen(freeBlocks, allocSizes, buffer, buffer + this.size, size, alignment);
      ghost var free, used := freeBlocks, allocSizes;
      var i, alignOffset := FindBlock(size, alignment);
      if i == |freeBlocks| {
        return -1;
      }
      var alignedSize := size + alignOffset;
      var basePtr := freeBlocks[i].start;
      var alignedPtr := basePtr + alignOffset;
      if (freeBlocks[i].start - freeBlocks[i].end) % TWO_64 == alignedSize {
        freeBlocks := freeBlocks[..i] + freeBlocks[i + 1..];
      } else {
        freeBlocks := freeBlocks[i := FreeBlock(freeBlocks[i].start + alignedSize, freeBlocks[i].end)];
      }
      if alignOffset > 0 {
        freeBlocks := freeBlocks + [FreeBlock(basePtr, basePtr + alignOffset)];
      }
      if alignedPtr !in allocSizes {
        allocSizes := allocSizes[alignedPtr := size];
      }
      assert freeBlocks == Taken(free, i, size, alignment);
      return alignedPtr;
    }

    /** realloc; false when an assertion fails. */
    method Realloc(ptr: int, size: nat, alignment: nat) returns (ok: bool)
      requires Valid() && alignment > 0 && IsPowerOfTwo(alignment)
      modifies this
      ensures Valid()
      ensures ok <==> ptr in old(allocSizes) && size <= old(allocSizes)[ptr] && AlignUp(ptr, alignment) == ptr
      ensures allocSizes == if ok then old(allocSizes)[ptr := size] else old(allocSizes)
      ensures View() == if ok then Next(old(View()), DoShrink(ptr, size)) else old(View())
    {
      hide Tiles, Positive;
      ok := ptr in allocSizes && size <= allocSizes[ptr] && AlignUp(ptr, alignment) == ptr;
      if ok && size != allocSizes[ptr] {
        ShrinkWhole(freeBlocks, allocSizes, buffer, buffer + this.size, ptr, size);
        ReleaseBlock(FreeBlock(ptr + size, ptr + allocSizes[ptr]));
        allocSizes := allocSizes[ptr := size];
      }
    }

    /** free; false when an assertion fails. */
    method Free(ptr: int) returns (ok: bool)
      requires Valid()
      modifies this
      ensures (ok <==> ptr in old(allocSizes)) && allocSizes == old(allocSizes) - {ptr}
      ensures View() == if ok then Next(old(View()), DoFree(ptr)) else old(View())
      ensures Valid() <==> (ok && old(allocSizes)[ptr] == 0 ==> !Inside(old(freeBlocks), Positive(old(allocSizes)), ptr))
    {
      hide Tiles, Positive, Inside;
      ok := ptr in allocSizes;
      if ok {
        FreeWholeExactlyWhen(freeBlocks, allocSizes, buffer, buffer + size, ptr);
        ReleaseBlock(FreeBlock(ptr, ptr + allocSizes[ptr]));
        allocSizes := allocSizes - {ptr};
      } else {
        assert allocSizes - {ptr} == allocSizes;
      }
    }

    method ReleaseBlock(block: FreeBlock)
      modifies this`freeBlocks
      ensures freeBlocks == Release(old(freeBlocks), block)
      decreases |freeBlocks|
    {
      var i := 0;
      while i < |freeBlocks|
        invariant 0 <= i <= |freeBlocks| && freeBlocks == old(freeBlocks)
        invariant FirstTouching(freeBlocks, block, 0) == FirstTouching(freeBlocks, block, i)
      {
        if freeBlocks[i].end == block.start {
          var joined := FreeBlock(freeBlocks[i].start, block.end);
          freeBlocks := freeBlocks[..i] + freeBlocks[i + 1..];
          ReleaseBlock(joined);
          return;
        }
        if block.end == freeBlocks[i].start {
          var joined := FreeBlock(block.start, freeBlocks[i].end);
          freeBlocks := freeBlocks[..i] + freeBlocks[i + 1..];
          ReleaseBlock(joined);
          return;
        }
        i := i + 1;
      }
      freeBlocks := freeBlocks + [block];
    }
  }
}
