/**
 The expanded heap seen as a row of blocks (src/modules/coreinit/coreinit_expheap.cpp): what an
 allocation and a free do to the row, and what they keep.
 */
module HeapTiles {
  import opened Words

  const HEADER := 19           // sizeof(ExpandedHeapBlock), packed
  const MINIMUM_BLOCK := 23    // sizeof(ExpandedHeapBlock) + 4
  const HEAP_HEADER := 75      // sizeof(ExpandedHeap), packed

  /** A free block, or a used block whose header sits right before the caller's pointer `ptr`. */
  datatype Tile = Free(addr: int, size: int) | Used(addr: int, size: int, ptr: int)
  {
    function End(): int {
      addr + size
    }

    /** Where the block's header is. */
    function Header(): int {
      if Free? then addr else ptr - HEADER
    }

    /** The header lies inside the block. */
    predicate Fits() {
      addr <= Header() && Header() + HEADER <= End()
    }
  }

  /** The blocks cover [lo, hi) without gap or overlap, and no two free blocks touch. */
  predicate Row(tiles: seq<Tile>, lo: int, hi: int)
    decreases |tiles|
  {
    if tiles == [] then lo == hi
    else
      && tiles[0].addr == lo && tiles[0].Fits()
      && (|tiles| > 1 && tiles[0].Free? ==> tiles[1].Used?)
      && Row(tiles[1..], tiles[0].End(), hi)
  }

  lemma {:induction false} RowSplit(a: seq<Tile>, b: seq<Tile>, lo: int, hi: int)
    requires Row(a + b, lo, hi)
    ensures lo <= Cut(a, lo) <= hi && Row(a, lo, Cut(a, lo)) && Row(b, Cut(a, lo), hi)
    ensures a != [] && b != [] ==> a[|a| - 1].Used? || b[0].Used?
    ensures hi - lo >= HEADER * |a + b|
    decreases |a|, |b|
  {
    if a != [] {
      assert (a + b)[1..] == a[1..] + b;
      RowSplit(a[1..], b, a[0].End(), hi);
    } else if b != [] {
      assert a + b == [b[0]] + b[1..] && b[1..] == [] + b[1..];
      RowSplit([], b[1..], b[0].End(), hi);
    }
  }

  /** The address behind a row that starts at `lo`. */
  function Cut(a: seq<Tile>, lo: int): int {
    if a == [] then lo else a[|a| - 1].End()
  }

  lemma {:induction false} RowJoin(a: seq<Tile>, b: seq<Tile>, lo: int, mid: int, hi: int)
    requires Row(a, lo, mid) && Row(b, mid, hi)
    requires a != [] && b != [] ==> a[|a| - 1].Used? || b[0].Used?
    ensures Row(a + b, lo, hi) && Cut(a, lo) == mid
    decreases |a|
  {
    if a == [] {
      assert a + b == b;
    } else {
      assert (a + b)[1..] == a[1..] + b;
      RowJoin(a[1..], b, a[0].End(), mid, hi);
    }
  }

  // ---------------------------------------------------------------- the two lists

  function Frees(tiles: seq<Tile>): (r: seq<Tile>)
    ensures forall i | 0 <= i < |r| :: r[i].Free? && r[i] in tiles
  {
    if tiles == [] then []
    else (if tiles[0].Free? then [tiles[0]] else []) + Frees(tiles[1..])
  }

  function Useds(tiles: seq<Tile>): (r: seq<Tile>)
    ensures forall i | 0 <= i < |r| :: r[i].Used? && r[i] in tiles
  {
    if tiles == [] then []
    else (if tiles[0].Used? then [tiles[0]] else []) + Useds(tiles[1..])
  }

  lemma ListsCons(t: Tile, b: seq<Tile>)
    ensures Frees([t] + b) == (if t.Free? then [t] else []) + Frees(b)
    ensures Useds([t] + b) == (if t.Used? then [t] else []) + Useds(b)
  {
    assert ([t] + b)[1..] == b;
  }

  lemma {:induction false} ListsConcat(a: seq<Tile>, b: seq<Tile>)
    ensures Frees(a + b) == Frees(a) + Frees(b) && Useds(a + b) == Useds(a) + Useds(b)
    decreases |a|, 1
  {
    if a == [] {
      assert a + b == b;
    } else {
      ConcatStep(a, b);
    }
  }

  lemma {:induction false} ConcatStep(a: seq<Tile>, b: seq<Tile>)
    requires a != []
    ensures Frees(a + b) == Frees(a) + Frees(b) && Useds(a + b) == Useds(a) + Useds(b)
    decreases |a|, 0
  {
    hide Frees, Useds;
    var t, rest := a[0], a[1..];
    assert a == [t] + rest && a + b == [t] + (rest + b);
    ListsConcat(rest, b);
    ListsCons(t, rest);
    ListsCons(t, rest + b);
  }

  /** Both lists of `a + [t] + b`. */
  lemma ListsAround(a: seq<Tile>, t: Tile, b: seq<Tile>)
    ensures Frees(a + [t] + b) == Frees(a) + (if t.Free? then [t] else []) + Frees(b)
    ensures Useds(a + [t] + b) == Useds(a) + (if t.Used? then [t] else []) + Useds(b)
  {
    ListsConcat(a + [t], b);
    ListsConcat(a, [t]);
    assert Frees([t]) == if t.Free? then [t] else [];
    assert Useds([t]) == if t.Used? then [t] else [];
  }

  lemma ListsSnoc(a: seq<Tile>, t: Tile)
    ensures Frees(a + [t]) == Frees(a) + (if t.Free? then [t] else [])
    ensures Useds(a + [t]) == Useds(a) + (if t.Used? then [t] else [])
  {
    ListsConcat(a, [t]);
    ListsCons(t, []);
    assert [t] + [] == [t];
  }

  /** Ascending, with room for a header between two starts. */
  ghost predicate Ascending(l: seq<Tile>, lo: int, hi: int) {
    && (forall i | 0 <= i < |l| :: lo <= l[i].addr && l[i].Fits() && l[i].End() <= hi)
    && (forall i, j | 0 <= i < j < |l| :: l[i].End() <= l[j].addr)
  }

  lemma {:induction false} RowAscending(tiles: seq<Tile>, lo: int, hi: int)
    requires Row(tiles, lo, hi)
    ensures lo <= hi && Ascending(tiles, lo, hi)
    decreases |tiles|
  {
    if tiles != [] {
      RowAscending(tiles[1..], tiles[0].End(), hi);
      AscendingCons(tiles[0], tiles[1..], lo, hi);
      assert [tiles[0]] + tiles[1..] == tiles;
    }
  }

  lemma AscendingCons(t: Tile, l: seq<Tile>, lo: int, hi: int)
    requires lo <= t.addr && t.Fits() && t.End() <= hi && Ascending(l, t.End(), hi)
    ensures Ascending([t] + l, lo, hi)
  {
    var m := [t] + l;
    forall i | 0 <= i < |m| ensures lo <= m[i].addr && m[i].Fits() && m[i].End() <= hi {
      if i > 0 {
        assert m[i] == l[i - 1];
      }
    }
  }

  lemma {:induction false} FreesAscending(tiles: seq<Tile>, lo: int, hi: int)
    requires Row(tiles, lo, hi)
    ensures lo <= hi && Ascending(Frees(tiles), lo, hi)
    decreases |tiles|
  {
    if tiles != [] {
      FreesAscending(tiles[1..], tiles[0].End(), hi);
      if tiles[0].Free? {
        AscendingCons(tiles[0], Frees(tiles[1..]), lo, hi);
      }
    }
  }

  lemma {:induction false} UsedsAscending(tiles: seq<Tile>, lo: int, hi: int)
    requires Row(tiles, lo, hi)
    ensures lo <= hi && Ascending(Useds(tiles), lo, hi)
    decreases |tiles|
  {
    if tiles != [] {
      UsedsAscending(tiles[1..], tiles[0].End(), hi);
      if tiles[0].Used? {
        AscendingCons(tiles[0], Useds(tiles[1..]), lo, hi);
      }
    }
  }

  /** Two different blocks of a row have headers that do not overlap. */
  lemma HeadersApart(tiles: seq<Tile>, lo: int, hi: int, s: Tile, t: Tile)
    requires Row(tiles, lo, hi) && s in tiles && t in tiles && s != t
    ensures s.End() <= t.addr || t.End() <= s.addr
  {
    RowAscending(tiles, lo, hi);
    var i :| 0 <= i < |tiles| && tiles[i] == s;
    var j :| 0 <= j < |tiles| && tiles[j] == t;
  }

  /** Splits a row around the `j`-th free block. */
  lemma FindFree(tiles: seq<Tile>, j: nat) returns (a: seq<Tile>, b: seq<Tile>)
    requires j < |Frees(tiles)|
    ensures tiles == a + [Frees(tiles)[j]] + b && |Frees(a)| == j && a == tiles[..FreeIndex(tiles, j)]
  {
    hide Frees, FreeIndex;
    var k := FreeIndex(tiles, j);
    FreesBefore(tiles, j);
    a, b := tiles[..k], tiles[k + 1..];
    assert tiles == a + [tiles[k]] + b;
  }

  lemma {:induction false} FreesBefore(tiles: seq<Tile>, j: nat)
    requires j < |Frees(tiles)|
    ensures |Frees(tiles[..FreeIndex(tiles, j)])| == j
  {
    var k := FreeIndex(tiles, j);
    if k > 0 {
      FreesBefore(tiles[1..], if tiles[0].Free? then j - 1 else j);
      assert tiles[..k][1..] == tiles[1..][..k - 1];
    }
  }

  /** The place in the row of the `j`-th free block. */
  function FreeIndex(tiles: seq<Tile>, j: nat): (k: nat)
    requires j < |Frees(tiles)|
    ensures k < |tiles| && tiles[k] == Frees(tiles)[j]
  {
    if tiles[0].Free? && j == 0 then 0
    else 1 + FreeIndex(tiles[1..], if tiles[0].Free? then j - 1 else j)
  }

  // ---------------------------------------------------------------- allocation

  datatype HeapMode = FirstFree | NearestSize

  /** The block size an allocation asks for: payload, header and room to align. */
  function Need(size: int, alignment: int): int {
    size + HEADER + alignment
  }

  /** `j` is the free block the search picks. */
  ghost predicate Picked(mode: HeapMode, frees: seq<Tile>, need: int, j: nat) {
    && j < |frees| && frees[j].size >= need
    && match mode
       case FirstFree => forall i | 0 <= i < j :: frees[i].size < need
       case NearestSize =>
         && (forall i | 0 <= i < |frees| && frees[i].size >= need :: frees[j].size <= frees[i].size)
         && (forall i | 0 <= i < j && frees[i].size >= need :: frees[j].size < frees[i].size)
  }

  ghost predicate NoneFits(frees: seq<Tile>, need: int) {
    forall i | 0 <= i < |frees| :: frees[i].size < need
  }

  /** A free block with a used block of `need` bytes carved from its bottom; small rests go with it. */
  function Carve(t: Tile, need: int, alignment: int): seq<Tile>
    requires t.Free? && alignment > 0
  {
    var ptr := AlignUp(t.addr + HEADER, alignment);
    if t.size - need < MINIMUM_BLOCK then [Used(t.addr, t.size, ptr)]
    else [Used(t.addr, need, ptr), Free(t.addr + need, t.size - need)]
  }

  /**
   The numbers of an allocation: 19 bytes of header, up to `alignment - 1` in front of it, and a rest of up to 22
   bytes that goes with the used block.
   */
  lemma CarveInNumbers(t: Tile, size: int, alignment: int)
    requires t.Free? && alignment > 0
    ensures var c, need := Carve(t, Need(size, alignment), alignment), size + 19 + alignment;
      && c[0].Used? && c[0].addr == t.addr && c[0].Header() == c[0].ptr - 19
      && t.addr + 19 <= c[0].ptr < t.addr + 19 + alignment && c[0].ptr % alignment == 0
      && (t.size - need < 23 ==> |c| == 1 && c[0].size == t.size)
      && (t.size - need >= 23 ==> |c| == 2 && c[0].size == need && c[1] == Free(t.addr + need, t.size - need))
  {
    hide AlignUp;
  }

  /** The size that is really looked for: the sum is taken in 32 bits. */
  function WrappedNeed(size: u32, alignment: int): u32 {
    Need(size, alignment) % TWO_32
  }

  /** A block found for a request holds its payload exactly when the sum did not wrap around. */
  lemma PayloadFitsExactlyWhen(t: Tile, size: u32, alignment: int)
    requires t.Free? && alignment > 0 && t.size >= WrappedNeed(size, alignment) && t.size + alignment < TWO_32
    ensures var u := Carve(t, WrappedNeed(size, alignment), alignment)[0];
      u.ptr + size <= u.End() <==> Need(size, alignment) < TWO_32
  {
    var need := Need(size, alignment);
    if need < TWO_32 {
      DivModIs(need, TWO_32, 0, need);
    }
  }

  function AllocTiles(tiles: seq<Tile>, j: nat, need: int, alignment: int): seq<Tile>
    requires j < |Frees(tiles)| && alignment > 0
  {
    var k := FreeIndex(tiles, j);
    tiles[..k] + Carve(tiles[k], need, alignment) + tiles[k + 1..]
  }

  /** Carving keeps the row exactly when the aligned pointer does not pass the carved block's end. */
  lemma AllocKeepsRowExactlyWhen(tiles: seq<Tile>, lo: int, hi: int, j: nat, need: int, alignment: int)
    requires Row(tiles, lo, hi) && alignment > 0
    requires j < |Frees(tiles)| && 0 <= need <= Frees(tiles)[j].size
    ensures var u := Carve(Frees(tiles)[j], need, alignment)[0];
      Row(AllocTiles(tiles, j, need, alignment), lo, hi) <==> u.ptr <= u.End()
  {
    hide Frees, FreeIndex, AlignUp;
    var k := FreeIndex(tiles, j);
    var a, t, b := tiles[..k], tiles[k], tiles[k + 1..];
    assert tiles == a + ([t] + b);
    RowSplit(a, [t] + b, lo, hi);
    assert ([t] + b)[1..] == b;
    var c := Carve(t, need, alignment);
    assert Row(b, t.End(), hi);
    assert a + (c + b) == a + c + b;
    if c[0].ptr <= c[0].End() {
      RowJoinCarved(c, b, t, need, alignment, hi);
      RowJoin(a, c + b, lo, t.addr, hi);
    } else if Row(a + (c + b), lo, hi) {
      RowSplit(a, c + b, lo, hi);
      assert false;
    }
  }

  /** A request whose sum does not wrap keeps the row, aligned, with `size` bytes of its block behind it. */
  lemma AllocKeepsRow(tiles: seq<Tile>, lo: int, hi: int, j: nat, size: int, alignment: int)
    requires Row(tiles, lo, hi) && alignment > 0 && size >= 0
    requires j < |Frees(tiles)| && Frees(tiles)[j].size >= Need(size, alignment)
    ensures Row(AllocTiles(tiles, j, Need(size, alignment), alignment), lo, hi)
    ensures var u := Carve(Frees(tiles)[j], Need(size, alignment), alignment)[0];
      u.Used? && u.Fits() && u.ptr % alignment == 0 && u.ptr + size <= u.End()
  {
    hide Frees, FreeIndex;
    AllocKeepsRowExactlyWhen(tiles, lo, hi, j, Need(size, alignment), alignment);
  }

  lemma RowJoinCarved(c: seq<Tile>, b: seq<Tile>, t: Tile, need: int, alignment: int, hi: int)
    requires t.Free? && alignment > 0 && 0 <= need <= t.size
    requires c == Carve(t, need, alignment) && Row(b, t.End(), hi) && (b == [] || b[0].Used?)
    requires c[0].ptr <= c[0].End()
    ensures Row(c + b, t.addr, hi) && c[0].Used?
  {
    if |c| == 1 {
      assert (c + b)[1..] == b;
    } else {
      assert (c + b)[1..] == [c[1]] + b;
      assert ([c[1]] + b)[1..] == b;
    }
  }

  lemma {:induction false} FreeIndexAt(a: seq<Tile>, t: Tile, b: seq<Tile>)
    requires t.Free?
    ensures |Frees(a)| < |Frees(a + [t] + b)| && Frees(a + [t] + b)[|Frees(a)|] == t
    ensures FreeIndex(a + [t] + b, |Frees(a)|) == |a|
  {
    hide Frees, Useds;
    ListsAround(a, t, b);
    if a == [] {
      NoFrees();
    } else {
      assert a == [a[0]] + a[1..] && (a + [t] + b)[1..] == a[1..] + [t] + b;
      ListsCons(a[0], a[1..]);
      FreeIndexAt(a[1..], t, b);
    }
  }

  /** What an allocation does to the row and to its two lists. */
  lemma AllocLists(a: seq<Tile>, t: Tile, b: seq<Tile>, need: int, alignment: int)
    requires alignment > 0 && t.Free?
    ensures var tiles, j, c := a + [t] + b, |Frees(a)|, Carve(t, need, alignment);
      && j < |Frees(tiles)| && AllocTiles(tiles, j, need, alignment) == a + [c[0]] + (c[1..] + b)
      && Useds(c[1..] + b) == Useds(b) && Frees(c[1..] + b) == c[1..] + Frees(b)
      && Useds(AllocTiles(tiles, j, need, alignment)) == Useds(a) + [c[0]] + Useds(b)
      && Frees(AllocTiles(tiles, j, need, alignment)) == Frees(a) + (c[1..] + Frees(b))
  {
    hide Frees, Useds, FreeIndex, AlignUp;
    FreeIndexAt(a, t, b);
    var tiles, c := a + [t] + b, Carve(t, need, alignment);
    assert tiles[..|a|] == a && tiles[|a| + 1..] == b;
    assert a + c + b == a + [c[0]] + (c[1..] + b);
    ListsAround(a, c[0], c[1..] + b);
    if |c| == 1 {
      assert c[1..] + b == b;
    } else {
      assert c[1..] == [c[1]];
      ListsCons(c[1], b);
    }
  }

  // ---------------------------------------------------------------- allocation from the top

  /** `j` is the free block that the search from the top picks. */
  ghost predicate PickedTop(mode: HeapMode, frees: seq<Tile>, need: int, j: nat) {
    && j < |frees| && frees[j].size >= need
    && match mode
       case FirstFree => forall i | j < i < |frees| :: frees[i].size < need
       case NearestSize =>
         && (forall i | 0 <= i < |frees| && frees[i].size >= need :: frees[j].size <= frees[i].size)
         && (forall i | j < i < |frees| && frees[i].size >= need :: frees[j].size < frees[i].size)
  }

  /** A used block of `need` bytes carved from the top; small rests are added to its size, but not to its start. */
  function CarveTop(t: Tile, need: int, alignment: int): seq<Tile>
    requires t.Free? && alignment > 0
  {
    var rest := t.size - need;
    var base := t.addr + rest;
    var ptr := AlignUp(base + HEADER, alignment);
    if rest < MINIMUM_BLOCK then [Used(base, need + rest, ptr)] else [Free(t.addr, rest), Used(base, need, ptr)]
  }

  /** From the top the block starts `need` bytes below the end, a rest of up to 22 bytes is added to its size. */
  lemma CarveTopInNumbers(t: Tile, size: int, alignment: int)
    requires t.Free? && alignment > 0
    ensures var c, need := CarveTop(t, Need(size, alignment), alignment), size + 19 + alignment;
      var u := c[|c| - 1];
      && u.Used? && u.addr == t.addr + t.size - need && u.Header() == u.ptr - 19
      && u.addr + 19 <= u.ptr < u.addr + 19 + alignment && u.ptr % alignment == 0
      && (t.size - need < 23 ==> |c| == 1 && u.size == t.size)
      && (t.size - need >= 23 ==> |c| == 2 && u.size == need && c[0] == Free(t.addr, t.size - need))
  {
    hide AlignUp;
  }

  function AllocTopTiles(tiles: seq<Tile>, j: nat, need: int, alignment: int): seq<Tile>
    requires j < |Frees(tiles)| && alignment > 0
  {
    var k := FreeIndex(tiles, j);
    tiles[..k] + CarveTop(tiles[k], need, alignment) + tiles[k + 1..]
  }

  /** The used block starts where the free rest ends, or takes the whole block, and holds its header. */
  predicate TopFits(t: Tile, need: int, alignment: int)
    requires t.Free? && alignment > 0
  {
    var c := CarveTop(t, need, alignment);
    (t.size == need || t.size - need >= MINIMUM_BLOCK) && c[|c| - 1].ptr <= c[|c| - 1].End()
  }

  /** Carving from the top keeps the row exactly when no small rest is added and the pointer stays in its block. */
  lemma AllocTopKeepsRowExactlyWhen(tiles: seq<Tile>, lo: int, hi: int, j: nat, need: int, alignment: int)
    requires Row(tiles, lo, hi) && alignment > 0
    requires j < |Frees(tiles)| && 0 <= need <= Frees(tiles)[j].size
    ensures Row(AllocTopTiles(tiles, j, need, alignment), lo, hi) <==> TopFits(Frees(tiles)[j], need, alignment)
  {
    hide Frees, FreeIndex, AlignUp;
    var k := FreeIndex(tiles, j);
    var a, t, b := tiles[..k], tiles[k], tiles[k + 1..];
    assert tiles == a + ([t] + b);
    RowSplit(a, [t] + b, lo, hi);
    assert ([t] + b)[1..] == b;
    var c := CarveTop(t, need, alignment);
    assert Row(b, t.End(), hi);
    assert a + (c + b) == a + c + b;
    CarveTopRow(c, b, t, need, alignment, hi);
    if TopFits(t, need, alignment) {
      RowJoin(a, c + b, lo, t.addr, hi);
    } else if Row(a + (c + b), lo, hi) {
      RowSplit(a, c + b, lo, hi);
      assert false;
    }
  }

  lemma CarveTopRow(c: seq<Tile>, b: seq<Tile>, t: Tile, need: int, alignment: int, hi: int)
    requires t.Free? && alignment > 0 && 0 <= need <= t.size && t.Fits()
    requires c == CarveTop(t, need, alignment) && Row(b, t.End(), hi) && (b == [] || b[0].Used?)
    ensures Row(c + b, t.addr, hi) <==> TopFits(t, need, alignment)
  {
    hide AlignUp;
    if |c| == 1 {
      assert (c + b)[1..] == b;
    } else {
      assert (c + b)[1..] == [c[1]] + b;
      assert ([c[1]] + b)[1..] == b;
    }
  }

  /** What an allocation from the top does to the row and to its two lists. */
  lemma AllocTopLists(a: seq<Tile>, t: Tile, b: seq<Tile>, need: int, alignment: int)
    requires alignment > 0 && t.Free?
    ensures var tiles, j, c := a + [t] + b, |Frees(a)|, CarveTop(t, need, alignment);
      var rest, u := c[..|c| - 1], c[|c| - 1];
      && j < |Frees(tiles)| && AllocTopTiles(tiles, j, need, alignment) == (a + rest) + [u] + b
      && Useds(a + rest) == Useds(a) && Frees(a + rest) == Frees(a) + rest && u.Used?
      && Useds(AllocTopTiles(tiles, j, need, alignment)) == Useds(a) + [u] + Useds(b)
      && Frees(AllocTopTiles(tiles, j, need, alignment)) == (Frees(a) + rest) + Frees(b)
  {
    hide Frees, Useds, FreeIndex, AlignUp;
    FreeIndexAt(a, t, b);
    var tiles, c := a + [t] + b, CarveTop(t, need, alignment);
    var rest, u := c[..|c| - 1], c[|c| - 1];
    assert tiles[..|a|] == a && tiles[|a| + 1..] == b;
    assert a + c + b == (a + rest) + [u] + b;
    ListsAround(a + rest, u, b);
    if |c| == 1 {
      assert a + rest == a;
    } else {
      assert rest == [c[0]];
      ListsSnoc(a, c[0]);
    }
  }

  // ---------------------------------------------------------------- freeing

  /** The place in the row of the `j`-th used block. */
  function UsedIndex(tiles: seq<Tile>, j: nat): (k: nat)
    requires j < |Useds(tiles)|
    ensures k < |tiles| && tiles[k] == Useds(tiles)[j]
  {
    if tiles[0].Used? && j == 0 then 0
    else 1 + UsedIndex(tiles[1..], if tiles[0].Used? then j - 1 else j)
  }

  /** Splits a row around the `j`-th used block. */
  lemma FindUsed(tiles: seq<Tile>, j: nat) returns (a: seq<Tile>, b: seq<Tile>)
    requires j < |Useds(tiles)|
    ensures tiles == a + [Useds(tiles)[j]] + b && |Useds(a)| == j && a == tiles[..UsedIndex(tiles, j)]
  {
    hide Useds, UsedIndex;
    var k := UsedIndex(tiles, j);
    UsedsBefore(tiles, j);
    a, b := tiles[..k], tiles[k + 1..];
    assert tiles == a + [tiles[k]] + b;
  }

  lemma {:induction false} UsedsBefore(tiles: seq<Tile>, j: nat)
    requires j < |Useds(tiles)|
    ensures |Useds(tiles[..UsedIndex(tiles, j)])| == j
  {
    var k := UsedIndex(tiles, j);
    if k > 0 {
      UsedsBefore(tiles[1..], if tiles[0].Used? then j - 1 else j);
      assert tiles[..k][1..] == tiles[1..][..k - 1];
    }
  }

  predicate StartsFree(b: seq<Tile>) {
    b != [] && b[0].Free?
  }

  predicate EndsFree(a: seq<Tile>) {
    a != [] && a[|a| - 1].Free?
  }

  function Front(a: seq<Tile>): seq<Tile> {
    if EndsFree(a) then a[..|a| - 1] else a
  }

  function Rest(b: seq<Tile>): seq<Tile> {
    if StartsFree(b) then b[1..] else b
  }

  /** The size of a block that starts `b`, if it is free. */
  function NextSize(b: seq<Tile>): int {
    if StartsFree(b) then b[0].size else 0
  }

  /** `t` joined with a free block at the end of `a`. */
  function PrevJoin(a: seq<Tile>, t: Tile): Tile {
    if EndsFree(a) then Free(a[|a| - 1].addr, a[|a| - 1].size + t.size) else t
  }

  /** A freed block between `a` and `b`, joined with the free blocks it touches. */
  function Coalesce(a: seq<Tile>, addr: int, size: int, b: seq<Tile>): seq<Tile> {
    Front(a) + [PrevJoin(a, Free(addr, size + NextSize(b)))] + Rest(b)
  }

  function FreeTiles(tiles: seq<Tile>, j: nat): seq<Tile>
    requires j < |Useds(tiles)|
  {
    var k := UsedIndex(tiles, j);
    Coalesce(tiles[..k], tiles[k].addr, tiles[k].size, tiles[k + 1..])
  }

  lemma RowDropLast(a: seq<Tile>, lo: int, hi: int)
    requires a != [] && Row(a, lo, hi)
    ensures var t := a[|a| - 1];
      Row(a[..|a| - 1], lo, t.addr) && t.Fits() && t.End() == hi
      && (|a| > 1 ==> a[|a| - 2].Used? || t.Used?)
  {
    var t := a[|a| - 1];
    assert a == a[..|a| - 1] + [t];
    RowSplit(a[..|a| - 1], [t], lo, hi);
  }

  lemma RowSingle(t: Tile)
    requires t.Fits()
    ensures Row([t], t.addr, t.End())
  {}

  /** Coalescing keeps the row. */
  lemma CoalesceKeepsRow(a: seq<Tile>, addr: int, size: int, b: seq<Tile>, lo: int, hi: int)
    requires Row(a, lo, addr) && Row(b, addr + size, hi) && size >= HEADER
    ensures Row(Coalesce(a, addr, size, b), lo, hi)
  {
    var t := PrevJoin(a, Free(addr, size + NextSize(b)));
    RestRow(b, addr + size, hi);
    FrontRow(a, lo, addr);
    hide Row, Front, Rest;
    RowSingle(t);
    RowJoin(Front(a), [t], lo, t.addr, t.End());
    RowJoin(Front(a) + [t], Rest(b), lo, t.End(), hi);
  }

  lemma RestRow(b: seq<Tile>, lo: int, hi: int)
    requires Row(b, lo, hi)
    ensures Row(Rest(b), lo + NextSize(b), hi) && !StartsFree(Rest(b)) && NextSize(b) >= 0
  {}

  lemma FrontRow(a: seq<Tile>, lo: int, hi: int)
    requires Row(a, lo, hi)
    ensures !EndsFree(Front(a))
    ensures EndsFree(a) ==> Row(Front(a), lo, a[|a| - 1].addr) && a[|a| - 1].End() == hi && a[|a| - 1].Fits()
    ensures !EndsFree(a) ==> Row(Front(a), lo, hi)
  {
    if EndsFree(a) {
      RowDropLast(a, lo, hi);
    }
  }

  lemma FreeKeepsRow(tiles: seq<Tile>, lo: int, hi: int, j: nat)
    requires Row(tiles, lo, hi) && j < |Useds(tiles)|
    ensures Row(FreeTiles(tiles, j), lo, hi)
  {
    hide Useds, UsedIndex, Coalesce;
    var k := UsedIndex(tiles, j);
    var a, t, b := tiles[..k], tiles[k], tiles[k + 1..];
    assert tiles == a + ([t] + b);
    RowSplit(a, [t] + b, lo, hi);
    assert ([t] + b)[1..] == b;
    CoalesceKeepsRow(a, t.addr, t.size, b, lo, hi);
  }

  /** A free takes exactly its block from the used list. */
  lemma FreeUseds(tiles: seq<Tile>, j: nat)
    requires j < |Useds(tiles)|
    ensures Useds(FreeTiles(tiles, j)) == Useds(tiles)[..j] + Useds(tiles)[j + 1..]
  {
    hide Frees, Useds, UsedIndex, Coalesce;
    var a, b := FindUsed(tiles, j);
    var t := Useds(tiles)[j];
    assert tiles[..|a|] == a && tiles[|a| + 1..] == b;
    ListsAround(a, t, b);
    CoalesceUseds(a, t.addr, t.size, b);
  }

  lemma CoalesceUseds(a: seq<Tile>, addr: int, size: int, b: seq<Tile>)
    ensures Useds(Coalesce(a, addr, size, b)) == Useds(a) + Useds(b)
  {
    hide Frees, Useds, Front, Rest;
    ListsAround(Front(a), PrevJoin(a, Free(addr, size + NextSize(b))), Rest(b));
    UsedsFront(a);
    UsedsRest(b);
  }

  lemma UsedsFront(a: seq<Tile>)
    ensures Useds(Front(a)) == Useds(a)
  {
    hide Useds, Frees;
    if EndsFree(a) {
      assert a == Front(a) + [a[|a| - 1]];
      ListsSnoc(Front(a), a[|a| - 1]);
    }
  }

  lemma UsedsRest(b: seq<Tile>)
    ensures Useds(Rest(b)) == Useds(b)
  {}

  // ---------------------------------------------------------------- whole runs

  lemma {:induction false} FreesSplitFree(b: seq<Tile>, lo: int, hi: int)
    requires Row(b, lo, hi)
    ensures StartsFree(b) <==> Frees(b) != [] && Frees(b)[0].addr == lo
    ensures StartsFree(b) ==> Frees(b) == [b[0]] + Frees(b[1..])
    decreases |b|
  {
    FreesAscending(b, lo, hi);
    if b != [] && b[0].Used? {
      FreesAscending(b[1..], b[0].End(), hi);
    }
  }

  lemma FreesSplitLast(a: seq<Tile>, lo: int, hi: int)
    requires Row(a, lo, hi)
    ensures EndsFree(a) <==> Frees(a) != [] && Frees(a)[|Frees(a)| - 1].End() == hi
    ensures EndsFree(a) ==> Frees(a) == Frees(Front(a)) + [a[|a| - 1]]
  {
    if a != [] {
      var front, t := a[..|a| - 1], a[|a| - 1];
      RowDropLast(a, lo, hi);
      assert a == front + [t];
      ListsSnoc(front, t);
      FreesAscending(front, lo, t.addr);
    }
  }

  /** The free list after coalescing, in terms of the lists before and behind the freed block. */
  lemma CoalesceFrees(a: seq<Tile>, addr: int, size: int, b: seq<Tile>, lo: int, hi: int)
    requires Row(a, lo, addr) && Row(b, addr + size, hi) && size > 0
    ensures Frees(Coalesce(a, addr, size, b)) == JoinPrev(Frees(a), JoinNext(Free(addr, size), Frees(b)))
  {
    hide Frees, Useds, Row, JoinNext, JoinPrev, Front, Rest;
    var t := Free(addr, size + NextSize(b));
    ListsAround(Front(a), PrevJoin(a, t), Rest(b));
    NextJoined(addr, size, b, hi);
    PrevJoined(a, t, Frees(Rest(b)), lo);
  }

  lemma JoinNextCons(t: Tile, x: Tile, r: seq<Tile>)
    requires t.Free? && x.addr == t.End()
    ensures JoinNext(t, [x] + r) == [Free(t.addr, t.size + x.size)] + r
  {
    assert ([x] + r)[1..] == r;
  }

  lemma JoinPrevSnoc(r: seq<Tile>, x: Tile, t: Tile, rest: seq<Tile>)
    requires x.End() == t.addr
    ensures JoinPrev(r + [x], [t] + rest) == r + [Free(x.addr, x.size + t.size)] + rest
  {
    assert ([t] + rest)[1..] == rest && (r + [x])[..|r|] == r;
  }

  lemma NextJoined(addr: int, size: int, b: seq<Tile>, hi: int)
    requires Row(b, addr + size, hi)
    ensures JoinNext(Free(addr, size), Frees(b)) == [Free(addr, size + NextSize(b))] + Frees(Rest(b))
  {
    hide Frees, Row;
    FreesSplitFree(b, addr + size, hi);
    if StartsFree(b) {
      JoinNextCons(Free(addr, size), b[0], Frees(Rest(b)));
    }
  }

  lemma PrevJoined(a: seq<Tile>, t: Tile, rest: seq<Tile>, lo: int)
    requires Row(a, lo, t.addr) && t.Free?
    ensures JoinPrev(Frees(a), [t] + rest) == Frees(Front(a)) + [PrevJoin(a, t)] + rest
  {
    hide Frees, Row, JoinPrev;
    FreesSplitLast(a, lo, t.addr);
    if EndsFree(a) {
      JoinPrevSnoc(Frees(Front(a)), a[|a| - 1], t, rest);
    } else {
      JoinPrevIs(Frees(a), t, rest);
    }
  }

  lemma JoinPrevIs(fa: seq<Tile>, t: Tile, rest: seq<Tile>)
    ensures JoinPrev(fa, [t] + rest) ==
      if fa != [] && fa[|fa| - 1].End() == t.addr
      then fa[..|fa| - 1] + [Free(fa[|fa| - 1].addr, fa[|fa| - 1].size + t.size)] + rest
      else fa + [t] + rest
  {
    assert ([t] + rest)[1..] == rest;
  }

  /** `t` in front of a free list, joined with the list's first block if they touch. */
  function JoinNext(t: Tile, fb: seq<Tile>): (r: seq<Tile>)
    requires t.Free?
    ensures r != [] && r[0].Free? && r[0].addr == t.addr
  {
    if fb != [] && fb[0].addr == t.End() then [Free(t.addr, t.size + fb[0].size)] + fb[1..] else [t] + fb
  }

  /** A free list continued by another, joined where they touch. */
  function JoinPrev(fa: seq<Tile>, f: seq<Tile>): seq<Tile>
    requires f != []
  {
    if fa != [] && fa[|fa| - 1].End() == f[0].addr then
      fa[..|fa| - 1] + [Free(fa[|fa| - 1].addr, fa[|fa| - 1].size + f[0].size)] + f[1..]
    else fa + f
  }

  // ---------------------------------------------------------------- the head's prev

  /**
   The row, and the `prev` link of the first free block, 0 if there is no block or no link.  Taking the
   first block off the free list leaves its successor's link as it is.
   */
  datatype Heap = Heap(tiles: seq<Tile>, headPrev: int)

  /** `headPrev` after the `j`-th free block has been taken off the list. */
  function AfterErase(h: Heap, j: nat): int
    requires j < |Frees(h.tiles)|
  {
    if j > 0 then h.headPrev else if |Frees(h.tiles)| > 1 then Frees(h.tiles)[0].addr else 0
  }

  /** `headPrev` after `need` bytes of the `j`-th free block have been taken: a small rest goes with them. */
  function AfterTake(h: Heap, j: nat, need: int): int
    requires j < |Frees(h.tiles)|
  {
    if Frees(h.tiles)[j].size - need < MINIMUM_BLOCK then AfterErase(h, j) else h.headPrev
  }

  function AllocHeap(h: Heap, j: nat, need: int, alignment: int): Heap
    requires j < |Frees(h.tiles)| && alignment > 0
  {
    Heap(AllocTiles(h.tiles, j, need, alignment), AfterTake(h, j, need))
  }

  function AllocTopHeap(h: Heap, j: nat, need: int, alignment: int): Heap
    requires j < |Frees(h.tiles)| && alignment > 0
  {
    Heap(AllocTopTiles(h.tiles, j, need, alignment), AfterTake(h, j, need))
  }

  /** A block freed in front of all other free blocks is inserted as a head without a link. */
  function FreeHeap(h: Heap, j: nat): Heap
    requires j < |Useds(h.tiles)|
  {
    Heap(FreeTiles(h.tiles, j), if Frees(h.tiles[..UsedIndex(h.tiles, j)]) == [] then 0 else h.headPrev)
  }

  /** The search from the top ends inside the free list: at the head, or at a first fit. */
  ghost predicate Sees(h: Heap, mode: HeapMode, need: int) {
    h.headPrev == 0 || (mode == FirstFree && !NoneFits(Frees(h.tiles), need))
  }

  /** A stale link leads below the first free block. */
  ghost predicate HeadAbove(h: Heap, lo: int) {
    h.headPrev != 0 ==> Frees(h.tiles) != [] && lo <= h.headPrev < Frees(h.tiles)[0].addr
  }

  lemma AllocHeadAbove(h: Heap, j: nat, need: int, alignment: int, lo: int, hi: int)
    requires Row(h.tiles, lo, hi) && HeadAbove(h, lo) && alignment > 0
    requires j < |Frees(h.tiles)| && 0 <= need <= Frees(h.tiles)[j].size
    ensures HeadAbove(AllocHeap(h, j, need, alignment), lo) && HeadAbove(AllocTopHeap(h, j, need, alignment), lo)
  {
    hide Row, Frees, Useds, AllocTiles, AllocTopTiles, AlignUp;
    var a, b := FindFree(h.tiles, j);
    var t := Frees(h.tiles)[j];
    AllocLists(a, t, b, need, alignment);
    AllocTopLists(a, t, b, need, alignment);
    ListsAround(a, t, b);
    FreesAscending(h.tiles, lo, hi);
    if j > 0 {
      assert Frees(a)[0] == Frees(h.tiles)[0];
    } else {
      assert Frees(a) == [] && (|Frees(b)| > 0 ==> Frees(h.tiles)[1] == Frees(b)[0]);
    }
  }

  lemma FreeHeadAbove(h: Heap, j: nat, lo: int, hi: int)
    requires Row(h.tiles, lo, hi) && HeadAbove(h, lo) && j < |Useds(h.tiles)|
    ensures HeadAbove(FreeHeap(h, j), lo)
  {
    hide Row, Frees, Useds, Coalesce, UsedIndex, JoinNext, JoinPrev;
    var a, b := FindUsed(h.tiles, j);
    var t := Useds(h.tiles)[j];
    assert h.tiles[|a| + 1..] == b && h.tiles[..|a|] == a;
    ListsAround(a, t, b);
    if Frees(a) != [] {
      FreedHead(h.tiles, a, t, b, lo, hi);
    }
  }

  /** Freeing behind a free block leaves the first free block where it starts. */
  lemma FreedHead(tiles: seq<Tile>, a: seq<Tile>, t: Tile, b: seq<Tile>, lo: int, hi: int)
    requires tiles == a + [t] + b && t.Used? && Row(tiles, lo, hi) && Frees(a) != []
    ensures var frees := Frees(Coalesce(a, t.addr, t.size, b));
      frees != [] && Frees(tiles) != [] && frees[0].addr == Frees(tiles)[0].addr
  {
    hide Row, Frees, Useds, Coalesce, JoinNext;
    assert tiles == a + ([t] + b);
    RowSplit(a, [t] + b, lo, hi);
    RowHead(t, b, Cut(a, lo), hi);
    CoalesceFrees(a, t.addr, t.size, b, lo, hi);
    ListsAround(a, t, b);
    assert Frees(tiles)[0] == Frees(a)[0];
  }

  lemma RowHead(t: Tile, b: seq<Tile>, lo: int, hi: int)
    requires Row([t] + b, lo, hi)
    ensures t.addr == lo && t.Fits() && Row(b, t.End(), hi)
  {
    assert ([t] + b)[1..] == b;
  }

  // ---------------------------------------------------------------- calls

  /** A negative alignment of the code is an allocation from the top. */
  datatype Action =
    | Alloc(size: int, alignment: int, mode: HeapMode)
    | AllocTop(size: int, alignment: int, mode: HeapMode)
    | Release(ptr: int)

  /** The used block a pointer belongs to. */
  predicate Live(tiles: seq<Tile>, j: nat, ptr: int) {
    j < |Useds(tiles)| && Useds(tiles)[j].ptr == ptr
  }

  /**
   One call: an allocation takes the block picked for its 32-bit sum or fails, a free takes a live
   pointer.  Nothing is said about a search from the top that leaves the free list.
   */
  ghost predicate Step(h: Heap, act: Action, h': Heap) {
    match act
    case Alloc(size, alignment, mode) =>
      && 0 <= size < TWO_32 && alignment > 0 && IsPowerOfTwo(alignment)
      && (|| (h' == h && NoneFits(Frees(h.tiles), WrappedNeed(size, alignment)))
          || exists j :: Picked(mode, Frees(h.tiles), WrappedNeed(size, alignment), j)
                         && h' == AllocHeap(h, j, WrappedNeed(size, alignment), alignment))
    case AllocTop(size, alignment, mode) =>
      && 0 <= size < TWO_32 && alignment > 0 && IsPowerOfTwo(alignment)
      && (|| Astray(h, act)
          || (h' == h && NoneFits(Frees(h.tiles), WrappedNeed(size, alignment)))
          || exists j :: PickedTop(mode, Frees(h.tiles), WrappedNeed(size, alignment), j)
                         && h' == AllocTopHeap(h, j, WrappedNeed(size, alignment), alignment))
    case Release(ptr) => exists j :: Live(h.tiles, j, ptr) && h' == FreeHeap(h, j)
  }

  lemma AllocIsStep(h: Heap, size: int, alignment: int, mode: HeapMode, j: nat, h': Heap)
    requires 0 <= size < TWO_32 && alignment > 0 && IsPowerOfTwo(alignment)
    requires
      || (h' == h && NoneFits(Frees(h.tiles), WrappedNeed(size, alignment)))
      || (Picked(mode, Frees(h.tiles), WrappedNeed(size, alignment), j)
          && h' == AllocHeap(h, j, WrappedNeed(size, alignment), alignment))
    ensures Step(h, Action.Alloc(size, alignment, mode), h')
  {
    hide Picked, NoneFits, Frees, AllocHeap, IsPowerOfTwo;
  }

  lemma AllocTopIsStep(h: Heap, size: int, alignment: int, mode: HeapMode, j: nat, h': Heap)
    requires 0 <= size < TWO_32 && alignment > 0 && IsPowerOfTwo(alignment)
    requires
      || (h' == h && NoneFits(Frees(h.tiles), WrappedNeed(size, alignment)))
      || (PickedTop(mode, Frees(h.tiles), WrappedNeed(size, alignment), j)
          && h' == AllocTopHeap(h, j, WrappedNeed(size, alignment), alignment))
    ensures Step(h, Action.AllocTop(size, alignment, mode), h')
  {
    hide PickedTop, NoneFits, Frees, AllocTopHeap, IsPowerOfTwo;
  }

  lemma FreeIsStep(h: Heap, j: nat, ptr: int)
    requires Live(h.tiles, j, ptr)
    ensures Step(h, Action.Release(ptr), FreeHeap(h, j))
  {}

  /** The call searches from the top and follows the head's stale link. */
  ghost predicate Astray(h: Heap, act: Action) {
    act.AllocTop? && 0 <= act.size < TWO_32 && !Sees(h, act.mode, WrappedNeed(act.size, act.alignment))
  }

  /**
   The call is an allocation that aligns its pointer past the end of the block carved for it, or one
   from the top that adds a small rest.
   */
  ghost predicate Breaks(tiles: seq<Tile>, act: Action) {
    match act
    case Alloc(size, alignment, mode) =>
      && 0 <= size < TWO_32 && alignment > 0
      && exists j: nat :: BreaksBottom(mode, Frees(tiles), WrappedNeed(size, alignment), alignment, j)
    case AllocTop(size, alignment, mode) =>
      && 0 <= size < TWO_32 && alignment > 0
      && exists j: nat :: BreaksTop(mode, Frees(tiles), WrappedNeed(size, alignment), alignment, j)
    case Release(_) => false
  }

  ghost predicate BreaksBottom(mode: HeapMode, frees: seq<Tile>, need: int, alignment: int, j: nat)
    requires alignment > 0 && forall i | 0 <= i < |frees| :: frees[i].Free?
  {
    Picked(mode, frees, need, j) && PastEnd(frees[j], need, alignment)
  }

  ghost predicate BreaksTop(mode: HeapMode, frees: seq<Tile>, need: int, alignment: int, j: nat)
    requires alignment > 0 && forall i | 0 <= i < |frees| :: frees[i].Free?
  {
    PickedTop(mode, frees, need, j) && !TopFits(frees[j], need, alignment)
  }

  predicate PastEnd(t: Tile, need: int, alignment: int)
    requires t.Free? && alignment > 0
  {
    var u := Carve(t, need, alignment)[0];
    u.ptr > u.End()
  }

  /** Not an allocation from the top, nor one whose sum wraps around. */
  predicate Bounded(act: Action) {
    !act.AllocTop? && (act.Alloc? ==> Need(act.size, act.alignment) < TWO_32)
  }

  /** A history of heap states, one per call. */
  ghost predicate Run(states: seq<Heap>, acts: seq<Action>, lo: int, hi: int) {
    && |states| == |acts| + 1 && states[0] == Heap([Free(lo, hi - lo)], 0)
    && forall i | 0 <= i < |acts| :: Step(states[i], acts[i], states[i + 1])
  }

  lemma PickUnique(mode: HeapMode, frees: seq<Tile>, need: int, i: nat, j: nat)
    ensures Picked(mode, frees, need, i) && Picked(mode, frees, need, j) ==> i == j
    ensures PickedTop(mode, frees, need, i) && PickedTop(mode, frees, need, j) ==> i == j
  {}

  /** Nothing breaks without a pick, and with one it depends on the picked block. */
  lemma PickDecides(mode: HeapMode, frees: seq<Tile>, need: int, alignment: int, j: nat)
    requires alignment > 0 && forall i | 0 <= i < |frees| :: frees[i].Free?
    ensures NoneFits(frees, need) ==>
      forall i: nat :: !BreaksBottom(mode, frees, need, alignment, i) && !BreaksTop(mode, frees, need, alignment, i)
    ensures Picked(mode, frees, need, j) ==>
      ((exists i: nat :: BreaksBottom(mode, frees, need, alignment, i)) <==> PastEnd(frees[j], need, alignment))
    ensures PickedTop(mode, frees, need, j) ==>
      ((exists i: nat :: BreaksTop(mode, frees, need, alignment, i)) <==> !TopFits(frees[j], need, alignment))
  {
    hide PastEnd, TopFits;
    if Picked(mode, frees, need, j) && PastEnd(frees[j], need, alignment) {
      assert BreaksBottom(mode, frees, need, alignment, j);
    }
    if PickedTop(mode, frees, need, j) && !TopFits(frees[j], need, alignment) {
      assert BreaksTop(mode, frees, need, alignment, j);
    }
    forall i: nat
      ensures Picked(mode, frees, need, j) && Picked(mode, frees, need, i) ==> i == j
      ensures PickedTop(mode, frees, need, j) && PickedTop(mode, frees, need, i) ==> i == j
    {
      PickUnique(mode, frees, need, i, j);
    }
  }

  /** A call that does not go astray keeps the row exactly when it does not break it in one of these two ways. */
  lemma StepKeepsRowExactlyWhen(h: Heap, act: Action, h': Heap, lo: int, hi: int)
    requires Row(h.tiles, lo, hi) && Step(h, act, h') && !Astray(h, act)
    ensures Row(h'.tiles, lo, hi) <==> !Breaks(h.tiles, act)
    ensures HeadAbove(h, lo) ==> HeadAbove(h', lo)
  {
    hide Row, Frees, Useds, AllocTiles, AllocTopTiles, FreeTiles, Carve, CarveTop, TopFits, BreaksBottom, BreaksTop,
         HeadAbove, AfterTake;
    var frees := Frees(h.tiles);
    match act
    case Alloc(size, alignment, mode) =>
      var need := WrappedNeed(size, alignment);
      if h' == h && NoneFits(frees, need) {
        PickDecides(mode, frees, need, alignment, 0);
      } else {
        var j :| Picked(mode, frees, need, j) && h' == AllocHeap(h, j, need, alignment);
        PickDecides(mode, frees, need, alignment, j);
        AllocKeepsRowExactlyWhen(h.tiles, lo, hi, j, need, alignment);
        if HeadAbove(h, lo) {
          AllocHeadAbove(h, j, need, alignment, lo, hi);
        }
      }
    case AllocTop(size, alignment, mode) =>
      var need := WrappedNeed(size, alignment);
      if h' == h && NoneFits(frees, need) {
        PickDecides(mode, frees, need, alignment, 0);
      } else {
        var j :| PickedTop(mode, frees, need, j) && h' == AllocTopHeap(h, j, need, alignment);
        PickDecides(mode, frees, need, alignment, j);
        AllocTopKeepsRowExactlyWhen(h.tiles, lo, hi, j, need, alignment);
        if HeadAbove(h, lo) {
          AllocHeadAbove(h, j, need, alignment, lo, hi);
        }
      }
    case Release(ptr) =>
      var j :| Live(h.tiles, j, ptr) && h' == FreeHeap(h, j);
      FreeKeepsRow(h.tiles, lo, hi, j);
      if HeadAbove(h, lo) {
        FreeHeadAbove(h, j, lo, hi);
      }
  }

  lemma PickFits(mode: HeapMode, frees: seq<Tile>, need: int, j: nat)
    ensures Picked(mode, frees, need, j) || PickedTop(mode, frees, need, j) ==> j < |frees| && frees[j].size >= need
  {}

  lemma BoundedStays(tiles: seq<Tile>, act: Action)
    requires Bounded(act)
    ensures !Breaks(tiles, act)
  {
    hide Frees;
    if Breaks(tiles, act) {
      var need := Need(act.size, act.alignment);
      DivModIs(need, TWO_32, 0, need);
    }
  }

  /** A request whose sum wraps to 3 is granted, and its block and the rest do not tile the range. */
  lemma WrappedRequestBreaksRow()
    ensures var tiles, act, tiles' := [Free(1000, 1000)], Alloc(0xffff_ffec, 4, FirstFree),
                                      [Used(1000, 3, 1020), Free(1003, 997)];
      Row(tiles, 1000, 2000) && Step(Heap(tiles, 0), act, Heap(tiles', 0)) && !Row(tiles', 1000, 2000)
  {
    var tiles, act := [Free(1000, 1000)], Alloc(0xffff_ffec, 4, FirstFree);
    assert Pow2(2) == 4;
    DivModIs(Need(act.size, 4), TWO_32, 1, 3);
    assert Frees(tiles) == [Free(1000, 1000)];
    assert Picked(FirstFree, Frees(tiles), WrappedNeed(act.size, 4), 0);
    assert AllocTiles(tiles, 0, 3, 4) == [Used(1000, 3, 1020), Free(1003, 997)];
    assert AllocHeap(Heap(tiles, 0), 0, 3, 4).headPrev == 0;
  }

  /** A request from the top that leaves 17 bytes of a block takes them, and its block ends beyond the range. */
  lemma AbsorbedRestBreaksRow()
    ensures var tiles, act, tiles' := [Free(1000, 100)], AllocTop(60, 4, FirstFree), [Used(1017, 100, 1036)];
      Row(tiles, 1000, 1100) && Step(Heap(tiles, 0), act, Heap(tiles', 0)) && !Row(tiles', 1000, 1100)
  {
    var tiles, act := [Free(1000, 100)], AllocTop(60, 4, FirstFree);
    assert Pow2(2) == 4;
    DivModIs(Need(60, 4), TWO_32, 0, 83);
    assert Frees(tiles) == [Free(1000, 100)];
    assert PickedTop(FirstFree, Frees(tiles), WrappedNeed(60, 4), 0);
    assert AllocTopTiles(tiles, 0, 83, 4) == [Used(1017, 100, 1036)];
    assert AllocTopHeap(Heap(tiles, 0), 0, 83, 4).headPrev == 0;
  }

  const STALE := [Used(1001, 123, 1020), Used(1124, 123, 1144), Free(1247, 754)]

  const ONE := [Used(1001, 123, 1020), Free(1124, 877)]

  lemma FirstStep()
    ensures Step(Heap([Free(1001, 1000)], 0), Alloc(100, 4, FirstFree), Heap(ONE, 0))
  {
    assert Pow2(2) == 4;
    DivModIs(Need(100, 4), TWO_32, 0, 123);
    var t0 := [Free(1001, 1000)];
    assert Frees(t0) == t0;
    assert AllocTiles(t0, 0, 123, 4) == ONE;
    assert Picked(FirstFree, Frees(t0), WrappedNeed(100, 4), 0);
    assert AllocHeap(Heap(t0, 0), 0, 123, 4) == Heap(ONE, 0);
  }

  lemma SecondStep()
    ensures Step(Heap(ONE, 0), Alloc(100, 4, FirstFree), Heap(STALE, 0))
  {
    assert Pow2(2) == 4;
    DivModIs(Need(100, 4), TWO_32, 0, 123);
    assert ONE[1..] == [Free(1124, 877)];
    assert Frees(ONE) == [Free(1124, 877)];
    assert AllocTiles(ONE, 0, 123, 4) == STALE;
    assert Picked(FirstFree, Frees(ONE), WrappedNeed(100, 4), 0);
    assert AllocHeap(Heap(ONE, 0), 0, 123, 4) == Heap(STALE, 0);
  }

  const FREED := [Free(1001, 123), Used(1124, 123, 1144), Free(1247, 754)]

  lemma ThirdStep()
    ensures Step(Heap(STALE, 0), Release(1020), Heap(FREED, 0))
  {
    hide Frees;
    assert STALE[..0] == [] && STALE[1..] == [Used(1124, 123, 1144), Free(1247, 754)];
    assert Useds(STALE)[0] == STALE[0];
    assert UsedIndex(STALE, 0) == 0;
    assert FreeTiles(STALE, 0) == FREED;
    assert Frees([]) == [] by { NoFrees(); }
    assert Live(STALE, 0, 1020) && FreeHeap(Heap(STALE, 0), 0) == Heap(FREED, 0);
  }

  lemma NoFrees()
    ensures Frees([]) == []
  {}

  lemma FourthStep()
    ensures Step(Heap(FREED, 0), Alloc(100, 4, FirstFree), Heap(STALE, 1001))
  {
    hide Useds;
    assert Pow2(2) == 4;
    DivModIs(Need(100, 4), TWO_32, 0, 123);
    assert FREED[1..] == STALE[1..] && STALE[1..][1..] == [Free(1247, 754)];
    assert Frees(FREED) == [Free(1001, 123), Free(1247, 754)];
    assert AllocTiles(FREED, 0, 123, 4) == STALE;
    assert Picked(FirstFree, Frees(FREED), WrappedNeed(100, 4), 0);
    assert AllocHeap(Heap(FREED, 0), 0, 123, 4) == Heap(STALE, 1001);
  }

  /** Three allocations and a free leave the free list's head with a link to a block in use. */
  lemma RunLeavesStaleLink() returns (states: seq<Heap>, acts: seq<Action>)
    ensures Run(states, acts, 1001, 2001) && states[|acts|] == Heap(STALE, 1001)
    ensures forall i | 0 <= i < |acts| :: !acts[i].AllocTop?
    ensures Astray(states[|acts|], AllocTop(60, 4, NearestSize))
  {
    hide Step;
    states := [Heap([Free(1001, 1000)], 0), Heap(ONE, 0), Heap(STALE, 0), Heap(FREED, 0), Heap(STALE, 1001)];
    var a := Alloc(100, 4, FirstFree);
    acts := [a, a, Release(1020), a];
    FirstStep();
    SecondStep();
    ThirdStep();
    FourthStep();
  }

  lemma StaleLists()
    ensures Frees(STALE) == [Free(1247, 754)] && Useds(STALE) == [Used(1001, 123, 1020), Used(1124, 123, 1144)]
  {
    assert STALE[1..] == [Used(1124, 123, 1144), Free(1247, 754)] && STALE[1..][1..] == [Free(1247, 754)];
  }

  /**
   In a run in which no search goes astray, the blocks tile the heap's data range throughout exactly when
   no allocation breaks the row.
   */
  lemma RunKeepsRowExactlyWhen(states: seq<Heap>, acts: seq<Action>, lo: int, hi: int)
    requires hi - lo >= HEADER && Run(states, acts, lo, hi)
    requires forall i | 0 <= i < |acts| :: !Astray(states[i], acts[i])
    ensures (forall i | 0 <= i < |states| :: Row(states[i].tiles, lo, hi)) <==>
            (forall i | 0 <= i < |acts| :: !Breaks(states[i].tiles, acts[i]))
  {
    hide Row, Step, Breaks, Astray;
    if forall i | 0 <= i < |states| :: Row(states[i].tiles, lo, hi) {
      forall i | 0 <= i < |acts| ensures !Breaks(states[i].tiles, acts[i]) {
        StepKeepsRowExactlyWhen(states[i], acts[i], states[i + 1], lo, hi);
      }
    }
    if forall i | 0 <= i < |acts| :: !Breaks(states[i].tiles, acts[i]) {
      forall i | 0 <= i < |states| ensures Row(states[i].tiles, lo, hi) {
        RowUpTo(states, acts, lo, hi, i);
      }
    }
  }

  lemma {:induction false} RowUpTo(states: seq<Heap>, acts: seq<Action>, lo: int, hi: int, i: nat)
    requires hi - lo >= HEADER && Run(states, acts, lo, hi) && i < |states|
    requires forall k | 0 <= k < i :: !Breaks(states[k].tiles, acts[k]) && !Astray(states[k], acts[k])
    ensures Row(states[i].tiles, lo, hi) && HeadAbove(states[i], lo)
  {
    hide Step, Breaks, Astray;
    if i == 0 {
      assert Row([], hi, hi);
    } else {
      RowUpTo(states, acts, lo, hi, i - 1);
      StepKeepsRowExactlyWhen(states[i - 1], acts[i - 1], states[i], lo, hi);
    }
  }

  /** After any run of bottom requests whose sums do not wrap, the blocks still tile the data range. */
  lemma RunKeepsRow(states: seq<Heap>, acts: seq<Action>, lo: int, hi: int, i: nat)
    requires hi - lo >= HEADER && Run(states, acts, lo, hi) && i < |states|
    requires forall k | 0 <= k < i :: Bounded(acts[k])
    ensures Row(states[i].tiles, lo, hi)
  {
    hide Row, Step, Breaks;
    forall k | 0 <= k < i ensures !Breaks(states[k].tiles, acts[k]) && !Astray(states[k], acts[k]) {
      BoundedStays(states[k].tiles, acts[k]);
    }
    RowUpTo(states, acts, lo, hi, i);
  }

  /** A row without used blocks is the single initial free block. */
  lemma NoneUsed(tiles: seq<Tile>, lo: int, hi: int)
    requires Row(tiles, lo, hi) && lo < hi && Useds(tiles) == []
    ensures tiles == [Free(lo, hi - lo)]
  {
  }

  /** Freeing everything, in whatever order, restores the initial heap, without a stale link. */
  lemma RunFreeingAllRestores(states: seq<Heap>, acts: seq<Action>, lo: int, hi: int)
    requires hi - lo >= HEADER && Run(states, acts, lo, hi) && Useds(states[|acts|].tiles) == []
    requires forall k | 0 <= k < |acts| :: !Breaks(states[k].tiles, acts[k]) && !Astray(states[k], acts[k])
    ensures states[|acts|] == states[0]
  {
    RowUpTo(states, acts, lo, hi, |acts|);
    NoneUsed(states[|acts|].tiles, lo, hi);
  }

  // ---------------------------------------------------------------- sizes

  function Total(tiles: seq<Tile>): int {
    if tiles == [] then 0 else tiles[0].size + Total(tiles[1..])
  }

  /** Conservation: what is not used is free. */
  lemma {:induction false} TotalsAddUp(tiles: seq<Tile>, lo: int, hi: int)
    requires Row(tiles, lo, hi)
    ensures Total(Frees(tiles)) + Total(Useds(tiles)) == hi - lo
    ensures Total(Frees(tiles)) >= 0 && Total(Useds(tiles)) >= 0
  {
    if tiles != [] {
      TotalsAddUp(tiles[1..], tiles[0].End(), hi);
      var f, u := Frees(tiles[1..]), Useds(tiles[1..]);
      assert tiles[0].size >= HEADER;
      if tiles[0].Free? {
        assert Frees(tiles)[1..] == f;
        assert Useds(tiles) == u;
      } else {
        assert Useds(tiles)[1..] == u;
        assert Frees(tiles) == f;
      }
    }
  }

  const ALLOCATABLE_CAP := 0x3e20_0000

  function Largest(frees: seq<Tile>): (m: int)
    ensures m >= 0 && forall i | 0 <= i < |frees| :: frees[i].size <= m
    ensures m == 0 || exists i :: 0 <= i < |frees| && frees[i].size == m
  {
    if frees == [] then 0
    else
      var rest := Largest(frees[1..]);
      if frees[0].size > rest then frees[0].size else rest
  }

  /** MEMGetAllocatableSizeForExpHeapEx */
  function Allocatable(frees: seq<Tile>, alignment: int): int {
    var m := Largest(frees);
    if m < HEADER + alignment then 0
    else if m - HEADER - alignment > ALLOCATABLE_CAP then ALLOCATABLE_CAP
    else m - HEADER - alignment
  }

  /** In either mode, a block is picked exactly when some block is large enough. */
  lemma {:induction false} PickExists(mode: HeapMode, frees: seq<Tile>, need: int) returns (j: nat)
    ensures Largest(frees) >= need > 0 ==> Picked(mode, frees, need, j)
    ensures Largest(frees) < need ==> forall i :: !Picked(mode, frees, need, i)
  {
    j := 0;
    if frees != [] {
      var rest := frees[1..];
      var i := PickExists(mode, rest, need);
      j := if frees[0].size >= need
              && (mode == FirstFree || Largest(rest) < need || need <= 0 || frees[0].size <= rest[i].size)
           then 0 else i + 1;
      if Largest(frees) >= need > 0 && j > 0 {
        assert forall k | 1 <= k < |frees| :: frees[k] == rest[k - 1];
      }
    }
  }

  /** The reported size can be allocated, in both modes, and below the cap of 994 MB no more can. */
  lemma AllocatableIsExact(frees: seq<Tile>, alignment: int, mode: HeapMode) returns (j: nat)
    requires alignment > 0
    ensures var n := Allocatable(frees, alignment);
      && 0 <= n <= 994 * 1024 * 1024
      && (n > 0 ==> Picked(mode, frees, Need(n, alignment), j))
      && (n < 994 * 1024 * 1024 ==> forall i, m | m == Need(n + 1, alignment) :: !Picked(mode, frees, m, i))
  {
    var n := Allocatable(frees, alignment);
    j := PickExists(mode, frees, Need(n, alignment));
    var i := PickExists(mode, frees, Need(n + 1, alignment));
  }
}
