/**
 The expanded heap in place: block headers in guest memory, linked into an address-sorted free list
 and an address-sorted used list (src/modules/coreinit/coreinit_expheap.cpp).
 */
module ExpHeap {
  import opened Words
  import opened HeapTiles

  datatype HeapDirection = FromTop | FromBottom

  /** `ExpandedHeapBlock`; links are guest addresses, 0 for none. */
  datatype BlockHeader = BlockHeader(addr: int, size: int, group: int, direction: HeapDirection, next: int, prev: int)

  type Memory = map<int, BlockHeader>

  // ---------------------------------------------------------------- lists in memory

  /** The header address of the `i`-th block of a list, 0 outside of it. */
  function At(l: seq<Tile>, i: int): int {
    if 0 <= i < |l| then l[i].Header() else 0
  }

  /** The `i`-th node holds its block's extent and links to its neighbours; the head's `prev` is free. */
  ghost predicate Node(m: Memory, l: seq<Tile>, i: int)
    requires 0 <= i < |l|
  {
    var h := l[i].Header();
    && h != 0 && h in m && m[h].addr == l[i].addr && m[h].size == l[i].size
    && m[h].next == At(l, i + 1) && (i > 0 ==> m[h].prev == At(l, i - 1))
  }

  ghost predicate Linked(m: Memory, head: int, l: seq<Tile>) {
    && head == At(l, 0)
    && forall i | 0 <= i < |l| :: Node(m, l, i)
  }

  /** The `prev` link of a list's head, 0 when there is no head. */
  function Behind(m: Memory, head: int): int {
    if head != 0 && head in m then m[head].prev else 0
  }

  /** Strictly ascending, in starts and in headers. */
  ghost predicate Sorted(l: seq<Tile>) {
    forall i, j | 0 <= i < j < |l| :: l[i].addr < l[j].addr && l[i].Header() < l[j].Header()
  }

  lemma AscendingSorted(l: seq<Tile>, lo: int, hi: int)
    requires Ascending(l, lo, hi)
    ensures Sorted(l)
  {
    forall i, j | 0 <= i < j < |l| ensures l[i].addr < l[j].addr && l[i].Header() < l[j].Header() {
      assert l[i].End() <= l[j].addr;
    }
  }

  /** `a` keeps clear of every header in the list. */
  ghost predicate Clear(l: seq<Tile>, a: int) {
    forall i | 0 <= i < |l| :: l[i].Header() + HEADER <= a || a + HEADER <= l[i].Header()
  }

  /** How many blocks of a sorted list start below `a`. */
  function Below(l: seq<Tile>, a: int): (k: nat)
    ensures k <= |l|
    ensures forall i | 0 <= i < k :: l[i].addr < a
    ensures k < |l| ==> l[k].addr >= a
  {
    if l == [] || l[0].addr >= a then 0 else 1 + Below(l[1..], a)
  }

  function Insert(l: seq<Tile>, t: Tile): seq<Tile> {
    var k := Below(l, t.addr);
    l[..k] + [t] + l[k..]
  }

  function Remove(l: seq<Tile>, k: nat): seq<Tile>
    requires k < |l|
  {
    l[..k] + l[k + 1..]
  }

  function Nodes(l: seq<Tile>): set<int> {
    set t | t in l :: t.Header()
  }

  ghost predicate InMemory(m: Memory, l: seq<Tile>) {
    forall i | 0 <= i < |l| :: l[i].Header() in m
  }

  lemma LinkedInMemory(m: Memory, head: int, l: seq<Tile>)
    requires Linked(m, head, l)
    ensures InMemory(m, l) && head == At(l, 0) && forall i | 0 <= i < |l| :: l[i].Header() != 0
  {
    forall i | 0 <= i < |l| ensures l[i].Header() in m && l[i].Header() != 0 {
      assert Node(m, l, i);
    }
  }

  lemma NodeLinks(m: Memory, head: int, l: seq<Tile>, i: nat)
    requires Linked(m, head, l) && i < |l|
    ensures var h := l[i].Header();
      && h in m && h in Nodes(l) && m[h].addr == l[i].addr && m[h].size == l[i].size
      && m[h].next == At(l, i + 1) && (i > 0 ==> m[h].prev == At(l, i - 1))
    ensures head == At(l, 0)
  {
    assert Node(m, l, i) && l[i] in l;
  }

  /** Only links of the given nodes differ. */
  ghost predicate Relinked(m: Memory, m': Memory, nodes: set<int>) {
    && m'.Keys == m.Keys
    && forall x | x in m ::
         && m'[x].addr == m[x].addr && m'[x].size == m[x].size
         && m'[x].group == m[x].group && m'[x].direction == m[x].direction
         && (x !in nodes ==> m'[x] == m[x])
  }

  /** A list whose nodes are all outside of another list is not affected by relinking that list. */
  lemma LinkedFrame(m: Memory, m': Memory, nodes: set<int>, head: int, other: seq<Tile>)
    requires Linked(m, head, other) && Relinked(m, m', nodes)
    requires nodes !! Nodes(other)
    ensures Linked(m', head, other) && Behind(m', head) == Behind(m, head)
  {
    forall j | 0 <= j < |other| ensures Node(m', other, j) {
      assert Node(m, other, j) && other[j] in other;
    }
    if other != [] {
      assert Node(m, other, 0) && other[0] in other;
    }
  }

  lemma LinkedSame(m: Memory, m': Memory, head: int, l: seq<Tile>)
    requires Linked(m, head, l) && InMemory(m, l) && InMemory(m', l)
    requires forall i | 0 <= i < |l| :: m'[l[i].Header()] == m[l[i].Header()]
    ensures Linked(m', head, l) && Behind(m', head) == Behind(m, head)
  {
    forall i | 0 <= i < |l| ensures Node(m', l, i) {
      assert Node(m, l, i);
    }
  }

  lemma LinkedElsewhere(m: Memory, head: int, l: seq<Tile>, a: int, h: BlockHeader)
    requires Linked(m, head, l) && Clear(l, a)
    ensures Linked(m[a := h], head, l) && Behind(m[a := h], head) == Behind(m, head)
  {
    LinkedInMemory(m, head, l);
    LinkedSame(m, m[a := h], head, l);
  }

  lemma SortedConcat(a: seq<Tile>, b: seq<Tile>, from: int, lo: int, hi: int, to: int)
    requires Ascending(a, from, lo) && Ascending(b, hi, to) && lo <= hi
    ensures Sorted(a + b)
  {
    AscendingSorted(a, from, lo);
    AscendingSorted(b, hi, to);
    var l := a + b;
    forall i, j | 0 <= i < j < |l| ensures l[i].addr < l[j].addr && l[i].Header() < l[j].Header() {
      if i < |a| && j >= |a| {
        assert l[i] == a[i] && l[j] == b[j - |a|];
      }
    }
  }

  /** Inserting at `k` is right if these entries changed and no others. */
  lemma InsertLinks(m: Memory, m': Memory, head: int, l: seq<Tile>, k: nat, t: Tile)
    requires Linked(m, head, l) && Sorted(l) && k <= |l| && Clear(l, t.Header())
    requires InMemory(m, l) && InMemory(m', l)
    requires var h := t.Header();
      && h != 0 && h in m && m[h].addr == t.addr && m[h].size == t.size && h in m'
      && m'[h] == m[h].(next := At(l, k), prev := At(l, k - 1))
      && (forall i | 0 <= i < |l| :: m'[l[i].Header()] ==
           if i == k - 1 then m[l[i].Header()].(next := h)
           else if i == k then m[l[i].Header()].(prev := h)
           else m[l[i].Header()])
    ensures Linked(m', if k == 0 then t.Header() else head, l[..k] + [t] + l[k..])
  {
    var n := l[..k] + [t] + l[k..];
    forall i | 0 <= i < |n| ensures Node(m', n, i) {
      if i < k {
        assert Node(m, l, i) && n[i] == l[i];
      } else if i > k {
        assert Node(m, l, i - 1) && n[i] == l[i - 1];
      }
    }
  }

  lemma RemoveLinks(m: Memory, m': Memory, head: int, l: seq<Tile>, k: nat)
    requires Linked(m, head, l) && Sorted(l) && k < |l|
    requires InMemory(m, l) && InMemory(m', l)
    requires forall i | 0 <= i < |l| && i != k ::
      m'[l[i].Header()] == if i == k - 1 then m[l[i].Header()].(next := At(l, k + 1))
                           else if i == k + 1 && k > 0 then m[l[i].Header()].(prev := At(l, k - 1))
                           else m[l[i].Header()]
    ensures Linked(m', if k == 0 then At(l, 1) else head, Remove(l, k))
  {
    var n := Remove(l, k);
    forall i | 0 <= i < |n| ensures Node(m', n, i) {
      if i < k {
        assert Node(m, l, i) && n[i] == l[i];
      } else {
        assert Node(m, l, i + 1) && n[i] == l[i + 1];
      }
    }
  }

  lemma ReplaceLinks(m: Memory, m': Memory, head: int, l: seq<Tile>, k: nat, t: Tile)
    requires Linked(m, head, l) && Sorted(l) && k < |l| && Clear(l, t.Header())
    requires InMemory(m, l) && InMemory(m', l)
    requires var h, o := t.Header(), l[k].Header();
      && h != 0 && h in m && m[h].addr == t.addr && m[h].size == t.size && h in m'
      && m'[h] == m[h].(next := m[o].next, prev := m[o].prev)
      && (forall i | 0 <= i < |l| && i != k :: m'[l[i].Header()] ==
           if i == k - 1 then m[l[i].Header()].(next := h)
           else if i == k + 1 then m[l[i].Header()].(prev := h)
           else m[l[i].Header()])
    ensures Linked(m', if k == 0 then t.Header() else head, l[k := t])
  {
    var n := l[k := t];
    forall i | 0 <= i < |n| ensures Node(m', n, i) {
      assert Node(m, l, i);
      assert i != k ==> n[i] == l[i];
    }
  }

  /** The nodes around place `k` of a list, and a block elsewhere, are all different. */
  lemma NodesApart(m: Memory, head: int, l: seq<Tile>, k: nat, block: int)
    requires Linked(m, head, l) && Sorted(l) && Clear(l, block) && k <= |l|
    ensures head == At(l, 0)
    ensures k < |l| ==> l[k].Header() in m && l[k].Header() != block && l[k].Header() != 0 && l[k].Header() in Nodes(l)
    ensures k < |l| && k > 0 ==> l[k].Header() != head
    ensures k > 0 ==> (
      var p := l[k - 1].Header();
      && p in m && p != block && p != 0 && p != At(l, k) && m[p].next == At(l, k)
      && (k > 1 ==> m[p].prev == At(l, k - 2) && At(l, k - 2) in m && At(l, k - 2) != 0)
      && p in Nodes(l))
  {
    if k > 0 {
      assert Node(m, l, k - 1) && l[k - 1] in l;
      if k > 1 {
        assert Node(m, l, k - 2);
      }
    }
    if k < |l| {
      assert Node(m, l, k) && l[k] in l;
    }
  }

  lemma LinkAfterLinks(m: Memory, m': Memory, head: int, l: seq<Tile>, k: nat, t: Tile)
    requires Linked(m, head, l) && Sorted(l) && 0 < k <= |l| && Clear(l, t.Header())
    requires var h, p, n := t.Header(), l[k - 1].Header(), At(l, k);
      && h != 0 && h in m && m[h].addr == t.addr && m[h].size == t.size && p in m && (n != 0 ==> n in m)
      && m' == (if n != 0 then m[n := m[n].(prev := h)] else m)
               [h := m[h].(next := n, prev := p)][p := m[p].(next := h)]
    ensures Linked(m', head, l[..k] + [t] + l[k..]) && Relinked(m, m', Nodes(l) + {t.Header()})
    ensures Behind(m', head) == Behind(m, head)
  {
    LinkedInMemory(m, head, l);
    assert l[k - 1] in l && (k < |l| ==> l[k] in l);
    InsertLinks(m, m', head, l, k, t);
  }

  lemma ReplaceChain(m: Memory, m': Memory, head: int, l: seq<Tile>, k: nat, t: Tile)
    requires Linked(m, head, l) && Sorted(l) && k < |l| && Clear(l, t.Header()) && InMemory(m, l)
    requires var h, o, p, n := t.Header(), l[k].Header(), At(l, k - 1), At(l, k + 1);
      && h != 0 && h in m && m[h].addr == t.addr && m[h].size == t.size
      && (k > 0 ==> p in m) && (n != 0 ==> n in m)
      && var m1 := if k > 0 then m[p := m[p].(next := h)] else m;
      && (n != 0 ==> n in m1)
      && m' == (if n != 0 then m1[n := m1[n].(prev := h)] else m1)[h := m[h].(next := n, prev := m[o].prev)]
    ensures Linked(m', if k == 0 then t.Header() else head, l[k := t])
    ensures Relinked(m, m', Nodes(l) + {t.Header()})
    ensures Behind(m', if k == 0 then t.Header() else head) == Behind(m, head)
  {
    LinkedInMemory(m, head, l);
    assert l[k] in l && (k > 0 ==> l[k - 1] in l) && (k + 1 < |l| ==> l[k + 1] in l);
    assert Node(m, l, k);
    ReplaceLinks(m, m', head, l, k, t);
  }

  /** Changing the size field of one node. */
  lemma ResizeLinks(m: Memory, head: int, l: seq<Tile>, k: nat, size: int)
    requires Linked(m, head, l) && Sorted(l) && k < |l| && l[k].Free?
    ensures l[k].Header() in m
    ensures Linked(m[l[k].Header() := m[l[k].Header()].(size := size)], head, l[k := Free(l[k].addr, size)])
    ensures Behind(m[l[k].Header() := m[l[k].Header()].(size := size)], head) == Behind(m, head)
    ensures Sorted(l[k := Free(l[k].addr, size)])
  {
    assert Node(m, l, k);
    var n, m' := l[k := Free(l[k].addr, size)], m[l[k].Header() := m[l[k].Header()].(size := size)];
    forall i | 0 <= i < |n| ensures Node(m', n, i) {
      assert Node(m, l, i);
    }
  }

  /** Memory after a header is written at `a`: headers it overlaps are gone. */
  function Written(m: Memory, a: int, h: BlockHeader): Memory {
    (map x | x in m && (x + HEADER <= a || a + HEADER <= x) :: m[x])[a := h]
  }

  lemma LinkedWritten(m: Memory, head: int, l: seq<Tile>, a: int, h: BlockHeader)
    requires Linked(m, head, l) && Clear(l, a)
    ensures Linked(Written(m, a, h), head, l) && Behind(Written(m, a, h), head) == Behind(m, head)
  {
    forall i | 0 <= i < |l| ensures Node(Written(m, a, h), l, i) {
      assert Node(m, l, i);
    }
    if l != [] {
      assert Node(m, l, 0);
    }
  }

  class GuestMemory {
    var memory: Memory

    /** Assigns the extent of a block header at `a`; its other fields hold whatever was there. */
    method Place(a: int, addr: int, size: int)
      modifies this
      ensures a in memory && memory[a].addr == addr && memory[a].size == size
      ensures memory == Written(old(memory), a, memory[a])
    {
      var h: BlockHeader := *;
      if a in memory {
        h := memory[a];
      }
      memory := Written(memory, a, h.(addr := addr, size := size));
    }

    /** Other data is written over [addr, addr + len): headers it overlaps are gone. */
    method Scribble(addr: int, len: int)
      modifies this
      ensures memory == map x | x in old(memory) && (x + HEADER <= addr || addr + len <= x) :: old(memory)[x]
    {
      memory := map x | x in memory && (x + HEADER <= addr || addr + len <= x) :: memory[x];
    }

    method SetNext(block: int, next: int)
      requires block in memory
      modifies this
      ensures memory == old(memory)[block := old(memory)[block].(next := next)]
    {
      memory := memory[block := memory[block].(next := next)];
    }

    method SetPrev(block: int, prev: int)
      requires block in memory
      modifies this
      ensures memory == old(memory)[block := old(memory)[block].(prev := prev)]
    {
      memory := memory[block := memory[block].(prev := prev)];
    }

    method SetInfo(block: int, group: int, direction: HeapDirection)
      requires block in memory
      modifies this
      ensures memory == old(memory)[block := old(memory)[block].(group := group, direction := direction)]
    {
      memory := memory[block := memory[block].(group := group, direction := direction)];
    }

    method SetSize(block: int, size: int)
      requires block in memory
      modifies this
      ensures memory == old(memory)[block := old(memory)[block].(size := size)]
    {
      memory := memory[block := memory[block].(size := size)];
    }

    /** The last block that starts below `block`, 0 if there is none. */
    method FindInsertAfter(head: int, block: int, ghost l: seq<Tile>, ghost t: Tile) returns (insertAfter: int)
      requires Linked(memory, head, l) && block in memory && memory[block].addr == t.addr
      ensures insertAfter == At(l, Below(l, t.addr) - 1)
    {
      insertAfter := 0;
      var itr := head;
      ghost var k := 0;
      while itr != 0
        invariant 0 <= k <= |l| && itr == At(l, k) && insertAfter == At(l, k - 1)
        invariant forall i | 0 <= i < k :: l[i].addr < t.addr
        decreases |l| - k
      {
        assert Node(memory, l, k);
        if memory[itr].addr < memory[block].addr {
          insertAfter := itr;
        } else {
          break;
        }
        itr := memory[itr].next;
        k := k + 1;
      }
      assert k == Below(l, t.addr) by {
        if k < |l| {
          assert Node(memory, l, k);
        }
      }
    }

    /** The last node of a list, 0 if it is empty. */
    method GetTail(head: int, ghost l: seq<Tile>) returns (tail: int)
      requires Linked(memory, head, l)
      ensures tail == At(l, |l| - 1)
    {
      LinkedInMemory(memory, head, l);
      tail := 0;
      var block := head;
      ghost var k := 0;
      while block != 0
        invariant 0 <= k <= |l| && block == At(l, k) && tail == At(l, k - 1)
        decreases |l| - k
      {
        assert Node(memory, l, k);
        tail := block;
        block := memory[block].next;
        k := k + 1;
      }
    }

    /** Links `block` in front of a list. */
    method LinkFirst(head: int, block: int, ghost l: seq<Tile>, ghost t: Tile)
      requires Linked(memory, head, l) && Sorted(l) && Clear(l, block)
      requires block == t.Header() && block != 0 && block in memory
      requires memory[block].addr == t.addr && memory[block].size == t.size
      modifies this
      ensures Linked(memory, block, [t] + l) && Relinked(old(memory), memory, Nodes(l) + {block})
      ensures block in memory && memory[block].prev == 0
    {
      LinkedInMemory(memory, head, l);
      SetNext(block, head);
      SetPrev(block, 0);
      if head != 0 {
        assert l[0] in l;
        SetPrev(head, block);
      }
      InsertLinks(old(memory), memory, head, l, 0, t);
      assert l[..0] + [t] + l[0..] == [t] + l;
    }

    /** Links `block` behind the `k`-th node, counted from 1. */
    method LinkAfter(head: int, insertAfter: int, block: int, ghost l: seq<Tile>, ghost t: Tile, ghost k: nat)
      requires Linked(memory, head, l) && Sorted(l) && Clear(l, block)
      requires block == t.Header() && block != 0 && block in memory
      requires memory[block].addr == t.addr && memory[block].size == t.size
      requires 0 < k <= |l| && insertAfter == l[k - 1].Header()
      modifies this
      ensures Linked(memory, head, l[..k] + [t] + l[k..]) && Relinked(old(memory), memory, Nodes(l) + {block})
      ensures block in memory && memory[block].prev == insertAfter && Behind(memory, head) == old(Behind(memory, head))
    {
      hide Linked, Node, Sorted, Clear, Relinked, Nodes;
      ghost var before := memory;
      NodesApart(memory, head, l, k, block);
      if memory[insertAfter].next != 0 {
        SetPrev(memory[insertAfter].next, block);
      }
      SetNext(block, memory[insertAfter].next);
      SetPrev(block, insertAfter);
      SetNext(insertAfter, block);
      LinkAfterLinks(before, memory, head, l, k, t);
    }

    method InsertBlock(head: int, block: int, ghost l: seq<Tile>, ghost t: Tile) returns (head': int)
      requires Linked(memory, head, l) && Sorted(l) && Clear(l, block)
      requires block == t.Header() && block != 0 && block in memory
      requires memory[block].addr == t.addr && memory[block].size == t.size
      modifies this
      ensures Linked(memory, head', Insert(l, t)) && Relinked(old(memory), memory, Nodes(l) + {block})
      ensures block in memory && memory[block].prev == At(l, Below(l, t.addr) - 1)
      ensures Behind(memory, head') == if Below(l, t.addr) == 0 then 0 else old(Behind(memory, head))
    {
      hide Sorted, Clear, Relinked, Node, Below;
      ghost var k := Below(l, t.addr);
      var insertAfter := FindInsertAfter(head, block, l, t);
      LinkedInMemory(memory, head, l);
      if insertAfter == 0 {
        LinkFirst(head, block, l, t);
        head' := block;
        assert l[..0] + [t] + l[0..] == [t] + l;
      } else {
        LinkAfter(head, insertAfter, block, l, t, k);
        head' := head;
      }
    }

    method EraseBlock(head: int, block: int, ghost l: seq<Tile>, ghost k: nat) returns (head': int)
      requires Linked(memory, head, l) && Sorted(l) && k < |l| && block == l[k].Header()
      modifies this
      ensures Linked(memory, head', Remove(l, k)) && Relinked(old(memory), memory, Nodes(l))
      ensures block in memory && memory[block] == old(memory)[block]
      ensures k > 0 ==> var p := l[k - 1].Header(); p in memory && memory[p] == old(memory)[p].(next := memory[p].next)
      ensures Behind(memory, head') == if k > 0 then old(Behind(memory, head)) else if |l| > 1 then block else 0
    {
      LinkedInMemory(memory, head, l);
      assert Node(memory, l, k);
      if |l| > 1 {
        assert Node(memory, l, 1);
      }
      if block == head {
        head' := memory[block].next;
      } else {
        head' := head;
        if memory[block].prev != 0 {
          SetNext(memory[block].prev, memory[block].next);
        }
        if memory[block].next != 0 {
          SetPrev(memory[block].next, memory[block].prev);
        }
      }
      RemoveLinks(old(memory), memory, head, l, k);
    }

    method ReplaceBlock(head: int, replaced: int, block: int, ghost l: seq<Tile>, ghost k: nat, ghost t: Tile) returns (head': int)
      requires Linked(memory, head, l) && Sorted(l) && Clear(l, block)
      requires block == t.Header() && block != 0 && block in memory
      requires memory[block].addr == t.addr && memory[block].size == t.size
      requires replaced != 0 ==> k < |l| && replaced == l[k].Header()
      modifies this
      ensures Linked(memory, head', if replaced == 0 then Insert(l, t) else l[k := t])
      ensures Relinked(old(memory), memory, Nodes(l) + {block})
      ensures replaced != 0 ==> Behind(memory, head') == old(Behind(memory, head))
    {
      if replaced == 0 {
        head' := InsertBlock(head, block, l, t);
        return;
      }
      hide Linked, Node, Sorted, Clear, Relinked, Nodes, Insert;
      ghost var before := memory;
      NodesApart(memory, head, l, k, block);
      NodesApart(memory, head, l, k + 1, block);
      LinkedInMemory(memory, head, l);
      if head == replaced {
        head' := block;
      } else {
        head' := head;
        SetNext(memory[replaced].prev, block);
      }
      if memory[replaced].next != 0 {
        SetPrev(memory[replaced].next, block);
      }
      SetNext(block, memory[replaced].next);
      SetPrev(block, memory[replaced].prev);
      ReplaceChain(before, memory, head, l, k, t);
    }
  }

  /** The header in front of a pointer names a group and the direction of its allocation. */
  predicate HasInfo(m: Memory, ptr: int, group: int, direction: HeapDirection) {
    ptr - 19 in m && m[ptr - 19].group == group && m[ptr - 19].direction == direction
  }

  lemma InfoStays(m: Memory, m': Memory, changed: set<int>, ptr: int)
    requires Relinked(m, m', changed) && ptr - 19 in m
    ensures HasInfo(m', ptr, m[ptr - 19].group, m[ptr - 19].direction)
  {}

  // ---------------------------------------------------------------- searches from the top

  /** The nodes that at most `n` turns of the search from the top read, from `block` on. */
  function Visited(m: Memory, mode: HeapMode, need: int, block: int, n: nat): seq<int>
    decreases n
  {
    if n == 0 || block == 0 then []
    else if block !in m || (mode == FirstFree && m[block].size >= need) then [block]
    else [block] + Visited(m, mode, need, m[block].prev, n - 1)
  }

  /** The block that at most `n` turns of the search find, when `found` is the nearest so far. */
  function SearchTop(m: Memory, mode: HeapMode, need: int, block: int, found: int, nearest: int, n: nat): int
    decreases n
  {
    if n == 0 || block == 0 || block !in m then found
    else if m[block].size < need then SearchTop(m, mode, need, m[block].prev, found, nearest, n - 1)
    else if mode == FirstFree then block
    else if m[block].size - need < nearest then
      SearchTop(m, mode, need, m[block].prev, block, m[block].size - need, n - 1)
    else SearchTop(m, mode, need, m[block].prev, found, nearest, n - 1)
  }

  ghost predicate StaysIn(m: Memory, mode: HeapMode, need: int, block: int, n: nat, l: seq<Tile>) {
    forall x | x in Visited(m, mode, need, block, n) :: x in Nodes(l)
  }

  /** The search reads free blocks only exactly when the head has no stale link or a first fit stops it. */
  lemma SearchStaysExactlyWhen(m: Memory, h: Heap, lo: int, hi: int, head: int, mode: HeapMode, need: int)
    requires Row(h.tiles, lo, hi) && HeadAbove(h, lo)
    requires Linked(m, head, Frees(h.tiles)) && h.headPrev == Behind(m, head)
    ensures var l := Frees(h.tiles);
      StaysIn(m, mode, need, At(l, |l| - 1), |l| + 1, l) <==> Sees(h, mode, need)
  {
    hide Linked, Frees, Nodes, Behind, Row, Ascending;
    var l := Frees(h.tiles);
    LinkedInMemory(m, head, l);
    FreesAscending(h.tiles, lo, hi);
    if h.headPrev != 0 {
      LinkBelow(l, lo, hi, h.headPrev);
    }
    if l == [] {
      assert Behind(m, head) == 0 by { NoHead(m); }
    } else {
      StaysFrom(m, head, mode, need, l, |l| - 1);
    }
  }

  lemma LinkBelow(l: seq<Tile>, lo: int, hi: int, p: int)
    requires Ascending(l, lo, hi) && (l == [] || p < l[0].addr) && forall i | 0 <= i < |l| :: l[i].Free?
    ensures p !in Nodes(l) || l == []
  {
    forall i | 0 <= i < |l| ensures l[i].Header() > p {
      assert l[0].addr <= l[i].addr;
    }
  }

  lemma NoHead(m: Memory)
    ensures Behind(m, 0) == 0
  {}

  lemma {:induction false} StaysFrom(m: Memory, head: int, mode: HeapMode, need: int, l: seq<Tile>, i: nat)
    requires Linked(m, head, l) && i < |l|
    requires Behind(m, head) != 0 ==> Behind(m, head) !in Nodes(l)
    ensures StaysIn(m, mode, need, l[i].Header(), i + 2, l)
      <==> Behind(m, head) == 0 || (mode == FirstFree && exists k | 0 <= k <= i :: l[k].size >= need)
  {
    hide Nodes;
    NodeLinks(m, head, l, i);
    LinkedInMemory(m, head, l);
    var h := l[i].Header();
    if mode == FirstFree && l[i].size >= need {
      assert Visited(m, mode, need, h, i + 2) == [h];
    } else {
      var rest := Visited(m, mode, need, m[h].prev, i + 1);
      assert Visited(m, mode, need, h, i + 2) == [h] + rest;
      assert forall x :: x in [h] + rest <==> x == h || x in rest;
      if i > 0 {
        StaysFrom(m, head, mode, need, l, i - 1);
      } else {
        assert m[h].prev == Behind(m, head);
        if Behind(m, head) != 0 {
          assert Behind(m, head) in rest;
        }
      }
    }
  }

  /** In the state that RunLeavesStaleLink ends in the search finds the header of the live block at 1001 nearer than the free block. */
  lemma StaleSearchFindsUsed(m: Memory)
    requires Linked(m, 1247, Frees(STALE)) && Linked(m, 1001, Useds(STALE))
    requires Behind(m, 1247) == 1001 && Behind(m, 1001) == 0
    ensures SearchTop(m, NearestSize, WrappedNeed(60, 4), 1247, 0, TWO_32 - 1, 3) == 1001
    ensures Live(STALE, 0, 1020) && Useds(STALE)[0].Header() == 1001
  {
    DivModIs(Need(60, 4), TWO_32, 0, 83);
    StaleLists();
    NodeLinks(m, 1247, Frees(STALE), 0);
    NodeLinks(m, 1001, Useds(STALE), 0);
    assert SearchTop(m, NearestSize, 83, 0, 1001, 40, 1) == 1001;
    assert SearchTop(m, NearestSize, 83, 1001, 1247, 671, 2) == 1001;
  }

  // ---------------------------------------------------------------- lists of a row

  lemma {:induction false} BelowConcat(a: seq<Tile>, b: seq<Tile>, addr: int)
    requires forall i | 0 <= i < |a| :: a[i].addr < addr
    requires forall i | 0 <= i < |b| :: b[i].addr >= addr
    ensures Below(a + b, addr) == |a|
  {
    if a == [] {
      assert a + b == b;
    } else {
      assert (a + b)[1..] == a[1..] + b;
      BelowConcat(a[1..], b, addr);
    }
  }

  lemma InsertBetween(a: seq<Tile>, t: Tile, b: seq<Tile>, lo: int, mid: int, hi: int)
    requires Ascending(a, lo, t.addr) && Ascending(b, mid, hi) && mid >= t.addr
    ensures Insert(a + b, t) == a + [t] + b && Below(a + b, t.addr) == |a|
  {
    BelowConcat(a, b, t.addr);
    assert (a + b)[..|a|] == a && (a + b)[|a|..] == b;
  }

  lemma RowAround(a: seq<Tile>, t: Tile, b: seq<Tile>, lo: int, hi: int)
    requires Row(a + [t] + b, lo, hi)
    ensures Row(a, lo, t.addr) && Row(b, t.End(), hi) && t.Fits() && lo <= t.addr && t.End() <= hi
  {
    assert a + [t] + b == a + ([t] + b);
    RowSplit(a, [t] + b, lo, hi);
    assert ([t] + b)[1..] == b;
    RowAscending(b, t.End(), hi);
  }

  /** Both lists before and behind a block of a row. */
  lemma ListsApart(a: seq<Tile>, t: Tile, b: seq<Tile>, lo: int, hi: int)
    requires Row(a + [t] + b, lo, hi)
    ensures Ascending(Frees(a), lo, t.addr) && Ascending(Useds(a), lo, t.addr)
    ensures Ascending(Frees(b), t.End(), hi) && Ascending(Useds(b), t.End(), hi)
    ensures t.Fits() && lo <= t.addr && t.End() <= hi
  {
    hide Ascending, Row, Frees, Useds;
    RowAround(a, t, b, lo, hi);
    FreesAscending(a, lo, t.addr);
    UsedsAscending(a, lo, t.addr);
    FreesAscending(b, t.End(), hi);
    UsedsAscending(b, t.End(), hi);
  }

  /** A header inside [lo, hi) is clear of blocks that end before `lo` or start behind `hi`. */
  lemma ClearBetween(a: seq<Tile>, b: seq<Tile>, from: int, lo: int, hi: int, to: int, h: int)
    requires Ascending(a, from, lo) && Ascending(b, hi, to) && lo <= h && h + HEADER <= hi
    ensures Clear(a + b, h) && h !in Nodes(a + b)
  {
    forall i | 0 <= i < |a + b|
      ensures (a + b)[i].Header() + HEADER <= h || h + HEADER <= (a + b)[i].Header()
    {
      if i < |a| {
        assert (a + b)[i] == a[i];
      } else {
        assert (a + b)[i] == b[i - |a|];
      }
    }
    ClearNotNode(a + b, h);
  }

  lemma ClearNotNode(l: seq<Tile>, h: int)
    requires Clear(l, h)
    ensures h !in Nodes(l)
  {}

  /** No header is in both lists. */
  lemma ListsDisjoint(tiles: seq<Tile>, lo: int, hi: int)
    requires Row(tiles, lo, hi)
    ensures Nodes(Frees(tiles)) !! Nodes(Useds(tiles))
  {
    hide Frees, Useds, Row;
    RowAscending(tiles, lo, hi);
    forall s, t | s in Frees(tiles) && t in Useds(tiles) ensures s.Header() != t.Header() {
      FreesAndUseds(tiles, s, t);
      assert s.Fits() && t.Fits();
      HeadersApart(tiles, lo, hi, s, t);
    }
  }

  lemma FreesAndUseds(tiles: seq<Tile>, s: Tile, t: Tile)
    requires s in Frees(tiles) && t in Useds(tiles)
    ensures s in tiles && t in tiles && s != t
  {
    var i :| 0 <= i < |Frees(tiles)| && Frees(tiles)[i] == s;
    var j :| 0 <= j < |Useds(tiles)| && Useds(tiles)[j] == t;
  }

  lemma CarvedFrees(fa: seq<Tile>, t: Tile, fb: seq<Tile>, need: int, alignment: int)
    requires t.Free? && alignment > 0
    ensures fa + (Carve(t, need, alignment)[1..] + fb) ==
      if t.size - need < MINIMUM_BLOCK then fa + fb else fa + [Free(t.addr + need, t.size - need)] + fb
  {
    hide AlignUp;
  }

  /** The row and the two lists after a free. */
  lemma AfterFree(tiles: seq<Tile>, lo: int, hi: int, j: nat, a: seq<Tile>, t: Tile, b: seq<Tile>)
    requires Row(tiles, lo, hi) && tiles == a + [t] + b && t.Used? && j < |Useds(tiles)|
    requires FreeTiles(tiles, j) == Coalesce(a, t.addr, t.size, b)
    ensures Row(FreeTiles(tiles, j), lo, hi)
    ensures Useds(FreeTiles(tiles, j)) == Useds(a) + Useds(b)
    ensures Frees(FreeTiles(tiles, j)) == JoinPrev(Frees(a), JoinNext(Free(t.addr, t.size), Frees(b)))
  {
    hide Frees, Useds, FreeTiles, Coalesce, JoinNext, JoinPrev, Row;
    FreeKeepsRow(tiles, lo, hi, j);
    CoalesceUseds(a, t.addr, t.size, b);
    RowAround(a, t, b, lo, hi);
    CoalesceFrees(a, t.addr, t.size, b, lo, hi);
  }

  class ExpandedHeap {
    const mem: GuestMemory
    const dataStart: int
    const dataEnd: int
    var freeBlockList: int
    var usedBlockList: int
    var mode: HeapMode
    var group: int
    ghost var tiles: seq<Tile>

    ghost predicate Valid()
      reads this, mem
    {
      && 0 < dataStart && dataStart + HEADER <= dataEnd < TWO_32
      && Row(tiles, dataStart, dataEnd)
      && Linked(mem.memory, freeBlockList, Frees(tiles))
      && Linked(mem.memory, usedBlockList, Useds(tiles))
    }

    /** The `prev` link of the first free block. */
    ghost function HeadPrev(): int
      reads this, mem
    {
      Behind(mem.memory, freeBlockList)
    }

    ghost function View(): Heap
      reads this, mem
    {
      Heap(tiles, HeadPrev())
    }

    /** MEMCreateExpHeapEx */
    constructor (base: int, size: int)
      requires 0 < base && HEAP_HEADER + HEADER <= size && base + size < TWO_32
      ensures Valid() && fresh(mem) && mode == FirstFree
      ensures dataStart == base + 75 && dataEnd == base + size
      ensures View() == Heap([Free(dataStart, dataEnd - dataStart)], 0)
    {
      var first := base + HEAP_HEADER;
      mem := new GuestMemory;
      dataStart, dataEnd := first, base + size;
      mode, group := HeapMode.FirstFree, 0;
      usedBlockList, freeBlockList := 0, first;
      tiles := [Free(first, size - HEAP_HEADER)];
      new;
      mem.Place(first, first, size - HEAP_HEADER);
      mem.SetNext(first, 0);
      mem.SetPrev(first, 0);
      assert Frees(tiles) == tiles && Useds(tiles) == [];
      assert Node(mem.memory, Frees(tiles), 0);
    }

    /** The search loops of MEMAllocFromExpHeapEx, from the bottom; 0 if no block is large enough. */
    method FindFreeBlock(need: int) returns (freeBlock: int, ghost j: nat)
      requires Valid() && need >= 0
      ensures freeBlock == 0 ==> NoneFits(Frees(tiles), need)
      ensures freeBlock != 0 ==> Picked(mode, Frees(tiles), need, j) && freeBlock == Frees(tiles)[j].Header()
    {
      hide Row, Frees, Useds;
      ghost var l := Frees(tiles);
      freeBlock, j := 0, 0;
      var block := freeBlockList;
      var nearestSize := TWO_32 - 1;
      ghost var k := 0;
      while block != 0
        invariant 0 <= k <= |l| && block == At(l, k)
        invariant freeBlock == 0 ==> nearestSize == TWO_32 - 1 && forall i | 0 <= i < k :: l[i].size < need
        invariant freeBlock != 0 ==> j < k && freeBlock == l[j].Header() && l[j].size >= need
        invariant freeBlock != 0 ==> mode == NearestSize && nearestSize == l[j].size - need
        invariant freeBlock != 0 ==> forall i | 0 <= i < k && l[i].size >= need :: l[j].size <= l[i].size && (i < j ==> l[j].size < l[i].size)
        decreases |l| - k
      {
        NodeLinks(mem.memory, freeBlockList, l, k);
        FreeFits(k);
        if mem.memory[block].size >= need {
          if mode == HeapMode.FirstFree {
            return block, k;
          }
          if mem.memory[block].size - need < nearestSize {
            nearestSize := mem.memory[block].size - need;
            freeBlock, j := block, k;
          }
        }
        block := mem.memory[block].next;
        k := k + 1;
      }
      LinkedInMemory(mem.memory, freeBlockList, l);
    }

    /** The search loops from the top; 0 if no block is large enough. */
    method FindFreeBlockTop(need: int) returns (freeBlock: int, ghost j: nat)
      requires Valid() && need >= 0 && Sees(View(), mode, need)
      ensures freeBlock == 0 ==> NoneFits(Frees(tiles), need)
      ensures freeBlock != 0 ==> PickedTop(mode, Frees(tiles), need, j) && freeBlock == Frees(tiles)[j].Header()
    {
      hide Row, Frees, Useds, Linked;
      ghost var l := Frees(tiles);
      freeBlock, j := 0, 0;
      var block := mem.GetTail(freeBlockList, l);
      var nearestSize := TWO_32 - 1;
      ghost var k := |l| - 1;
      LinkedInMemory(mem.memory, freeBlockList, l);
      while block != 0
        invariant -1 <= k < |l| && block == At(l, k)
        invariant freeBlock == 0 ==> nearestSize == TWO_32 - 1 && forall i | k < i < |l| :: l[i].size < need
        invariant freeBlock != 0 ==> k < j < |l| && freeBlock == l[j].Header() && l[j].size >= need
        invariant freeBlock != 0 ==> mode == NearestSize && nearestSize == l[j].size - need
        invariant freeBlock != 0 ==> forall i | k < i < |l| && l[i].size >= need :: l[j].size <= l[i].size && (i > j ==> l[j].size < l[i].size)
        decreases k
      {
        NodeLinks(mem.memory, freeBlockList, l, k);
        FreeFits(k);
        if mem.memory[block].size >= need {
          if mode == HeapMode.FirstFree {
            return block, k;
          }
          if mem.memory[block].size - need < nearestSize {
            nearestSize := mem.memory[block].size - need;
            freeBlock, j := block, k;
          }
        }
        block := mem.memory[block].prev;
        k := k - 1;
      }
    }

    /** A free block lies in the data range. */
    lemma FreeFits(k: nat)
      requires Valid() && k < |Frees(tiles)|
      ensures var t := Frees(tiles)[k];
        t.Free? && t.Fits() && dataStart <= t.addr && t.size < TWO_32 - 1 && t.End() <= dataEnd
    {
      FreesAscending(tiles, dataStart, dataEnd);
    }

    /** The row and both lists around the `j`-th free block. */
    lemma AroundFree(j: nat) returns (a: seq<Tile>, b: seq<Tile>)
      requires Valid() && j < |Frees(tiles)|
      ensures var t := Frees(tiles)[j];
        && tiles == a + [t] + b && t.Free?
        && Frees(tiles) == Frees(a) + [t] + Frees(b) && |Frees(a)| == j && Useds(tiles) == Useds(a) + Useds(b)
        && Ascending(Frees(a), dataStart, t.addr) && Ascending(Frees(b), t.End(), dataEnd)
        && Ascending(Useds(a), dataStart, t.addr) && Ascending(Useds(b), t.End(), dataEnd)
        && t.Fits() && dataStart <= t.addr && t.End() <= dataEnd
      ensures Nodes(Frees(tiles)) !! Nodes(Useds(tiles))
    {
      hide Frees, Useds, Row, Nodes, Ascending, Linked;
      a, b := FindFree(tiles, j);
      ListsAround(a, Frees(tiles)[j], b);
      ListsApart(a, Frees(tiles)[j], b, dataStart, dataEnd);
      ListsDisjoint(tiles, dataStart, dataEnd);
    }

    /** Sets the size of a free block. */
    method Resize(freeBlock: int, size: int, ghost l: seq<Tile>, ghost k: nat, ghost used: seq<Tile>)
      requires k < |l| && l[k].Free? && freeBlock == l[k].Header() && Sorted(l)
      requires Linked(mem.memory, freeBlockList, l) && Linked(mem.memory, usedBlockList, used)
      requires Nodes(l) !! Nodes(used)
      modifies mem
      ensures Linked(mem.memory, freeBlockList, l[k := Free(l[k].addr, size)])
      ensures Sorted(l[k := Free(l[k].addr, size)]) && Nodes(l[k := Free(l[k].addr, size)]) == Nodes(l)
      ensures Linked(mem.memory, usedBlockList, used)
      ensures freeBlock in old(mem.memory)
      ensures mem.memory == old(mem.memory)[freeBlock := old(mem.memory)[freeBlock].(size := size)]
      ensures HeadPrev() == old(HeadPrev())
    {
      ghost var before := mem.memory;
      NodeLinks(before, freeBlockList, l, k);
      LinkedInMemory(before, usedBlockList, used);
      ResizeLinks(before, freeBlockList, l, k, size);
      NodesUpdate(l, k, Free(l[k].addr, size));
      mem.SetSize(freeBlock, size);
      forall i | 0 <= i < |used| ensures used[i].Header() != freeBlock {
        assert used[i] in used && l[k] in l;
      }
      LinkedSame(before, mem.memory, usedBlockList, used);
    }

    /**
     Takes `need` bytes off the bottom of a free block: the block moves up to its rest, or leaves
     the list when the rest is too small.  Returns the size of the used block.
     */
    method TakeFree(freeBlock: int, need: int, ghost fa: seq<Tile>, ghost t: Tile, ghost fb: seq<Tile>, ghost used: seq<Tile>)
      returns (usedSize: int)
      requires t.Free? && t.Fits() && 0 <= need <= t.size && 0 < dataStart <= t.addr && t.End() <= dataEnd && freeBlock == t.addr
      requires t.size - need >= MINIMUM_BLOCK ==> need >= HEADER
      requires Ascending(fa, dataStart, t.addr) && Ascending(fb, t.End(), dataEnd)
      requires Linked(mem.memory, freeBlockList, fa + [t] + fb) && Linked(mem.memory, usedBlockList, used)
      requires Nodes(fa + [t] + fb) !! Nodes(used)
      requires forall h | t.addr <= h && h + HEADER <= t.End() :: Clear(used, h)
      modifies this`freeBlockList, mem
      ensures t.size - need < MINIMUM_BLOCK ==> usedSize == t.size && Linked(mem.memory, freeBlockList, fa + fb)
      ensures t.size - need >= MINIMUM_BLOCK ==> usedSize == need
      ensures t.size - need >= MINIMUM_BLOCK ==>
        Linked(mem.memory, freeBlockList, fa + [Free(t.addr + need, t.size - need)] + fb)
      ensures Linked(mem.memory, usedBlockList, used)
      ensures HeadPrev() == if fa != [] || t.size - need >= MINIMUM_BLOCK then old(HeadPrev()) else if fb != [] then t.addr else 0
    {
      hide Linked, Clear, Nodes, Ascending, Sorted, Behind;
      ghost var l, k, small := fa + [t] + fb, |fa|, Free(t.addr, t.size - need);
      ghost var l1 := l[k := small];
      assert l1 == fa + [small] + fb;
      SortedAround(fa, t, fb, need);
      NodeLinks(mem.memory, freeBlockList, l, k);
      Resize(freeBlock, mem.memory[freeBlock].size - need, l, k, used);
      ghost var m1 := mem.memory;
      usedSize := need;
      if mem.memory[freeBlock].size < MINIMUM_BLOCK {
        // absorb the rest, it is too small for a block
        usedSize := usedSize + mem.memory[freeBlock].size;
        freeBlockList := mem.EraseBlock(freeBlockList, freeBlock, l1, k);
        assert Remove(l1, k) == fa + fb;
        LinkedFrame(m1, mem.memory, Nodes(l1), usedBlockList, used);
      } else {
        MoveUp(freeBlock, need, fa, small, fb, used);
      }
    }

    /** Replaces a shrunk free block by one `need` bytes further up. */
    method MoveUp(freeBlock: int, need: int, ghost fa: seq<Tile>, ghost t: Tile, ghost fb: seq<Tile>, ghost used: seq<Tile>)
      requires t.Free? && 0 < freeBlock == t.addr && need >= HEADER
      requires Linked(mem.memory, freeBlockList, fa + [t] + fb) && Linked(mem.memory, usedBlockList, used)
      requires Sorted(fa + [t] + fb) && Clear(fa + [t] + fb, freeBlock + need) && Clear(used, freeBlock + need)
      requires Nodes(fa + [t] + fb) !! Nodes(used)
      requires freeBlock in mem.memory && mem.memory[freeBlock].size == t.size
      modifies this`freeBlockList, mem
      ensures Linked(mem.memory, freeBlockList, fa + [Free(t.addr + need, t.size)] + fb)
      ensures Linked(mem.memory, usedBlockList, used) && HeadPrev() == old(HeadPrev())
    {
      hide Linked, Clear, Nodes, Sorted, Behind;
      ghost var m1, l, k := mem.memory, fa + [t] + fb, |fa|;
      var freeSize := mem.memory[freeBlock].size;
      var rest := freeBlock + need;
      assert l[k] == t;
      mem.Place(rest, rest, freeSize);
      LinkedWritten(m1, freeBlockList, l, rest, mem.memory[rest]);
      LinkedWritten(m1, usedBlockList, used, rest, mem.memory[rest]);
      ghost var m2 := mem.memory;
      freeBlockList := mem.ReplaceBlock(freeBlockList, freeBlock, rest, l, k, Free(rest, freeSize));
      assert l[k := Free(rest, freeSize)] == fa + [Free(rest, freeSize)] + fb;
      ClearNotNode(used, rest);
      LinkedFrame(m2, mem.memory, Nodes(l) + {rest}, usedBlockList, used);
    }

    /** Takes `need` bytes off the top of a free block, which leaves the list when nothing of it is left. */
    method TakeFreeTop(freeBlock: int, need: int, ghost fa: seq<Tile>, ghost t: Tile, ghost fb: seq<Tile>, ghost used: seq<Tile>)
      returns (base: int, usedSize: int)
      requires t.Free? && t.Fits() && 0 <= need <= t.size && freeBlock == t.addr
      requires t.size == need || t.size - need >= MINIMUM_BLOCK
      requires Ascending(fa, dataStart, t.addr) && Ascending(fb, t.End(), dataEnd)
      requires Linked(mem.memory, freeBlockList, fa + [t] + fb) && Linked(mem.memory, usedBlockList, used)
      requires Nodes(fa + [t] + fb) !! Nodes(used)
      modifies this`freeBlockList, mem
      ensures base == t.addr + t.size - need && usedSize == need
      ensures Linked(mem.memory, freeBlockList, fa + (if t.size == need then [] else [Free(t.addr, t.size - need)]) + fb)
      ensures Linked(mem.memory, usedBlockList, used)
      ensures HeadPrev() == if fa != [] || t.size > need then old(HeadPrev()) else if fb != [] then t.addr else 0
    {
      hide Linked, Clear, Nodes, Ascending, Sorted, Behind;
      ghost var l, k, small := fa + [t] + fb, |fa|, Free(t.addr, t.size - need);
      ghost var l1 := l[k := small];
      assert l1 == fa + [small] + fb;
      SortedAround(fa, t, fb, need);
      NodeLinks(mem.memory, freeBlockList, l, k);
      Resize(freeBlock, mem.memory[freeBlock].size - need, l, k, used);
      ghost var m1 := mem.memory;
      base := mem.memory[freeBlock].addr + mem.memory[freeBlock].size;
      usedSize := need;
      if mem.memory[freeBlock].size < MINIMUM_BLOCK {
        usedSize := usedSize + mem.memory[freeBlock].size;
        freeBlockList := mem.EraseBlock(freeBlockList, freeBlock, l1, k);
        assert Remove(l1, k) == fa + [] + fb;
        LinkedFrame(m1, mem.memory, Nodes(l1), usedBlockList, used);
      }
    }

    /** Writes the used block's header in front of the caller's pointer. */
    method WriteUsed(u: Tile, direction: HeapDirection, ghost useds: seq<Tile>, ghost frees: seq<Tile>)
      requires u.Used? && Clear(useds, u.Header()) && Clear(frees, u.Header())
      requires Linked(mem.memory, freeBlockList, frees) && Linked(mem.memory, usedBlockList, useds)
      modifies mem
      ensures Linked(mem.memory, usedBlockList, useds) && Linked(mem.memory, freeBlockList, frees)
      ensures HeadPrev() == old(HeadPrev()) && HasInfo(mem.memory, u.ptr, group, direction)
      ensures u.Header() in mem.memory && mem.memory[u.Header()].addr == u.addr && mem.memory[u.Header()].size == u.size
    {
      hide Linked, Clear, Behind;
      ghost var m0 := mem.memory;
      var usedBlock := u.ptr - HEADER;
      mem.Place(usedBlock, u.addr, u.size);
      LinkedWritten(m0, freeBlockList, frees, usedBlock, mem.memory[usedBlock]);
      LinkedWritten(m0, usedBlockList, useds, usedBlock, mem.memory[usedBlock]);
      ghost var m1 := mem.memory;
      mem.SetInfo(usedBlock, group, direction);
      LinkedElsewhere(m1, freeBlockList, frees, usedBlock, mem.memory[usedBlock]);
      LinkedElsewhere(m1, usedBlockList, useds, usedBlock, mem.memory[usedBlock]);
    }

    /** Writes the used block's header and links it. */
    method PlaceUsed(u: Tile, direction: HeapDirection, ghost ua: seq<Tile>, ghost ub: seq<Tile>, ghost frees: seq<Tile>)
      requires u.Used? && 0 < dataStart <= u.addr && u.Fits()
      requires Ascending(ua, dataStart, u.addr) && Ascending(ub, u.End(), dataEnd)
      requires Linked(mem.memory, freeBlockList, frees) && Linked(mem.memory, usedBlockList, ua + ub)
      requires Nodes(frees) !! Nodes(ua + ub) && Clear(frees, u.Header())
      modifies this`usedBlockList, mem
      ensures Linked(mem.memory, usedBlockList, ua + [u] + ub) && Linked(mem.memory, freeBlockList, frees)
      ensures HeadPrev() == old(HeadPrev()) && HasInfo(mem.memory, u.ptr, group, direction)
    {
      hide Linked, Clear, Nodes, Insert, Behind, Relinked;
      var usedBlock := u.ptr - HEADER;
      ClearBetween(ua, ub, dataStart, u.addr, u.End(), dataEnd, usedBlock);
      SortedConcat(ua, ub, dataStart, u.addr, u.End(), dataEnd);
      WriteUsed(u, direction, ua + ub, frees);
      ghost var m := mem.memory;
      usedBlockList := mem.InsertBlock(usedBlockList, usedBlock, ua + ub, u);
      InsertBetween(ua, u, ub, dataStart, u.End(), dataEnd);
      ClearNotNode(frees, usedBlock);
      LinkedFrame(m, mem.memory, Nodes(ua + ub) + {usedBlock}, freeBlockList, frees);
      InfoStays(m, mem.memory, Nodes(ua + ub) + {usedBlock}, u.ptr);
    }

    /** MEMAllocFromExpHeapEx with a positive alignment; 0 when no free block is large enough. */
    method Alloc(size: int, alignment: int) returns (ptr: int, ghost j: nat)
      requires Valid() && 0 <= size < TWO_32 && alignment > 0 && IsPowerOfTwo(alignment)
      requires !Breaks(tiles, Action.Alloc(size, alignment, mode))
      modifies this, mem
      ensures Valid() && mode == old(mode) && group == old(group)
      ensures ptr != 0 ==> HasInfo(mem.memory, ptr, group, FromBottom)
      ensures Step(old(View()), Action.Alloc(size, alignment, mode), View())
      ensures ptr == 0 ==> View() == old(View()) && NoneFits(Frees(tiles), WrappedNeed(size, alignment))
      ensures ptr != 0 ==> Picked(mode, Frees(old(tiles)), WrappedNeed(size, alignment), j)
      ensures ptr != 0 ==> View() == AllocHeap(old(View()), j, WrappedNeed(size, alignment), alignment)
      ensures ptr != 0 ==> var u := Carve(Frees(old(tiles))[j], WrappedNeed(size, alignment), alignment)[0];
        && u in Useds(tiles) && ptr == u.ptr && ptr % alignment == 0 && ptr <= u.End()
        && (Need(size, alignment) < TWO_32 ==> ptr + size <= u.End())
    {
      hide Step, Linked, Clear, Nodes, Frees, Useds, Row, Picked, AllocTiles, Ascending, Breaks, WrappedNeed, AlignUp, Behind;
      var need := (size + HEADER) % TWO_32;
      need := (need + alignment) % TWO_32;
      WrapTwice(size, alignment);
      ghost var act := Action.Alloc(size, alignment, mode);
      var freeBlock;
      freeBlock, j := FindFreeBlock(need);
      if freeBlock == 0 {
        AllocIsStep(View(), size, alignment, mode, j, View());
        return 0, j;
      }
      PickFits(mode, Frees(tiles), need, j);
      PickStays(tiles, act, j);
      ghost var t := Frees(tiles)[j];
      ghost var a, b := AroundFree(j);
      ClearWithin(Useds(a), Useds(b), dataStart, t.addr, t.End(), dataEnd);
      NodeLinks(mem.memory, freeBlockList, Frees(tiles), j);
      var base := mem.memory[freeBlock].addr;
      var usedSize := TakeFree(freeBlock, need, Frees(a), t, Frees(b), Useds(tiles));
      CarvedFrees(Frees(a), t, Frees(b), need, alignment);
      var aligned := AlignUp(base + HEADER, alignment);
      var u := Used(base, usedSize, aligned);
      ghost var after := AllocTiles(tiles, j, need, alignment);
      AfterAlloc(tiles, dataStart, dataEnd, j, need, alignment, a, b);
      PlaceUsed(u, HeapDirection.FromBottom, Useds(a), Useds(b), Frees(after));
      tiles := after;
      ptr := aligned;
      AllocIsStep(old(View()), size, alignment, mode, j, View());
    }

    /** MEMAllocFromExpHeapEx with a negative alignment, here `-alignment`; 0 when no free block is large enough. */
    method AllocTop(size: int, alignment: int) returns (ptr: int, ghost j: nat)
      requires Valid() && 0 <= size < TWO_32 && alignment > 0 && IsPowerOfTwo(alignment)
      requires Sees(View(), mode, WrappedNeed(size, alignment))
      requires !Breaks(tiles, Action.AllocTop(size, alignment, mode))
      modifies this, mem
      ensures Valid() && mode == old(mode) && group == old(group)
      ensures ptr != 0 ==> HasInfo(mem.memory, ptr, group, FromTop)
      ensures Step(old(View()), Action.AllocTop(size, alignment, mode), View())
      ensures ptr == 0 ==> View() == old(View()) && NoneFits(Frees(tiles), WrappedNeed(size, alignment))
      ensures ptr != 0 ==> PickedTop(mode, Frees(old(tiles)), WrappedNeed(size, alignment), j)
      ensures ptr != 0 ==> View() == AllocTopHeap(old(View()), j, WrappedNeed(size, alignment), alignment)
      ensures ptr != 0 ==> var c := CarveTop(Frees(old(tiles))[j], WrappedNeed(size, alignment), alignment);
        var u := c[|c| - 1];
        && u in Useds(tiles) && ptr == u.ptr && ptr % alignment == 0 && ptr <= u.End()
        && (Need(size, alignment) < TWO_32 ==> ptr + size <= u.End())
    {
      hide Step, Linked, Clear, Nodes, Frees, Useds, Row, PickedTop, AllocTopTiles, Ascending, Breaks, WrappedNeed, AlignUp, Behind;
      var need := (size + HEADER) % TWO_32;
      need := (need + alignment) % TWO_32;
      WrapTwice(size, alignment);
      var freeBlock;
      freeBlock, j := FindFreeBlockTop(need);
      if freeBlock == 0 {
        AllocTopIsStep(View(), size, alignment, mode, j, View());
        return 0, j;
      }
      PickFits(mode, Frees(tiles), need, j);
      PickStaysTop(tiles, Action.AllocTop(size, alignment, mode), j);
      ghost var t := Frees(tiles)[j];
      ghost var a, b := AroundFree(j);
      var base, usedSize := TakeFreeTop(freeBlock, need, Frees(a), t, Frees(b), Useds(tiles));
      var aligned := AlignUp(base + HEADER, alignment);
      var u := Used(base, usedSize, aligned);
      ghost var after := AllocTopTiles(tiles, j, need, alignment);
      AfterAllocTop(tiles, dataStart, dataEnd, j, need, alignment, a, b);
      PlaceUsed(u, HeapDirection.FromTop, Useds(a), Useds(b), Frees(after));
      tiles := after;
      ptr := aligned;
      AllocTopIsStep(old(View()), size, alignment, mode, j, View());
    }

    /** The row and both lists around a used block. */
    lemma AroundUsed(j: nat) returns (a: seq<Tile>, b: seq<Tile>)
      requires Valid() && j < |Useds(tiles)|
      ensures var t := Useds(tiles)[j];
        && tiles == a + [t] + b && t.Used? && FreeTiles(tiles, j) == Coalesce(a, t.addr, t.size, b)
        && Useds(tiles) == Useds(a) + [t] + Useds(b) && |Useds(a)| == j && Frees(tiles) == Frees(a) + Frees(b)
        && Ascending(Frees(a), dataStart, t.addr) && Ascending(Frees(b), t.End(), dataEnd)
        && Ascending(Useds(a), dataStart, t.addr) && Ascending(Useds(b), t.End(), dataEnd)
        && t.Fits() && dataStart <= t.addr && t.End() <= dataEnd
        && Row(a, dataStart, t.addr) && Row(b, t.End(), dataEnd) && a == tiles[..UsedIndex(tiles, j)]
      ensures Nodes(Frees(tiles)) !! Nodes(Useds(tiles))
    {
      hide Frees, Useds, Row, Nodes, Ascending, Linked, Coalesce;
      a, b := FindUsed(tiles, j);
      assert tiles[|a| + 1..] == b;
      ListsAround(a, Useds(tiles)[j], b);
      ListsApart(a, Useds(tiles)[j], b, dataStart, dataEnd);
      RowAround(a, Useds(tiles)[j], b, dataStart, dataEnd);
      ListsDisjoint(tiles, dataStart, dataEnd);
    }

    /** Takes a used block off its list. */
    method TakeUsed(usedBlock: int, ghost ua: seq<Tile>, ghost t: Tile, ghost ub: seq<Tile>, ghost frees: seq<Tile>)
      requires t.Used? && usedBlock == t.Header() && Ascending(ua, dataStart, t.addr) && Ascending(ub, t.End(), dataEnd)
      requires t.Fits()
      requires Linked(mem.memory, usedBlockList, ua + [t] + ub) && Linked(mem.memory, freeBlockList, frees)
      requires Nodes(frees) !! Nodes(ua + [t] + ub)
      modifies this`usedBlockList, mem
      ensures Linked(mem.memory, usedBlockList, ua + ub) && Linked(mem.memory, freeBlockList, frees)
      ensures HeadPrev() == old(HeadPrev())
    {
      hide Linked, Nodes, Sorted, Behind;
      ghost var m0, l := mem.memory, ua + [t] + ub;
      SortedMiddle(ua, t, ub, dataStart, dataEnd);
      usedBlockList := mem.EraseBlock(usedBlockList, usedBlock, l, |ua|);
      assert Remove(l, |ua|) == ua + ub;
      LinkedFrame(m0, mem.memory, Nodes(l), freeBlockList, frees);
    }

    /** Writes a free block's header and links it. */
    method PlaceFree(f: Tile, ghost fa: seq<Tile>, ghost fb: seq<Tile>, ghost used: seq<Tile>)
      requires f.Free? && f.Fits() && 0 < dataStart <= f.addr
      requires Ascending(fa, dataStart, f.addr) && Ascending(fb, f.End(), dataEnd)
      requires Linked(mem.memory, freeBlockList, fa + fb) && Linked(mem.memory, usedBlockList, used)
      requires Nodes(fa + fb) !! Nodes(used) && Clear(used, f.addr)
      modifies this`freeBlockList, mem
      ensures Linked(mem.memory, freeBlockList, fa + [f] + fb) && Linked(mem.memory, usedBlockList, used)
      ensures f.addr in mem.memory && mem.memory[f.addr].prev == At(fa, |fa| - 1)
      ensures HeadPrev() == if fa == [] then 0 else old(HeadPrev())
    {
      hide Linked, Clear, Nodes, Insert, Behind;
      ghost var m0 := mem.memory;
      ClearBetween(fa, fb, dataStart, f.addr, f.End(), dataEnd, f.addr);
      SortedConcat(fa, fb, dataStart, f.addr, f.End(), dataEnd);
      mem.Place(f.addr, f.addr, f.size);
      LinkedWritten(m0, freeBlockList, fa + fb, f.addr, mem.memory[f.addr]);
      LinkedWritten(m0, usedBlockList, used, f.addr, mem.memory[f.addr]);
      ghost var m1 := mem.memory;
      freeBlockList := mem.InsertBlock(freeBlockList, f.addr, fa + fb, f);
      InsertBetween(fa, f, fb, dataStart, f.End(), dataEnd);
      ClearNotNode(used, f.addr);
      LinkedFrame(m1, mem.memory, Nodes(fa + fb) + {f.addr}, usedBlockList, used);
    }

    /** Joins a free block with the next one if they touch. */
    method MergeNext(freeBlock: int, ghost f: Tile, ghost fa: seq<Tile>, ghost fb: seq<Tile>, ghost used: seq<Tile>)
      requires f.Free? && f.Fits() && 0 < dataStart && freeBlock == f.addr
      requires Ascending(fa, dataStart, f.addr) && Ascending(fb, f.End(), dataEnd)
      requires Linked(mem.memory, freeBlockList, fa + [f] + fb) && Linked(mem.memory, usedBlockList, used)
      requires Nodes(fa + [f] + fb) !! Nodes(used)
      requires f.addr in mem.memory && mem.memory[f.addr].prev == At(fa, |fa| - 1)
      modifies this`freeBlockList, mem
      ensures Linked(mem.memory, freeBlockList, fa + JoinNext(f, fb)) && Linked(mem.memory, usedBlockList, used)
      ensures Sorted(fa + JoinNext(f, fb)) && Nodes(fa + JoinNext(f, fb)) !! Nodes(used)
      ensures f.addr in mem.memory && mem.memory[f.addr].prev == At(fa, |fa| - 1)
      ensures HeadPrev() == old(HeadPrev())
    {
      hide Linked, Nodes, Sorted, Ascending, Behind;
      ghost var l, k := fa + [f] + fb, |fa|;
      assert l[k] == f;
      NodeLinks(mem.memory, freeBlockList, l, k);
      LinkedInMemory(mem.memory, freeBlockList, l);
      SortedMiddle(fa, f, fb, dataStart, dataEnd);
      var nextFree := mem.memory[freeBlock].next;
      if nextFree != 0 {
        assert l[k + 1] == fb[0];
        NodeLinks(mem.memory, freeBlockList, l, k + 1);
      }
      if nextFree != 0 && mem.memory[nextFree].addr == mem.memory[freeBlock].addr + mem.memory[freeBlock].size {
        ghost var big := Free(f.addr, f.size + fb[0].size);
        ghost var l1 := l[k := big];
        Resize(freeBlock, mem.memory[freeBlock].size + mem.memory[nextFree].size, l, k, used);
        ghost var m1 := mem.memory;
        freeBlockList := mem.EraseBlock(freeBlockList, nextFree, l1, k + 1);
        RemoveKeeps(l1, k + 1);
        assert Remove(l1, k + 1) == fa + ([big] + fb[1..]);
        LinkedFrame(m1, mem.memory, Nodes(l1), usedBlockList, used);
      } else {
        assert fa + ([f] + fb) == fa + [f] + fb;
      }
    }

    /** Joins a free block with the previous one if they touch. */
    method MergePrev(freeBlock: int, ghost f: Tile, ghost fa: seq<Tile>, ghost rest: seq<Tile>, ghost used: seq<Tile>)
      requires f.Free? && freeBlock == f.addr && forall i | 0 <= i < |fa| :: fa[i].Free?
      requires Sorted(fa + [f] + rest)
      requires Linked(mem.memory, freeBlockList, fa + [f] + rest) && Linked(mem.memory, usedBlockList, used)
      requires Nodes(fa + [f] + rest) !! Nodes(used)
      requires f.addr in mem.memory && mem.memory[f.addr].prev == At(fa, |fa| - 1)
      modifies this`freeBlockList, mem
      ensures Linked(mem.memory, freeBlockList, JoinPrev(fa, [f] + rest)) && Linked(mem.memory, usedBlockList, used)
      ensures HeadPrev() == old(HeadPrev())
    {
      hide Linked, Nodes, Sorted, JoinPrev, Behind;
      ghost var l, k := fa + [f] + rest, |fa|;
      assert l[k] == f;
      JoinPrevIs(fa, f, rest);
      NodeLinks(mem.memory, freeBlockList, l, k);
      LinkedInMemory(mem.memory, freeBlockList, l);
      var prevFree := mem.memory[freeBlock].prev;
      if prevFree != 0 {
        assert l[k - 1] == fa[k - 1];
        NodeLinks(mem.memory, freeBlockList, l, k - 1);
      }
      assert k > 0 ==> fa[k - 1] == l[k - 1] && l[k - 1].Header() != 0;
      if prevFree != 0 && mem.memory[freeBlock].addr == mem.memory[prevFree].addr + mem.memory[prevFree].size {
        ghost var big := Free(fa[k - 1].addr, fa[k - 1].size + f.size);
        ghost var l1 := l[k - 1 := big];
        Resize(prevFree, mem.memory[prevFree].size + mem.memory[freeBlock].size, l, k - 1, used);
        ghost var m1 := mem.memory;
        freeBlockList := mem.EraseBlock(freeBlockList, freeBlock, l1, k);
        RemoveJoined(fa, big, f, rest);
        LinkedFrame(m1, mem.memory, Nodes(l1), usedBlockList, used);
      }
    }

    /** Links a freed block and joins it with the free blocks it touches. */
    method LinkFreed(ghost a: seq<Tile>, ghost t: Tile, f: Tile, ghost b: seq<Tile>)
      requires t.Used? && f == Free(t.addr, t.size) && f.Fits() && 0 < dataStart
      requires Ascending(Frees(a), dataStart, t.addr) && Ascending(Frees(b), t.End(), dataEnd) && dataStart <= t.addr
      requires Linked(mem.memory, freeBlockList, Frees(a) + Frees(b)) && Linked(mem.memory, usedBlockList, Useds(a) + Useds(b))
      requires Nodes(Frees(a) + Frees(b)) !! Nodes(Useds(a) + Useds(b)) && Clear(Useds(a) + Useds(b), f.addr)
      modifies this`freeBlockList, mem
      ensures Linked(mem.memory, freeBlockList, JoinPrev(Frees(a), JoinNext(f, Frees(b))))
      ensures Linked(mem.memory, usedBlockList, Useds(a) + Useds(b))
      ensures HeadPrev() == if Frees(a) == [] then 0 else old(HeadPrev())
    {
      hide Linked, Clear, Nodes, Frees, Useds, Row, Ascending, JoinNext, JoinPrev, Sorted, Behind;
      PlaceFree(f, Frees(a), Frees(b), Useds(a) + Useds(b));
      BeforeMerge(a, t, b);
      MergeNext(f.addr, f, Frees(a), Frees(b), Useds(a) + Useds(b));
      ghost var joined := JoinNext(f, Frees(b));
      assert Frees(a) + joined == Frees(a) + [joined[0]] + joined[1..];
      assert [joined[0]] + joined[1..] == joined;
      MergePrev(f.addr, joined[0], Frees(a), joined[1..], Useds(a) + Useds(b));
    }

    /** Takes a used block off its list and links what its header says as a free block. */
    method GiveBack(usedBlock: int, ghost a: seq<Tile>, ghost t: Tile, ghost b: seq<Tile>)
      requires t.Used? && usedBlock == t.Header() && t.Fits() && 0 < dataStart <= t.addr
      requires Ascending(Frees(a), dataStart, t.addr) && Ascending(Frees(b), t.End(), dataEnd)
      requires Ascending(Useds(a), dataStart, t.addr) && Ascending(Useds(b), t.End(), dataEnd)
      requires Linked(mem.memory, usedBlockList, Useds(a) + [t] + Useds(b)) && Linked(mem.memory, freeBlockList, Frees(a) + Frees(b))
      requires Nodes(Frees(a) + Frees(b)) !! Nodes(Useds(a) + [t] + Useds(b))
      requires usedBlock in mem.memory && mem.memory[usedBlock].addr == t.addr && mem.memory[usedBlock].size == t.size
      modifies this`freeBlockList, this`usedBlockList, mem
      ensures Linked(mem.memory, freeBlockList, JoinPrev(Frees(a), JoinNext(Free(t.addr, t.size), Frees(b))))
      ensures Linked(mem.memory, usedBlockList, Useds(a) + Useds(b))
      ensures HeadPrev() == if Frees(a) == [] then 0 else old(HeadPrev())
    {
      hide Linked, Clear, Nodes, Frees, Useds, Ascending, JoinNext, JoinPrev, Behind;
      var addr := mem.memory[usedBlock].addr;
      var size := mem.memory[usedBlock].size;
      TakeUsed(usedBlock, Useds(a), t, Useds(b), Frees(a) + Frees(b));
      ClearBetween(Useds(a), Useds(b), dataStart, t.addr, t.End(), dataEnd, addr);
      NodesMiddle(Useds(a), t, Useds(b));
      LinkFreed(a, t, Free(addr, size), b);
    }

    /** MEMFreeToExpHeap, for a live pointer or null. */
    method Release(address: int) returns (ghost j: nat)
      requires Valid() && (address == 0 || exists i :: Live(tiles, i, address))
      modifies this, mem
      ensures Valid() && mode == old(mode)
      ensures address == 0 ==> View() == old(View())
      ensures address != 0 ==> Live(old(tiles), j, address) && View() == FreeHeap(old(View()), j)
      ensures address != 0 ==> Step(old(View()), Action.Release(address), View())
    {
      hide Step, Linked, Clear, Nodes, Frees, Useds, Row, Ascending, Coalesce, FreeTiles, JoinNext, JoinPrev, Sorted, Behind;
      j := 0;
      if address == 0 {
        return;
      }
      j :| Live(tiles, j, address);
      FreeIsStep(View(), j, address);
      ghost var t := Useds(tiles)[j];
      ghost var a, b := AroundUsed(j);
      NodeLinks(mem.memory, usedBlockList, Useds(tiles), j);
      GiveBack(address - HEADER, a, t, b);
      AfterFree(tiles, dataStart, dataEnd, j, a, t, b);
      tiles := FreeTiles(tiles, j);
    }

    /** MEMGetTotalFreeSizeForExpHeap */
    method TotalFreeSize() returns (size: int)
      requires Valid()
      ensures size == Total(Frees(tiles)) == dataEnd - dataStart - Total(Useds(tiles))
    {
      ghost var l := Frees(tiles);
      size := 0;
      var block := freeBlockList;
      ghost var k := 0;
      while block != 0
        invariant 0 <= k <= |l| && block == At(l, k)
        invariant size + Total(l[k..]) == Total(l)
        decreases |l| - k
      {
        NodeLinks(mem.memory, freeBlockList, l, k);
        assert l[k..][1..] == l[k + 1..];
        size := size + mem.memory[block].size;
        block := mem.memory[block].next;
        k := k + 1;
      }
      LinkedInMemory(mem.memory, freeBlockList, l);
      TotalsAddUp(tiles, dataStart, dataEnd);
    }

    method LargestFree() returns (largest: int)
      requires Valid()
      ensures largest == Largest(Frees(tiles))
    {
      hide Frees, Useds, Row, Linked;
      ghost var l := Frees(tiles);
      largest := 0;
      var block := freeBlockList;
      ghost var k := 0;
      LinkedInMemory(mem.memory, freeBlockList, l);
      while block != 0
        invariant 0 <= k <= |l| && block == At(l, k)
        invariant largest >= 0 && Largest(l) == if Largest(l[k..]) > largest then Largest(l[k..]) else largest
        decreases |l| - k
      {
        NodeLinks(mem.memory, freeBlockList, l, k);
        assert l[k..][1..] == l[k + 1..];
        if mem.memory[block].size > largest {
          largest := mem.memory[block].size;
        }
        block := mem.memory[block].next;
        k := k + 1;
      }
    }

    /** MEMGetAllocatableSizeForExpHeapEx */
    method AllocatableSize(alignment: int) returns (size: int)
      requires Valid() && alignment > 0
      ensures size == Allocatable(Frees(tiles), alignment)
    {
      var largest := LargestFree();
      if largest < HEADER + alignment {
        return 0;
      }
      size := largest - HEADER - alignment;
      if size > ALLOCATABLE_CAP {
        size := ALLOCATABLE_CAP;
      }
    }

    /**
     The program writes `len` bytes into one of its allocations.  Whatever headers the bytes fall on
     are lost, and none of the heap's are among them.
     */
    method UserWrite(ghost j: nat, addr: int, len: int)
      requires Valid() && j < |Useds(tiles)|
      requires Useds(tiles)[j].ptr <= addr && 0 <= len && addr + len <= Useds(tiles)[j].End()
      modifies mem
      ensures Valid() && View() == old(View())
    {
      ghost var before := mem.memory;
      mem.Scribble(addr, len);
      OutsidePayload(tiles, dataStart, dataEnd, j);
      forall i | 0 <= i < |Frees(tiles)| ensures Frees(tiles)[i].Header() in mem.memory {
        NodeLinks(before, freeBlockList, Frees(tiles), i);
      }
      forall i | 0 <= i < |Useds(tiles)| ensures Useds(tiles)[i].Header() in mem.memory {
        NodeLinks(before, usedBlockList, Useds(tiles), i);
      }
      LinkedInMemory(before, freeBlockList, Frees(tiles));
      LinkedInMemory(before, usedBlockList, Useds(tiles));
      LinkedSame(before, mem.memory, freeBlockList, Frees(tiles));
      LinkedSame(before, mem.memory, usedBlockList, Useds(tiles));
    }
  }

  /** Every header is outside of every payload. */
  lemma OutsidePayload(tiles: seq<Tile>, lo: int, hi: int, j: nat)
    requires Row(tiles, lo, hi) && j < |Useds(tiles)|
    ensures forall s | s in Frees(tiles) + Useds(tiles) ::
      s.Header() + HEADER <= Useds(tiles)[j].ptr || Useds(tiles)[j].End() <= s.Header()
  {
    hide Frees, Useds, Row;
    var t := Useds(tiles)[j];
    RowAscending(tiles, lo, hi);
    forall s | s in Frees(tiles) + Useds(tiles) ensures s.Header() + HEADER <= t.ptr || t.End() <= s.Header() {
      InRow(tiles, s);
      InRow(tiles, t);
      assert s.Fits() && t.Fits() && t.Used?;
      if s != t {
        HeadersApart(tiles, lo, hi, s, t);
      }
    }
  }

  lemma InRow(tiles: seq<Tile>, s: Tile)
    requires s in Frees(tiles) || s in Useds(tiles)
    ensures s in tiles
  {
    if s in Frees(tiles) {
      var i :| 0 <= i < |Frees(tiles)| && Frees(tiles)[i] == s;
    } else {
      var i :| 0 <= i < |Useds(tiles)| && Useds(tiles)[i] == s;
    }
  }

  lemma NodesUpdate(l: seq<Tile>, k: nat, t: Tile)
    requires k < |l| && t.Header() == l[k].Header()
    ensures Nodes(l[k := t]) == Nodes(l)
  {
    assert l == l[..k] + [l[k]] + l[k + 1..] && l[k := t] == l[..k] + [t] + l[k + 1..];
    NodesAround(l[..k], l[k], l[k + 1..]);
    NodesAround(l[..k], t, l[k + 1..]);
  }

  lemma SortedMiddle(a: seq<Tile>, t: Tile, b: seq<Tile>, lo: int, hi: int)
    requires Ascending(a, lo, t.addr) && Ascending(b, t.End(), hi) && t.Fits()
    ensures Sorted(a + [t] + b)
  {
    AscendingSorted(a, lo, t.addr);
    AscendingSorted(b, t.End(), hi);
    var l := a + [t] + b;
    forall i, j | 0 <= i < j < |l| ensures l[i].addr < l[j].addr && l[i].Header() < l[j].Header() {
      if i < |a| {
        assert l[i] == a[i] && l[i].End() <= t.addr;
      }
      if j > |a| {
        assert l[j] == b[j - |a| - 1] && t.End() <= l[j].addr;
      }
    }
  }

  /** What the merges need to know about the lists around the freed block. */
  lemma BeforeMerge(a: seq<Tile>, t: Tile, b: seq<Tile>)
    requires Nodes(Frees(a) + Frees(b)) !! Nodes(Useds(a) + Useds(b)) && Clear(Useds(a) + Useds(b), t.addr)
    ensures Nodes(Frees(a) + [Free(t.addr, t.size)] + Frees(b)) !! Nodes(Useds(a) + Useds(b))
  {
    hide Frees, Useds, Nodes, Clear;
    var f, used := Free(t.addr, t.size), Useds(a) + Useds(b);
    NodesAround(Frees(a), f, Frees(b));
    NodesJoin(Frees(a), Frees(b));
    ClearNotNode(used, t.addr);
  }

  lemma NodesJoin(a: seq<Tile>, b: seq<Tile>)
    ensures Nodes(a + b) == Nodes(a) + Nodes(b)
  {
    assert forall x :: x in a + b <==> x in a || x in b;
  }

  lemma RemoveKeeps(l: seq<Tile>, k: nat)
    requires Sorted(l) && k < |l|
    ensures Sorted(Remove(l, k)) && Nodes(Remove(l, k)) <= Nodes(l)
  {
    forall s | s in Remove(l, k) ensures s in l {}
  }

  /** What an allocation that keeps the row knows about the block it picks. */
  lemma PickStays(tiles: seq<Tile>, act: Action, j: nat)
    requires act.Alloc? && 0 <= act.size < TWO_32 && act.alignment > 0 && !Breaks(tiles, act)
    requires Picked(act.mode, Frees(tiles), WrappedNeed(act.size, act.alignment), j)
    ensures j < |Frees(tiles)|
    ensures var u := Carve(Frees(tiles)[j], WrappedNeed(act.size, act.alignment), act.alignment)[0];
      && u.ptr % act.alignment == 0 && u.ptr <= u.End()
      && (Bounded(act) ==> u.ptr + act.size <= u.End())
  {
    hide Frees;
    assert !BreaksBottom(act.mode, Frees(tiles), WrappedNeed(act.size, act.alignment), act.alignment, j);
    if Bounded(act) {
      var need := Need(act.size, act.alignment);
      DivModIs(need, TWO_32, 0, need);
    }
  }

  lemma PickStaysTop(tiles: seq<Tile>, act: Action, j: nat)
    requires act.AllocTop? && 0 <= act.size < TWO_32 && act.alignment > 0 && !Breaks(tiles, act)
    requires PickedTop(act.mode, Frees(tiles), WrappedNeed(act.size, act.alignment), j)
    ensures j < |Frees(tiles)| && TopFits(Frees(tiles)[j], WrappedNeed(act.size, act.alignment), act.alignment)
    ensures var c := CarveTop(Frees(tiles)[j], WrappedNeed(act.size, act.alignment), act.alignment);
      var u := c[|c| - 1];
      && u.ptr % act.alignment == 0 && u.ptr <= u.End()
      && (Need(act.size, act.alignment) < TWO_32 ==> u.ptr + act.size <= u.End())
  {
    hide Frees;
    assert !BreaksTop(act.mode, Frees(tiles), WrappedNeed(act.size, act.alignment), act.alignment, j);
    var need := Need(act.size, act.alignment);
    if need < TWO_32 {
      DivModIs(need, TWO_32, 0, need);
    }
  }

  lemma ClearWithin(a: seq<Tile>, b: seq<Tile>, from: int, lo: int, hi: int, to: int)
    requires Ascending(a, from, lo) && Ascending(b, hi, to)
    ensures forall h | lo <= h && h + HEADER <= hi :: Clear(a + b, h)
  {
    forall h | lo <= h && h + HEADER <= hi ensures Clear(a + b, h) {
      ClearBetween(a, b, from, lo, hi, to, h);
    }
  }

  /** The row and both lists after an allocation from the free block between `a` and `b`. */
  lemma AfterAlloc(tiles: seq<Tile>, lo: int, hi: int, j: nat, need: int, alignment: int, a: seq<Tile>, b: seq<Tile>)
    requires Row(tiles, lo, hi) && alignment > 0 && j < |Frees(tiles)| && 0 <= need <= Frees(tiles)[j].size
    requires var u := Carve(Frees(tiles)[j], need, alignment)[0]; u.ptr <= u.End()
    requires tiles == a + [Frees(tiles)[j]] + b && |Frees(a)| == j
    requires Useds(tiles) == Useds(a) + Useds(b) && Frees(tiles) == Frees(a) + [Frees(tiles)[j]] + Frees(b)
    ensures var t := Frees(tiles)[j];
      var after, c := AllocTiles(tiles, j, need, alignment), Carve(t, need, alignment);
      && Row(after, lo, hi) && Useds(after) == Useds(a) + [c[0]] + Useds(b)
      && Frees(after) == Frees(a) + (c[1..] + Frees(b))
      && c[0].Fits() && c[0].Used? && Ascending(Useds(a), lo, c[0].addr) && Ascending(Useds(b), c[0].End(), hi)
      && Nodes(Frees(after)) !! Nodes(Useds(a) + Useds(b)) && Clear(Frees(after), c[0].Header())
  {
    hide Frees, Useds, Row, Nodes, Ascending, AllocTiles, Clear, AlignUp;
    var t := Frees(tiles)[j];
    AllocKeepsRowExactlyWhen(tiles, lo, hi, j, need, alignment);
    AllocLists(a, t, b, need, alignment);
    var after, c := AllocTiles(tiles, j, need, alignment), Carve(t, need, alignment);
    ListsApart(a, c[0], c[1..] + b, lo, hi);
    ClearBetween(Frees(a), c[1..] + Frees(b), lo, c[0].addr, c[0].End(), hi, c[0].Header());
    ListsDisjoint(after, lo, hi);
    NodesMiddle(Useds(a), c[0], Useds(b));
  }

  lemma RemoveJoined(fa: seq<Tile>, big: Tile, f: Tile, rest: seq<Tile>)
    requires fa != []
    ensures var k := |fa|;
      Remove((fa + [f] + rest)[k - 1 := big], k) == fa[..k - 1] + [big] + rest
  {}

  /** The same after an allocation from the top. */
  lemma AfterAllocTop(tiles: seq<Tile>, lo: int, hi: int, j: nat, need: int, alignment: int, a: seq<Tile>, b: seq<Tile>)
    requires Row(tiles, lo, hi) && alignment > 0 && j < |Frees(tiles)| && 0 <= need <= Frees(tiles)[j].size
    requires TopFits(Frees(tiles)[j], need, alignment)
    requires tiles == a + [Frees(tiles)[j]] + b && |Frees(a)| == j
    ensures var t := Frees(tiles)[j];
      var after, c := AllocTopTiles(tiles, j, need, alignment), CarveTop(t, need, alignment);
      var rest, u := c[..|c| - 1], c[|c| - 1];
      && Row(after, lo, hi) && Useds(after) == Useds(a) + [u] + Useds(b)
      && rest == (if t.size == need then [] else [Free(t.addr, t.size - need)])
      && Frees(after) == Frees(a) + rest + Frees(b) && u.Used? && u.Fits() && lo <= u.addr
      && Ascending(Useds(a), lo, u.addr) && Ascending(Useds(b), u.End(), hi)
      && Nodes(Frees(after)) !! Nodes(Useds(a) + Useds(b)) && Clear(Frees(after), u.Header())
  {
    hide Frees, Useds, Row, Nodes, Ascending, AllocTopTiles, Clear, AlignUp;
    var t := Frees(tiles)[j];
    AllocTopKeepsRowExactlyWhen(tiles, lo, hi, j, need, alignment);
    AllocTopLists(a, t, b, need, alignment);
    var after, c := AllocTopTiles(tiles, j, need, alignment), CarveTop(t, need, alignment);
    var rest, u := c[..|c| - 1], c[|c| - 1];
    ListsApart(a + rest, u, b, lo, hi);
    ClearBetween(Frees(a + rest), Frees(b), lo, u.addr, u.End(), hi, u.Header());
    ListsDisjoint(after, lo, hi);
    NodesMiddle(Useds(a), u, Useds(b));
  }

  /** The two 32-bit additions of a request wrap to the same sum as one. */
  lemma WrapTwice(size: u32, alignment: int)
    ensures ((size + HEADER) % TWO_32 + alignment) % TWO_32 == WrappedNeed(size, alignment)
  {
    var first := (size + HEADER) % TWO_32 + alignment;
    var q, k := first / TWO_32, (size + HEADER) / TWO_32;
    assert size + HEADER == TWO_32 * k + (size + HEADER) % TWO_32;
    assert first == TWO_32 * q + first % TWO_32;
    DivModIs(Need(size, alignment), TWO_32, q + k, first % TWO_32);
  }

  lemma NodesMiddle(a: seq<Tile>, t: Tile, b: seq<Tile>)
    ensures Nodes(a + b) <= Nodes(a + [t] + b)
  {
    forall s | s in a + b ensures s in a + [t] + b {}
  }

  /** Facts about a free list around the block that is being shrunk. */
  lemma SortedAround(fa: seq<Tile>, t: Tile, fb: seq<Tile>, need: int)
    requires t.Free? && t.Fits() && 0 <= need <= t.size
    requires exists lo, hi :: Ascending(fa, lo, t.addr) && Ascending(fb, t.End(), hi)
    ensures var small, l := Free(t.addr, t.size - need), fa + [t] + fb;
      && Sorted(l) && Sorted(l[|fa| := small]) && l[|fa|] == t
      && (need >= HEADER && t.size - need >= HEADER ==> Clear(l[|fa| := small], t.addr + need))
      && Nodes(l[|fa| := small]) == Nodes(l)
  {
    hide Nodes;
    var small, l := Free(t.addr, t.size - need), fa + [t] + fb;
    assert l[|fa| := small] == fa + [small] + fb;
    NodesAround(fa, t, fb);
    NodesAround(fa, small, fb);
  }

  lemma NodesAround(a: seq<Tile>, t: Tile, b: seq<Tile>)
    ensures Nodes(a + [t] + b) == Nodes(a) + {t.Header()} + Nodes(b)
  {
    var l := a + [t] + b;
    assert forall x :: x in l <==> x in a || x == t || x in b;
  }
}
