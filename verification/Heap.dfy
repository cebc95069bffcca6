/** The user heap: a first-fit, coalescing free list of linked nodes, grown by `brk`. */
module Heap {
  import opened Wrappers
  import opened FreeLists

  const PAGE_SIZE := 4096
  const HEADER_SIZE := 8
  /** Alignment of headers and free nodes on a 32-bit machine. */
  const WORD_ALIGN := 4

  /** Record at the start of a free block; next 0 ends the list. */
  datatype FreeBlock = FreeBlock(size: nat, next: nat)

  /** Record immediately before a payload. */
  datatype Header = Header(blockStart: nat, blockSize: nat)

  predicate PowerOfTwo(a: nat)
  {
    a == 1 || (a > 1 && a % 2 == 0 && PowerOfTwo(a / 2))
  }

  datatype Layout = Layout(size: nat, align: nat)
  {
    /** What the language demands of a layout. */
    predicate Valid() {
      PowerOfTwo(align) && size + align - 1 <= 0x7FFF_FFFF
    }
  }

  datatype Allocation = Allocation(block: Block, layout: Layout)

  // ----- placement -----

  /** Rounds addr up by clearing the low bits of addr + align - 1. */
  function AlignUp(addr: nat, align: nat): nat
    requires align > 0
  {
    var y := addr + align - 1;
    y - y % align
  }

  lemma Times(a: int, q: int)
    requires a >= 0
    ensures q >= 1 ==> q * a >= a
    ensures q <= -1 ==> q * a <= -a
    ensures q == 0 ==> q * a == 0
  {
  }

  /** Quotient and remainder are unique. */
  lemma Division(x: nat, a: nat, q: nat, r: nat)
    requires a > 0 && x == q * a + r && r < a
    ensures x % a == r
  {
    var q', r' := x / a, x % a;
    assert x == q' * a + r';
    assert (q - q') * a == q * a - q' * a;
    Times(a, q - q');
  }

  predicate MultipleOf(x: nat, a: nat)
    requires a > 0
  {
    x % a == 0
  }

  /** It is the least multiple of align at or above addr. */
  lemma AlignUpLeast(addr: nat, align: nat)
    requires align > 0
    ensures addr <= AlignUp(addr, align) < addr + align && MultipleOf(AlignUp(addr, align), align)
  {
    var y := addr + align - 1;
    Division(y - y % align, align, y / align, 0);
  }

  lemma MultiplesApart(x: nat, y: nat, a: nat)
    requires a > 0 && MultipleOf(x, a) && MultipleOf(y, a) && x < y
    ensures x + a <= y
  {
    assert x == x / a * a && y == y / a * a;
    assert (y / a - x / a) * a == y / a * a - x / a * a;
    Times(a, y / a - x / a);
  }

  lemma AlignUpMonotone(a: nat, b: nat, align: nat)
    requires align > 0 && a <= b
    ensures AlignUp(a, align) <= AlignUp(b, align)
  {
    AlignUpLeast(a, align);
    AlignUpLeast(b, align);
    hide AlignUp, MultipleOf;
    if AlignUp(a, align) > AlignUp(b, align) {
      MultiplesApart(AlignUp(b, align), AlignUp(a, align), align);
    }
  }

  function PayloadAlign(layout: Layout): nat { Max(layout.align, WORD_ALIGN) }

  /** An address aligned for header and layout is aligned for the layout. */
  lemma PayloadAligned(layout: Layout, p: nat)
    requires layout.Valid() && MultipleOf(p, PayloadAlign(layout))
    ensures layout.align > 0 && MultipleOf(p, layout.align)
  {
    if layout.align < WORD_ALIGN { SmallPowers(layout.align); }
  }

  lemma SmallPowers(a: nat)
    requires PowerOfTwo(a) && a < 4
    ensures a == 1 || a == 2
  {
    assert !PowerOfTwo(1 + 2);
  }

  datatype Placement = Placement(blockStart: nat, blockSize: nat, headerStart: nat, payloadStart: nat,
                                 prefixSize: nat, suffixStart: nat, suffixSize: nat)

  /** The payload address in a block that starts there. */
  function PayloadAt(blockStart: nat, layout: Layout): nat
    requires layout.align > 0
  {
    AlignUp(blockStart + HEADER_SIZE, PayloadAlign(layout))
  }

  predicate Fits(b: Block, layout: Layout)
    requires layout.align > 0
  {
    PayloadAt(b.start, layout) + layout.size <= b.End()
  }

  /** Where an allocation can live inside one free block. */
  function Place(b: Block, layout: Layout): (r: Option<Placement>)
    requires layout.align > 0 && layout.size > 0
    ensures r.Some? <==> Fits(b, layout)
    ensures r.Some? ==> var p := r.value;
      && p.payloadStart == PayloadAt(b.start, layout) == p.headerStart + HEADER_SIZE
      && b.start <= p.blockStart <= p.headerStart
      && p.payloadStart + layout.size <= p.blockStart + p.blockSize <= b.End()
      && p.prefixSize == p.blockStart - b.start
      && p.suffixStart == p.blockStart + p.blockSize && p.suffixSize == b.End() - p.suffixStart
      && (p.prefixSize == 0 || p.prefixSize >= MIN_FREE_BLOCK_SIZE)
      && (p.suffixSize == 0 || p.suffixSize >= MIN_FREE_BLOCK_SIZE)
      && (p.prefixSize == 0 ==> p.headerStart - p.blockStart < MIN_FREE_BLOCK_SIZE)
  {
    var payloadStart := PayloadAt(b.start, layout);
    var headerStart := payloadStart - HEADER_SIZE;
    var requestedEnd := payloadStart + layout.size;
    if requestedEnd > b.End() then None
    else
      var keepPrefix := headerStart - b.start >= MIN_FREE_BLOCK_SIZE;
      var allocationStart := if keepPrefix then headerStart else b.start;
      var keepSuffix := b.End() - requestedEnd >= MIN_FREE_BLOCK_SIZE;
      var allocationEnd := if keepSuffix then requestedEnd else b.End();
      Some(Placement(allocationStart, allocationEnd - allocationStart, headerStart, payloadStart,
                     if keepPrefix then headerStart - b.start else 0,
                     allocationEnd, if keepSuffix then b.End() - requestedEnd else 0))
  }

  // ----- the linked list -----

  type Nodes = map<nat, FreeBlock>

  /** The address of block i of the list; 0 past the end. */
  function StartAt(fs: Blocks, i: nat): nat
  {
    if i < |fs| then fs[i].start else 0
  }

  /** The nodes in memory form the list. */
  ghost predicate Linked(nodes: Nodes, head: nat, fs: Blocks)
  {
    && head == StartAt(fs, 0)
    && forall i: nat | i < |fs| :: NodeAt(nodes, fs, i)
  }

  /** The node of block i is in memory and leads on to block i + 1. */
  predicate NodeAt(nodes: Nodes, fs: Blocks, i: nat)
    requires i < |fs|
  {
    fs[i].start in nodes && nodes[fs[i].start] == FreeBlock(fs[i].size, StartAt(fs, i + 1))
  }

  lemma StartsDiffer(fs: Blocks, i: nat, j: nat)
    requires Ordered(fs) && i < |fs| && j < |fs| && i != j
    ensures fs[i].start != fs[j].start && fs[i].start > 0
  {
    SizeAt(fs, i);
    SizeAt(fs, j);
    if i < j { assert fs[i].End() <= fs[j].start; } else { assert fs[j].End() <= fs[i].start; }
  }

  /** The link that leads to position k now leads to `target`. */
  function Relinked(nodes: Nodes, fs: Blocks, k: nat, target: nat): Nodes
    requires k <= |fs|
  {
    if k == 0 then nodes else nodes[fs[k - 1].start := FreeBlock(fs[k - 1].size, target)]
  }

  /** The nodes after a block was entered at position k. */
  function InsertedNodes(nodes: Nodes, fs: Blocks, k: nat, b: Block): Nodes
    requires k <= |fs|
  {
    Relinked(nodes, fs, k, b.start)[b.start := FreeBlock(b.size, StartAt(fs, k))]
  }

  /** What the memory holds at block i of the list. */
  lemma LinkAt(nodes: Nodes, head: nat, fs: Blocks, i: nat)
    requires Linked(nodes, head, fs) && Ordered(fs) && i < |fs|
    ensures fs[i].start in nodes && fs[i].start > 0 && fs[i].size >= MIN_FREE_BLOCK_SIZE
    ensures nodes[fs[i].start] == FreeBlock(fs[i].size, StartAt(fs, i + 1))
  {
    SizeAt(fs, i);
    assert NodeAt(nodes, fs, i);
  }

  lemma LinkedInserted(nodes: Nodes, head: nat, fs: Blocks, k: nat, b: Block)
    requires Linked(nodes, head, fs) && Ordered(fs) && Position(fs, k, b.start) && b.start > 0
    ensures Linked(InsertedNodes(nodes, fs, k, b), if k == 0 then b.start else head, Inserted(fs, k, b))
  {
    InsertedAt(fs, k, b, 0);
    hide Inserted, InsertedNodes, Ordered, Position;
    var r := Inserted(fs, k, b);
    forall i: nat | i < |r| ensures NodeAt(InsertedNodes(nodes, fs, k, b), r, i) {
      InsertedLink(nodes, fs, k, b, i);
    }
  }

  lemma InsertedLink(nodes: Nodes, fs: Blocks, k: nat, b: Block, i: nat)
    requires Ordered(fs) && Position(fs, k, b.start) && b.start > 0 && k <= |fs| && i <= |fs|
    requires forall j: nat | j < |fs| :: NodeAt(nodes, fs, j)
    ensures |Inserted(fs, k, b)| == |fs| + 1
    ensures NodeAt(InsertedNodes(nodes, fs, k, b), Inserted(fs, k, b), i)
  {
    hide Inserted, InsertedNodes, Ordered, StartAt;
    InsertedAt(fs, k, b, i);
    StartAfterInserted(fs, k, b, i);
    if i == k {
      EnteredNode(nodes, fs, k, b);
    } else {
      var j := if i < k then i else i - 1;
      assert NodeAt(nodes, fs, j) && fs[j].start != b.start;
      OldNode(nodes, fs, k, b, j);
    }
  }

  lemma StartAfterInserted(fs: Blocks, k: nat, b: Block, i: nat)
    requires k <= |fs| && i <= |fs|
    ensures StartAt(Inserted(fs, k, b), i + 1) == if i + 1 < k then StartAt(fs, i + 1) else if i + 1 == k then b.start else StartAt(fs, i)
  {
    hide Inserted;
    InsertedAt(fs, k, b, 0);
    if i < |fs| { InsertedAt(fs, k, b, i + 1); }
  }

  lemma EnteredNode(nodes: Nodes, fs: Blocks, k: nat, b: Block)
    requires k <= |fs|
    ensures b.start in InsertedNodes(nodes, fs, k, b)
    ensures InsertedNodes(nodes, fs, k, b)[b.start] == FreeBlock(b.size, StartAt(fs, k))
  {
  }

  lemma OldNode(nodes: Nodes, fs: Blocks, k: nat, b: Block, j: nat)
    requires Ordered(fs) && k <= |fs| && j < |fs| && NodeAt(nodes, fs, j) && fs[j].start != b.start
    ensures fs[j].start in InsertedNodes(nodes, fs, k, b)
    ensures InsertedNodes(nodes, fs, k, b)[fs[j].start]
         == FreeBlock(fs[j].size, if j + 1 == k then b.start else StartAt(fs, j + 1))
  {
    if k > 0 && j != k - 1 { StartsDiffer(fs, j, k - 1); }
  }

  lemma LinkedCoalesced(nodes: Nodes, head: nat, fs: Blocks, k: nat)
    requires Linked(nodes, head, fs) && Ordered(fs) && k + 1 < |fs| && fs[k].End() == fs[k + 1].start
    ensures Linked(nodes[fs[k].start := FreeBlock(fs[k].size + fs[k + 1].size, StartAt(fs, k + 2))], head, Coalesced(fs, k))
  {
    CoalescedAt(fs, k, 0);
    hide Coalesced, Ordered;
    var nodes' := nodes[fs[k].start := FreeBlock(fs[k].size + fs[k + 1].size, StartAt(fs, k + 2))];
    forall i: nat | i < |Coalesced(fs, k)| ensures NodeAt(nodes', Coalesced(fs, k), i) {
      CoalescedAt(fs, k, i);
      CoalescedLink(nodes, fs, k, i);
    }
  }

  lemma CoalescedLink(nodes: Nodes, fs: Blocks, k: nat, i: nat)
    requires Ordered(fs) && k + 1 < |fs| && fs[k].End() == fs[k + 1].start && i < |fs| - 1
    requires forall j: nat | j < |fs| :: NodeAt(nodes, fs, j)
    ensures |Coalesced(fs, k)| == |fs| - 1
    ensures NodeAt(nodes[fs[k].start := FreeBlock(fs[k].size + fs[k + 1].size, StartAt(fs, k + 2))], Coalesced(fs, k), i)
  {
    hide Coalesced, Ordered;
    CoalescedAt(fs, k, i);
    if i + 1 < |fs| - 1 { CoalescedAt(fs, k, i + 1); }
    var j := if i <= k then i else i + 1;
    assert NodeAt(nodes, fs, j);
    if j != k { StartsDiffer(fs, j, k); }
  }

  /** The nodes after block k gave way to its pieces around the placement. */
  function CarvedNodes(nodes: Nodes, fs: Blocks, k: nat, p: Placement): Nodes
    requires k < |fs|
  {
    var next := StartAt(fs, k + 1);
    if p.prefixSize > 0 then
      if p.suffixSize > 0 then
        nodes[p.suffixStart := FreeBlock(p.suffixSize, next)][fs[k].start := FreeBlock(p.prefixSize, p.suffixStart)]
      else nodes[fs[k].start := FreeBlock(p.prefixSize, next)]
    else if p.suffixSize > 0 then
      Relinked(nodes[p.suffixStart := FreeBlock(p.suffixSize, next)], fs, k, p.suffixStart)
    else Relinked(nodes, fs, k, next)
  }

  function CarvedHead(head: nat, fs: Blocks, k: nat, p: Placement): nat
    requires k < |fs|
  {
    if k > 0 || p.prefixSize > 0 then head
    else if p.suffixSize > 0 then p.suffixStart else StartAt(fs, k + 1)
  }

  lemma LinkedCarved(nodes: Nodes, head: nat, fs: Blocks, k: nat, layout: Layout)
    requires Linked(nodes, head, fs) && Normal(fs) && k < |fs| && layout.align > 0 && layout.size > 0 && Fits(fs[k], layout)
    ensures var p := Place(fs[k], layout).value;
      Linked(CarvedNodes(nodes, fs, k, p), CarvedHead(head, fs, k, p),
             Carved(fs, k, Pieces(fs[k], p.blockStart, p.blockStart + p.blockSize)))
  {
    var p := Place(fs[k], layout).value;
    var rest := Pieces(fs[k], p.blockStart, p.blockStart + p.blockSize);
    var r := Carved(fs, k, rest);
    CarvedStart(fs, k, layout);
    hide Place, Carved, ApartBut, CarvedNodes, CarvedHead, Pieces, Ordered;
    CarvedLength(fs, k, rest);
    forall i: nat | i < |r| ensures NodeAt(CarvedNodes(nodes, fs, k, p), r, i) {
      if k <= i < k + |rest| {
        PieceLink(nodes, fs, k, layout, i);
      } else {
        OtherLink(nodes, fs, k, layout, i);
      }
    }
  }

  lemma CarvedStart(fs: Blocks, k: nat, layout: Layout)
    requires k < |fs| && layout.align > 0 && layout.size > 0 && Fits(fs[k], layout)
    ensures var p := Place(fs[k], layout).value;
      CarvedHead(StartAt(fs, 0), fs, k, p) == StartAt(Carved(fs, k, Pieces(fs[k], p.blockStart, p.blockStart + p.blockSize)), 0)
  {
    hide Place;
  }

  /** The nodes of the pieces. */
  lemma PieceLink(nodes: Nodes, fs: Blocks, k: nat, layout: Layout, i: nat)
    requires Normal(fs) && k < |fs| && layout.align > 0 && layout.size > 0 && Fits(fs[k], layout)
    requires NodeAt(nodes, fs, k)
    requires var p := Place(fs[k], layout).value; k <= i < k + |Pieces(fs[k], p.blockStart, p.blockStart + p.blockSize)|
    ensures var p := Place(fs[k], layout).value;
      var rest := Pieces(fs[k], p.blockStart, p.blockStart + p.blockSize);
      |Carved(fs, k, rest)| == |fs| - 1 + |rest| && NodeAt(CarvedNodes(nodes, fs, k, p), Carved(fs, k, rest), i)
  {
    hide Place, Ordered, ApartBut;
    var p := Place(fs[k], layout).value;
    var rest := Pieces(fs[k], p.blockStart, p.blockStart + p.blockSize);
    CarvedLength(fs, k, rest);
    CarvedAt(fs, k, rest, i);
    if i + 1 < |fs| - 1 + |rest| { CarvedAt(fs, k, rest, i + 1); }
    hide Carved;
    if k > 0 { OrderAt(fs, {}, k - 1, k); }
  }

  /** The nodes of the other blocks. */
  lemma OtherLink(nodes: Nodes, fs: Blocks, k: nat, layout: Layout, i: nat)
    requires Normal(fs) && k < |fs| && layout.align > 0 && layout.size > 0 && Fits(fs[k], layout)
    requires forall j: nat | j < |fs| :: NodeAt(nodes, fs, j)
    requires var p := Place(fs[k], layout).value;
      var rest := Pieces(fs[k], p.blockStart, p.blockStart + p.blockSize); i < |fs| - 1 + |rest| && !(k <= i < k + |rest|)
    ensures var p := Place(fs[k], layout).value;
      var rest := Pieces(fs[k], p.blockStart, p.blockStart + p.blockSize);
      |Carved(fs, k, rest)| == |fs| - 1 + |rest| && NodeAt(CarvedNodes(nodes, fs, k, p), Carved(fs, k, rest), i)
  {
    hide Place, Ordered, ApartBut;
    var p := Place(fs[k], layout).value;
    var rest := Pieces(fs[k], p.blockStart, p.blockStart + p.blockSize);
    CarvedLength(fs, k, rest);
    CarvedAt(fs, k, rest, i);
    if i + 1 < |fs| - 1 + |rest| { CarvedAt(fs, k, rest, i + 1); }
    hide Carved;
    var j := if i < k then i else i - |rest| + 1;
    assert NodeAt(nodes, fs, j);
    CarvedLink(fs, k, p, j);
  }

  /** A block that stays is at none of the addresses that change, unless it links to k. */
  lemma CarvedLink(fs: Blocks, k: nat, p: Placement, j: nat)
    requires Ordered(fs) && k < |fs| && j < |fs|
    requires fs[k].start <= p.suffixStart <= fs[k].End() && (p.suffixSize > 0 ==> fs[k].start < p.suffixStart < fs[k].End())
    ensures j != k ==> fs[j].start != fs[k].start && (p.suffixSize > 0 ==> fs[j].start != p.suffixStart)
    ensures k > 0 && j != k - 1 ==> fs[j].start != fs[k - 1].start
  {
    if j != k {
      StartsDiffer(fs, j, k);
      SizeAt(fs, j);
      if j < k { assert fs[j].End() <= fs[k].start; } else { assert fs[k].End() <= fs[j].start; }
    }
    if k > 0 && j != k - 1 { StartsDiffer(fs, j, k - 1); }
  }

  // ----- what the heap is made of -----

  type Live = map<nat, Allocation>

  ghost predicate LiveAt(live: Live, x: nat)
  {
    exists p :: p in live && live[p].block.Covers(x)
  }

  /** Free and live blocks tile the grown ranges: every byte of them, and no other, belongs
      to exactly one block. */
  ghost predicate Tiled(fs: Blocks, live: Live, ranges: Blocks)
  {
    && (forall x: nat :: FreeAt(fs, x) || LiveAt(live, x) <==> FreeAt(ranges, x))
    && (forall x: nat :: FreeAt(fs, x) ==> !LiveAt(live, x))
    && (forall p, q, x: nat | p in live && q in live && live[p].block.Covers(x) && live[q].block.Covers(x) :: p == q)
  }

  /** A live payload is aligned and lies in its own block, behind its header. */
  ghost predicate Placed(p: nat, a: Allocation)
  {
    && a.layout.Valid() && a.layout.align > 0 && a.layout.size > 0 && MultipleOf(p, a.layout.align)
    && 0 < a.block.start && a.block.start + HEADER_SIZE <= p && p + a.layout.size <= a.block.End()
  }

  ghost predicate Headed(headers: map<nat, Header>, live: Live)
  {
    forall p | p in live :: Placed(p, live[p])
      && p - HEADER_SIZE in headers && headers[p - HEADER_SIZE] == Header(live[p].block.start, live[p].block.size)
  }

  class BrkAllocator {
    var freeList: nat
    var heapEnd: nat
    var initialized: bool
    /** The memory, read as free nodes and as headers. */
    var nodes: Nodes
    var headers: map<nat, Header>
    /** The process: its break, and where the kernel lets it lie. */
    var brk: nat
    const endCode: nat
    const brkLimit: nat
    ghost var free: Blocks
    ghost var live: Live
    ghost var ranges: Blocks

    ghost predicate ListOK()
      reads this
    {
      Linked(nodes, freeList, free) && Normal(free)
    }

    ghost predicate Valid()
      reads this
    {
      && ListOK() && Tiled(free, live, ranges) && Headed(headers, live)
      && 0 < endCode <= brk < brkLimit <= 0x400_0000
      && (initialized ==> heapEnd == brk)
      && forall x: nat | FreeAt(ranges, x) :: endCode <= x < brk
    }

    constructor (endCode: nat, brk: nat, brkLimit: nat)
      requires 0 < endCode <= brk < brkLimit <= 0x400_0000
      ensures Valid() && free == [] && live == map[] && ranges == [] && !initialized && this.brk == brk
    {
      this.endCode, this.brk, this.brkLimit := endCode, brk, brkLimit;
      freeList, heapEnd, initialized := 0, 0, false;
      nodes, headers := map[], map[];
      free, live, ranges := [], map[], [];
    }

    /** The system call: moves the break if the new one is in bounds, and returns it. */
    method SysBrk(request: nat) returns (r: nat)
      modifies this`brk
      ensures brk == r == if endCode <= request < brkLimit then request else old(brk)
    {
      if request >= endCode && request < brkLimit {
        brk := request;
      }
      return brk;
    }

    // ----- the free list -----

    /** Merges block k, at address `block`, with its successor when they touch. */
    method CoalesceWithNext(block: nat, ghost k: nat, ghost but: set<int>)
      requires Linked(nodes, freeList, free) && Ordered(free) && ApartBut(free, but + {k})
      requires k < |free| && free[k].start == block && forall i | i in but :: i < k
      modifies this`nodes, this`free
      ensures Linked(nodes, freeList, free) && Ordered(free) && ApartBut(free, but) && free == Coalesced(old(free), k)
    {
      hide Linked, Ordered, ApartBut, Coalesced, NodeAt;
      LinkAt(nodes, freeList, free, k);
      if k + 1 < |free| { LinkAt(nodes, freeList, free, k + 1); }
      CoalescedOrdered(free, k, but);
      var next := nodes[block].next;
      if next == 0 {
        NotCoalesced(free, k);
        return;
      }
      var blockEnd := block + nodes[block].size;
      if blockEnd == next {
        LinkedCoalesced(nodes, freeList, free, k);
        nodes := nodes[block := FreeBlock(nodes[block].size + nodes[next].size, nodes[next].next)];
        free := Coalesced(free, k);
      } else {
        NotCoalesced(free, k);
      }
    }

    /** Inserts a block in address order and merges it with the neighbours it touches. */
    method InsertFreeBlock(start: nat, size: nat)
      requires ListOK() && start > 0 && Clear(free, Block(start, size))
      modifies this`nodes, this`freeList, this`free
      ensures ListOK()
      ensures if size < MIN_FREE_BLOCK_SIZE then free == old(free)
              else forall x: nat :: FreeAt(free, x) <==> FreeAt(old(free), x) || Block(start, size).Covers(x)
    {
      if size < MIN_FREE_BLOCK_SIZE {
        return;
      }
      hide Normal, Linked, Inserted, Clear;
      ghost var b := Block(start, size);
      NewNode(nodes, freeList, free, b);
      nodes := nodes[start := FreeBlock(size, 0)];
      if freeList == 0 || start < freeList {
        InsertFirst(start, size);
      } else {
        InsertBehind(start, size);
      }
    }

    /** The new node becomes the head. */
    method InsertFirst(start: nat, size: nat)
      requires ListOK() && start > 0 && Clear(free, Block(start, size)) && size >= MIN_FREE_BLOCK_SIZE
      requires start in nodes && nodes[start] == FreeBlock(size, 0) && (freeList == 0 || start < freeList)
      modifies this`nodes, this`freeList, this`free
      ensures ListOK()
      ensures forall x: nat :: FreeAt(free, x) <==> FreeAt(old(free), x) || Block(start, size).Covers(x)
    {
      hide Ordered, ApartBut, Inserted, Coalesced, Clear;
      ghost var fs, b := free, Block(start, size);
      if fs != [] { SizeAt(fs, 0); }
      FrontPosition(fs, b);
      InsertedOrdered(fs, 0, b);
      LinkedInserted(nodes, freeList, fs, 0, b);
      InsertedAt(fs, 0, b, 0);
      nodes := nodes[start := FreeBlock(nodes[start].size, freeList)];
      freeList := start;
      free := Inserted(fs, 0, b);
      FrontException(free);
      CoalesceWithNext(start, 0, {});
      CoalescedCovers(Inserted(fs, 0, b), 0);
      InsertedCovers(fs, 0, b);
    }

    /** The new node goes behind the last one below it. */
    method InsertBehind(start: nat, size: nat)
      requires ListOK() && start > 0 && Clear(free, Block(start, size)) && size >= MIN_FREE_BLOCK_SIZE
      requires start in nodes && nodes[start] == FreeBlock(size, 0) && 0 < freeList <= start
      modifies this`nodes, this`free
      ensures ListOK()
      ensures forall x: nat :: FreeAt(free, x) <==> FreeAt(old(free), x) || Block(start, size).Covers(x)
    {
      hide Ordered, ApartBut, Inserted, Coalesced, Clear;
      ghost var fs, b := free, Block(start, size);
      NewAddress(fs, b);
      var prev; ghost var k;
      prev, k := FindPrevious(start);
      InsertedOrdered(fs, k, b);
      LinkedInserted(nodes, freeList, fs, k, b);
      InsertedAt(fs, k, b, k);
      InsertedAt(fs, k, b, k - 1);
      assert NodeAt(nodes, fs, k - 1);
      nodes := nodes[start := FreeBlock(nodes[start].size, nodes[prev].next)];
      nodes := nodes[prev := FreeBlock(nodes[prev].size, start)];
      assert nodes == InsertedNodes(old(nodes), fs, k, b);
      free := Inserted(fs, k, b);
      TwoExceptions(free, k);
      CoalesceWithNext(start, k, {k - 1});
      CoalescedKeeps(Inserted(fs, k, b), k, k - 1);
      ghost var gs := free;
      OneException(gs, k - 1);
      CoalesceWithNext(prev, k - 1, {});
      CoalescedCovers(gs, k - 1);
      CoalescedCovers(Inserted(fs, k, b), k);
      InsertedCovers(fs, k, b);
    }

    /** The last node below an address that is not below the first. */
    method FindPrevious(start: nat) returns (prev: nat, ghost k: nat)
      requires Linked(nodes, freeList, free) && Ordered(free) && free != [] && free[0].start <= start
      requires forall i | 0 <= i < |free| :: free[i].start != start
      ensures 0 < k <= |free| && prev == free[k - 1].start && Position(free, k, start)
    {
      hide Ordered;
      SizeAt(free, 0);
      prev, k := freeList, 1;
      assert NodeAt(nodes, free, 0);
      while nodes[prev].next != 0 && nodes[prev].next < start
        invariant 0 < k <= |free| && prev == free[k - 1].start < start && prev in nodes && NodeAt(nodes, free, k - 1)
        decreases |free| - k
      {
        assert NodeAt(nodes, free, k);
        prev, k := nodes[prev].next, k + 1;
      }
      if k < |free| { SizeAt(free, k); }
      PositionFound(free, k, start);
    }

    // ----- allocation -----

    /** Points the link to a block at another one: `prev`, or the head when prev is 0. */
    method ReplaceBlock(prev: nat, target: nat, ghost fs: Blocks, ghost k: nat)
      requires k < |fs| && (if k == 0 then prev == 0 else prev == fs[k - 1].start > 0)
      requires k > 0 ==> prev in nodes && nodes[prev].size == fs[k - 1].size
      modifies this`nodes, this`freeList
      ensures nodes == Relinked(old(nodes), fs, k, target)
      ensures freeList == if k == 0 then target else old(freeList)
    {
      if prev == 0 {
        freeList := target;
      } else {
        nodes := nodes[prev := FreeBlock(nodes[prev].size, target)];
      }
    }

    /** Leaves of block k what lies around the placement. */
    method CarveBlock(prev: nat, current: nat, placement: Placement, ghost k: nat, ghost layout: Layout)
      requires ListOK() && layout.align > 0 && layout.size > 0
      requires k < |free| && current == free[k].start && (if k == 0 then prev == 0 else prev == free[k - 1].start)
      requires Place(free[k], layout) == Some(placement)
      modifies this`nodes, this`freeList, this`free
      ensures ListOK()
      ensures forall x: nat :: FreeAt(free, x) <==>
                FreeAt(old(free), x) && !Block(placement.blockStart, placement.blockSize).Covers(x)
    {
      ghost var fs, lo, hi := free, placement.blockStart, placement.blockStart + placement.blockSize;
      hide Linked, NodeAt, Ordered, ApartBut, Place, Pieces, Carved;
      LinkAt(nodes, freeList, fs, k);
      if k > 0 { LinkAt(nodes, freeList, fs, k - 1); OrderAt(fs, {}, k - 1, k); }
      LinkedCarved(nodes, freeList, fs, k, layout);
      CarvedNormal(fs, k, lo, hi);
      forall x: nat ensures FreeAt(Carved(fs, k, Pieces(fs[k], lo, hi)), x) <==> FreeAt(fs, x) && !(lo <= x < hi) {
        CarvedCovers(fs, k, lo, hi, x);
      }
      var next := nodes[current].next;
      if placement.prefixSize >= MIN_FREE_BLOCK_SIZE {
        nodes := nodes[current := FreeBlock(placement.prefixSize, next)];
        if placement.suffixSize >= MIN_FREE_BLOCK_SIZE {
          nodes := nodes[placement.suffixStart := FreeBlock(placement.suffixSize, next)];
          nodes := nodes[current := FreeBlock(nodes[current].size, placement.suffixStart)];
        }
      } else if placement.suffixSize >= MIN_FREE_BLOCK_SIZE {
        nodes := nodes[placement.suffixStart := FreeBlock(placement.suffixSize, next)];
        ReplaceBlock(prev, placement.suffixStart, fs, k);
      } else {
        ReplaceBlock(prev, next, fs, k);
      }
      assert nodes == CarvedNodes(old(nodes), fs, k, placement);
      free := Carved(fs, k, Pieces(fs[k], lo, hi));
    }

    /** Takes an allocation out of block k and writes its header. */
    method TakeFromBlock(prev: nat, current: nat, placement: Placement, ghost k: nat, layout: Layout) returns (p: nat)
      requires Valid() && layout.Valid() && layout.align > 0 && layout.size > 0
      requires k < |free| && current == free[k].start && (if k == 0 then prev == 0 else prev == free[k - 1].start)
      requires Place(free[k], layout) == Some(placement)
      modifies this`nodes, this`freeList, this`free, this`headers, this`live
      ensures Valid() && p == placement.payloadStart && Allocates(old(free), old(live), free, live, p, layout)
      ensures p in live && live[p].block == Block(placement.blockStart, placement.blockSize)
    {
      hide Linked, Normal, Place, Tiled, Headed;
      ghost var fs, block := free, Block(placement.blockStart, placement.blockSize);
      SizeInList(free, k);
      BlockIsFree(fs, k, block);
      PlacedIn(fs[k], layout, placement);
      p := placement.payloadStart;
      CarveBlock(prev, current, placement, k, layout);
      LivePlaced(headers, live);
      TiledTaken(fs, free, live, ranges, p, Allocation(block, layout));
      HeadedTaken(headers, live, p, Allocation(block, layout));
      headers := headers[placement.headerStart := Header(placement.blockStart, placement.blockSize)];
      live := live[p := Allocation(block, layout)];
    }

    /** First fit: the first free block the layout fits. */
    method TryAlloc(layout: Layout) returns (r: Option<nat>)
      requires Valid() && layout.Valid() && layout.align > 0 && layout.size > 0
      modifies this`nodes, this`freeList, this`free, this`headers, this`live
      ensures Valid()
      ensures match r
        case None => free == old(free) && live == old(live) && forall k | 0 <= k < |free| :: !Fits(free[k], layout)
        case Some(p) =>
          && Served(old(free), old(live), free, live, p, layout) && CanFit(old(free), layout)
          && (old(OnWords(free, live)) ==> (OnWords(free, live) <==> EndsOnWord(free, p, layout)))
    {
      hide Normal, Place, Tiled, Headed, Allocates, OnWords, EndsOnWord;
      var prev, current := 0, freeList;
      ghost var k := 0;
      while current != 0
        invariant 0 <= k <= |free| && current == StartAt(free, k) && (if k == 0 then prev == 0 else prev == free[k - 1].start)
        invariant Valid() && free == old(free) && live == old(live)
        invariant forall j | 0 <= j < k :: !Fits(free[j], layout)
        decreases |free| - k
      {
        assert k < |free| && NodeAt(nodes, free, k);
        var placement := Place(Block(current, nodes[current].size), layout);
        assert free[k] == Block(current, nodes[current].size);
        if placement.Some? {
          var p := TakeFromBlock(prev, current, placement.value, k, layout);
          assert FirstFit(old(free), layout, k) && Carves(old(free)[k], layout, p, live[p]);
          if OnWords(old(free), old(live)) { ServedOnWords(old(free), old(live), free, live, p, layout); }
          return Some(p);
        }
        prev, current, k := current, nodes[current].next, k + 1;
      }
      if k < |free| { SizeInList(free, k); }
      return None;
    }

    /** Moves the break up and frees the new range. Afterwards the layout fits, be the new
        block merged with the one before it or not. */
    method Grow(layout: Layout) returns (r: bool)
      requires Valid() && layout.Valid() && layout.align > 0 && layout.size > 0
      modifies this`nodes, this`freeList, this`free, this`ranges, this`brk, this`heapEnd, this`initialized
      ensures Valid() && live == old(live)
      ensures r <==> old(brk) + GrowSize(layout) < brkLimit
      ensures r ==> brk == old(brk) + GrowSize(layout) && CanFit(free, layout)
      ensures r ==> ranges == old(ranges) + [NewRange(old(brk), layout)] && Grew(old(free), free, NewRange(old(brk), layout))
      ensures !r ==> free == old(free) && ranges == old(ranges) && brk == old(brk)
      ensures old(OnWords(free, live)) ==> OnWords(free, live)
    {
      hide AlignUp, MultipleOf, PowerOfTwo, FreeAt, Linked, Normal, Tiled, Headed, OnWords;
      var currentBreak := heapEnd;
      if !initialized {
        currentBreak := SysBrk(0);
      }
      GrowSizeBounds(layout);
      hide GrowSize, CanFit;
      var newBreak := currentBreak + GrowSize(layout);
      assert newBreak < 0x1_0000_0000;
      var actualBreak := SysBrk(newBreak);
      if actualBreak < newBreak {
        return false;
      }
      initialized := true;
      heapEnd := actualBreak;
      AlignUpLeast(currentBreak, WORD_ALIGN);
      var start := AlignUp(currentBreak, WORD_ALIGN);
      if actualBreak <= start {
        assert false;
      }
      var size := actualBreak - start;
      ghost var fs := free;
      AboveRanges(fs, live, ranges, old(brk), Block(start, size));
      InsertFreeBlock(start, size);
      TiledGrown(fs, free, live, ranges, Block(start, size));
      RangesGrow(ranges, Block(start, size));
      ranges := ranges + [Block(start, size)];
      GrownFits(free, old(brk), start, actualBreak, layout);
      if OnWords(fs, live) { FreedOnWords(fs, free, live, Block(start, size)); }
      return true;
    }

    /** Allocates memory for a layout, growing the heap at most once. It fails exactly when
        nothing free fits and the break cannot move far enough. */
    method Alloc(layout: Layout) returns (p: nat, ghost grown: bool)
      requires Valid() && layout.Valid() && layout.align > 0
      modifies this`nodes, this`freeList, this`free, this`headers, this`live, this`ranges, this`brk, this`heapEnd, this`initialized
      ensures Valid()
      ensures layout.size == 0 ==> p == layout.align && free == old(free) && live == old(live) && !grown
      ensures layout.size > 0 && p == 0 ==> free == old(free) && live == old(live) && ranges == old(ranges) && !grown
      ensures layout.size > 0 && p != 0 ==>
        && p !in old(live) && p in live && live == old(live)[p := live[p]] && live[p].layout == layout
        && (!grown ==> Served(old(free), old(live), free, live, p, layout) && ranges == old(ranges) && brk == old(brk))
        && (grown ==> ranges == old(ranges) + [NewRange(old(brk), layout)] && brk == old(brk) + GrowSize(layout))
        && (grown ==> exists fs: Blocks ::
              Grew(old(free), fs, NewRange(old(brk), layout)) && Served(fs, old(live), free, live, p, layout))
      ensures layout.size > 0 ==>
        && (grown || p == 0 <==> !CanFit(old(free), layout))
        && (p == 0 <==> !CanFit(old(free), layout) && old(brk) + GrowSize(layout) >= brkLimit)
      ensures old(OnWords(free, live)) ==>
        (OnWords(free, live) <==> layout.size == 0 || p == 0 || EndsOnWord(free, p, layout))
    {
      hide OnWords, EndsOnWord, Linked, Normal, Tiled, Headed, GrowSize, NewRange, Grew, FirstFit, Carves;
      grown := false;
      if layout.size == 0 {
        return layout.align, grown;
      }
      while true
        invariant Valid() && live == old(live)
        invariant old(OnWords(free, live)) ==> OnWords(free, live)
        invariant !grown ==> free == old(free) && ranges == old(ranges) && brk == old(brk)
        invariant grown ==> CanFit(free, layout) && !CanFit(old(free), layout) && old(brk) + GrowSize(layout) < brkLimit
        invariant grown ==>
          && ranges == old(ranges) + [NewRange(old(brk), layout)] && brk == old(brk) + GrowSize(layout)
          && Grew(old(free), free, NewRange(old(brk), layout))
        decreases !grown
      {
        var tried := TryAlloc(layout);
        if tried.Some? {
          return tried.value, grown;
        }
        var grew := Grow(layout);
        if !grew {
          return 0, grown;
        }
        grown := true;
      }
    }

    /** Returns an allocation to the free list. */
    method Dealloc(p: nat)
      requires Valid() && (p == 0 || p in live)
      modifies this`nodes, this`freeList, this`free, this`live
      ensures Valid() && live == old(live) - {p}
      ensures p == 0 ==> free == old(free) && live == old(live)
      ensures p != 0 ==> forall x: nat :: FreeAt(free, x) <==> FreeAt(old(free), x) || old(live)[p].block.Covers(x)
      ensures old(OnWords(free, live)) ==> OnWords(free, live)
    {
      hide Linked, Normal, OnWords;
      if p == 0 {
        NullNotLive(headers, live);
        return;
      }
      hide Tiled, Headed;
      HeaderOf(headers, live, p);
      var header := headers[p - HEADER_SIZE];
      ghost var fs, block := free, live[p].block;
      LiveIsClear(fs, live, ranges, p);
      InsertFreeBlock(header.blockStart, header.blockSize);
      TiledFreed(fs, free, live, ranges, p);
      if OnWords(fs, live) { BlockFreedOnWords(fs, free, live, p); }
      live := live - {p};
      HeadedLess(headers, old(live), p);
    }

    /** A deallocation right after an allocation that did not grow the heap restores the
        identical free list. */
    method AllocThenDealloc(layout: Layout) returns (ghost grown: bool)
      requires Valid() && layout.Valid() && layout.align > 0 && layout.size > 0
      modifies this`nodes, this`freeList, this`free, this`headers, this`live, this`ranges, this`brk, this`heapEnd, this`initialized
      ensures Valid() && live == old(live)
      ensures !grown ==> free == old(free)
    {
      hide Linked, Normal, Tiled, Headed, GrowSize;
      var p;
      p, grown := Alloc(layout);
      ghost var during := live;
      Dealloc(p);
      if !grown && p != 0 {
        Restored(old(free), old(live), free, during, p, layout);
      }
    }
  }

  ghost predicate CanFit(fs: Blocks, layout: Layout)
    requires layout.align > 0
  {
    exists k :: 0 <= k < |fs| && Fits(fs[k], layout)
  }

  /** How far the break moves for a layout. */
  function GrowSize(layout: Layout): nat
  {
    AlignUp(Max(layout.size + HEADER_SIZE + layout.align + MIN_FREE_BLOCK_SIZE, PAGE_SIZE), PAGE_SIZE)
  }

  lemma GrowSizeBounds(layout: Layout)
    requires layout.Valid()
    ensures layout.size + layout.align + 16 <= GrowSize(layout) <= 0x8000_2000 && GrowSize(layout) >= PAGE_SIZE
  {
    AlignUpLeast(Max(layout.size + HEADER_SIZE + layout.align + MIN_FREE_BLOCK_SIZE, PAGE_SIZE), PAGE_SIZE);
  }

  /** The range that a growth frees: from the old break, aligned, to the new one. */
  function NewRange(brk: nat, layout: Layout): Block
  {
    var start := AlignUp(brk, WORD_ALIGN);
    Block(start, if brk + GrowSize(layout) > start then brk + GrowSize(layout) - start else 0)
  }

  /** The coalesced list after one range was freed. */
  ghost predicate Grew(fs: Blocks, fs': Blocks, b: Block)
  {
    Normal(fs') && forall x: nat :: FreeAt(fs', x) <==> FreeAt(fs, x) || b.Covers(x)
  }

  ghost predicate FirstFit(fs: Blocks, layout: Layout, k: nat)
    requires layout.align > 0
  {
    k < |fs| && Fits(fs[k], layout) && forall j | 0 <= j < k :: !Fits(fs[j], layout)
  }

  /** The allocation is where the layout goes in that block. */
  predicate Carves(b: Block, layout: Layout, p: nat, a: Allocation)
    requires layout.align > 0 && layout.size > 0
  {
    match Place(b, layout)
    case None => false
    case Some(place) => p == place.payloadStart && a.block == Block(place.blockStart, place.blockSize)
  }

  /** The layout was allocated in the first free block that fits it. */
  ghost predicate Served(fs: Blocks, live: Live, fs': Blocks, live': Live, p: nat, layout: Layout)
    requires layout.align > 0 && layout.size > 0
  {
    && Allocates(fs, live, fs', live', p, layout) && p in live'
    && exists k: nat :: FirstFit(fs, layout, k) && Carves(fs[k], layout, p, live'[p])
  }

  /** A new live block was cut from the free bytes, with its payload placed in it. */
  ghost predicate Allocates(fs: Blocks, live: Live, fs': Blocks, live': Live, p: nat, layout: Layout)
  {
    && p !in live && p != 0 && p in live' && live' == live[p := live'[p]] && live'[p].layout == layout
    && Placed(p, live'[p])
    && (forall x: nat | live'[p].block.Covers(x) :: FreeAt(fs, x))
    && (forall x: nat :: FreeAt(fs', x) <==> FreeAt(fs, x) && !live'[p].block.Covers(x))
  }

  // ----- word alignment -----

  /** Every free node is word-aligned, and so is every block that will become one. */
  ghost predicate OnWords(fs: Blocks, live: Live)
  {
    && (forall i: nat | i < |fs| :: MultipleOf(fs[i].start, WORD_ALIGN))
    && forall p | p in live :: MultipleOf(live[p].block.start, WORD_ALIGN)
  }

  /** No free node begins right behind the payload, or it begins on a word. */
  ghost predicate EndsOnWord(fs: Blocks, p: nat, layout: Layout)
  {
    layout.size % WORD_ALIGN == 0 || !FreeAt(fs, p + layout.size)
  }

  /** A request of odd size can put a node where no word begins. */
  lemma OddSizeStrays()
    ensures var place := Place(Block(0x1000, 0x1000), Layout(5, 1));
      && Layout(5, 1).Valid() && place.Some? && place.value.suffixSize >= MIN_FREE_BLOCK_SIZE
      && !MultipleOf(place.value.suffixStart, WORD_ALIGN)
  {
    assert AlignUp(0x1008, 4) == 0x1008;
  }

  /** A block begins where a free byte follows one that is not. */
  lemma Front(fs: Blocks, i: nat)
    requires Normal(fs) && i < |fs|
    ensures fs[i].start > 0 && FreeAt(fs, fs[i].start) && !FreeAt(fs, fs[i].start - 1)
  {
    SizeAt(fs, i);
    Covered(fs, i, fs[i].start);
    forall j: nat | j < |fs| ensures !fs[j].Covers(fs[i].start - 1) {
      if j < i { OrderAt(fs, {}, j, i); } else if j > i { OrderAt(fs, {}, i, j); }
    }
  }

  lemma FrontAligned(fs: Blocks, live: Live, x: nat)
    requires OnWords(fs, live) && x > 0 && FreeAt(fs, x) && !FreeAt(fs, x - 1)
    ensures MultipleOf(x, WORD_ALIGN)
  {
    var i: nat :| i < |fs| && fs[i].Covers(x);
    assert !fs[i].Covers(x - 1);
  }

  lemma FreedOnWords(fs: Blocks, fs': Blocks, live: Live, b: Block)
    requires OnWords(fs, live) && Normal(fs') && MultipleOf(b.start, WORD_ALIGN)
    requires forall x: nat :: FreeAt(fs', x) <==> FreeAt(fs, x) || b.Covers(x)
    ensures OnWords(fs', live)
  {
    hide Normal, FreeAt, MultipleOf;
    forall i: nat | i < |fs'| ensures MultipleOf(fs'[i].start, WORD_ALIGN) {
      Front(fs', i);
      if FreeAt(fs, fs'[i].start) { FrontAligned(fs, live, fs'[i].start); }
    }
  }

  lemma BlockFreedOnWords(fs: Blocks, fs': Blocks, live: Live, p: nat)
    requires OnWords(fs, live) && Normal(fs') && p in live
    requires forall x: nat :: FreeAt(fs', x) <==> FreeAt(fs, x) || live[p].block.Covers(x)
    ensures OnWords(fs', live - {p})
  {
    hide Normal, FreeAt, MultipleOf;
    FreedOnWords(fs, fs', live, live[p].block);
  }

  lemma WordMultiple(x: nat, layout: Layout)
    requires layout.Valid() && MultipleOf(x, PayloadAlign(layout))
    ensures MultipleOf(x, WORD_ALIGN)
  {
    var a := PayloadAlign(layout);
    if a > WORD_ALIGN {
      assert PowerOfTwo(a / 2) && PowerOfTwo(a / 2 / 2);
      Division(x, WORD_ALIGN, x / a * (a / 4), 0);
    }
  }

  /** Where the placement lies, in words. */
  lemma PlaceOnWords(b: Block, layout: Layout)
    requires layout.Valid() && layout.align > 0 && layout.size > 0 && Fits(b, layout) && MultipleOf(b.start, WORD_ALIGN)
    ensures var place := Place(b, layout).value;
      && MultipleOf(place.payloadStart, WORD_ALIGN) && MultipleOf(place.blockStart, WORD_ALIGN)
      && (place.suffixStart == place.payloadStart + layout.size || place.suffixStart == b.End())
  {
    hide AlignUp, MultipleOf, PowerOfTwo;
    var p := PayloadAt(b.start, layout);
    AlignUpLeast(b.start + HEADER_SIZE, PayloadAlign(layout));
    WordMultiple(p, layout);
    HeaderOnWord(p);
  }

  lemma HeaderOnWord(p: nat)
    requires MultipleOf(p, WORD_ALIGN) && p >= HEADER_SIZE
    ensures MultipleOf(p - HEADER_SIZE, WORD_ALIGN)
  {
  }

  /** An allocation keeps the nodes on words exactly when no node begins behind its payload
      or its size is a whole number of words. */
  lemma ServedOnWords(fs: Blocks, live: Live, fs': Blocks, live': Live, p: nat, layout: Layout)
    requires layout.Valid() && layout.align > 0 && layout.size > 0
    requires OnWords(fs, live) && Normal(fs) && Normal(fs') && Served(fs, live, fs', live', p, layout)
    ensures OnWords(fs', live') <==> EndsOnWord(fs', p, layout)
  {
    hide Normal, FreeAt, MultipleOf, Place, Fits;
    var k: nat :| FirstFit(fs, layout, k) && Carves(fs[k], layout, p, live'[p]);
    var b, end := live'[p].block, p + layout.size;
    PlaceOnWords(fs[k], layout);
    EndNotFree(fs, k);
    if EndsOnWord(fs', p, layout) {
      forall i: nat | i < |fs'| ensures MultipleOf(fs'[i].start, WORD_ALIGN) {
        Front(fs', i);
        var x := fs'[i].start;
        if FreeAt(fs, x - 1) { AfterPayload(p, layout, x); } else { FrontAligned(fs, live, x); }
      }
    } else if OnWords(fs', live') {
      assert FreeAt(fs', end) && !FreeAt(fs', end - 1);
      FrontAligned(fs', live', end);
      AfterPayload(p, layout, end);
    }
  }

  /** x can hold a payload: the layout and the header before it ask for that. */
  predicate PayloadCan(x: nat, layout: Layout)
    requires layout.align > 0
  {
    MultipleOf(x, layout.align) && MultipleOf(x, WORD_ALIGN)
  }

  /** The payload is at the lowest address that can hold it and leaves room for the header; the
      header is right before it; and in front and behind only what is too small to be a free
      block goes with the allocation. */
  lemma PlaceTight(b: Block, layout: Layout)
    requires layout.Valid() && layout.align > 0 && layout.size > 0 && Fits(b, layout)
    ensures var place := Place(b, layout).value; var end := place.payloadStart + layout.size;
      && b.start + 8 <= place.payloadStart && PayloadCan(place.payloadStart, layout)
      && (forall x: nat | b.start + 8 <= x < place.payloadStart :: !PayloadCan(x, layout))
      && place.headerStart + 8 == place.payloadStart
      && place.blockStart == (if place.headerStart - b.start < 8 then b.start else place.headerStart)
      && place.blockStart + place.blockSize == (if b.End() - end < 8 then b.End() else end)
  {
    hide AlignUp, MultipleOf, PowerOfTwo;
    var p, a := PayloadAt(b.start, layout), PayloadAlign(layout);
    AlignUpLeast(b.start + HEADER_SIZE, a);
    PayloadAligned(layout, p);
    WordMultiple(p, layout);
    forall x: nat | b.start + 8 <= x < p ensures !PayloadCan(x, layout) {
      if PayloadCan(x, layout) { MultiplesApart(x, p, a); }
    }
  }

  /** The break moves by the least number of whole pages that holds the payload, its header,
      its alignment and one more free block; the new range begins on the next word. */
  lemma GrowLeast(layout: Layout, brk: nat)
    requires layout.Valid()
    ensures var wanted := Max(layout.size + 8 + layout.align + 8, 4096);
      wanted <= GrowSize(layout) < wanted + 4096 && MultipleOf(GrowSize(layout), 4096)
    ensures var b := NewRange(brk, layout);
      brk <= b.start < brk + 4 && MultipleOf(b.start, 4) && b.End() == brk + GrowSize(layout)
  {
    AlignUpLeast(Max(layout.size + HEADER_SIZE + layout.align + MIN_FREE_BLOCK_SIZE, PAGE_SIZE), PAGE_SIZE);
    AlignUpLeast(brk, WORD_ALIGN);
    hide AlignUp, MultipleOf;
  }

  lemma AfterPayload(p: nat, layout: Layout, x: nat)
    requires MultipleOf(p, WORD_ALIGN)
    ensures x == p + layout.size ==> (MultipleOf(x, WORD_ALIGN) <==> layout.size % WORD_ALIGN == 0)
  {
  }

  // ----- facts about insertion -----

  /** The address of a block that is clear of the list is not one of the list. */
  lemma NewAddress(fs: Blocks, b: Block)
    requires Ordered(fs) && Clear(fs, b) && b.size > 0
    ensures forall i | 0 <= i < |fs| :: fs[i].start != b.start
  {
    forall i: nat | i < |fs| ensures fs[i].start != b.start {
      SizeAt(fs, i);
      Covered(fs, i, fs[i].start);
    }
  }

  /** Writing a node there leaves the list as it was. */
  lemma NewNode(nodes: Nodes, head: nat, fs: Blocks, b: Block)
    requires Linked(nodes, head, fs) && Normal(fs) && Clear(fs, b) && b.size > 0
    ensures Linked(nodes[b.start := FreeBlock(b.size, 0)], head, fs)
  {
    NewAddress(fs, b);
    hide Ordered, ApartBut, Clear;
    var nodes' := nodes[b.start := FreeBlock(b.size, 0)];
    forall i: nat | i < |fs| ensures NodeAt(nodes', fs, i) {
      assert NodeAt(nodes, fs, i);
    }
  }

  lemma FrontException(fs: Blocks)
    requires ApartBut(fs, {-1, 0})
    ensures ApartBut(fs, {} + {0})
  {
  }

  lemma TwoExceptions(fs: Blocks, k: int)
    requires ApartBut(fs, {k - 1, k})
    ensures ApartBut(fs, {k - 1} + {k})
  {
  }

  lemma OneException(fs: Blocks, k: int)
    requires ApartBut(fs, {k})
    ensures ApartBut(fs, {} + {k})
  {
  }

  lemma FrontPosition(fs: Blocks, b: Block)
    requires Ordered(fs) && (fs == [] || b.start < fs[0].start)
    ensures Position(fs, 0, b.start)
  {
    forall i: nat | i < |fs| ensures b.start < fs[i].start {
      if i > 0 { assert fs[0].End() <= fs[i].start; }
    }
  }

  lemma PositionFound(fs: Blocks, k: nat, start: nat)
    requires Ordered(fs) && 0 < k <= |fs| && fs[k - 1].start < start && (k < |fs| ==> fs[k].start > start)
    ensures Position(fs, k, start)
  {
    forall i: nat | i < |fs|
      ensures i < k ==> fs[i].start < start
      ensures i >= k ==> start < fs[i].start
    {
      if i < k - 1 { assert fs[i].End() <= fs[k - 1].start; }
      if i > k { assert fs[k].End() <= fs[i].start; }
    }
  }

  lemma NotCoalesced(fs: Blocks, k: nat)
    requires k < |fs| && (k + 1 < |fs| ==> fs[k].End() != fs[k + 1].start)
    ensures Coalesced(fs, k) == fs
  {
  }

  /** Merging block k leaves the blocks before it. */
  lemma CoalescedKeeps(fs: Blocks, k: nat, i: nat)
    requires k < |fs| && i < k
    ensures i < |Coalesced(fs, k)| && Coalesced(fs, k)[i] == fs[i]
  {
  }

  lemma SizeInList(fs: Blocks, k: nat)
    requires Normal(fs) && k < |fs|
    ensures fs[k].size >= MIN_FREE_BLOCK_SIZE && fs[k].start > 0
  {
    SizeAt(fs, k);
  }

  lemma BlockIsFree(fs: Blocks, k: nat, b: Block)
    requires k < |fs| && fs[k].start <= b.start && b.End() <= fs[k].End()
    ensures forall x: nat | b.Covers(x) :: FreeAt(fs, x)
  {
    forall x: nat | b.Covers(x) ensures FreeAt(fs, x) {
      Covered(fs, k, x);
    }
  }

  lemma PlacedIn(b: Block, layout: Layout, placement: Placement)
    requires layout.Valid() && layout.align > 0 && layout.size > 0 && b.start > 0 && Place(b, layout) == Some(placement)
    ensures Placed(placement.payloadStart, Allocation(Block(placement.blockStart, placement.blockSize), layout))
    ensures b.start <= placement.blockStart && placement.blockStart + placement.blockSize <= b.End()
  {
    AlignUpLeast(b.start + HEADER_SIZE, PayloadAlign(layout));
    PayloadAligned(layout, placement.payloadStart);
    hide Place, AlignUp;
  }

  // ----- facts about tiling -----

  lemma LiveCovered(live: Live, p: nat, x: nat)
    requires p in live && live[p].block.Covers(x)
    ensures LiveAt(live, x)
  {
  }

  lemma TiledTaken(fs: Blocks, fs': Blocks, live: Live, ranges: Blocks, p: nat, a: Allocation)
    requires Tiled(fs, live, ranges) && Placed(p, a)
    requires forall x: nat | a.block.Covers(x) :: FreeAt(fs, x)
    requires forall x: nat :: FreeAt(fs', x) <==> FreeAt(fs, x) && !a.block.Covers(x)
    requires forall q | q in live :: Placed(q, live[q])
    ensures p !in live && Tiled(fs', live[p := a], ranges)
  {
    hide FreeAt;
    PayloadInBlock(p, a);
    if p in live {
      PayloadInBlock(p, live[p]);
      LiveCovered(live, p, p);
    }
    var live' := live[p := a];
    forall x: nat ensures LiveAt(live', x) <==> LiveAt(live, x) || a.block.Covers(x) {
      if LiveAt(live', x) && !a.block.Covers(x) {
        var q :| q in live' && live'[q].block.Covers(x);
        LiveCovered(live, q, x);
      }
      if LiveAt(live, x) {
        var q :| q in live && live[q].block.Covers(x);
        LiveCovered(live', q, x);
      }
      if a.block.Covers(x) { LiveCovered(live', p, x); }
    }
    forall q, q', x: nat | q in live' && q' in live' && live'[q].block.Covers(x) && live'[q'].block.Covers(x) ensures q == q' {
      if q != q' && q == p { LiveCovered(live, q', x); }
      if q != q' && q' == p { LiveCovered(live, q, x); }
    }
  }

  lemma LivePlaced(headers: map<nat, Header>, live: Live)
    requires Headed(headers, live)
    ensures forall q | q in live :: Placed(q, live[q])
  {
  }

  lemma PayloadInBlock(p: nat, a: Allocation)
    requires Placed(p, a)
    ensures a.block.Covers(p)
  {
  }

  lemma HeadedTaken(headers: map<nat, Header>, live: Live, p: nat, a: Allocation)
    requires Headed(headers, live) && Placed(p, a) && p !in live
    ensures Headed(headers[p - HEADER_SIZE := Header(a.block.start, a.block.size)], live[p := a])
  {
    forall q | q in live ensures q - HEADER_SIZE != p - HEADER_SIZE {
    }
  }

  lemma HeadedLess(headers: map<nat, Header>, live: Live, p: nat)
    requires Headed(headers, live)
    ensures Headed(headers, live - {p})
  {
  }

  lemma HeaderOf(headers: map<nat, Header>, live: Live, p: nat)
    requires Headed(headers, live) && p in live
    ensures p >= HEADER_SIZE && p - HEADER_SIZE in headers && live[p].block.start > 0
    ensures headers[p - HEADER_SIZE] == Header(live[p].block.start, live[p].block.size)
    ensures live[p].block.size >= MIN_FREE_BLOCK_SIZE
  {
  }

  lemma NullNotLive(headers: map<nat, Header>, live: Live)
    requires Headed(headers, live)
    ensures 0 !in live && live - {0} == live
  {
  }

  lemma LiveIsClear(fs: Blocks, live: Live, ranges: Blocks, p: nat)
    requires Tiled(fs, live, ranges) && p in live
    ensures Clear(fs, live[p].block)
  {
    forall x: nat | live[p].block.Covers(x) ensures !FreeAt(fs, x) {
      LiveCovered(live, p, x);
    }
  }

  lemma TiledFreed(fs: Blocks, fs': Blocks, live: Live, ranges: Blocks, p: nat)
    requires Tiled(fs, live, ranges) && p in live
    requires forall x: nat :: FreeAt(fs', x) <==> FreeAt(fs, x) || live[p].block.Covers(x)
    ensures Tiled(fs', live - {p}, ranges)
  {
    hide FreeAt;
    var live' := live - {p};
    forall x: nat ensures LiveAt(live', x) <==> LiveAt(live, x) && !live[p].block.Covers(x) {
      if LiveAt(live', x) {
        var q :| q in live' && live'[q].block.Covers(x);
        LiveCovered(live, q, x);
      }
      if LiveAt(live, x) && !live[p].block.Covers(x) {
        var q :| q in live && live[q].block.Covers(x);
        LiveCovered(live', q, x);
      }
    }
    forall x: nat | live[p].block.Covers(x) ensures LiveAt(live, x) {
      LiveCovered(live, p, x);
    }
  }

  lemma RangesGrow(ranges: Blocks, b: Block)
    ensures forall x: nat :: FreeAt(ranges + [b], x) <==> FreeAt(ranges, x) || b.Covers(x)
  {
    InsertedCovers(ranges, |ranges|, b);
    assert Inserted(ranges, |ranges|, b) == ranges + [b];
  }

  /** A range above the old break is clear of everything. */
  lemma AboveRanges(fs: Blocks, live: Live, ranges: Blocks, brk: nat, b: Block)
    requires Tiled(fs, live, ranges) && brk <= b.start && forall x: nat | FreeAt(ranges, x) :: x < brk
    ensures Clear(fs, b) && forall x: nat | b.Covers(x) :: !FreeAt(ranges, x)
  {
  }

  lemma TiledGrown(fs: Blocks, fs': Blocks, live: Live, ranges: Blocks, b: Block)
    requires Tiled(fs, live, ranges) && forall x: nat | b.Covers(x) :: !FreeAt(ranges, x)
    requires forall x: nat :: FreeAt(fs', x) <==> FreeAt(fs, x) || b.Covers(x)
    ensures Tiled(fs', live, ranges + [b])
  {
    RangesGrow(ranges, b);
    hide FreeAt, LiveAt;
  }

  /** Consecutive free bytes lie in one block of a coalesced list. */
  lemma OneBlock(fs: Blocks, lo: nat, hi: nat) returns (k: nat)
    requires Normal(fs) && lo < hi && forall x: nat | lo <= x < hi :: FreeAt(fs, x)
    ensures k < |fs| && fs[k].start <= lo && hi <= fs[k].End()
  {
    assert FreeAt(fs, lo);
    k :| k < |fs| && fs[k].Covers(lo);
    if fs[k].End() < hi {
      EndNotFree(fs, k);
    }
  }

  lemma EndNotFree(fs: Blocks, k: nat)
    requires Normal(fs) && k < |fs|
    ensures !FreeAt(fs, fs[k].End())
  {
    forall i: nat | i < |fs| ensures !fs[i].Covers(fs[k].End()) {
      SizeAt(fs, k);
      if i < k { OrderAt(fs, {}, i, k); } else if i > k { OrderAt(fs, {}, k, i); }
    }
  }

  /** After growing, the block that holds the new range fits the layout, wherever it
      starts. */
  lemma GrownFits(fs: Blocks, brk: nat, start: nat, end: nat, layout: Layout)
    requires Normal(fs) && layout.Valid() && layout.align > 0 && layout.size > 0
    requires brk <= start < brk + WORD_ALIGN && end == brk + GrowSize(layout)
    requires forall x: nat | start <= x < end :: FreeAt(fs, x)
    ensures CanFit(fs, layout)
  {
    GrowSizeBounds(layout);
    hide GrowSize, Normal, FreeAt;
    var k := OneBlock(fs, start, end);
    AlignUpMonotone(fs[k].start + HEADER_SIZE, start + HEADER_SIZE, PayloadAlign(layout));
    AlignUpLeast(start + HEADER_SIZE, PayloadAlign(layout));
    hide AlignUp;
    assert Fits(fs[k], layout);
  }

  lemma Restored(fs: Blocks, live: Live, fs': Blocks, during: Live, p: nat, layout: Layout)
    requires Normal(fs) && Normal(fs') && p in during
    requires exists gs: Blocks :: Allocates(fs, live, gs, during, p, layout)
               && forall x: nat :: FreeAt(fs', x) <==> FreeAt(gs, x) || during[p].block.Covers(x)
    ensures fs' == fs
  {
    hide Normal, FreeAt;
    Canonical(fs', fs);
  }

  /** Freeing everything, in whatever order, leaves one list, that of the grown ranges. */
  lemma AllFreed(fs: Blocks, gs: Blocks, ranges: Blocks)
    requires Normal(fs) && Normal(gs) && Tiled(fs, map[], ranges) && Tiled(gs, map[], ranges)
    ensures fs == gs
  {
    hide Normal, FreeAt;
    assert forall x: nat :: !LiveAt(map[], x);
    Canonical(fs, gs);
  }
}
