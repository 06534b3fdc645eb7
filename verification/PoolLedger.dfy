/**
 * What a vbus owns, and the facts about it that hpt_alloc_mem and hpt_free_mem
 * (osm/linux/osm_linux.c) rest on. The kernel's allocators keep a ledger of what they gave out;
 * giving something back that is not in the ledger, or touching memory that was given back, is a
 * precondition violation in module Pools.
 */
module PoolLedger {
  import opened Words
  import opened FreeLists

  const PAGE_SIZE: nat := 0x1000

  /** The width of a link and of a bus address. */
  const WORD: nat := 8

  /** __get_free_pages(order) or kmalloc(size) */
  datatype Origin = Pages(order: nat) | Slab(size: nat)

  /** What a chunk is used for; Loose between two allocator calls. */
  datatype Owner = InList(list: FreeList) | InPool | SdFlags | Loose

  datatype Chunk = Chunk(origin: Origin, owner: Owner)

  /** What the kernel has given out: start address to chunk. */
  type Ledger = map<nat, Chunk>

  function Extent(o: Origin): nat
  {
    match o
    case Pages(order) => PAGE_SIZE * Pow2(order)
    case Slab(size) => size
  }

  /** The n bytes from p and the m bytes from q do not overlap. */
  predicate Apart(p: nat, n: nat, q: nat, m: nat) { p + n <= q || q + m <= p }

  predicate Inside(p: nat, n: nat, q: nat, m: nat) { q <= p && p + n <= q + m }

  // ----- carving arithmetic

  /** The loop that doubles a page until it is large enough. */
  function OrderFrom(size: nat, span: nat): nat
    requires span > 0
    decreases size - span
  {
    if span < size then 1 + OrderFrom(size, 2 * span) else 0
  }

  function OrderFor(size: nat): nat { OrderFrom(size, PAGE_SIZE) }

  lemma {:induction false} OrderFromFits(size: nat, span: nat)
    requires span > 0
    ensures var order := OrderFrom(size, span);
            size <= span * Pow2(order) && (order > 0 ==> span * Pow2(order) < 2 * size)
    decreases size - span
  {
    if span < size {
      OrderFromFits(size, 2 * span);
      var rest := OrderFrom(size, 2 * span);
      assert Pow2(1 + rest) == 2 * Pow2(rest);
      assert span * (2 * Pow2(rest)) == 2 * span * Pow2(rest);
    }
  }

  method ComputeOrder(size: nat) returns (order: nat, span: nat)
    ensures order == OrderFor(size) && span == Extent(Pages(order)) && size <= span
    ensures order > 0 ==> span < 2 * size
  {
    order, span := 0, PAGE_SIZE;
    while span < size
      invariant span == PAGE_SIZE * Pow2(order) && span > 0
      invariant OrderFor(size) == order + OrderFrom(size, span)
      decreases size - span
    {
      order, span := order + 1, 2 * span;
    }
    OrderFromFits(size, PAGE_SIZE);
  }

  /** A list that needs more than a page gets exactly one block from each chunk. */
  lemma BigChunkHoldsOne(size: nat)
    requires OrderFor(size) > 0
    ensures size > 0 && Extent(Pages(OrderFor(size))) / size == 1
  {
    OrderFromFits(size, PAGE_SIZE);
    var span := Extent(Pages(OrderFor(size)));
    DivModUnique(span, size, 1, span - size);
  }

  /** The most blocks of this size that fit the chunk they are cut from. */
  function PerChunk(size: nat): (k: nat)
    requires size > 0
    ensures k > 0 && k * size <= Extent(Pages(OrderFor(size))) < (k + 1) * size
  {
    OrderFromFits(size, PAGE_SIZE);
    RoomInSpan(size, Extent(Pages(OrderFor(size))));
    Extent(Pages(OrderFor(size))) / size
  }

  /** n is the least number of k at a time that makes up the count. */
  predicate Least(n: nat, k: nat, count: nat)
  {
    n * k >= count && (n > 0 ==> (n - 1) * k < count)
  }

  /** After n chunks of at most k blocks: all are full, or the count is reached with the last of them. */
  ghost predicate Filled(n: nat, k: nat, i: nat, count: nat)
  {
    if i < count then i == n * k else i == count && Least(n, k, count)
  }

  lemma NothingFilled(k: nat, count: nat)
    ensures Filled(0, k, 0, count)
  {
  }

  lemma AllFilled(n: nat, k: nat, i: nat, count: nat)
    requires Filled(n, k, i, count) && i >= count
    ensures i == count && Least(n, k, count)
  {
  }

  lemma FillsOneMore(n: nat, k: nat, i: nat, i': nat, count: nat)
    requires Filled(n, k, i, count) && i < count && k > 0
    requires i' == if i + k < count then i + k else count
    ensures Filled(n + 1, k, i', count)
  {
    assert (n + 1) * k == n * k + k;
  }

  /** Of the blocks inside one page, only the first is page aligned. */
  lemma InteriorNotAligned(c: nat, p: nat)
    requires c % PAGE_SIZE == 0 && c < p < c + PAGE_SIZE
    ensures p % PAGE_SIZE != 0
  {
  }

  // ----- what the ledger and one list promise

  ghost predicate Mapped(cells: Heap, p: nat, n: nat)
  {
    forall a: nat :: p <= a < p + n ==> a in cells
  }

  function SpanOf(live: Ledger, c: nat): nat
    requires c in live
  {
    Extent(live[c].origin)
  }

  ghost predicate KernelOk(cells: Heap, live: Ledger)
  {
    && (forall c :: c in live ==> c != NULL && SpanOf(live, c) > 0 && Mapped(cells, c, SpanOf(live, c)))
    && (forall c :: c in live && live[c].origin.Pages? ==> c % PAGE_SIZE == 0)
    && (forall c, d :: c in live && d in live && c != d ==> Apart(c, SpanOf(live, c), d, SpanOf(live, d)))
  }

  function OriginFor(dma: bool, size: nat): Origin
  {
    if dma then Pages(OrderFor(size)) else Slab(size)
  }

  /** What the free lists write into a block: the link, and for a DMA block its bus address. */
  function LinkBytes(dma: bool): (n: nat)
    ensures n > 0
  {
    if dma then 2 * WORD else WORD
  }

  /**
   * What freelist_reserve is called with: blocks that hold the words written into them, and DMA sizes
   * that are multiples of an alignment that divides a page.
   */
  ghost predicate WellSized(f: FreeList)
  {
    && f.size >= LinkBytes(f.dma)
    && (f.dma ==> f.alignment > 0 && f.size % f.alignment == 0 && PAGE_SIZE % f.alignment == 0)
  }

  /** b is a proper block of a list: aligned, and inside a chunk that belongs to the list. */
  ghost predicate BlockOk(f: FreeList, home: map<nat, nat>, live: Ledger, b: nat)
    requires WellSized(f) && b in home
  {
    var c := home[b];
    && b != NULL && c in live && live[c] == Chunk(OriginFor(f.dma, f.size), InList(f))
    && Inside(b, f.size, c, SpanOf(live, c))
    && (f.dma ==> b % f.alignment == 0)
    && (b == c || (f.dma && OrderFor(f.size) == 0 && b % PAGE_SIZE != 0))
  }

  ghost predicate BlocksApart(f: FreeList, home: map<nat, nat>)
  {
    forall b, d :: b in home && d in home && b != d ==> Apart(b, f.size, d, f.size)
  }

  /** The blocks of a list: each proper, and no two overlapping. */
  ghost predicate Carved(f: FreeList, home: map<nat, nat>, live: Ledger)
  {
    && WellSized(f)
    && (forall b :: b in home ==> BlockOk(f, home, live, b))
    && BlocksApart(f, home)
  }

  /** The words that the list code writes into a block lie in its chunk, and in no other block. */
  lemma LinksInside(f: FreeList, home: map<nat, nat>, live: Ledger, p: nat)
    requires Carved(f, home, live) && p in home
    ensures home[p] in live && Inside(p, LinkBytes(f.dma), home[p], SpanOf(live, home[p]))
    ensures forall b :: b in home && b != p ==> Apart(p, LinkBytes(f.dma), b, f.size)
  {
    assert BlockOk(f, home, live, p);
  }

  /** Every chunk of the list starts with a block. */
  ghost predicate Complete(f: FreeList, home: map<nat, nat>, live: Ledger)
  {
    forall c :: c in live && live[c].owner == InList(f) ==> c in home && home[c] == c
  }

  predicate InRange(a: nat, p: nat, n: nat) { p <= a < p + n }

  ghost predicate Unmapped(cells: Heap, p: nat, n: nat)
  {
    forall a: nat :: p <= a < p + n ==> a !in cells
  }

  /** Memory outside the n bytes from p is as before. */
  ghost predicate SameOutside(cells: Heap, cells': Heap, p: nat, n: nat)
  {
    forall a: nat :: a in cells && !InRange(a, p, n) ==> a in cells' && cells'[a] == cells[a]
  }

  ghost function ChunksOf(f: FreeList, live: Ledger): set<nat>
  {
    set c | c in live && live[c].owner == InList(f)
  }

  /** The list owns no more chunks than its blocks need. */
  ghost predicate Thrifty(f: FreeList, live: Ledger)
    requires f.size > 0
    reads f
  {
    if f.dma then Least(|ChunksOf(f, live)|, PerChunk(f.size), f.count) else |ChunksOf(f, live)| == f.count
  }

  lemma ChunksGain(f: FreeList, live: Ledger, c: nat, o: Origin)
    requires c !in live
    ensures |ChunksOf(f, live[c := Chunk(o, InList(f))])| == |ChunksOf(f, live)| + 1
  {
    assert ChunksOf(f, live[c := Chunk(o, InList(f))]) == ChunksOf(f, live) + {c};
  }

  lemma NoChunksYet(f: FreeList, busOffset: nat, cells: Heap, live: Ledger)
    requires Filling(f, 0, busOffset, cells, live) && Complete(f, f.home, live)
    ensures ChunksOf(f, live) == {}
  {
    assert f.home.Keys == Addrs([]) == {};
  }

  lemma FillingDone(f: FreeList, busOffset: nat, cells: Heap, live: Ledger)
    requires Filling(f, f.count, busOffset, cells, live) && Complete(f, f.home, live)
    ensures ListOk(f, busOffset, cells, live)
  {
    hide Linked, Complete, Carved, OwnBus;
  }

  lemma FillingSized(f: FreeList, i: nat, busOffset: nat, cells: Heap, live: Ledger)
    requires Filling(f, i, busOffset, cells, live)
    ensures f.size > 0
  {
  }

  ghost predicate AllThrifty(fs: seq<FreeList>, n: nat, live: Ledger)
    reads fs
  {
    n <= |fs| && forall j :: 0 <= j < n ==> fs[j].size > 0 && Thrifty(fs[j], live)
  }

  lemma ThriftyKept(fs: seq<FreeList>, n: nat, owner: Owner, cells: Heap, live: Ledger, cells': Heap, live': Ledger)
    requires AllThrifty(fs, n, live) && KeepsOthers(owner, cells, live, cells', live')
    requires forall j :: 0 <= j < n ==> owner != InList(fs[j])
    ensures AllThrifty(fs, n, live')
  {
    forall j | 0 <= j < n
      ensures ChunksOf(fs[j], live') == ChunksOf(fs[j], live)
    {
    }
  }

  /** Mapped and unmapped memory do not overlap. */
  lemma SharedByte(p: nat, n: nat, q: nat, m: nat, cells: Heap)
    requires n > 0 && m > 0 && Mapped(cells, p, n) && Unmapped(cells, q, m)
    ensures Apart(p, n, q, m)
  {
    var a := if p <= q then q else p;
    assert InRange(a, p, n) ==> a in cells;
    assert InRange(a, q, m) ==> a !in cells;
  }

  lemma KernelAdd(cells: Heap, live: Ledger, cells': Heap, p: nat, chunk: Chunk)
    requires KernelOk(cells, live) && p != NULL && Extent(chunk.origin) > 0
    requires chunk.origin.Pages? ==> p % PAGE_SIZE == 0
    requires Unmapped(cells, p, Extent(chunk.origin)) && Mapped(cells', p, Extent(chunk.origin))
    requires SameOutside(cells, cells', p, Extent(chunk.origin))
    ensures p !in live && KernelOk(cells', live[p := chunk])
  {
    var n := Extent(chunk.origin);
    forall c | c in live
      ensures c != p && Apart(c, SpanOf(live, c), p, n) && Mapped(cells', c, SpanOf(live, c))
    {
      SharedByte(c, SpanOf(live, c), p, n, cells);
    }
    var live' := live[p := chunk];
    assert forall c :: c in live ==> SpanOf(live', c) == SpanOf(live, c);
    assert SpanOf(live', p) == n;
  }

  lemma KernelRemove(cells: Heap, live: Ledger, cells': Heap, p: nat)
    requires KernelOk(cells, live) && p in live
    requires SameOutside(cells, cells', p, SpanOf(live, p))
    ensures KernelOk(cells', live - {p})
  {
    var live' := live - {p};
    forall c | c in live'
      ensures Mapped(cells', c, SpanOf(live', c))
    {
      assert Apart(c, SpanOf(live, c), p, SpanOf(live, p));
      assert SpanOf(live', c) == SpanOf(live, c);
    }
    assert forall c :: c in live' ==> SpanOf(live', c) == SpanOf(live, c);
  }

  /** A write inside a chunk. */
  lemma KernelWrite(cells: Heap, live: Ledger, p: nat, cell: Cell)
    requires KernelOk(cells, live) && p in cells
    ensures KernelOk(cells[p := cell], live)
  {
    assert forall c :: c in live ==> Mapped(cells[p := cell], c, SpanOf(live, c));
  }

  /** Any number of writes. */
  lemma KernelWrites(cells: Heap, live: Ledger, content: Heap)
    requires KernelOk(cells, live) && content.Keys <= cells.Keys
    ensures KernelOk(cells + content, live)
  {
    assert forall c :: c in live ==> Mapped(cells + content, c, SpanOf(live, c));
  }

  // ----- one list and its place in the ledger

  /** Every DMA block carries its own bus address (virt_to_bus is a fixed offset). */
  ghost predicate OwnBus(chain: seq<Block>, busOffset: nat)
  {
    forall i :: 0 <= i < |chain| ==> chain[i].bus == chain[i].addr + busOffset
  }

  /** The blocks of f are its free chain plus those handed out, all carved from chunks of f. */
  ghost predicate ListOk(f: FreeList, busOffset: nat, cells: Heap, live: Ledger)
    reads f
  {
    && Linked(cells, f.head, f.chain) && |f.chain| == f.count + f.unused
    && Addrs(f.chain) + f.out == f.home.Keys && Addrs(f.chain) !! f.out
    && Carved(f, f.home, live) && Complete(f, f.home, live)
    && (f.dma ==> OwnBus(f.chain, busOffset))
  }

  /** What a step on behalf of one owner may do to everybody else's chunks: nothing. */
  ghost predicate KeepsOthers(owner: Owner, cells: Heap, live: Ledger, cells': Heap, live': Ledger)
  {
    && (forall c :: c in live && live[c].owner != owner ==>
          c in live' && live'[c] == live[c] && forall a: nat :: InRange(a, c, SpanOf(live, c)) && a in cells ==>
                                                a in cells' && cells'[a] == cells[a])
    && (forall c :: c in live' ==> live'[c].owner in {owner, InPool} || (c in live && live'[c] == live[c]))
  }

  lemma ListOkFrame(f: FreeList, busOffset: nat, owner: Owner, cells: Heap, live: Ledger, cells': Heap, live': Ledger)
    requires ListOk(f, busOffset, cells, live) && owner != InList(f)
    requires KeepsOthers(owner, cells, live, cells', live')
    ensures ListOk(f, busOffset, cells', live')
  {
    LinkedAllocated(cells, f.head, f.chain);
    forall a | a in Addrs(f.chain)
      ensures a in cells' && cells'[a] == cells[a]
    {
      assert BlockOk(f, f.home, live, a);
      assert InRange(a, f.home[a], SpanOf(live, f.home[a]));
    }
    LinkedFrame(cells, cells', f.head, f.chain);
    forall b | b in f.home
      ensures BlockOk(f, f.home, live', b)
    {
      assert BlockOk(f, f.home, live, b);
    }
  }

  lemma KeepsOthersTrans(owner: Owner, cells: Heap, live: Ledger, cells1: Heap, live1: Ledger,
                         cells2: Heap, live2: Ledger)
    requires KeepsOthers(owner, cells, live, cells1, live1) && KeepsOthers(owner, cells1, live1, cells2, live2)
    ensures KeepsOthers(owner, cells, live, cells2, live2)
  {
    forall c | c in live && live[c].owner != owner
      ensures c in live2 && live2[c] == live[c]
      ensures forall a: nat :: InRange(a, c, SpanOf(live, c)) && a in cells ==> a in cells2 && cells2[a] == cells[a]
    {
      assert c in live1 && live1[c] == live[c] && SpanOf(live1, c) == SpanOf(live, c);
    }
  }

  lemma KeepsOthersWrite(owner: Owner, cells: Heap, live: Ledger, c: nat, p: nat, cell: Cell)
    requires KernelOk(cells, live) && c in live && live[c].owner == owner && InRange(p, c, SpanOf(live, c))
    ensures KeepsOthers(owner, cells, live, cells[p := cell], live)
  {
    assert forall d :: d in live && d != c ==> Apart(d, SpanOf(live, d), c, SpanOf(live, c));
  }

  lemma KeepsOthersWrites(owner: Owner, cells: Heap, live: Ledger, c: nat, content: Heap)
    requires KernelOk(cells, live) && c in live && live[c].owner == owner
    requires forall a: nat :: a in content ==> InRange(a, c, SpanOf(live, c))
    ensures KeepsOthers(owner, cells, live, cells + content, live)
  {
    forall d, a: nat | d in live && d != c && InRange(a, d, SpanOf(live, d))
      ensures a !in content
    {
      assert Apart(d, SpanOf(live, d), c, SpanOf(live, c));
    }
  }

  /** The allocator's view of a new chunk: fresh memory with arbitrary content. */
  ghost predicate NewChunk(cells: Heap, live: Ledger, cells': Heap, live': Ledger, p: nat, chunk: Chunk)
  {
    && p !in live && live' == live[p := chunk]
    && Unmapped(cells, p, Extent(chunk.origin)) && Mapped(cells', p, Extent(chunk.origin))
    && SameOutside(cells, cells', p, Extent(chunk.origin))
  }

  /** The allocator's view of a chunk given back: its memory is gone. */
  ghost predicate ChunkGone(cells: Heap, live: Ledger, cells': Heap, live': Ledger, p: nat)
    requires p in live
  {
    && live' == live - {p}
    && Unmapped(cells', p, SpanOf(live, p)) && SameOutside(cells, cells', p, SpanOf(live, p))
  }

  lemma KeepsOthersNew(cells: Heap, live: Ledger, cells': Heap, live': Ledger, p: nat, chunk: Chunk)
    requires KernelOk(cells, live) && NewChunk(cells, live, cells', live', p, chunk)
    ensures KeepsOthers(chunk.owner, cells, live, cells', live')
  {
    forall c, a: nat | c in live && InRange(a, c, SpanOf(live, c)) && a in cells
      ensures a in cells' && cells'[a] == cells[a]
    {
      assert !InRange(a, p, Extent(chunk.origin));
    }
  }

  lemma KeepsOthersGone(cells: Heap, live: Ledger, cells': Heap, live': Ledger, p: nat)
    requires KernelOk(cells, live) && p in live && ChunkGone(cells, live, cells', live', p)
    ensures KeepsOthers(live[p].owner, cells, live, cells', live')
  {
    forall c, a: nat | c in live && c != p && InRange(a, c, SpanOf(live, c)) && a in cells
      ensures a in cells' && cells'[a] == cells[a]
    {
      assert Apart(c, SpanOf(live, c), p, SpanOf(live, p));
    }
  }

  lemma KeepsOthersPooled(f: FreeList, cells: Heap, live: Ledger, p: nat, junk: Cell)
    requires KernelOk(cells, live) && p in live && live[p] == Chunk(Pages(0), InList(f))
    ensures KeepsOthers(InList(f), cells, live, cells[p := junk], live[p := Chunk(Pages(0), InPool)])
  {
    KeepsOthersWrite(InList(f), cells, live, p, p, junk);
  }

  // ----- filling a list

  /** A list while its blocks are being made: i of the announced ones exist, none is handed out. */
  ghost predicate Filling(f: FreeList, i: nat, busOffset: nat, cells: Heap, live: Ledger)
    reads f
  {
    && Linked(cells, f.head, f.chain) && |f.chain| == i
    && Addrs(f.chain) == f.home.Keys && f.out == {} && f.unused == 0
    && Carved(f, f.home, live)
    && (f.dma ==> OwnBus(f.chain, busOffset))
  }

  /** p may become the next block of f, as part of chunk c. */
  ghost predicate Fits(f: FreeList, c: nat, p: nat, cells: Heap, live: Ledger)
    requires WellSized(f)
    reads f
  {
    && p !in f.home && p in cells
    && BlockOk(f, f.home[p := c], live, p)
    && forall b :: b in f.home ==> Apart(b, f.size, p, f.size)
  }

  /**
   * The inner loop of hpt_alloc_mem inside chunk c: blocks have been cut up to p, and there is room
   * for j more. A chunk of several pages is cut once.
   */
  ghost predicate Cutting(f: FreeList, c: nat, p: nat, j: nat, live: Ledger)
    requires WellSized(f)
    reads f
  {
    && f.dma && c in live && live[c] == Chunk(OriginFor(true, f.size), InList(f))
    && c % PAGE_SIZE == 0 && c != NULL
    && c <= p && p % f.alignment == 0
    && p + j * f.size <= c + SpanOf(live, c)
    && (OrderFor(f.size) > 0 ==> j == 0 || p == c)
    && (p > c ==> c in f.home && f.home[c] == c)
    && (forall b :: b in f.home ==> (b + f.size <= p && c <= b) || Apart(b, f.size, c, SpanOf(live, c)))
    && (forall d :: d in live && d != c && live[d].owner == InList(f) ==> d in f.home && f.home[d] == d)
  }

  lemma NextCutFits(f: FreeList, c: nat, p: nat, j: nat, i: nat, busOffset: nat, cells: Heap, live: Ledger)
    requires Filling(f, i, busOffset, cells, live) && KernelOk(cells, live)
    requires Cutting(f, c, p, j, live) && j > 0
    ensures Fits(f, c, p, cells, live)
  {
    hide Linked, OwnBus;
    Room(j, f.size, c + SpanOf(live, c) - p);
    BlockFits(f, c, p, j, live);
    hide BlockOk, OrderFor;
    assert InRange(p, c, SpanOf(live, c));
    assert forall b :: b in f.home && Apart(b, f.size, c, SpanOf(live, c)) ==> Apart(b, f.size, p, f.size);
  }

  lemma BlockFits(f: FreeList, c: nat, p: nat, j: nat, live: Ledger)
    requires WellSized(f) && Cutting(f, c, p, j, live) && j > 0
    requires p + f.size <= c + SpanOf(live, c)
    ensures BlockOk(f, f.home[p := c], live, p)
  {
    if p != c {
      OnePage(live, c);
      InteriorNotAligned(c, p);
    }
  }

  lemma OnePage(live: Ledger, c: nat)
    requires c in live && live[c].origin == Pages(0)
    ensures SpanOf(live, c) == PAGE_SIZE
  {
    assert Pow2(0) == 1;
  }

  // ----- emptying a list

  /** b lies in a chunk that is still there; the first block of a chunk still owns it. */
  ghost predicate StillThere(f: FreeList, home: map<nat, nat>, live: Ledger, b: nat)
  {
    && b in home && home[b] in live
    && var c := home[b];
       && live[c].origin == OriginFor(f.dma, f.size) && live[c].owner in {InList(f), InPool}
       && Inside(b, f.size, c, SpanOf(live, c))
       && (b == c ==> live[c].owner == InList(f))
       && (b == c || (f.dma && OrderFor(f.size) == 0 && b % PAGE_SIZE != 0))
  }

  /** A chunk that still counts as the list's has its first block among these. */
  ghost predicate Heads(f: FreeList, home: map<nat, nat>, live: Ledger, blocks: set<nat>)
  {
    forall c :: c in live && live[c].owner == InList(f) ==> c in blocks && c in home && home[c] == c
  }

  /** A list during teardown. Chunks whose first block has been taken belong to the pool, or are gone. */
  ghost predicate Emptying(f: FreeList, busOffset: nat, cells: Heap, live: Ledger)
    reads f
  {
    && Linked(cells, f.head, f.chain) && |f.chain| == f.count && f.unused == 0
    && WellSized(f) && BlocksApart(f, f.home)
    && (forall b :: b in Addrs(f.chain) ==> StillThere(f, f.home, live, b))
    && Heads(f, f.home, live, Addrs(f.chain))
    && (f.dma ==> OwnBus(f.chain, busOffset))
  }

  /** The same with the block p taken off the chain, and not yet dealt with. */
  ghost predicate Taken(f: FreeList, p: nat, busOffset: nat, cells: Heap, live: Ledger)
    reads f
  {
    && Linked(cells, f.head, f.chain) && |f.chain| == f.count && f.unused == 0
    && WellSized(f) && BlocksApart(f, f.home)
    && p !in Addrs(f.chain)
    && (forall b :: b in Addrs(f.chain) ==> StillThere(f, f.home, live, b))
    && StillThere(f, f.home, live, p) && Heads(f, f.home, live, Addrs(f.chain) + {p})
    && (f.dma ==> OwnBus(f.chain, busOffset))
  }

  ghost predicate Idle(f: FreeList)
    reads f
  {
    f.out == {} && f.unused == 0
  }

  lemma IdleListCanEmpty(f: FreeList, busOffset: nat, cells: Heap, live: Ledger)
    requires ListOk(f, busOffset, cells, live) && Idle(f)
    ensures Emptying(f, busOffset, cells, live)
  {
    forall b | b in Addrs(f.chain)
      ensures StillThere(f, f.home, live, b)
    {
      assert BlockOk(f, f.home, live, b);
    }
  }

  /** The pool is made of single pages, and the ledger knows which. */
  ghost predicate PoolOk(pool: set<nat>, live: Ledger)
  {
    && (forall p :: p in pool <==> p in live && live[p].owner == InPool)
    && (forall p :: p in pool ==> live[p].origin == Pages(0))
  }

  /** A chunk that only p came from goes back to the kernel: no linked block loses its memory. */
  lemma ReleasedHead(f: FreeList, p: nat, busOffset: nat, cells: Heap, live: Ledger, cells': Heap, live': Ledger)
    requires Taken(f, p, busOffset, cells, live) && KernelOk(cells, live)
    requires f.home[p] == p && (!f.dma || OrderFor(f.size) > 0)
    requires ChunkGone(cells, live, cells', live', p)
    ensures Emptying(f, busOffset, cells', live')
  {
    LinkedAllocated(cells, f.head, f.chain);
    forall b | b in Addrs(f.chain)
      ensures StillThere(f, f.home, live', b) && b in cells' && cells'[b] == cells[b]
    {
      assert StillThere(f, f.home, live, b) && f.home[b] == b != p;
      assert SpanOf(live', b) == SpanOf(live, b);
      assert Apart(b, SpanOf(live, b), p, SpanOf(live, p));
    }
    LinkedFrame(cells, cells', f.head, f.chain);
  }

  /** A page whose first block is p goes to the pool, while other blocks of it may still be linked. */
  lemma PooledHead(f: FreeList, p: nat, busOffset: nat, cells: Heap, live: Ledger, junk: Cell)
    requires Taken(f, p, busOffset, cells, live)
    requires f.home[p] == p && live[p].origin == Pages(0)
    ensures Emptying(f, busOffset, cells[p := junk], live[p := Chunk(Pages(0), InPool)])
    ensures forall b :: b in Addrs(f.chain) ==> Apart(p, LinkBytes(f.dma), b, f.size)
  {
    var live' := live[p := Chunk(Pages(0), InPool)];
    forall b | b in Addrs(f.chain)
      ensures StillThere(f, f.home, live', b)
    {
      assert StillThere(f, f.home, live, b);
      assert SpanOf(live', f.home[b]) == SpanOf(live, f.home[b]);
    }
    LinkedFrame(cells, cells[p := junk], f.head, f.chain);
  }

  /** A block that does not start its page needs nothing: the page is already in the pool, or will be. */
  lemma SkippedInterior(f: FreeList, p: nat, busOffset: nat, cells: Heap, live: Ledger)
    requires Taken(f, p, busOffset, cells, live) && KernelOk(cells, live)
    requires f.dma && OrderFor(f.size) == 0 && p % PAGE_SIZE != 0
    ensures Emptying(f, busOffset, cells, live)
  {
    assert f.home[p] in live && live[f.home[p]].origin.Pages? && f.home[p] % PAGE_SIZE == 0;
  }

  // ----- all lists of a vbus

  ghost predicate DistinctLists(fs: seq<FreeList>)
  {
    forall i, j :: 0 <= i < j < |fs| ==> fs[i] != fs[j]
  }

  /** freelist_reserve has run, hpt_alloc_mem has not. */
  ghost predicate Reserved(f: FreeList)
    reads f
  {
    f.chain == [] && f.head == NULL && f.home == map[] && f.out == {} && f.unused == 0 && WellSized(f)
  }

  ghost predicate AllIdle(fs: seq<FreeList>)
    reads fs
  {
    forall j :: 0 <= j < |fs| ==> Idle(fs[j])
  }

  /** Plain lists first, then the DMA lists; no list twice. */
  ghost predicate ListOrder(fs: seq<FreeList>, plain: nat)
  {
    && plain <= |fs| && DistinctLists(fs)
    && (forall j :: 0 <= j < plain ==> !fs[j].dma) && (forall j :: plain <= j < |fs| ==> fs[j].dma)
  }

  /** The lists from lo to hi are whole; chunks of lists belong to lists among these. */
  ghost predicate ListsOk(fs: seq<FreeList>, lo: nat, hi: nat, busOffset: nat, cells: Heap, live: Ledger)
    reads fs
  {
    && lo <= hi <= |fs|
    && (forall j :: lo <= j < hi ==> ListOk(fs[j], busOffset, cells, live))
    && (forall c :: c in live && live[c].owner.InList? ==> live[c].owner.list in fs[lo..hi])
  }

  /** Chunks outside the lists: pool pages, and the flag array unless sd is NULL. */
  ghost predicate OthersOk(pool: set<nat>, sd: nat, maxTargets: nat, live: Ledger)
  {
    && PoolOk(pool, live)
    && (forall c :: c in live ==> live[c].owner != Loose && (live[c].owner == SdFlags ==> c == sd))
    && (sd != NULL ==> sd in live && live[sd] == Chunk(Slab(maxTargets), SdFlags))
  }

  /** A pool page, or a chunk that is nobody's yet, concerns no list. */
  lemma ListsUntouched(fs: seq<FreeList>, lo: nat, hi: nat, owner: Owner, busOffset: nat,
                       cells: Heap, live: Ledger, cells': Heap, live': Ledger)
    requires ListsOk(fs, lo, hi, busOffset, cells, live) && !owner.InList?
    requires KeepsOthers(owner, cells, live, cells', live')
    ensures ListsOk(fs, lo, hi, busOffset, cells', live')
  {
    forall j | lo <= j < hi
      ensures ListOk(fs[j], busOffset, cells', live')
    {
      ListOkFrame(fs[j], busOffset, owner, cells, live, cells', live');
    }
  }

  lemma KeepsOthersPooledLoose(cells: Heap, live: Ledger, p: nat, junk: Cell)
    requires KernelOk(cells, live) && p in live && live[p] == Chunk(Pages(0), Loose)
    ensures KeepsOthers(Loose, cells, live, cells[p := junk], live[p := Chunk(Pages(0), InPool)])
  {
    KeepsOthersWrite(Loose, cells, live, p, p, junk);
  }

  /** The next list joins the finished ones. */
  lemma ListsGrow(fs: seq<FreeList>, i: nat, busOffset: nat, cells: Heap, live: Ledger, cells': Heap, live': Ledger)
    requires i < |fs| && DistinctLists(fs) && ListsOk(fs, 0, i, busOffset, cells, live)
    requires KeepsOthers(InList(fs[i]), cells, live, cells', live') && ListOk(fs[i], busOffset, cells', live')
    ensures ListsOk(fs, 0, i + 1, busOffset, cells', live')
  {
    forall j | 0 <= j < i
      ensures ListOk(fs[j], busOffset, cells', live')
    {
      ListOkFrame(fs[j], busOffset, InList(fs[i]), cells, live, cells', live');
    }
    assert fs[0..i + 1] == fs[0..i] + [fs[i]];
  }

  lemma OwnsNothingYet(fs: seq<FreeList>, i: nat, busOffset: nat, cells: Heap, live: Ledger)
    requires i < |fs| && DistinctLists(fs) && ListsOk(fs, 0, i, busOffset, cells, live) && Reserved(fs[i])
    ensures Filling(fs[i], 0, busOffset, cells, live) && Complete(fs[i], fs[i].home, live)
  {
    assert fs[i] !in fs[0..i];
  }

  /** An emptied list owns nothing, and the later lists are as they were. */
  lemma ListsShrink(fs: seq<FreeList>, i: nat, busOffset: nat, cells: Heap, live: Ledger, cells': Heap, live': Ledger)
    requires i < |fs| && DistinctLists(fs)
    requires forall j :: i < j < |fs| ==> ListOk(fs[j], busOffset, cells, live)
    requires forall c :: c in live && live[c].owner.InList? ==> live[c].owner.list in fs[i..]
    requires KeepsOthers(InList(fs[i]), cells, live, cells', live')
    requires Emptying(fs[i], busOffset, cells', live') && fs[i].chain == []
    ensures ListsOk(fs, i + 1, |fs|, busOffset, cells', live')
  {
    hide ListOk, Linked, StillThere, WellSized, OwnBus;
    forall j | i < j < |fs|
      ensures ListOk(fs[j], busOffset, cells', live')
    {
      ListOkFrame(fs[j], busOffset, InList(fs[i]), cells, live, cells', live');
    }
    forall c | c in live' && live'[c].owner.InList?
      ensures live'[c].owner.list in fs[i + 1..]
    {
      assert live'[c].owner != InList(fs[i]);
      assert live'[c].owner.list in fs[i..] && fs[i..] == [fs[i]] + fs[i + 1..];
    }
  }

  lemma OthersKept(pool: set<nat>, sd: nat, maxTargets: nat, f: FreeList, cells: Heap, live: Ledger,
                   cells': Heap, live': Ledger)
    requires OthersOk(pool, sd, maxTargets, live) && KeepsOthers(InList(f), cells, live, cells', live')
    ensures forall c :: c in live' ==> live'[c].owner != Loose && (live'[c].owner == SdFlags ==> c == sd)
    ensures sd != NULL ==> sd in live' && live'[sd] == Chunk(Slab(maxTargets), SdFlags)
  {
  }

  lemma OthersStay(pool: set<nat>, sd: nat, maxTargets: nat, f: FreeList, cells: Heap, live: Ledger,
                   cells': Heap, live': Ledger)
    requires OthersOk(pool, sd, maxTargets, live) && KeepsOthers(InList(f), cells, live, cells', live')
    requires PoolOk(pool, live')
    ensures OthersOk(pool, sd, maxTargets, live')
  {
    OthersKept(pool, sd, maxTargets, f, cells, live, cells', live');
  }

  lemma OthersHavePool(pool: set<nat>, sd: nat, maxTargets: nat, live: Ledger)
    requires OthersOk(pool, sd, maxTargets, live)
    ensures PoolOk(pool, live)
  {
  }

  /** A list that hpt_alloc_mem has filled. */
  ghost predicate Made(f: FreeList, busOffset: nat, cells: Heap, live: Ledger)
    reads f
  {
    ListOk(f, busOffset, cells, live) && Idle(f) && f.size > 0 && Thrifty(f, live)
  }

  /** Whether all chunks of lists belong to the first i of these. */
  ghost predicate OwnedBy(fs: seq<FreeList>, i: nat, live: Ledger)
  {
    i <= |fs| && forall c :: c in live && live[c].owner.InList? ==> live[c].owner.list in fs[0..i]
  }

  lemma AllMade(fs: seq<FreeList>, i: nat, busOffset: nat, cells: Heap, live: Ledger)
    requires OwnedBy(fs, i, live) && forall j :: 0 <= j < i ==> Made(fs[j], busOffset, cells, live)
    ensures ListsOk(fs, 0, i, busOffset, cells, live) && AllThrifty(fs, i, live)
    ensures forall j :: 0 <= j < i ==> Idle(fs[j])
  {
    hide ListOk, Thrifty, Idle;
  }

  lemma EachMade(fs: seq<FreeList>, i: nat, busOffset: nat, cells: Heap, live: Ledger)
    requires ListsOk(fs, 0, i, busOffset, cells, live) && AllThrifty(fs, i, live)
    requires forall j :: 0 <= j < i ==> Idle(fs[j])
    ensures OwnedBy(fs, i, live) && forall j :: 0 <= j < i ==> Made(fs[j], busOffset, cells, live)
  {
    hide ListOk, Thrifty, Idle;
  }

  lemma ThriftyGrows(fs: seq<FreeList>, i: nat, cells: Heap, live: Ledger, cells': Heap, live': Ledger)
    requires i < |fs| && DistinctLists(fs) && AllThrifty(fs, i, live)
    requires KeepsOthers(InList(fs[i]), cells, live, cells', live') && fs[i].size > 0 && Thrifty(fs[i], live')
    ensures AllThrifty(fs, i + 1, live')
  {
    ThriftyKept(fs, i, InList(fs[i]), cells, live, cells', live');
    hide Thrifty, KeepsOthers;
  }

  lemma ReturnFacts(f: FreeList, p: nat, bus: nat, busOffset: nat, cells: Heap, live: Ledger)
    requires KernelOk(cells, live) && ListOk(f, busOffset, cells, live) && p in f.out
    requires f.dma ==> bus == p + busOffset
    ensures p != NULL && p in cells && p !in Addrs(f.chain)
    ensures Carved(f, f.home, live) && Complete(f, f.home, live)
    ensures Linked(cells, f.head, f.chain) && |f.chain| == f.count + f.unused
    ensures Addrs(f.chain) + f.out == f.home.Keys && Addrs(f.chain) !! f.out
    ensures var cells', chain := cells[p := Cell(f.head, bus)], [Block(p, bus)] + f.chain;
            && KernelOk(cells', live) && KeepsOthers(InList(f), cells, live, cells', live)
            && Linked(cells', p, chain) && Addrs(chain) == Addrs(f.chain) + {p}
            && (f.dma ==> OwnBus(chain, busOffset))
  {
    BlockIsMapped(f, f.home, cells, live, p);
    KernelWrite(cells, live, p, Cell(f.head, bus));
    KeepsOthersWrite(InList(f), cells, live, f.home[p], p, Cell(f.head, bus));
    LinkHead(cells, f.head, f.chain, Block(p, bus));
    OwnBusGrows(f.chain, busOffset, Block(p, bus));
    hide KernelOk, KeepsOthers, Carved, Complete, OwnBus, Linked;
  }

  lemma ListOkReturned(f: FreeList, blocks: set<nat>, out: set<nat>, p: nat, busOffset: nat, cells: Heap, live: Ledger)
    requires Carved(f, f.home, live) && Complete(f, f.home, live)
    requires Linked(cells, f.head, f.chain) && |f.chain| == f.count + f.unused
    requires blocks + out == f.home.Keys && blocks !! out && p in out
    requires Addrs(f.chain) == blocks + {p} && f.out == out - {p}
    requires f.dma ==> OwnBus(f.chain, busOffset)
    ensures ListOk(f, busOffset, cells, live)
  {
    hide Carved, Complete, Linked, OwnBus;
  }

  lemma NothingElse(f: FreeList, cells: Heap, live: Ledger)
    ensures KeepsOthers(InList(f), cells, live, cells, live)
  {
  }

  lemma BlockIsMapped(f: FreeList, home: map<nat, nat>, cells: Heap, live: Ledger, p: nat)
    requires KernelOk(cells, live) && Carved(f, home, live) && p in home
    ensures p != NULL && p in cells && home[p] in live && live[home[p]].owner == InList(f)
    ensures InRange(p, home[p], SpanOf(live, home[p]))
  {
    assert BlockOk(f, home, live, p);
    assert InRange(p, home[p], SpanOf(live, home[p]));
  }

  lemma ListsReplaced(fs: seq<FreeList>, k: nat, busOffset: nat, cells: Heap, cells': Heap, live: Ledger)
    requires k < |fs| && DistinctLists(fs)
    requires forall j :: 0 <= j < |fs| && j != k ==> ListOk(fs[j], busOffset, cells, live)
    requires forall c :: c in live && live[c].owner.InList? ==> live[c].owner.list in fs[0..|fs|]
    requires ListOk(fs[k], busOffset, cells', live) && KeepsOthers(InList(fs[k]), cells, live, cells', live)
    ensures ListsOk(fs, 0, |fs|, busOffset, cells', live)
  {
    forall j | 0 <= j < |fs| && j != k
      ensures ListOk(fs[j], busOffset, cells', live)
    {
      ListOkFrame(fs[j], busOffset, InList(fs[k]), cells, live, cells', live);
    }
  }

  lemma PoolGains(pool: set<nat>, maxTargets: nat, live: Ledger, p: nat)
    requires p in live && OthersOk(pool, NULL, maxTargets, live - {p})
    ensures OthersOk(pool + {p}, NULL, maxTargets, live[p := Chunk(Pages(0), InPool)])
  {
    var live' := live[p := Chunk(Pages(0), InPool)];
    assert forall c :: c != p ==> (c in live' <==> c in live - {p}) && (c in live' ==> live'[c] == (live - {p})[c]);
  }

  lemma FlagsGained(pool: set<nat>, maxTargets: nat, cells: Heap, live: Ledger, p: nat)
    requires KernelOk(cells, live) && p != NULL && p !in live && OthersOk(pool, NULL, maxTargets, live)
    ensures OthersOk(pool, p, maxTargets, live[p := Chunk(Slab(maxTargets), SdFlags)])
  {
  }

  lemma PoolPagesReal(pool: set<nat>, cells: Heap, live: Ledger)
    requires PoolOk(pool, live) && KernelOk(cells, live)
    ensures NULL !in pool
  {
  }

  lemma OnlyFlagsLeft(fs: seq<FreeList>, busOffset: nat, pool: set<nat>, sd: nat, maxTargets: nat,
                      cells: Heap, live: Ledger)
    requires ListsOk(fs, |fs|, |fs|, busOffset, cells, live) && OthersOk(pool, sd, maxTargets, live)
    requires pool == {} && sd != NULL
    ensures live == map[sd := Chunk(Slab(maxTargets), SdFlags)]
  {
    assert fs[|fs|..|fs|] == [];
  }

  lemma CuttingDone(f: FreeList, c: nat, p: nat, j: nat, live: Ledger)
    requires WellSized(f) && Cutting(f, c, p, j, live) && p > c
    ensures Complete(f, f.home, live)
  {
  }

  /** A list being filled is not disturbed by a new chunk of its own, and the chunk's start is free. */
  lemma FillingFrame(f: FreeList, i: nat, busOffset: nat, cells: Heap, live: Ledger, cells': Heap, live': Ledger,
                     p: nat, chunk: Chunk)
    requires Filling(f, i, busOffset, cells, live) && KernelOk(cells, live)
    requires NewChunk(cells, live, cells', live', p, chunk) && Extent(chunk.origin) > 0
    ensures Filling(f, i, busOffset, cells', live')
    ensures forall b :: b in f.home ==> Apart(b, f.size, p, Extent(chunk.origin))
    ensures p !in f.home
  {
    var n := Extent(chunk.origin);
    forall b | b in f.home
      ensures BlockOk(f, f.home, live', b) && Apart(b, f.size, p, n) && b in cells && !InRange(b, p, n)
    {
      assert BlockOk(f, f.home, live, b);
      SharedByte(f.home[b], SpanOf(live, f.home[b]), p, n, cells);
      assert InRange(b, f.home[b], SpanOf(live, f.home[b])) && b in cells;
    }
    LinkedFrame(cells, cells', f.head, f.chain);
  }

  lemma CutStarts(f: FreeList, c: nat, j: nat, before: Ledger, live: Ledger)
    requires WellSized(f) && f.dma && c !in before && c != NULL && c % PAGE_SIZE == 0 && Complete(f, f.home, before)
    requires live == before[c := Chunk(OriginFor(true, f.size), InList(f))]
    requires j * f.size <= SpanOf(live, c)
    requires forall b :: b in f.home ==> Apart(b, f.size, c, SpanOf(live, c))
    ensures Cutting(f, c, c, j, live)
  {
    PageIsAligned(c, f.alignment);
  }

  lemma SlabBlockFits(f: FreeList, i: nat, busOffset: nat, cells: Heap, live: Ledger, p: nat)
    requires Filling(f, i, busOffset, cells, live) && KernelOk(cells, live) && !f.dma
    requires p in live && live[p] == Chunk(Slab(f.size), InList(f)) && p !in f.home
    requires forall b :: b in f.home ==> Apart(b, f.size, p, f.size)
    ensures Fits(f, p, p, cells, live)
  {
    hide Linked, OwnBus;
    assert InRange(p, p, SpanOf(live, p));
  }

  lemma SlabComplete(f: FreeList, home: map<nat, nat>, live: Ledger, p: nat)
    requires Complete(f, home, live)
    ensures Complete(f, home[p := p], live[p := Chunk(Slab(f.size), InList(f))])
  {
  }

  lemma PoolIgnores(pool: set<nat>, live: Ledger, p: nat, chunk: Chunk)
    requires PoolOk(pool, live) && p !in live && chunk.owner != InPool
    ensures PoolOk(pool, live[p := chunk])
  {
  }

  lemma CutAdvances(f: FreeList, c: nat, p: nat, j: nat, live: Ledger)
    requires WellSized(f) && f.dma && j > 0
    requires c in live && live[c] == Chunk(OriginFor(true, f.size), InList(f))
    requires c % PAGE_SIZE == 0 && c != NULL && c <= p && p % f.alignment == 0
    requires p + j * f.size <= c + SpanOf(live, c)
    requires OrderFor(f.size) > 0 ==> p == c
    requires p in f.home && f.home[p] == c && (p > c ==> c in f.home && f.home[c] == c)
    requires forall b :: b in f.home && b != p ==> (b + f.size <= p && c <= b) || Apart(b, f.size, c, SpanOf(live, c))
    requires forall d :: d in live && d != c && live[d].owner == InList(f) ==> d in f.home && f.home[d] == d
    ensures Cutting(f, c, p + f.size, j - 1, live)
  {
    Room(j, f.size, c + SpanOf(live, c) - p);
    StaysAligned(p, f.size, f.alignment);
    if OrderFor(f.size) > 0 {
      BigChunkHoldsOne(f.size);
      OneLeft(j, f.size, SpanOf(live, c));
    }
  }

  lemma OneLeft(j: nat, size: nat, span: nat)
    requires j > 0 && size > 0 && j * size <= span && span / size == 1
    ensures j == 1
  {
    assert span == span / size * size + span % size;
    MulCancelLess(j, 2, size);
  }

  lemma OwnBusGrows(chain: seq<Block>, busOffset: nat, b: Block)
    ensures OwnBus(chain, busOffset) && b.bus == b.addr + busOffset ==> OwnBus([b] + chain, busOffset)
  {
  }

  /** A piece of whole blocks that starts at p and ends before q. */
  lemma Room(j: nat, size: nat, room: nat)
    requires j > 0 && j * size <= room
    ensures size <= room && (j - 1) * size <= room - size
  {
    assert j * size == (j - 1) * size + size;
    MulMono(0, j - 1, size);
  }

  lemma RoomInSpan(size: nat, span: nat)
    requires size > 0
    ensures span / size >= 0 && span / size * size <= span < (span / size + 1) * size
    ensures size <= span ==> span / size > 0
  {
    assert span == span / size * size + span % size;
    assert (span / size + 1) * size == span / size * size + size;
    MulCancelLess(0, span / size + 1, size);
    if size <= span {
      MulCancelLess(1, span / size + 1, size);
    }
  }

  lemma StaysAligned(p: nat, size: nat, alignment: nat)
    requires alignment > 0 && p % alignment == 0 && size % alignment == 0
    ensures (p + size) % alignment == 0
  {
    assert size == size / alignment * alignment + size % alignment;
    ModAddMultiple(p, size / alignment, alignment);
  }

  lemma PageIsAligned(p: nat, alignment: nat)
    requires alignment > 0 && p % PAGE_SIZE == 0 && PAGE_SIZE % alignment == 0
    ensures p % alignment == 0
  {
    var k, q := p / PAGE_SIZE, PAGE_SIZE / alignment;
    assert PAGE_SIZE == q * alignment + PAGE_SIZE % alignment;
    assert p == k * PAGE_SIZE + p % PAGE_SIZE;
    assert k * (q * alignment) == (k * q) * alignment;
    ModAddMultiple(0, k * q, alignment);
  }

  lemma PushFacts(f: FreeList, p: nat, c: nat, i: nat, bus: nat, busOffset: nat, cells: Heap, live: Ledger)
    requires Filling(f, i, busOffset, cells, live) && Fits(f, c, p, cells, live) && KernelOk(cells, live)
    requires f.dma ==> bus == p + busOffset
    ensures var cells', chain := cells[p := Cell(f.head, bus)], [Block(p, bus)] + f.chain;
            && KernelOk(cells', live) && KeepsOthers(InList(f), cells, live, cells', live)
            && Linked(cells', p, chain) && Addrs(chain) == f.home[p := c].Keys && |chain| == i + 1
            && Carved(f, f.home[p := c], live) && (f.dma ==> OwnBus(chain, busOffset))
  {
    KernelWrite(cells, live, p, Cell(f.head, bus));
    KeepsOthersWrite(InList(f), cells, live, c, p, Cell(f.head, bus));
    hide KernelOk, KeepsOthers, OrderFor, OriginFor, SpanOf;
    LinkHead(cells, f.head, f.chain, Block(p, bus));
    CarvedGrows(f, f.home, live, p, c);
    OwnBusGrows(f.chain, busOffset, Block(p, bus));
    hide Linked, Carved, BlockOk, OwnBus;
  }

  lemma CarvedGrows(f: FreeList, home: map<nat, nat>, live: Ledger, p: nat, c: nat)
    requires Carved(f, home, live) && p !in home && BlockOk(f, home[p := c], live, p)
    requires forall b :: b in home ==> Apart(b, f.size, p, f.size)
    ensures Carved(f, home[p := c], live)
  {
    forall b | b in home
      ensures BlockOk(f, home[p := c], live, b)
    {
      assert BlockOk(f, home, live, b);
    }
  }
}
