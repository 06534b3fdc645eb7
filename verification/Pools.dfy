/**
 * The memory of a vbus, from hpt_alloc_mem to hpt_free_mem (osm/linux/osm_linux.c).
 */
module Pools {
  import opened Words
  import opened FreeLists
  import opened PoolLedger

  class Vbus {
    const mem: Memory
    const busOffset: nat
    const cachePages: nat
    const maxTargets: nat

    /** freelist_head and freelist_dma_head, along their next links. */
    var lists: seq<FreeList>
    var dmaLists: seq<FreeList>

    /** The pages LDM's dmapool holds, and the sd_flags array. */
    var pool: set<nat>
    var sdFlags: nat

    /** The pages that LDM has taken from the pool, and what the kernel has given out. */
    ghost var lent: set<nat>
    ghost var live: Ledger

    /** How often the kernel has refused a request. */
    ghost var refusals: nat

    constructor (busOffset: nat, cachePages: nat, maxTargets: nat)
      ensures fresh(mem) && mem.cells == map[] && live == map[] && pool == {}
      ensures lists == [] && dmaLists == [] && sdFlags == NULL && lent == {}
      ensures this.busOffset == busOffset && this.cachePages == cachePages && this.maxTargets == maxTargets
    {
      mem := new Memory();
      this.busOffset, this.cachePages, this.maxTargets := busOffset, cachePages, maxTargets;
      lists, dmaLists, pool, sdFlags, lent, live, refusals := [], [], {}, NULL, {}, map[], 0;
    }

    /** freelist_reserve and freelist_reserve_dma: a new list in front of its kind. */
    method ReserveList(dma: bool, size: nat, alignment: nat, count: nat) returns (f: FreeList)
      requires size >= LinkBytes(dma) && (dma ==> alignment > 0 && size % alignment == 0 && PAGE_SIZE % alignment == 0)
      modifies this`lists, this`dmaLists
      ensures fresh(f) && Reserved(f) && f.dma == dma && f.size == size && f.count == count
      ensures f.alignment == alignment
      ensures lists == (if dma then [] else [f]) + old(lists)
      ensures dmaLists == (if dma then [f] else []) + old(dmaLists)
    {
      f := new FreeList(dma, size, alignment, count);
      if dma {
        dmaLists := [f] + dmaLists;
      } else {
        lists := [f] + lists;
      }
    }

    // ----- the kernel

    /** Any free chunk, or failure. */
    method Allocate(origin: Origin, ghost owner: Owner) returns (p: nat)
      requires KernelOk(mem.cells, live) && Extent(origin) > 0
      modifies mem, this`live, this`refusals
      ensures refusals == old(refusals) + if p == NULL then 1 else 0
      ensures KernelOk(mem.cells, live)
      ensures p == NULL ==> mem.cells == old(mem.cells) && live == old(live)
      ensures p != NULL ==> NewChunk(old(mem.cells), old(live), mem.cells, live, p, Chunk(origin, owner))
      ensures p != NULL && origin.Pages? ==> p % PAGE_SIZE == 0
    {
      var n := Extent(origin);
      p :| p == NULL || ((origin.Pages? ==> p % PAGE_SIZE == 0) && forall a: nat :: p <= a < p + n ==> a !in mem.cells);
      if p == NULL {
        refusals := refusals + 1;
      } else {
        var junk: Cell := *;
        var content := map a: nat | p <= a < p + n && InRange(a, p, n) :: junk;
        ghost var before := mem.cells;
        mem.cells := mem.cells + content;
        KernelAdd(before, live, mem.cells, p, Chunk(origin, owner));
        live := live[p := Chunk(origin, owner)];
      }
    }

    /** free_pages and kfree: the chunk must be live, and of the stated origin. */
    method Release(p: nat, origin: Origin)
      requires KernelOk(mem.cells, live) && p in live && live[p].origin == origin
      modifies mem, this`live
      ensures KernelOk(mem.cells, live)
      ensures ChunkGone(old(mem.cells), old(live), mem.cells, live, p)
    {
      var n := Extent(origin);
      ghost var before := mem.cells;
      mem.cells := map a | a in mem.cells && !InRange(a, p, n) :: mem.cells[a];
      KernelRemove(before, live, mem.cells, p);
      live := live - {p};
    }

    // ----- LDM's page pool

    /**
     * dmapool_put_page: writes at most two words at the start of the page it is given. Other blocks of
     * the page are apart from these, since a block has room for what the list code writes.
     */
    method DmapoolPut(p: nat, busaddr: nat) returns (ghost junk: Cell)
      requires KernelOk(mem.cells, live)
      requires p in live && live[p].origin == Pages(0) && p !in pool && busaddr == p + busOffset
      modifies mem, this`pool, this`live
      ensures KernelOk(mem.cells, live)
      ensures pool == old(pool) + {p} && live == old(live)[p := Chunk(Pages(0), InPool)]
      ensures mem.cells == old(mem.cells)[p := junk]
    {
      var content: Cell := *;
      junk := content;
      assert p in mem.cells;
      KernelWrite(mem.cells, live, p, content);
      mem.cells := mem.cells[p := content];
      pool := pool + {p};
      live := live[p := Chunk(Pages(0), InPool)];
      assert forall c :: c in live ==> SpanOf(live, c) == SpanOf(old(live), c);
    }

    /** dmapool_get_page */
    method DmapoolGet() returns (p: nat, busaddr: nat)
      requires NULL !in pool
      modifies this`pool
      ensures busaddr == p + busOffset
      ensures old(pool) == {} ==> p == NULL && pool == {}
      ensures old(pool) != {} ==> p in old(pool) && pool == old(pool) - {p}
    {
      if pool == {} {
        p := NULL;
      } else {
        p :| p in pool;
        pool := pool - {p};
      }
      busaddr := p + busOffset;
    }

    // ----- hpt_alloc_mem

    /** The block is threaded onto the list: its own first words take the link and the bus address. */
    method Push(f: FreeList, p: nat, ghost c: nat, ghost i: nat)
      requires Filling(f, i, busOffset, mem.cells, live) && Fits(f, c, p, mem.cells, live)
      requires KernelOk(mem.cells, live)
      modifies f`head, f`chain, f`home, mem
      ensures Filling(f, i + 1, busOffset, mem.cells, live) && f.home == old(f.home)[p := c]
      ensures forall b :: b in old(f.home) ==> Apart(p, LinkBytes(f.dma), b, f.size)
      ensures KernelOk(mem.cells, live)
      ensures KeepsOthers(InList(f), old(mem.cells), live, mem.cells, live)
    {
      ghost var bus := if f.dma then p + busOffset else mem.cells[p].bus;
      PushFacts(f, p, c, i, bus, busOffset, mem.cells, live);
      hide KernelOk, KeepsOthers, Linked, OwnBus, Carved, Fits, Addrs, WellSized;
      mem.cells := mem.cells[p := mem.cells[p].(next := f.head)];
      if f.dma {
        mem.cells := mem.cells[p := mem.cells[p].(bus := p + busOffset)];
      }
      assert mem.cells == old(mem.cells)[p := Cell(f.head, bus)];
      f.head := p;
      f.chain := [Block(p, bus)] + f.chain;
      f.home := f.home[p := c];
    }

    /** The outer loop's body for a plain list: every block is a chunk of its own. */
    method AllocSlab(f: FreeList) returns (ok: bool)
      requires KernelOk(mem.cells, live) && PoolOk(pool, live) && !f.dma
      requires Filling(f, 0, busOffset, mem.cells, live) && Complete(f, f.home, live)
      modifies f`head, f`chain, f`home, mem, this`live, this`refusals
      ensures refusals >= old(refusals) && (ok <==> refusals == old(refusals))
      ensures KernelOk(mem.cells, live) && PoolOk(pool, live)
      ensures KeepsOthers(InList(f), old(mem.cells), old(live), mem.cells, live)
      ensures ok ==> ListOk(f, busOffset, mem.cells, live) && f.size > 0 && Thrifty(f, live)
    {
      NoChunksYet(f, busOffset, mem.cells, live);
      FillingSized(f, 0, busOffset, mem.cells, live);
      NothingElse(f, mem.cells, live);
      hide KernelOk, PoolOk, Filling, Complete, KeepsOthers, ListOk, ChunksOf;
      var i := 0;
      while i < f.count
        invariant 0 <= i <= f.count && |ChunksOf(f, live)| == i && refusals == old(refusals)
        invariant KernelOk(mem.cells, live) && PoolOk(pool, live)
        invariant Filling(f, i, busOffset, mem.cells, live) && Complete(f, f.home, live)
        invariant KeepsOthers(InList(f), old(mem.cells), old(live), mem.cells, live)
      {
        var made := AllocSlabBlock(f, i, old(mem.cells), old(live));
        if !made {
          return false;
        }
        i := i + 1;
      }
      FillingDone(f, busOffset, mem.cells, live);
      ok := true;
    }

    method AllocSlabBlock(f: FreeList, i: nat, ghost cells0: Heap, ghost live0: Ledger) returns (ok: bool)
      requires KernelOk(mem.cells, live) && PoolOk(pool, live) && !f.dma && i < f.count
      requires Filling(f, i, busOffset, mem.cells, live) && Complete(f, f.home, live)
      requires KeepsOthers(InList(f), cells0, live0, mem.cells, live)
      modifies f`head, f`chain, f`home, mem, this`live, this`refusals
      ensures refusals >= old(refusals) && (ok <==> refusals == old(refusals))
      ensures KernelOk(mem.cells, live) && PoolOk(pool, live)
      ensures KeepsOthers(InList(f), cells0, live0, mem.cells, live)
      ensures ok ==> |ChunksOf(f, live)| == old(|ChunksOf(f, live)|) + 1
      ensures ok ==> Filling(f, i + 1, busOffset, mem.cells, live) && Complete(f, f.home, live)
    {
      ghost var cells1, live1, chunk := mem.cells, live, Chunk(Slab(f.size), InList(f));
      assert f.size > 0 && Extent(Slab(f.size)) == f.size;
      hide KernelOk, PoolOk, Filling, Complete, KeepsOthers, Fits, Extent;
      var p := Allocate(Slab(f.size), InList(f));
      if p == NULL {
        return false;
      }
      KeepsOthersNew(cells1, live1, mem.cells, live, p, chunk);
      KeepsOthersTrans(InList(f), cells0, live0, cells1, live1, mem.cells, live);
      FillingFrame(f, i, busOffset, cells1, live1, mem.cells, live, p, chunk);
      PoolIgnores(pool, live1, p, chunk);
      ChunksGain(f, live1, p, Slab(f.size));
      SlabComplete(f, f.home, live1, p);
      SlabBlockFits(f, i, busOffset, mem.cells, live, p);
      hide NewChunk;
      cells1, live1 := mem.cells, live;
      Push(f, p, p, i);
      KeepsOthersTrans(InList(f), cells0, live0, cells1, live1, mem.cells, live);
      ok := true;
    }

    /** One turn of the inner loop. */
    method CutOne(f: FreeList, c: nat, p: nat, j: nat, i: nat, ghost cells0: Heap, ghost live0: Ledger)
      requires KernelOk(mem.cells, live) && Filling(f, i, busOffset, mem.cells, live) && Cutting(f, c, p, j, live)
      requires KeepsOthers(InList(f), cells0, live0, mem.cells, live) && j > 0
      modifies f`head, f`chain, f`home, mem
      ensures KernelOk(mem.cells, live) && Filling(f, i + 1, busOffset, mem.cells, live)
      ensures Cutting(f, c, p + f.size, j - 1, live)
      ensures KeepsOthers(InList(f), cells0, live0, mem.cells, live)
    {
      NextCutFits(f, c, p, j, i, busOffset, mem.cells, live);
      ghost var cells1 := mem.cells;
      hide KernelOk, Filling, Fits, KeepsOthers, BlockOk;
      Push(f, p, c, i);
      KeepsOthersTrans(InList(f), cells0, live0, cells1, live, mem.cells, live);
      CutAdvances(f, c, p, j, live);
    }

    method TakeChunk(f: FreeList, i: nat, order: nat, span: nat, ghost cells0: Heap, ghost live0: Ledger)
        returns (c: nat, j: nat)
      requires KernelOk(mem.cells, live) && PoolOk(pool, live) && f.dma
      requires order == OrderFor(f.size) && span == Extent(Pages(order)) && f.size <= span
      requires Filling(f, i, busOffset, mem.cells, live) && Complete(f, f.home, live)
      requires KeepsOthers(InList(f), cells0, live0, mem.cells, live)
      modifies mem, this`live, this`refusals
      ensures refusals >= old(refusals) && (c != NULL <==> refusals == old(refusals))
      ensures KernelOk(mem.cells, live) && PoolOk(pool, live)
      ensures KeepsOthers(InList(f), cells0, live0, mem.cells, live)
      ensures c != NULL ==> WellSized(f) && f.size > 0 && j == PerChunk(f.size)
      ensures c != NULL ==> |ChunksOf(f, live)| == old(|ChunksOf(f, live)|) + 1
      ensures c != NULL ==> Filling(f, i, busOffset, mem.cells, live) && Cutting(f, c, c, j, live)
    {
      ghost var cells1, live1, chunk := mem.cells, live, Chunk(Pages(order), InList(f));
      assert WellSized(f);
      hide KernelOk, PoolOk, Filling, Complete, KeepsOthers, Cutting;
      c := Allocate(Pages(order), InList(f));
      j := 0;
      if c != NULL {
        KeepsOthersNew(cells1, live1, mem.cells, live, c, chunk);
        KeepsOthersTrans(InList(f), cells0, live0, cells1, live1, mem.cells, live);
        FillingFrame(f, i, busOffset, cells1, live1, mem.cells, live, c, chunk);
        PoolIgnores(pool, live1, c, chunk);
        RoomInSpan(f.size, span);
        j := span / f.size;
        ChunksGain(f, live1, c, Pages(order));
        CutStarts(f, c, j, live1, live);
      }
    }

    /** One turn of the outer loop: a chunk is taken and cut until it or the count is used up. */
    method AllocDmaChunk(f: FreeList, i: nat, order: nat, span: nat, ghost cells0: Heap, ghost live0: Ledger)
        returns (ok: bool, i': nat)
      requires KernelOk(mem.cells, live) && PoolOk(pool, live) && f.dma && i < f.count
      requires order == OrderFor(f.size) && span == Extent(Pages(order)) && f.size <= span
      requires Filling(f, i, busOffset, mem.cells, live) && Complete(f, f.home, live)
      requires KeepsOthers(InList(f), cells0, live0, mem.cells, live)
      modifies f`head, f`chain, f`home, mem, this`live, this`refusals
      ensures refusals >= old(refusals) && (ok <==> refusals == old(refusals))
      ensures KernelOk(mem.cells, live) && PoolOk(pool, live)
      ensures KeepsOthers(InList(f), cells0, live0, mem.cells, live)
      ensures ok ==> f.size > 0 && i' == if i + PerChunk(f.size) < f.count then i + PerChunk(f.size) else f.count
      ensures ok ==> |ChunksOf(f, live)| == old(|ChunksOf(f, live)|) + 1
      ensures ok ==> Filling(f, i', busOffset, mem.cells, live) && Complete(f, f.home, live)
    {
      i' := i;
      hide KernelOk, PoolOk, Filling, Cutting, KeepsOthers, Complete, WellSized;
      var c, j := TakeChunk(f, i, order, span, cells0, live0);
      if c == NULL {
        return false, i';
      }
      var p := c;
      ghost var k, live1 := j, live;
      while j > 0 && i' < f.count
        invariant i <= i' <= f.count && 0 <= j && c <= p && (i' > i || (p == c && j > 0)) && (i' > i ==> p > c)
        invariant PoolOk(pool, live) && i' + j == i + k && live == live1 && refusals == old(refusals)
        invariant KernelOk(mem.cells, live) && Filling(f, i', busOffset, mem.cells, live) && Cutting(f, c, p, j, live)
        invariant KeepsOthers(InList(f), cells0, live0, mem.cells, live)
        decreases j
      {
        CutOne(f, c, p, j, i', cells0, live0);
        i', j := i' + 1, j - 1;
        p := p + f.size;
      }
      CuttingDone(f, c, p, j, live);
      ok := true;
    }

    /** The outer loop: i blocks of a DMA list are there, cut from n chunks of at most k. */
    ghost predicate Making(f: FreeList, n: nat, k: nat, i: nat, cells0: Heap, live0: Ledger)
      reads this, mem, f
    {
      && i <= f.count && f.dma && f.size > 0 && k == PerChunk(f.size)
      && |ChunksOf(f, live)| == n && Filled(n, k, i, f.count)
      && KernelOk(mem.cells, live) && PoolOk(pool, live)
      && Filling(f, i, busOffset, mem.cells, live) && Complete(f, f.home, live)
      && KeepsOthers(InList(f), cells0, live0, mem.cells, live)
    }

    method DmaTurn(f: FreeList, i: nat, order: nat, span: nat, ghost n: nat, ghost k: nat,
                   ghost cells0: Heap, ghost live0: Ledger)
        returns (ok: bool, i': nat)
      requires Making(f, n, k, i, cells0, live0) && i < f.count
      requires order == OrderFor(f.size) && span == Extent(Pages(order)) && f.size <= span
      modifies f`head, f`chain, f`home, mem, this`live, this`refusals
      ensures refusals >= old(refusals) && (ok <==> refusals == old(refusals))
      ensures KernelOk(mem.cells, live) && PoolOk(pool, live)
      ensures KeepsOthers(InList(f), cells0, live0, mem.cells, live)
      ensures ok ==> Making(f, n + 1, k, i', cells0, live0) && i' > i
    {
      hide KernelOk, PoolOk, Filling, Complete, KeepsOthers, ChunksOf;
      hide PerChunk, Filled, OrderFor, Extent;
      ok, i' := AllocDmaChunk(f, i, order, span, cells0, live0);
      if ok {
        FillsOneMore(n, k, i, i', f.count);
      }
    }

    method AllocDma(f: FreeList) returns (ok: bool)
      requires KernelOk(mem.cells, live) && PoolOk(pool, live) && f.dma
      requires Filling(f, 0, busOffset, mem.cells, live) && Complete(f, f.home, live)
      modifies f`head, f`chain, f`home, mem, this`live, this`refusals
      ensures refusals >= old(refusals) && (ok <==> refusals == old(refusals))
      ensures KernelOk(mem.cells, live) && PoolOk(pool, live)
      ensures KeepsOthers(InList(f), old(mem.cells), old(live), mem.cells, live)
      ensures ok ==> ListOk(f, busOffset, mem.cells, live) && f.size > 0 && Thrifty(f, live)
    {
      var order, span := ComputeOrder(f.size);
      var i := 0;
      MakingStarts(f);
      ghost var n, k, cells0, live0 := 0, PerChunk(f.size), mem.cells, live;
      hide *;
      while i < f.count
        invariant i <= f.count && refusals == old(refusals) && Making(f, n, k, i, cells0, live0)
      {
        var made;
        made, i := DmaTurn(f, i, order, span, n, k, cells0, live0);
        if !made {
          return false;
        }
        n := n + 1;
      }
      MakingEnds(f, n, k, i, cells0, live0);
      ok := true;
    }

    lemma MakingStarts(f: FreeList)
      requires KernelOk(mem.cells, live) && PoolOk(pool, live) && f.dma
      requires Filling(f, 0, busOffset, mem.cells, live) && Complete(f, f.home, live)
      ensures f.size > 0 && Making(f, 0, PerChunk(f.size), 0, mem.cells, live)
    {
      NoChunksYet(f, busOffset, mem.cells, live);
      FillingSized(f, 0, busOffset, mem.cells, live);
      NothingElse(f, mem.cells, live);
      NothingFilled(PerChunk(f.size), f.count);
      hide KernelOk, PoolOk, Filling, Complete, KeepsOthers, ChunksOf, PerChunk, Filled;
    }

    lemma MakingEnds(f: FreeList, n: nat, k: nat, i: nat, cells0: Heap, live0: Ledger)
      requires Making(f, n, k, i, cells0, live0) && i >= f.count
      ensures KernelOk(mem.cells, live) && PoolOk(pool, live)
      ensures KeepsOthers(InList(f), cells0, live0, mem.cells, live)
      ensures ListOk(f, busOffset, mem.cells, live) && f.size > 0 && Thrifty(f, live)
    {
      hide KernelOk, PoolOk, Filling, Complete, KeepsOthers, ChunksOf, PerChunk, Filled, Least, ListOk;
      AllFilled(n, k, i, f.count);
      FillingDone(f, busOffset, mem.cells, live);
    }

    // ----- hpt_free_mem

    method TakePlain(f: FreeList) returns (p: nat)
      requires Emptying(f, busOffset, mem.cells, live) && !f.dma
      modifies f`head, f`count, f`chain
      ensures p == NULL ==> f.chain == [] && Emptying(f, busOffset, mem.cells, live)
      ensures p != NULL ==> |f.chain| < old(|f.chain|) && Taken(f, p, busOffset, mem.cells, live)
    {
      if f.count > 0 {
        UnlinkHead(mem.cells, f.head, f.chain);
      }
      p := f.Get(mem);
    }

    method TakeDma(f: FreeList) returns (p: nat, busaddr: nat)
      requires Emptying(f, busOffset, mem.cells, live) && f.dma
      modifies f`head, f`count, f`chain
      ensures p == NULL ==> f.chain == [] && Emptying(f, busOffset, mem.cells, live)
      ensures p != NULL ==> |f.chain| < old(|f.chain|) && Taken(f, p, busOffset, mem.cells, live)
      ensures p != NULL ==> busaddr == p + busOffset
    {
      if f.count > 0 {
        UnlinkHead(mem.cells, f.head, f.chain);
      }
      p, busaddr := f.GetDma(mem);
    }

    method EmptySlab(f: FreeList)
      requires KernelOk(mem.cells, live) && PoolOk(pool, live)
      requires Emptying(f, busOffset, mem.cells, live) && !f.dma
      modifies f`head, f`count, f`chain, mem, this`live
      ensures KernelOk(mem.cells, live) && PoolOk(pool, live)
      ensures KeepsOthers(InList(f), old(mem.cells), old(live), mem.cells, live)
      ensures Emptying(f, busOffset, mem.cells, live) && f.chain == []
    {
      ghost var cells0, live0 := mem.cells, live;
      var p := TakePlain(f);
      while p != NULL
        invariant KernelOk(mem.cells, live) && PoolOk(pool, live)
        invariant if p == NULL then Emptying(f, busOffset, mem.cells, live) && f.chain == []
                  else Taken(f, p, busOffset, mem.cells, live)
        invariant KeepsOthers(InList(f), cells0, live0, mem.cells, live)
        decreases p != NULL, |f.chain|
      {
        hide *;
        FreePlain(f, p, cells0, live0);
        p := TakePlain(f);
      }
    }

    method FreePlain(f: FreeList, p: nat, ghost cells0: Heap, ghost live0: Ledger)
      requires KernelOk(mem.cells, live) && PoolOk(pool, live) && !f.dma
      requires Taken(f, p, busOffset, mem.cells, live)
      requires KeepsOthers(InList(f), cells0, live0, mem.cells, live)
      modifies mem, this`live
      ensures KernelOk(mem.cells, live) && PoolOk(pool, live) && Emptying(f, busOffset, mem.cells, live)
      ensures KeepsOthers(InList(f), cells0, live0, mem.cells, live)
    {
      ghost var cells1, live1 := mem.cells, live;
      Release(p, Slab(f.size));
      KeepsOthersGone(cells1, live1, mem.cells, live, p);
      KeepsOthersTrans(InList(f), cells0, live0, cells1, live1, mem.cells, live);
      ReleasedHead(f, p, busOffset, cells1, live1, mem.cells, live);
    }

    /** The body of the DMA teardown loop, for the block p just taken off. */
    method DealWith(f: FreeList, p: nat, busaddr: nat, order: nat, ghost cells0: Heap, ghost live0: Ledger)
      requires KernelOk(mem.cells, live) && PoolOk(pool, live) && f.dma && order == OrderFor(f.size)
      requires Taken(f, p, busOffset, mem.cells, live) && busaddr == p + busOffset
      requires KeepsOthers(InList(f), cells0, live0, mem.cells, live)
      modifies mem, this`live, this`pool
      ensures KernelOk(mem.cells, live) && PoolOk(pool, live) && Emptying(f, busOffset, mem.cells, live)
      ensures KeepsOthers(InList(f), cells0, live0, mem.cells, live)
    {
      ghost var cells1, live1 := mem.cells, live;
      if order > 0 {
        Release(p, Pages(order));
        KeepsOthersGone(cells1, live1, mem.cells, live, p);
        ReleasedHead(f, p, busOffset, cells1, live1, mem.cells, live);
      } else if p % PAGE_SIZE == 0 {
        // not freed at once: other blocks of this page may still be linked
        ghost var junk := DmapoolPut(p, busaddr);
        KeepsOthersPooled(f, cells1, live1, p, junk);
        PooledHead(f, p, busOffset, cells1, live1, junk);
      } else {
        SkippedInterior(f, p, busOffset, mem.cells, live);
      }
      KeepsOthersTrans(InList(f), cells0, live0, cells1, live1, mem.cells, live);
    }

    method EmptyDma(f: FreeList)
      requires KernelOk(mem.cells, live) && PoolOk(pool, live)
      requires Emptying(f, busOffset, mem.cells, live) && f.dma
      modifies f`head, f`count, f`chain, mem, this`live, this`pool
      ensures KernelOk(mem.cells, live) && PoolOk(pool, live)
      ensures KeepsOthers(InList(f), old(mem.cells), old(live), mem.cells, live)
      ensures Emptying(f, busOffset, mem.cells, live) && f.chain == []
    {
      ghost var cells0, live0 := mem.cells, live;
      var order, _ := ComputeOrder(f.size);
      var p: nat, busaddr: nat;
      p, busaddr := TakeDma(f);
      while p != NULL
        invariant KernelOk(mem.cells, live) && PoolOk(pool, live)
        invariant if p == NULL then Emptying(f, busOffset, mem.cells, live) && f.chain == []
                  else Taken(f, p, busOffset, mem.cells, live) && busaddr == p + busOffset
        invariant KeepsOthers(InList(f), cells0, live0, mem.cells, live)
        decreases p != NULL, |f.chain|
      {
        hide KernelOk, PoolOk, KeepsOthers, Emptying, Taken, OrderFor;
        DealWith(f, p, busaddr, order, cells0, live0);
        p, busaddr := TakeDma(f);
      }
    }

    /** Before list i is emptied: it and the later ones are whole and nothing of them is handed out. */
    ghost predicate Remaining(fs: seq<FreeList>, i: nat)
      reads this, mem, fs
    {
      && DistinctLists(fs) && KernelOk(mem.cells, live) && OthersOk(pool, sdFlags, maxTargets, live)
      && ListsOk(fs, i, |fs|, busOffset, mem.cells, live)
      && forall j :: i <= j < |fs| ==> Idle(fs[j])
    }

    method EmptyNext(fs: seq<FreeList>, i: nat)
      requires i < |fs| && Remaining(fs, i)
      modifies fs[i], mem, this`live, this`pool
      ensures Remaining(fs, i + 1)
      ensures !fs[i].dma ==> pool == old(pool)
    {
      hide KernelOk, ListOk, Emptying, KeepsOthers, PoolOk;
      ghost var cells, live0 := mem.cells, live;
      var f := fs[i];
      IdleListCanEmpty(f, busOffset, mem.cells, live);
      if f.dma {
        EmptyDma(f);
      } else {
        EmptySlab(f);
      }
      OthersKept(old(pool), sdFlags, maxTargets, f, cells, live0, mem.cells, live);
      ListsShrink(fs, i, busOffset, cells, live0, mem.cells, live);
    }

    /** dmapool_get_page and free_page. */
    method FreePoolPage(fs: seq<FreeList>, i: nat) returns (p: nat)
      requires Remaining(fs, i)
      modifies mem, this`live, this`pool
      ensures Remaining(fs, i)
      ensures old(pool) == {} ==> p == NULL && pool == {}
      ensures old(pool) != {} ==> p != NULL && p in old(pool) && pool == old(pool) - {p}
    {
      hide ListsOk, KernelOk, KeepsOthers;
      ghost var cells, live0 := mem.cells, live;
      assert NULL !in pool by {
        PoolPagesReal(pool, mem.cells, live);
      }
      var busaddr;
      p, busaddr := DmapoolGet();
      if p != NULL {
        Release(p, Pages(0));
        KeepsOthersGone(cells, live0, mem.cells, live, p);
        ListsUntouched(fs, i, |fs|, InPool, busOffset, cells, live0, mem.cells, live);
      }
    }

    /** The first loop of hpt_free_mem, and the third: the lists from lo to hi are emptied. */
    method EmptyLists(fs: seq<FreeList>, lo: nat, hi: nat)
      requires lo <= hi <= |fs| && Remaining(fs, lo)
      modifies fs, mem, this`live, this`pool
      ensures Remaining(fs, hi)
      ensures (forall j :: lo <= j < hi ==> !fs[j].dma) ==> pool == old(pool)
    {
      hide Remaining;
      for i := lo to hi
        invariant Remaining(fs, i)
        invariant (forall j :: lo <= j < hi ==> !fs[j].dma) ==> pool == old(pool)
      {
        EmptyNext(fs, i);
      }
    }

    /** The second loop: the cache pages, which the pool holds again by now. */
    method FreeCachePages(fs: seq<FreeList>, i: nat)
      requires Remaining(fs, i) && |pool| == cachePages
      modifies mem, this`live, this`pool
      ensures Remaining(fs, i) && pool == {}
    {
      hide Remaining;
      for k := 0 to cachePages
        invariant Remaining(fs, i) && |pool| == cachePages - k
      {
        var p := FreePoolPage(fs, i);
        assert p != NULL;
      }
    }

    /** The last loop: the pages of carved lists, none of which has a linked block any more. */
    method FreePool(fs: seq<FreeList>)
      requires Remaining(fs, |fs|)
      modifies mem, this`live, this`pool
      ensures Remaining(fs, |fs|) && pool == {}
    {
      hide Remaining;
      var p := FreePoolPage(fs, |fs|);
      while p != NULL
        invariant Remaining(fs, |fs|) && (p == NULL ==> pool == {})
        decreases p != NULL, pool
      {
        p := FreePoolPage(fs, |fs|);
      }
    }

    /** hpt_free_mem: everything that was ever taken from the kernel goes back, each chunk once. */
    method FreeMem(fs: seq<FreeList>)
      requires fs == lists + dmaLists && Valid(fs) && AllIdle(fs) && lent == {}
      modifies fs, mem, this`live, this`pool
      ensures live == map[] && pool == {}
    {
      hide *;
      var plain := |lists|;
      ReadyToFree(fs);
      EmptyLists(fs, 0, plain);
      FreeCachePages(fs, plain);
      EmptyLists(fs, plain, |fs|);
      FreePool(fs);
      FreeFlags(fs);
    }

    lemma ReadyToFree(fs: seq<FreeList>)
      requires fs == lists + dmaLists && Valid(fs) && AllIdle(fs) && lent == {}
      ensures Remaining(fs, 0) && |lists| <= |fs| && |pool| == cachePages && sdFlags != NULL
      ensures forall j :: 0 <= j < |lists| ==> !fs[j].dma
    {
      assert pool + lent == pool;
    }

    method FreeFlags(fs: seq<FreeList>)
      requires Remaining(fs, |fs|) && pool == {} && sdFlags != NULL
      modifies mem, this`live
      ensures live == map[]
    {
      OnlyFlagsLeft(fs, busOffset, pool, sdFlags, maxTargets, mem.cells, live);
      hide ListsOk, KernelOk;
      Release(sdFlags, Slab(maxTargets));
    }

    // ----- hpt_alloc_mem, over all lists

    /** Lists up to i are made, the later ones only reserved. */
    ghost predicate Built(fs: seq<FreeList>, i: nat)
      reads this, mem, fs
    {
      && i <= |fs| && DistinctLists(fs) && KernelOk(mem.cells, live) && OthersOk(pool, NULL, maxTargets, live)
      && ListsOk(fs, 0, i, busOffset, mem.cells, live) && AllThrifty(fs, i, live)
      && (forall j :: 0 <= j < i ==> Idle(fs[j])) && forall j :: i <= j < |fs| ==> Reserved(fs[j])
    }

    method AllocList(f: FreeList) returns (ok: bool)
      requires KernelOk(mem.cells, live) && PoolOk(pool, live)
      requires Filling(f, 0, busOffset, mem.cells, live) && Complete(f, f.home, live) && Idle(f)
      modifies f`head, f`chain, f`home, mem, this`live, this`refusals
      ensures refusals >= old(refusals) && (ok <==> refusals == old(refusals))
      ensures KernelOk(mem.cells, live) && PoolOk(pool, live)
      ensures KeepsOthers(InList(f), old(mem.cells), old(live), mem.cells, live)
      ensures ok ==> ListOk(f, busOffset, mem.cells, live) && Idle(f) && f.size > 0 && Thrifty(f, live)
    {
      if f.dma {
        ok := AllocDma(f);
      } else {
        ok := AllocSlab(f);
      }
      hide KernelOk, PoolOk, Filling, Complete, KeepsOthers, ListOk, Thrifty;
    }

    method BuildNext(f: FreeList, ghost fs: seq<FreeList>, ghost i: nat) returns (ok: bool)
      requires i < |fs| && f == fs[i] && Built(fs, i)
      modifies f`head, f`chain, f`home, mem, this`live, this`refusals
      ensures refusals >= old(refusals) && (ok <==> refusals == old(refusals))
      ensures ok ==> Built(fs, i + 1)
    {
      hide *;
      ghost var cells, live0 := mem.cells, live;
      BuiltParts(fs, i);
      ok := AllocList(f);
      if ok {
        BuiltGrows(fs, i, cells, live0);
      }
    }

    lemma BuiltParts(fs: seq<FreeList>, i: nat)
      requires i < |fs| && Built(fs, i)
      ensures DistinctLists(fs) && KernelOk(mem.cells, live) && PoolOk(pool, live)
      ensures OthersOk(pool, NULL, maxTargets, live) && OwnedBy(fs, i, live)
      ensures forall j :: 0 <= j < i ==> Made(fs[j], busOffset, mem.cells, live)
      ensures Filling(fs[i], 0, busOffset, mem.cells, live) && Complete(fs[i], fs[i].home, live) && Idle(fs[i])
      ensures forall j :: i < j < |fs| ==> Reserved(fs[j])
      ensures forall j :: 0 <= j < |fs| && j != i ==> fs[j] != fs[i]
    {
      assert Idle(fs[i]);
      hide KernelOk, PoolOk, ListOk, Thrifty, Made, Filling, Complete, Idle;
      OwnsNothingYet(fs, i, busOffset, mem.cells, live);
      EachMade(fs, i, busOffset, mem.cells, live);
    }

    lemma BuiltGrows(fs: seq<FreeList>, i: nat, cells: Heap, live0: Ledger)
      requires i < |fs| && DistinctLists(fs) && KernelOk(mem.cells, live) && PoolOk(pool, live)
      requires OthersOk(pool, NULL, maxTargets, live0) && OwnedBy(fs, i, live0)
      requires forall j :: 0 <= j < i ==> Made(fs[j], busOffset, cells, live0)
      requires KeepsOthers(InList(fs[i]), cells, live0, mem.cells, live)
      requires ListOk(fs[i], busOffset, mem.cells, live) && Idle(fs[i]) && fs[i].size > 0 && Thrifty(fs[i], live)
      requires forall j :: i < j < |fs| ==> Reserved(fs[j])
      ensures Built(fs, i + 1)
    {
      hide KernelOk, PoolOk, OthersOk, ListOk, ListsOk, Thrifty, AllThrifty, KeepsOthers, Idle, Reserved, DistinctLists;
      hide Made, OwnedBy;
      AllMade(fs, i, busOffset, cells, live0);
      OthersStay(pool, NULL, maxTargets, fs[i], cells, live0, mem.cells, live);
      ListsGrow(fs, i, busOffset, cells, live0, mem.cells, live);
      ThriftyGrows(fs, i, cells, live0, mem.cells, live);
    }

    method BuildPoolPage(fs: seq<FreeList>) returns (ok: bool)
      requires Built(fs, |fs|)
      modifies mem, this`live, this`pool, this`refusals
      ensures refusals >= old(refusals) && (ok <==> refusals == old(refusals))
      ensures ok ==> Built(fs, |fs|) && |pool| == old(|pool|) + 1
    {
      hide KernelOk, ListsOk, KeepsOthers, DistinctLists, Idle, Reserved, AllThrifty;
      ghost var cells, live0 := mem.cells, live;
      var p := Allocate(Pages(0), Loose);
      if p == NULL {
        return false;
      }
      KeepsOthersNew(cells, live0, mem.cells, live, p, Chunk(Pages(0), Loose));
      ThriftyKept(fs, |fs|, Loose, cells, live0, mem.cells, live);
      ListsUntouched(fs, 0, |fs|, Loose, busOffset, cells, live0, mem.cells, live);
      hide NewChunk;
      PoolLoosePage(fs, p);
      ok := true;
    }

    method PoolLoosePage(fs: seq<FreeList>, p: nat)
      requires KernelOk(mem.cells, live) && ListsOk(fs, 0, |fs|, busOffset, mem.cells, live)
      requires AllThrifty(fs, |fs|, live)
      requires p in live && live[p] == Chunk(Pages(0), Loose) && p !in pool
      requires OthersOk(pool, NULL, maxTargets, live - {p})
      modifies mem, this`live, this`pool
      ensures KernelOk(mem.cells, live) && ListsOk(fs, 0, |fs|, busOffset, mem.cells, live)
      ensures AllThrifty(fs, |fs|, live)
      ensures OthersOk(pool, NULL, maxTargets, live) && pool == old(pool) + {p}
    {
      hide KernelOk, ListsOk, KeepsOthers, AllThrifty;
      ghost var cells, live0 := mem.cells, live;
      PoolGains(pool, maxTargets, live, p);
      ghost var junk := DmapoolPut(p, p + busOffset);
      KeepsOthersPooledLoose(cells, live0, p, junk);
      ThriftyKept(fs, |fs|, Loose, cells, live0, mem.cells, live);
      ListsUntouched(fs, 0, |fs|, Loose, busOffset, cells, live0, mem.cells, live);
    }

    method BuildFlags(fs: seq<FreeList>) returns (ok: bool)
      requires Built(fs, |fs|) && maxTargets > 0
      requires fs == lists + dmaLists && ListOrder(fs, |lists|) && |pool| == cachePages && lent == {}
      modifies mem, this`live, this`sdFlags, this`refusals
      ensures refusals >= old(refusals) && (ok <==> refusals == old(refusals))
      ensures ok ==> Valid(fs) && AllIdle(fs) && AllThrifty(fs, |fs|, live)
    {
      hide KernelOk, ListsOk, KeepsOthers, Unmapped, Mapped, SameOutside, OthersOk;
      hide AllThrifty, DistinctLists, ListOrder, Idle, Reserved;
      ghost var cells, live0 := mem.cells, live;
      sdFlags := Allocate(Slab(maxTargets), SdFlags);
      ok := sdFlags != NULL;
      if ok {
        KeepsOthersNew(cells, live0, mem.cells, live, sdFlags, Chunk(Slab(maxTargets), SdFlags));
        ThriftyKept(fs, |fs|, SdFlags, cells, live0, mem.cells, live);
        ListsUntouched(fs, 0, |fs|, SdFlags, busOffset, cells, live0, mem.cells, live);
        FlagsGained(pool, maxTargets, cells, live0, sdFlags);
        assert pool + lent == pool;
      }
    }

    method BuildLists(fs: seq<FreeList>) returns (ok: bool)
      requires Built(fs, 0)
      modifies fs`head, fs`chain, fs`home, mem, this`live, this`refusals
      ensures refusals >= old(refusals) && (ok <==> refusals == old(refusals))
      ensures ok ==> Built(fs, |fs|)
    {
      hide Built;
      for i := 0 to |fs|
        invariant Built(fs, i) && refusals == old(refusals)
      {
        ok := BuildNext(fs[i], fs, i);
        if !ok {
          return;
        }
      }
      ok := true;
    }

    method BuildPool(fs: seq<FreeList>) returns (ok: bool)
      requires Built(fs, |fs|) && pool == {}
      modifies mem, this`live, this`pool, this`refusals
      ensures refusals >= old(refusals) && (ok <==> refusals == old(refusals))
      ensures ok ==> Built(fs, |fs|) && |pool| == cachePages
    {
      hide Built;
      for k := 0 to cachePages
        invariant Built(fs, |fs|) && |pool| == k && refusals == old(refusals)
      {
        ok := BuildPoolPage(fs);
        if !ok {
          return;
        }
      }
      ok := true;
    }

    /**
     * hpt_alloc_mem: on success every list holds as many blocks as were announced, since its count is
     * not touched. On failure nothing is promised, as in the source.
     */
    method AllocMem(fs: seq<FreeList>) returns (ok: bool)
      requires fs == lists + dmaLists && ListOrder(fs, |lists|)
      requires live == map[] && pool == {} && lent == {} && mem.cells == map[] && maxTargets > 0
      requires forall j :: 0 <= j < |fs| ==> Reserved(fs[j])
      modifies fs`head, fs`chain, fs`home, mem, this`live, this`pool, this`sdFlags, this`refusals
      ensures refusals >= old(refusals) && (ok <==> refusals == old(refusals))
      ensures ok ==> Valid(fs) && AllIdle(fs) && AllThrifty(fs, |fs|, live)
    {
      hide *;
      ReadyToBuild(fs);
      ok := BuildLists(fs);
      if ok {
        ok := BuildPool(fs);
      }
      if ok {
        ok := BuildFlags(fs);
      }
    }

    lemma ReadyToBuild(fs: seq<FreeList>)
      requires ListOrder(fs, |lists|) && live == map[] && pool == {}
      requires forall j :: 0 <= j < |fs| ==> Reserved(fs[j])
      ensures Built(fs, 0)
    {
      hide Reserved, DistinctLists;
    }

    // ----- while the driver runs

    /** The driver takes a block of list k. */
    method GetBlock(fs: seq<FreeList>, k: nat) returns (p: nat, busaddr: nat)
      requires Valid(fs) && k < |fs|
      modifies fs[k]
      ensures Valid(fs) && fs[k].unused == old(fs[k].unused) && fs[k].home == old(fs[k].home)
      ensures p == NULL <==> old(fs[k].count) == 0
      ensures p == NULL ==> fs[k].out == old(fs[k].out)
      ensures p != NULL ==> p in fs[k].home && p !in old(fs[k].out) && fs[k].out == old(fs[k].out) + {p}
      ensures p != NULL && fs[k].dma ==> busaddr == p + busOffset
    {
      ghost var cells := mem.cells;
      assert ListOk(fs[k], busOffset, cells, live);
      p, busaddr := TakeBlock(fs[k], false);
      ListChanged(fs, k, cells);
      hide KernelOk, ListsOk, ListOk, OthersOk, KeepsOthers;
    }

    /** A command group with a reservation left takes a command: it always gets one. */
    method GroupGetBlock(fs: seq<FreeList>, k: nat) returns (p: nat)
      requires Valid(fs) && k < |fs| && !fs[k].dma && fs[k].unused > 0
      modifies fs[k]
      ensures Valid(fs) && fs[k].unused == old(fs[k].unused) - 1 && fs[k].home == old(fs[k].home)
      ensures p != NULL && p in fs[k].home && p !in old(fs[k].out) && fs[k].out == old(fs[k].out) + {p}
    {
      ghost var cells := mem.cells;
      assert ListOk(fs[k], busOffset, cells, live);
      var busaddr;
      p, busaddr := TakeBlock(fs[k], true);
      ListChanged(fs, k, cells);
      hide KernelOk, ListsOk, ListOk, OthersOk, KeepsOthers;
    }

    method TakeBlock(f: FreeList, grouped: bool) returns (p: nat, busaddr: nat)
      requires ListOk(f, busOffset, mem.cells, live)
      requires grouped ==> !f.dma && f.unused > 0
      modifies f
      ensures ListOk(f, busOffset, mem.cells, live) && f.home == old(f.home)
      ensures f.unused == old(f.unused) - if grouped then 1 else 0
      ensures p == NULL <==> !grouped && old(f.count) == 0
      ensures p == NULL ==> f.out == old(f.out)
      ensures p != NULL ==> p in f.home && p !in old(f.out) && f.out == old(f.out) + {p}
      ensures p != NULL && f.dma ==> busaddr == p + busOffset
    {
      if f.chain != [] {
        UnlinkHead(mem.cells, f.head, f.chain);
        assert f.chain[0].addr in Addrs(f.chain);
      }
      busaddr := 0;
      if f.dma {
        p, busaddr := f.GetDma(mem);
      } else if grouped {
        p := f.GroupGet(mem);
      } else {
        p := f.Get(mem);
      }
      hide Linked, Carved, Complete;
      if p != NULL {
        f.out := f.out + {p};
      }
    }

    /** The driver returns a block of list k, with the bus address it was given. */
    method PutBlock(fs: seq<FreeList>, k: nat, p: nat, busaddr: nat)
      requires Valid(fs) && k < |fs| && p in fs[k].out
      requires fs[k].dma ==> busaddr == p + busOffset
      modifies fs[k], mem
      ensures Valid(fs) && fs[k].out == old(fs[k].out) - {p}
      ensures fs[k].unused == old(fs[k].unused) && fs[k].home == old(fs[k].home)
    {
      ghost var cells := mem.cells;
      var f := fs[k];
      assert ListOk(f, busOffset, cells, live) && KernelOk(cells, live);
      ReturnBlock(f, p, busaddr, false);
      ListsReplaced(fs, k, busOffset, cells, mem.cells, live);
      hide KernelOk, ListsOk, ListOk, OthersOk, KeepsOthers;
    }

    /** A command goes back to the group's reservation. */
    method GroupPutBlock(fs: seq<FreeList>, k: nat, p: nat)
      requires Valid(fs) && k < |fs| && !fs[k].dma && p in fs[k].out
      modifies fs[k], mem
      ensures Valid(fs) && fs[k].out == old(fs[k].out) - {p}
      ensures fs[k].unused == old(fs[k].unused) + 1 && fs[k].home == old(fs[k].home)
    {
      ghost var cells := mem.cells;
      var f := fs[k];
      assert ListOk(f, busOffset, cells, live) && KernelOk(cells, live);
      ReturnBlock(f, p, 0, true);
      ListsReplaced(fs, k, busOffset, cells, mem.cells, live);
      hide KernelOk, ListsOk, ListOk, OthersOk, KeepsOthers;
    }

    method ReturnBlock(f: FreeList, p: nat, busaddr: nat, grouped: bool)
      requires KernelOk(mem.cells, live) && ListOk(f, busOffset, mem.cells, live) && p in f.out
      requires f.dma ==> busaddr == p + busOffset && !grouped
      modifies f, mem
      ensures KernelOk(mem.cells, live) && ListOk(f, busOffset, mem.cells, live)
      ensures KeepsOthers(InList(f), old(mem.cells), live, mem.cells, live)
      ensures f.out == old(f.out) - {p} && f.home == old(f.home)
      ensures f.unused == old(f.unused) + if grouped then 1 else 0
    {
      ghost var bus := if f.dma then busaddr else if p in mem.cells then mem.cells[p].bus else 0;
      ghost var blocks, out := Addrs(f.chain), f.out;
      ReturnFacts(f, p, bus, busOffset, mem.cells, live);
      hide *;
      Thread(f, p, busaddr, grouped, bus);
      f.out := f.out - {p};
      ListOkReturned(f, blocks, out, p, busOffset, mem.cells, live);
    }

    /** freelist_put_dma, freelist_put or CMD_GROUP_PUT. */
    method Thread(f: FreeList, p: nat, busaddr: nat, grouped: bool, ghost bus: nat)
      requires Linked(mem.cells, f.head, f.chain) && |f.chain| == f.count + f.unused
      requires p != NULL && p in mem.cells && p !in Addrs(f.chain) && (f.dma ==> !grouped)
      requires bus == if f.dma then busaddr else mem.cells[p].bus
      modifies f`head, f`count, f`chain, f`unused, mem
      ensures mem.cells == old(mem.cells)[p := Cell(old(f.head), bus)]
      ensures f.chain == [Block(p, bus)] + old(f.chain) && f.head == p
      ensures f.count == old(f.count) + if grouped then 0 else 1
      ensures f.unused == old(f.unused) + if grouped then 1 else 0
    {
      if f.dma {
        f.PutDma(mem, p, busaddr);
      } else if grouped {
        f.GroupPut(mem, p);
      } else {
        f.Put(mem, p);
      }
      assert f.head == AddrAt(f.chain, 0);
    }

    /** LDM sets n commands of list k aside for a command group. */
    method ReserveGroup(fs: seq<FreeList>, k: nat, n: nat) returns (ok: bool)
      requires Valid(fs) && k < |fs|
      modifies fs[k]
      ensures Valid(fs) && (ok <==> n <= old(fs[k].count))
      ensures fs[k].unused == old(fs[k].unused) + if ok then n else 0
      ensures fs[k].out == old(fs[k].out) && fs[k].home == old(fs[k].home)
    {
      ghost var cells := mem.cells;
      assert ListOk(fs[k], busOffset, cells, live);
      ok := SetAside(fs[k], n);
      ListChanged(fs, k, cells);
      hide KernelOk, ListsOk, ListOk, OthersOk, KeepsOthers;
    }

    method ReleaseGroup(fs: seq<FreeList>, k: nat, n: nat)
      requires Valid(fs) && k < |fs| && n <= fs[k].unused
      modifies fs[k]
      ensures Valid(fs) && fs[k].unused == old(fs[k].unused) - n
      ensures fs[k].out == old(fs[k].out) && fs[k].home == old(fs[k].home)
    {
      ghost var cells := mem.cells;
      assert ListOk(fs[k], busOffset, cells, live);
      GiveUp(fs[k], n);
      ListChanged(fs, k, cells);
      hide KernelOk, ListsOk, ListOk, OthersOk, KeepsOthers;
    }

    method SetAside(f: FreeList, n: nat) returns (ok: bool)
      requires ListOk(f, busOffset, mem.cells, live)
      modifies f`count, f`unused
      ensures ListOk(f, busOffset, mem.cells, live) && (ok <==> n <= old(f.count))
      ensures f.unused == old(f.unused) + if ok then n else 0
    {
      hide Linked, Carved, Complete, OwnBus;
      ok := f.ReserveForGroup(mem, n);
    }

    method GiveUp(f: FreeList, n: nat)
      requires ListOk(f, busOffset, mem.cells, live) && n <= f.unused
      modifies f`count, f`unused
      ensures ListOk(f, busOffset, mem.cells, live) && f.unused == old(f.unused) - n
    {
      hide Linked, Carved, Complete, OwnBus;
      f.ReleaseFromGroup(mem, n);
    }

    /** A change of one list that touches no memory. */
    lemma ListChanged(fs: seq<FreeList>, k: nat, cells: Heap)
      requires k < |fs| && DistinctLists(fs) && mem.cells == cells
      requires forall j :: 0 <= j < |fs| && j != k ==> ListOk(fs[j], busOffset, cells, live)
      requires forall c :: c in live && live[c].owner.InList? ==> live[c].owner.list in fs[0..|fs|]
      requires ListOk(fs[k], busOffset, cells, live)
      ensures ListsOk(fs, 0, |fs|, busOffset, mem.cells, live)
    {
      hide ListOk;
      NothingElse(fs[k], cells, live);
      ListsReplaced(fs, k, busOffset, cells, mem.cells, live);
    }

    /** The driver and its devices write what they like, where they like, into a block they hold. */
    method Scribble(fs: seq<FreeList>, k: nat, p: nat, content: Heap)
      requires Valid(fs) && k < |fs| && p in fs[k].out
      requires forall a: nat :: a in content ==> InRange(a, p, fs[k].size)
      modifies mem
      ensures Valid(fs) && mem.cells == old(mem.cells) + content
    {
      ghost var cells := mem.cells;
      var f := fs[k];
      assert ListOk(f, busOffset, cells, live) && KernelOk(cells, live);
      WrittenBlock(f, p, content, cells);
      mem.cells := mem.cells + content;
      ListsReplaced(fs, k, busOffset, cells, mem.cells, live);
      hide KernelOk, ListsOk, ListOk, OthersOk, KeepsOthers;
    }

    lemma WrittenBlock(f: FreeList, p: nat, content: Heap, cells: Heap)
      requires KernelOk(cells, live) && ListOk(f, busOffset, cells, live) && p in f.out
      requires forall a: nat :: a in content ==> InRange(a, p, f.size)
      ensures KernelOk(cells + content, live) && ListOk(f, busOffset, cells + content, live)
      ensures KeepsOthers(InList(f), cells, live, cells + content, live)
    {
      var c := f.home[p];
      assert BlockOk(f, f.home, live, p);
      assert forall a: nat :: a in content ==> InRange(a, c, SpanOf(live, c));
      KernelWrites(cells, live, content);
      KeepsOthersWrites(InList(f), cells, live, c, content);
      forall b | b in Addrs(f.chain)
        ensures b !in content
      {
        assert b in f.home && Apart(b, f.size, p, f.size);
      }
      LinkedFrame(cells, cells + content, f.head, f.chain);
    }

    /** LDM takes a page, if the pool has one. */
    method LendPage(fs: seq<FreeList>) returns (p: nat, busaddr: nat)
      requires Valid(fs)
      modifies this`pool, this`lent
      ensures Valid(fs) && busaddr == p + busOffset
      ensures p == NULL <==> old(pool) == {}
      ensures p == NULL ==> pool == {} && lent == old(lent)
      ensures p != NULL ==> p in old(pool) && pool == old(pool) - {p} && lent == old(lent) + {p}
    {
      hide Accounted;
      assert NULL !in pool by {
        PagesReal(fs, pool + lent);
      }
      ghost var pages := pool + lent;
      p, busaddr := DmapoolGet();
      if p != NULL {
        lent := lent + {p};
      }
      assert pool + lent == pages;
    }

    lemma PagesReal(fs: seq<FreeList>, pages: set<nat>)
      requires Accounted(fs, pages)
      ensures KernelOk(mem.cells, live) && PoolOk(pages, live) && NULL !in pages
    {
      PoolPagesReal(pages, mem.cells, live);
    }

    /** LDM returns a page, with the bus address it was given. */
    method ReturnPage(fs: seq<FreeList>, p: nat, busaddr: nat)
      requires Valid(fs) && p in lent && busaddr == p + busOffset
      modifies mem, this`pool, this`lent, this`live
      ensures Valid(fs) && pool == old(pool) + {p} && lent == old(lent) - {p}
    {
      hide Accounted;
      ghost var pages := pool + lent;
      PutBackPage(fs, p, busaddr, pages);
      lent := lent - {p};
      assert pool + lent == pages;
    }

    method PutBackPage(fs: seq<FreeList>, p: nat, busaddr: nat, ghost pages: set<nat>)
      requires Accounted(fs, pages) && p in pages && p !in pool && busaddr == p + busOffset
      modifies mem, this`pool, this`live
      ensures Accounted(fs, pages) && pool == old(pool) + {p}
    {
      hide KernelOk, PoolOk, ListsOk, OthersOk, ListOrder, SpanOf;
      ghost var cells, live0 := mem.cells, live;
      PagesReal(fs, pages);
      PoolPage(pages, p);
      ghost var junk := DmapoolPut(p, busaddr);
      assert live == live0;
      PageWritten(fs, pages, p, map[p := junk], cells);
    }

    /** Writes into a page of the pool concern nobody else. */
    lemma PageWritten(fs: seq<FreeList>, pages: set<nat>, p: nat, content: Heap, cells: Heap)
      requires mem.cells == cells + content && KernelOk(cells, live) && p in pages && PoolOk(pages, live)
      requires fs == lists + dmaLists && ListOrder(fs, |lists|) && OthersOk(pages, sdFlags, maxTargets, live)
      requires ListsOk(fs, 0, |fs|, busOffset, cells, live) && sdFlags != NULL && |pages| == cachePages
      requires forall a: nat :: a in content ==> InRange(a, p, PAGE_SIZE)
      ensures Accounted(fs, pages)
    {
      OnePage(live, p);
      assert content.Keys <= cells.Keys by {
        assert Mapped(cells, p, SpanOf(live, p));
      }
      KernelWrites(cells, live, content);
      KeepsOthersWrites(InPool, cells, live, p, content);
      ListsUntouched(fs, 0, |fs|, InPool, busOffset, cells, live, mem.cells, live);
      hide KernelOk, ListsOk, OthersOk, KeepsOthers;
    }

    /** LDM and the devices write what they like, where they like, into a page LDM holds. */
    method ScribblePage(fs: seq<FreeList>, p: nat, content: Heap)
      requires Valid(fs) && p in lent
      requires forall a: nat :: a in content ==> InRange(a, p, PAGE_SIZE)
      modifies mem
      ensures Valid(fs) && mem.cells == old(mem.cells) + content
    {
      ghost var cells := mem.cells;
      assert Accounted(fs, pool + lent);
      hide KernelOk, ListsOk, OthersOk, ListOrder;
      PagesReal(fs, pool + lent);
      mem.cells := mem.cells + content;
      PageWritten(fs, pool + lent, p, content, cells);
    }

    lemma PoolPage(pages: set<nat>, p: nat)
      requires PoolOk(pages, live) && p in pages
      ensures p in live && live[p] == Chunk(Pages(0), InPool)
    {
    }

    /** The lists, the flag array and the pages of the pool account for what the kernel has given out. */
    ghost predicate Accounted(fs: seq<FreeList>, pages: set<nat>)
      reads this`lists, this`dmaLists, this`sdFlags, this`live, mem, fs
    {
      && fs == lists + dmaLists && ListOrder(fs, |lists|)
      && KernelOk(mem.cells, live) && OthersOk(pages, sdFlags, maxTargets, live)
      && ListsOk(fs, 0, |fs|, busOffset, mem.cells, live)
      && sdFlags != NULL && |pages| == cachePages
    }

    /** The state between hpt_alloc_mem and hpt_free_mem; fs are all lists. */
    ghost predicate Valid(fs: seq<FreeList>)
      reads this, mem, fs
    {
      Accounted(fs, pool + lent) && pool !! lent
    }
  }
}
