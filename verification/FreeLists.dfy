/**
 * The intrusive free lists of os_linux.c and ldm.h, over an explicit memory: the link of a free
 * block, and for a DMA block its bus address, are stored in the block itself.
 */
module FreeLists {
  const NULL: nat := 0

  /** The first two words of a block, as freelist code sees them. */
  datatype Cell = Cell(next: nat, bus: nat)

  /** A linked block and the bus address stored in it. */
  datatype Block = Block(addr: nat, bus: nat)

  type Heap = map<nat, Cell>

  function AddrAt(chain: seq<Block>, i: nat): nat
  {
    if i < |chain| then chain[i].addr else NULL
  }

  function Addrs(chain: seq<Block>): set<nat>
  {
    set i | 0 <= i < |chain| :: chain[i].addr
  }

  ghost predicate DistinctBlocks(chain: seq<Block>)
  {
    forall i, j :: 0 <= i < j < |chain| ==> chain[i].addr != chain[j].addr
  }

  /** The i-th block of the chain stores the link to the next one. */
  ghost predicate LinkAt(heap: Heap, chain: seq<Block>, i: nat)
    requires i < |chain|
  {
    && chain[i].addr != NULL && chain[i].addr in heap
    && heap[chain[i].addr] == Cell(AddrAt(chain, i + 1), chain[i].bus)
  }

  /** The words from head on spell out exactly this acyclic chain. */
  ghost predicate Linked(heap: Heap, head: nat, chain: seq<Block>)
  {
    && head == AddrAt(chain, 0) && DistinctBlocks(chain)
    && forall i :: 0 <= i < |chain| ==> LinkAt(heap, chain, i)
  }

  lemma UnlinkHead(heap: Heap, head: nat, chain: seq<Block>)
    requires Linked(heap, head, chain) && chain != []
    ensures head == chain[0].addr && head in heap && heap[head].bus == chain[0].bus
    ensures Linked(heap, heap[head].next, chain[1..])
    ensures Addrs(chain[1..]) == Addrs(chain) - {head}
  {
    assert LinkAt(heap, chain, 0);
    var rest := chain[1..];
    forall i | 0 <= i < |rest|
      ensures LinkAt(heap, rest, i)
    {
      assert LinkAt(heap, chain, i + 1);
    }
    forall a
      ensures a in Addrs(rest) <==> a in Addrs(chain) && a != head
    {
      if a in Addrs(chain) && a != head {
        var i :| 0 <= i < |chain| && chain[i].addr == a;
        assert rest[i - 1].addr == a;
      }
    }
  }

  lemma LinkHead(heap: Heap, head: nat, chain: seq<Block>, b: Block)
    requires Linked(heap, head, chain) && b.addr != NULL && b.addr !in Addrs(chain)
    ensures Linked(heap[b.addr := Cell(head, b.bus)], b.addr, [b] + chain)
    ensures Addrs([b] + chain) == Addrs(chain) + {b.addr}
  {
    var heap', longer := heap[b.addr := Cell(head, b.bus)], [b] + chain;
    forall i | 0 <= i < |longer|
      ensures LinkAt(heap', longer, i)
    {
      if i > 0 {
        assert LinkAt(heap, chain, i - 1);
        assert chain[i - 1].addr in Addrs(chain);
      }
    }
    forall a
      ensures a in Addrs(longer) <==> a in Addrs(chain) || a == b.addr
    {
      if a in Addrs(chain) {
        var i :| 0 <= i < |chain| && chain[i].addr == a;
        assert longer[i + 1].addr == a;
      }
      assert longer[0].addr == b.addr;
    }
    assert forall i :: 0 <= i < |chain| ==> chain[i].addr in Addrs(chain);
  }

  /** A chain lives on when memory changes elsewhere. */
  lemma LinkedFrame(heap: Heap, heap': Heap, head: nat, chain: seq<Block>)
    requires Linked(heap, head, chain)
    requires forall a :: a in Addrs(chain) && a in heap ==> a in heap' && heap'[a] == heap[a]
    ensures Linked(heap', head, chain)
  {
    forall i | 0 <= i < |chain|
      ensures LinkAt(heap', chain, i)
    {
      assert LinkAt(heap, chain, i) && chain[i].addr in Addrs(chain);
    }
  }

  lemma LinkedAllocated(heap: Heap, head: nat, chain: seq<Block>)
    requires Linked(heap, head, chain)
    ensures forall a :: a in Addrs(chain) ==> a in heap && a != NULL
  {
    forall a | a in Addrs(chain)
      ensures a in heap && a != NULL
    {
      var i :| 0 <= i < |chain| && chain[i].addr == a;
      assert LinkAt(heap, chain, i);
    }
  }

  /** The memory that the blocks live in. */
  class Memory {
    var cells: Heap

    constructor ()
      ensures cells == map[]
    {
      cells := map[];
    }
  }

  /** struct freelist, with the chain its words spell out and the reservations of command groups. */
  class FreeList {
    const dma: bool
    const size: nat
    const alignment: nat
    var count: nat
    var head: nat
    ghost var chain: seq<Block>
    ghost var unused: nat

    /** Every block of the list and the chunk it was carved from, and the blocks handed out. */
    ghost var home: map<nat, nat>
    ghost var out: set<nat>

    /**
     * freelist_reserve and freelist_reserve_dma: the count is announced before any block exists.
     */
    constructor (dma: bool, size: nat, alignment: nat, count: nat)
      ensures this.dma == dma && this.size == size && this.alignment == alignment
      ensures this.count == count && head == NULL && chain == [] && unused == 0
      ensures home == map[] && out == {}
    {
      this.dma, this.size, this.alignment, this.count := dma, size, alignment, count;
      head, chain, unused, home, out := NULL, [], 0, map[], {};
    }

    /**
     * The chain holds the counted blocks and those that reservations of command groups have set
     * aside without taking them out.
     */
    ghost predicate Valid(m: Memory)
      reads this, m
    {
      Linked(m.cells, head, chain) && |chain| == count + unused
    }

    method Get(m: Memory) returns (p: nat)
      requires Valid(m)
      modifies this`head, this`count, this`chain
      ensures Valid(m)
      ensures old(count) == 0 ==> p == NULL && chain == old(chain) && count == 0
      ensures old(count) > 0 ==> p != NULL && count == old(count) - 1
      ensures old(count) > 0 ==> old(chain) != [] && p == old(chain)[0].addr && chain == old(chain)[1..]
    {
      if count > 0 {
        UnlinkHead(m.cells, head, chain);
        assert LinkAt(m.cells, chain, 0);
        p := head;
        head := m.cells[p].next;
        count := count - 1;
        chain := chain[1..];
      } else {
        p := NULL;
      }
    }

    /** Only the link word of the block is written. */
    method Put(m: Memory, p: nat)
      requires Valid(m) && !dma
      requires p != NULL && p in m.cells && p !in Addrs(chain)
      modifies this`head, this`count, this`chain, m
      ensures Valid(m) && count == old(count) + 1
      ensures chain == [Block(p, old(m.cells)[p].bus)] + old(chain)
      ensures m.cells == old(m.cells)[p := Cell(old(head), old(m.cells)[p].bus)]
    {
      LinkHead(m.cells, head, chain, Block(p, m.cells[p].bus));
      count := count + 1;
      m.cells := m.cells[p := m.cells[p].(next := head)];
      head := p;
      chain := [Block(p, old(m.cells)[p].bus)] + chain;
    }

    /** The bus address returned is the one last stored with the block. */
    method GetDma(m: Memory) returns (p: nat, busaddr: nat)
      requires Valid(m) && dma
      modifies this`head, this`count, this`chain
      ensures Valid(m)
      ensures old(count) == 0 ==> p == NULL && chain == old(chain) && count == 0
      ensures old(count) > 0 ==> p != NULL && count == old(count) - 1
      ensures old(count) > 0 ==> old(chain) != [] && Block(p, busaddr) == old(chain)[0] && chain == old(chain)[1..]
    {
      if count > 0 {
        UnlinkHead(m.cells, head, chain);
      }
      p := Get(m);
      busaddr := 0;
      if p != NULL {
        busaddr := m.cells[p].bus;
      }
    }

    method PutDma(m: Memory, p: nat, busaddr: nat)
      requires Valid(m) && dma
      requires p != NULL && p in m.cells && p !in Addrs(chain)
      modifies this`head, this`count, this`chain, m
      ensures Valid(m) && count == old(count) + 1
      ensures chain == [Block(p, busaddr)] + old(chain)
      ensures m.cells == old(m.cells)[p := Cell(old(head), busaddr)]
    {
      LinkHead(m.cells, head, chain, Block(p, busaddr));
      count := count + 1;
      m.cells := m.cells[p := m.cells[p].(next := head)];
      m.cells := m.cells[p := m.cells[p].(bus := busaddr)];
      head := p;
      chain := [Block(p, busaddr)] + chain;
    }

    /** What LDM does when a command group reserves n commands: they are no longer counted. */
    method ReserveForGroup(m: Memory, n: nat) returns (ok: bool)
      requires Valid(m)
      modifies this`count, this`unused
      ensures Valid(m) && (ok <==> n <= old(count))
      ensures ok ==> count == old(count) - n && unused == old(unused) + n
      ensures !ok ==> count == old(count) && unused == old(unused)
    {
      ok := n <= count;
      if ok {
        count, unused := count - n, unused + n;
      }
    }

    /** What LDM does when n reservations are given up: the commands count again. */
    method ReleaseFromGroup(m: Memory, n: nat)
      requires Valid(m) && n <= unused
      modifies this`count, this`unused
      ensures Valid(m) && count == old(count) + n && unused == old(unused) - n
    {
      count, unused := count + n, unused - n;
    }

    /** CMD_GROUP_GET: with a reservation left it never finds the chain empty. */
    method GroupGet(m: Memory) returns (p: nat)
      requires Valid(m) && unused > 0
      modifies this`head, this`count, this`chain, this`unused
      ensures Valid(m) && count == old(count) && unused == old(unused) - 1
      ensures p != NULL && old(chain) != [] && p == old(chain)[0].addr && chain == old(chain)[1..]
    {
      unused := unused - 1;
      count := count + 1;
      p := Get(m);
    }

    /** CMD_GROUP_PUT: the block goes back, the reservation lives on. */
    method GroupPut(m: Memory, p: nat)
      requires Valid(m) && !dma
      requires p != NULL && p in m.cells && p !in Addrs(chain)
      modifies this`head, this`count, this`chain, this`unused, m
      ensures Valid(m) && count == old(count) && unused == old(unused) + 1
      ensures chain == [Block(p, old(m.cells)[p].bus)] + old(chain)
      ensures m.cells == old(m.cells)[p := Cell(old(head), old(m.cells)[p].bus)]
    {
      Put(m, p);
      count := count - 1;
      unused := unused + 1;
    }
  }
}
