/**
 * Whole lives of a vbus's memory: hpt_alloc_mem, then any run of gets, puts, writes, command group and
 * page pool operations in any order, then the return of what is still held, then hpt_free_mem
 * (osm/linux/osm_linux.c).
 */
module PoolLife {
  import opened FreeLists
  import opened PoolLedger
  import opened Pools

  /** A block somebody holds: which list it is of, and where it is. */
  datatype Hold = Hold(list: nat, addr: nat)

  /**
   * What is held, with the bus addresses it came with; each list's unused group reservations; and the
   * pages LDM has taken from its pool.
   */
  datatype Stock = Stock(held: map<Hold, nat>, spare: seq<nat>, pages: set<nat>)

  /**
   * What the driver and LDM do next. Which block is returned or written is left open; content is what
   * is written at which offsets of the block.
   */
  datatype Use =
    | Get(list: nat)
    | Put
    | Write(content: map<nat, Cell>)
    | Reserve(list: nat, count: nat)
    | Release(list: nat, count: nat)
    | GroupGet(list: nat)
    | GroupPut
    | PageGet
    | PagePut
    | PageWrite(content: map<nat, Cell>)

  /** The blocks held are just those the lists have given out. */
  ghost predicate Holds(v: Vbus, fs: seq<FreeList>, held: map<Hold, nat>)
    reads fs
  {
    && (forall k: nat, p: nat :: k < |fs| && p in fs[k].out ==> Hold(k, p) in held)
    && (forall h :: h in held ==> h.list < |fs| && h.addr in fs[h.list].out)
    && (forall h :: h in held && fs[h.list].dma ==> held[h] == h.addr + v.busOffset)
  }

  ghost predicate Spares(fs: seq<FreeList>, spare: seq<nat>)
    reads fs
  {
    |spare| == |fs| && forall j :: 0 <= j < |fs| ==> fs[j].unused == spare[j]
  }

  /** The driver is running. */
  ghost predicate Running(v: Vbus, fs: seq<FreeList>, s: Stock)
    reads v, v.mem, fs
  {
    v.Valid(fs) && Holds(v, fs, s.held) && Spares(fs, s.spare) && v.lent == s.pages
  }

  lemma Started(v: Vbus, fs: seq<FreeList>)
    requires v.Valid(fs) && AllIdle(fs) && v.lent == {}
    ensures Running(v, fs, Stock(map[], seq(|fs|, _ => 0), {}))
  {
    hide Vbus.Valid;
    assert forall j :: 0 <= j < |fs| ==> Idle(fs[j]);
  }

  lemma Ended(v: Vbus, fs: seq<FreeList>, s: Stock)
    requires Running(v, fs, s) && s.held == map[] && forall j :: 0 <= j < |fs| ==> s.spare[j] == 0
    ensures v.Valid(fs) && AllIdle(fs)
  {
    hide Vbus.Valid;
    forall j: nat | j < |fs|
      ensures Idle(fs[j])
    {
      assert forall p: nat :: p in fs[j].out ==> Hold(j, p) in s.held;
    }
  }

  lemma ListsDiffer(v: Vbus, fs: seq<FreeList>)
    requires v.Valid(fs)
    ensures DistinctLists(fs)
  {
  }

  method GetOne(v: Vbus, fs: seq<FreeList>, k: nat, s: Stock) returns (s': Stock)
    requires Running(v, fs, s) && k < |fs|
    modifies fs
    ensures Running(v, fs, s')
    ensures s' == s <==> old(fs[k].count) == 0
  {
    hide Vbus.Valid;
    ListsDiffer(v, fs);
    s' := s;
    var p, busaddr := v.GetBlock(fs, k);
    if p != NULL {
      s' := s.(held := s.held[Hold(k, p) := busaddr]);
      assert Hold(k, p) in s'.held && Hold(k, p) !in s.held;
    }
  }

  /** A reservation that is left always yields a command. */
  method GroupGetOne(v: Vbus, fs: seq<FreeList>, k: nat, s: Stock) returns (s': Stock, p: nat)
    requires Running(v, fs, s) && k < |fs| && !fs[k].dma && s.spare[k] > 0
    modifies fs
    ensures Running(v, fs, s')
    ensures p != NULL && Hold(k, p) !in s.held && s'.held.Keys == s.held.Keys + {Hold(k, p)}
    ensures s'.spare == s.spare[k := s.spare[k] - 1]
  {
    hide Vbus.Valid;
    ListsDiffer(v, fs);
    p := v.GroupGetBlock(fs, k);
    s' := s.(held := s.held[Hold(k, p) := 0], spare := s.spare[k := s.spare[k] - 1]);
  }

  method PutOne(v: Vbus, fs: seq<FreeList>, h: Hold, s: Stock) returns (s': Stock)
    requires Running(v, fs, s) && h in s.held
    modifies fs, v.mem
    ensures Running(v, fs, s') && s' == s.(held := s.held - {h})
  {
    hide Vbus.Valid;
    ListsDiffer(v, fs);
    v.PutBlock(fs, h.list, h.addr, s.held[h]);
    s' := s.(held := s.held - {h});
  }

  method GroupPutOne(v: Vbus, fs: seq<FreeList>, h: Hold, s: Stock) returns (s': Stock)
    requires Running(v, fs, s) && h in s.held && !fs[h.list].dma
    modifies fs, v.mem
    ensures Running(v, fs, s')
    ensures s' == s.(held := s.held - {h}, spare := s.spare[h.list := s.spare[h.list] + 1])
  {
    hide Vbus.Valid;
    ListsDiffer(v, fs);
    v.GroupPutBlock(fs, h.list, h.addr);
    s' := s.(held := s.held - {h}, spare := s.spare[h.list := s.spare[h.list] + 1]);
  }

  method ReserveSome(v: Vbus, fs: seq<FreeList>, k: nat, n: nat, s: Stock) returns (s': Stock)
    requires Running(v, fs, s) && k < |fs|
    modifies fs
    ensures Running(v, fs, s') && s'.held == s.held && s'.pages == s.pages
  {
    hide Vbus.Valid;
    ListsDiffer(v, fs);
    var ok := v.ReserveGroup(fs, k, n);
    s' := if ok then s.(spare := s.spare[k := s.spare[k] + n]) else s;
  }

  method ReleaseSome(v: Vbus, fs: seq<FreeList>, k: nat, n: nat, s: Stock) returns (s': Stock)
    requires Running(v, fs, s) && k < |fs| && n <= s.spare[k]
    modifies fs
    ensures Running(v, fs, s') && s' == s.(spare := s.spare[k := s.spare[k] - n])
  {
    hide Vbus.Valid;
    ListsDiffer(v, fs);
    v.ReleaseGroup(fs, k, n);
    s' := s.(spare := s.spare[k := s.spare[k] - n]);
  }

  /** The content at these offsets, as far as it falls into the n bytes from p. */
  function Placed(content: map<nat, Cell>, p: nat, n: nat): Heap
  {
    map a: nat | p <= a < p + n && InRange(a, p, n) && a - p in content :: content[a - p]
  }

  method WriteOne(v: Vbus, fs: seq<FreeList>, h: Hold, content: map<nat, Cell>, ghost s: Stock)
    requires Running(v, fs, s) && h in s.held
    modifies v.mem
    ensures Running(v, fs, s)
    ensures forall a: nat :: InRange(a, h.addr, fs[h.list].size) && a - h.addr in content ==>
              a in v.mem.cells && v.mem.cells[a] == content[a - h.addr]
  {
    hide Vbus.Valid;
    v.Scribble(fs, h.list, h.addr, Placed(content, h.addr, fs[h.list].size));
  }

  method PageGetOne(v: Vbus, fs: seq<FreeList>, s: Stock) returns (s': Stock)
    requires Running(v, fs, s)
    modifies v`pool, v`lent
    ensures Running(v, fs, s')
    ensures s' == s <==> old(v.pool) == {}
  {
    hide Holds, Vbus.Valid;
    assert v.pool !! v.lent by {
      PagesApart(v, fs);
    }
    var p, busaddr := v.LendPage(fs);
    s' := if p == NULL then s else s.(pages := s.pages + {p});
  }

  lemma PagesApart(v: Vbus, fs: seq<FreeList>)
    requires v.Valid(fs)
    ensures v.pool !! v.lent
  {
  }

  method PagePutOne(v: Vbus, fs: seq<FreeList>, p: nat, s: Stock) returns (s': Stock)
    requires Running(v, fs, s) && p in s.pages
    modifies v.mem, v`pool, v`lent, v`live
    ensures Running(v, fs, s') && s' == s.(pages := s.pages - {p})
  {
    hide Holds, Vbus.Valid;
    v.ReturnPage(fs, p, p + v.busOffset);
    s' := s.(pages := s.pages - {p});
  }

  method PageWriteOne(v: Vbus, fs: seq<FreeList>, p: nat, content: map<nat, Cell>, ghost s: Stock)
    requires Running(v, fs, s) && p in s.pages
    modifies v.mem
    ensures Running(v, fs, s)
  {
    hide Holds, Vbus.Valid;
    v.ScribblePage(fs, p, Placed(content, p, PAGE_SIZE));
  }

  /** One use, if it is possible at the moment. */
  method UseOne(v: Vbus, fs: seq<FreeList>, use: Use, s: Stock) returns (s': Stock)
    requires Running(v, fs, s)
    modifies fs, v.mem, v`pool, v`lent, v`live
    ensures Running(v, fs, s')
  {
    hide Holds, Vbus.Valid;
    s' := s;
    match use
    case Get(k) =>
      if k < |fs| {
        s' := GetOne(v, fs, k, s);
      }
    case GroupGet(k) =>
      if k < |fs| && !fs[k].dma && s.spare[k] > 0 {
        var p;
        s', p := GroupGetOne(v, fs, k, s);
      }
    case Reserve(k, n) =>
      if k < |fs| {
        s' := ReserveSome(v, fs, k, n, s);
      }
    case Release(k, n) =>
      if k < |fs| && n <= s.spare[k] {
        s' := ReleaseSome(v, fs, k, n, s);
      }
    case PageGet =>
      s' := PageGetOne(v, fs, s);
    case PagePut =>
      if s.pages != {} {
        var p :| p in s.pages;
        s' := PagePutOne(v, fs, p, s);
      }
    case PageWrite(content) =>
      if s.pages != {} {
        var p :| p in s.pages;
        PageWriteOne(v, fs, p, content, s);
      }
    case _ =>
      if s.held.Keys != {} {
        var h :| h in s.held.Keys;
        s' := UseHeld(v, fs, use, h, s);
      }
  }

  method UseHeld(v: Vbus, fs: seq<FreeList>, use: Use, h: Hold, s: Stock) returns (s': Stock)
    requires Running(v, fs, s) && h in s.held
    modifies fs, v.mem
    ensures Running(v, fs, s')
  {
    assert h.list < |fs|;
    hide Holds, Vbus.Valid;
    s' := s;
    if use.Put? {
      s' := PutOne(v, fs, h, s);
    } else if use.GroupPut? && !fs[h.list].dma {
      s' := GroupPutOne(v, fs, h, s);
    } else if use.Write? {
      WriteOne(v, fs, h, use.content, s);
    }
  }

  /** What is held goes back, the groups give up their reservations, and LDM its pages. */
  method ReturnAll(v: Vbus, fs: seq<FreeList>, s: Stock)
    requires Running(v, fs, s)
    modifies fs, v.mem, v`pool, v`lent, v`live
    ensures v.Valid(fs) && AllIdle(fs) && v.lent == {}
  {
    hide Holds, Vbus.Valid;
    var rest := s;
    while rest.held.Keys != {}
      invariant Running(v, fs, rest)
      decreases rest.held.Keys
    {
      var h :| h in rest.held.Keys;
      rest := PutOne(v, fs, h, rest);
    }
    assert rest.held == map[];
    for k := 0 to |fs|
      invariant Running(v, fs, rest) && rest.held == map[]
      invariant forall j :: 0 <= j < k ==> rest.spare[j] == 0
    {
      rest := ReleaseSome(v, fs, k, rest.spare[k], rest);
    }
    while rest.pages != {}
      invariant Running(v, fs, rest) && rest.held == map[]
      invariant forall j :: 0 <= j < |fs| ==> rest.spare[j] == 0
    {
      var p :| p in rest.pages;
      rest := PagePutOne(v, fs, p, rest);
    }
    Ended(v, fs, rest);
  }

  /**
   * For any lists and any run of uses, if the kernel refused no request and every block came back, then
   * afterwards the kernel has every chunk back. Each was given back once and as what it was taken
   * as, since Pools.Vbus.Release demands both.
   */
  method Life(v: Vbus, fs: seq<FreeList>, uses: seq<Use>) returns (ok: bool)
    requires fs == v.lists + v.dmaLists && ListOrder(fs, |v.lists|)
    requires v.live == map[] && v.pool == {} && v.lent == {} && v.mem.cells == map[] && v.maxTargets > 0
    requires forall j :: 0 <= j < |fs| ==> Reserved(fs[j])
    modifies fs, v.mem, v`live, v`pool, v`lent, v`sdFlags, v`refusals
    ensures v.refusals >= old(v.refusals) && (ok <==> v.refusals == old(v.refusals))
    ensures ok ==> v.live == map[] && v.pool == {}
  {
    hide *;
    ok := v.AllocMem(fs);
    if ok {
      Started(v, fs);
      var s := Stock(map[], seq(|fs|, _ => 0), {});
      for i := 0 to |uses|
        invariant Running(v, fs, s)
        invariant fs == v.lists + v.dmaLists && v.refusals == old(v.refusals)
      {
        s := UseOne(v, fs, uses[i], s);
      }
      ReturnAll(v, fs, s);
      v.FreeMem(fs);
    }
  }
}
