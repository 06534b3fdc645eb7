/**
 * The physical branch of os_buildsgl (osm/linux/osm_linux.c): the mapped scatter list of a command
 * is merged greedily, in place, into the controller's descriptor table.
 */
module ScatterGather {
  import opened Collections
  import opened Words

  const MAX_RUN: nat := 0x1_0000

  /** One mapped element: a bus address and a byte count. */
  datatype Segment = Segment(addr: Word64, len: Word32)

  /** One descriptor of the controller's table. */
  datatype Descriptor = Descriptor(bus: Word64, size: Word32, eot: bool)

  // ----- the merge, element by element

  /** Descriptors written so far, and the variable `last`: where the open one ends. */
  datatype Merge = Merge(out: seq<Segment>, last: Word64)

  /** An address on a 4 GiB boundary. */
  predicate AtBoundary(addr: Word64) { addr % TWO32 == 0 }

  predicate Joins(m: Merge, s: Segment)
  {
    && m.out != []
    && m.last == s.addr
    && Last(m.out).len != 0
    && Low32(Last(m.out).len + s.len) <= MAX_RUN
    && !AtBoundary(s.addr)
  }

  function Put(m: Merge, s: Segment): Merge
  {
    if Joins(m, s) then
      var open := Last(m.out);
      Merge(Init(m.out) + [Segment(open.addr, Low32(open.len + s.len))], Low64(m.last + s.len))
    else
      Merge(m.out + [s], Low64(s.addr + s.len))
  }

  function Init<T>(s: seq<T>): seq<T>
    requires s != []
  {
    s[..|s| - 1]
  }

  function Last<T>(s: seq<T>): T
    requires s != []
  {
    s[|s| - 1]
  }

  function MergeAll(segs: seq<Segment>): Merge
  {
    if segs == [] then Merge([], 0) else Put(MergeAll(Init(segs)), Last(segs))
  }

  function Total(segs: seq<Segment>): nat
  {
    if segs == [] then 0 else Total(Init(segs)) + Last(segs).len
  }

  /** The table as written: only the last descriptor carries the end mark. */
  function Terminated(out: seq<Segment>): seq<Descriptor>
  {
    seq(|out|, i requires 0 <= i < |out| => Descriptor(out[i].addr, out[i].len, i == |out| - 1))
  }

  predicate Odd(x: Word64) { x % 2 != 0 }

  predicate Even(s: Segment) { !Odd(s.addr) && !Odd(s.len) }

  predicate AllEven(segs: seq<Segment>) { forall i :: 0 <= i < |segs| ==> Even(segs[i]) }

  /** The state while no odd address or length has come. */
  ghost predicate EvenSoFar(m: Merge)
  {
    !Odd(m.last) && (m.out != [] ==> !Odd(Last(m.out).len))
  }

  lemma WrapParity(x: nat)
    ensures Odd(Low32(x)) <==> x % 2 != 0
    ensures Odd(Low64(x)) <==> x % 2 != 0
  {
    EvenModulus(x, TWO31);
    EvenModulus(x, 0x8000_0000_0000_0000);
  }

  lemma EvenModulus(x: nat, half: nat)
    requires half > 0
    ensures x % (2 * half) % 2 == x % 2
  {
    var m := 2 * half;
    assert x == x % m + x / m * m;
    assert x / m * m == x / m * half * 2;
    ModAddMultiple(x % m, x / m * half, 2);
  }

  lemma SumParity(x: Word64, y: Word32)
    requires !Odd(x)
    ensures Odd(Low64(x + y)) <==> Odd(y)
    ensures Odd(Low32(x + y)) <==> Odd(y)
  {
    hide Low32, Low64;
    WrapParity(x + y);
  }

  /** Parity survives the wrapping sums, so checking it late misses nothing. */
  lemma PutParity(m: Merge, s: Segment)
    requires EvenSoFar(m)
    ensures Joins(m, s) ==> !Odd(s.addr)
    ensures Odd(Last(Put(m, s).out).len) <==> Odd(s.len)
    ensures Even(s) ==> EvenSoFar(Put(m, s))
  {
    if Joins(m, s) {
      SumParity(Last(m.out).len, s.len);
      SumParity(m.last, s.len);
    } else if Even(s) {
      SumParity(s.addr, s.len);
    }
    hide Low32, Low64, Odd, AtBoundary;
  }

  lemma PrefixSnoc(segs: seq<Segment>, i: nat)
    requires i < |segs|
    ensures segs[..i + 1] == segs[..i] + [segs[i]]
    ensures MergeAll(segs[..i + 1]) == Put(MergeAll(segs[..i]), segs[i])
    ensures AllEven(segs[..i + 1]) <==> AllEven(segs[..i]) && Even(segs[i])
    ensures AllEven(segs) ==> AllEven(segs[..i + 1])
  {
    hide Put, Even;
    assert segs[..i + 1] == segs[..i] + [segs[i]];
    assert Init(segs[..i + 1]) == segs[..i];
    if AllEven(segs[..i + 1]) {
      assert forall k :: 0 <= k < i ==> segs[..i][k] == segs[..i + 1][k];
      assert segs[..i + 1][i] == segs[i];
    }
  }

  /**
   * The merge loop. Addresses are checked only when a descriptor is opened and sizes only after
   * accumulation, yet it succeeds if and only if the list is non-empty and all of it is even.
   */
  method BuildPhysicalSgl(segs: seq<Segment>, table: array<Descriptor>) returns (ok: bool, ghost n: nat)
    requires |segs| <= table.Length
    modifies table
    ensures ok <==> segs != [] && AllEven(segs)
    ensures n <= table.Length && table[n..] == old(table[n..])
    ensures ok ==> table[..n] == Terminated(MergeAll(segs).out)
    ensures ok ==> n > 0 && forall k :: 0 <= k < n ==> (table[k].eot <==> k == n - 1)
    ensures ok && Fits(segs) ==> EngineReads(table[..]) == Stream(segs)
  {
    hide Low32, Low64, AtBoundary, Odd, MergeAll, AllEven, Fits, Stream, EngineReads;
    n := 0;
    if |segs| == 0 {
      return false, n;
    }
    var p, last: Word64 := -1, 0;
    ghost var m := Merge([], 0);
    NothingMerged(segs);
    for idx := 0 to |segs|
      invariant m == MergeAll(segs[..idx]) && last == m.last
      invariant p == |m.out| - 1 < idx && n == p + 1
      invariant idx > 0 ==> m.out != []
      invariant forall k :: 0 <= k <= p ==>
                  table[k] == Descriptor(m.out[k].addr, m.out[k].len, idx == |segs| && k == p)
      invariant forall k :: p < k < table.Length ==> table[k] == old(table[k])
      invariant EvenSoFar(m) && AllEven(segs[..idx])
    {
      var s := segs[idx];
      PutParity(m, s);
      PrefixSnoc(segs, idx);
      m := Put(m, s);
      if idx > 0 && last == s.addr && table[p].size != 0 &&
         Low32(table[p].size + s.len) <= MAX_RUN && !AtBoundary(s.addr) {
        table[p] := table[p].(size := Low32(table[p].size + s.len));
        last := Low64(last + s.len);
      } else {
        if Odd(s.addr) {
          return false, n;
        }
        p := p + 1;
        n := n + 1;
        table[p] := table[p].(bus := s.addr, size := s.len);
        last := Low64(s.addr + s.len);
      }
      if Odd(table[p].size) {
        return false, n;
      }
      table[p] := table[p].(eot := idx == |segs| - 1);
    }
    assert segs[..|segs|] == segs;
    ok := true;
    assert table[..n] == Terminated(MergeAll(segs).out);
    if Fits(segs) {
      assert table[..][..n] == table[..n];
      TableTransfersList(segs, table[..], n);
    }
  }

  lemma NothingMerged(segs: seq<Segment>)
    ensures MergeAll(segs[..0]) == Merge([], 0) && EvenSoFar(Merge([], 0)) && AllEven(segs[..0])
  {
  }

  // ----- what the merge means

  /** The 32-bit sum of the open descriptor and s wraps, looks small, and s is joined. */
  predicate Overflows(m: Merge, s: Segment)
  {
    Joins(m, s) && Last(m.out).len + s.len >= TWO32
  }

  /** No element wraps the address space. */
  ghost predicate InSpace(segs: seq<Segment>)
  {
    forall i :: 0 <= i < |segs| ==> segs[i].addr + segs[i].len <= TWO64
  }

  /** No sum wraps on the way. */
  ghost predicate NoOverflow(segs: seq<Segment>)
  {
    forall i :: 0 <= i < |segs| ==> !Overflows(MergeAll(segs[..i]), segs[i])
  }

  /** Merged exactly. ModerateNeverOverflows tells a caller which requests are. */
  ghost predicate Fits(segs: seq<Segment>)
  {
    InSpace(segs) && NoOverflow(segs)
  }

  /** The bus addresses of the bytes, in transfer order. */
  function Bytes(s: Segment): seq<nat>
  {
    seq(s.len, i requires 0 <= i => s.addr + i)
  }

  function Stream(segs: seq<Segment>): seq<nat>
  {
    if segs == [] then [] else Stream(Init(segs)) + Bytes(Last(segs))
  }

  lemma StreamSnoc(segs: seq<Segment>, s: Segment)
    ensures Stream(segs + [s]) == Stream(segs) + Bytes(s)
    ensures Total(segs + [s]) == Total(segs) + s.len
  {
    assert Init(segs + [s]) == segs;
  }

  lemma NoOverflowSplit(segs: seq<Segment>)
    requires segs != []
    ensures NoOverflow(segs) <==> NoOverflow(Init(segs)) && !Overflows(MergeAll(Init(segs)), Last(segs))
  {
    hide Overflows, MergeAll;
    var init := Init(segs);
    assert forall i :: 0 <= i < |init| ==> init[..i] == segs[..i] && init[i] == segs[i];
    assert segs[..|segs| - 1] == init;
  }

  lemma FitsInit(segs: seq<Segment>)
    requires Fits(segs) && segs != []
    ensures Fits(Init(segs))
    ensures Last(segs).addr + Last(segs).len <= TWO64 && !Overflows(MergeAll(Init(segs)), Last(segs))
  {
    hide Overflows, MergeAll;
    NoOverflowSplit(segs);
  }

  /** What holds of a merge state on the way: the open descriptor ends at `last`. */
  ghost predicate Sound(m: Merge)
  {
    InSpace(m.out) && (m.out != [] ==> m.last == Low64(Last(m.out).addr + Last(m.out).len))
  }

  /** b continues a, and one descriptor may cover both. */
  ghost predicate Adjacent(a: Segment, b: Segment)
  {
    a.addr + a.len == b.addr && a.len > 0 && a.len + b.len <= MAX_RUN && !AtBoundary(b.addr)
  }

  function Glue(a: Segment, b: Segment): Segment
    requires a.len + b.len < TWO32
  {
    Segment(a.addr, a.len + b.len)
  }

  /** Without wrap-around, the loop's test is adjacency and joining is gluing two byte ranges. */
  lemma PutExact(m: Merge, s: Segment)
    requires Sound(m) && s.addr + s.len <= TWO64 && !Overflows(m, s)
    ensures Joins(m, s) <==> m.out != [] && Adjacent(Last(m.out), s)
    ensures Joins(m, s) ==> Last(m.out).len + s.len < TWO32
    ensures Joins(m, s) ==> Put(m, s) == Merge(Init(m.out) + [Glue(Last(m.out), s)], Low64(s.addr + s.len))
    ensures !Joins(m, s) ==> Put(m, s) == Merge(m.out + [s], Low64(s.addr + s.len))
  {
    if m.out != [] {
      var open := Last(m.out);
      assert open.addr + open.len <= TWO64;
      hide InSpace, Sound;
      if m.last == s.addr && !AtBoundary(s.addr) {
        assert open.addr + open.len == s.addr;
      }
    }
  }

  lemma PutPreserves(m: Merge, s: Segment)
    requires Sound(m) && s.addr + s.len <= TWO64 && !Overflows(m, s)
    ensures Sound(Put(m, s))
    ensures Put(m, s).out != [] && |Put(m, s).out| <= |m.out| + 1
    ensures Stream(Put(m, s).out) == Stream(m.out) + Bytes(s)
  {
    hide Put, Joins, Overflows, Low32, Low64, AtBoundary;
    PutExact(m, s);
    if Joins(m, s) {
      var open := Last(m.out);
      var rest := Init(m.out);
      assert m.out == rest + [open];
      var glued := Glue(open, s);
      StreamSnoc(rest, open);
      StreamSnoc(rest, glued);
      assert Bytes(glued) == Bytes(open) + Bytes(s);
    } else {
      StreamSnoc(m.out, s);
    }
  }

  /** The bytes addressed by the table, in order, are those of the mapped list. */
  lemma {:induction false} MergePreservesBytes(segs: seq<Segment>)
    requires Fits(segs)
    ensures Stream(MergeAll(segs).out) == Stream(segs)
    ensures Sound(MergeAll(segs))
    ensures |MergeAll(segs).out| <= |segs| && (MergeAll(segs).out == [] <==> segs == [])
  {
    hide Put, Overflows, Low32, Low64;
    if segs != [] {
      FitsInit(segs);
      MergePreservesBytes(Init(segs));
      PutPreserves(MergeAll(Init(segs)), Last(segs));
    }
  }

  // ----- what the controller makes of the table

  /** The controller reads descriptor after descriptor, up to the first with the end mark. */
  function EngineReads(table: seq<Descriptor>): seq<nat>
  {
    if table == [] then []
    else Bytes(Segment(table[0].bus, table[0].size)) + if table[0].eot then [] else EngineReads(table[1..])
  }

  lemma {:induction false} StreamCons(s: Segment, segs: seq<Segment>)
    ensures Stream([s] + segs) == Bytes(s) + Stream(segs)
    decreases |segs|
  {
    hide Bytes;
    if segs == [] {
      StreamSnoc([], s);
      assert [] + [s] == [s] + segs;
    } else {
      assert Init([s] + segs) == [s] + Init(segs);
      StreamCons(s, Init(segs));
    }
  }

  /** With the end mark on the last descriptor only, it reads all of them and nothing behind. */
  lemma {:induction false} EngineReadsAll(out: seq<Segment>, behind: seq<Descriptor>)
    requires out != []
    ensures EngineReads(Terminated(out) + behind) == Stream(out)
    decreases |out|
  {
    hide Bytes, Stream;
    var first, rest := out[0], out[1..];
    var table := Terminated(out) + behind;
    assert out == [first] + rest && table[0] == Descriptor(first.addr, first.len, rest == []);
    StreamCons(first, rest);
    if rest == [] {
      StreamNothing();
    } else {
      EngineReadsAll(rest, behind);
      assert table[1..] == Terminated(rest) + behind;
    }
  }

  lemma StreamNothing()
    ensures Stream([]) == []
  {
  }

  /** What a successful call leaves in the table makes the controller transfer the mapped list. */
  lemma TableTransfersList(segs: seq<Segment>, table: seq<Descriptor>, n: nat)
    requires Fits(segs) && segs != [] && n <= |table| && table[..n] == Terminated(MergeAll(segs).out)
    ensures EngineReads(table) == Stream(segs)
  {
    hide MergeAll, Stream, EngineReads, Fits, Terminated;
    MergePreservesBytes(segs);
    EngineReadsAll(MergeAll(segs).out, table[n..]);
    assert table == table[..n] + table[n..];
  }

  // ----- when bytes are lost

  lemma {:induction false} StreamLength(segs: seq<Segment>)
    ensures |Stream(segs)| == Total(segs)
  {
    if segs != [] {
      StreamLength(Init(segs));
    }
  }

  /** Every join whose sum wraps loses exactly 2^32 bytes. */
  lemma PutTotal(m: Merge, s: Segment)
    ensures Total(Put(m, s).out) == Total(m.out) + s.len - (if Overflows(m, s) then TWO32 else 0)
  {
    if Joins(m, s) {
      var open, rest := Last(m.out), Init(m.out);
      assert m.out == rest + [open];
      StreamSnoc(rest, open);
      StreamSnoc(rest, Segment(open.addr, Low32(open.len + s.len)));
      assert Low32(open.len + s.len) == open.len + s.len - (if open.len + s.len >= TWO32 then TWO32 else 0);
    } else {
      StreamSnoc(m.out, s);
    }
  }

  lemma {:induction false} MergeTotal(segs: seq<Segment>)
    ensures Total(MergeAll(segs).out) <= Total(segs)
    ensures Total(MergeAll(segs).out) == Total(segs) <==> NoOverflow(segs)
  {
    hide Put, Overflows, Joins;
    if segs != [] {
      MergeTotal(Init(segs));
      PutTotal(MergeAll(Init(segs)), Last(segs));
      NoOverflowSplit(segs);
      hide NoOverflow;
    }
  }

  /** The table addresses the bytes of the mapped list if and only if no sum wraps on the way. */
  lemma {:induction false} BytesKeptIff(segs: seq<Segment>)
    requires InSpace(segs)
    ensures Stream(MergeAll(segs).out) == Stream(segs) <==> NoOverflow(segs)
  {
    hide NoOverflow, MergeAll, Stream, Total;
    if NoOverflow(segs) {
      MergePreservesBytes(segs);
    }
    MergeTotal(segs);
    StreamLength(segs);
    StreamLength(MergeAll(segs).out);
  }

  ghost predicate AllShort(segs: seq<Segment>)
  {
    forall i :: 0 <= i < |segs| ==> segs[i].len < TWO31
  }

  /** What a caller can check beforehand: no element of 2 GiB, or a request below 4 GiB. */
  ghost predicate Moderate(segs: seq<Segment>)
  {
    AllShort(segs) || Total(segs) < TWO32
  }

  lemma {:induction false} ShortNeverOverflows(segs: seq<Segment>)
    requires AllShort(segs)
    ensures NoOverflow(segs) && AllShort(MergeAll(segs).out)
  {
    if segs != [] {
      hide Put, Overflows;
      ShortNeverOverflows(Init(segs));
      NoOverflowSplit(segs);
      PutShort(MergeAll(Init(segs)), Last(segs));
    }
  }

  lemma PutShort(m: Merge, s: Segment)
    requires AllShort(m.out) && s.len < TWO31
    ensures !Overflows(m, s) && AllShort(Put(m, s).out)
  {
    hide AtBoundary, Low64;
  }

  /** No sum wraps for such a request, nor when its table is merged again. */
  lemma ModerateNeverOverflows(segs: seq<Segment>)
    requires Moderate(segs)
    ensures NoOverflow(segs) && NoOverflow(MergeAll(segs).out)
    ensures Moderate(MergeAll(segs).out)
  {
    hide NoOverflow, MergeAll;
    var out := MergeAll(segs).out;
    if AllShort(segs) {
      ShortNeverOverflows(segs);
      ShortNeverOverflows(out);
    } else {
      MergeTotal(segs);
      SmallNeverOverflows(segs);
      SmallNeverOverflows(out);
    }
  }

  lemma {:induction false} SmallNeverOverflows(segs: seq<Segment>)
    requires Total(segs) < TWO32
    ensures NoOverflow(segs)
  {
    if segs != [] {
      hide Joins, Put;
      SmallNeverOverflows(Init(segs));
      NoOverflowSplit(segs);
      MergeTotal(Init(segs));
      hide NoOverflow, MergeAll;
    }
  }

  lemma NothingToMerge()
    ensures MergeAll([]) == Merge([], 0) && NoOverflow([])
  {
  }

  lemma MergeSnoc(segs: seq<Segment>, s: Segment)
    ensures MergeAll(segs + [s]) == Put(MergeAll(segs), s)
    ensures NoOverflow(segs + [s]) <==> NoOverflow(segs) && !Overflows(MergeAll(segs), s)
  {
    hide Put, Overflows, NoOverflow;
    NoOverflowSplit(segs + [s]);
    assert Init(segs + [s]) == segs;
  }

  lemma OpenedAt(m: Merge, s: Segment, end: Word64)
    requires !Joins(m, s) && end == Low64(s.addr + s.len)
    ensures Put(m, s) == Merge(m.out + [s], end) && !Overflows(m, s)
  {
  }

  lemma JoinedAt(m: Merge, s: Segment, joined: Segment)
    requires Joins(m, s) && joined == Segment(Last(m.out).addr, Low32(Last(m.out).len + s.len))
    ensures Put(m, s) == Merge(Init(m.out) + [joined], Low64(m.last + s.len))
    ensures Overflows(m, s) <==> Last(m.out).len + s.len >= TWO32
  {
  }

  /** An instance beyond both bounds: the 32-bit sum wraps and looks small. */
  lemma WrappedSumLosesBytes() returns (segs: seq<Segment>)
    ensures segs == [Segment(0x1000, 0xffff_fff0), Segment(0x1_0000_0ff0, 0x20)]
    ensures AllEven(segs) && InSpace(segs) && MergeAll(segs).out == [Segment(0x1000, 0x10)]
    ensures Stream(MergeAll(segs).out) != Stream(segs)
  {
    var a, b := Segment(0x1000, 0xffff_fff0), Segment(0x1_0000_0ff0, 0x20);
    segs := [a, b];
    assert AllEven(segs) && InSpace(segs);
    hide Put, Joins, MergeAll, NoOverflow, InSpace, AllEven, Stream, Low32, Low64, AtBoundary;
    WrappedMerge(a, b);
    BytesKeptIff(segs);
  }

  lemma WrappedMerge(a: Segment, b: Segment)
    requires a == Segment(0x1000, 0xffff_fff0) && b == Segment(0x1_0000_0ff0, 0x20)
    ensures MergeAll([a, b]) == Merge([Segment(0x1000, 0x10)], 0x1_0000_1010) && !NoOverflow([a, b])
  {
    NothingToMerge();
    OpenedAt(Merge([], 0), a, 0x1_0000_0ff0);
    JoinedAt(Merge([a], 0x1_0000_0ff0), b, Segment(0x1000, 0x10));
    hide Put, Joins, MergeAll, NoOverflow, Low32, AtBoundary;
    MergeSnoc([], a);
    MergeSnoc([a], b);
    assert [] + [a] == [a] && [a] + [b] == [a, b] && Init([a]) == [];
  }

  /** Bytes of s on both sides of a 4 GiB boundary. */
  predicate Straddles(s: Segment)
  {
    s.len > 0 && s.addr % TWO32 + s.len > TWO32
  }

  lemma GluedWithinPage(open: Segment, s: Segment)
    requires Adjacent(open, s) && !Straddles(open) && !Straddles(s)
    ensures !Straddles(Glue(open, s))
  {
    assert s.addr % TWO32 == open.addr % TWO32 + open.len;
  }

  /** What every descriptor has if every mapped element has it. */
  datatype Limit = NoLongerThanRun | WithinPage | EvenParity

  ghost predicate Within(limit: Limit, s: Segment)
  {
    match limit
    case NoLongerThanRun => s.len <= 0x1_0000
    case WithinPage => !Straddles(s)
    case EvenParity => Even(s)
  }

  ghost predicate AllWithin(limit: Limit, segs: seq<Segment>)
  {
    forall i :: 0 <= i < |segs| ==> Within(limit, segs[i])
  }

  /** Small elements give small descriptors, and no descriptor gains a 4 GiB crossing or an odd end. */
  lemma {:induction false} MergeKeepsLimit(limit: Limit, segs: seq<Segment>)
    requires Fits(segs) && AllWithin(limit, segs)
    ensures AllWithin(limit, MergeAll(segs).out)
  {
    hide Put, Joins, Overflows, Low32, Low64, AtBoundary, Within;
    if segs != [] {
      FitsInit(segs);
      MergeKeepsLimit(limit, Init(segs));
      MergePreservesBytes(Init(segs));
      var m, s := MergeAll(Init(segs)), Last(segs);
      PutExact(m, s);
      if Joins(m, s) {
        GluedWithin(limit, Last(m.out), s);
      }
    }
  }

  lemma GluedWithin(limit: Limit, open: Segment, s: Segment)
    requires Adjacent(open, s) && Within(limit, open) && Within(limit, s)
    ensures Within(limit, Glue(open, s))
  {
    if limit == WithinPage {
      GluedWithinPage(open, s);
    }
  }

  // ----- optimality

  /** A run that one descriptor may cover; a single element is always allowed. */
  ghost predicate Legal(run: seq<Segment>)
  {
    && run != []
    && (forall i :: 0 < i < |run| ==> run[i].addr == run[i - 1].addr + run[i - 1].len)
    && (forall i :: 0 < i < |run| ==> run[i].addr % 0x1_0000_0000 != 0)
    && (|run| == 1 || Total(run) <= 0x1_0000)
  }

  /** An order-preserving grouping of the elements into legal runs. */
  ghost predicate IsGrouping(runs: seq<seq<Segment>>, segs: seq<Segment>)
  {
    Flatten(runs) == segs && forall i :: 0 <= i < |runs| ==> Legal(runs[i])
  }

  ghost predicate Positive(segs: seq<Segment>)
  {
    forall i :: 0 <= i < |segs| ==> segs[i].len > 0
  }

  /** The run covered by one descriptor. */
  ghost predicate Covers(d: Segment, run: seq<Segment>)
  {
    run != [] && d.addr == run[0].addr && d.len == Total(run)
  }

  /** What one step does to the grouping the merge builds. */
  ghost function PutRun(joins: bool, runs: seq<seq<Segment>>, s: Segment): seq<seq<Segment>>
  {
    if joins && runs != [] then Init(runs) + [Last(runs) + [s]] else runs + [[s]]
  }

  /** The grouping the merge builds. */
  ghost function GreedyRuns(segs: seq<Segment>): seq<seq<Segment>>
  {
    if segs == [] then [] else
      PutRun(Joins(MergeAll(Init(segs)), Last(segs)), GreedyRuns(Init(segs)), Last(segs))
  }

  lemma {:induction false} LegalEnd(run: seq<Segment>)
    requires Legal(run)
    ensures Last(run).addr + Last(run).len == run[0].addr + Total(run)
    decreases |run|
  {
    if |run| == 1 {
      assert Init(run) == [];
    } else {
      LegalInit(run);
      LegalEnd(Init(run));
    }
  }

  lemma LegalInit(run: seq<Segment>)
    requires Legal(run) && |run| > 1
    ensures Legal(Init(run))
  {
  }

  lemma LegalSnoc(run: seq<Segment>, s: Segment)
    requires Legal(run)
    ensures Legal(run + [s]) <==>
              Last(run).addr + Last(run).len == s.addr && s.addr % 0x1_0000_0000 != 0 && Total(run) + s.len <= 0x1_0000
  {
    hide AtBoundary;
    StreamSnoc(run, s);
    hide Stream, Total;
    var longer := run + [s];
    assert longer[|run|] == s && longer[|run| - 1] == Last(run);
    assert forall i :: 0 <= i < |run| ==> longer[i] == run[i];
  }

  /** Adjacency is exactly whether the open run may be extended. */
  lemma AdjacentIffLegal(d: Segment, run: seq<Segment>, s: Segment)
    requires Covers(d, run) && Legal(run) && Positive(run)
    ensures Adjacent(d, s) <==> Legal(run + [s])
    ensures Total(run + [s]) == Total(run) + s.len
  {
    LegalEnd(run);
    StreamSnoc(run, s);
    LegalSnoc(run, s);
    assert Total(run) > 0 by {
      assert run == Init(run) + [Last(run)];
    }
    hide Legal, Stream, Total;
  }

  lemma PositiveFits(segs: seq<Segment>)
    requires Positive(segs) && Fits(segs) && segs != []
    ensures Positive(Init(segs)) && Fits(Init(segs))
    ensures Last(segs).addr + Last(segs).len <= TWO64 && Last(segs).len > 0
    ensures !Overflows(MergeAll(Init(segs)), Last(segs))
  {
    hide Fits, Overflows;
    FitsInit(segs);
  }

  lemma FlattenSnoc<T>(runs: seq<seq<T>>, run: seq<T>)
    ensures Flatten(runs + [run]) == Flatten(runs) + run
  {
    assert Init(runs + [run]) == runs;
  }

  lemma SingleIsLegal(s: Segment)
    ensures Legal([s]) && Covers(s, [s])
  {
    StreamSnoc([], s);
    assert [] + [s] == [s];
  }

  /** Each descriptor covers one run of a legal grouping. */
  ghost predicate Represents(out: seq<Segment>, runs: seq<seq<Segment>>, segs: seq<Segment>)
  {
    && IsGrouping(runs, segs) && |out| == |runs|
    && forall i :: 0 <= i < |runs| ==> Covers(out[i], runs[i])
  }

  lemma PutKeepsRuns(m: Merge, runs: seq<seq<Segment>>, segs: seq<Segment>, s: Segment)
    requires Represents(m.out, runs, segs) && Sound(m) && Positive(segs)
    requires s.addr + s.len <= TWO64 && !Overflows(m, s)
    ensures Represents(Put(m, s).out, PutRun(Joins(m, s), runs, s), segs + [s])
  {
    hide AtBoundary, Low32, Low64, Joins, Put, Overflows, Legal, Positive, Stream, IsGrouping, Adjacent, Total;
    PutExact(m, s);
    if Joins(m, s) {
      OpenRun(segs, runs);
      AdjacentIffLegal(Last(m.out), Last(runs), s);
      ExtendRun(runs, segs, s);
    } else {
      AppendRun(runs, segs, s);
      SingleIsLegal(s);
    }
  }

  lemma UnfoldLast(segs: seq<Segment>)
    requires segs != []
    ensures segs == Init(segs) + [Last(segs)]
    ensures MergeAll(segs) == Put(MergeAll(Init(segs)), Last(segs))
    ensures GreedyRuns(segs) == PutRun(Joins(MergeAll(Init(segs)), Last(segs)), GreedyRuns(Init(segs)), Last(segs))
  {
    assert segs == Init(segs) + [Last(segs)];
    hide Joins, Put, PutRun, Init, Last;
  }

  lemma {:induction false} GreedyIsGrouping(segs: seq<Segment>)
    requires Positive(segs) && Fits(segs)
    ensures Represents(MergeAll(segs).out, GreedyRuns(segs), segs)
    decreases |segs|
  {
    if segs != [] {
      hide Joins, Put, PutRun, Represents, Sound, Overflows, Stream, Fits, Positive, MergeAll, GreedyRuns, Last;
      UnfoldLast(segs);
      PositiveFits(segs);
      GreedyIsGrouping(Init(segs));
      MergePreservesBytes(Init(segs));
      PutKeepsRuns(MergeAll(Init(segs)), GreedyRuns(Init(segs)), Init(segs), Last(segs));
    }
  }

  lemma AppendRun(runs: seq<seq<Segment>>, segs: seq<Segment>, s: Segment)
    requires IsGrouping(runs, segs)
    ensures IsGrouping(runs + [[s]], segs + [s])
  {
    SingleIsLegal(s);
    FlattenSnoc(runs, [s]);
  }

  lemma ExtendRun(runs: seq<seq<Segment>>, segs: seq<Segment>, s: Segment)
    requires IsGrouping(runs, segs) && runs != [] && Legal(Last(runs) + [s])
    ensures IsGrouping(Init(runs) + [Last(runs) + [s]], segs + [s])
  {
    FlattenSnoc(Init(runs), Last(runs) + [s]);
    assert segs == Flatten(Init(runs)) + Last(runs);
  }

  /** The last run of a grouping is a suffix of the elements. */
  lemma OpenRun(segs: seq<Segment>, runs: seq<seq<Segment>>)
    requires IsGrouping(runs, segs) && runs != [] && Positive(segs)
    ensures |Last(runs)| <= |segs| && Last(runs) == segs[|segs| - |Last(runs)|..]
    ensures Positive(Last(runs)) && Last(Last(runs)) == Last(segs) && Legal(Last(runs))
  {
    assert segs == Flatten(Init(runs)) + Last(runs);
  }

  lemma {:induction false} TotalAppend(a: seq<Segment>, b: seq<Segment>)
    ensures Total(a + b) == Total(a) + Total(b)
    decreases |b|
  {
    if b == [] {
      assert a + b == a;
    } else {
      assert Init(a + b) == a + Init(b);
      TotalAppend(a, Init(b));
    }
  }

  /** Cutting the front off a legal run leaves a legal run. */
  lemma LegalSuffix(run: seq<Segment>, k: nat)
    requires Legal(run) && k < |run|
    ensures Legal(run[k..])
  {
    hide AtBoundary, Total;
    TotalAppend(run[..k], run[k..]);
    assert run == run[..k] + run[k..];
    forall i | 0 < i < |run| - k
      ensures run[k..][i].addr == run[k..][i - 1].addr + run[k..][i - 1].len
      ensures run[k..][i].addr % 0x1_0000_0000 != 0
    {
      assert run[k + i].addr == run[k + i - 1].addr + run[k + i - 1].len;
    }
    SingleIsLegal(Last(run));
  }

  /** Drop the last element from a grouping. */
  ghost function Shorter(runs: seq<seq<Segment>>): seq<seq<Segment>>
    requires runs != [] && Last(runs) != []
  {
    if |Last(runs)| == 1 then Init(runs) else Init(runs) + [Init(Last(runs))]
  }

  lemma ShorterIsGrouping(runs: seq<seq<Segment>>, segs: seq<Segment>)
    requires IsGrouping(runs, segs) && segs != []
    ensures runs != [] && Legal(Last(runs)) && IsGrouping(Shorter(runs), Init(segs)) && Last(Last(runs)) == Last(segs)
  {
    hide AtBoundary, Total;
    var run := Last(runs);
    assert segs == Flatten(Init(runs)) + run;
    if |run| > 1 {
      LegalInit(run);
      FlattenSnoc(Init(runs), Init(run));
    }
  }

  /** Fewer runs, or as many and the shorter open one. */
  ghost predicate Ahead(greedy: seq<seq<Segment>>, runs: seq<seq<Segment>>)
  {
    || |greedy| < |runs|
    || (|greedy| == |runs| && (runs != [] ==> |Last(greedy)| <= |Last(runs)|))
  }

  /** One more element keeps the merge ahead, if it joins whenever its open run is the one to extend. */
  lemma AheadStep(before: seq<seq<Segment>>, runs: seq<seq<Segment>>, s: Segment, joins: bool)
    requires runs != [] && Last(runs) != []
    requires Ahead(before, Shorter(runs))
    requires |Last(runs)| > 1 && |before| == |runs| ==> joins
    ensures Ahead(PutRun(joins, before, s), runs)
  {
  }

  /** Against any grouping the merge has fewer runs, or as many and the shorter open one. */
  lemma {:induction false} GreedyStaysAhead(segs: seq<Segment>, runs: seq<seq<Segment>>)
    requires Positive(segs) && Fits(segs) && IsGrouping(runs, segs)
    ensures Ahead(GreedyRuns(segs), runs)
    decreases |segs|
  {
    hide MergeAll, GreedyRuns, Positive, Fits, Joins, Put, PutRun, Overflows, Legal, Represents, Total, Stream;
    if segs == [] {
      NothingGreedy();
    } else {
      hide IsGrouping;
      ShorterIsGrouping(runs, segs);
      PositiveFits(segs);
      UnfoldLast(segs);
      GreedyStaysAhead(Init(segs), Shorter(runs));
      var before, run := GreedyRuns(Init(segs)), Last(runs);
      if |run| > 1 && |before| == |runs| {
        OpenRunExtends(segs, before, run, runs);
      }
      hide Ahead, Shorter;
      AheadStep(before, runs, Last(segs), Joins(MergeAll(Init(segs)), Last(segs)));
    }
  }

  lemma NothingGreedy()
    ensures GreedyRuns([]) == []
  {
  }

  lemma SuffixOverlap<T>(s: seq<T>, a: seq<T>, b: seq<T>)
    requires s != [] && |a| < |b| <= |s|
    requires a == Init(s)[|s| - 1 - |a|..] && b == s[|s| - |b|..]
    ensures a + [Last(s)] == b[|b| - 1 - |a|..]
  {
  }

  lemma OpenRunExtends(segs: seq<Segment>, before: seq<seq<Segment>>, run: seq<Segment>, runs: seq<seq<Segment>>)
    requires Positive(segs) && Fits(segs) && segs != [] && IsGrouping(runs, segs) && runs != []
    requires before == GreedyRuns(Init(segs)) && before != [] && run == Last(runs)
    requires |run| > 1 && |Last(before)| <= |run| - 1
    ensures Joins(MergeAll(Init(segs)), Last(segs))
  {
    hide AtBoundary, Low32, Low64, Joins, Put, Overflows, Legal, Adjacent;
    hide Stream, IsGrouping, MergeAll, GreedyRuns, Total, Fits;
    PositiveFits(segs);
    GreedyIsGrouping(Init(segs));
    MergePreservesBytes(Init(segs));
    LastIsCovered(MergeAll(Init(segs)).out, before, Init(segs));
    OpenRun(segs, runs);
    OpenRun(Init(segs), before);
    hide Represents, Sound, Covers, Positive;
    var open := Last(before);
    SuffixOverlap(segs, open, run);
    LegalSuffix(run, |run| - 1 - |open|);
    AdjacentIffLegal(Last(MergeAll(Init(segs)).out), open, Last(segs));
    PutExact(MergeAll(Init(segs)), Last(segs));
  }

  lemma LastIsCovered(out: seq<Segment>, runs: seq<seq<Segment>>, segs: seq<Segment>)
    requires Represents(out, runs, segs) && runs != []
    ensures out != [] && Covers(Last(out), Last(runs)) && IsGrouping(runs, segs)
  {
  }

  /** No grouping needs fewer descriptors than the merge emits, and the merge's own is one. */
  lemma {:induction false} MergeIsOptimal(segs: seq<Segment>, runs: seq<seq<Segment>>)
    requires Positive(segs) && Fits(segs) && IsGrouping(runs, segs)
    ensures |MergeAll(segs).out| <= |runs|
    ensures IsGrouping(GreedyRuns(segs), segs) && |GreedyRuns(segs)| == |MergeAll(segs).out|
  {
    GreedyIsGrouping(segs);
    GreedyStaysAhead(segs, runs);
  }

  // ----- running it again

  ghost predicate AllApart(out: seq<Segment>)
  {
    forall i :: 0 < i < |out| ==> !Adjacent(out[i - 1], out[i])
  }

  /** Two neighbouring descriptors could never have been one. */
  lemma {:induction false} MergeLeavesApart(segs: seq<Segment>)
    requires Fits(segs)
    ensures AllApart(MergeAll(segs).out)
  {
    hide AtBoundary, Low32, Low64, Joins, Put, Overflows, Stream;
    if segs != [] {
      FitsInit(segs);
      MergeLeavesApart(Init(segs));
      MergePreservesBytes(Init(segs));
      var m, s := MergeAll(Init(segs)), Last(segs);
      PutExact(m, s);
      if Joins(m, s) && |m.out| > 1 {
        assert !Adjacent(m.out[|m.out| - 2], Last(m.out));
      }
    }
  }

  lemma {:induction false} ApartIsFixed(out: seq<Segment>)
    requires Fits(out) && AllApart(out)
    ensures MergeAll(out).out == out
  {
    hide AtBoundary, Low32, Low64, Joins, Put, Overflows, Stream, Adjacent;
    if out != [] {
      FitsInit(out);
      ApartIsFixed(Init(out));
      MergePreservesBytes(Init(out));
      PutExact(MergeAll(Init(out)), Last(out));
      assert out == Init(out) + [Last(out)];
    }
  }

  /** The loop's own test on two neighbours: would b be joined to a? */
  predicate Meets(a: Segment, b: Segment)
  {
    && Low64(a.addr + a.len) == b.addr && a.len != 0
    && Low32(a.len + b.len) <= MAX_RUN && !AtBoundary(b.addr)
  }

  ghost predicate NoneMeet(out: seq<Segment>)
  {
    forall i :: 0 < i < |out| ==> !Meets(out[i - 1], out[i])
  }

  /** A list as the merge leaves it when it joins nothing. */
  ghost function Untouched(out: seq<Segment>): Merge
  {
    Merge(out, if out == [] then 0 else Low64(Last(out).addr + Last(out).len))
  }

  lemma NoneMeetSplit(out: seq<Segment>)
    requires out != []
    ensures NoneMeet(out) <==> NoneMeet(Init(out)) && (Init(out) == [] || !Meets(Last(Init(out)), Last(out)))
  {
    hide Meets;
    var init := Init(out);
    assert out == init + [Last(out)];
    if init != [] {
      assert Last(init) == out[|out| - 2];
    }
  }

  lemma PutOnUntouched(out: seq<Segment>, s: Segment)
    ensures Joins(Untouched(out), s) <==> out != [] && Meets(Last(out), s)
    ensures !Joins(Untouched(out), s) ==> Put(Untouched(out), s) == Untouched(out + [s])
  {
    hide Low32, Low64, AtBoundary;
  }

  lemma {:induction false} NoneMeetIsUntouched(out: seq<Segment>)
    requires NoneMeet(out)
    ensures MergeAll(out) == Untouched(out)
  {
    if out != [] {
      hide Joins, Put, Meets, NoneMeet;
      NoneMeetSplit(out);
      NoneMeetIsUntouched(Init(out));
      PutOnUntouched(Init(out), Last(out));
      assert out == Init(out) + [Last(out)];
    }
  }

  lemma {:induction false} MergeCount(segs: seq<Segment>)
    ensures |MergeAll(segs).out| <= |segs|
  {
    hide Joins, Put;
    if segs != [] {
      MergeCount(Init(segs));
      PutKeepsInit(MergeAll(Init(segs)), Last(segs));
    }
  }

  /** For every list: merging it changes nothing if and only if no neighbours pass the loop's test. */
  lemma {:induction false} FixedIffNoneMeet(out: seq<Segment>)
    ensures MergeAll(out).out == out <==> NoneMeet(out)
  {
    if out != [] {
      hide Joins, Put, Meets, NoneMeet, Low32, Low64, AtBoundary;
      NoneMeetSplit(out);
      if NoneMeet(out) {
        NoneMeetIsUntouched(out);
      } else if MergeAll(out).out == out {
        MergeCount(Init(out));
        PutKeepsInit(MergeAll(Init(out)), Last(out));
        FixedIffNoneMeet(Init(out));
        NoneMeetIsUntouched(Init(out));
        PutOnUntouched(Init(out), Last(out));
        assert false;
      }
    }
  }

  /** A join never makes the table longer. */
  lemma PutKeepsInit(m: Merge, s: Segment)
    ensures Joins(m, s) ==> |Put(m, s).out| == |m.out|
    ensures !Joins(m, s) ==> Put(m, s).out == m.out + [s]
  {
    hide AtBoundary, Low32, Low64;
  }

  /**
   * Merging a merged table again changes nothing if and only if no neighbours of the table pass the
   * loop's test. If the first merge was exact, this says that no sum wraps the second time.
   */
  lemma {:induction false} MergeIsIdempotentIff(segs: seq<Segment>)
    ensures var out := MergeAll(segs).out;
            && (MergeAll(out).out == out <==> NoneMeet(out))
            && (Fits(segs) ==> (NoneMeet(out) <==> NoOverflow(out)))
  {
    hide MergeAll, NoOverflow, NoneMeet;
    FixedIffNoneMeet(MergeAll(segs).out);
    if Fits(segs) {
      MergePreservesBytes(segs);
      MergeLeavesApart(segs);
      BytesKeptIff(MergeAll(segs).out);
      if NoOverflow(MergeAll(segs).out) {
        ApartIsFixed(MergeAll(segs).out);
      }
    }
  }

  /** An instance: the first merge wraps a sum, and the short descriptor it leaves is joined by the second. */
  lemma WrappedTableRejoins() returns (segs: seq<Segment>)
    ensures segs == [Segment(0x1000, 0xffff_fff0), Segment(0x1_0000_0ff0, 0x20), Segment(0x1010, 0x10)]
    ensures AllEven(segs) && InSpace(segs) && NoOverflow(MergeAll(segs).out)
    ensures MergeAll(segs).out == [Segment(0x1000, 0x10), Segment(0x1010, 0x10)]
    ensures MergeAll(MergeAll(segs).out).out == [Segment(0x1000, 0x20)]
  {
    var a, b, c := Segment(0x1000, 0xffff_fff0), Segment(0x1_0000_0ff0, 0x20), Segment(0x1010, 0x10);
    var ab := Segment(0x1000, 0x10);
    segs := [a, b, c];
    assert AllEven(segs) && InSpace(segs) && Meets(ab, c);
    OpenedAt(Merge([ab], 0x1_0000_1010), c, 0x1020);
    hide Put, Joins, MergeAll, NoOverflow, InSpace, AllEven, Low32, Low64, AtBoundary, Meets;
    WrappedMerge(a, b);
    assert [a, b] + [c] == segs && [ab] + [c] == [ab, c];
    MergeSnoc([a, b], c);
    JoinOfTwo(ab, c);
  }

  lemma JoinOfTwo(a: Segment, b: Segment)
    requires Meets(a, b) && a.len + b.len < TWO32
    ensures MergeAll([a, b]).out == [Segment(a.addr, a.len + b.len)] && NoOverflow([a, b])
  {
    var end := Low64(a.addr + a.len);
    assert Low32(a.len + b.len) == a.len + b.len;
    NothingToMerge();
    OpenedAt(Merge([], 0), a, end);
    JoinedAt(Merge([a], end), b, Segment(a.addr, a.len + b.len));
    hide Put, Joins, MergeAll, NoOverflow, Low32, Low64, AtBoundary;
    MergeSnoc([], a);
    MergeSnoc([a], b);
    assert [] + [a] == [a] && [a] + [b] == [a, b] && Init([a]) == [];
  }

  /** An instance: the first merge grows the second descriptor until the sum with the first one wraps. */
  lemma RemergeLosesBytes() returns (segs: seq<Segment>)
    ensures segs == [Segment(0x1000, 0xffff_ff00), Segment(0x1_0000_0f00, 0x80), Segment(0x1_0000_0f80, 0x80)]
    ensures Fits(segs) && MergeAll(segs).out == [segs[0], Segment(0x1_0000_0f00, 0x100)]
    ensures MergeAll(MergeAll(segs).out).out != MergeAll(segs).out
  {
    var a, b, c := Segment(0x1000, 0xffff_ff00), Segment(0x1_0000_0f00, 0x80), Segment(0x1_0000_0f80, 0x80);
    var bc := Segment(0x1_0000_0f00, 0x100);
    segs := [a, b, c];
    assert InSpace(segs);
    assert Meets(b, c) && !Meets(a, b) && Meets(a, bc) && Low64(a.addr + a.len) == b.addr;
    hide Put, Joins, MergeAll, NoOverflow, NoneMeet, InSpace, Low32, Low64, AtBoundary, Meets;
    TwoThenOne(a, b, c, bc);
    NoneMeetSplit([a, bc]);
    assert Init([a, bc]) == [a];
    FixedIffNoneMeet([a, bc]);
  }

  /** The second and the third are joined, the first stays alone. */
  lemma TwoThenOne(a: Segment, b: Segment, c: Segment, bc: Segment)
    requires !Meets(a, b) && Meets(b, c) && b.len + c.len < TWO32 && bc == Segment(b.addr, b.len + c.len)
    ensures MergeAll([a, b, c]).out == [a, bc] && NoOverflow([a, b, c])
  {
    var m := Untouched([a, b]);
    assert Init([a, b]) == [a] && Last([a, b]) == b && [a, b] + [c] == [a, b, c];
    hide Untouched, Meets, AtBoundary, MergeAll, NoOverflow, Put, Joins, Low64;
    TwoApart(a, b);
    PutOnUntouched([a, b], c);
    assert m.out == [a, b] by {
      UntouchedOut([a, b]);
    }
    assert Low32(b.len + c.len) == b.len + c.len;
    hide Low32;
    JoinedAt(m, c, bc);
    MergeSnoc([a, b], c);
  }

  lemma UntouchedOut(out: seq<Segment>)
    ensures Untouched(out).out == out
  {
  }

  lemma TwoApart(a: Segment, b: Segment)
    requires !Meets(a, b)
    ensures MergeAll([a, b]) == Untouched([a, b]) && NoOverflow([a, b])
  {
    assert [a, b][0] == a && [a, b][1] == b && NoneMeet([a, b]);
    UntouchedOut([a, b]);
    hide Meets, NoneMeet, MergeAll, NoOverflow, Total, Untouched;
    NoneMeetIsUntouched([a, b]);
    MergeTotal([a, b]);
  }

  /** In particular for every request without an element of 2 GiB, and for every one below 4 GiB. */
  lemma {:induction false} MergeIsIdempotent(segs: seq<Segment>)
    requires InSpace(segs) && Moderate(segs)
    ensures MergeAll(MergeAll(segs).out).out == MergeAll(segs).out && NoneMeet(MergeAll(segs).out)
  {
    hide MergeAll, NoOverflow, NoneMeet;
    ModerateNeverOverflows(segs);
    MergeIsIdempotentIff(segs);
  }
}
