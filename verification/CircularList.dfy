/**
 * The circular doubly linked list of inc/list.h. A ring is described by the sequence of its nodes,
 * the list head first; every operation is specified by what it does to that sequence.
 */
module CircularList {
  import opened Collections

  class ListHead {
    var next: ListHead
    var prev: ListHead

    /** INIT_LIST_HEAD */
    constructor ()
      ensures IsRing([this])
    {
      next, prev := this, this;
    }
  }

  function After<T>(s: seq<T>, i: nat): T
    requires i < |s|
  {
    if i + 1 < |s| then s[i + 1] else s[0]
  }

  /** next and prev between neighbours are inverse to each other. */
  ghost predicate Linked(s: seq<ListHead>, i: nat)
    requires i < |s|
    reads s
  {
    s[i].next == After(s, i) && After(s, i).prev == s[i]
  }

  ghost predicate IsRing(s: seq<ListHead>)
    reads s
  {
    s != [] && Distinct(s) && forall i :: 0 <= i < |s| ==> Linked(s, i)
  }

  /** Different nodes have different successors. */
  lemma AfterInjective<T>(s: seq<T>, k: nat)
    requires Distinct(s) && k < |s|
    ensures forall i :: 0 <= i < |s| && i != k ==> s[i] != s[k] && After(s, i) != After(s, k)
  {
  }

  /** __list_add */
  method InsertBetween(node: ListHead, prev: ListHead, next: ListHead, ghost s: seq<ListHead>, ghost k: nat)
    requires IsRing(s) && node !in s && k < |s|
    requires prev == s[k] && next == After(s, k)
    modifies node, prev`next, next`prev
    ensures IsRing(s[..k + 1] + [node] + s[k + 1..])
  {
    AfterInjective(s, k);
    next.prev := node;
    node.next := next;
    node.prev := prev;
    prev.next := node;
    forall i | 0 <= i < |s| && i != k
      ensures Linked(s, i)
    {
      assert old(Linked(s, i));
    }
    RingInserted(node, s, k);
  }

  lemma RingInserted(node: ListHead, s: seq<ListHead>, k: nat)
    requires Distinct(s) && node !in s && k < |s|
    requires s[k].next == node && node.prev == s[k] && node.next == After(s, k) && After(s, k).prev == node
    requires forall i :: 0 <= i < |s| && i != k ==> Linked(s, i)
    ensures IsRing(s[..k + 1] + [node] + s[k + 1..])
  {
    var t := s[..k + 1] + [node] + s[k + 1..];
    assert forall i :: 0 <= i < |t| ==> t[i] == if i <= k then s[i] else if i == k + 1 then node else s[i - 1];
    forall i | 0 <= i < |t|
      ensures Linked(t, i)
    {
      if i < k {
        assert Linked(s, i);
      } else if i > k + 1 {
        assert Linked(s, i - 1);
      }
    }
  }

  method ListAdd(node: ListHead, head: ListHead, ghost s: seq<ListHead>)
    requires IsRing(s) && head == s[0] && node !in s
    modifies node, s
    ensures IsRing([head, node] + s[1..])
  {
    assert Linked(s, 0);
    InsertBetween(node, head, head.next, s, 0);
    assert s[..1] + [node] + s[1..] == [head, node] + s[1..];
  }

  method ListAddTail(node: ListHead, head: ListHead, ghost s: seq<ListHead>)
    requires IsRing(s) && head == s[0] && node !in s
    modifies node, s
    ensures IsRing(s + [node])
  {
    assert Linked(s, |s| - 1);
    InsertBetween(node, head.prev, head, s, |s| - 1);
    assert s[..|s|] + [node] + s[|s|..] == s + [node];
  }

  /** The index of the node before the k-th. */
  function Before<T>(s: seq<T>, k: nat): nat
    requires k < |s|
  {
    if k == 0 then |s| - 1 else k - 1
  }

  /** The ring without its k-th node; a node alone in its ring stays one. */
  function Without<T>(s: seq<T>, k: nat): seq<T>
    requires k < |s|
  {
    if |s| == 1 then s else s[..k] + s[k + 1..]
  }

  /** The entry's own links stay as they were. */
  method ListDel(entry: ListHead, ghost s: seq<ListHead>, ghost k: nat)
    requires IsRing(s) && k < |s| && entry == s[k]
    modifies s
    ensures IsRing(Without(s, k))
    ensures entry.next == old(entry.next) && entry.prev == old(entry.prev)
  {
    ghost var b := Before(s, k);
    assert Linked(s, b) && Linked(s, k) && After(s, b) == s[k];
    hide Before, Without;
    AfterInjective(s, k);
    var prev, next := entry.prev, entry.next;
    next.prev := prev;
    prev.next := next;
    AfterInjective(s, b);
    forall i | 0 <= i < |s| && i != k && i != b
      ensures Linked(s, i)
    {
      assert old(Linked(s, i));
    }
    RingRemoved(s, k);
  }

  lemma RingRemoved(s: seq<ListHead>, k: nat)
    requires Distinct(s) && k < |s|
    requires s[Before(s, k)].next == After(s, k) && After(s, k).prev == s[Before(s, k)]
    requires forall i :: 0 <= i < |s| && i != k && i != Before(s, k) ==> Linked(s, i)
    ensures IsRing(Without(s, k))
  {
    var t := Without(s, k);
    if |s| > 1 {
      assert forall i :: 0 <= i < |t| ==> t[i] == if i < k then s[i] else s[i + 1];
      forall i | 0 <= i < |t|
        ensures Linked(t, i)
      {
        var j := if i < k then i else i + 1;
        if j != Before(s, k) {
          assert Linked(s, j) && After(t, i) == After(s, j);
        } else {
          assert After(t, i) == After(s, k);
        }
      }
    }
  }

  method ListDelInit(entry: ListHead, ghost s: seq<ListHead>, ghost k: nat)
    requires IsRing(s) && k < |s| && entry == s[k]
    modifies s
    ensures IsRing(Without(s, k)) && IsRing([entry])
  {
    ListDel(entry, s, k);
    ghost var t := Without(s, k);
    entry.next := entry;
    entry.prev := entry;
    if |s| > 1 {
      assert forall i :: 0 <= i < |t| ==> t[i] != entry;
    } else {
      assert s == [entry];
    }
  }

  method ListEmpty(head: ListHead, ghost s: seq<ListHead>) returns (empty: bool)
    requires IsRing(s) && head == s[0]
    ensures empty <==> s == [head]
  {
    empty := head.next == head;
    assert Linked(s, 0);
  }

  /** __list_splice: the elements of the first ring, without its head, go to the front of the second. */
  method SpliceNonEmpty(list: ListHead, head: ListHead, ghost l: seq<ListHead>, ghost s: seq<ListHead>)
    requires IsRing(l) && IsRing(s) && list == l[0] && head == s[0] && |l| > 1
    requires Distinct(l + s)
    modifies l, s
    ensures IsRing([head] + l[1..] + s[1..])
    ensures list.next == old(list.next) && list.prev == old(list.prev)
  {
    assert Linked(l, 0) && Linked(l, |l| - 1) && Linked(s, 0);
    DistinctApart(l, s);
    var first, last, at := list.next, list.prev, head.next;
    first.prev := head;
    head.next := first;
    last.next := at;
    at.prev := last;
    AfterInjective(l, 0);
    AfterInjective(l, |l| - 1);
    AfterInjective(s, 0);
    forall i | 0 < i < |l| - 1
      ensures Linked(l, i)
    {
      assert old(Linked(l, i));
    }
    forall i | 0 < i < |s|
      ensures Linked(s, i)
    {
      assert old(Linked(s, i));
    }
    RingSpliced(l, s);
  }

  lemma DistinctApart<T>(l: seq<T>, s: seq<T>)
    requires Distinct(l + s)
    ensures forall i, j :: 0 <= i < |l| && 0 <= j < |s| ==> l[i] != s[j]
    ensures Distinct(l) && Distinct(s)
  {
    forall i, j | 0 <= i < |l| && 0 <= j < |s|
      ensures l[i] != s[j]
    {
      assert (l + s)[i] != (l + s)[|l| + j];
    }
    forall i, j | 0 <= i < j < |s|
      ensures s[i] != s[j]
    {
      assert (l + s)[|l| + i] != (l + s)[|l| + j];
    }
    assert forall i :: 0 <= i < |l| ==> l[i] == (l + s)[i];
  }

  lemma SplicedDistinct<T>(l: seq<T>, s: seq<T>)
    requires l != [] && s != [] && Distinct(l + s)
    ensures Distinct([s[0]] + l[1..] + s[1..])
  {
    DistinctApart(l, s);
    var t := [s[0]] + l[1..] + s[1..];
    assert forall i :: 0 <= i < |t| ==> t[i] == if i == 0 then s[0] else if i < |l| then l[i] else s[i - |l| + 1];
  }

  lemma RingSpliced(l: seq<ListHead>, s: seq<ListHead>)
    requires |l| > 1 && s != [] && Distinct(l + s)
    requires s[0].next == l[1] && l[1].prev == s[0]
    requires l[|l| - 1].next == After(s, 0) && After(s, 0).prev == l[|l| - 1]
    requires forall i :: 0 < i < |l| - 1 ==> Linked(l, i)
    requires forall i :: 0 < i < |s| ==> Linked(s, i)
    ensures IsRing([s[0]] + l[1..] + s[1..])
  {
    DistinctApart(l, s);
    var t := [s[0]] + l[1..] + s[1..];
    SplicedDistinct(l, s);
    assert forall i :: 0 <= i < |t| ==> t[i] == if i == 0 then s[0] else if i < |l| then l[i] else s[i - |l| + 1];
    forall i | 0 <= i < |t|
      ensures Linked(t, i)
    {
      if i == 0 {
        assert t[i + 1] == l[1];
      } else if i < |l| - 1 {
        assert Linked(l, i) && t[i + 1] == l[i + 1];
      } else if i == |l| - 1 {
        assert After(t, i) == After(s, 0);
      } else {
        assert Linked(s, i - |l| + 1) && After(t, i) == After(s, i - |l| + 1);
      }
    }
  }

  method ListSplice(list: ListHead, head: ListHead, ghost l: seq<ListHead>, ghost s: seq<ListHead>)
    requires IsRing(l) && IsRing(s) && list == l[0] && head == s[0] && Distinct(l + s)
    modifies l, s
    ensures IsRing([head] + l[1..] + s[1..])
  {
    var empty := ListEmpty(list, l);
    if !empty {
      SpliceNonEmpty(list, head, l, s);
    } else {
      assert [head] + l[1..] + s[1..] == s;
    }
  }

  method ListSpliceInit(list: ListHead, head: ListHead, ghost l: seq<ListHead>, ghost s: seq<ListHead>)
    requires IsRing(l) && IsRing(s) && list == l[0] && head == s[0] && Distinct(l + s)
    modifies l, s
    ensures IsRing([head] + l[1..] + s[1..]) && IsRing([list])
  {
    var empty := ListEmpty(list, l);
    if !empty {
      DistinctApart(l, s);
      SpliceNonEmpty(list, head, l, s);
      ghost var t := [head] + l[1..] + s[1..];
      assert forall i :: 0 <= i < |t| ==> t[i] != list;
      list.next := list;
      list.prev := list;
    } else {
      assert [head] + l[1..] + s[1..] == s && l == [list];
    }
  }

  function Kept<T(==)>(s: seq<T>, doomed: set<T>): seq<T>
  {
    if s == [] then []
    else if s[|s| - 1] in doomed then Kept(s[..|s| - 1], doomed)
    else Kept(s[..|s| - 1], doomed) + [s[|s| - 1]]
  }

  lemma {:induction false} KeptFrom<T>(s: seq<T>, doomed: set<T>)
    ensures forall t :: t in Kept(s, doomed) <==> t in s && t !in doomed
  {
    if s != [] {
      KeptFrom(s[..|s| - 1], doomed);
      assert s == s[..|s| - 1] + [s[|s| - 1]];
    }
  }

  /** The loop body: the current node is deleted if it is doomed. */
  method Visit(pos: ListHead, doomed: set<ListHead>, ghost s: seq<ListHead>, ghost i: nat, ghost kept: seq<ListHead>)
      returns (ghost kept': seq<ListHead>)
    requires 0 < i < |s| && pos == s[i] && IsRing([s[0]] + kept + s[i..])
    requires forall j :: 0 <= j < |kept| ==> kept[j] in s
    modifies s
    ensures kept' == (if pos in doomed then kept else kept + [pos])
    ensures IsRing([s[0]] + kept' + s[i + 1..])
  {
    ghost var ring, k := [s[0]] + kept + s[i..], |kept| + 1;
    kept' := if pos in doomed then kept else kept + [pos];
    if pos in doomed {
      ListDelInit(pos, ring, k);
      assert Without(ring, k) == [s[0]] + kept' + s[i + 1..];
    } else {
      assert ring == [s[0]] + kept' + s[i + 1..];
    }
  }

  /** Where the walk stands: i nodes are behind it, and those kept are still linked before the rest. */
  ghost predicate Walking(s: seq<ListHead>, i: nat, kept: seq<ListHead>, doomed: set<ListHead>, pos: ListHead)
    reads s, kept
  {
    && 1 <= i <= |s| && pos == (if i < |s| then s[i] else s[0])
    && kept == Kept(s[1..i], doomed) && (forall j :: 0 <= j < |kept| ==> kept[j] in s)
    && IsRing([s[0]] + kept + s[i..])
  }

  lemma WalkNext(s: seq<ListHead>, i: nat, kept: seq<ListHead>, pos: ListHead)
    requires 0 < i < |s| && pos == s[i] && IsRing([s[0]] + kept + s[i..])
    ensures pos != s[0] && pos.next == (if i + 1 < |s| then s[i + 1] else s[0])
  {
    var ring := [s[0]] + kept + s[i..];
    assert ring[|kept| + 1] == pos && ring[0] == s[0] && Linked(ring, |kept| + 1);
  }

  /**
   * list_for_each_safe with a body that deletes its current node whenever that is doomed: every
   * original node is visited once, in order, and exactly the others stay linked.
   */
  method ForEachSafe(head: ListHead, doomed: set<ListHead>, ghost s: seq<ListHead>) returns (visited: seq<ListHead>)
    requires IsRing(s) && head == s[0]
    modifies s
    ensures visited == s[1..]
    ensures IsRing([head] + Kept(s[1..], doomed))
    ensures forall t :: t in Kept(s[1..], doomed) <==> t in s[1..] && t !in doomed
  {
    visited := [];
    var pos := head.next;
    var n := pos.next;
    ghost var i, kept: seq<ListHead> := 1, [];
    assert [head] + kept + s[1..] == s && Linked(s, 0);
    while pos != head
      invariant Walking(s, i, kept, doomed, pos) && n == pos.next
      invariant visited == s[1..i]
      decreases |s| - i
    {
      WalkNext(s, i, kept, pos);
      kept := Visit(pos, doomed, s, i, kept);
      KeptSnoc(s, i, doomed);
      visited := visited + [pos];
      pos := n;
      n := pos.next;
      i := i + 1;
    }
    WalkEnd(s, i, kept, doomed);
    KeptFrom(s[1..], doomed);
  }

  lemma KeptSnoc<T>(s: seq<T>, i: nat, doomed: set<T>)
    requires 0 < i < |s|
    ensures s[1..i + 1] == s[1..i] + [s[i]]
    ensures Kept(s[1..i + 1], doomed) == Kept(s[1..i], doomed) + (if s[i] in doomed then [] else [s[i]])
  {
    assert s[1..i + 1][..i - 1] == s[1..i];
  }

  lemma WalkEnd(s: seq<ListHead>, i: nat, kept: seq<ListHead>, doomed: set<ListHead>)
    requires s != [] && Walking(s, i, kept, doomed, s[0])
    ensures i == |s| && IsRing([s[0]] + kept)
  {
    if i < |s| {
      WalkNext(s, i, kept, s[0]);
    }
    assert [s[0]] + kept + s[|s|..] == [s[0]] + kept;
  }
}
