/**
  The pointer level of the kernel allocator (student-distrib/mem.c): descriptors in a
  fixed array, linked into two doubly linked lists headed by sentinels. Pointers to
  descriptors are indices into the array. Every operation is proved to compute the
  operation of the same name on the heap value of KernelHeap.dfy.
 */
module Allocator {
  import opened Machine
  import opened FirstFit
  import opened KernelHeap

  const NULL: int := -1

  datatype Region = Region(ptr: int, size: int, next: int, prev: int, inUse: bool) {
    function AsBlock(): Block { Block(ptr, size) }
  }

  const FREE_HEAD: int := 0
  const ALLOC_HEAD: int := 2

  // ---------------------------------------------------------------- linked lists

  ghost predicate Indices(xs: seq<int>, n: int) {
    && |xs| > 0
    && (forall i :: 0 <= i < |xs| ==> 0 <= xs[i] < n)
    && (forall i, j :: 0 <= i < j < |xs| ==> xs[i] != xs[j])
  }

  function Succ(xs: seq<int>, i: nat): int
    requires i < |xs|
  {
    if i + 1 < |xs| then xs[i + 1] else NULL
  }

  function Pred(xs: seq<int>, i: nat): int
    requires i < |xs|
  {
    if i > 0 then xs[i - 1] else NULL
  }

  /** The descriptors xs, in this order, are linked both ways. */
  ghost predicate List(rs: seq<Region>, xs: seq<int>) {
    && Indices(xs, |rs|)
    && (forall i {:trigger rs[xs[i]].next} :: 0 <= i < |xs| ==> rs[xs[i]].next == Succ(xs, i))
    && (forall i {:trigger rs[xs[i]].prev} :: 0 <= i < |xs| ==> rs[xs[i]].prev == Pred(xs, i))
  }

  /** The blocks of a list, the sentinel left out. */
  ghost function Blocks(rs: seq<Region>, xs: seq<int>): (bs: seq<Block>)
    requires Indices(xs, |rs|)
    ensures |bs| == |xs| - 1
  {
    seq(|xs| - 1, i requires 0 <= i < |xs| - 1 => rs[xs[i + 1]].AsBlock())
  }

  ghost predicate Disjoint(xs: seq<int>, ys: seq<int>) {
    forall i, j :: 0 <= i < |xs| && 0 <= j < |ys| ==> xs[i] != ys[j]
  }

  /** Two separate lists, and a descriptor is in use exactly when it is in one of them. */
  ghost predicate Accounted(rs: seq<Region>, xs: seq<int>, ys: seq<int>) {
    && List(rs, xs) && List(rs, ys) && Disjoint(xs, ys)
    && (forall r {:trigger rs[r].inUse} :: 0 <= r < |rs| ==> (rs[r].inUse <==> r in xs || r in ys))
  }

  ghost predicate Linked(rs: seq<Region>, free: seq<int>, alloc: seq<int>) {
    && |rs| == MAX_REGIONS
    && Accounted(rs, free, alloc)
    && free[0] == FREE_HEAD && alloc[0] == ALLOC_HEAD
    && rs[FREE_HEAD].AsBlock() == Block(0, 0) && rs[ALLOC_HEAD].AsBlock() == Block(0, 0)
  }

  /** The stores that take descriptor r out from between p and n. */
  function Unlink(rs: seq<Region>, p: int, r: int, n: int): (ss: seq<Region>)
    requires 0 <= p < |rs| && 0 <= r < |rs| && NULL <= n < |rs|
    ensures |ss| == |rs|
  {
    var s1 := rs[p := rs[p].(next := n)];
    var s2 := if n != NULL then s1[n := s1[n].(prev := p)] else s1;
    s2[r := s2[r].(inUse := false)]
  }

  /** The stores that put descriptor r in between p and n. */
  function Link(rs: seq<Region>, p: int, r: int, n: int): (ss: seq<Region>)
    requires 0 <= p < |rs| && 0 <= r < |rs| && NULL <= n < |rs|
    ensures |ss| == |rs|
  {
    var s1 := rs[p := rs[p].(next := r)];
    var s2 := s1[r := s1[r].(prev := p, next := n)];
    if n != NULL then s2[n := s2[n].(prev := r)] else s2
  }

  function Drop(xs: seq<int>, k: nat): (ys: seq<int>)
    requires k < |xs|
    ensures |ys| == |xs| - 1
    ensures forall i :: 0 <= i < |ys| ==> ys[i] == if i < k then xs[i] else xs[i + 1]
  {
    xs[..k] + xs[k + 1..]
  }

  function Put(xs: seq<int>, k: nat, r: int): (ys: seq<int>)
    requires k <= |xs|
    ensures |ys| == |xs| + 1
    ensures forall i :: 0 <= i < |ys| ==> ys[i] == if i < k then xs[i] else if i == k then r else xs[i - 1]
  {
    xs[..k] + [r] + xs[k..]
  }

  lemma UnlinkFields(rs: seq<Region>, p: int, r: int, n: int, j: int)
    requires 0 <= p < |rs| && 0 <= r < |rs| && NULL <= n < |rs| && p != r && n != r && n != p
    requires 0 <= j < |rs|
    ensures var s := Unlink(rs, p, r, n)[j];
      && s.AsBlock() == rs[j].AsBlock()
      && s.next == (if j == p then n else rs[j].next)
      && s.prev == (if j == n then p else rs[j].prev)
      && s.inUse == (j != r && rs[j].inUse)
  {
  }

  lemma LinkFields(rs: seq<Region>, p: int, r: int, n: int, j: int)
    requires 0 <= p < |rs| && 0 <= r < |rs| && NULL <= n < |rs| && p != r && n != r && n != p
    requires 0 <= j < |rs|
    ensures var s := Link(rs, p, r, n)[j];
      && s.AsBlock() == rs[j].AsBlock()
      && s.next == (if j == p then r else if j == r then n else rs[j].next)
      && s.prev == (if j == n then r else if j == r then p else rs[j].prev)
      && s.inUse == rs[j].inUse
  {
  }

  lemma ListLinks(rs: seq<Region>, xs: seq<int>)
    requires List(rs, xs)
    ensures |xs| > 0 && forall i {:trigger xs[i]} :: 0 <= i < |xs| ==> 0 <= xs[i] < |rs| && rs[xs[i]].next == Succ(xs, i)
  {
  }

  lemma UnlinkNode(rs: seq<Region>, xs: seq<int>, k: nat, i: nat)
    requires List(rs, xs) && 1 <= k < |xs| && i < |xs| - 1
    ensures var ys, ss := Drop(xs, k), Unlink(rs, xs[k - 1], xs[k], Succ(xs, k));
      && 0 <= ys[i] < |rs| && ss[ys[i]].AsBlock() == rs[ys[i]].AsBlock()
      && ss[ys[i]].next == Succ(ys, i) && ss[ys[i]].prev == Pred(ys, i)
  {
    var m := if i < k then i else i + 1;
    assert rs[xs[m]].next == Succ(xs, m) && rs[xs[m]].prev == Pred(xs, m);
    UnlinkFields(rs, xs[k - 1], xs[k], Succ(xs, k), xs[m]);
  }

  lemma UnlinkList(rs: seq<Region>, xs: seq<int>, k: nat)
    requires List(rs, xs) && 1 <= k < |xs|
    ensures List(Unlink(rs, xs[k - 1], xs[k], Succ(xs, k)), Drop(xs, k))
    ensures Blocks(Unlink(rs, xs[k - 1], xs[k], Succ(xs, k)), Drop(xs, k)) == Without(Blocks(rs, xs), k - 1)
  {
    var ys, ss := Drop(xs, k), Unlink(rs, xs[k - 1], xs[k], Succ(xs, k));
    forall i: nat | i < |ys|
      ensures 0 <= ys[i] < |rs| && ss[ys[i]].AsBlock() == rs[ys[i]].AsBlock()
      ensures ss[ys[i]].next == Succ(ys, i) && ss[ys[i]].prev == Pred(ys, i)
    {
      UnlinkNode(rs, xs, k, i);
    }
    DropBlocks(rs, xs, k);
  }

  lemma DropBlocks(rs: seq<Region>, xs: seq<int>, k: nat)
    requires Indices(xs, |rs|) && 1 <= k < |xs|
    ensures Indices(Drop(xs, k), |rs|)
    ensures Blocks(rs, Drop(xs, k)) == Without(Blocks(rs, xs), k - 1)
  {
  }

  lemma LinkNode(rs: seq<Region>, xs: seq<int>, k: nat, r: int, i: nat)
    requires List(rs, xs) && 1 <= k <= |xs| && 0 <= r < |rs| && r !in xs && i <= |xs|
    ensures var ys, ss := Put(xs, k, r), Link(rs, xs[k - 1], r, Succ(xs, k - 1));
      && 0 <= ys[i] < |rs| && ss[ys[i]].AsBlock() == rs[ys[i]].AsBlock()
      && ss[ys[i]].next == Succ(ys, i) && ss[ys[i]].prev == Pred(ys, i)
  {
    if i != k {
      var m := if i < k then i else i - 1;
      assert rs[xs[m]].next == Succ(xs, m) && rs[xs[m]].prev == Pred(xs, m);
      LinkFields(rs, xs[k - 1], r, Succ(xs, k - 1), xs[m]);
    } else {
      LinkFields(rs, xs[k - 1], r, Succ(xs, k - 1), r);
    }
  }

  lemma LinkList(rs: seq<Region>, xs: seq<int>, k: nat, r: int)
    requires List(rs, xs) && 1 <= k <= |xs| && 0 <= r < |rs| && r !in xs
    ensures List(Link(rs, xs[k - 1], r, Succ(xs, k - 1)), Put(xs, k, r))
    ensures Blocks(Link(rs, xs[k - 1], r, Succ(xs, k - 1)), Put(xs, k, r))
         == Blocks(rs, xs)[..k - 1] + [rs[r].AsBlock()] + Blocks(rs, xs)[k - 1..]
  {
    var ys, ss := Put(xs, k, r), Link(rs, xs[k - 1], r, Succ(xs, k - 1));
    forall i: nat | i < |ys|
      ensures 0 <= ys[i] < |rs| && ss[ys[i]].AsBlock() == rs[ys[i]].AsBlock()
      ensures ss[ys[i]].next == Succ(ys, i) && ss[ys[i]].prev == Pred(ys, i)
    {
      LinkNode(rs, xs, k, r, i);
    }
    PutBlocks(rs, xs, k, r);
  }

  lemma PutBlocks(rs: seq<Region>, xs: seq<int>, k: nat, r: int)
    requires Indices(xs, |rs|) && 1 <= k <= |xs| && 0 <= r < |rs| && r !in xs
    ensures Indices(Put(xs, k, r), |rs|)
    ensures Blocks(rs, Put(xs, k, r)) == Blocks(rs, xs)[..k - 1] + [rs[r].AsBlock()] + Blocks(rs, xs)[k - 1..]
  {
  }

  /** Two descriptor tables agree on what a list consists of. */
  ghost predicate SameOn(rs: seq<Region>, ss: seq<Region>, xs: seq<int>) {
    && |rs| == |ss|
    && forall i :: 0 <= i < |xs| && 0 <= xs[i] < |rs| ==> rs[xs[i]].(inUse := true) == ss[xs[i]].(inUse := true)
  }

  lemma SameList(rs: seq<Region>, ss: seq<Region>, xs: seq<int>)
    requires List(rs, xs) && SameOn(rs, ss, xs)
    ensures List(ss, xs) && Blocks(rs, xs) == Blocks(ss, xs)
  {
    assert forall i :: 0 <= i < |xs| ==> rs[xs[i]].(inUse := true) == ss[xs[i]].(inUse := true);
  }

  lemma DropMember(xs: seq<int>, k: nat, j: int)
    requires k < |xs| && forall i, m :: 0 <= i < m < |xs| ==> xs[i] != xs[m]
    ensures j in Drop(xs, k) <==> j in xs && j != xs[k]
  {
    var zs := Drop(xs, k);
    if j in xs && j != xs[k] {
      var m :| 0 <= m < |xs| && xs[m] == j;
      assert zs[if m < k then m else m - 1] == j;
    }
  }

  lemma PutMember(xs: seq<int>, k: nat, r: int, j: int)
    requires k <= |xs|
    ensures j in Put(xs, k, r) <==> j in xs || j == r
  {
    var zs := Put(xs, k, r);
    assert zs[k] == r;
    if j in xs {
      var m :| 0 <= m < |xs| && xs[m] == j;
      assert zs[if m < k then m else m + 1] == j;
    }
  }

  /** Lists that a store does not reach keep their links and blocks. */
  lemma UnlinkOther(rs: seq<Region>, xs: seq<int>, ys: seq<int>, k: nat)
    requires List(rs, xs) && List(rs, ys) && Disjoint(xs, ys) && 1 <= k < |xs|
    ensures var ss := Unlink(rs, xs[k - 1], xs[k], Succ(xs, k));
      List(ss, ys) && Blocks(ss, ys) == Blocks(rs, ys)
  {
    var p, r, n := xs[k - 1], xs[k], Succ(xs, k);
    var ss := Unlink(rs, p, r, n);
    assert SameOn(rs, ss, ys) by {
      forall i | 0 <= i < |ys| ensures rs[ys[i]].(inUse := true) == ss[ys[i]].(inUse := true) {
        UnlinkFields(rs, p, r, n, ys[i]);
      }
    }
    SameList(rs, ss, ys);
  }

  lemma LinkOther(rs: seq<Region>, xs: seq<int>, ys: seq<int>, k: nat, r: int)
    requires List(rs, xs) && List(rs, ys) && Disjoint(xs, ys) && 1 <= k <= |xs|
    requires 0 <= r < |rs| && r !in xs && r !in ys
    ensures var ss := Link(rs, xs[k - 1], r, Succ(xs, k - 1));
      List(ss, ys) && Blocks(ss, ys) == Blocks(rs, ys)
  {
    var p, n := xs[k - 1], Succ(xs, k - 1);
    var ss := Link(rs, p, r, n);
    assert SameOn(rs, ss, ys) by {
      forall i | 0 <= i < |ys| ensures rs[ys[i]].(inUse := true) == ss[ys[i]].(inUse := true) {
        LinkFields(rs, p, r, n, ys[i]);
      }
    }
    SameList(rs, ss, ys);
  }

  lemma UnlinkAccounted(rs: seq<Region>, xs: seq<int>, ys: seq<int>, k: nat, ss: seq<Region>)
    requires Accounted(rs, xs, ys) && 1 <= k < |xs|
    requires ss == Unlink(rs, xs[k - 1], xs[k], Succ(xs, k))
    ensures Accounted(ss, Drop(xs, k), ys)
    ensures Blocks(ss, Drop(xs, k)) == Without(Blocks(rs, xs), k - 1)
    ensures Blocks(ss, ys) == Blocks(rs, ys)
    ensures forall j :: 0 <= j < |rs| ==> ss[j].AsBlock() == rs[j].AsBlock()
  {
    forall j | 0 <= j < |rs|
      ensures ss[j].inUse <==> j in Drop(xs, k) || j in ys
      ensures ss[j].AsBlock() == rs[j].AsBlock()
    {
      UnlinkFields(rs, xs[k - 1], xs[k], Succ(xs, k), j);
      DropMember(xs, k, j);
    }
    assert Disjoint(Drop(xs, k), ys);
    hide List, Indices, Disjoint, Unlink, Drop;
    UnlinkList(rs, xs, k);
    UnlinkOther(rs, xs, ys, k);
  }

  lemma LinkCounts(rs: seq<Region>, xs: seq<int>, ys: seq<int>, k: nat, r: int, ls: seq<Region>, ss: seq<Region>)
    requires Indices(xs, |rs|) && Disjoint(xs, ys)
    requires 0 <= r < |rs| && r !in xs && r !in ys && 1 <= k <= |xs|
    requires forall j :: 0 <= j < |rs| && j != r ==> (rs[j].inUse <==> j in xs || j in ys)
    requires ls == Link(rs, xs[k - 1], r, Succ(xs, k - 1)) && ss == ls[r := ls[r].(inUse := true)]
    ensures Disjoint(Put(xs, k, r), ys)
    ensures forall j :: 0 <= j < |rs| ==> (ss[j].inUse <==> j in Put(xs, k, r) || j in ys)
    ensures forall j :: 0 <= j < |rs| ==> ss[j].AsBlock() == rs[j].AsBlock()
  {
    forall i, j | 0 <= i < |Put(xs, k, r)| && 0 <= j < |ys| ensures Put(xs, k, r)[i] != ys[j] {
      assert Put(xs, k, r)[i] in Put(xs, k, r);
      PutMember(xs, k, r, ys[j]);
    }
    hide Put;
    forall j | 0 <= j < |rs|
      ensures ss[j].inUse <==> j in Put(xs, k, r) || j in ys
      ensures ss[j].AsBlock() == rs[j].AsBlock()
    {
      LinkFields(rs, xs[k - 1], r, Succ(xs, k - 1), j);
      PutMember(xs, k, r, j);
    }
  }

  /** Linking in a descriptor that is in no list; it is marked in use before or after. */
  lemma LinkAccounted(rs: seq<Region>, xs: seq<int>, ys: seq<int>, k: nat, r: int, ls: seq<Region>, ss: seq<Region>)
    requires List(rs, xs) && List(rs, ys) && Disjoint(xs, ys)
    requires 0 <= r < |rs| && r !in xs && r !in ys && 1 <= k <= |xs|
    requires forall j :: 0 <= j < |rs| && j != r ==> (rs[j].inUse <==> j in xs || j in ys)
    requires ls == Link(rs, xs[k - 1], r, Succ(xs, k - 1)) && ss == ls[r := ls[r].(inUse := true)]
    ensures Accounted(ss, Put(xs, k, r), ys)
    ensures Blocks(ss, Put(xs, k, r)) == Blocks(rs, xs)[..k - 1] + [rs[r].AsBlock()] + Blocks(rs, xs)[k - 1..]
    ensures Blocks(ss, ys) == Blocks(rs, ys)
    ensures forall j :: 0 <= j < |rs| ==> ss[j].AsBlock() == rs[j].AsBlock()
  {
    LinkCounts(rs, xs, ys, k, r, ls, ss);
    assert SameOn(ls, ss, Put(xs, k, r)) && SameOn(ls, ss, ys);
    hide List, Indices, Disjoint, SameOn, Link, Put;
    LinkList(rs, xs, k, r);
    LinkOther(rs, xs, ys, k, r);
    SameList(ls, ss, Put(xs, k, r));
    SameList(ls, ss, ys);
  }

  // ---------------------------------------------------------------- descriptor accounting

  lemma {:induction false} DistinctSize(xs: seq<int>)
    requires forall i, j :: 0 <= i < j < |xs| ==> xs[i] != xs[j]
    ensures |set x | x in xs| == |xs|
    decreases |xs|
  {
    if xs != [] {
      var ys := xs[1..];
      DistinctSize(ys);
      assert (set x | x in xs) == {xs[0]} + (set x | x in ys);
      assert xs[0] !in ys;
    }
  }

  ghost function Range(n: nat): (s: set<int>)
    ensures forall x :: x in s <==> 0 <= x < n
    ensures |s| == n
  {
    if n == 0 then {} else Range(n - 1) + {n - 1}
  }

  lemma SubsetSize(a: set<int>, b: set<int>)
    requires a <= b
    ensures |a| <= |b|
  {
    assert b == a + (b - a);
  }

  lemma CountIndices(xs: seq<int>, ys: seq<int>, n: nat)
    requires Indices(xs, n) && Indices(ys, n) && Disjoint(xs, ys)
    ensures |xs| + |ys| <= n
    ensures |xs| + |ys| == n <==> forall r :: 0 <= r < n ==> r in xs || r in ys
  {
    var f, g, all := (set x | x in xs), (set x | x in ys), Range(n);
    DistinctSize(xs);
    DistinctSize(ys);
    assert f !! g;
    assert forall x :: x in xs || x in ys ==> 0 <= x < n;
    hide Indices, Disjoint;
    assert |f + g| == |xs| + |ys|;
    assert f + g <= all;
    SubsetSize(f + g, all);
    if r :| 0 <= r < n && r !in xs && r !in ys {
      assert f + g <= all - {r};
      SubsetSize(f + g, all - {r});
    } else {
      assert all <= f + g;
      SubsetSize(all, f + g);
    }
  }

  /** A descriptor is left exactly when the lists hold fewer than all of them. */
  lemma SpareIff(rs: seq<Region>, free: seq<int>, alloc: seq<int>)
    requires Linked(rs, free, alloc)
    ensures |free| + |alloc| <= MAX_REGIONS
    ensures (forall r :: 0 <= r < |rs| ==> rs[r].inUse) <==> |free| + |alloc| == MAX_REGIONS
  {
    assert forall r :: 0 <= r < |rs| ==> (rs[r].inUse <==> r in free || r in alloc);
    CountIndices(free, alloc, MAX_REGIONS);
  }

  lemma InitialFree(rs: seq<Region>)
    requires |rs| == MAX_REGIONS && rs[0] == Region(0, 0, 1, NULL, true)
    requires rs[1] == Region(BASE, STORAGE_BYTES, NULL, 0, true)
    ensures List(rs, [0, 1]) && Blocks(rs, [0, 1]) == [Block(BASE, STORAGE_BYTES)]
  {
    var xs := [0, 1];
    assert xs[0] == 0 && xs[1] == 1;
    assert Succ(xs, 0) == 1 && Succ(xs, 1) == NULL && Pred(xs, 0) == NULL && Pred(xs, 1) == 0;
  }

  lemma InitialAlloc(rs: seq<Region>)
    requires |rs| == MAX_REGIONS && rs[2] == Region(0, 0, NULL, NULL, true)
    ensures List(rs, [2]) && Blocks(rs, [2]) == []
  {
    var xs := [2];
    assert xs[0] == 2;
    assert Succ(xs, 0) == NULL && Pred(xs, 0) == NULL;
  }

  lemma InitialLinked(rs: seq<Region>)
    requires |rs| == MAX_REGIONS
    requires rs[0] == Region(0, 0, 1, NULL, true)
    requires rs[1] == Region(BASE, STORAGE_BYTES, NULL, 0, true)
    requires rs[2] == Region(0, 0, NULL, NULL, true)
    requires forall r :: 3 <= r < |rs| ==> !rs[r].inUse
    ensures Linked(rs, [0, 1], [2])
    ensures Blocks(rs, [0, 1]) == [Block(BASE, STORAGE_BYTES)] && Blocks(rs, [2]) == []
  {
    hide List;
    InitialFree(rs);
    InitialAlloc(rs);
    var xs, ys := [0, 1], [2];
    assert xs[0] == 0 && xs[1] == 1 && ys[0] == 2;
    assert forall r :: r in xs <==> r == 0 || r == 1;
    assert forall r :: r in ys <==> r == 2;
  }

  // ---------------------------------------------------------------- block lists

  /** Merging block i with the next, wherever in the list that is. */
  function MergedAt(bs: seq<Block>, i: nat): seq<Block>
    requires i + 1 < |bs|
  {
    bs[..i] + [Join(bs[i], bs[i + 1])] + bs[i + 2..]
  }

  lemma MergedAtKeeps(bs: seq<Block>, i: nat)
    requires Sorted(bs) && i + 1 < |bs| && Adjacent(bs[i], bs[i + 1])
    ensures Sorted(MergedAt(bs, i))
    ensures forall a :: Holds(MergedAt(bs, i), a) <==> Holds(bs, a)
  {
    var cs := MergedAt(bs, i);
    assert forall j :: 0 <= j < |cs| ==> cs[j] == if j < i then bs[j] else if j == i then Join(bs[i], bs[i + 1]) else bs[j + 1];
    forall a ensures Holds(cs, a) <==> Holds(bs, a) {
      MergedAtHolds(bs, i, a);
    }
  }

  lemma MergedAtHolds(bs: seq<Block>, i: nat, a: int)
    requires i + 1 < |bs| && Adjacent(bs[i], bs[i + 1]) && bs[i].size > 0 && bs[i + 1].size > 0
    ensures Holds(MergedAt(bs, i), a) <==> Holds(bs, a)
  {
    var p, q := bs[..i], bs[i + 2..];
    assert bs == p + [bs[i]] + [bs[i + 1]] + q;
    HoldsAppend(p + [bs[i]] + [bs[i + 1]], q, a);
    HoldsAppend(p + [bs[i]], [bs[i + 1]], a);
    HoldsAppend(p, [bs[i]], a);
    HoldsAppend(p + [Join(bs[i], bs[i + 1])], q, a);
    HoldsAppend(p, [Join(bs[i], bs[i + 1])], a);
    HoldsOne(bs[i], a);
    HoldsOne(bs[i + 1], a);
    HoldsOne(Join(bs[i], bs[i + 1]), a);
  }

  /** A block inserted where the walk of add_region stops lands where Insert puts it. */
  lemma {:induction false} InsertAt(bs: seq<Block>, b: Block, k: nat)
    requires k <= |bs|
    requires forall i :: 0 <= i < k ==> bs[i].ptr < b.ptr
    requires k < |bs| ==> bs[k].ptr >= b.ptr
    ensures Insert(bs, b) == bs[..k] + [b] + bs[k..]
    decreases k
  {
    if k > 0 {
      var c, q := bs[0], bs[1..];
      InsertAt(q, b, k - 1);
      assert Insert(bs, b) == [c] + Insert(q, b);
      hide Insert;
      SplitLater(bs, k);
      assert [c] + (q[..k - 1] + [b] + q[k - 1..]) == [c] + q[..k - 1] + [b] + q[k - 1..];
    } else {
      assert bs[..0] + [b] + bs[0..] == [b] + bs;
    }
  }

  lemma SplitLater(bs: seq<Block>, k: nat)
    requires 0 < k <= |bs|
    ensures bs[..k] == [bs[0]] + bs[1..][..k - 1] && bs[k..] == bs[1..][k - 1..]
  {
  }

  lemma InStorage(h: Heap, bs: seq<Block>, i: nat)
    requires KernelHeap.Valid(h) && (bs == h.free || bs == h.alloc) && i < |bs|
    ensures BASE <= bs[i].ptr && bs[i].End() <= LIMIT && bs[i].size > 0
  {
    assert bs[i].Covers(bs[i].ptr) && bs[i].Covers(bs[i].End() - 1);
    assert Holds(bs, bs[i].ptr) && Holds(bs, bs[i].End() - 1);
  }

  /** Changing the block of one descriptor of a list changes just that block. */
  lemma ResizedAccounted(rs: seq<Region>, xs: seq<int>, ys: seq<int>, k: nat, b: Block, ss: seq<Region>)
    requires Accounted(rs, xs, ys) && 1 <= k < |xs|
    requires ss == rs[xs[k] := rs[xs[k]].(ptr := b.ptr, size := b.size)]
    ensures Accounted(ss, xs, ys)
    ensures Blocks(ss, xs) == Blocks(rs, xs)[k - 1 := b]
    ensures Blocks(ss, ys) == Blocks(rs, ys)
  {
    SameList(rs, ss, ys);
    var bs, cs := Blocks(rs, xs), Blocks(ss, xs);
    forall i | 0 <= i < |bs| && i != k - 1 ensures cs[i] == bs[i] {
      assert xs[i + 1] != xs[k];
    }
  }

  lemma WithoutJoined(bs: seq<Block>, i: nat)
    requires i + 1 < |bs|
    ensures Without(bs[i := Join(bs[i], bs[i + 1])], i + 1) == MergedAt(bs, i)
  {
  }

  /** The descriptor table after a merge at position k of the free list. */
  lemma MergeAccounted(rs: seq<Region>, free: seq<int>, alloc: seq<int>, k: nat, rs1: seq<Region>, ss: seq<Region>)
    requires Accounted(rs, free, alloc) && 1 <= k && k + 1 < |free|
    requires rs1 == rs[free[k] := rs[free[k]].(size := rs[free[k]].size + rs[free[k + 1]].size)]
    requires ss == Unlink(rs1, free[k], free[k + 1], Succ(free, k + 1))
    ensures Accounted(ss, Drop(free, k + 1), alloc)
    ensures Blocks(ss, Drop(free, k + 1)) == MergedAt(Blocks(rs, free), k - 1)
    ensures Blocks(ss, alloc) == Blocks(rs, alloc)
    ensures ss[free[0]].AsBlock() == rs[free[0]].AsBlock() && ss[alloc[0]].AsBlock() == rs[alloc[0]].AsBlock()
  {
    BlockAt(rs, free, k - 1);
    BlockAt(rs, free, k);
    HeadsDiffer(rs, free, alloc, k);
    hide Blocks, Accounted, Unlink, Drop, MergedAt, Without, Succ;
    var bs := Blocks(rs, free);
    ResizedAccounted(rs, free, alloc, k, Join(bs[k - 1], bs[k]), rs1);
    UnlinkAccounted(rs1, free, alloc, k + 1, ss);
    WithoutJoined(bs, k - 1);
  }

  lemma BlockAt(rs: seq<Region>, xs: seq<int>, i: nat)
    requires Indices(xs, |rs|) && i + 1 < |xs|
    ensures 0 <= xs[i + 1] < |rs| && Blocks(rs, xs)[i] == rs[xs[i + 1]].AsBlock()
  {
  }

  lemma HeadsDiffer(rs: seq<Region>, xs: seq<int>, ys: seq<int>, k: nat)
    requires Accounted(rs, xs, ys) && 1 <= k < |xs|
    ensures 0 <= xs[0] < |rs| && 0 <= ys[0] < |rs| && xs[0] != xs[k] && ys[0] != xs[k]
  {
  }

  /** Zeroing the bytes of a free block changes nothing. */
  lemma ClearOfZero(h: Heap, i: nat)
    requires KernelHeap.Valid(h) && i < |h.free|
    ensures Clear(h.mem, h.free[i]) == h.mem
  {
    forall k | 0 <= k < |h.mem| && h.free[i].Covers(BASE + k) ensures h.mem[k] == 0 {
      assert Holds(h.free, BASE + k);
      assert h.mem[BASE + k - BASE] == 0;
    }
  }

  function CoalescedAt(bs: seq<Block>, k: nat): seq<Block> {
    if 1 <= k < |bs| && Adjacent(bs[k - 1], bs[k]) then MergedAt(bs, k - 1) else bs
  }

  function TrimmedAt(bs: seq<Block>, i: nat, size: int): seq<Block>
    requires i < |bs|
  {
    bs[..i] + Trimmed(bs[i], size) + bs[i + 1..]
  }

  lemma TrimmedAtCases(bs: seq<Block>, i: nat, size: int)
    requires i < |bs|
    ensures bs[i].size == size ==> TrimmedAt(bs, i, size) == Without(bs, i)
    ensures bs[i].size != size ==> TrimmedAt(bs, i, size) == bs[i := Block(bs[i].ptr + size, bs[i].size - size)]
  {
    assert bs[..i] + [] == bs[..i];
  }

  lemma MergeValid(h: Heap, i: nat)
    requires KernelHeap.Valid(h) && i + 1 < |h.free| && Adjacent(h.free[i], h.free[i + 1])
    ensures KernelHeap.Valid(h.(free := MergedAt(h.free, i)))
    ensures Clear(h.mem, h.free[i + 1]) == h.mem
  {
    MergedAtKeeps(h.free, i);
    ClearOfZero(h, i + 1);
  }

  /** What the links of the k-th descriptor of the free list lead to. */
  lemma ThisBlock(rs: seq<Region>, free: seq<int>, alloc: seq<int>, h: Heap, k: nat)
    requires Linked(rs, free, alloc) && KernelHeap.Valid(h) && h.free == Blocks(rs, free) && 1 <= k < |free|
    ensures 0 <= free[k] < |rs| && 0 <= free[k - 1] < |rs| && NULL <= Succ(free, k) < |rs|
    ensures rs[free[k]].AsBlock() == h.free[k - 1]
    ensures BASE <= rs[free[k]].ptr && rs[free[k]].AsBlock().End() <= LIMIT && rs[free[k]].size > 0
    ensures rs[free[k]].prev == free[k - 1] && rs[free[k]].next == Succ(free, k)
    ensures free[k - 1] != free[k] && Succ(free, k) != free[k] && Succ(free, k) != free[k - 1]
  {
    InStorage(h, h.free, k - 1);
  }

  lemma FreeLinks(rs: seq<Region>, free: seq<int>, alloc: seq<int>, k: nat)
    requires Linked(rs, free, alloc) && k < |free|
    ensures 0 <= free[k] < |rs| && rs[free[k]].next == Succ(free, k)
    ensures k + 1 < |free| ==> 0 <= free[k + 1] < |rs|
    ensures k == 0 ==> rs[free[k]].AsBlock() == Block(0, 0)
  {
    assert rs[free[k]].next == Succ(free, k);
  }

  lemma NextBlock(rs: seq<Region>, free: seq<int>, alloc: seq<int>, h: Heap, k: nat)
    requires Linked(rs, free, alloc) && KernelHeap.Valid(h) && h.free == Blocks(rs, free) && k < |free|
    ensures 0 <= free[k] < |rs| && NULL <= Succ(free, k) < |rs|
    ensures rs[free[k]].next == Succ(free, k)
    ensures k + 1 < |free| ==> 0 <= free[k + 1] < |rs|
    ensures k + 1 < |free| ==>
      var next := rs[free[k + 1]];
      && NULL <= Succ(free, k + 1) < |rs|
      && next.AsBlock() == h.free[k]
      && BASE <= next.ptr && next.AsBlock().End() <= LIMIT && next.size > 0
      && next.prev == free[k] && next.next == Succ(free, k + 1)
      && free[k] != free[k + 1] && Succ(free, k + 1) != free[k + 1] && Succ(free, k + 1) != free[k]
    ensures if k == 0 then rs[free[k]].AsBlock() == Block(0, 0) else rs[free[k]].AsBlock() == h.free[k - 1]
  {
    hide KernelHeap.Valid, Accounted;
    FreeLinks(rs, free, alloc, k);
    if k > 0 {
      ThisBlock(rs, free, alloc, h, k);
    }
    if k + 1 < |free| {
      ThisBlock(rs, free, alloc, h, k + 1);
    }
  }

  lemma AccountedSwap(rs: seq<Region>, xs: seq<int>, ys: seq<int>)
    ensures Accounted(rs, xs, ys) <==> Accounted(rs, ys, xs)
  {
    assert Disjoint(xs, ys) <==> Disjoint(ys, xs);
  }

  /** A descriptor taken from the pool and filled in, before it is linked. */
  lemma ClaimedAside(rs: seq<Region>, free: seq<int>, alloc: seq<int>, r: int, b: Block, ss: seq<Region>)
    requires Linked(rs, free, alloc) && 0 <= r < |rs| && !rs[r].inUse
    requires ss == rs[r := Region(b.ptr, b.size, NULL, NULL, true)]
    ensures r !in free && r !in alloc && r != ALLOC_HEAD && forall i :: 0 <= i < |alloc| ==> 0 <= alloc[i] < |ss|
    ensures List(ss, free) && List(ss, alloc) && Disjoint(alloc, free)
    ensures Blocks(ss, free) == Blocks(rs, free) && Blocks(ss, alloc) == Blocks(rs, alloc)
    ensures forall j :: 0 <= j < |ss| && j != r ==> (ss[j].inUse <==> j in alloc || j in free)
    ensures ss[FREE_HEAD].AsBlock() == Block(0, 0) && ss[ALLOC_HEAD].AsBlock() == Block(0, 0)
  {
    assert forall j :: 0 <= j < |rs| ==> (rs[j].inUse <==> j in free || j in alloc);
    SameList(rs, ss, free);
    SameList(rs, ss, alloc);
  }

  /** Where the walk of add_region stops is where Insert puts the block. */
  lemma InsertFromWalk(rs: seq<Region>, xs: seq<int>, k: nat, r: int)
    requires List(rs, xs) && 1 <= k <= |xs| && 0 <= r < |rs|
    requires forall i :: 0 <= i < k ==> rs[xs[i]].ptr < rs[r].ptr
    requires k < |xs| ==> rs[xs[k]].ptr >= rs[r].ptr
    ensures Blocks(rs, xs)[..k - 1] + [rs[r].AsBlock()] + Blocks(rs, xs)[k - 1..] == Insert(Blocks(rs, xs), rs[r].AsBlock())
  {
    var bs := Blocks(rs, xs);
    forall i | 0 <= i < k - 1 ensures bs[i].ptr < rs[r].ptr {
      assert bs[i].ptr == rs[xs[i + 1]].ptr;
    }
    InsertAt(bs, rs[r].AsBlock(), k - 1);
  }

  lemma ClaimedLinked(rs: seq<Region>, free: seq<int>, alloc: seq<int>, k: nat, r: int, ss: seq<Region>)
    requires |rs| == MAX_REGIONS && List(rs, free) && List(rs, alloc) && Disjoint(alloc, free)
    requires free[0] == FREE_HEAD && alloc[0] == ALLOC_HEAD
    requires rs[FREE_HEAD].AsBlock() == Block(0, 0) && rs[ALLOC_HEAD].AsBlock() == Block(0, 0)
    requires 0 <= r < |rs| && r !in alloc && r !in free && rs[r].inUse && 1 <= k <= |alloc|
    requires forall j :: 0 <= j < |rs| && j != r ==> (rs[j].inUse <==> j in alloc || j in free)
    requires forall i :: 0 <= i < k ==> rs[alloc[i]].ptr < rs[r].ptr
    requires k < |alloc| ==> rs[alloc[k]].ptr >= rs[r].ptr
    requires ss == Link(rs, alloc[k - 1], r, Succ(alloc, k - 1))
    ensures Linked(ss, free, Put(alloc, k, r))
    ensures Blocks(ss, free) == Blocks(rs, free)
    ensures Blocks(ss, Put(alloc, k, r)) == Insert(Blocks(rs, alloc), rs[r].AsBlock())
  {
    hide Indices, Disjoint, List;
    LinkInUse(rs, alloc, k, r);
    LinkAccounted(rs, alloc, free, k, r, ss, ss);
    AccountedSwap(ss, Put(alloc, k, r), free);
    InsertFromWalk(rs, alloc, k, r);
  }

  lemma LinkInUse(rs: seq<Region>, xs: seq<int>, k: nat, r: int)
    requires List(rs, xs) && 1 <= k <= |xs| && 0 <= r < |rs| && r !in xs && rs[r].inUse
    ensures var ss := Link(rs, xs[k - 1], r, Succ(xs, k - 1)); ss == ss[r := ss[r].(inUse := true)]
  {
    LinkFields(rs, xs[k - 1], r, Succ(xs, k - 1), r);
  }

  lemma ResumeEnd(bs: seq<Block>, size: int)
    ensures Resume(bs, |bs|, size) == NoFit(bs)
  {
    assert bs[..|bs|] + [] == bs;
  }

  /** What is left of a search that has walked past the first i blocks. */
  function Resume(bs: seq<Block>, i: nat, size: int): Found
    requires i <= |bs|
  {
    Prefixed(bs[..i], Scan(bs[i..], size))
  }

  lemma ResumeStep(bs: seq<Block>, i: nat, size: int)
    requires i < |bs|
    ensures i < |CoalescedAt(bs, i + 1)|
    ensures var cs := CoalescedAt(bs, i + 1);
      Resume(bs, i, size) == if cs[i].size >= size then Fit(TrimmedAt(cs, i, size), cs[i].ptr) else Resume(cs, i + 1, size)
  {
    var cs, s := CoalescedAt(bs, i + 1), bs[i..];
    assert cs[..i] == bs[..i] && cs[i] == Front(s) && cs[i + 1..] == Back(s);
    if cs[i].size >= size {
      assert bs[..i] + (Trimmed(Front(s), size) + Back(s)) == TrimmedAt(cs, i, size);
    } else {
      PrefixedTwice(bs[..i], [Front(s)], Scan(Back(s), size));
      assert bs[..i] + [Front(s)] == cs[..i + 1];
    }
  }

  lemma ResumeStart(bs: seq<Block>, size: int)
    ensures Resume(bs, 0, size) == Scan(bs, size)
  {
    assert bs[0..] == bs && [] + Scan(bs, size).rest == Scan(bs, size).rest;
  }

  lemma CoalescedAtHead(bs: seq<Block>)
    ensures CoalescedAt(bs, 0) == bs
  {
  }

  /** What the links of the k-th descriptor of the allocated list lead to. */
  lemma AllocBlock(rs: seq<Region>, free: seq<int>, alloc: seq<int>, h: Heap, k: nat)
    requires Linked(rs, free, alloc) && KernelHeap.Valid(h) && h.alloc == Blocks(rs, alloc) && k < |alloc|
    ensures 0 <= alloc[k] < |rs| && NULL <= Succ(alloc, k) < |rs|
    ensures k + 1 < |alloc| ==> 0 <= alloc[k + 1]
    ensures rs[alloc[k]].next == Succ(alloc, k)
    ensures k == 0 ==> rs[alloc[k]].ptr == 0
    ensures k > 0 ==>
      && rs[alloc[k]].AsBlock() == h.alloc[k - 1]
      && BASE <= rs[alloc[k]].ptr && rs[alloc[k]].AsBlock().End() <= LIMIT && rs[alloc[k]].size > 0
      && 0 <= alloc[k - 1] < |rs| && rs[alloc[k]].prev == alloc[k - 1]
      && alloc[k - 1] != alloc[k] && Succ(alloc, k) != alloc[k] && Succ(alloc, k) != alloc[k - 1]
  {
    hide KernelHeap.Valid;
    assert rs[alloc[k]].next == Succ(alloc, k);
    if k > 0 {
      InStorage(h, h.alloc, k - 1);
      assert rs[alloc[k]].prev == Pred(alloc, k);
    }
  }

  /** The table between remove and add_region of kfree. */
  lemma Unlinked(rs: seq<Region>, free: seq<int>, alloc: seq<int>, k: nat, ss: seq<Region>)
    requires Linked(rs, free, alloc) && 1 <= k < |alloc| && rs[alloc[k]].ptr > 0
    requires ss == Unlink(rs, alloc[k - 1], alloc[k], Succ(alloc, k))
    ensures Linked(ss, free, Drop(alloc, k))
    ensures Blocks(ss, free) == Blocks(rs, free)
    ensures Blocks(ss, Drop(alloc, k)) == Without(Blocks(rs, alloc), k - 1)
    ensures ss[alloc[k]].AsBlock() == rs[alloc[k]].AsBlock()
    ensures !ss[alloc[k]].inUse && alloc[k] !in free && List(ss, free)
  {
    AccountedSwap(rs, free, alloc);
    UnlinkAccounted(rs, alloc, free, k, ss);
    AccountedSwap(ss, Drop(alloc, k), free);
    var r := alloc[k];
    UnlinkFields(rs, alloc[k - 1], r, Succ(alloc, k), r);
    assert alloc[0] != alloc[k];
    assert ss[r].inUse <==> r in free || r in Drop(alloc, k);
  }

  lemma Relinked(rs: seq<Region>, free: seq<int>, alloc: seq<int>, j: nat, r: int, ls: seq<Region>, ss: seq<Region>)
    requires Linked(rs, free, alloc) && 0 <= r < |rs| && !rs[r].inUse && 1 <= j <= |free|
    requires forall i :: 0 <= i < j ==> rs[free[i]].ptr < rs[r].ptr
    requires j < |free| ==> rs[free[j]].ptr >= rs[r].ptr
    requires ls == Link(rs, free[j - 1], r, Succ(free, j - 1)) && ss == ls[r := ls[r].(inUse := true)]
    ensures Linked(ss, Put(free, j, r), alloc)
    ensures Blocks(ss, Put(free, j, r)) == Insert(Blocks(rs, free), rs[r].AsBlock())
    ensures Blocks(ss, alloc) == Blocks(rs, alloc)
  {
    assert forall i :: 0 <= i < |rs| ==> (rs[i].inUse <==> i in free || i in alloc);
    hide Indices, List, Disjoint;
    LinkAccounted(rs, free, alloc, j, r, ls, ss);
    InsertFromWalk(rs, free, j, r);
  }

  class KernelMemory {
    const regions: array<Region>
    const memory: array<Byte>
    ghost var free: seq<int>
    ghost var alloc: seq<int>

    ghost predicate Shape()
      reads this, regions
    {
      && memory.Length == STORAGE_BYTES
      && Linked(regions[..], free, alloc)
    }

    /** The heap this table of descriptors stands for. */
    ghost function View(): Heap
      reads this, regions, memory
      requires Shape()
    {
      Heap(Blocks(regions[..], free), Blocks(regions[..], alloc), memory[..])
    }

    ghost predicate Valid()
      reads this, regions, memory
    {
      Shape() && KernelHeap.Valid(View())
    }

    constructor ()
      ensures Valid() && fresh(regions) && fresh(memory)
      ensures View() == Initial()
    {
      regions := new Region[MAX_REGIONS](_ => Region(0, 0, NULL, NULL, false));
      memory := new Byte[STORAGE_BYTES](_ => 0);
      free, alloc := [0, 1], [2];
      new;
      regions[0] := Region(0, 0, 1, NULL, true);
      regions[1] := Region(BASE, STORAGE_BYTES, NULL, 0, true);
      regions[2] := Region(0, 0, NULL, NULL, true);
      InitialLinked(regions[..]);
      InitialValid();
      assert memory[..] == Initial().mem;
    }

    /** memset to zero of the bytes of a block. */
    method ClearBlock(b: Block)
      requires memory.Length == STORAGE_BYTES
      requires BASE <= b.ptr && b.End() <= LIMIT && b.size > 0
      modifies memory
      ensures memory[..] == Clear(old(memory[..]), b)
    {
      var i := 0;
      while i < b.size
        invariant 0 <= i <= b.size
        invariant forall k :: 0 <= k < memory.Length ==>
          memory[k] == if b.ptr <= BASE + k < b.ptr + i then 0 else old(memory[..])[k]
      {
        memory[b.ptr - BASE + i] := 0;
        i := i + 1;
      }
    }

    /** remove: unlink a descriptor, give it back and zero its bytes. */
    method Remove(r: int)
      requires regions.Length == MAX_REGIONS && memory.Length == STORAGE_BYTES
      requires 0 <= r < MAX_REGIONS && 0 <= regions[r].prev < MAX_REGIONS && NULL <= regions[r].next < MAX_REGIONS
      requires regions[r].prev != r && regions[r].next != r && regions[r].prev != regions[r].next
      requires BASE <= regions[r].ptr && regions[r].AsBlock().End() <= LIMIT && regions[r].size > 0
      modifies regions, memory
      ensures regions[..] == Unlink(old(regions[..]), old(regions[r].prev), r, old(regions[r].next))
      ensures memory[..] == Clear(old(memory[..]), old(regions[r].AsBlock()))
    {
      var p, n := regions[r].prev, regions[r].next;
      regions[p] := regions[p].(next := n);
      if n != NULL {
        regions[n] := regions[n].(prev := p);
      }
      ClearBlock(regions[r].AsBlock());
      regions[r] := regions[r].(inUse := false);
    }

    /** add_region: link a descriptor into the sorted list that starts at head. */
    method AddRegion(new_: int, head: int, ghost xs: seq<int>) returns (ghost k: nat)
      requires regions.Length == MAX_REGIONS
      requires List(regions[..], xs) && xs[0] == head && new_ !in xs && 0 <= new_ < MAX_REGIONS
      requires regions[head].ptr < regions[new_].ptr
      modifies regions
      ensures 1 <= k <= |xs|
      ensures forall i :: 0 <= i < k ==> old(regions[xs[i]].ptr) < old(regions[new_].ptr)
      ensures k < |xs| ==> old(regions[xs[k]].ptr) >= old(regions[new_].ptr)
      ensures regions[..] == Link(old(regions[..]), xs[k - 1], new_, Succ(xs, k - 1))
    {
      ghost var rs := regions[..];
      ListLinks(rs, xs);
      hide List;
      var region, prev := head, NULL;
      k := 0;
      while region != NULL && regions[region].ptr < regions[new_].ptr
        invariant 0 <= k <= |xs|
        invariant region == if k < |xs| then xs[k] else NULL
        invariant prev == if k > 0 then xs[k - 1] else NULL
        invariant forall i :: 0 <= i < k ==> regions[xs[i]].ptr < regions[new_].ptr
        decreases |xs| - k
      {
        prev := region;
        region := regions[region].next;
        k := k + 1;
      }
      LinkBetween(prev, new_, region);
    }

    /** The stores of add_region. */
    method LinkBetween(prev: int, new_: int, region: int)
      requires regions.Length == MAX_REGIONS
      requires 0 <= prev < MAX_REGIONS && 0 <= new_ < MAX_REGIONS && NULL <= region < MAX_REGIONS
      modifies regions
      ensures regions[..] == Link(old(regions[..]), prev, new_, region)
    {
      if prev != NULL {
        regions[prev] := regions[prev].(next := new_);
      }
      regions[new_] := regions[new_].(prev := prev);
      regions[new_] := regions[new_].(next := region);
      if region != NULL {
        regions[region] := regions[region].(prev := new_);
      }
    }

    /** new_region: the first descriptor that is not in use, or NULL. */
    method NewRegion(ptr: int, size: int) returns (r: int)
      requires regions.Length == MAX_REGIONS
      modifies regions
      ensures NULL <= r < MAX_REGIONS
      ensures r == NULL <==> forall i :: 0 <= i < MAX_REGIONS ==> old(regions[..])[i].inUse
      ensures r == NULL ==> regions[..] == old(regions[..])
      ensures r != NULL ==> !old(regions[..])[r].inUse
      ensures r != NULL ==> regions[..] == old(regions[..])[r := Region(ptr, size, NULL, NULL, true)]
    {
      r := 0;
      while r < MAX_REGIONS
        invariant 0 <= r <= MAX_REGIONS
        invariant forall i :: 0 <= i < r ==> regions[..][i].inUse
      {
        if !regions[r].inUse {
          regions[r] := Region(ptr, size, NULL, NULL, true);
          return;
        }
        r := r + 1;
      }
      r := NULL;
    }

    /** Join a free block with the one that starts where it ends. */
    method Absorb(region: int, next: int, ghost k: nat)
      requires Valid() && 1 <= k && k + 1 < |free| && region == free[k] && next == free[k + 1]
      requires Adjacent(View().free[k - 1], View().free[k])
      modifies this`free, regions, memory
      ensures Valid()
      ensures k < |free| <= old(|free|) && region == free[k]
      ensures View() == old(View()).(free := MergedAt(old(View()).free, k - 1))
    {
      hide KernelHeap.Valid, Accounted, Unlink, Clear, MergedAt;
      ghost var rs, h := regions[..], View();
      NextBlock(rs, free, alloc, h, k);
      regions[region] := regions[region].(size := regions[region].size + regions[next].size);
      ghost var rs1 := regions[..];
      Remove(next);
      MergeAccounted(rs, free, alloc, k, rs1, regions[..]);
      free := Drop(free, k + 1);
      MergeValid(h, k - 1);
    }

    /** The merge that kmalloc does at each descriptor it visits. */
    method Coalesce(region: int, ghost k: nat)
      requires Valid() && k < |free| && region == free[k]
      modifies this`free, regions, memory
      ensures Valid()
      ensures k < |free| <= old(|free|) && region == free[k]
      ensures View() == old(View()).(free := CoalescedAt(old(View()).free, k))
    {
      hide KernelHeap.Valid, Accounted;
      NextBlock(regions[..], free, alloc, View(), k);
      var next := regions[region].next;
      if next != NULL && regions[region].ptr + regions[region].size == regions[next].ptr {
        Absorb(region, next, k);
      }
    }

    /** ltrim: take size bytes from the left end of a free block that has them. */
    method Ltrim(region: int, size: int, ghost k: nat) returns (ptr: int)
      requires Valid() && 1 <= k < |free| && region == free[k]
      requires 0 < size <= regions[region].size
      modifies this`free, regions, memory
      ensures Shape()
      ensures ptr == old(View()).free[k - 1].ptr
      ensures View() == old(View()).(free := TrimmedAt(old(View()).free, k - 1, size))
    {
      hide KernelHeap.Valid, Accounted, Unlink, Clear, TrimmedAt, Without;
      ghost var rs, h := regions[..], View();
      ThisBlock(rs, free, alloc, h, k);
      TrimmedAtCases(h.free, k - 1, size);
      ptr := regions[region].ptr;
      if regions[region].size == size {
        Remove(region);
        UnlinkAccounted(rs, free, alloc, k, regions[..]);
        free := Drop(free, k);
        ClearOfZero(h, k - 1);
      } else {
        regions[region] := regions[region].(size := regions[region].size - size);
        regions[region] := regions[region].(ptr := regions[region].ptr + size);
        ResizedAccounted(rs, free, alloc, k, Block(ptr + size, h.free[k - 1].size - size), regions[..]);
      }
    }

    /** new_region and add_region on the allocated list; fails when no descriptor is left. */
    method Claim(ptr: int, size: int) returns (ok: bool)
      requires Shape() && ptr > 0
      modifies this`alloc, regions
      ensures Shape()
      ensures ok <==> |old(View()).free| + |old(View()).alloc| + SENTINELS < MAX_REGIONS
      ensures View() == if ok then old(View()).(alloc := Insert(old(View()).alloc, Block(ptr, size))) else old(View())
    {
      hide Accounted, Link, Insert, List, Indices, Disjoint;
      ghost var rs, h := regions[..], View();
      SpareIff(rs, free, alloc);
      var r := NewRegion(ptr, size);
      if r == NULL {
        return false;
      }
      ghost var rs1 := regions[..];
      ClaimedAside(rs, free, alloc, r, Block(ptr, size), rs1);
      ghost var k := AddRegion(r, ALLOC_HEAD, alloc);
      ClaimedLinked(rs1, free, alloc, k, r, regions[..]);
      alloc := Put(alloc, k, r);
      return true;
    }

    /** The end of a successful search: ltrim, new_region and add_region. */
    method Take(region: int, size: int, ghost k: nat) returns (r: Reply)
      requires Valid() && 1 <= k < |free| && region == free[k]
      requires 0 < size <= View().free[k - 1].size
      modifies this`free, this`alloc, regions, memory
      ensures Shape()
      ensures var h, rest := old(View()), TrimmedAt(old(View()).free, k - 1, size);
        if |rest| + |h.alloc| + SENTINELS < MAX_REGIONS
        then r == Pointer(h.free[k - 1].ptr) && View() == h.(free := rest, alloc := Insert(h.alloc, Block(r.ptr, size)))
        else r == Fault && View() == h.(free := rest)
    {
      hide KernelHeap.Valid, Accounted, TrimmedAt;
      ThisBlock(regions[..], free, alloc, View(), k);
      var ptr := Ltrim(region, size, k);
      hide Linked;
      var ok := Claim(ptr, size);
      return if ok then Pointer(ptr) else Fault;
    }

    /** kmalloc: NULL, a pointer, or the fault of a request that finds a block but no descriptor. */
    method Kmalloc(size: nat) returns (r: Reply)
      requires Valid()
      modifies this`free, this`alloc, regions, memory
      ensures Shape() && (View(), r) == KernelHeap.Kmalloc(old(View()), size)
      ensures Valid() <==> r != Fault
    {
      hide KernelHeap.Valid, Accounted, Scan, Resume, CoalescedAt, TrimmedAt;
      ghost var h := View();
      KmallocKeeps(h, size);
      if size == 0 {
        return Null;
      }
      var region := FREE_HEAD;
      ghost var k: nat := 0;
      assert free[0] == FREE_HEAD;
      ResumeStart(h.free, size);
      while region != NULL
        invariant Valid() && View().alloc == h.alloc && View().mem == h.mem
        invariant k <= |free| && (region == NULL <==> k == |free|) && (k < |free| ==> region == free[k])
        invariant Scan(h.free, size) == Resume(View().free, if k == 0 then 0 else k - 1, size)
        decreases |free| - k
      {
        if k > 0 {
          ResumeStep(View().free, k - 1, size);
        }
        ghost var bs := View().free;
        Coalesce(region, k);
        NextBlock(regions[..], free, alloc, View(), k);
        CoalescedAtHead(bs);
        if regions[region].size >= size {
          r := Take(region, size, k);
          return;
        }
        region := regions[region].next;
        k := k + 1;
      }
      ResumeEnd(View().free, size);
      return Null;
    }

    /** The body of kfree once the block is found: remove, add_region, mark in use. */
    method Release(region: int, ghost k: nat)
      requires Valid() && 1 <= k < |alloc| && region == alloc[k]
      modifies this`free, this`alloc, regions, memory
      ensures Shape()
      ensures var h := old(View());
        View() == Heap(Insert(h.free, h.alloc[k - 1]), Without(h.alloc, k - 1), Clear(h.mem, h.alloc[k - 1]))
    {
      hide KernelHeap.Valid, Accounted, Without, Insert;
      ghost var rs, h := regions[..], View();
      AllocBlock(rs, free, alloc, h, k);
      Remove(region);
      ghost var rs1 := regions[..];
      Unlinked(rs, free, alloc, k, rs1);
      ghost var j := AddRegion(region, FREE_HEAD, free);
      ghost var rs2 := regions[..];
      regions[region] := regions[region].(inUse := true);
      Relinked(rs1, free, Drop(alloc, k), j, region, rs2, regions[..]);
      free, alloc := Put(free, j, region), Drop(alloc, k);
    }

    /** kfree: does nothing for NULL and for pointers that kmalloc did not return. */
    method Kfree(ptr: int)
      requires Valid()
      modifies this`free, this`alloc, regions, memory
      ensures Valid() && View() == KernelHeap.Kfree(old(View()), ptr)
    {
      hide KernelHeap.Valid, Accounted, Insert, Without, Clear;
      ghost var h := View();
      assert alloc[0] == ALLOC_HEAD && |h.alloc| == |alloc| - 1;
      hide Linked;
      KfreeKeeps(h, ptr);
      if ptr == 0 {
        return;
      }
      var region := ALLOC_HEAD;
      ghost var k: nat := 0;
      AllocBlock(regions[..], free, alloc, h, 0);
      while region != NULL
        invariant Valid() && View() == h && alloc == old(alloc)
        invariant k <= |alloc| && (region == NULL <==> k == |alloc|) && (k < |alloc| ==> region == alloc[k])
        invariant forall i :: 0 <= i < k - 1 ==> h.alloc[i].ptr != ptr
        decreases |alloc| - k
      {
        AllocBlock(regions[..], free, alloc, h, k);
        if regions[region].ptr == ptr {
          Release(region, k);
          return;
        }
        region := regions[region].next;
        k := k + 1;
      }
    }
  }
}
