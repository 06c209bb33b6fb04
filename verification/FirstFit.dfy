/**
  The block level of the kernel allocator (student-distrib/mem.c): first fit over
  a sorted free list, merging each visited block with its successor at most once.
 */
module FirstFit {
  import opened Machine

  datatype Block = Block(ptr: int, size: int) {
    function End(): int { ptr + size }
    predicate Covers(a: int) { ptr <= a < End() }
  }

  /** Strictly sorted by address, non-empty, pairwise disjoint. */
  ghost predicate Sorted(bs: seq<Block>) {
    && (forall i :: 0 <= i < |bs| ==> bs[i].size > 0)
    && (forall i, j :: 0 <= i < j < |bs| ==> bs[i].End() <= bs[j].ptr)
  }

  ghost predicate Holds(bs: seq<Block>, a: int) {
    exists i :: 0 <= i < |bs| && bs[i].Covers(a)
  }

  predicate Adjacent(b: Block, c: Block) {
    b.End() == c.ptr
  }

  function Join(b: Block, c: Block): Block {
    Block(b.ptr, b.size + c.size)
  }

  /** The block visited first, after the one merge that the walk may do there. */
  function Front(bs: seq<Block>): Block
    requires bs != []
  {
    if |bs| > 1 && Adjacent(bs[0], bs[1]) then Join(bs[0], bs[1]) else bs[0]
  }

  /** What the walk goes on to after the first block. */
  function Back(bs: seq<Block>): seq<Block>
    requires bs != []
  {
    if |bs| > 1 && Adjacent(bs[0], bs[1]) then bs[2..] else bs[1..]
  }

  /** Free list left behind, and the address found. */
  datatype Found = NoFit(rest: seq<Block>) | Fit(rest: seq<Block>, ptr: int)

  function Prefixed(p: seq<Block>, f: Found): Found {
    match f
    case NoFit(rest) => NoFit(p + rest)
    case Fit(rest, ptr) => Fit(p + rest, ptr)
  }

  /** What stays of a block after size bytes are taken from its left end. */
  function Trimmed(b: Block, size: int): seq<Block> {
    if b.size == size then [] else [Block(b.ptr + size, b.size - size)]
  }

  function Scan(bs: seq<Block>, size: int): Found {
    if bs == [] then NoFit([])
    else if Front(bs).size >= size then Fit(Trimmed(Front(bs), size) + Back(bs), Front(bs).ptr)
    else Prefixed([Front(bs)], Scan(Back(bs), size))
  }

  lemma PrefixedTwice(p: seq<Block>, q: seq<Block>, f: Found)
    ensures Prefixed(p, Prefixed(q, f)) == Prefixed(p + q, f)
  {
    assert p + (q + f.rest) == p + q + f.rest;
  }

  // ---------------------------------------------------------------- sorted lists

  lemma HoldsAppend(p: seq<Block>, q: seq<Block>, a: int)
    ensures Holds(p + q, a) <==> Holds(p, a) || Holds(q, a)
  {
    if Holds(p, a) {
      var i :| 0 <= i < |p| && p[i].Covers(a);
      assert (p + q)[i].Covers(a);
    }
    if Holds(q, a) {
      var i :| 0 <= i < |q| && q[i].Covers(a);
      assert (p + q)[|p| + i].Covers(a);
    }
    if Holds(p + q, a) {
      var i :| 0 <= i < |p + q| && (p + q)[i].Covers(a);
      assert if i < |p| then p[i].Covers(a) else q[i - |p|].Covers(a);
    }
  }

  lemma HoldsOne(b: Block, a: int)
    ensures Holds([b], a) <==> b.Covers(a)
  {
    assert [b][0] == b;
  }

  /** All of q lies at or after address m. */
  ghost predicate From(q: seq<Block>, m: int) {
    forall i :: 0 <= i < |q| ==> m <= q[i].ptr
  }

  lemma SortedCons(b: Block, q: seq<Block>)
    ensures Sorted([b] + q) <==> b.size > 0 && Sorted(q) && From(q, b.End())
  {
    var s := [b] + q;
    assert forall i :: 0 <= i < |q| ==> q[i] == s[i + 1];
    if Sorted(s) {
      assert s[0] == b;
      forall i, j | 0 <= i < j < |q| ensures q[i].End() <= q[j].ptr {
        assert s[i + 1].End() <= s[j + 1].ptr;
      }
    }
  }

  /** The one merge at the front keeps the list sorted and covers the same bytes. */
  lemma FrontBackSorted(bs: seq<Block>)
    requires Sorted(bs) && bs != []
    ensures Sorted([Front(bs)] + Back(bs))
    ensures forall a :: Holds([Front(bs)] + Back(bs), a) <==> Holds(bs, a)
  {
    hide Sorted, Holds;
    if |bs| > 1 && Adjacent(bs[0], bs[1]) {
      var b, c, q := bs[0], bs[1], bs[2..];
      assert bs == [b] + ([c] + q);
      SortedCons(b, [c] + q);
      SortedCons(c, q);
      SortedCons(Join(b, c), q);
      forall a ensures Holds([Front(bs)] + Back(bs), a) <==> Holds(bs, a) {
        HoldsAppend([b], [c] + q, a);
        HoldsAppend([c], q, a);
        HoldsAppend([Join(b, c)], q, a);
        HoldsOne(b, a);
        HoldsOne(c, a);
        HoldsOne(Join(b, c), a);
      }
    } else {
      assert bs == [Front(bs)] + Back(bs);
    }
  }

  /** The bytes a search leaves in the free list: all of them, or all but the block handed out. */
  ghost predicate Leaves(bs: seq<Block>, f: Found, size: int) {
    && Sorted(f.rest)
    && match f
       case NoFit(rest) => forall a :: Holds(rest, a) <==> Holds(bs, a)
       case Fit(rest, ptr) =>
         && (forall a :: Holds(rest, a) <==> Holds(bs, a) && !Block(ptr, size).Covers(a))
         && (forall a :: Block(ptr, size).Covers(a) ==> Holds(bs, a))
  }

  /** What is left of a block covers the bytes that are not taken. */
  lemma TrimmedHolds(b: Block, size: int, a: int)
    requires 0 < size <= b.size
    ensures Holds(Trimmed(b, size), a) <==> b.Covers(a) && !Block(b.ptr, size).Covers(a)
  {
    if b.size != size {
      HoldsOne(Block(b.ptr + size, b.size - size), a);
    }
  }

  lemma TrimmedSorted(b: Block, q: seq<Block>, size: int)
    requires Sorted(q) && From(q, b.End()) && 0 < size <= b.size
    ensures Sorted(Trimmed(b, size) + q)
  {
    hide Sorted, From;
    if b.size == size {
      assert [] + q == q;
    } else {
      SortedCons(Block(b.ptr + size, b.size - size), q);
    }
  }

  lemma FromExcludes(q: seq<Block>, m: int, a: int)
    requires From(q, m) && Holds(q, a)
    ensures a >= m
  {
  }

  lemma TakeFront(b: Block, q: seq<Block>, size: int)
    requires Sorted([b] + q) && 0 < size <= b.size
    ensures Leaves([b] + q, Fit(Trimmed(b, size) + q, b.ptr), size)
  {
    var t := Trimmed(b, size);
    SortedCons(b, q);
    TrimmedSorted(b, q, size);
    hide Sorted, Holds, From, Trimmed;
    forall a
      ensures Holds(t + q, a) <==> Holds([b] + q, a) && !Block(b.ptr, size).Covers(a)
      ensures Block(b.ptr, size).Covers(a) ==> Holds([b] + q, a)
    {
      HoldsAppend(t, q, a);
      HoldsAppend([b], q, a);
      HoldsOne(b, a);
      TrimmedHolds(b, size, a);
      if Holds(q, a) {
        FromExcludes(q, b.End(), a);
      }
    }
  }

  /** A search keeps the free list sorted and loses no byte except those it hands out. */
  lemma {:induction false} ScanLeaves(bs: seq<Block>, size: int)
    requires Sorted(bs) && size > 0
    ensures Leaves(bs, Scan(bs, size), size)
    decreases |bs|
  {
    if bs != [] {
      var b, q := Front(bs), Back(bs);
      FrontBackSorted(bs);
      if b.size >= size {
        TakeFront(b, q, size);
      } else {
        SortedCons(b, q);
        ScanLeaves(q, size);
        ScanPrepend(b, q, Scan(q, size), size);
        assert Scan(bs, size) == Prefixed([b], Scan(q, size));
      }
    }
  }

  lemma ScanPrepend(b: Block, q: seq<Block>, f: Found, size: int)
    requires b.size > 0 && From(q, b.End()) && Sorted(q) && size > 0
    requires Leaves(q, f, size)
    ensures Leaves([b] + q, Prefixed([b], f), size)
  {
    var g := Prefixed([b], f);
    forall i | 0 <= i < |f.rest| ensures b.End() <= f.rest[i].ptr {
      var a := f.rest[i].ptr;
      assert f.rest[i].Covers(a);
      assert Holds(q, a);
      var j :| 0 <= j < |q| && q[j].Covers(a);
    }
    SortedCons(b, f.rest);
    forall a
      ensures Holds(g.rest, a) <==> b.Covers(a) || Holds(f.rest, a)
      ensures Holds([b] + q, a) <==> b.Covers(a) || Holds(q, a)
      ensures Holds(q, a) ==> !b.Covers(a)
    {
      HoldsAppend([b], f.rest, a);
      HoldsAppend([b], q, a);
      assert [b][0] == b;
    }
  }

  // ---------------------------------------------------------------- one whole pass

  /** The free list after a walk that never stops: every block merged with its successor at most once. */
  function Pass(bs: seq<Block>): seq<Block> {
    if bs == [] then [] else [Front(bs)] + Pass(Back(bs))
  }

  ghost predicate AllBelow(bs: seq<Block>, size: int) {
    forall i :: 0 <= i < |bs| ==> bs[i].size < size
  }

  /** A search fails exactly when a whole pass leaves no block of the size, and leaves just that pass. */
  lemma {:induction false} ScanFailsIff(bs: seq<Block>, size: int)
    ensures Scan(bs, size).NoFit? <==> AllBelow(Pass(bs), size)
    ensures Scan(bs, size).NoFit? ==> Scan(bs, size).rest == Pass(bs)
    decreases |bs|
  {
    if bs != [] {
      ScanFailsIff(Back(bs), size);
      assert Pass(bs)[0] == Front(bs);
      assert Pass(bs)[1..] == Pass(Back(bs));
      assert forall i :: 0 <= i < |Pass(Back(bs))| ==> Pass(Back(bs))[i] == Pass(bs)[i + 1];
      assert forall i :: 0 < i < |Pass(bs)| ==> Pass(bs)[i] == Pass(Back(bs))[i - 1];
    }
  }

  /**
    First fit: what is found is the left end of the first block that, after the merges of a
    whole pass, is large enough.
   */
  lemma {:induction false} ScanTakesFirst(bs: seq<Block>, size: int) returns (j: nat)
    requires Scan(bs, size).Fit?
    ensures j < |Pass(bs)| && Pass(bs)[j].ptr == Scan(bs, size).ptr && Pass(bs)[j].size >= size
    ensures AllBelow(Pass(bs)[..j], size)
    decreases |bs|
  {
    PassFirst(bs);
    hide Pass;
    if Front(bs).size >= size {
      j := 0;
    } else {
      var i := ScanTakesFirst(Back(bs), size);
      j := i + 1;
      assert Pass(bs)[..j] == [Front(bs)] + Pass(Back(bs))[..i];
    }
  }

  /** A pass only grows blocks, so a block that fits is still there to be found. */
  lemma {:induction false} ScanFinds(bs: seq<Block>, size: int, k: nat)
    requires Sorted(bs) && k < |bs| && bs[k].size >= size
    ensures Scan(bs, size).Fit?
    decreases |bs|
  {
    var b, q := Front(bs), Back(bs);
    if b.size < size {
      var d := |bs| - |q|;
      assert k >= d;
      FrontBackSorted(bs);
      SortedCons(b, q);
      assert q[k - d] == bs[k];
      ScanFinds(q, size, k - d);
    }
  }

  // ---------------------------------------------------------------- repeated passes

  /** Every maximal run of adjacent blocks joined into one: the list that lazy merging works towards. */
  function FullyMerged(bs: seq<Block>): seq<Block>
    decreases |bs|
  {
    if |bs| <= 1 then bs
    else if Adjacent(bs[0], bs[1]) then FullyMerged([Join(bs[0], bs[1])] + bs[2..])
    else [bs[0]] + FullyMerged(bs[1..])
  }

  /** A stretch in which every block touches the next. */
  ghost predicate Run(bs: seq<Block>) {
    forall i :: 0 <= i < |bs| - 1 ==> Adjacent(bs[i], bs[i + 1])
  }

  /** No block touches the next. */
  ghost predicate Separated(bs: seq<Block>) {
    forall i :: 0 <= i < |bs| - 1 ==> !Adjacent(bs[i], bs[i + 1])
  }

  function Start(bs: seq<Block>): int
    requires bs != []
  {
    bs[0].ptr
  }

  function Stop(bs: seq<Block>): int
    requires bs != []
  {
    bs[|bs| - 1].End()
  }

  /** The second list does not start where the first one stops. */
  predicate Gap(p: seq<Block>, q: seq<Block>) {
    p != [] && q != [] ==> Stop(p) != Start(q)
  }

  /** Neither end of a non-empty list moves. */
  lemma {:induction false} PassEnds(bs: seq<Block>)
    requires bs != []
    ensures Pass(bs) != [] && Start(Pass(bs)) == Start(bs) && Stop(Pass(bs)) == Stop(bs)
    decreases |bs|
  {
    PassFirst(bs);
    hide Pass;
    if Back(bs) != [] {
      PassEnds(Back(bs));
    }
  }

  lemma RunCons(b: Block, q: seq<Block>)
    ensures Run([b] + q) <==> Run(q) && (q != [] ==> Adjacent(b, q[0]))
  {
    var s := [b] + q;
    if Run(s) {
      forall i | 0 <= i < |q| - 1 ensures Adjacent(q[i], q[i + 1]) {
        assert Adjacent(s[i + 1], s[i + 2]);
      }
      assert q != [] ==> Adjacent(s[0], s[0 + 1]);
    }
    if Run(q) && (q != [] ==> Adjacent(b, q[0])) {
      forall i | 0 <= i < |s| - 1 ensures Adjacent(s[i], s[i + 1]) {
        if i > 0 {
          assert Adjacent(q[i - 1], q[i]);
        }
      }
    }
  }

  /** A pass halves a run, rounding up, and what is left is again a run. */
  lemma {:induction false} PassHalvesRun(bs: seq<Block>)
    requires Run(bs)
    ensures |Pass(bs)| == (|bs| + 1) / 2
    ensures Run(Pass(bs))
    decreases |bs|
  {
    hide Run;
    if |bs| >= 2 {
      var b, c, q := bs[0], bs[1], bs[2..];
      assert bs == [b] + ([c] + q);
      RunCons(b, [c] + q);
      RunCons(c, q);
      assert Adjacent(b, c) && Back(bs) == q;
      PassHalvesRun(q);
      if q != [] {
        PassEnds(q);
      }
      RunCons(Front(bs), Pass(q));
    } else if |bs| == 1 {
      assert Pass(bs) == bs;
    }
  }

  /** What a pass makes of a run: each block at an even position joined with the one after it. */
  lemma {:induction false} PassPairs(bs: seq<Block>, i: nat)
    requires Run(bs) && 2 * i < |bs|
    ensures i < |Pass(bs)| && Pass(bs)[i].ptr == bs[2 * i].ptr
    ensures Pass(bs)[i].End() == bs[Min(2 * i + 1, |bs| - 1)].End()
    decreases i
  {
    hide Pass, Run, Adjacent;
    PassFirst(bs);
    if |bs| > 1 {
      RunTail(bs);
      if i > 0 {
        PassPairs(bs[2..], i - 1);
        LaterPair(bs, i);
      }
    }
  }

  lemma LaterPair(bs: seq<Block>, i: nat)
    requires 0 < i && 2 * i < |bs| && Back(bs) == bs[2..] && Pass(bs) == [Front(bs)] + Pass(Back(bs)) && i <= |Pass(bs[2..])|
    ensures Pass(bs)[i] == Pass(bs[2..])[i - 1] && bs[2..][2 * (i - 1)] == bs[2 * i]
    ensures bs[2..][Min(2 * (i - 1) + 1, |bs[2..]| - 1)] == bs[Min(2 * i + 1, |bs| - 1)]
  {
    hide Pass, Front, Back;
  }

  lemma RunTail(bs: seq<Block>)
    requires Run(bs) && |bs| > 1
    ensures Adjacent(bs[0], bs[1]) && Run(bs[2..])
    ensures Front(bs).ptr == bs[0].ptr && Front(bs).End() == bs[1].End()
  {
    var b, c, q := bs[0], bs[1], bs[2..];
    assert bs == [b] + ([c] + q);
    RunCons(b, [c] + q);
    RunCons(c, q);
  }

  lemma FrontBackAppend(p: seq<Block>, q: seq<Block>)
    requires p != [] && Gap(p, q)
    ensures Front(p + q) == Front(p) && Back(p + q) == Back(p) + q
    ensures Gap(Back(p), q)
  {
    var s := p + q;
    assert s[0] == p[0];
    assert |p| == 1 && q != [] ==> s[1] == q[0];
    assert |p| > 1 ==> s[1] == p[1];
  }

  lemma PassFirst(bs: seq<Block>)
    requires bs != []
    ensures Pass(bs) == [Front(bs)] + Pass(Back(bs)) && |Back(bs)| < |bs|
  {
  }

  /** Passes treat runs separately: a gap in the list is a gap in the result. */
  lemma {:induction false} PassSplits(p: seq<Block>, q: seq<Block>)
    requires Gap(p, q)
    ensures Pass(p + q) == Pass(p) + Pass(q)
    decreases |p|
  {
    if p == [] {
      assert p + q == q;
    } else {
      hide Front, Back, Gap, Pass;
      FrontBackAppend(p, q);
      PassFirst(p);
      PassFirst(p + q);
      PassSplits(Back(p), q);
      SeqAssoc([Front(p)], Pass(Back(p)), Pass(q));
    }
  }

  /** Merging two touching blocks anywhere does not change the fully merged list. */
  lemma {:induction false} MergedJoin(p: seq<Block>, b: Block, c: Block, q: seq<Block>)
    requires Adjacent(b, c)
    ensures FullyMerged(p + [b, c] + q) == FullyMerged(p + [Join(b, c)] + q)
    decreases |p|
  {
    var s, t := p + [b, c] + q, p + [Join(b, c)] + q;
    if p == [] {
      assert s[2..] == q;
      assert [Join(b, c)] + q == t;
      assert s[0] == b && s[1] == c;
    } else if |p| == 1 {
      assert s[0] == p[0] && s[1] == b && t[0] == p[0] && t[1] == Join(b, c);
      assert s[2..] == [c] + q && t[2..] == q;
      if Adjacent(p[0], b) {
        var d := Join(p[0], b);
        calc {
          FullyMerged(s);
          FullyMerged([d] + ([c] + q));
          { assert [d] + ([c] + q) == [] + [d, c] + q; }
          FullyMerged([] + [d, c] + q);
          { MergedJoin([], d, c, q); }
          FullyMerged([] + [Join(d, c)] + q);
          { assert Join(d, c) == Join(p[0], Join(b, c)); assert [] + [Join(d, c)] + q == [Join(p[0], Join(b, c))] + q; }
          FullyMerged([Join(p[0], Join(b, c))] + q);
          FullyMerged(t);
        }
      } else {
        assert s[1..] == [] + [b, c] + q && t[1..] == [] + [Join(b, c)] + q;
        MergedJoin([], b, c, q);
      }
    } else {
      assert s[0] == p[0] && s[1] == p[1] && t[0] == p[0] && t[1] == p[1];
      if Adjacent(p[0], p[1]) {
        var p' := [Join(p[0], p[1])] + p[2..];
        assert [Join(p[0], p[1])] + s[2..] == p' + [b, c] + q;
        assert [Join(p[0], p[1])] + t[2..] == p' + [Join(b, c)] + q;
        MergedJoin(p', b, c, q);
      } else {
        assert s[1..] == p[1..] + [b, c] + q;
        assert t[1..] == p[1..] + [Join(b, c)] + q;
        MergedJoin(p[1..], b, c, q);
      }
    }
  }

  /** A pass makes progress towards the fully merged list without changing what that list is. */
  lemma {:induction false} PassKeepsMerged(p: seq<Block>, bs: seq<Block>)
    ensures FullyMerged(p + Pass(bs)) == FullyMerged(p + bs)
    decreases |bs|
  {
    if bs != [] {
      var f, q := Front(bs), Back(bs);
      calc {
        FullyMerged(p + Pass(bs));
        { assert p + Pass(bs) == (p + [f]) + Pass(q); }
        FullyMerged((p + [f]) + Pass(q));
        { PassKeepsMerged(p + [f], q); }
        FullyMerged(p + [f] + q);
        { FrontKeepsMerged(p, bs); }
        FullyMerged(p + bs);
      }
    }
  }

  lemma FrontKeepsMerged(p: seq<Block>, bs: seq<Block>)
    requires bs != []
    ensures FullyMerged(p + [Front(bs)] + Back(bs)) == FullyMerged(p + bs)
  {
    if |bs| > 1 && Adjacent(bs[0], bs[1]) {
      MergedJoin(p, bs[0], bs[1], bs[2..]);
      assert p + [bs[0], bs[1]] + bs[2..] == p + bs;
    } else {
      assert p + [bs[0]] + bs[1..] == p + bs;
    }
  }

  lemma {:induction false} SeparatedIsMerged(bs: seq<Block>)
    requires Separated(bs)
    ensures FullyMerged(bs) == bs
    decreases |bs|
  {
    if |bs| > 1 {
      var q := bs[1..];
      forall i | 0 <= i < |q| - 1 ensures !Adjacent(q[i], q[i + 1]) {
        assert !Adjacent(bs[i + 1], bs[i + 2]);
      }
      SeparatedIsMerged(q);
      assert !Adjacent(bs[0], bs[0 + 1]);
      assert [bs[0]] + q == bs;
    }
  }

  function Passes(bs: seq<Block>, n: nat): seq<Block>
    decreases n
  {
    if n == 0 then bs else Passes(Pass(bs), n - 1)
  }

  function Pow2(n: nat): nat {
    if n == 0 then 1 else 2 * Pow2(n - 1)
  }

  lemma {:induction false} PassesKeepMerged(bs: seq<Block>, n: nat)
    ensures FullyMerged(Passes(bs, n)) == FullyMerged(bs)
    decreases n
  {
    hide Pass, FullyMerged;
    if n > 0 {
      PassesKeepMerged(Pass(bs), n - 1);
      PassKeepsMerged([], bs);
      assert [] + Pass(bs) == Pass(bs) && [] + bs == bs;
    }
  }

  lemma {:induction false} PassesEnds(bs: seq<Block>, n: nat)
    requires bs != []
    ensures Passes(bs, n) != [] && Start(Passes(bs, n)) == Start(bs) && Stop(Passes(bs, n)) == Stop(bs)
    decreases n
  {
    hide Pass, Start, Stop;
    if n > 0 {
      PassEnds(bs);
      PassesEnds(Pass(bs), n - 1);
    }
  }

  lemma PassKeepsGap(p: seq<Block>, q: seq<Block>)
    requires Gap(p, q)
    ensures Gap(Pass(p), Pass(q))
  {
    if p != [] && q != [] {
      hide Start, Stop, Pass;
      PassEnds(p);
      PassEnds(q);
    }
  }

  lemma {:induction false} PassesSplit(p: seq<Block>, q: seq<Block>, n: nat)
    requires Gap(p, q)
    ensures Passes(p + q, n) == Passes(p, n) + Passes(q, n)
    decreases n
  {
    if n > 0 {
      hide Pass, Gap;
      PassSplits(p, q);
      PassKeepsGap(p, q);
      PassesSplit(Pass(p), Pass(q), n - 1);
    }
  }

  /** A run is down to one block after n passes exactly when it had at most 2^n. */
  lemma {:induction false} PassesOfRun(bs: seq<Block>, n: nat)
    requires Run(bs)
    ensures Run(Passes(bs, n))
    ensures |Passes(bs, n)| <= 1 <==> |bs| <= Pow2(n)
    decreases n
  {
    if n > 0 {
      PassHalvesRun(bs);
      PassesOfRun(Pass(bs), n - 1);
    }
  }

  /** Length of the run at the front of a list. */
  function FrontRun(bs: seq<Block>): (n: nat)
    ensures n <= |bs| && (bs != [] ==> n > 0)
  {
    if |bs| <= 1 then |bs|
    else if Adjacent(bs[0], bs[1]) then 1 + FrontRun(bs[1..])
    else 1
  }

  lemma {:induction false} FrontRunIsRun(bs: seq<Block>)
    ensures Run(bs[..FrontRun(bs)])
    ensures Gap(bs[..FrontRun(bs)], bs[FrontRun(bs)..])
    decreases |bs|
  {
    if |bs| > 1 && Adjacent(bs[0], bs[1]) {
      var q, n := bs[1..], FrontRun(bs);
      FrontRunIsRun(q);
      assert bs[..n] == [bs[0]] + q[..n - 1] && bs[n..] == q[n - 1..];
      RunCons(bs[0], q[..n - 1]);
    }
  }

  /** Number of blocks in the longest run. */
  function Longest(bs: seq<Block>): (n: nat)
    ensures n <= |bs|
    decreases |bs|
  {
    if bs == [] then 0
    else
      var rest := Longest(bs[FrontRun(bs)..]);
      if rest > FrontRun(bs) then rest else FrontRun(bs)
  }

  lemma SeparatedConcat(p: seq<Block>, q: seq<Block>)
    requires Gap(p, q)
    ensures Separated(p + q) <==> Separated(p) && Separated(q)
  {
    var s := p + q;
    if Separated(s) {
      forall i | 0 <= i < |p| - 1 ensures !Adjacent(p[i], p[i + 1]) {
        assert !Adjacent(s[i], s[i + 1]);
      }
      forall i | 0 <= i < |q| - 1 ensures !Adjacent(q[i], q[i + 1]) {
        assert !Adjacent(s[|p| + i], s[|p| + i + 1]);
      }
    }
    if Separated(p) && Separated(q) {
      forall i | 0 <= i < |s| - 1 ensures !Adjacent(s[i], s[i + 1]) {
        if i >= |p| {
          assert !Adjacent(q[i - |p|], q[i - |p| + 1]);
        }
      }
    }
  }

  lemma {:induction false} PassesOfNone(n: nat)
    ensures Passes([], n) == []
  {
    if n > 0 {
      PassesOfNone(n - 1);
    }
  }

  /** What n passes make of the first run and of the rest stay apart. */
  lemma PassesKeepGap(p: seq<Block>, q: seq<Block>, n: nat)
    requires Gap(p, q)
    ensures Gap(Passes(p, n), Passes(q, n))
  {
    hide Passes, Start, Stop;
    if p == [] || q == [] {
      PassesOfNone(n);
    } else {
      PassesEnds(p, n);
      PassesEnds(q, n);
    }
  }

  lemma RunSeparatedIff(bs: seq<Block>)
    requires Run(bs)
    ensures Separated(bs) <==> |bs| <= 1
  {
    if |bs| > 1 {
      assert Adjacent(bs[0], bs[0 + 1]);
    }
  }

  lemma {:induction false} PassesSeparate(bs: seq<Block>, n: nat)
    ensures Separated(Passes(bs, n)) <==> Longest(bs) <= Pow2(n)
    decreases |bs|
  {
    if bs == [] {
      PassesOfNone(n);
    } else {
      hide Run, Separated, Passes, Adjacent, Gap, Pow2;
      var k := FrontRun(bs);
      var p, q := bs[..k], bs[k..];
      assert bs == p + q;
      FrontRunIsRun(bs);
      PassesSplit(p, q, n);
      PassesOfRun(p, n);
      RunSeparatedIff(Passes(p, n));
      PassesSeparate(q, n);
      PassesKeepGap(p, q, n);
      SeparatedConcat(Passes(p, n), Passes(q, n));
    }
  }

  lemma {:induction false} BelowPow2(n: nat)
    ensures n < Pow2(n)
  {
    if n > 0 {
      BelowPow2(n - 1);
    }
  }

  lemma MergedIsSeparated(bs: seq<Block>)
    ensures Separated(FullyMerged(bs))
  {
    BelowPow2(|bs|);
    PassesSeparate(bs, |bs|);
    PassesKeepMerged(bs, |bs|);
    SeparatedIsMerged(Passes(bs, |bs|));
  }

  /** The fully merged list covers the same bytes, in order, by blocks of which no two touch. */
  lemma {:induction false} FullyMergedIs(bs: seq<Block>)
    requires Sorted(bs)
    ensures Sorted(FullyMerged(bs)) && Separated(FullyMerged(bs))
    ensures forall a :: Holds(FullyMerged(bs), a) <==> Holds(bs, a)
    decreases |bs|
  {
    MergedIsSeparated(bs);
    hide Separated, Holds;
    if |bs| > 1 {
      FrontBackSorted(bs);
      if Adjacent(bs[0], bs[1]) {
        FullyMergedIs([Join(bs[0], bs[1])] + bs[2..]);
      } else {
        var b, q := bs[0], bs[1..];
        assert bs == [b] + q;
        SortedCons(b, q);
        FullyMergedIs(q);
        ScanPrepend(b, q, NoFit(FullyMerged(q)), 1);
      }
    }
  }

  /**
    Repeated failing searches coalesce fully, and how many it takes is exact: n
    passes are enough just when no run is longer than 2^n.
   */
  lemma PassesMergeIff(bs: seq<Block>, n: nat)
    ensures Passes(bs, n) == FullyMerged(bs) <==> Longest(bs) <= Pow2(n)
  {
    PassesSeparate(bs, n);
    if Separated(Passes(bs, n)) {
      SeparatedIsMerged(Passes(bs, n));
      PassesKeepMerged(bs, n);
    } else {
      MergedIsSeparated(bs);
    }
  }
}
