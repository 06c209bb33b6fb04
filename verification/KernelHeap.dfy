/**
  The kernel heap as a value (student-distrib/mem.c): free and allocated blocks and
  the bytes of the storage. The pointer-level code in Allocator.dfy refines it.
 */
module KernelHeap {
  import opened Machine
  import opened FirstFit

  const MAX_REGIONS: int := 500
  const STORAGE_BYTES: int := 24 * MB
  const BASE: int := 192 * MB
  const LIMIT: int := BASE + STORAGE_BYTES

  /** Two descriptors are taken by the sentinels of the two lists. */
  const SENTINELS: int := 2

  datatype Heap = Heap(free: seq<Block>, alloc: seq<Block>, mem: seq<Byte>)

  /** Fault: no descriptor was left, and the null pointer that stands for it is dereferenced. */
  datatype Reply = Null | Pointer(ptr: int) | Fault

  /** Every byte of the storage lies in exactly one block of exactly one list, and no block leaves it. */
  ghost predicate Partition(free: seq<Block>, alloc: seq<Block>) {
    && Sorted(free) && Sorted(alloc)
    && (forall a :: Holds(free, a) || Holds(alloc, a) <==> BASE <= a < LIMIT)
    && (forall a :: !(Holds(free, a) && Holds(alloc, a)))
  }

  ghost predicate Zeroed(bs: seq<Block>, mem: seq<Byte>)
    requires |mem| == STORAGE_BYTES
  {
    forall a :: BASE <= a < LIMIT && Holds(bs, a) ==> mem[a - BASE] == 0
  }

  ghost predicate Valid(h: Heap) {
    && |h.mem| == STORAGE_BYTES
    && |h.free| + |h.alloc| + SENTINELS <= MAX_REGIONS
    && Partition(h.free, h.alloc)
    && Zeroed(h.free, h.mem)
  }

  // ---------------------------------------------------------------- operations

  function Insert(bs: seq<Block>, b: Block): seq<Block> {
    if bs == [] || bs[0].ptr >= b.ptr then [b] + bs else [bs[0]] + Insert(bs[1..], b)
  }

  /** Position of the first block that starts at ptr, or the length of the list. */
  function Find(bs: seq<Block>, ptr: int): (i: nat)
    ensures i <= |bs|
    ensures i < |bs| ==> bs[i].ptr == ptr
    ensures forall j :: 0 <= j < i ==> bs[j].ptr != ptr
  {
    if bs == [] || bs[0].ptr == ptr then 0 else 1 + Find(bs[1..], ptr)
  }

  function Without(bs: seq<Block>, i: nat): seq<Block>
    requires i < |bs|
  {
    bs[..i] + bs[i + 1..]
  }

  function Clear(mem: seq<Byte>, b: Block): (r: seq<Byte>)
    ensures |r| == |mem|
    ensures forall k :: 0 <= k < |mem| ==> r[k] == if b.Covers(BASE + k) then 0 else mem[k]
  {
    seq(|mem|, k requires 0 <= k < |mem| => if b.Covers(BASE + k) then 0 else mem[k])
  }

  function Kmalloc(h: Heap, size: int): (Heap, Reply) {
    if size == 0 then (h, Null)
    else match Scan(h.free, size)
      case NoFit(rest) => (h.(free := rest), Null)
      case Fit(rest, ptr) =>
        if |rest| + |h.alloc| + SENTINELS < MAX_REGIONS
        then (h.(free := rest, alloc := Insert(h.alloc, Block(ptr, size))), Pointer(ptr))
        else (h.(free := rest), Fault)
  }

  function Kfree(h: Heap, ptr: int): Heap {
    var i := Find(h.alloc, ptr);
    if ptr == 0 || i == |h.alloc| then h
    else Heap(Insert(h.free, h.alloc[i]), Without(h.alloc, i), Clear(h.mem, h.alloc[i]))
  }

  // ---------------------------------------------------------------- list facts

  lemma {:induction false} InsertHolds(bs: seq<Block>, b: Block, a: int)
    ensures Holds(Insert(bs, b), a) <==> Holds(bs, a) || b.Covers(a)
    decreases |bs|
  {
    assert [b][0] == b;
    assert Holds([b], a) <==> b.Covers(a);
    if bs == [] || bs[0].ptr >= b.ptr {
      HoldsAppend([b], bs, a);
    } else {
      InsertHolds(bs[1..], b, a);
      HoldsAppend([bs[0]], Insert(bs[1..], b), a);
      HoldsAppend([bs[0]], bs[1..], a);
      assert bs == [bs[0]] + bs[1..];
    }
  }

  lemma {:induction false} InsertSorted(bs: seq<Block>, b: Block)
    requires Sorted(bs) && b.size > 0
    requires forall a :: b.Covers(a) ==> !Holds(bs, a)
    ensures Sorted(Insert(bs, b)) && |Insert(bs, b)| == |bs| + 1
    ensures forall m :: From(bs, m) && m <= b.ptr ==> From(Insert(bs, b), m)
    decreases |bs|
  {
    if bs == [] {
      assert Sorted([b]);
    } else {
      var c, q := bs[0], bs[1..];
      assert bs == [c] + q;
      SortedCons(c, q);
      if c.ptr >= b.ptr {
        if c.ptr < b.End() {
          assert b.Covers(c.ptr) && bs[0].Covers(c.ptr);
          assert false;
        }
        SortedCons(b, bs);
      } else {
        if c.End() > b.ptr {
          assert b.Covers(b.ptr) && bs[0].Covers(b.ptr);
          assert false;
        }
        forall a | b.Covers(a) ensures !Holds(q, a) {
          HoldsAppend([c], q, a);
        }
        InsertSorted(q, b);
        SortedCons(c, Insert(q, b));
      }
    }
  }

  lemma WithoutSorted(bs: seq<Block>, i: nat)
    requires Sorted(bs) && i < |bs|
    ensures Sorted(Without(bs, i))
  {
    var r := Without(bs, i);
    assert forall j :: 0 <= j < |r| ==> r[j] == bs[if j < i then j else j + 1];
  }

  /** The blocks of a sorted list do not share bytes. */
  lemma Apart(bs: seq<Block>, i: nat, j: nat, a: int)
    requires Sorted(bs) && i < |bs| && j < |bs| && i != j && bs[i].Covers(a)
    ensures !bs[j].Covers(a)
  {
    assert if i < j then bs[i].End() <= bs[j].ptr else bs[j].End() <= bs[i].ptr;
  }

  lemma WithoutHolds(bs: seq<Block>, i: nat, a: int)
    requires Sorted(bs) && i < |bs|
    ensures Holds(Without(bs, i), a) <==> Holds(bs, a) && !bs[i].Covers(a)
  {
    hide Holds, Sorted;
    var p, b, q := bs[..i], bs[i], bs[i + 1..];
    assert bs == p + [b] + q;
    HoldsAppend(p + [b], q, a);
    HoldsAppend(p, [b], a);
    HoldsAppend(p, q, a);
    HoldsOne(b, a);
    if b.Covers(a) {
      OthersApart(bs, i, a);
    }
  }

  lemma OthersApart(bs: seq<Block>, i: nat, a: int)
    requires Sorted(bs) && i < |bs| && bs[i].Covers(a)
    ensures !Holds(bs[..i], a) && !Holds(bs[i + 1..], a)
  {
    hide Sorted;
    forall j | 0 <= j < |bs| && j != i ensures !bs[j].Covers(a) {
      Apart(bs, i, j, a);
    }
  }

  /** A live block lies in the storage and outside the free blocks. */
  lemma LiveInStorage(h: Heap, j: nat, a: int)
    requires Valid(h) && j < |h.alloc| && h.alloc[j].Covers(a)
    ensures BASE <= a < LIMIT && Holds(h.alloc, a) && !Holds(h.free, a)
  {
    assert Holds(h.alloc, a);
  }

  lemma {:induction false} InsertMember(bs: seq<Block>, b: Block, c: Block)
    ensures c in Insert(bs, b) <==> c == b || c in bs
    decreases |bs|
  {
    if bs != [] && bs[0].ptr < b.ptr {
      InsertMember(bs[1..], b, c);
      assert bs == [bs[0]] + bs[1..];
    }
  }

  // ---------------------------------------------------------------- kmalloc

  /** The number of descriptors a search gives back. */
  lemma {:induction false} ScanLength(bs: seq<Block>, size: int)
    ensures |Scan(bs, size).rest| <= |bs|
    decreases |bs|
  {
    if bs != [] {
      ScanLength(Back(bs), size);
    }
  }

  /** What kmalloc hands out: a fresh, zeroed block inside the storage, disjoint from every live block. */
  ghost predicate FreshBlock(h: Heap, b: Block)
    requires |h.mem| == STORAGE_BYTES
  {
    forall a :: b.Covers(a) ==> BASE <= a < LIMIT && h.mem[a - BASE] == 0 && !Holds(h.alloc, a)
  }

  lemma KmallocKeeps(h: Heap, size: nat)
    requires Valid(h)
    ensures var (h', r) := Kmalloc(h, size);
      && h'.mem == h.mem
      && (Valid(h') <==> r != Fault)
      && (r.Pointer? ==> FreshBlock(h, Block(r.ptr, size)) && Block(r.ptr, size) in h'.alloc)
      && (!r.Pointer? ==> h'.alloc == h.alloc)
      && (forall b :: b in h.alloc ==> b in h'.alloc)
  {
    var (h', r) := Kmalloc(h, size);
    if size > 0 {
      ScanLeaves(h.free, size);
      ScanLength(h.free, size);
      var f := Scan(h.free, size);
      if f.Fit? {
        var b := Block(f.ptr, size);
        assert FreshBlock(h, b) by {
          forall a | b.Covers(a) ensures BASE <= a < LIMIT && h.mem[a - BASE] == 0 && !Holds(h.alloc, a) {
            assert Holds(h.free, a);
          }
        }
        if r.Pointer? {
          InsertSorted(h.alloc, b);
          forall a ensures Holds(h'.alloc, a) <==> Holds(h.alloc, a) || b.Covers(a) {
            InsertHolds(h.alloc, b, a);
          }
          forall c ensures c in h'.alloc <==> c == b || c in h.alloc {
            InsertMember(h.alloc, b, c);
          }
        } else {
          assert b.Covers(f.ptr);
          assert Holds(h.free, f.ptr) && !Holds(f.rest, f.ptr);
        }
      }
    }
  }

  /** What a request that is answered takes, and nothing else: the block handed out, at the first place that is large enough. */
  lemma KmallocTakes(h: Heap, size: nat) returns (j: nat)
    requires Valid(h) && Kmalloc(h, size).1.Pointer?
    ensures var (h', r) := Kmalloc(h, size); var b := Block(r.ptr, size);
      && (forall c :: c in h'.alloc <==> c in h.alloc || c == b)
      && (forall a :: Holds(h'.free, a) <==> Holds(h.free, a) && !b.Covers(a))
      && (forall a :: b.Covers(a) ==> Holds(h.free, a))
    ensures j < |Pass(h.free)| && Pass(h.free)[j].ptr == Kmalloc(h, size).1.ptr && Pass(h.free)[j].size >= size
    ensures AllBelow(Pass(h.free)[..j], size)
  {
    ScanLeaves(h.free, size);
    j := ScanTakesFirst(h.free, size);
    hide Holds, Pass, Scan;
    var b := Block(Scan(h.free, size).ptr, size);
    forall c ensures c in Insert(h.alloc, b) <==> c == b || c in h.alloc {
      InsertMember(h.alloc, b, c);
    }
  }

  /** A request that gets NULL takes nothing, and one for no bytes changes nothing. */
  lemma KmallocRefuses(h: Heap, size: nat)
    requires Valid(h) && Kmalloc(h, size).1 == Null
    ensures var h' := Kmalloc(h, size).0;
      && h'.alloc == h.alloc && h'.mem == h.mem && (forall a :: Holds(h'.free, a) <==> Holds(h.free, a))
      && (size == 0 ==> h' == h)
  {
    if size > 0 {
      ScanLeaves(h.free, size);
    }
  }

  /** kmalloc returns NULL exactly when a whole pass of the walk leaves no block of the size. */
  lemma KmallocNullIff(h: Heap, size: nat)
    requires size > 0
    ensures Kmalloc(h, size).1 == Null <==> AllBelow(Pass(h.free), size)
    ensures Kmalloc(h, size).1 == Null ==> Kmalloc(h, size).0.free == Pass(h.free)
  {
    ScanFailsIff(h.free, size);
  }

  /** A free block that already fits is never missed. */
  lemma KmallocSucceeds(h: Heap, size: nat, k: nat)
    requires Valid(h) && size > 0 && k < |h.free| && h.free[k].size >= size
    ensures Kmalloc(h, size).1 != Null
  {
    ScanFinds(h.free, size, k);
  }

  /**
    Block k is the first that is not smaller than size, it is larger, and no block up to and
    including it touches the next one: the walk ends there without giving a descriptor back.
   */
  predicate Strained(bs: seq<Block>, size: nat, k: nat)
    requires k < |bs|
  {
    && bs[k].size > size
    && (forall i :: 0 <= i < k ==> bs[i].size < size)
    && (forall i :: 0 <= i <= k && i + 1 < |bs| ==> !Adjacent(bs[i], bs[i + 1]))
  }

  /** When the descriptors run out: all of them are in use, and the block to be split is such a block. */
  predicate OutOfDescriptors(h: Heap, size: nat) {
    && size > 0
    && |h.free| + |h.alloc| + SENTINELS == MAX_REGIONS
    && exists k :: 0 <= k < |h.free| && Strained(h.free, size, k)
  }

  /** Where a block is strained in a list that starts with a block on its own. */
  lemma StrainedLater(bs: seq<Block>, size: nat, k: nat)
    requires k + 1 < |bs| && !Adjacent(bs[0], bs[1]) && bs[0].size < size
    ensures Strained(bs, size, k + 1) <==> Strained(bs[1..], size, k)
  {
    var q := bs[1..];
    assert forall i :: 0 <= i < |q| ==> q[i] == bs[i + 1];
    assert forall i :: 0 <= i <= k && i + 1 < |q| ==> (Adjacent(q[i], q[i + 1]) <==> Adjacent(bs[i + 1], bs[i + 1 + 1]));
    if Strained(q, size, k) {
      forall i | 0 <= i <= k + 1 && i + 1 < |bs| ensures !Adjacent(bs[i], bs[i + 1]) {
        assert i > 0 ==> !Adjacent(q[i - 1], q[i - 1 + 1]);
      }
    }
  }

  /** The walk finds a block and leaves as many as there were exactly when some block is strained. */
  lemma {:induction false} StrainedIff(bs: seq<Block>, size: nat)
    ensures (Scan(bs, size).Fit? && |Scan(bs, size).rest| == |bs|) <==> exists k :: 0 <= k < |bs| && Strained(bs, size, k)
    decreases |bs|
  {
    if bs != [] {
      ScanLength(Back(bs), size);
      if |bs| > 1 && Adjacent(bs[0], bs[1]) {
        assert Adjacent(bs[0], bs[0 + 1]);
      } else if bs[0].size >= size {
        assert Strained(bs, size, 0) <==> bs[0].size > size;
      } else {
        var q := bs[1..];
        StrainedIff(q, size);
        if k :| 0 <= k < |q| && Strained(q, size, k) {
          StrainedLater(bs, size, k);
        }
        if k :| 0 <= k < |bs| && Strained(bs, size, k) {
          StrainedLater(bs, size, k - 1);
          assert Strained(q, size, k - 1);
        }
      }
    }
  }

  lemma KmallocFaultIff(h: Heap, size: nat)
    requires Valid(h)
    ensures Kmalloc(h, size).1 == Fault <==> OutOfDescriptors(h, size)
  {
    ScanLength(h.free, size);
    StrainedIff(h.free, size);
  }

  /** The heap after n requests for the same size. */
  function Retried(h: Heap, size: nat, n: nat): Heap {
    if n == 0 then h else Kmalloc(Retried(h, size, n - 1), size).0
  }

  ghost predicate AllNull(h: Heap, size: nat, n: nat) {
    forall k :: 0 <= k < n ==> Kmalloc(Retried(h, size, k), size).1 == Null
  }

  lemma {:induction false} RetriesPass(h: Heap, size: nat, n: nat)
    requires size > 0 && AllNull(h, size, n)
    ensures Retried(h, size, n) == h.(free := Passes(h.free, n))
    decreases n
  {
    if n > 0 {
      hide Kmalloc, Passes, Pass, AllBelow;
      RetriesPass(h, size, n - 1);
      var g := Retried(h, size, n - 1);
      assert Kmalloc(g, size).1 == Null;
      KmallocNullIff(g, size);
      PassesLast(h.free, n - 1);
    }
  }

  lemma {:induction false} PassesLast(bs: seq<Block>, n: nat)
    ensures Passes(bs, n + 1) == Pass(Passes(bs, n))
    decreases n
  {
    if n > 0 {
      PassesLast(Pass(bs), n - 1);
    }
  }

  /**
    Lazy merging is complete in the end: once n failed requests have covered runs of up
    to 2^n blocks, the next one fails only if no run of adjacent free blocks, joined
    into one, is large enough.
   */
  lemma RetriesCoalesce(h: Heap, size: nat, n: nat)
    requires size > 0 && AllNull(h, size, n) && Longest(h.free) <= Pow2(n)
    ensures Retried(h, size, n).free == FullyMerged(h.free)
    ensures Kmalloc(Retried(h, size, n), size).1 == Null <==> AllBelow(FullyMerged(h.free), size)
  {
    RetriesPass(h, size, n);
    PassesMergeIff(h.free, n);
    PassesMergeIff(h.free, n + 1);
    PassesLast(h.free, n);
    KmallocNullIff(Retried(h, size, n), size);
  }

  // ---------------------------------------------------------------- kfree

  /** Freeing the i-th live block moves its bytes to the free list and zeroes them. */
  lemma FreeKeepsPartition(h: Heap, i: nat)
    requires Valid(h) && i < |h.alloc|
    ensures Partition(Insert(h.free, h.alloc[i]), Without(h.alloc, i))
    ensures |Insert(h.free, h.alloc[i])| == |h.free| + 1
    ensures Zeroed(Insert(h.free, h.alloc[i]), Clear(h.mem, h.alloc[i]))
  {
    var b := h.alloc[i];
    var free, alloc := Insert(h.free, b), Without(h.alloc, i);
    forall a ensures b.Covers(a) ==> BASE <= a < LIMIT && Holds(h.alloc, a) && !Holds(h.free, a) {
      if b.Covers(a) {
        LiveInStorage(h, i, a);
      }
    }
    WithoutSorted(h.alloc, i);
    InsertSorted(h.free, b);
    forall a
      ensures Holds(free, a) <==> Holds(h.free, a) || b.Covers(a)
      ensures Holds(alloc, a) <==> Holds(h.alloc, a) && !b.Covers(a)
    {
      InsertHolds(h.free, b, a);
      WithoutHolds(h.alloc, i, a);
    }
    hide Holds, Sorted, Insert, Without;
  }

  lemma KfreeKeeps(h: Heap, ptr: int)
    requires Valid(h)
    ensures Valid(Kfree(h, ptr))
  {
    var i := Find(h.alloc, ptr);
    if ptr != 0 && i < |h.alloc| {
      FreeKeepsPartition(h, i);
    }
  }

  lemma FindIs(bs: seq<Block>, ptr: int, i: nat)
    requires Sorted(bs) && i < |bs| && bs[i].ptr == ptr
    ensures Find(bs, ptr) == i
  {
  }

  lemma WithoutMembers(bs: seq<Block>, i: nat)
    requires Sorted(bs) && i < |bs|
    ensures forall c :: c in Without(bs, i) <==> c in bs && c != bs[i]
  {
    forall c | c in bs && c != bs[i] ensures c in Without(bs, i) {
      var j :| 0 <= j < |bs| && bs[j] == c;
      WithoutKeeps(bs, i, j);
    }
    var r := Without(bs, i);
    forall c | c in r ensures c in bs && c != bs[i] {
      var j :| 0 <= j < |r| && r[j] == c;
      assert c == bs[if j < i then j else j + 1];
    }
  }

  /**
    Freeing a live block frees it: it is live no more, its bytes are free and zero, and a
    request of its size does not get NULL. Every other block and byte is as it was.
   */
  lemma KfreeFrees(h: Heap, ptr: int, b: Block)
    requires Valid(h) && b in h.alloc && b.ptr == ptr
    ensures var h' := Kfree(h, ptr);
      && (forall c :: c in h'.alloc <==> c in h.alloc && c != b)
      && (forall a :: Holds(h'.free, a) <==> Holds(h.free, a) || b.Covers(a))
      && |h'.mem| == STORAGE_BYTES
      && (forall k :: 0 <= k < STORAGE_BYTES ==> h'.mem[k] == if b.Covers(BASE + k) then 0 else h.mem[k])
      && Kmalloc(h', b.size).1 != Null
  {
    var i :| 0 <= i < |h.alloc| && h.alloc[i] == b;
    AllocSorted(h);
    FindIs(h.alloc, ptr, i);
    KfreeKeeps(h, ptr);
    LiveInStorage(h, i, ptr);
    WithoutMembers(h.alloc, i);
    forall a ensures Holds(Insert(h.free, b), a) <==> Holds(h.free, a) || b.Covers(a) {
      InsertHolds(h.free, b, a);
    }
    InsertMember(h.free, b, b);
    hide Holds, Kmalloc, Insert, Without, Valid;
    var free := Insert(h.free, b);
    var k :| 0 <= k < |free| && free[k] == b;
    KmallocSucceeds(Kfree(h, ptr), b.size, k);
  }

  /** A pointer at which no live block starts changes nothing. */
  lemma KfreeIgnores(h: Heap, ptr: int)
    requires forall b :: b in h.alloc ==> b.ptr != ptr
    ensures Kfree(h, ptr) == h
  {
  }

  /** Giving back what was just handed out restores the live blocks, the free bytes and the memory. */
  lemma FreeUndoesMalloc(h: Heap, size: nat)
    requires Valid(h) && Kmalloc(h, size).1.Pointer?
    ensures var (h1, r) := Kmalloc(h, size); var h2 := Kfree(h1, r.ptr);
      && (forall c :: c in h2.alloc <==> c in h.alloc)
      && (forall a :: Holds(h2.free, a) <==> Holds(h.free, a))
      && h2.mem == h.mem
  {
    KmallocKeeps(h, size);
    var _ := KmallocTakes(h, size);
    var (h1, r) := Kmalloc(h, size);
    var b := Block(r.ptr, size);
    assert b !in h.alloc by {
      if i: nat :| i < |h.alloc| && h.alloc[i] == b {
        LiveInStorage(h, i, r.ptr);
      }
    }
    KfreeFrees(h1, r.ptr, b);
    var h2 := Kfree(h1, r.ptr);
    hide Holds, Kmalloc, Kfree;
    forall k | 0 <= k < STORAGE_BYTES ensures h2.mem[k] == h.mem[k] {
      assert b.Covers(BASE + k) ==> h.mem[BASE + k - BASE] == 0;
    }
  }

  lemma AllocSorted(h: Heap)
    requires Valid(h)
    ensures Sorted(h.alloc)
  {
  }

  lemma WithoutKeeps(bs: seq<Block>, i: nat, j: nat)
    requires i < |bs| && j < |bs| && i != j
    ensures bs[j] in Without(bs, i)
  {
    assert Without(bs, i)[if j < i then j else j - 1] == bs[j];
  }

  /** Freeing a pointer leaves every other live block live and its bytes as they were. */
  lemma KfreeFrame(h: Heap, ptr: int, j: nat, a: int)
    requires Valid(h) && j < |h.alloc| && h.alloc[j].ptr != ptr && h.alloc[j].Covers(a)
    ensures h.alloc[j] in Kfree(h, ptr).alloc
    ensures BASE <= a < LIMIT && Kfree(h, ptr).mem[a - BASE] == h.mem[a - BASE]
  {
    hide Partition, Zeroed, Holds, Insert, Sorted, Without, Find, Clear;
    LiveInStorage(h, j, a);
    var i := Find(h.alloc, ptr);
    if ptr != 0 && i < |h.alloc| {
      AllocSorted(h);
      Apart(h.alloc, j, i, a);
      WithoutKeeps(h.alloc, i, j);
      assert !h.alloc[i].Covers(BASE + (a - BASE));
    }
  }

  // ---------------------------------------------------------------- runs

  /** Store is a client writing a byte of a block it was given. */
  datatype Op = Malloc(size: nat) | Free(ptr: int) | Store(block: Block, off: nat, value: Byte)

  function Step(h: Heap, op: Op): Heap
    requires |h.mem| == STORAGE_BYTES
    requires Allowed(h, op)
  {
    match op
    case Malloc(size) => Kmalloc(h, size).0
    case Free(ptr) => Kfree(h, ptr)
    case Store(b, off, v) => h.(mem := h.mem[b.ptr + off - BASE := v])
  }

  /** Clients write only inside their own blocks, and the pool of descriptors does not run out. */
  predicate Allowed(h: Heap, op: Op) {
    match op
    case Malloc(size) => !OutOfDescriptors(h, size)
    case Free(ptr) => true
    case Store(b, off, _) => b in h.alloc && off < b.size && 0 <= b.ptr + off - BASE < |h.mem|
  }

  lemma StepKeeps(h: Heap, op: Op)
    requires Valid(h) && Allowed(h, op)
    ensures Valid(Step(h, op))
  {
    match op
    case Malloc(size) =>
      KmallocKeeps(h, size);
      KmallocFaultIff(h, size);
    case Free(ptr) =>
      KfreeKeeps(h, ptr);
    case Store(b, off, v) =>
      var j :| 0 <= j < |h.alloc| && h.alloc[j] == b;
      LiveInStorage(h, j, b.ptr + off);
  }

  /** The heap after a run, as long as every operation of it is allowed where it happens. */
  ghost predicate Runs(h: Heap, ops: seq<Op>)
    requires Valid(h)
    decreases |ops|
  {
    ops == [] || (Allowed(h, ops[0]) && (StepKeeps(h, ops[0]); Runs(Step(h, ops[0]), ops[1..])))
  }

  ghost function After(h: Heap, ops: seq<Op>): (r: Heap)
    requires Valid(h) && Runs(h, ops)
    ensures Valid(r)
    decreases |ops|
  {
    if ops == [] then h
    else
      StepKeeps(h, ops[0]);
      After(Step(h, ops[0]), ops[1..])
  }

  function Initial(): Heap {
    Heap([Block(BASE, STORAGE_BYTES)], [], seq(STORAGE_BYTES, _ => 0))
  }

  lemma InitialValid()
    ensures Valid(Initial())
  {
    var h := Initial();
    forall a ensures Holds(h.free, a) <==> BASE <= a < LIMIT {
      assert h.free[0].Covers(a) <==> BASE <= a < LIMIT;
    }
  }

  /** The last value stored at an offset of a block in a run, or what was there before it. */
  function LastStored(ops: seq<Op>, b: Block, off: nat, before: Byte): Byte {
    if ops == [] then before
    else
      var now := if ops[0].Store? && ops[0].block == b && ops[0].off == off then ops[0].value else before;
      LastStored(ops[1..], b, off, now)
  }

  lemma StepFrame(h: Heap, op: Op, b: Block, off: nat)
    requires Valid(h) && Allowed(h, op)
    requires b in h.alloc && off < b.size && op != Free(b.ptr)
    ensures BASE <= b.ptr + off < LIMIT
    ensures b in Step(h, op).alloc
    ensures Step(h, op).mem[b.ptr + off - BASE] == LastStored([op], b, off, h.mem[b.ptr + off - BASE])
  {
    hide Kmalloc, Kfree, Holds, Partition, Sorted, Zeroed, OutOfDescriptors;
    var a := b.ptr + off;
    var j :| 0 <= j < |h.alloc| && h.alloc[j] == b;
    LiveInStorage(h, j, a);
    assert [op][1..] == [];
    match op
    case Malloc(size) =>
      KmallocKeeps(h, size);
    case Free(ptr) =>
      KfreeFrame(h, ptr, j, a);
    case Store(c, off', v) =>
      if c != b {
        AllocSorted(h);
        var k :| 0 <= k < |h.alloc| && h.alloc[k] == c;
        Apart(h.alloc, j, k, a);
      }
  }

  /**
    A live block is private memory: over any run that does not free it, whatever else is
    allocated, freed or written, it stays live and each byte is the last one its owner stored.
   */
  lemma {:induction false} LiveBlockIsPrivate(h: Heap, ops: seq<Op>, b: Block, off: nat)
    requires Valid(h) && Runs(h, ops)
    requires b in h.alloc && off < b.size && Free(b.ptr) !in ops
    ensures BASE <= b.ptr + off < LIMIT
    ensures b in After(h, ops).alloc
    ensures After(h, ops).mem[b.ptr + off - BASE] == LastStored(ops, b, off, h.mem[b.ptr + off - BASE])
    decreases |ops|
  {
    if ops == [] {
      var j :| 0 <= j < |h.alloc| && h.alloc[j] == b;
      assert h.alloc[j].Covers(b.ptr + off);
      assert Holds(h.alloc, b.ptr + off);
    } else {
      StepKeeps(h, ops[0]);
      assert ops[0] in ops;
      StepFrame(h, ops[0], b, off);
      var before := h.mem[b.ptr + off - BASE];
      assert LastStored([ops[0]], b, off, before) ==
        if ops[0].Store? && ops[0].block == b && ops[0].off == off then ops[0].value else before;
      LiveBlockIsPrivate(Step(h, ops[0]), ops[1..], b, off);
    }
  }

  // ---------------------------------------------------------------- the pool can run out

  function Ones(n: nat): Heap
    requires n < STORAGE_BYTES
  {
    Heap([Block(BASE + n, STORAGE_BYTES - n)], seq(n, i => Block(BASE + i, 1)), seq(STORAGE_BYTES, _ => 0))
  }

  lemma {:induction false} InsertLast(bs: seq<Block>, b: Block)
    requires forall i :: 0 <= i < |bs| ==> bs[i].ptr < b.ptr
    ensures Insert(bs, b) == bs + [b]
    decreases |bs|
  {
    if bs != [] {
      InsertLast(bs[1..], b);
      assert [bs[0]] + (bs[1..] + [b]) == bs + [b];
    }
  }

  lemma OneMore(n: nat)
    requires n < MAX_REGIONS - 3
    ensures Kmalloc(Ones(n), 1) == (Ones(n + 1), Pointer(BASE + n))
  {
    var h := Ones(n);
    var b := Block(BASE + n, 1);
    assert Back(h.free) == [];
    InsertLast(h.alloc, b);
    assert h.alloc + [b] == Ones(n + 1).alloc;
    assert Scan(h.free, 1) == Fit(Ones(n + 1).free, BASE + n);
  }

  lemma {:induction false} OnesReached(n: nat)
    requires n <= MAX_REGIONS - 3
    ensures ByteRequests(Initial(), n) == Ones(n)
  {
    if n == 0 {
      assert Ones(0).alloc == [];
      assert Ones(0) == Initial();
    } else {
      hide Ones, Kmalloc, Initial;
      OnesReached(n - 1);
      OneMore(n - 1);
    }
  }

  /**
    From the initial heap 497 one-byte requests succeed, with consecutive addresses, and the
    next one faults, with almost all of the storage still free.
   */
  lemma OnesRunOut()
    ensures forall n :: 0 <= n < MAX_REGIONS - 3 ==> Kmalloc(ByteRequests(Initial(), n), 1).1 == Pointer(BASE + n)
    ensures Kmalloc(ByteRequests(Initial(), MAX_REGIONS - 3), 1).1 == Fault
    ensures ByteRequests(Initial(), MAX_REGIONS - 3).free == [Block(BASE + MAX_REGIONS - 3, STORAGE_BYTES - (MAX_REGIONS - 3))]
  {
    forall n: nat | n < MAX_REGIONS - 3 ensures Kmalloc(ByteRequests(Initial(), n), 1).1 == Pointer(BASE + n) {
      hide Kmalloc;
      OnesReached(n);
      OneMore(n);
    }
    var n := MAX_REGIONS - 3;
    OnesReached(n);
    var h := Ones(n);
    assert |h.free| == 1 && |h.alloc| == n && Back(h.free) == [];
    assert |Scan(h.free, 1).rest| == 1;
  }

  /** n requests for one byte. */
  function ByteRequests(h: Heap, n: nat): Heap {
    if n == 0 then h else Kmalloc(ByteRequests(h, n - 1), 1).0
  }
}
