/**
  Loading a program (load_program in student-distrib/task.c): from the blocks of the file
  system into physical memory, and from there, through the page directory of the new
  process, to the addresses at which the program sees itself.
 */
module Loader {
  import opened Machine
  import opened FileSystem
  import opened Descriptors
  import opened Paging

  const HEADER: nat := 40

  /** The first four bytes of an ELF file, as a little-endian word. */
  const MAGIC: nat := 0x464c457f

  function LittleEndian(b: seq<Byte>): nat
    requires |b| == 4
  {
    b[0] as int + 0x100 * b[1] as int + 0x1_0000 * b[2] as int + 0x100_0000 * b[3] as int
  }

  /** calc_program_start: where in physical memory the image of a process begins. */
  function ProgramStart(pid: int): int {
    0x84_8000 + 0x40_0000 * (pid - 1)
  }

  const PROGRAM_VIRTUAL: nat := 0x804_8000

  /** What has to hold of a file for load_program to go on after its header. */
  ghost predicate Loadable(d: Disk, f: Inode) {
    && !f.TooLong() && f.length >= HEADER && Readable(d, f, 0, HEADER)
    && LittleEndian(Bytes(d, f, 0, HEADER)[..4]) == MAGIC
  }

  /** The start address that the header gives: the little-endian word at bytes 24 to 27. */
  ghost function Entry(d: Disk, f: Inode): nat
    requires Loadable(d, f)
  {
    LittleEndian(Bytes(d, f, 0, HEADER)[24..28])
  }

  // ---------------------------------------------------------------- memory through a page directory

  const PHYSICAL: nat := 0x1_0000_0000

  /** The page directory and tables of a process. */
  datatype Mapping = Mapping(base: nat, pid: nat, space: Space)

  /** The pages of a user process as init_paging leaves them. */
  ghost predicate Ready(m: Mapping) {
    m.space.Valid() && Placed(m.base) && 1 <= m.pid < MAX_PROCESSES && Built(m.base, m.pid, MAX_PROCESSES, m.space)
  }

  /** Where a kernel access to a virtual address goes in a memory of some size, or -1 for a page fault. */
  function Lands(m: Mapping, size: nat, v: nat): (p: int)
    requires m.space.Valid() && v < 0x1_0000_0000
    ensures -1 <= p < size
  {
    var t := Translate(m.base, m.pid, m.space, v);
    if t.Mapped? && t.phys < size then t.phys else -1
  }

  ghost predicate Reaches(m: Mapping, size: nat, v: nat, n: nat)
    requires m.space.Valid() && v + n <= 0x1_0000_0000
  {
    forall u :: v <= u < v + n ==> Lands(m, size, u) >= 0
  }

  /** Memory after bytes are stored from a virtual address on, up to the first page fault. */
  ghost function Written(m: Mapping, mem: seq<Byte>, v: nat, bs: seq<Byte>): (r: seq<Byte>)
    requires m.space.Valid() && v + |bs| <= 0x1_0000_0000
    ensures |r| == |mem|
    decreases |bs|
  {
    if bs == [] || Lands(m, |mem|, v) < 0 then mem
    else Written(m, mem[Lands(m, |mem|, v) := bs[0]], v + 1, bs[1..])
  }

  lemma ReachesLater(m: Mapping, size: nat, v: nat, n: nat)
    requires m.space.Valid() && v + n <= 0x1_0000_0000 && n > 0
    ensures Reaches(m, size, v, n) <==> Lands(m, size, v) >= 0 && Reaches(m, size, v + 1, n - 1)
  {
    hide Lands;
  }

  lemma WrittenCons(m: Mapping, mem: seq<Byte>, v: nat, b: Byte, bs: seq<Byte>)
    requires m.space.Valid() && v + 1 + |bs| <= 0x1_0000_0000
    ensures Written(m, mem, v, [b] + bs) ==
      if Lands(m, |mem|, v) < 0 then mem else Written(m, mem[Lands(m, |mem|, v) := b], v + 1, bs)
  {
    hide Lands;
    assert ([b] + bs)[1..] == bs;
  }

  lemma {:induction false} WrittenThrough(m: Mapping, mem: seq<Byte>, v: nat, a: seq<Byte>, b: seq<Byte>, end: nat, mid: seq<Byte>)
    requires m.space.Valid() && end == v + |a| && end + |b| <= 0x1_0000_0000
    requires Reaches(m, |mem|, v, |a|) && mid == Written(m, mem, v, a)
    ensures Written(m, mem, v, a + b) == Written(m, mid, end, b)
    decreases |a|
  {
    hide Lands, Written, Reaches, Space.Valid;
    if a == [] {
      WrittenNone(m, mem, v);
      assert a + b == b;
    } else {
      FirstOf(a, b);
      ReachesLater(m, |mem|, v, |a|);
      WrittenCons(m, mem, v, a[0], a[1..]);
      WrittenCons(m, mem, v, a[0], a[1..] + b);
      WrittenThrough(m, mem[Lands(m, |mem|, v) := a[0]], v + 1, a[1..], b, end, mid);
    }
  }

  lemma {:induction false} WrittenStopped(m: Mapping, mem: seq<Byte>, v: nat, a: seq<Byte>, b: seq<Byte>)
    requires m.space.Valid() && v + |a| + |b| <= 0x1_0000_0000 && !Reaches(m, |mem|, v, |a|)
    ensures Written(m, mem, v, a + b) == Written(m, mem, v, a)
    decreases |a|
  {
    if a != [] {
      hide Lands, Written, Reaches, Space.Valid;
      FirstOf(a, b);
      ReachesLater(m, |mem|, v, |a|);
      WrittenCons(m, mem, v, a[0], a[1..]);
      WrittenCons(m, mem, v, a[0], a[1..] + b);
      if Lands(m, |mem|, v) >= 0 {
        WrittenStopped(m, mem[Lands(m, |mem|, v) := a[0]], v + 1, a[1..], b);
      }
    }
  }

  /** Storing in two goes; after a fault there is no second one. */
  lemma WrittenAppend(m: Mapping, mem: seq<Byte>, v: nat, a: seq<Byte>, b: seq<Byte>)
    requires m.space.Valid() && v + |a| + |b| <= 0x1_0000_0000
    ensures Reaches(m, |mem|, v, |a|) ==> Written(m, mem, v, a + b) == Written(m, Written(m, mem, v, a), v + |a|, b)
    ensures !Reaches(m, |mem|, v, |a|) ==> Written(m, mem, v, a + b) == Written(m, mem, v, a)
  {
    hide Written, Reaches;
    if Reaches(m, |mem|, v, |a|) {
      WrittenThrough(m, mem, v, a, b, v + |a|, Written(m, mem, v, a));
    } else {
      WrittenStopped(m, mem, v, a, b);
    }
  }

  lemma FirstOf(a: seq<Byte>, b: seq<Byte>)
    requires a != []
    ensures a == [a[0]] + a[1..] && a + b == [a[0]] + (a[1..] + b) && |a[1..]| == |a| - 1
  {
  }

  lemma ReachesAppend(m: Mapping, size: nat, v: nat, i: nat, j: nat)
    requires m.space.Valid() && v + i + j <= 0x1_0000_0000
    ensures Reaches(m, size, v, i + j) <==> Reaches(m, size, v, i) && Reaches(m, size, v + i, j)
  {
    hide Lands;
  }

  /** memcpy to a virtual address. */
  method Memcpy(m: Mapping, mem: array<Byte>, v: nat, src: seq<Byte>) returns (fault: bool)
    requires m.space.Valid() && v + |src| <= 0x1_0000_0000
    modifies mem
    ensures mem[..] == Written(m, old(mem[..]), v, src)
    ensures fault <==> !Reaches(m, mem.Length, v, |src|)
  {
    hide Lands;
    var i := 0;
    while i < |src|
      invariant 0 <= i <= |src|
      invariant Written(m, old(mem[..]), v, src) == Written(m, mem[..], v + i, src[i..])
      invariant Reaches(m, mem.Length, v, |src|) <==> Reaches(m, mem.Length, v + i, |src| - i)
    {
      var p := Lands(m, mem.Length, v + i);
      ReachesLater(m, mem.Length, v + i, |src| - i);
      if p < 0 {
        return true;
      }
      ghost var before := mem[..];
      mem[p] := src[i];
      assert mem[..] == before[p := src[i]] && src[i..][1..] == src[i + 1..];
      i := i + 1;
    }
    return false;
  }

  /** Addresses that are their own translation. */
  ghost predicate InPlace(m: Mapping, size: nat, v: nat, n: nat)
    requires m.space.Valid() && v + n <= 0x1_0000_0000
  {
    forall u :: v <= u < v + n ==> Lands(m, size, u) == u < size
  }

  /** The four bytes at a virtual address. */
  method ReadWord(m: Mapping, mem: array<Byte>, v: nat) returns (w: nat)
    requires m.space.Valid() && v + 4 <= 0x1_0000_0000 && v + 4 <= mem.Length && InPlace(m, mem.Length, v, 4)
    ensures w == LittleEndian(mem[v..v + 4])
  {
    hide Lands;
    var a, b, c, e := Lands(m, mem.Length, v), Lands(m, mem.Length, v + 1), Lands(m, mem.Length, v + 2), Lands(m, mem.Length, v + 3);
    w := LittleEndian([mem[a], mem[b], mem[c], mem[e]]);
    assert mem[v..v + 4] == [mem[a], mem[b], mem[c], mem[e]];
  }

  /** The copying loop of read_data, when the buffer is a range of virtual addresses. */
  method CopyMapped(d: Disk, f: Inode, offset0: nat, m: Mapping, mem: array<Byte>, v: nat, length0: nat)
    returns (r: int, fault: bool, ghost good: nat)
    requires f.Valid() && !f.TooLong() && offset0 + length0 <= f.length
    requires m.space.Valid() && v + length0 <= 0x1_0000_0000
    modifies mem
    ensures good == Good(d, f, offset0, length0)
    ensures mem[..] == Written(m, old(mem[..]), v, Bytes(d, f, offset0, good))
    ensures fault <==> !Reaches(m, mem.Length, v, good)
    ensures !fault ==> r == if good == length0 then length0 else -1
  {
    hide Written, Reaches, Readable, Bytes, Good;
    good := Good(d, f, offset0, length0);
    fault := false;
    var length, copied: nat := length0, 0;
    BytesNone(d, f, offset0);
    WrittenNone(m, mem[..], v);
    while length > 0
      invariant 0 <= length && copied + length == length0 && copied <= good
      invariant Readable(d, f, offset0, offset0 + copied)
      invariant mem[..] == Written(m, old(mem[..]), v, Bytes(d, f, offset0, copied))
      invariant Reaches(m, mem.Length, v, copied)
      decreases length
    {
      var offset := offset0 + copied;
      InWords(f, offset);
      if f.words[offset / 4096] >= |d| {
        GoodIs(d, f, offset0, length0, copied);
        return -1, false, good;
      }
      var src := NextStretch(d, f, offset, length);
      BytesAppend(d, f, offset0, copied, |src|);
      WrittenAppend(m, old(mem[..]), v, Bytes(d, f, offset0, copied), src);
      ReachesAppend(m, mem.Length, v, copied, |src|);
      GoodAtLeast(d, f, offset0, length0, copied + |src|);
      fault := Memcpy(m, mem, v + copied, src);
      length, copied := length - |src|, copied + |src|;
      if fault {
        FaultIsFinal(d, f, offset0, m, old(mem[..]), v, copied, good);
        return -1, true, good;
      }
    }
    return copied, false, good;
  }

  lemma WrittenNone(m: Mapping, mem: seq<Byte>, v: nat)
    requires m.space.Valid() && v <= 0x1_0000_0000
    ensures Written(m, mem, v, []) == mem && Reaches(m, |mem|, v, 0)
  {
  }

  /** What comes after a fault makes no difference. */
  lemma FaultIsFinal(d: Disk, f: Inode, offset: nat, m: Mapping, mem: seq<Byte>, v: nat, g: nat, good: nat)
    requires m.space.Valid() && g <= good && v + good <= 0x1_0000_0000 && Readable(d, f, offset, offset + good)
    requires Readable(d, f, offset, offset + g) && !Reaches(m, |mem|, v, g)
    ensures Written(m, mem, v, Bytes(d, f, offset, good)) == Written(m, mem, v, Bytes(d, f, offset, g))
    ensures !Reaches(m, |mem|, v, good)
  {
    hide Written, Reaches, Bytes;
    assert Readable(d, f, offset + g, offset + g + (good - g));
    BytesAppend(d, f, offset, g, good - g);
    WrittenAppend(m, mem, v, Bytes(d, f, offset, g), Bytes(d, f, offset + g, good - g));
    ReachesAppend(m, |mem|, v, g, good - g);
  }

  /** How many bytes of a request come before a missing block. */
  ghost function GoodOf(d: Disk, f: Inode, offset: nat, length: int): nat {
    if f.TooLong() then 0 else Good(d, f, offset, Wanted(f, offset, length))
  }

  /** read_data into virtual addresses. */
  method ReadMapped(d: Disk, f: Inode, offset: nat, m: Mapping, mem: array<Byte>, v: nat, length0: int)
    returns (r: int, fault: bool, ghost good: nat)
    requires f.Valid() && f.length < WORD && offset < WORD && -0x8000_0000 <= length0 < 0x8000_0000
    requires m.space.Valid() && v <= 0x1_0000_0000 && (!f.TooLong() ==> v + Wanted(f, offset, length0) <= 0x1_0000_0000)
    modifies mem
    ensures good == GoodOf(d, f, offset, length0) && Readable(d, f, offset, offset + good)
    ensures v + good <= 0x1_0000_0000 && mem[..] == Written(m, old(mem[..]), v, Bytes(d, f, offset, good))
    ensures fault <==> !Reaches(m, mem.Length, v, good)
    ensures !fault ==> Answers(d, f, offset, length0, good, r)
  {
    hide Written, Reaches, Bytes, Readable;
    BytesNone(d, f, offset);
    WrittenNone(m, mem[..], v);
    if f.length / 4096 > LISTED {
      return -1, false, 0;
    }
    if offset > f.length {
      return 0, false, 0;
    }
    var length := Clamp(f, offset, length0);
    r, fault, good := CopyMapped(d, f, offset, m, mem, v, length);
  }

  // ---------------------------------------------------------------- where the image of a process lands

  /** What is left of the 4 MB page of a process from the start of its program on. */
  const ROOM: nat := 0x40_0000 - 0x4_8000

  /** The page after that of the process is also mapped to itself, as part of the kmalloc storage. */
  predicate NextPageMapped(pid: nat) {
    46 <= pid <= 51
  }

  /** The address after the page of process 30 is 128 MB, where its page is mapped a second time. */
  predicate NextPageIsOwn(pid: nat) {
    pid == 30
  }

  /** Physical address of byte i of a program that is loaded for a process, or -1 for a page fault. */
  function Landing(pid: nat, i: nat): int {
    if i < ROOM || NextPageMapped(pid) then ProgramStart(pid) + i
    else if NextPageIsOwn(pid) then (1 + pid) * 0x40_0000 + (i - ROOM)
    else -1
  }

  lemma ImageLands(m: Mapping, i: nat)
    requires Ready(m) && i < 0x40_0000
    ensures 0 <= ProgramStart(m.pid) + i < 0x1_0000_0000
    ensures Lands(m, PHYSICAL, ProgramStart(m.pid) + i) == Landing(m.pid, i)
  {
    hide Translate, Built, Placed, Space.Valid;
    var pid, v := m.pid, ProgramStart(m.pid) + i;
    InitTranslates(m.base, pid, m.space, v);
    if i < ROOM {
      DivModUnique(v, 1 + pid, 0x4_8000 + i, 0x40_0000);
    } else {
      DivModUnique(v, 2 + pid, i - ROOM, 0x40_0000);
    }
  }

  /** Bytes that land one after the other. */
  lemma {:induction false} WrittenInRow(m: Mapping, mem: seq<Byte>, v: nat, q: nat, bs: seq<Byte>)
    requires m.space.Valid() && v + |bs| <= 0x1_0000_0000 && q + |bs| <= |mem|
    requires forall u :: v <= u < v + |bs| ==> Lands(m, |mem|, u) == u - v + q
    ensures Reaches(m, |mem|, v, |bs|) && Written(m, mem, v, bs) == Patched(mem, q, bs)
    decreases |bs|
  {
    hide Lands, Patched;
    if bs == [] {
      PatchedNone(mem, q);
    } else {
      WrittenInRow(m, mem[q := bs[0]], v + 1, q + 1, bs[1..]);
      PatchedCons(mem, q, bs);
    }
  }

  lemma PatchedCons(mem: seq<Byte>, q: nat, bs: seq<Byte>)
    requires bs != [] && q + |bs| <= |mem|
    ensures Patched(mem[q := bs[0]], q + 1, bs[1..]) == Patched(mem, q, bs)
  {
  }

  /** A program is stored to its end exactly if it fits its page, or there is something mapped after it. */
  predicate Complete(pid: nat, n: nat) {
    n <= ROOM || NextPageMapped(pid) || NextPageIsOwn(pid)
  }

  /** Memory after a program is stored for a process. */
  function Stored(pid: nat, mem: seq<Byte>, bs: seq<Byte>): (r: seq<Byte>)
    requires 1 <= pid < 100 && |mem| == PHYSICAL && |bs| <= 0x40_0000
    ensures |r| == PHYSICAL
  {
    if |bs| <= ROOM || NextPageMapped(pid) then Patched(mem, ProgramStart(pid), bs)
    else
      var own := Patched(mem, ProgramStart(pid), bs[..ROOM]);
      if NextPageIsOwn(pid) then Patched(own, (1 + pid) * 0x40_0000, bs[ROOM..]) else own
  }

  /** The bytes of a stretch of the image land in a row. */
  lemma StretchWritten(m: Mapping, mem: seq<Byte>, from: nat, bs: seq<Byte>)
    requires Ready(m) && |mem| == PHYSICAL && from + |bs| <= 0x40_0000
    requires NextPageMapped(m.pid) || from + |bs| <= ROOM || (from == ROOM && NextPageIsOwn(m.pid))
    ensures var v := ProgramStart(m.pid) + from;
      var q := if from == ROOM && NextPageIsOwn(m.pid) then (1 + m.pid) * 0x40_0000 else v;
      && 0 <= v && v + |bs| <= 0x1_0000_0000 && q + |bs| <= |mem|
      && Reaches(m, |mem|, v, |bs|) && Written(m, mem, v, bs) == Patched(mem, q, bs)
  {
    hide Lands, Written, Reaches, Patched, Ready, Space.Valid, ProgramStart;
    StartInRange(m);
    var v := ProgramStart(m.pid) + from;
    var q := if from == ROOM && NextPageIsOwn(m.pid) then (1 + m.pid) * 0x40_0000 else v;
    forall u | v <= u < v + |bs| ensures Lands(m, |mem|, u) == u - v + q {
      ImageLands(m, u - ProgramStart(m.pid));
    }
    WrittenInRow(m, mem, v, q, bs);
  }

  lemma StoredParts(pid: nat, mem: seq<Byte>, a: seq<Byte>, b: seq<Byte>)
    requires 1 <= pid < 100 && |mem| == PHYSICAL && |a| == ROOM && b != [] && |a| + |b| <= 0x40_0000 && !NextPageMapped(pid)
    ensures var own := Patched(mem, ProgramStart(pid), a);
      Stored(pid, mem, a + b) == if NextPageIsOwn(pid) then Patched(own, (1 + pid) * 0x40_0000, b) else own
  {
    hide Patched;
    assert (a + b)[..ROOM] == a && (a + b)[ROOM..] == b;
  }

  /** The addresses of a program that is loaded for a process. */
  lemma StartInRange(m: Mapping)
    requires Ready(m)
    ensures m.space.Valid() && 1 <= m.pid < 100
    ensures 0 <= ProgramStart(m.pid) && ProgramStart(m.pid) + 0x40_0000 <= 0x1_0000_0000
    ensures (1 + m.pid) * 0x40_0000 + 0x40_0000 <= 0x1_0000_0000
  {
  }

  /** A program that does not fit its page is stored in two parts. */
  lemma PartsWritten(m: Mapping, mem: seq<Byte>, a: seq<Byte>, b: seq<Byte>)
    requires Ready(m) && |mem| == PHYSICAL && |a| == ROOM && b != [] && |a| + |b| <= 0x40_0000 && !NextPageMapped(m.pid)
    ensures 0 <= ProgramStart(m.pid) && ProgramStart(m.pid) + |a| + |b| <= 0x1_0000_0000
    ensures Written(m, mem, ProgramStart(m.pid), a + b) == Stored(m.pid, mem, a + b)
    ensures Reaches(m, PHYSICAL, ProgramStart(m.pid), |a| + |b|) <==> NextPageIsOwn(m.pid)
  {
    hide Lands, Written, Patched, Reaches, Stored, Ready, ProgramStart, NextPageIsOwn, NextPageMapped, Space.Valid;
    StartInRange(m);
    var start := ProgramStart(m.pid);
    var end, own := start + ROOM, Patched(mem, start, a);
    StretchWritten(m, mem, 0, a);
    WrittenThrough(m, mem, start, a, b, end, own);
    ReachesAppend(m, PHYSICAL, start, |a|, |b|);
    StoredParts(m.pid, mem, a, b);
    PastThePage(m, own, b, end);
  }

  /** Where the program goes, and whether all of it does. */
  lemma ImageWritten(m: Mapping, mem: seq<Byte>, bs: seq<Byte>)
    requires Ready(m) && |mem| == PHYSICAL && |bs| <= 0x40_0000
    ensures 0 <= ProgramStart(m.pid) && ProgramStart(m.pid) + |bs| <= 0x1_0000_0000
    ensures Written(m, mem, ProgramStart(m.pid), bs) == Stored(m.pid, mem, bs)
    ensures Reaches(m, PHYSICAL, ProgramStart(m.pid), |bs|) <==> Complete(m.pid, |bs|)
  {
    hide Lands, Written, Patched, Built, Placed, Reaches;
    if |bs| <= ROOM || NextPageMapped(m.pid) {
      StretchWritten(m, mem, 0, bs);
    } else {
      hide Stored;
      assert bs == bs[..ROOM] + bs[ROOM..];
      PartsWritten(m, mem, bs[..ROOM], bs[ROOM..]);
    }
  }

  /** The bytes that do not fit: those of process 30 go to the start of its page, others nowhere. */
  lemma PastThePage(m: Mapping, own: seq<Byte>, b: seq<Byte>, end: nat)
    requires Ready(m) && |own| == PHYSICAL && ROOM + |b| <= 0x40_0000 && b != [] && !NextPageMapped(m.pid)
    requires end == ProgramStart(m.pid) + ROOM
    ensures end + |b| <= 0x1_0000_0000
    ensures Written(m, own, end, b) == if NextPageIsOwn(m.pid) then Patched(own, (1 + m.pid) * 0x40_0000, b) else own
    ensures Reaches(m, PHYSICAL, end, |b|) <==> NextPageIsOwn(m.pid)
  {
    hide Lands, Written, Patched, Reaches, Ready, Space.Valid, ProgramStart;
    StartInRange(m);
    if NextPageIsOwn(m.pid) {
      StretchWritten(m, own, ROOM, b);
    } else {
      ImageLands(m, ROOM);
      FaultsAtOnce(m, own, end, b);
    }
  }

  lemma FaultsAtOnce(m: Mapping, mem: seq<Byte>, v: nat, bs: seq<Byte>)
    requires m.space.Valid() && v + |bs| <= 0x1_0000_0000 && v < 0x1_0000_0000 && Lands(m, |mem|, v) < 0
    ensures Written(m, mem, v, bs) == mem
    ensures bs != [] ==> !Reaches(m, |mem|, v, |bs|)
  {
    hide Lands;
  }

  // ---------------------------------------------------------------- load_program

  /** What load_program comes to: NULL, which a start address of 0 is too, another start address, or a page fault on the way. */
  datatype Loading = Refused | Started(start: nat) | PageFault

  /** How much of the file reaches memory when nothing faults: the header, and the rest if the header is right. */
  ghost function Loaded(d: Disk, f: Inode): nat {
    GoodOf(d, f, 0, if Loadable(d, f) then f.length else HEADER)
  }

  lemma LoadedIs(d: Disk, f: Inode)
    ensures Loaded(d, f) <= f.length && Loaded(d, f) <= 0x40_0000 && Readable(d, f, 0, Loaded(d, f))
    ensures Loadable(d, f) ==> (Loaded(d, f) == f.length <==> Readable(d, f, 0, f.length))
  {
  }

  ghost function Outcome(d: Disk, f: Inode, pid: nat): Loading {
    if !Loadable(d, f) then Refused
    else if !Complete(pid, Loaded(d, f)) then PageFault
    else if Entry(d, f) == 0 then Refused
    else Started(Entry(d, f))
  }

  /** load_program on an inode, with the pages of the new process loaded. */
  method LoadInode(d: Disk, f: Inode, m: Mapping, mem: array<Byte>) returns (out: Loading)
    requires f.Valid() && f.length < WORD && Ready(m) && mem.Length == PHYSICAL
    modifies mem
    ensures Loaded(d, f) <= 0x40_0000 && Readable(d, f, 0, Loaded(d, f))
    ensures mem[..] == Stored(m.pid, old(mem[..]), Bytes(d, f, 0, Loaded(d, f)))
    ensures out == Outcome(d, f, m.pid)
  {
    hide Written, Reaches, Bytes, Readable, Answers, Stored, Built, Patched;
    ghost var m0 := mem[..];
    var addr := ProgramStart(m.pid);
    var r, fault;
    ghost var good;
    r, fault, good := ReadMapped(d, f, 0, m, mem, addr, HEADER);
    HeaderRead(d, f, m, m0, good);
    FirstRead(d, f, good, r);
    if r < HEADER {
      return Refused;
    }
    ghost var header := Bytes(d, f, 0, HEADER);
    HeaderLands(m, m0, header);
    var magic := ReadWord(m, mem, addr);
    if magic != MAGIC {
      return Refused;
    }
    var start := ReadWord(m, mem, addr + 24);
    ghost var good2;
    r, fault, good2 := ReadMapped(d, f, HEADER, m, mem, addr + HEADER, f.length - HEADER);
    RestRead(d, f, m, m0, good2);
    if fault {
      return PageFault;
    }
    SecondRead(d, f, good2, r);
    if r % 0x1_0000_0000 < f.length - HEADER {
      return Refused;
    }
    return if start == 0 then Refused else Started(start);
  }

  /** The header of a file fits every page. */
  lemma HeaderRead(d: Disk, f: Inode, m: Mapping, m0: seq<Byte>, good: nat)
    requires Ready(m) && |m0| == PHYSICAL && good == GoodOf(d, f, 0, HEADER) && Readable(d, f, 0, good)
    ensures good <= HEADER && 0 <= ProgramStart(m.pid) && ProgramStart(m.pid) + good <= 0x1_0000_0000
    ensures Written(m, m0, ProgramStart(m.pid), Bytes(d, f, 0, good)) == Stored(m.pid, m0, Bytes(d, f, 0, good))
    ensures Reaches(m, PHYSICAL, ProgramStart(m.pid), good)
    ensures !Loadable(d, f) ==> Loaded(d, f) == good
  {
    hide Written, Reaches, Stored, Loadable, Bytes, Built, Readable;
    ImageWritten(m, m0, Bytes(d, f, 0, good));
  }

  /** The header can be read back where it was stored. */
  lemma HeaderLands(m: Mapping, m0: seq<Byte>, header: seq<Byte>)
    requires Ready(m) && |m0| == PHYSICAL && |header| == HEADER
    ensures var addr, now := ProgramStart(m.pid), Stored(m.pid, m0, header);
      && 0 <= addr && addr + HEADER <= PHYSICAL
      && InPlace(m, PHYSICAL, addr, 4) && InPlace(m, PHYSICAL, addr + 24, 4)
      && now[addr..addr + 4] == header[..4] && now[addr + 24..addr + 28] == header[24..28]
  {
    hide Lands, Built;
    var addr := ProgramStart(m.pid);
    forall u | addr <= u < addr + HEADER ensures 0 <= u < PHYSICAL && Lands(m, PHYSICAL, u) == u {
      ImageLands(m, u - addr);
    }
    PatchedSlice(m0, addr, header, 0, 4);
    PatchedSlice(m0, addr, header, 24, 28);
  }

  /** The two reads together store the file as one would. */
  lemma RestRead(d: Disk, f: Inode, m: Mapping, m0: seq<Byte>, good: nat)
    requires Ready(m) && |m0| == PHYSICAL && Loadable(d, f)
    requires good == GoodOf(d, f, HEADER, f.length - HEADER) && Readable(d, f, HEADER, HEADER + good)
    ensures Loaded(d, f) == HEADER + good <= 0x40_0000
    ensures 0 <= ProgramStart(m.pid) && ProgramStart(m.pid) + HEADER + good <= 0x1_0000_0000
    ensures Written(m, Stored(m.pid, m0, Bytes(d, f, 0, HEADER)), ProgramStart(m.pid) + HEADER, Bytes(d, f, HEADER, good))
         == Stored(m.pid, m0, Bytes(d, f, 0, HEADER + good))
    ensures Reaches(m, PHYSICAL, ProgramStart(m.pid) + HEADER, good) <==> Complete(m.pid, HEADER + good)
  {
    hide Written, Reaches, Stored, Bytes, Built;
    assert Wanted(f, HEADER, f.length - HEADER) == f.length - HEADER && Wanted(f, 0, f.length) == f.length;
    BytesAppend(d, f, 0, HEADER, good);
    GoodIs(d, f, 0, f.length, HEADER + good);
    var a, b := Bytes(d, f, 0, HEADER), Bytes(d, f, HEADER, good);
    ImageWritten(m, m0, a);
    ImageWritten(m, m0, a + b);
    WrittenAppend(m, m0, ProgramStart(m.pid), a, b);
    ReachesAppend(m, PHYSICAL, ProgramStart(m.pid), HEADER, good);
  }

  lemma FirstRead(d: Disk, f: Inode, good: nat, r: int)
    requires Answers(d, f, 0, HEADER, good, r)
    ensures good <= f.length
    ensures r == HEADER || r < HEADER
    ensures r == HEADER <==> !f.TooLong() && f.length >= HEADER && Readable(d, f, 0, HEADER)
    ensures r == HEADER ==> good == HEADER
  {
    AnswersIff(d, f, 0, HEADER, good, r);
  }

  /** The check of the second read compares unsigned numbers, so that -1 passes it: it never fails. */
  lemma SecondRead(d: Disk, f: Inode, good: nat, r: int)
    requires !f.TooLong() && f.length >= HEADER && Readable(d, f, 0, HEADER)
    requires Answers(d, f, HEADER, f.length - HEADER, good, r)
    ensures HEADER + good <= f.length
    ensures r % 0x1_0000_0000 >= f.length - HEADER
    ensures HEADER + good == f.length <==> Readable(d, f, 0, f.length)
  {
    assert f.length < 4096 * 1024;
    AnswersIff(d, f, HEADER, f.length - HEADER, good, r);
    if r == -1 {
      DivModUnique(-1, -1, 0xFFFF_FFFF, 0x1_0000_0000);
    } else {
      DivModUnique(r, 0, r, 0x1_0000_0000);
    }
    if good < f.length - HEADER {
      assert !Present(d, f, HEADER + good);
    } else {
      BytesAppend(d, f, 0, HEADER, good);
    }
  }

  /**
    When a program that fits starts, in terms of its bytes: it has a header, the four bytes of
    an ELF file at the front, and at 24 to 27 a little-endian word other than 0, which is
    where it starts. Otherwise load_program returns NULL.
   */
  lemma ProgramStartsIff(d: Disk, f: Inode, pid: nat, start: nat)
    requires Sound(d, f) && Fits(f)
    ensures Outcome(d, f, pid) == Started(start) <==>
      var c := Contents(d, f);
      && |c| >= 40 && c[0] == 0x7F && c[1] == 0x45 && c[2] == 0x4C && c[3] == 0x46
      && start == c[24] as int + 0x100 * c[25] as int + 0x1_0000 * c[26] as int + 0x100_0000 * c[27] as int && start != 0
    ensures Outcome(d, f, pid).Started? || Outcome(d, f, pid) == Refused
  {
    LoadedIs(d, f);
    if f.length >= HEADER {
      BytesSlice(d, f, 0, HEADER);
      var c, h := Contents(d, f), Bytes(d, f, 0, HEADER);
      assert h[..4] == c[..4] && h[24..28] == c[24..28];
      MagicIff(c[..4]);
      hide Contents, Bytes, Readable, Loaded;
    }
  }

  lemma MagicIff(b: seq<Byte>)
    requires |b| == 4
    ensures LittleEndian(b) == MAGIC <==> b == [0x7F, 0x45, 0x4C, 0x46]
  {
  }

  /** A file whose second block does not exist starts all the same, whatever the pid. */
  lemma TruncatedProgramStarts(pid: nat) returns (d: Disk, f: Inode)
    ensures f.Valid() && Loaded(d, f) == 4096 < f.length
    ensures Loadable(d, f) && Outcome(d, f, pid) == Started(0x804_8100)
  {
    var block: Block := [0x7f, 0x45, 0x4c, 0x46] + seq(20, _ => 0) + [0x00, 0x81, 0x04, 0x08] + seq(4068, _ => 0);
    d, f := [block], Inode(5000, seq(LISTED + 1, i requires 0 <= i < LISTED + 1 => i));
    assert Readable(d, f, 0, 4096);
    assert !Present(d, f, 4096);
    assert block[..4] == [0x7f, 0x45, 0x4c, 0x46] && block[24..28] == [0x00, 0x81, 0x04, 0x08];
    FirstBytes(d, f, block);
    hide Readable, Present, Bytes, LittleEndian;
    MagicAndEntry();
    GoodIs(d, f, 0, 5000, 4096);
  }

  lemma MagicAndEntry()
    ensures LittleEndian([0x7f, 0x45, 0x4c, 0x46]) == MAGIC && LittleEndian([0x00, 0x81, 0x04, 0x08]) == 0x804_8100
  {
  }

  lemma FirstBytes(d: Disk, f: Inode, block: Block)
    requires d == [block] && |f.words| > 0 && f.words[0] == 0
    ensures Readable(d, f, 0, HEADER) && Bytes(d, f, 0, HEADER)[..4] == block[..4] && Bytes(d, f, 0, HEADER)[24..28] == block[24..28]
  {
    BlockStretch(d, f, 0, HEADER);
  }

  lemma PatchedSlice(m: seq<Byte>, at: nat, x: seq<Byte>, i: nat, j: nat)
    requires at + |x| <= |m| && i <= j <= |x|
    ensures Patched(m, at, x)[at + i..at + j] == x[i..j]
  {
  }

  /** The whole of load_program: find the file, check that it is one, load it. */
  method LoadProgram(img: Image, program: seq<Byte>, m: Mapping, mem: array<Byte>) returns (out: Loading)
    requires img.Valid() && NulFree(program) && Ready(m) && mem.Length == PHYSICAL
    modifies mem
    ensures var i := Lookup(img.dentries, program);
      if 1 <= |program| <= NAME_MAX && i < |img.dentries| && img.dentries[i].kind == FileEntry then
        var d, f := img.disk, img.inodes[img.dentries[i].inode];
        && Loaded(d, f) <= 0x40_0000 && Readable(d, f, 0, Loaded(d, f))
        && mem[..] == Stored(m.pid, old(mem[..]), Bytes(d, f, 0, Loaded(d, f)))
        && out == Outcome(d, f, m.pid)
        && (Sound(d, f) && Fits(f) && Loadable(d, f) ==> Installed(m, old(mem[..]), mem[..], Contents(d, f)))
      else out == Refused && mem[..] == old(mem[..])
  {
    out := Refused;
    var i := ReadDentryByName(img, program);
    if i == -1 || img.dentries[i].kind != FileEntry {
      return;
    }
    var f := img.inodes[img.dentries[i].inode];
    ghost var before := mem[..];
    out := LoadInode(img.disk, f, m, mem);
    if Sound(img.disk, f) && Fits(f) && Loadable(img.disk, f) {
      LoadedIs(img.disk, f);
      ProgramIsInstalled(m, before, Contents(img.disk, f));
    }
  }

  // ---------------------------------------------------------------- what the process sees

  /** The byte that a process reads at a virtual address in user mode. */
  ghost predicate UserReads(m: Mapping, mem: seq<Byte>, v: nat, b: Byte) {
    && m.space.Valid() && v < 0x1_0000_0000
    && var t := Translate(m.base, m.pid, m.space, v);
       t.Mapped? && t.user && t.phys < |mem| && mem[t.phys] == b
  }

  /** A program fits if its image ends within the 4 MB page of its process. */
  predicate Fits(f: Inode) {
    f.length <= ROOM
  }

  lemma ProgramTranslates(m: Mapping, i: nat)
    requires Ready(m) && i < ROOM
    ensures Translate(m.base, m.pid, m.space, PROGRAM_VIRTUAL + i) == Mapped(ProgramStart(m.pid) + i, true)
  {
    var v := PROGRAM_VIRTUAL + i;
    InitTranslates(m.base, m.pid, m.space, v);
    DivModUnique(v, 32, 0x4_8000 + i, 0x40_0000);
  }

  /** The 4 MB page of a process. */
  predicate OwnPage(pid: int, a: int) {
    (1 + pid) * 0x40_0000 <= a < (2 + pid) * 0x40_0000
  }

  /** The storage that kmalloc hands out, 192 to 216 MB. */
  predicate InHeap(a: int) {
    0xC00_0000 <= a < 0xD80_0000
  }

  /**
    A program is in place: its process reads it in user mode from 0x08048000 on, no byte
    outside its page has changed, so none of another process, and for pids up to 46 none of
    the kmalloc storage.
   */
  ghost predicate Installed(m: Mapping, before: seq<Byte>, now: seq<Byte>, program: seq<Byte>) {
    && |before| == |now|
    && (forall i :: 0 <= i < |program| ==> UserReads(m, now, PROGRAM_VIRTUAL + i, program[i]))
    && (forall a :: 0 <= a < |now| && !OwnPage(m.pid, a) ==> now[a] == before[a])
    && (forall a, other: nat :: 0 <= a < |now| && OwnPage(other, a) && other != m.pid ==> now[a] == before[a])
    && (m.pid <= 46 ==> forall a :: 0 <= a < |now| && InHeap(a) ==> now[a] == before[a])
  }

  lemma ProgramIsInstalled(m: Mapping, before: seq<Byte>, program: seq<Byte>)
    requires Ready(m) && |before| == PHYSICAL && |program| <= ROOM
    ensures Installed(m, before, Stored(m.pid, before, program), program)
  {
    hide Built;
    var now, start := Stored(m.pid, before, program), ProgramStart(m.pid);
    forall i | 0 <= i < |program| ensures UserReads(m, now, PROGRAM_VIRTUAL + i, program[i]) {
      ProgramTranslates(m, i);
    }
    forall a | 0 <= a < |now| && !OwnPage(m.pid, a) ensures now[a] == before[a] {
      assert a < start || a >= start + |program|;
    }
    forall a, other: nat | 0 <= a < |now| && OwnPage(other, a) && other != m.pid ensures now[a] == before[a] {
      PagesDisjoint(m.pid, other, a);
    }
    if m.pid <= 46 {
      PageClearOfHeapIff(m.pid);
    }
  }

  /** What is stored of a program lands in the page of its process exactly if it fits, or nothing else is mapped after that page. */
  lemma LoadStaysInPageIff(pid: nat, n: nat)
    requires 1 <= pid && n <= 0x40_0000
    ensures (forall i: nat :: i < n && Landing(pid, i) >= 0 ==> OwnPage(pid, Landing(pid, i))) <==> n <= ROOM || !NextPageMapped(pid)
  {
    if n > ROOM {
      assert NextPageMapped(pid) ==> Landing(pid, ROOM) >= 0 && !OwnPage(pid, Landing(pid, ROOM));
    }
  }

  /** A program overwrites kmalloc storage exactly for pids 47 to 52, and for pid 46 when it does not fit its page. */
  lemma LoadHitsHeapIff(pid: nat, n: nat)
    requires 1 <= pid && 0 < n <= 0x40_0000
    ensures (exists i: nat :: i < n && InHeap(Landing(pid, i))) <==> 47 <= pid <= 52 || (pid == 46 && n > ROOM)
  {
    if 47 <= pid <= 52 {
      assert InHeap(Landing(pid, 0));
    } else if pid == 46 && n > ROOM {
      assert InHeap(Landing(pid, ROOM));
    }
  }

  lemma PagesDisjoint(pid: nat, other: nat, a: int)
    requires pid != other
    ensures !(OwnPage(pid, a) && OwnPage(other, a))
  {
    if pid < other {
      MulAtLeast(other - pid, 0x40_0000);
    } else {
      MulAtLeast(pid - other, 0x40_0000);
    }
  }

  /** Process pages keep clear of the kmalloc storage except for pids 47 to 52. */
  lemma PageClearOfHeapIff(pid: nat)
    ensures (forall a :: OwnPage(pid, a) ==> !InHeap(a)) <==> pid < 47 || pid > 52
  {
    if 47 <= pid <= 52 {
      assert OwnPage(pid, (1 + pid) * 0x40_0000);
    }
  }
}
