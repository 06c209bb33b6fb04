/**
  File descriptors (student-distrib/syscall.c) and streaming reads through them
  (file_read in student-distrib/fs.c), for one process.
 */
module Descriptors {
  import opened Machine
  import opened FileSystem

  const MAX_FILES: nat := 8
  const STDIN: int := 0
  const STDOUT: int := 1
  const NAME_MAX: nat := 32

  datatype EntryType = RtcEntry | DirectoryEntry | FileEntry

  /** A directory entry; the name is padded with NUL bytes unless it fills its 32 bytes. */
  datatype Dentry = Dentry(name: seq<Byte>, kind: EntryType, inode: nat)

  datatype Image = Image(dentries: seq<Dentry>, inodes: seq<Inode>, disk: Disk) {
    ghost predicate Valid() {
      && (forall i :: 0 <= i < |dentries| ==> |dentries[i].name| == NAME_MAX && dentries[i].inode < |inodes|)
      && (forall i :: 0 <= i < |inodes| ==> inodes[i].Valid() && inodes[i].length < WORD)
    }
  }

  datatype Kind = Terminal | Rtc | Directory(inode: nat) | Regular(inode: nat)

  datatype Fd = Fd(inUse: bool, kind: Kind, pos: nat, canRead: bool, canWrite: bool)

  type Table = t: seq<Fd> | |t| == MAX_FILES witness seq(MAX_FILES, _ => Fd(false, Terminal, 0, false, false))

  // ---------------------------------------------------------------- names

  /** strncmp with a limit of 32 finds no difference. */
  predicate Matches(fname: seq<Byte>, name: seq<Byte>)
    requires |name| == NAME_MAX
  {
    |fname| <= NAME_MAX && name[..|fname|] == fname && (|fname| < NAME_MAX ==> name[|fname|] == 0)
  }

  /** strncmp of a file name with a directory entry, as an equality test. */
  method SameName(fname: seq<Byte>, name: seq<Byte>) returns (same: bool)
    requires |name| == NAME_MAX && NulFree(fname)
    ensures same <==> if |fname| <= NAME_MAX then Matches(fname, name) else fname[..NAME_MAX] == name
  {
    var i := 0;
    while i < NAME_MAX
      invariant 0 <= i <= NAME_MAX && i <= |fname|
      invariant fname[..i] == name[..i]
    {
      var c := if i < |fname| then fname[i] else 0;
      if c != name[i] || c == 0 {
        assert i < |fname| ==> c != 0 && fname[i] != name[i];
        return c == name[i];
      }
      assert fname[..i + 1] == fname[..i] + [c] && name[..i + 1] == name[..i] + [c];
      i := i + 1;
    }
    assert name[..NAME_MAX] == name;
    return true;
  }

  /** The first entry with the name, if the name has between 1 and 32 bytes. */
  function Lookup(es: seq<Dentry>, fname: seq<Byte>): (i: nat)
    requires forall i :: 0 <= i < |es| ==> |es[i].name| == NAME_MAX
    ensures i <= |es|
    ensures i < |es| ==> Matches(fname, es[i].name)
    ensures forall j :: 0 <= j < i ==> !Matches(fname, es[j].name)
  {
    if es == [] || Matches(fname, es[0].name) then 0 else 1 + Lookup(es[1..], fname)
  }

  /** read_dentry_by_name: the index of the entry, or -1. */
  method ReadDentryByName(img: Image, fname: seq<Byte>) returns (r: int)
    requires img.Valid() && NulFree(fname)
    ensures r == if 1 <= |fname| <= NAME_MAX && Lookup(img.dentries, fname) < |img.dentries| then Lookup(img.dentries, fname) else -1
  {
    if |fname| < 1 || |fname| > NAME_MAX {
      return -1;
    }
    var i := 0;
    while i < |img.dentries|
      invariant 0 <= i <= |img.dentries|
      invariant forall j :: 0 <= j < i ==> !Matches(fname, img.dentries[j].name)
    {
      var same := SameName(fname, img.dentries[i].name);
      if same {
        return i;
      }
      i := i + 1;
    }
    return -1;
  }

  // ---------------------------------------------------------------- calls as functions of the table

  /** find_new_fd: the lowest descriptor that is free, or the length of the table. */
  function FreeFd(t: seq<Fd>): (i: nat)
    ensures i <= |t|
    ensures i < |t| ==> !t[i].inUse
    ensures forall j :: 0 <= j < i ==> t[j].inUse
  {
    if t == [] || !t[0].inUse then 0 else 1 + FreeFd(t[1..])
  }

  predicate ValidFd(t: Table, fd: int) {
    0 <= fd < MAX_FILES && t[fd].inUse
  }

  const STDIN_NAME: string := "/dev/stdin"
  const STDOUT_NAME: string := "/dev/stdout"
  const RTC_NAME: string := "/dev/rtc"

  /** What a name stands for: one of three devices, or an entry of the file system. */
  datatype Target = StdinPath | StdoutPath | RtcPath | Path(name: seq<Byte>)

  function TargetOf(name: seq<Byte>): Target {
    if name == AsBytes(STDIN_NAME) then StdinPath
    else if name == AsBytes(STDOUT_NAME) then StdoutPath
    else if name == AsBytes(RTC_NAME) then RtcPath
    else Path(name)
  }

  /** strncmp of a name with that of a device, which is shorter than the limit of 100. */
  method SameDevice(name: seq<Byte>, device: string) returns (same: bool)
    requires NulFree(name) && NulFree(AsBytes(device)) && |device| < 100
    ensures same <==> name == AsBytes(device)
  {
    var d := AsBytes(device);
    var i := 0;
    while i < 100
      invariant 0 <= i <= 100 && i <= |name| && i <= |d|
      invariant name[..i] == d[..i]
    {
      var a, b := if i < |name| then name[i] else 0, if i < |d| then d[i] else 0;
      if a != b || a == 0 {
        return a == b;
      }
      assert name[..i + 1] == name[..i] + [a] && d[..i + 1] == d[..i] + [b];
      i := i + 1;
    }
    return true;
  }

  /** What an open of a name in the file system yields, before a descriptor is found for it. */
  function Opened(e: Dentry): Fd {
    match e.kind
    case DirectoryEntry => Fd(true, Directory(e.inode), 0, true, false)
    case FileEntry => Fd(true, Regular(e.inode), 0, true, false)
    case RtcEntry => Fd(true, Rtc, 0, true, true)
  }

  function Install(t: Table, f: Fd): (Table, int) {
    if FreeFd(t) == MAX_FILES then (t, -1) else (t[FreeFd(t) := f], FreeFd(t))
  }

  function Open(img: Image, t: Table, path: seq<Byte>): (Table, int)
    requires forall i :: 0 <= i < |img.dentries| ==> |img.dentries[i].name| == NAME_MAX
  {
    match TargetOf(path)
    case StdinPath => (t[STDIN := Fd(true, Terminal, 0, true, false)], STDIN)
    case StdoutPath => (t[STDOUT := Fd(true, Terminal, 0, false, true)], STDOUT)
    case RtcPath => Install(t, Fd(true, Rtc, 0, true, true))
    case Path(name) =>
      if 1 <= |name| <= NAME_MAX && Lookup(img.dentries, name) < |img.dentries|
      then Install(t, Opened(img.dentries[Lookup(img.dentries, name)]))
      else (t, -1)
  }

  /** Refuses to close standard input and output. */
  function Close(t: Table, fd: int): (Table, int) {
    if ValidFd(t, fd) && fd != STDIN && fd != STDOUT then (t[fd := t[fd].(inUse := false)], 0) else (t, -1)
  }

  /** Whether read_data can answer a request in full. */
  ghost predicate Answerable(d: Disk, f: Inode, pos: nat, n: int) {
    !f.TooLong() && Readable(d, f, pos, pos + Wanted(f, pos, n))
  }

  /** The bytes that a read of a regular file delivers. */
  ghost function Delivered(d: Disk, f: Inode, pos: nat, n: int): seq<Byte> {
    if Answerable(d, f, pos, n) then Bytes(d, f, pos, Wanted(f, pos, n)) else []
  }

  /** file_read adds what read_data returned to the position, a 32-bit unsigned number, even when that is -1. */
  ghost function NewPos(d: Disk, f: Inode, pos: nat, n: int): nat {
    (pos + (if Answerable(d, f, pos, n) then Wanted(f, pos, n) else -1)) % 0x1_0000_0000
  }

  /**
    A file position counts the bytes delivered exactly when the request can be answered; a
    request that meets a missing block moves it back by one.
   */
  lemma NewPosIff(d: Disk, f: Inode, pos: nat, n: int)
    requires pos < WORD && f.length < WORD
    ensures NewPos(d, f, pos, n) == pos + |Delivered(d, f, pos, n)| <==> Answerable(d, f, pos, n)
  {
    if Answerable(d, f, pos, n) {
      assert pos + Wanted(f, pos, n) < WORD;
    } else if pos == 0 {
      DivModUnique(-1, -1, 0xFFFF_FFFF, 0x1_0000_0000);
    }
  }

  /** A file whose second block does not exist: a first read gets to position 4096, the next one back to 4095. */
  lemma FailedReadMovesBack(block: Block) returns (f: Inode)
    ensures f.Valid() && f.length == 5000
    ensures NewPos([block], f, 0, 4096) == 4096 && |Delivered([block], f, 0, 4096)| == 4096
    ensures NewPos([block], f, 4096, 1) == 4095 && Delivered([block], f, 4096, 1) == []
  {
    f := Inode(5000, seq(LISTED + 1, i requires 0 <= i < LISTED + 1 => i));
    assert Readable([block], f, 0, 0 + 4096);
    assert !Present([block], f, 4096);
    assert !Readable([block], f, 4096, 4096 + 1);
  }

  ghost function AfterRead(img: Image, t: Table, fd: int, n: int): Table
    requires img.Valid()
  {
    if !ValidFd(t, fd) || !t[fd].canRead then t
    else match t[fd].kind
      case Terminal => t
      case Rtc => t
      case Directory(_) => t[fd := t[fd].(pos := (t[fd].pos + 1) % 0x1_0000_0000)]
      case Regular(ino) =>
        if ino < |img.inodes| then t[fd := t[fd].(pos := NewPos(img.disk, img.inodes[ino], t[fd].pos, n))] else t
  }

  // ---------------------------------------------------------------- runs

  datatype Op = DoOpen(path: seq<Byte>) | DoRead(fd: int, n: int) | DoClose(fd: int)

  ghost function Step(img: Image, t: Table, op: Op): Table
    requires img.Valid()
  {
    match op
    case DoOpen(path) => Open(img, t, path).0
    case DoRead(fd, n) => AfterRead(img, t, fd, n)
    case DoClose(fd) => Close(t, fd).0
  }

  ghost function After(img: Image, t: Table, ops: seq<Op>): Table
    requires img.Valid()
    decreases |ops|
  {
    if ops == [] then t else After(img, Step(img, t, ops[0]), ops[1..])
  }

  /** What one step delivers to the stream of a descriptor. */
  ghost function Piece(img: Image, t: Table, op: Op, k: nat): seq<Byte> {
    if op.DoRead? && op.fd == k && OpenRegular(img, t, k)
    then Delivered(img.disk, img.inodes[t[k].kind.inode], t[k].pos, op.n) else []
  }

  /** Everything that the reads of descriptor k in a run deliver. */
  ghost function Stream(img: Image, t: Table, ops: seq<Op>, k: nat): seq<Byte>
    requires img.Valid() && k < MAX_FILES
    decreases |ops|
  {
    if ops == [] then [] else Piece(img, t, ops[0], k) + Stream(img, Step(img, t, ops[0]), ops[1..], k)
  }

  ghost predicate OpenRegular(img: Image, t: Table, k: nat) {
    k < MAX_FILES && t[k].inUse && t[k].canRead && t[k].kind.Regular? && t[k].kind.inode < |img.inodes|
  }

  /** Standard input and output are open. */
  ghost predicate StdOpen(t: Table) {
    t[STDIN].inUse && t[STDOUT].inUse
  }

  lemma StepKeepsStd(img: Image, t: Table, op: Op)
    requires img.Valid() && StdOpen(t)
    ensures StdOpen(Step(img, t, op))
  {
  }

  /** Descriptors 0 and 1 stay open over every run. */
  lemma {:induction false} StdStaysOpen(img: Image, t: Table, ops: seq<Op>)
    requires img.Valid() && StdOpen(t)
    ensures StdOpen(After(img, t, ops))
    decreases |ops|
  {
    if ops != [] {
      StepKeepsStd(img, t, ops[0]);
      StdStaysOpen(img, Step(img, t, ops[0]), ops[1..]);
    }
  }

  /** The file behind an open descriptor is sound and its position lies within it. */
  ghost predicate Streaming(img: Image, t: Table, k: nat) {
    && OpenRegular(img, t, k)
    && Sound(img.disk, img.inodes[t[k].kind.inode])
    && t[k].pos <= img.inodes[t[k].kind.inode].length
  }

  lemma SoundAnswers(d: Disk, f: Inode, pos: nat, n: int)
    requires Sound(d, f) && pos <= f.length < WORD
    ensures Answerable(d, f, pos, n)
    ensures Delivered(d, f, pos, n) == Contents(d, f)[pos..pos + Wanted(f, pos, n)]
    ensures NewPos(d, f, pos, n) == pos + Wanted(f, pos, n) <= f.length
  {
    BytesSlice(d, f, pos, Wanted(f, pos, n));
    NewPosIff(d, f, pos, n);
  }

  /** Only a read of a descriptor moves its position, and only a close takes it away. */
  lemma StepStreaming(img: Image, t: Table, op: Op, k: nat)
    requires img.Valid() && StdOpen(t) && k >= 2 && Streaming(img, t, k) && op != DoClose(k)
    ensures var t' := Step(img, t, op);
      && Streaming(img, t', k) && t'[k].kind == t[k].kind
      && t'[k].pos == if op.DoRead? && op.fd == k
                      then NewPos(img.disk, img.inodes[t[k].kind.inode], t[k].pos, op.n) else t[k].pos
  {
    var f := img.inodes[t[k].kind.inode];
    if op.DoRead? && op.fd == k {
      SoundAnswers(img.disk, f, t[k].pos, op.n);
    }
  }

  lemma RunStep(img: Image, t: Table, ops: seq<Op>, k: nat)
    requires img.Valid() && k < MAX_FILES && ops != []
    ensures After(img, t, ops) == After(img, Step(img, t, ops[0]), ops[1..])
    ensures Stream(img, t, ops, k) == Piece(img, t, ops[0], k) + Stream(img, Step(img, t, ops[0]), ops[1..], k)
  {
    hide Step, Delivered, Image.Valid;
  }

  /** A step, seen from a descriptor that it does not close. */
  lemma PieceIsSlice(img: Image, t: Table, op: Op, k: nat)
    requires img.Valid() && StdOpen(t) && k >= 2 && Streaming(img, t, k) && op != DoClose(k)
    ensures var f, t1 := img.inodes[t[k].kind.inode], Step(img, t, op);
      && StdOpen(t1) && Streaming(img, t1, k) && t1[k].kind == t[k].kind
      && t[k].pos <= t1[k].pos <= f.length && Sound(img.disk, f)
      && Piece(img, t, op, k) == Contents(img.disk, f)[t[k].pos..t1[k].pos]
  {
    var f := img.inodes[t[k].kind.inode];
    StepKeepsStd(img, t, op);
    StepStreaming(img, t, op, k);
    hide Step, Contents, Delivered, NewPos, StdOpen, Sound;
    if op.DoRead? && op.fd == k {
      SoundAnswers(img.disk, f, t[k].pos, op.n);
    }
  }

  lemma SlicesJoin(c: seq<Byte>, i: nat, j: nat, k: nat)
    requires i <= j <= k <= |c|
    ensures c[i..j] + c[j..k] == c[i..k]
  {
  }

  lemma StreamingFile(img: Image, t: Table, k: nat)
    requires Streaming(img, t, k)
    ensures OpenRegular(img, t, k) && Sound(img.disk, img.inodes[t[k].kind.inode])
    ensures t[k].pos <= img.inodes[t[k].kind.inode].length == |Contents(img.disk, img.inodes[t[k].kind.inode])|
  {
  }

  /**
    Whatever is opened, read and closed through other descriptors, the reads of one
    descriptor deliver the file in order without a gap or a repetition: their results,
    one after the other, are the bytes between its first and its last position.
   */
  lemma {:induction false} StreamIsSlice(img: Image, t: Table, ops: seq<Op>, k: nat)
    requires img.Valid() && StdOpen(t) && k >= 2 && Streaming(img, t, k) && DoClose(k) !in ops
    ensures var t' := After(img, t, ops);
      && Streaming(img, t', k) && t'[k].kind == t[k].kind && t[k].pos <= t'[k].pos
      && Stream(img, t, ops, k) == Contents(img.disk, img.inodes[t[k].kind.inode])[t[k].pos..t'[k].pos]
    decreases |ops|
  {
    StreamingFile(img, t, k);
    if ops != [] {
      hide Streaming, OpenRegular, Sound, Step, After, Stream, Contents, StdOpen, Piece;
      var t1, f := Step(img, t, ops[0]), img.inodes[t[k].kind.inode];
      assert ops[0] in ops;
      PieceIsSlice(img, t, ops[0], k);
      RunStep(img, t, ops, k);
      StreamIsSlice(img, t1, ops[1..], k);
      StreamingFile(img, After(img, t, ops), k);
      SlicesJoin(Contents(img.disk, f), t[k].pos, t1[k].pos, After(img, t, ops)[k].pos);
    }
  }

  /** A read for a positive number of bytes delivers nothing exactly at the end of the file. */
  lemma ZeroExactlyAtEnd(d: Disk, f: Inode, pos: nat, n: int)
    requires Sound(d, f) && pos <= f.length < WORD && n > 0
    ensures |Delivered(d, f, pos, n)| == 0 <==> pos == f.length
  {
    SoundAnswers(d, f, pos, n);
  }

  /** Bytes asked for through a descriptor over a run. */
  function Asked(ops: seq<Op>, k: nat): int {
    if ops == [] then 0 else (if ops[0].DoRead? && ops[0].fd == k then ops[0].n else 0) + Asked(ops[1..], k)
  }

  ghost predicate Positive(ops: seq<Op>, k: nat) {
    forall i :: 0 <= i < |ops| && ops[i].DoRead? && ops[i].fd == k ==> ops[i].n > 0
  }

  /** How far a step moves a descriptor. */
  lemma StepMoves(img: Image, t: Table, op: Op, k: nat)
    requires img.Valid() && StdOpen(t) && k >= 2 && Streaming(img, t, k) && op != DoClose(k)
    requires op.DoRead? && op.fd == k ==> op.n > 0
    ensures var t' := Step(img, t, op);
      && Streaming(img, t', k) && t'[k].kind == t[k].kind
      && t'[k].pos == Min(img.inodes[t[k].kind.inode].length, t[k].pos + if op.DoRead? && op.fd == k then op.n else 0)
  {
    hide Step, Delivered, StdOpen;
    StepStreaming(img, t, op, k);
    if op.DoRead? && op.fd == k {
      SoundAnswers(img.disk, img.inodes[t[k].kind.inode], t[k].pos, op.n);
    }
  }

  /** With positive sizes the chunking does not matter: only the sum of the sizes does. */
  lemma {:induction false} ChunkingIrrelevant(img: Image, t: Table, ops: seq<Op>, k: nat)
    requires img.Valid() && StdOpen(t) && k >= 2 && Streaming(img, t, k) && DoClose(k) !in ops && Positive(ops, k)
    ensures Asked(ops, k) >= 0
    ensures After(img, t, ops)[k].pos == Min(img.inodes[t[k].kind.inode].length, t[k].pos + Asked(ops, k))
    decreases |ops|
  {
    if ops != [] {
      hide Step, NewPos, Delivered, Sound, StdOpen, Image.Valid;
      StepKeepsStd(img, t, ops[0]);
      StepMoves(img, t, ops[0], k);
      assert Positive(ops[1..], k);
      ChunkingIrrelevant(img, Step(img, t, ops[0]), ops[1..], k);
    }
  }

  /**
    A name that opens, other than those of standard input and output, gets the lowest free
    descriptor, above theirs, at position 0.
   */
  lemma OpenIsFresh(img: Image, t: Table, name: seq<Byte>)
    requires img.Valid() && StdOpen(t) && name != AsBytes(STDIN_NAME) && name != AsBytes(STDOUT_NAME)
    ensures var (t', fd) := Open(img, t, name);
      && (fd == -1 ==> t' == t)
      && (fd != -1 ==>
           && 2 <= fd < MAX_FILES && !t[fd].inUse && (forall j :: 0 <= j < fd ==> t[j].inUse)
           && t'[fd].inUse && t'[fd].pos == 0
           && (forall j :: 0 <= j < MAX_FILES && j != fd ==> t'[j] == t[j]))
  {
  }

  // ---------------------------------------------------------------- from a name to what its reads deliver

  /** The bytes of an entry up to the first NUL, or all of them, are the name. */
  ghost predicate Bears(entry: seq<Byte>, name: seq<Byte>) {
    exists rest: seq<Byte> :: entry + [0] == name + [0] + rest
  }

  lemma BearsIff(entry: seq<Byte>, name: seq<Byte>)
    requires |entry| == NAME_MAX && NulFree(name)
    ensures Matches(name, entry) <==> Bears(entry, name)
  {
    var e := entry + [0];
    if Matches(name, entry) {
      assert e[..|name|] == name && e[|name|] == 0;
      assert e == name + [0] + e[|name| + 1..];
    }
    if rest: seq<Byte> :| e == name + [0] + rest {
      assert |name| <= NAME_MAX && entry[..|name|] == e[..|name|] == name;
      assert e[|name|] == 0;
    }
  }

  /** A name padded with NULs bears that name. */
  lemma PaddedBears(name: seq<Byte>)
    requires |name| <= NAME_MAX
    ensures Bears(name + seq(NAME_MAX - |name|, _ => 0), name)
  {
    var zeros: seq<Byte> := seq(NAME_MAX - |name|, _ => 0);
    assert (name + zeros) + [0] == name + [0] + zeros;
  }

  /** Entry i is the first one that bears the name. */
  ghost predicate FirstNamed(img: Image, name: seq<Byte>, i: nat) {
    && i < |img.dentries| && Bears(img.dentries[i].name, name)
    && forall j :: 0 <= j < i ==> !Bears(img.dentries[j].name, name)
  }

  /** None of the three names that are looked at before the file system. */
  ghost predicate Ordinary(name: seq<Byte>) {
    name != AsBytes("/dev/stdin") && name != AsBytes("/dev/stdout") && name != AsBytes("/dev/rtc")
  }

  lemma LookupIs(img: Image, name: seq<Byte>, i: nat)
    requires img.Valid() && NulFree(name)
    ensures FirstNamed(img, name, i) ==> Lookup(img.dentries, name) == i
    ensures Lookup(img.dentries, name) < |img.dentries| ==> FirstNamed(img, name, Lookup(img.dentries, name))
  {
    forall j | 0 <= j < |img.dentries| ensures Matches(name, img.dentries[j].name) <==> Bears(img.dentries[j].name, name) {
      BearsIff(img.dentries[j].name, name);
    }
    hide Bears, Matches;
  }

  /**
    A name is opened as its first entry says: a file to be read, not written, a directory to
    be read, the clock for both, at position 0 on the lowest free descriptor. It fails
    exactly when all descriptors are in use.
   */
  lemma OpenNamed(img: Image, t: Table, name: seq<Byte>, i: nat)
    requires img.Valid() && StdOpen(t) && NulFree(name) && 1 <= |name| <= NAME_MAX && Ordinary(name) && FirstNamed(img, name, i)
    ensures var (t', fd) := Open(img, t, name);
      && (fd == -1 <==> forall k :: 0 <= k < MAX_FILES ==> t[k].inUse)
      && (fd == -1 ==> t' == t)
      && (fd != -1 ==>
           && 2 <= fd < MAX_FILES && !t[fd].inUse && (forall k :: 0 <= k < fd ==> t[k].inUse)
           && t' == t[fd := t'[fd]] && t'[fd].inUse && t'[fd].pos == 0 && t'[fd].canRead
           && match img.dentries[i].kind
              case FileEntry => t'[fd].kind == Regular(img.dentries[i].inode) && !t'[fd].canWrite
              case DirectoryEntry => t'[fd].kind == Directory(img.dentries[i].inode) && !t'[fd].canWrite
              case RtcEntry => t'[fd].kind == Rtc && t'[fd].canWrite)
  {
    LookupIs(img, name, i);
    hide FirstNamed, Lookup;
  }

  /** Names that are empty, too long or borne by no entry do not open. */
  lemma OpenAbsent(img: Image, t: Table, name: seq<Byte>)
    requires img.Valid() && NulFree(name) && Ordinary(name)
    requires |name| < 1 || |name| > NAME_MAX || forall i: nat :: !FirstNamed(img, name, i)
    ensures Open(img, t, name) == (t, -1)
  {
    LookupIs(img, name, 0);
    hide FirstNamed, Lookup;
  }

  /** The terminals open on descriptors 0 and 1, one to be read and one to be written; the clock for both on a free one. */
  lemma OpenDevice(img: Image, t: Table)
    requires img.Valid()
    ensures Open(img, t, AsBytes("/dev/stdin")) == (t[0 := Fd(true, Terminal, 0, true, false)], 0)
    ensures Open(img, t, AsBytes("/dev/stdout")) == (t[1 := Fd(true, Terminal, 0, false, true)], 1)
    ensures var (t', fd) := Open(img, t, AsBytes("/dev/rtc"));
      && (fd == -1 <==> forall k :: 0 <= k < MAX_FILES ==> t[k].inUse)
      && (fd == -1 ==> t' == t)
      && (fd != -1 ==> 0 <= fd < MAX_FILES && !t[fd].inUse && t' == t[fd := Fd(true, Rtc, 0, true, true)])
  {
    DeviceNames();
    hide AsBytes;
  }

  lemma DeviceNames()
    ensures AsBytes("/dev/stdin") != AsBytes("/dev/stdout")
    ensures AsBytes("/dev/rtc") != AsBytes("/dev/stdin") && AsBytes("/dev/rtc") != AsBytes("/dev/stdout")
  {
    assert |AsBytes("/dev/rtc")| == 8 && |AsBytes("/dev/stdin")| == 10 && |AsBytes("/dev/stdout")| == 11;
  }

  /**
    What is opened under the name of a sound file and read, whatever happens on other
    descriptors, is that file from its start to the position reached; with positive request
    sizes that is their sum, or the end of the file.
   */
  lemma FileDelivers(img: Image, t: Table, name: seq<Byte>, i: nat, ops: seq<Op>)
    requires img.Valid() && StdOpen(t) && NulFree(name) && 1 <= |name| <= NAME_MAX && Ordinary(name) && FirstNamed(img, name, i)
    requires img.dentries[i].kind == FileEntry && Sound(img.disk, img.inodes[img.dentries[i].inode])
    requires (exists k :: 0 <= k < MAX_FILES && !t[k].inUse) && DoClose(Open(img, t, name).1) !in ops
    ensures var (t', fd) := Open(img, t, name); var c := Contents(img.disk, img.inodes[img.dentries[i].inode]);
      && 2 <= fd < MAX_FILES
      && var end := After(img, t', ops)[fd].pos;
         && end <= |c| && Stream(img, t', ops, fd) == c[..end]
         && (Positive(ops, fd) ==> end == Min(|c|, Asked(ops, fd)))
  {
    hide Open, Stream, After, Contents, Sound, Positive, Asked;
    OpenNamed(img, t, name, i);
    var (t', fd) := Open(img, t, name);
    StreamIsSlice(img, t', ops, fd);
    StreamingFile(img, After(img, t', ops), fd);
    hide StdOpen;
    if Positive(ops, fd) {
      ChunkingIrrelevant(img, t', ops, fd);
    }
  }

  /** Of a sound file a read for n bytes delivers the next n or those that are left, and all that are left for a negative n. */
  lemma ReadGives(d: Disk, f: Inode, pos: nat, n: int)
    requires Sound(d, f) && pos <= f.length < WORD
    ensures Delivered(d, f, pos, n) == Contents(d, f)[pos..if n < 0 then f.length else Min(f.length, pos + n)]
    ensures NewPos(d, f, pos, n) == if n < 0 then f.length else Min(f.length, pos + n)
  {
    SoundAnswers(d, f, pos, n);
  }

  /** A read moves at most the position of its own descriptor; that of a directory goes on by one entry. */
  lemma ReadTouches(img: Image, t: Table, fd: int, n: int)
    requires img.Valid()
    ensures var t' := Step(img, t, DoRead(fd, n));
      && (forall k :: 0 <= k < MAX_FILES && k != fd ==> t'[k] == t[k])
      && (0 <= fd < MAX_FILES ==> t'[fd] == t[fd].(pos := t'[fd].pos))
      && (0 <= fd < MAX_FILES && t[fd].inUse && t[fd].canRead && t[fd].kind.Directory? ==> t'[fd].pos == (t[fd].pos + 1) % WORD)
      && (0 <= fd < MAX_FILES && (!t[fd].inUse || !t[fd].canRead || t[fd].kind in {Terminal, Rtc}) ==> t' == t)
  {
  }

  /** A close frees a descriptor that is in use, above those of the terminals, and leaves the others alone. */
  lemma CloseFrees(t: Table, fd: int)
    ensures if 2 <= fd < MAX_FILES && t[fd].inUse
      then var (t', r) := Close(t, fd); r == 0 && !t'[fd].inUse && forall k :: 0 <= k < MAX_FILES && k != fd ==> t'[k] == t[k]
      else Close(t, fd) == (t, -1)
  {
  }

  /** The next open can have what was closed, and has it when all lower descriptors are in use. */
  lemma ClosedIsReused(img: Image, t: Table, fd: int, name: seq<Byte>, i: nat)
    requires img.Valid() && NulFree(name) && 1 <= |name| <= NAME_MAX && Ordinary(name) && FirstNamed(img, name, i)
    requires 2 <= fd < MAX_FILES && forall k :: 0 <= k <= fd ==> t[k].inUse
    ensures Open(img, Close(t, fd).0, name).1 == fd
  {
    CloseFrees(t, fd);
    hide Close, Open, FirstNamed;
    OpenNamed(img, Close(t, fd).0, name, i);
  }

  // ---------------------------------------------------------------- the system calls

  class Process {
    const openFiles: array<Fd>

    constructor ()
      ensures fresh(openFiles) && openFiles.Length == MAX_FILES && StdOpen(openFiles[..])
    {
      openFiles := new Fd[MAX_FILES](i =>
        if i == STDIN then Fd(true, Terminal, 0, true, false)
        else Fd(i == STDOUT, Terminal, 0, false, true));
    }

    method FindNewFd() returns (fd: int)
      requires openFiles.Length == MAX_FILES
      ensures fd == if FreeFd(openFiles[..]) == MAX_FILES then -1 else FreeFd(openFiles[..])
    {
      fd := 0;
      while fd < MAX_FILES
        invariant 0 <= fd <= MAX_FILES
        invariant forall j :: 0 <= j < fd ==> openFiles[..][j].inUse
      {
        if !openFiles[fd].inUse {
          return;
        }
        fd := fd + 1;
      }
      fd := -1;
    }

    method InstallFd(f: Fd) returns (fd: int)
      requires openFiles.Length == MAX_FILES
      modifies openFiles
      ensures (openFiles[..], fd) == Install(old(openFiles[..]), f)
    {
      fd := FindNewFd();
      if fd >= 0 {
        openFiles[fd] := f;
      }
    }

    method SyscallOpen(img: Image, name: seq<Byte>) returns (fd: int)
      requires openFiles.Length == MAX_FILES && img.Valid() && NulFree(name)
      modifies openFiles
      ensures (openFiles[..], fd) == Open(img, old(openFiles[..]), name)
    {
      var isStdin := SameDevice(name, STDIN_NAME);
      if isStdin {
        openFiles[STDIN] := Fd(true, Terminal, 0, true, false);
        return STDIN;
      }
      var isStdout := SameDevice(name, STDOUT_NAME);
      if isStdout {
        openFiles[STDOUT] := Fd(true, Terminal, 0, false, true);
        return STDOUT;
      }
      var isRtc := SameDevice(name, RTC_NAME);
      if isRtc {
        fd := InstallFd(Fd(true, Rtc, 0, true, true));
        return;
      }
      var i := ReadDentryByName(img, name);
      if i < 0 {
        return -1;
      }
      fd := InstallFd(Opened(img.dentries[i]));
    }

    method SyscallClose(fd: int) returns (r: int)
      requires openFiles.Length == MAX_FILES
      modifies openFiles
      ensures (openFiles[..], r) == Close(old(openFiles[..]), fd)
    {
      if 0 <= fd < MAX_FILES && openFiles[fd].inUse && fd != STDIN && fd != STDOUT {
        openFiles[fd] := openFiles[fd].(inUse := false);
        return 0;
      }
      return -1;
    }

    /** file_read on a descriptor of a regular file. */
    method FileRead(d: Disk, f: Inode, fd: nat, buf: array<Byte>, n: int) returns (r: int)
      requires openFiles.Length == MAX_FILES && fd < MAX_FILES && f.Valid() && f.length < WORD && openFiles[fd].pos < WORD
      requires -0x8000_0000 <= n < 0x8000_0000
      requires !f.TooLong() ==> Wanted(f, openFiles[fd].pos, n) <= buf.Length
      modifies openFiles, buf
      ensures openFiles[..] == old(openFiles[..])[fd := old(openFiles[fd]).(pos := NewPos(d, f, old(openFiles[fd].pos), n))]
      ensures r == if Answerable(d, f, old(openFiles[fd].pos), n) then |Delivered(d, f, old(openFiles[fd].pos), n)| else -1
      ensures r >= 0 ==> r <= buf.Length && buf[..r] == Delivered(d, f, old(openFiles[fd].pos), n)
    {
      var pos := openFiles[fd].pos;
      ghost var good;
      r, good := ReadData(d, f, pos, buf, 0, n);
      AnswersIff(d, f, pos, n, good, r);
      openFiles[fd] := openFiles[fd].(pos := (pos + r) % 0x1_0000_0000);
    }

    /** syscall_read, with the buffer as the caller describes it; other kinds of files only move their position. */
    method SyscallRead(img: Image, fd: int, buf: array<Byte>, n: int) returns (r: int)
      requires openFiles.Length == MAX_FILES && img.Valid() && -0x8000_0000 <= n < 0x8000_0000
      requires forall k :: 0 <= k < MAX_FILES ==> openFiles[k].pos < WORD
      requires OpenRegular(img, openFiles[..], if fd < 0 then MAX_FILES else fd) ==>
        var f := img.inodes[openFiles[fd].kind.inode];
        !f.TooLong() ==> Wanted(f, openFiles[fd].pos, n) <= buf.Length
      modifies openFiles, buf
      ensures openFiles[..] == AfterRead(img, old(openFiles[..]), fd, n)
      ensures fd >= 0 && OpenRegular(img, old(openFiles[..]), fd) ==>
        var f, pos := img.inodes[old(openFiles[fd].kind.inode)], old(openFiles[fd].pos);
        && r == (if Answerable(img.disk, f, pos, n) then |Delivered(img.disk, f, pos, n)| else -1)
        && (r >= 0 ==> r <= buf.Length && buf[..r] == Delivered(img.disk, f, pos, n))
      ensures !ValidFd(old(openFiles[..]), fd) || !old(openFiles[..])[fd].canRead ==> r == -1
    {
      if !(0 <= fd < MAX_FILES && openFiles[fd].inUse && openFiles[fd].canRead) {
        return -1;
      }
      r := 0;
      match openFiles[fd].kind
      case Terminal =>
      case Rtc =>
      case Directory(_) =>
        openFiles[fd] := openFiles[fd].(pos := (openFiles[fd].pos + 1) % 0x1_0000_0000);
      case Regular(ino) =>
        if ino < |img.inodes| {
          r := FileRead(img.disk, img.inodes[ino], fd, buf, n);
        }
    }
  }
}
