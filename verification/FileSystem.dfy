/**
  The read path of the file system (student-distrib/fs.c). A file is a list of 4 kB data
  blocks, scattered over the image, and a length in bytes (section 7.1 of the MP3 handout).
 */
module FileSystem {
  import opened Machine


  /** Block numbers that an inode has room for. */
  const LISTED: int := 1023

  type Block = b: seq<Byte> | |b| == 4096 witness seq(4096, _ => 0)

  /**
    words are the block numbers of the inode and, last, the word that follows the inode in
    memory: the length check lets through files that reach one block past the list.
   */
  datatype Inode = Inode(length: nat, words: seq<nat>) {
    ghost predicate Valid() {
      |words| == LISTED + 1
    }

    /** Too long for the check at the start of read_data. */
    predicate TooLong() {
      length / 4096 > LISTED
    }
  }

  type Disk = seq<Block>

  // ---------------------------------------------------------------- files as flat sequences

  /** Byte i of a file lies in a block that exists. */
  predicate Present(d: Disk, f: Inode, i: nat) {
    i / 4096 < |f.words| && f.words[i / 4096] < |d|
  }

  function ByteAt(d: Disk, f: Inode, i: nat): Byte
    requires Present(d, f, i)
  {
    d[f.words[i / 4096]][i % 4096]
  }

  ghost predicate Readable(d: Disk, f: Inode, from: nat, to: nat) {
    forall i: nat :: from <= i < to ==> Present(d, f, i)
  }

  /** n bytes of a file from an offset on. */
  ghost function Bytes(d: Disk, f: Inode, from: nat, n: nat): (s: seq<Byte>)
    requires Readable(d, f, from, from + n)
    ensures |s| == n
  {
    seq<Byte>(n, i requires 0 <= i < n => ByteAt(d, f, from + i))
  }

  /** A file all of whose blocks exist. */
  ghost predicate Sound(d: Disk, f: Inode) {
    f.Valid() && !f.TooLong() && Readable(d, f, 0, f.length)
  }

  /** That is: it has less than 4 MB, and the blocks that its length takes up exist. */
  lemma SoundIff(d: Disk, f: Inode)
    requires f.Valid()
    ensures Sound(d, f) <==> f.length < 0x40_0000 && forall k: nat :: k < |f.words| && 4096 * k < f.length ==> f.words[k] < |d|
  {
    if Sound(d, f) {
      forall k: nat | k < |f.words| && 4096 * k < f.length ensures f.words[k] < |d| {
        assert Present(d, f, 4096 * k);
      }
    }
    assert forall i: nat :: i < f.length ==> 4096 * (i / 4096) < f.length;
  }

  ghost function Contents(d: Disk, f: Inode): seq<Byte>
    requires Sound(d, f)
  {
    Bytes(d, f, 0, f.length)
  }

  /** The blocks of a file one after the other. */
  ghost function Flat(d: Disk, ws: seq<nat>): (s: seq<Byte>)
    requires forall k :: 0 <= k < |ws| ==> ws[k] < |d|
    ensures |s| == 4096 * |ws|
  {
    if ws == [] then [] else Flat(d, ws[..|ws| - 1]) + d[ws[|ws| - 1]]
  }

  lemma {:induction false} FlatAt(d: Disk, ws: seq<nat>, i: nat)
    requires (forall k :: 0 <= k < |ws| ==> ws[k] < |d|) && i < 4096 * |ws|
    ensures i / 4096 < |ws|
    ensures Flat(d, ws)[i] == d[ws[i / 4096]][i % 4096]
    decreases |ws|
  {
    var n := |ws| - 1;
    if i < 4096 * n {
      FlatAt(d, ws[..n], i);
    } else {
      assert i / 4096 == n;
    }
  }

  /** The contents are the concatenation of the listed blocks, cut to the length. */
  lemma ContentsAreFlat(d: Disk, f: Inode, k: nat)
    requires Sound(d, f) && f.length <= 4096 * k && k <= |f.words| && forall j :: 0 <= j < k ==> f.words[j] < |d|
    ensures Contents(d, f) == Flat(d, f.words[..k])[..f.length]
  {
    forall i | 0 <= i < f.length ensures Contents(d, f)[i] == Flat(d, f.words[..k])[i] {
      FlatAt(d, f.words[..k], i);
    }
  }

  /** How many bytes a request is for: the length is compared as unsigned, so a negative one means all. */
  function Wanted(f: Inode, offset: nat, length: int): (n: nat)
  {
    if offset > f.length then 0
    else if length < 0 || length > f.length - offset then f.length - offset
    else length
  }

  /** A request that a file answers: how many bytes come back before a missing block, and what is returned. */
  ghost predicate Answers(d: Disk, f: Inode, offset: nat, length: int, good: nat, r: int) {
    if f.TooLong() then good == 0 && r == -1
    else
      && good <= Wanted(f, offset, length) && Readable(d, f, offset, offset + good)
      && (good < Wanted(f, offset, length) ==> !Present(d, f, offset + good) && r == -1)
      && (good == Wanted(f, offset, length) ==> r == good)
  }

  /** The part of the block at an offset that one turn of the copying loop takes: as much of it as is wanted. */
  method NextStretch(d: Disk, f: Inode, offset: nat, length: nat) returns (src: seq<Byte>)
    requires offset / 4096 < |f.words| && f.words[offset / 4096] < |d| && length > 0
    ensures 0 < |src| <= length && Readable(d, f, offset, offset + |src|) && src == Bytes(d, f, offset, |src|)
  {
    var inBlock := offset % 4096;
    var n := if length > 4096 - inBlock then 4096 - inBlock else length;
    BlockStretch(d, f, offset, n);
    src := d[f.words[offset / 4096]][inBlock..inBlock + n];
  }

  /** The copying loop of read_data. */
  method CopyBlocks(d: Disk, f: Inode, offset0: nat, buf: array<Byte>, at: nat, length0: nat) returns (r: int, ghost good: nat)
    requires f.Valid() && !f.TooLong() && offset0 + length0 <= f.length && at + length0 <= buf.Length
    modifies buf
    ensures good <= length0 && Readable(d, f, offset0, offset0 + good)
    ensures good < length0 ==> !Present(d, f, offset0 + good) && r == -1
    ensures good == length0 ==> r == good
    ensures buf[..] == Patched(old(buf[..]), at, Bytes(d, f, offset0, good))
  {
    hide Patched, Readable, Bytes;
    var length, copied: nat := length0, 0;
    BytesNone(d, f, offset0);
    PatchedNone(buf[..], at);
    while length > 0
      invariant 0 <= length && copied + length == length0
      invariant Readable(d, f, offset0, offset0 + copied)
      invariant buf[..] == Patched(old(buf[..]), at, Bytes(d, f, offset0, copied))
      decreases length
    {
      var offset := offset0 + copied;
      InWords(f, offset);
      if f.words[offset / 4096] >= |d| {
        return -1, copied;
      }
      var src := NextStretch(d, f, offset, length);
      CopyInto(buf, at + copied, src);
      BytesAppend(d, f, offset0, copied, |src|);
      PatchedTwice(old(buf[..]), at, Bytes(d, f, offset0, copied), src);
      length, copied := length - |src|, copied + |src|;
    }
    return copied, copied;
  }

  /**
    read_data into a buffer from position at on: the bytes of the file that are wanted, or
    those before the first block that does not exist.
   */
  method ReadData(d: Disk, f: Inode, offset: nat, buf: array<Byte>, at: nat, length0: int) returns (r: int, ghost good: nat)
    requires f.Valid() && f.length < WORD && offset < WORD && -0x8000_0000 <= length0 < 0x8000_0000
    requires at <= buf.Length && (!f.TooLong() ==> at + Wanted(f, offset, length0) <= buf.Length)
    modifies buf
    ensures Answers(d, f, offset, length0, good, r)
    ensures at + good <= buf.Length && Readable(d, f, offset, offset + good)
    ensures buf[..] == Patched(old(buf[..]), at, Bytes(d, f, offset, good))
  {
    hide Patched, Bytes, Readable;
    BytesNone(d, f, offset);
    PatchedNone(buf[..], at);
    if f.length / 4096 > LISTED {
      return -1, 0;
    }
    if offset > f.length {
      return 0, 0;
    }
    var length := Clamp(f, offset, length0);
    r, good := CopyBlocks(d, f, offset, buf, at, length);
  }

  /** How much of a request is left when it is cut to the file; the comparison is unsigned. */
  method Clamp(f: Inode, offset: nat, length0: int) returns (length: nat)
    requires !f.TooLong() && offset <= f.length && -0x8000_0000 <= length0 < 0x8000_0000
    ensures length == Wanted(f, offset, length0)
  {
    Clamped(f, offset, length0);
    if length0 % 0x1_0000_0000 > f.length - offset {
      return f.length - offset;
    }
    return length0;
  }

  /** How many of n bytes from an offset on come before the first missing block. */
  ghost function Good(d: Disk, f: Inode, offset: nat, n: nat): (g: nat)
    ensures g <= n && Readable(d, f, offset, offset + g)
    ensures g < n ==> !Present(d, f, offset + g)
    decreases n
  {
    if n == 0 || !Present(d, f, offset) then 0 else 1 + Good(d, f, offset + 1, n - 1)
  }

  lemma {:induction false} GoodAtLeast(d: Disk, f: Inode, offset: nat, n: nat, g: nat)
    requires g <= n && Readable(d, f, offset, offset + g)
    ensures g <= Good(d, f, offset, n)
    decreases n
  {
    if g > 0 {
      GoodAtLeast(d, f, offset + 1, n - 1, g - 1);
    }
  }

  lemma {:induction false} GoodIs(d: Disk, f: Inode, offset: nat, n: nat, g: nat)
    requires g <= n && Readable(d, f, offset, offset + g) && (g < n ==> !Present(d, f, offset + g))
    ensures g == Good(d, f, offset, n)
    decreases n
  {
    if g > 0 {
      GoodIs(d, f, offset + 1, n - 1, g - 1);
    }
  }

  /** The unsigned comparison of the requested length with what is left of the file. */
  lemma Clamped(f: Inode, offset: nat, length: int)
    requires !f.TooLong() && offset <= f.length && -0x8000_0000 <= length < 0x8000_0000
    ensures Wanted(f, offset, length) == if length % 0x1_0000_0000 > f.length - offset then f.length - offset else length
  {
    assert f.length < 4096 * (LISTED + 1);
    if length < 0 {
      DivModUnique(length, -1, length + 0x1_0000_0000, 0x1_0000_0000);
    }
  }

  /** An offset inside a file that passes the length check has a word. */
  lemma InWords(f: Inode, offset: nat)
    requires !f.TooLong() && offset < f.length
    ensures offset / 4096 <= LISTED
  {
  }

  /** A stretch of a file that stays within a block. */
  lemma BlockStretch(d: Disk, f: Inode, offset: nat, n: nat)
    requires offset / 4096 < |f.words| && f.words[offset / 4096] < |d| && n <= 4096 - offset % 4096
    ensures Readable(d, f, offset, offset + n)
    ensures Bytes(d, f, offset, n) == d[f.words[offset / 4096]][offset % 4096..offset % 4096 + n]
  {
    forall i: nat | offset <= i < offset + n
      ensures i / 4096 == offset / 4096 && i % 4096 == offset % 4096 + (i - offset)
    {
      DivModUnique(i, offset / 4096, offset % 4096 + (i - offset), 4096);
    }
    var b, c := d[f.words[offset / 4096]], Bytes(d, f, offset, n);
    forall i | 0 <= i < n ensures c[i] == b[offset % 4096 + i] {
      assert c[i] == ByteAt(d, f, offset + i);
    }
  }

  lemma BytesNone(d: Disk, f: Inode, from: nat)
    ensures Readable(d, f, from, from) && Bytes(d, f, from, 0) == []
  {
  }

  lemma BytesAppend(d: Disk, f: Inode, from: nat, m: nat, n: nat)
    requires Readable(d, f, from, from + m) && Readable(d, f, from + m, from + m + n)
    ensures Readable(d, f, from, from + m + n)
    ensures Bytes(d, f, from, m + n) == Bytes(d, f, from, m) + Bytes(d, f, from + m, n)
  {
    forall i: nat | from <= i < from + m + n ensures Present(d, f, i) {
      assert if i < from + m then Present(d, f, i) else Present(d, f, i);
    }
    var a, b, c := Bytes(d, f, from, m), Bytes(d, f, from + m, n), Bytes(d, f, from, m + n);
    assert forall i :: 0 <= i < m + n ==> c[i] == (a + b)[i];
  }

  /** A part of a file that exists is a slice of its contents. */
  lemma BytesSlice(d: Disk, f: Inode, from: nat, n: nat)
    requires Sound(d, f) && from + n <= f.length
    ensures Readable(d, f, from, from + n)
    ensures Bytes(d, f, from, n) == Contents(d, f)[from..from + n]
  {
  }

  /** What read_data returns for a given request is determined: -1 exactly when a block of the slice is missing. */
  lemma AnswersIff(d: Disk, f: Inode, offset: nat, length: int, good: nat, r: int)
    requires Answers(d, f, offset, length, good, r)
    ensures r == -1 <==> f.TooLong() || !Readable(d, f, offset, offset + Wanted(f, offset, length))
    ensures r != -1 ==> r == good == Wanted(f, offset, length)
  {
    if !f.TooLong() && good < Wanted(f, offset, length) {
      assert !Present(d, f, offset + good);
    }
  }

  /** The inode with another word after it. */
  function Followed(f: Inode, w: nat): Inode
    requires |f.words| == LISTED + 1
  {
    f.(words := f.words[LISTED := w])
  }

  /**
    A part of a file can be read whatever word follows the inode exactly when its listed
    blocks exist and it ends within the 1023 of them.
   */
  lemma OverrunIff(d: Disk, f: Inode, from: nat, to: nat)
    requires f.Valid() && from < to
    ensures (forall w: nat :: Readable(d, Followed(f, w), from, to))
       <==> to <= LISTED * 4096 && Readable(d, f, from, to)
  {
    if to <= LISTED * 4096 {
      forall w: nat ensures Readable(d, Followed(f, w), from, to) <==> Readable(d, f, from, to) {
        var g := Followed(f, w);
        assert forall i: nat :: from <= i < to ==> (Present(d, g, i) <==> Present(d, f, i));
      }
    } else {
      var g := Followed(f, |d|);
      var i := if from > LISTED * 4096 then from else LISTED * 4096;
      assert !Present(d, g, i);
      assert !Readable(d, g, from, to);
    }
  }
}
