/**
  Whole-disk transfers of the floppy driver (student-distrib/fdc.c), over a device that
  stores and returns one cylinder at a time through the DMA buffer.
 */
module Floppy {
  import opened Machine

  /** FDC_BUFFER_SIZE, 0x4800 bytes, is what one cylinder holds; FDC_MAX_SIZE is 80 cylinders. */
  const CYLINDERS: nat := 80
  const MAX_SIZE: nat := 1474560

  type Cylinder = c: seq<Byte> | |c| == 18432 witness seq(18432, _ => 0)

  ghost predicate OnDisk(cs: seq<Cylinder>, i: nat, b: Byte) {
    i / 18432 < |cs| && cs[i / 18432][i % 18432] == b
  }

  /** The first n bytes of the disk, cylinder after cylinder, are those of s. */
  ghost predicate Stores(cs: seq<Cylinder>, s: seq<Byte>, n: nat)
    requires n <= |s|
  {
    forall i: nat :: i < n ==> OnDisk(cs, i, s[i])
  }

  class Drive {
    /** What fdc_do_track returns for each cylinder; 0 is success. */
    const status: seq<int>
    const present: bool
    const dma: array<Byte>
    var cylinders: seq<Cylinder>

    ghost predicate Valid()
      reads this
    {
      |cylinders| == CYLINDERS && |status| == CYLINDERS && dma.Length == 18432
    }

    constructor (present: bool, status: seq<int>, cylinders: seq<Cylinder>)
      requires |cylinders| == CYLINDERS && |status| == CYLINDERS
      ensures Valid() && this.present == present && this.status == status && this.cylinders == cylinders && fresh(dma)
    {
      this.present, this.status, this.cylinders := present, status, cylinders;
      dma := new Byte[18432](_ => 0);
    }

    /** fdc_do_track in the direction of the disk. */
    method WriteTrack(cylinder: nat) returns (ret: int)
      requires Valid() && cylinder < CYLINDERS
      modifies this`cylinders
      ensures Valid() && ret == status[cylinder]
      ensures cylinders == if ret == 0 then old(cylinders)[cylinder := dma[..]] else old(cylinders)
    {
      ret := status[cylinder];
      if ret == 0 {
        cylinders := cylinders[cylinder := dma[..]];
      }
    }

    /** fdc_do_track in the direction of memory. */
    method ReadTrack(cylinder: nat) returns (ret: int)
      requires Valid() && cylinder < CYLINDERS
      modifies dma
      ensures ret == status[cylinder] && (ret == 0 ==> dma[..] == cylinders[cylinder])
    {
      ret := status[cylinder];
      if ret == 0 {
        var c := cylinders[cylinder];
        forall i | 0 <= i < 18432 {
          dma[i] := c[i];
        }
      }
    }

    /** The cylinders that the first n bytes reach all work. */
    ghost predicate Works(n: nat) {
      forall c: nat :: c < |status| && c * 18432 < n ==> status[c] == 0
    }

    method DiskWrite(buffer: array<Byte>, bytes: nat) returns (r: int)
      requires Valid() && bytes <= buffer.Length && buffer != dma
      modifies this`cylinders, dma
      ensures Valid()
      ensures !present || bytes > MAX_SIZE ==> r == -1 && cylinders == old(cylinders)
      ensures present && bytes <= MAX_SIZE ==>
        && (r == 0 <==> Works(bytes))
        && (r == 0 ==> Stores(cylinders, buffer[..], bytes))
      ensures forall c: nat :: c < CYLINDERS && c * 18432 >= bytes ==> cylinders[c] == old(cylinders[c])
    {
      if !present {
        return -1;
      }
      var cylinder: nat, pos: nat, remaining, step := 0, 0, bytes, 18432;
      if bytes > MAX_SIZE {
        return -1;
      }
      while remaining > 0
        modifies this`cylinders, dma
        invariant 0 <= remaining && pos + remaining == bytes && Valid()
        invariant remaining > 0 ==> pos == cylinder * 18432 && step == 18432
        invariant pos <= cylinder * 18432 && forall c: nat :: c < cylinder && c < CYLINDERS ==> status[c] == 0
        invariant Stores(cylinders, buffer[..], pos)
        invariant forall c: nat :: c < CYLINDERS && c * 18432 >= bytes ==> cylinders[c] == old(cylinders[c])
      {
        if remaining < 18432 {
          step := remaining;
        }
        assert cylinder < CYLINDERS;
        forall i | 0 <= i < step {
          dma[i] := buffer[pos + i];
        }
        ghost var cs := cylinders;
        ghost var track := dma[..];
        assert forall i :: 0 <= i < step ==> track[i] == buffer[..][pos + i];
        var ret := WriteTrack(cylinder);
        if ret != 0 {
          assert cylinder * 18432 < bytes;
          return ret;
        }
        StoredOneMore(cs, buffer[..], cylinder, track, step);
        pos, remaining, cylinder := pos + step, remaining - step, cylinder + 1;
      }
      return 0;
    }

    /** memcpy from the DMA buffer. */
    method CopyOut(buffer: array<Byte>, pos: nat, n: nat)
      requires buffer != dma && pos + n <= buffer.Length && n <= dma.Length
      modifies buffer
      ensures buffer[..] == Patched(old(buffer[..]), pos, dma[..n])
    {
      forall i | 0 <= i < n {
        buffer[pos + i] := dma[i];
      }
    }

    method DiskRead(buffer: array<Byte>, bytes: nat) returns (r: int)
      requires Valid() && bytes <= buffer.Length && buffer != dma
      modifies buffer, dma
      ensures !present || bytes > MAX_SIZE ==> r == -1 && buffer[..] == old(buffer[..])
      ensures present && bytes <= MAX_SIZE ==>
        && (r == 0 <==> Works(bytes))
        && (r == 0 ==> Stores(cylinders, buffer[..], bytes))
      ensures forall i :: bytes <= i < buffer.Length ==> buffer[i] == old(buffer[i])
    {
      if !present {
        return -1;
      }
      var cylinder: nat, pos: nat, remaining, step := 0, 0, bytes, 18432;
      if bytes > MAX_SIZE {
        return -1;
      }
      while remaining > 0
        modifies buffer, dma
        invariant 0 <= remaining && pos + remaining == bytes && Valid()
        invariant remaining > 0 ==> pos == cylinder * 18432 && step == 18432
        invariant pos <= cylinder * 18432 && forall c: nat :: c < cylinder && c < CYLINDERS ==> status[c] == 0
        invariant Stores(cylinders, buffer[..], pos)
        invariant forall i :: bytes <= i < buffer.Length ==> buffer[i] == old(buffer[i])
      {
        if remaining < 18432 {
          step := remaining;
        }
        assert cylinder < CYLINDERS;
        var ret := ReadTrack(cylinder);
        if ret != 0 {
          assert cylinder * 18432 < bytes;
          return ret;
        }
        ghost var s := buffer[..];
        assert dma[..step] == dma[..][..step];
        CopyOut(buffer, pos, step);
        FetchedOneMore(cylinders, s, buffer[..], cylinder, step);
        pos, remaining, cylinder := pos + step, remaining - step, cylinder + 1;
      }
      return 0;
    }

    /** What is written to the disk comes back, for every size the disk can hold. */
    method WriteThenRead(data: array<Byte>, back: array<Byte>, bytes: nat) returns (w: int, r: int)
      requires Valid() && bytes <= data.Length && bytes <= back.Length && data != dma && back != dma && data != back
      modifies this`cylinders, dma, back
      ensures Valid() && (w == 0 && r == 0 ==> back[..bytes] == data[..bytes])
      ensures present && bytes <= MAX_SIZE && Works(bytes) ==> w == 0 && r == 0
      ensures forall c: nat :: c < CYLINDERS && c * 18432 >= bytes ==> cylinders[c] == old(cylinders[c])
    {
      w := DiskWrite(data, bytes);
      r := DiskRead(back, bytes);
      if w == 0 && r == 0 {
        StoredIsUnique(cylinders, data[..], back[..], bytes);
      }
    }
  }

  /** A disk stores one text only. */
  lemma StoredIsUnique(cs: seq<Cylinder>, s: seq<Byte>, t: seq<Byte>, n: nat)
    requires n <= |s| && n <= |t| && Stores(cs, s, n) && Stores(cs, t, n)
    ensures s[..n] == t[..n]
  {
    forall i: nat | i < n ensures s[i] == t[i] {
      assert OnDisk(cs, i, s[i]) && OnDisk(cs, i, t[i]);
    }
  }

  /** The bytes of the disk, one cylinder after the other. */
  ghost function Joined(cs: seq<Cylinder>): (s: seq<Byte>)
    ensures |s| == 18432 * |cs|
  {
    if cs == [] then [] else Joined(cs[..|cs| - 1]) + cs[|cs| - 1]
  }

  lemma {:induction false} JoinedAt(cs: seq<Cylinder>, i: nat)
    requires i < 18432 * |cs|
    ensures i / 18432 < |cs| && Joined(cs)[i] == cs[i / 18432][i % 18432]
    decreases |cs|
  {
    var n := |cs| - 1;
    if i < 18432 * n {
      JoinedAt(cs[..n], i);
    } else {
      InCylinder(n, i);
    }
  }

  /** A disk stores a text exactly when its cylinders, joined, begin with it. */
  lemma StoresIff(cs: seq<Cylinder>, s: seq<Byte>, n: nat)
    requires n <= |s|
    ensures Stores(cs, s, n) <==> s[..n] <= Joined(cs)
  {
    var t := Joined(cs);
    forall i: nat, b: Byte ensures OnDisk(cs, i, b) <==> i < |t| && t[i] == b {
      if i < |t| {
        JoinedAt(cs, i);
      }
    }
    if Stores(cs, s, n) {
      assert n > 0 ==> OnDisk(cs, n - 1, s[n - 1]);
      assert s[..n] == t[..n];
    }
    if s[..n] <= t {
      assert forall i: nat :: i < n ==> s[i] == s[..n][i];
    }
  }

  lemma InCylinder(c: nat, i: nat)
    requires c * 18432 <= i < c * 18432 + 18432
    ensures i / 18432 == c && i % 18432 == i - c * 18432
  {
    DivModUnique(i, c, i - c * 18432, 18432);
  }

  lemma BeforeCylinder(c: nat, i: nat)
    requires i < c * 18432
    ensures i / 18432 < c
  {
  }

  lemma StoredOneMore(cs: seq<Cylinder>, s: seq<Byte>, c: nat, track: Cylinder, n: nat)
    requires c < |cs| && n <= 18432 && c * 18432 + n <= |s| && Stores(cs, s, c * 18432)
    requires forall i :: 0 <= i < n ==> track[i] == s[c * 18432 + i]
    ensures Stores(cs[c := track], s, c * 18432 + n)
  {
    forall i: nat | i < c * 18432 + n ensures OnDisk(cs[c := track], i, s[i]) {
      if i < c * 18432 {
        assert OnDisk(cs, i, s[i]);
        BeforeCylinder(c, i);
      } else {
        InCylinder(c, i);
        assert track[i - c * 18432] == s[c * 18432 + (i - c * 18432)];
      }
    }
  }

  lemma FetchedOneMore(cs: seq<Cylinder>, s: seq<Byte>, t: seq<Byte>, c: nat, n: nat)
    requires c < |cs| && n <= 18432 && c * 18432 + n <= |s| == |t| && Stores(cs, s, c * 18432)
    requires t == Patched(s, c * 18432, cs[c][..n])
    ensures Stores(cs, t, c * 18432 + n)
  {
    forall i: nat | i < c * 18432 + n ensures OnDisk(cs, i, t[i]) {
      if i < c * 18432 {
        assert OnDisk(cs, i, s[i]);
      } else {
        InCylinder(c, i);
      }
    }
  }
}
