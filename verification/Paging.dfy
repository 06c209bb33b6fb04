/**
  Page directories and page tables (student-distrib/paging.c), and the address translation
  that the processor computes from them (section 4.3, 32-bit paging, of the Intel 64 and
  IA-32 Architectures Software Developer's Manual, Volume 3A), with 4 MB pages enabled.
 */
module Paging {
  import opened Machine

  const TABLES: nat := 3

  /** The entries of one process: a directory and three tables. Entries are 32-bit words. */
  datatype Space = Space(pd: seq<nat>, pts: seq<seq<nat>>) {
    ghost predicate Valid() {
      && |pd| == 1024 && |pts| == TABLES
      && forall k :: 0 <= k < TABLES ==> |pts[k]| == 1024
    }
  }

  /** Physical address of a table, given where the array of all of them starts. */
  function TableAddr(base: nat, pid: nat, ptid: nat): nat {
    base + pid * 16384 + (ptid + 1) * 4096
  }

  /** The array lies in the kernel's own 4 MB page, after the first table-sized piece of it. */
  predicate Placed(base: nat) {
    base % 4096 == 0 && 0x40_0000 <= base && base + 100 * 16384 <= 0x80_0000
  }

  // ---------------------------------------------------------------- translation

  /** Elsewhere: the directory entry names a table that is none of the process's own. */
  datatype Outcome = Fault | Elsewhere | Mapped(phys: nat, user: bool)

  predicate IsPresent(e: nat) { e % 2 == 1 }
  predicate IsWritable(e: nat) { (e / 2) % 2 == 1 }
  predicate IsUser(e: nat) { (e / 4) % 2 == 1 }
  predicate IsLarge(e: nat) { (e / 128) % 2 == 1 }
  function Frame(e: nat): nat { e / 4096 * 4096 }

  /** Which of its own tables a directory entry of the process names, or TABLES. */
  function TableOf(base: nat, pid: nat, e: nat): nat {
    if Frame(e) == TableAddr(base, pid, 0) then 0
    else if Frame(e) == TableAddr(base, pid, 1) then 1
    else if Frame(e) == TableAddr(base, pid, 2) then 2
    else TABLES
  }

  function Translate(base: nat, pid: nat, s: Space, v: nat): Outcome
    requires s.Valid() && v < 0x1_0000_0000
  {
    var e := s.pd[v / 0x40_0000];
    if !IsPresent(e) then Fault
    else if IsLarge(e) then Mapped(e / 0x40_0000 * 0x40_0000 + v % 0x40_0000, IsUser(e))
    else
      var t := TableOf(base, pid, e);
      if t == TABLES then Elsewhere
      else
        var pte := s.pts[t][v / 4096 % 1024];
        if !IsPresent(pte) then Fault
        else Mapped(Frame(pte) + v % 4096, IsUser(e) && IsUser(pte))
  }

  // ---------------------------------------------------------------- entries

  /** The word that set_pde and set_pte store: the address, with the flags over its low 12 bits. */
  function Entry(address: nat, flags: nat): nat
    requires flags < 4096
  {
    address / 4096 * 4096 + flags
  }

  lemma EntryParts(address: nat, flags: nat)
    requires flags < 4096
    ensures Frame(Entry(address, flags)) == address / 4096 * 4096
    ensures IsPresent(Entry(address, flags)) <==> flags % 2 == 1
    ensures IsUser(Entry(address, flags)) <==> (flags / 4) % 2 == 1
    ensures IsLarge(Entry(address, flags)) <==> (flags / 128) % 2 == 1
  {
    var k := address / 4096;
    var e := Entry(address, flags);
    DivModUnique(e, k, flags, 4096);
    assert e == 2 * (k * 2048) + flags;
    DivModUnique(e, k * 2048 + flags / 2, flags % 2, 2);
    DivModUnique(e, k * 1024 + flags / 4, flags % 4, 4);
    DivModUnique(k * 1024 + flags / 4, k * 512 + flags / 4 / 2, flags / 4 % 2, 2);
    DivModUnique(e, k * 32 + flags / 128, flags % 128, 128);
    DivModUnique(k * 32 + flags / 128, k * 16 + flags / 128 / 2, flags / 128 % 2, 2);
  }

  function With4mb(s: Space, p: nat, v: nat, user: bool): (r: Space)
    requires s.Valid() && v < 0x1_0000_0000
    ensures r.Valid()
  {
    s.(pd := s.pd[v / 0x40_0000 := Entry(p, if user then 0x09F else 0x09B)])
  }

  /** The privilege argument of map_4kb_page is not used: both entries get the user bit. */
  function With4kb(base: nat, pid: nat, s: Space, p: nat, v: nat, ptid: nat): (r: Space)
    requires s.Valid() && v < 0x1_0000_0000 && ptid < TABLES
    ensures r.Valid()
  {
    var table: seq<nat> := s.pts[ptid][v % 0x40_0000 / 4096 := Entry(p, 0x1F)];
    s.(pd := s.pd[v / 0x40_0000 := Entry(TableAddr(base, pid, ptid), 0x1F)], pts := s.pts[ptid := table])
  }

  lemma TableAddrsDiffer(base: nat, pid: nat, i: nat, j: nat)
    requires Placed(base) && pid < MAX_PROCESSES && i < TABLES && j < TABLES
    ensures TableAddr(base, pid, i) == TableAddr(base, pid, j) <==> i == j
    ensures TableAddr(base, pid, i) % 4096 == 0 && 0x40_0000 < TableAddr(base, pid, i) < 0x80_0000
  {
  }

  /** No table is shared between processes, and none is where a page directory is. */
  lemma TablesApart(base: nat, pid: nat, i: nat, other: nat, j: nat)
    requires i < TABLES && j < TABLES
    ensures TableAddr(base, pid, i) == TableAddr(base, other, j) ==> pid == other && i == j
    ensures TableAddr(base, pid, i) != base + other * 16384
    ensures base + pid * 16384 < TableAddr(base, pid, i) < base + (pid + 1) * 16384
  {
    var d := 4 * (pid - other);
    assert TableAddr(base, pid, i) - TableAddr(base, other, j) == 4096 * (d + (i - j));
    assert TableAddr(base, pid, i) - (base + other * 16384) == 4096 * (d + (i + 1));
  }

  /** An entry for a table of the process names that table. */
  lemma TableEntry(base: nat, pid: nat, ptid: nat)
    requires Placed(base) && pid < MAX_PROCESSES && ptid < TABLES
    ensures var e := Entry(TableAddr(base, pid, ptid), 0x1F);
      TableOf(base, pid, e) == ptid && IsPresent(e) && IsUser(e) && !IsLarge(e)
  {
    EntryParts(TableAddr(base, pid, ptid), 0x1F);
    TableAddrsDiffer(base, pid, ptid, 0);
    TableAddrsDiffer(base, pid, ptid, 1);
    TableAddrsDiffer(base, pid, ptid, 2);
  }

  /** An entry for a 4 MB page. */
  lemma LargeEntry(k: nat, user: bool)
    ensures var e := Entry(k * 0x40_0000, if user then 0x09F else 0x09B);
      && e / 0x40_0000 == k && IsPresent(e) && IsLarge(e) && (IsUser(e) <==> user)
      && Frame(e) == k * 0x40_0000
  {
    var f := if user then 0x09F else 0x09B;
    EntryParts(k * 0x40_0000, f);
    DivModUnique(k * 0x40_0000, k * 1024, 0, 4096);
    DivModUnique(Entry(k * 0x40_0000, f), k, f, 0x40_0000);
  }

  // ---------------------------------------------------------------- what init_paging builds

  /** Directory entries that all processes share, when n of the kmalloc pages are mapped. */
  function SharedPde(base: nat, pid: nat, n: nat, k: nat): nat {
    if k == 0 then Entry(TableAddr(base, pid, 0), 0x1F)
    else if k == 1 || 48 <= k < 48 + n then Entry(k * 0x40_0000, 0x09B)
    else 0
  }

  /** Directory entries when the second loop has dealt with the processes below n. */
  function FinalPde(base: nat, pid: nat, n: nat, k: nat): nat {
    if pid == 0 && 2 <= k <= n then Entry(k * 0x40_0000, 0x09B)
    else if 1 <= pid < n && k == 32 then Entry((1 + pid) * 0x40_0000, 0x09F)
    else if 1 <= pid < n && k == 1 + pid then Entry(k * 0x40_0000, 0x09B)
    else SharedPde(base, pid, 6, k)
  }

  /** Table 0 maps all of its 4 MB to itself except for the first page; the other tables are empty. */
  ghost predicate TablesBuilt(s: Space, n: nat) {
    && s.Valid()
    && (forall m :: 0 <= m < 1024 ==> s.pts[0][m] == if 1 <= m < n then Entry(m * 4096, 0x1F) else 0)
    && (forall m :: 0 <= m < 1024 ==> s.pts[1][m] == 0 && s.pts[2][m] == 0)
  }

  ghost predicate Empty(s: Space) {
    s.Valid() && TablesBuilt(s, 1) && forall k :: 0 <= k < 1024 ==> s.pd[k] == 0
  }

  ghost predicate Shared(base: nat, pid: nat, n: nat, s: Space) {
    TablesBuilt(s, 1024) && forall k :: 0 <= k < 1024 ==> s.pd[k] == SharedPde(base, pid, n, k)
  }

  ghost predicate Built(base: nat, pid: nat, n: nat, s: Space) {
    TablesBuilt(s, 1024) && forall k :: 0 <= k < 1024 ==> s.pd[k] == FinalPde(base, pid, n, k)
  }

  // ---------------------------------------------------------------- the translation it amounts to

  /** Virtual addresses of a user process, as they are meant to be mapped. */
  function Intended(pid: nat, v: nat): Outcome {
    var page := v / 0x40_0000;
    if page == 32 then Mapped((1 + pid) * 0x40_0000 + v % 0x40_0000, true)
    else if page == 1 || page == 1 + pid || 48 <= page < 54 then Mapped(v, false)
    else if page == 0 && v >= 4096 then Mapped(v, true)
    else Fault
  }

  lemma ZeroEntry()
    ensures !IsPresent(0)
  {
  }

  /** The first 4 MB go through table 0 of the process. */
  lemma LowTranslates(base: nat, pid: nat, s: Space, v: nat)
    requires Placed(base) && pid < MAX_PROCESSES && TablesBuilt(s, 1024) && v < 0x40_0000
    requires s.pd[0] == Entry(TableAddr(base, pid, 0), 0x1F)
    ensures Translate(base, pid, s, v) == if v >= 4096 then Mapped(v, true) else Fault
  {
    TableEntry(base, pid, 0);
    var m := v / 4096;
    assert v / 0x40_0000 == 0 && m < 1024;
    DivModUnique(m, 0, m, 1024);
    ZeroEntry();
    hide Entry, Frame, IsPresent, IsUser, IsLarge, TableOf, TableAddr, Placed;
    if m > 0 {
      LowEntry(m);
    }
  }

  lemma LowEntry(m: nat)
    ensures Frame(Entry(m * 4096, 0x1F)) == m * 4096 && IsPresent(Entry(m * 4096, 0x1F)) && IsUser(Entry(m * 4096, 0x1F))
  {
    EntryParts(m * 4096, 0x1F);
    DivModUnique(m * 4096, m, 0, 4096);
  }

  lemma LargeTranslates(base: nat, pid: nat, s: Space, v: nat, k: nat, user: bool)
    requires s.Valid() && v < 0x1_0000_0000 && s.pd[v / 0x40_0000] == Entry(k * 0x40_0000, if user then 0x09F else 0x09B)
    ensures Translate(base, pid, s, v) == Mapped(k * 0x40_0000 + v % 0x40_0000, user)
  {
    LargeEntry(k, user);
  }

  /**
    After init_paging a user process sees exactly: the first 8 MB except their first page,
    the kmalloc storage and its own 4 MB page at their own addresses, its page again at
    128 MB, and nothing else; only 128 MB and the first 4 MB are open to user mode.
   */
  lemma InitTranslates(base: nat, pid: nat, s: Space, v: nat)
    requires Placed(base) && 1 <= pid < MAX_PROCESSES && Built(base, pid, MAX_PROCESSES, s) && v < 0x1_0000_0000
    ensures Translate(base, pid, s, v) == Intended(pid, v)
  {
    var page := v / 0x40_0000;
    assert s.pd[page] == FinalPde(base, pid, MAX_PROCESSES, page);
    if page == 0 {
      LowTranslates(base, pid, s, v);
    } else if page == 32 {
      LargeTranslates(base, pid, s, v, 1 + pid, true);
    } else if page == 1 || page == 1 + pid || 48 <= page < 54 {
      LargeTranslates(base, pid, s, v, page, false);
    } else {
      ZeroEntry();
    }
  }

  /**
    Through the directory of the kernel after init_paging: the first 8 MB except their first
    page and the pages of all processes, up to 404 MB, at their own addresses, and nothing else.
   */
  lemma KernelTranslates(base: nat, s: Space, v: nat)
    requires Placed(base) && Built(base, 0, MAX_PROCESSES, s) && v < 0x1_0000_0000
    ensures Translate(base, 0, s, v) ==
      if v < 4096 || v >= 404 * MB then Fault else Mapped(v, v < 4 * MB)
  {
    var page := v / 0x40_0000;
    assert s.pd[page] == FinalPde(base, 0, MAX_PROCESSES, page);
    if page == 0 {
      LowTranslates(base, 0, s, v);
    } else if page <= 100 {
      LargeTranslates(base, 0, s, v, page, false);
    } else {
      ZeroEntry();
    }
  }

  /** After map_4mb_page the 4 MB around an address lead to the given ones, with the privilege asked for, and no other translation has changed. */
  lemma Map4mbTranslates(base: nat, pid: nat, s: Space, k: nat, v: nat, user: bool, u: nat)
    requires s.Valid() && v < 0x1_0000_0000 && u < 0x1_0000_0000
    ensures Translate(base, pid, With4mb(s, k * 0x40_0000, v, user), u) ==
      if u / 0x40_0000 == v / 0x40_0000 then Mapped(k * 0x40_0000 + u % 0x40_0000, user) else Translate(base, pid, s, u)
  {
    if u / 0x40_0000 == v / 0x40_0000 {
      LargeTranslates(base, pid, With4mb(s, k * 0x40_0000, v, user), u, k, user);
    }
  }

  /** All entries that an address is translated through can be written. */
  ghost predicate Writable(base: nat, pid: nat, s: Space, v: nat)
    requires s.Valid() && v < 0x1_0000_0000
  {
    var e := s.pd[v / 0x40_0000];
    IsWritable(e) && (!IsLarge(e) ==> TableOf(base, pid, e) < TABLES && IsWritable(s.pts[TableOf(base, pid, e)][v / 4096 % 1024]))
  }

  /** Nothing that init_paging maps is read-only, for the kernel or a process. */
  lemma InitWritable(base: nat, pid: nat, s: Space, v: nat)
    requires Placed(base) && pid < MAX_PROCESSES && Built(base, pid, MAX_PROCESSES, s) && v < 0x1_0000_0000
    ensures Translate(base, pid, s, v).Mapped? ==> Writable(base, pid, s, v)
  {
    hide Writable, Translate, Entry, Placed;
    var page := v / 0x40_0000;
    assert s.pd[page] == FinalPde(base, pid, MAX_PROCESSES, page);
    if page == 0 {
      LowWritable(base, pid, s, v);
    } else if s.pd[page] == 0 {
      NoEntry(base, pid, s, v);
    } else if s.pd[page] == Entry(page * 0x40_0000, 0x09B) {
      LargeWritable(base, pid, s, v, page, false);
    } else {
      LargeWritable(base, pid, s, v, 1 + pid, true);
    }
  }

  lemma NoEntry(base: nat, pid: nat, s: Space, v: nat)
    requires s.Valid() && v < 0x1_0000_0000 && s.pd[v / 0x40_0000] == 0
    ensures Translate(base, pid, s, v) == Fault
  {
  }

  lemma LowWritable(base: nat, pid: nat, s: Space, v: nat)
    requires Placed(base) && pid < MAX_PROCESSES && TablesBuilt(s, 1024) && v < 0x40_0000
    requires s.pd[0] == Entry(TableAddr(base, pid, 0), 0x1F)
    ensures Translate(base, pid, s, v).Mapped? ==> Writable(base, pid, s, v)
  {
    var m := v / 4096;
    LowTranslates(base, pid, s, v);
    TableEntry(base, pid, 0);
    EntryWritable(TableAddr(base, pid, 0), 0x1F);
    EntryWritable(m * 4096, 0x1F);
    DivModUnique(m, 0, m, 1024);
    hide Entry, Frame, IsPresent, IsUser, IsLarge, IsWritable, TableOf, TableAddr, Placed, Translate;
  }

  lemma LargeWritable(base: nat, pid: nat, s: Space, v: nat, k: nat, user: bool)
    requires s.Valid() && v < 0x1_0000_0000 && s.pd[v / 0x40_0000] == Entry(k * 0x40_0000, if user then 0x09F else 0x09B)
    ensures Writable(base, pid, s, v)
  {
    hide Entry, Frame, IsPresent, IsUser, IsLarge, IsWritable, TableOf, TableAddr;
    LargeEntry(k, user);
    EntryWritable(k * 0x40_0000, if user then 0x09F else 0x09B);
  }

  lemma EntryWritable(address: nat, flags: nat)
    requires flags < 4096
    ensures IsWritable(Entry(address, flags)) <==> (flags / 2) % 2 == 1
  {
    var k := address / 4096;
    DivModUnique(Entry(address, flags), k * 2048 + flags / 2, flags % 2, 2);
    DivModUnique(k * 2048 + flags / 2, k * 1024 + flags / 2 / 2, flags / 2 % 2, 2);
  }

  // ---------------------------------------------------------------- remapping a table

  /** clear_page_table: directory entries that name the table go, and so do all entries of the table. */
  ghost predicate Cleared(base: nat, pid: nat, ptid: nat, s: Space, r: Space)
    requires s.Valid() && ptid < TABLES
  {
    && r.Valid()
    && (forall k :: 0 <= k < 1024 ==> r.pd[k] == if Frame(s.pd[k]) == TableAddr(base, pid, ptid) then 0 else s.pd[k])
    && (forall t :: 0 <= t < TABLES && t != ptid ==> r.pts[t] == s.pts[t])
    && (forall m :: 0 <= m < 1024 ==> r.pts[ptid][m] == 0)
  }

  /** The page number of an address, in terms of its directory and table indices. */
  lemma Indices(v: nat)
    ensures v % 0x40_0000 / 4096 < 1024
    ensures v / 4096 == v / 0x40_0000 * 1024 + v % 0x40_0000 / 4096
    ensures v / 4096 % 1024 == v % 0x40_0000 / 4096
  {
    var q, r := v / 0x40_0000, v % 0x40_0000;
    var m, o := r / 4096, r % 4096;
    DivModUnique(v, q * 1024 + m, o, 4096);
    DivModUnique(q * 1024 + m, q, m, 1024);
  }

  /** The 4 MB around a page that is mapped through an empty table: nothing else is there. */
  lemma NewPage(base: nat, pid: nat, c: Space, p: nat, v: nat, ptid: nat, u: nat)
    requires Placed(base) && pid < MAX_PROCESSES && ptid < TABLES && c.Valid() && forall m :: 0 <= m < 1024 ==> c.pts[ptid][m] == 0
    requires v < 0x1_0000_0000 && u < 0x1_0000_0000 && p % 4096 == 0 && u / 0x40_0000 == v / 0x40_0000
    ensures Translate(base, pid, With4kb(base, pid, c, p, v, ptid), u) ==
      if u / 4096 == v / 4096 then Mapped(p + u % 4096, true) else Fault
  {
    TableEntry(base, pid, ptid);
    EntryParts(p, 0x1F);
    Indices(u);
    Indices(v);
    ZeroEntry();
    hide Entry, Frame, IsPresent, IsUser, IsLarge, TableOf, TableAddr, Placed;
  }

  /** Elsewhere a new page makes no difference to directory entries that do not name the table. */
  lemma OtherPage(base: nat, pid: nat, s: Space, p: nat, v: nat, ptid: nat, u: nat)
    requires ptid < TABLES && s.Valid() && v < 0x1_0000_0000 && u < 0x1_0000_0000 && u / 0x40_0000 != v / 0x40_0000
    requires var e := s.pd[u / 0x40_0000]; IsPresent(e) && !IsLarge(e) ==> TableOf(base, pid, e) != ptid
    ensures Translate(base, pid, With4kb(base, pid, s, p, v, ptid), u) == Translate(base, pid, s, u)
  {
    hide Entry, Frame, IsPresent, IsUser, IsLarge, TableAddr;
    var r := With4kb(base, pid, s, p, v, ptid);
    assert r.pd[u / 0x40_0000] == s.pd[u / 0x40_0000];
    assert forall t :: 0 <= t < TABLES && t != ptid ==> r.pts[t] == s.pts[t];
  }

  /**
    After remap_4kb_page exactly one virtual page is reached through the chosen table, and
    it is the new one; addresses that did not go through the table translate as before.
   */
  lemma RemapTranslates(base: nat, pid: nat, s: Space, c: Space, p: nat, v: nat, ptid: nat, u: nat)
    requires Placed(base) && pid < MAX_PROCESSES && ptid < TABLES && s.Valid() && Cleared(base, pid, ptid, s, c)
    requires v < 0x1_0000_0000 && u < 0x1_0000_0000 && p % 4096 == 0
    ensures var r := With4kb(base, pid, c, p, v, ptid);
      Translate(base, pid, r, u) ==
        if u / 0x40_0000 == v / 0x40_0000
        then (if u / 4096 == v / 4096 then Mapped(p + u % 4096, true) else Fault)
        else if Frame(s.pd[u / 0x40_0000]) == TableAddr(base, pid, ptid) then Fault
        else Translate(base, pid, s, u)
  {
    if u / 0x40_0000 == v / 0x40_0000 {
      NewPage(base, pid, c, p, v, ptid, u);
    } else {
      ClearedElsewhere(base, pid, ptid, s, c, u);
      OtherPage(base, pid, c, p, v, ptid, u);
    }
  }

  lemma ClearedElsewhere(base: nat, pid: nat, ptid: nat, s: Space, c: Space, u: nat)
    requires s.Valid() && ptid < TABLES && Cleared(base, pid, ptid, s, c) && u < 0x1_0000_0000
    ensures Translate(base, pid, c, u) ==
      if Frame(s.pd[u / 0x40_0000]) == TableAddr(base, pid, ptid) then Fault else Translate(base, pid, s, u)
    ensures var e := c.pd[u / 0x40_0000]; IsPresent(e) ==> TableOf(base, pid, e) != ptid
  {
    ZeroEntry();
    hide Frame, IsPresent, IsUser, IsLarge, TableAddr;
  }

  /**
    The video page that syscall_vidmap adds at 256 MB, through table 1: it translates to the
    screen, its 4 MB neighbourhood to nothing, and every other address as before. For pid 63
    that neighbourhood is where the process's own page was mapped to itself.
   */
  lemma VidmapTranslates(base: nat, pid: nat, s: Space, u: nat)
    requires Placed(base) && 1 <= pid < MAX_PROCESSES && Built(base, pid, MAX_PROCESSES, s) && u < 0x1_0000_0000
    ensures var r := With4kb(base, pid, s, 0xB8000, 0x1000_0000, 1);
      Translate(base, pid, r, u) ==
        if u / 0x40_0000 == 64 then (if u / 4096 == 0x1_0000 then Mapped(0xB8000 + u % 4096, true) else Fault)
        else Intended(pid, u)
  {
    hide Translate, Intended, Entry, Placed, IsPresent, IsLarge;
    if u / 0x40_0000 == 64 {
      NewPage(base, pid, s, 0xB8000, 0x1000_0000, 1, u);
    } else {
      InitTranslates(base, pid, s, u);
      OnlyLowTable(base, pid, s, u / 0x40_0000);
      OtherPage(base, pid, s, 0xB8000, 0x1000_0000, 1, u);
    }
  }

  /** Of the tables of a process, init_paging uses only the first. */
  lemma OnlyLowTable(base: nat, pid: nat, s: Space, k: nat)
    requires Placed(base) && 1 <= pid < MAX_PROCESSES && Built(base, pid, MAX_PROCESSES, s) && k < 1024
    ensures IsPresent(s.pd[k]) && !IsLarge(s.pd[k]) ==> TableOf(base, pid, s.pd[k]) == 0
  {
    assert s.pd[k] == FinalPde(base, pid, MAX_PROCESSES, k);
    TableEntry(base, pid, 0);
    LargeEntry(1 + pid, true);
    LargeEntry(k, false);
    ZeroEntry();
  }

  class PageTables {
    const base: nat
    const spaces: array<Space>

    ghost predicate Valid()
      reads spaces
    {
      && Placed(base) && spaces.Length == MAX_PROCESSES
      && forall i :: 0 <= i < MAX_PROCESSES ==> spaces[i].Valid()
    }

    /** Static storage, all zero. */
    constructor (base: nat)
      requires Placed(base)
      ensures this.base == base && Valid() && fresh(spaces)
      ensures forall i :: 0 <= i < MAX_PROCESSES ==> Empty(spaces[i])
    {
      this.base := base;
      var zero: seq<nat> := seq(1024, _ => 0);
      var empty := Space(zero, [zero, zero, zero]);
      spaces := new Space[MAX_PROCESSES](_ => empty);
    }

    method SetPde(index: nat, address: nat, flags: nat, pid: nat)
      requires Valid() && index < 1024 && flags < 4096 && pid < MAX_PROCESSES
      modifies spaces
      ensures Valid()
      ensures spaces[..] == old(spaces[..])[pid := old(spaces[pid]).(pd := old(spaces[pid]).pd[index := Entry(address, flags)])]
    {
      var s := spaces[pid];
      spaces[pid] := s.(pd := s.pd[index := Entry(address, flags)]);
    }

    method SetPte(index: nat, address: nat, flags: nat, pid: nat, ptIndex: nat)
      requires Valid() && index < 1024 && flags < 4096 && pid < MAX_PROCESSES && ptIndex < TABLES
      modifies spaces
      ensures Valid()
      ensures var s := old(spaces[pid]);
        var table: seq<nat> := s.pts[ptIndex][index := Entry(address, flags)];
        spaces[..] == old(spaces[..])[pid := s.(pts := s.pts[ptIndex := table])]
    {
      var s := spaces[pid];
      var table: seq<nat> := s.pts[ptIndex][index := Entry(address, flags)];
      spaces[pid] := s.(pts := s.pts[ptIndex := table]);
    }

    method Map4mbPage(p: nat, v: nat, pid: nat, user: bool)
      requires Valid() && v < 0x1_0000_0000 && pid < MAX_PROCESSES
      modifies spaces
      ensures Valid() && spaces[..] == old(spaces[..])[pid := With4mb(old(spaces[pid]), p, v, user)]
    {
      var index := v / 0x40_0000;
      if !user {
        SetPde(index, p, 0x09B, pid);
      } else {
        SetPde(index, p, 0x09F, pid);
      }
    }

    method Map4kbPage(p: nat, v: nat, pid: nat, ptid: nat)
      requires Valid() && v < 0x1_0000_0000 && pid < MAX_PROCESSES && ptid < TABLES
      modifies spaces
      ensures Valid() && spaces[..] == old(spaces[..])[pid := With4kb(base, pid, old(spaces[pid]), p, v, ptid)]
    {
      var pdIndex := v / 0x40_0000;
      var ptIndex := v % 0x40_0000 / 4096;
      SetPde(pdIndex, TableAddr(base, pid, ptid), 0x1F, pid);
      SetPte(ptIndex, p, 0x1F, pid, ptid);
    }

    method ClearPageTable(pid: nat, ptid: nat)
      requires Valid() && pid < MAX_PROCESSES && ptid < TABLES
      modifies spaces
      ensures Valid() && Cleared(base, pid, ptid, old(spaces[pid]), spaces[pid])
      ensures forall k :: 0 <= k < MAX_PROCESSES && k != pid ==> spaces[k] == old(spaces[k])
    {
      var i := 0;
      ghost var s := spaces[pid];
      while i < 1024
        invariant 0 <= i <= 1024 && Valid()
        invariant forall k :: 0 <= k < 1024 ==>
          spaces[pid].pd[k] == if k < i && Frame(s.pd[k]) == TableAddr(base, pid, ptid) then 0 else s.pd[k]
        invariant forall t :: 0 <= t < TABLES && t != ptid ==> spaces[pid].pts[t] == s.pts[t]
        invariant forall m :: 0 <= m < 1024 ==> spaces[pid].pts[ptid][m] == if m < i then 0 else s.pts[ptid][m]
        invariant forall k :: 0 <= k < MAX_PROCESSES && k != pid ==> spaces[k] == old(spaces[k])
      {
        var c := spaces[pid];
        var table: seq<nat> := c.pts[ptid][i := 0];
        var pd := if c.pd[i] / 4096 * 4096 == TableAddr(base, pid, ptid) then c.pd[i := 0] else c.pd;
        spaces[pid] := Space(pd, c.pts[ptid := table]);
        i := i + 1;
      }
    }

    method Remap4kbPage(p: nat, v: nat, pid: nat, ptid: nat) returns (ghost cleared: Space)
      requires Valid() && v < 0x1_0000_0000 && pid < MAX_PROCESSES && ptid < TABLES
      modifies spaces
      ensures Valid() && Cleared(base, pid, ptid, old(spaces[pid]), cleared)
      ensures spaces[pid] == With4kb(base, pid, cleared, p, v, ptid)
      ensures forall k :: 0 <= k < MAX_PROCESSES && k != pid ==> spaces[k] == old(spaces[k])
    {
      ClearPageTable(pid, ptid);
      cleared := spaces[pid];
      Map4kbPage(p, v, pid, ptid);
    }

    /** The body of the first loop of init_paging. */
    method InitShared(pid: nat)
      requires Valid() && pid < MAX_PROCESSES && Empty(spaces[pid])
      modifies spaces
      ensures Valid() && Shared(base, pid, 6, spaces[pid])
      ensures forall k :: 0 <= k < MAX_PROCESSES && k != pid ==> spaces[k] == old(spaces[k])
    {
      var j := 1;
      while j < 1024
        invariant 1 <= j <= 1024 && Valid() && TablesBuilt(spaces[pid], j)
        invariant forall k :: 0 <= k < 1024 ==> spaces[pid].pd[k] == if k == 0 && j > 1 then Entry(TableAddr(base, pid, 0), 0x1F) else 0
        invariant forall k :: 0 <= k < MAX_PROCESSES && k != pid ==> spaces[k] == old(spaces[k])
      {
        DivModUnique(j * 4096, 0, j * 4096, 0x40_0000);
        DivModUnique(j * 4096, j, 0, 4096);
        Map4kbPage(j * 4096, j * 4096, pid, 0);
        j := j + 1;
      }
      Map4mbPage(0x40_0000, 0x40_0000, pid, false);
      assert Shared(base, pid, 0, spaces[pid]);
      var n := 0;
      while n < 6
        invariant 0 <= n <= 6 && Valid() && Shared(base, pid, n, spaces[pid])
        invariant forall k :: 0 <= k < MAX_PROCESSES && k != pid ==> spaces[k] == old(spaces[k])
      {
        DivModUnique((48 + n) * 0x40_0000, 48 + n, 0, 0x40_0000);
        Map4mbPage((48 + n) * 0x40_0000, (48 + n) * 0x40_0000, pid, false);
        n := n + 1;
      }
    }

    method InitPaging()
      requires Valid() && forall i :: 0 <= i < MAX_PROCESSES ==> Empty(spaces[i])
      modifies spaces
      ensures Valid() && forall i :: 0 <= i < MAX_PROCESSES ==> Built(base, i, MAX_PROCESSES, spaces[i])
    {
      var i := 0;
      while i < MAX_PROCESSES
        invariant 0 <= i <= MAX_PROCESSES && Valid()
        invariant forall k :: 0 <= k < i ==> Shared(base, k, 6, spaces[k])
        invariant forall k :: i <= k < MAX_PROCESSES ==> Empty(spaces[k])
      {
        InitShared(i);
        i := i + 1;
      }
      i := 1;
      while i < MAX_PROCESSES
        invariant 1 <= i <= MAX_PROCESSES && Valid()
        invariant forall k :: 0 <= k < MAX_PROCESSES ==> Built(base, k, i, spaces[k])
      {
        MapOwnPage(i);
        i := i + 1;
      }
    }

    /** The body of the second loop: the page of process i, in the kernel's space and in its own. */
    method MapOwnPage(i: nat)
      requires 1 <= i < MAX_PROCESSES && Valid() && forall k :: 0 <= k < MAX_PROCESSES ==> Built(base, k, i, spaces[k])
      modifies spaces
      ensures Valid() && forall k :: 0 <= k < MAX_PROCESSES ==> Built(base, k, i + 1, spaces[k])
    {
      DivModUnique((1 + i) * 0x40_0000, 1 + i, 0, 0x40_0000);
      Map4mbPage((1 + i) * 0x40_0000, (1 + i) * 0x40_0000, 0, false);
      Map4mbPage((1 + i) * 0x40_0000, (1 + i) * 0x40_0000, i, false);
      Map4mbPage((1 + i) * 0x40_0000, 0x800_0000, i, true);
    }
  }
}
