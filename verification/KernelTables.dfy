/** The page tables the guest kernel builds, seen through the emulator's page walk
    (kernel/src/memory/kvm.c, mm.c and vmem.c). */
module KernelTables {
  import opened Memory
  import opened Options
  import opened Paging
  import opened Words

  const KOFFSET: nat := 0xC000_0000
  const PHY_MEM: nat := 128 * 1024 * 1024
  const PT_SIZE: nat := 1024 * 4096
  const NR_PDE: nat := 1024
  const NR_PTE: nat := 1024
  const VMEM_ADDR: nat := 0xA_0000
  const SCR_SIZE: nat := 320 * 200
  const NR_PT: nat := (SCR_SIZE + PAGE_SIZE - 1) / PAGE_SIZE

  /** make_pde and make_pte: present, writable, open to user code. */
  function Entry(addr: U32): U32 { addr / PAGE_SIZE * PAGE_SIZE + 7 }

  /** The walk finds the bit and the frame that were put in; the write and user bits are set, no other is. */
  lemma EntryFields(addr: U32)
    ensures Entry(addr) % 2 == 1 && Entry(addr) / PAGE_SIZE == addr / PAGE_SIZE
    ensures Entry(addr) / 2 % 2 == 1 && Entry(addr) / 4 % 2 == 1 && Entry(addr) % PAGE_SIZE / 8 == 0
  {
    LowBits(addr / PAGE_SIZE * 512, Entry(addr));
    InPage(addr / PAGE_SIZE, Entry(addr));
  }

  lemma LowBits(x: nat, e: nat)
    requires e == 8 * x + 7
    ensures e % 2 == 1 && e / 2 % 2 == 1 && e / 4 % 2 == 1
  {
    Half(4 * x + 3, e);
    Half(2 * x + 1, 4 * x + 3);
    Half(x, 2 * x + 1);
    Quarter(2 * x + 1, e);
  }

  lemma Half(x: nat, e: nat)
    requires e == 2 * x + 1
    ensures e / 2 == x && e % 2 == 1
  {
  }

  lemma Quarter(x: nat, e: nat)
    requires e == 4 * x + 3
    ensures e / 4 == x
  {
  }

  lemma InPage(frame: nat, e: nat)
    requires e == frame * 4096 + 7
    ensures e / 4096 == frame && e % 4096 == 7
  {
  }

  // ---------------------------------------------------------------- what is built

  /** The first `n` entries and the first `n` from KOFFSET on lead to the same `n` tables, all others
      nowhere. */
  ghost predicate Leads(dir: seq<U32>, tableAt: U32, n: nat) {
    && n <= 32 && |dir| == NR_PDE && tableAt % PAGE_SIZE == 0 && tableAt + PHY_MEM / 1024 < 0x1_0000_0000
    && (forall i :: 0 <= i < n ==> dir[i] == Entry(tableAt + PAGE_SIZE * i))
    && (forall i :: 768 <= i < 768 + n ==> dir[i] == Entry(tableAt + PAGE_SIZE * (i - 768)))
    && (forall i :: n <= i < 768 ==> dir[i] == 0) && (forall i :: 768 + n <= i < NR_PDE ==> dir[i] == 0)
  }

  lemma LeadsOn(dir: seq<U32>, tableAt: U32, n: nat)
    requires Leads(dir, tableAt, n) && n < 32
    ensures var e := Entry(tableAt + PAGE_SIZE * n);
            Leads(dir[n := e][n + 768 := e], tableAt, n + 1)
  {
  }

  lemma LeadsNowhere(dir: seq<U32>, tableAt: U32)
    requires |dir| == NR_PDE && tableAt % PAGE_SIZE == 0 && tableAt < PHY_MEM
    requires forall i :: 0 <= i < NR_PDE ==> dir[i] == 0
    ensures Leads(dir, tableAt, 0)
  {
  }

  /** Enough tables for all of physical memory. */
  ghost predicate KernelDirectory(dir: seq<U32>, tableAt: U32) {
    Leads(dir, tableAt, 32)
  }

  /** Frame after frame of physical memory. */
  ghost predicate KernelTable(table: seq<U32>) {
    |table| == PHY_MEM / PAGE_SIZE && Filled(table, |table|)
  }

  ghost predicate Filled(table: seq<U32>, n: nat) {
    n <= |table| <= PHY_MEM / PAGE_SIZE && forall j :: 0 <= j < n ==> table[j] == Entry(j * PAGE_SIZE)
  }

  lemma FilledNothing(table: seq<U32>)
    requires |table| <= PHY_MEM / PAGE_SIZE
    ensures Filled(table, 0)
  {
  }

  /** The first `n` entries from KOFFSET on are the kernel's, all others lead nowhere. */
  ghost predicate Shares(dir: seq<U32>, kernel: seq<U32>, n: nat) {
    && n <= 32 && |dir| == |kernel| == NR_PDE
    && (forall i :: 768 <= i < 768 + n ==> dir[i] == kernel[i])
    && (forall i :: 0 <= i < 768 ==> dir[i] == 0) && (forall i :: 768 + n <= i < NR_PDE ==> dir[i] == 0)
  }

  lemma SharesOn(dir: seq<U32>, kernel: seq<U32>, n: nat)
    requires Shares(dir, kernel, n) && n < 32
    ensures Shares(dir[768 + n := kernel[768 + n]], kernel, n + 1)
  {
  }

  lemma SharesNothing(dir: seq<U32>, kernel: seq<U32>)
    requires |dir| == |kernel| == NR_PDE && forall i :: 0 <= i < NR_PDE ==> dir[i] == 0
    ensures Shares(dir, kernel, 0)
  {
  }

  /** The kernel's half of its directory, and nothing below. */
  ghost predicate UserDirectory(dir: seq<U32>, kernel: seq<U32>) {
    Shares(dir, kernel, 32)
  }

  ghost predicate VideoTable(table: seq<U32>) {
    && |table| == NR_PTE
    && (forall j :: 160 <= j < 176 ==> table[j] == Entry(j * PAGE_SIZE))
    && (forall j :: 0 <= j < 160 ==> table[j] == 0) && (forall j :: 176 <= j < NR_PTE ==> table[j] == 0)
  }

  /** Clearing the low bits of an aligned address changes nothing. */
  lemma Aligned(at: U32)
    requires at % PAGE_SIZE == 0
    ensures at / 0x400 * 0x400 == at && at / PAGE_SIZE * PAGE_SIZE == at
  {
    var q := at / 4096;
    assert at == 4096 * q;
    assert at / 0x400 == 4 * q;
  }

  /** memset to zero */
  method Clear(a: array<U32>)
    modifies a
    ensures forall k :: 0 <= k < a.Length ==> a[k] == 0
  {
    var i := 0;
    while i < a.Length
      invariant 0 <= i <= a.Length && forall k :: 0 <= k < i ==> a[k] == 0
    {
      a[i] := 0;
      i := i + 1;
    }
  }

  class Kernel {
    const kpdir: array<U32>
    const kptable: array<U32>
    const updir: array<U32>
    const vptable: array<U32>
    const kpdirAt: U32
    const kptableAt: U32
    const updirAt: U32
    const vptableAt: U32
    var cr0: U32
    var cr3: U32
    var ucr3: U32

    /** Statically allocated arrays, aligned to pages, in physical memory. */
    ghost predicate Laid()
      reads this
    {
      && kpdir.Length == updir.Length == NR_PDE && kptable.Length == PHY_MEM / PAGE_SIZE && vptable.Length == NR_PTE
      && kpdirAt % PAGE_SIZE == kptableAt % PAGE_SIZE == updirAt % PAGE_SIZE == vptableAt % PAGE_SIZE == 0
      && kpdirAt < PHY_MEM && kptableAt < PHY_MEM && updirAt < PHY_MEM && vptableAt < PHY_MEM
      && kpdir != kptable && kpdir != updir && kpdir != vptable && updir != vptable && updir != kptable
    }

    constructor (kpdirAt: U32, kptableAt: U32, updirAt: U32, vptableAt: U32)
      requires kpdirAt % PAGE_SIZE == kptableAt % PAGE_SIZE == updirAt % PAGE_SIZE == vptableAt % PAGE_SIZE == 0
      requires kpdirAt < PHY_MEM && kptableAt < PHY_MEM && updirAt < PHY_MEM && vptableAt < PHY_MEM
      ensures Laid() && kpdir.Length == vptable.Length == 1024 && kptable.Length == 0x8000
      ensures forall j :: 0 <= j < NR_PTE ==> vptable[j] == 0
    {
      this.kpdirAt, this.kptableAt, this.updirAt, this.vptableAt := kpdirAt, kptableAt, updirAt, vptableAt;
      kpdir := new U32[NR_PDE](_ => 0);
      kptable := new U32[PHY_MEM / PAGE_SIZE](_ => 0);
      updir := new U32[NR_PDE](_ => 0);
      vptable := new U32[NR_PTE](_ => 0);
      cr0, cr3, ucr3 := 0, 0, 0;
    }

    /** The inner loop of init_page: one more table, whose entries are the next frames. */
    method FillTable(start: nat)
      requires Laid() && start + NR_PTE <= kptable.Length && Filled(kptable[..], start)
      modifies kptable
      ensures Filled(kptable[..], start + NR_PTE)
    {
      hide Entry;
      var ptable, pframeIdx, ptableIdx := start, start, 0;
      while ptableIdx < NR_PTE
        invariant 0 <= ptableIdx <= NR_PTE && ptable == pframeIdx == start + ptableIdx
        invariant forall j :: 0 <= j < pframeIdx ==> kptable[j] == Entry(j * PAGE_SIZE)
      {
        kptable[ptable] := Entry(pframeIdx * PAGE_SIZE);
        pframeIdx := pframeIdx + 1;
        ptable := ptable + 1;
        ptableIdx := ptableIdx + 1;
      }
    }

    /** The two directory entries of a table. */
    method LinkTables(pdirIdx: nat, ptable: nat)
      requires Laid() && pdirIdx < 32 && ptable == NR_PTE * pdirIdx
      modifies kpdir
      ensures var e := Entry(kptableAt + PAGE_SIZE * pdirIdx);
              kpdir[..] == old(kpdir[..])[pdirIdx := e][pdirIdx + 768 := e]
    {
      hide Entry;
      kpdir[pdirIdx] := Entry(kptableAt + 4 * ptable);
      kpdir[pdirIdx + KOFFSET / PT_SIZE] := Entry(kptableAt + 4 * ptable);
    }

    /** The loops of init_page. */
    method BuildTables()
      requires Laid()
      modifies kpdir, kptable
      ensures KernelDirectory(kpdir[..], kptableAt) && KernelTable(kptable[..])
    {
      hide Entry, Leads, Filled;
      FilledNothing(kptable[..]);
      Clear(kpdir);
      LeadsNowhere(kpdir[..], kptableAt);
      var ptable, pframeIdx, pdirIdx := 0, 0, 0;
      while pdirIdx < PHY_MEM / PT_SIZE
        invariant 0 <= pdirIdx <= 32 && ptable == pframeIdx == NR_PTE * pdirIdx
        invariant Leads(kpdir[..], kptableAt, pdirIdx)
        invariant Filled(kptable[..], pframeIdx)
        modifies kpdir, kptable
      {
        LeadsOn(kpdir[..], kptableAt, pdirIdx);
        LinkTables(pdirIdx, ptable);
        FillTable(ptable);
        pframeIdx := pframeIdx + NR_PTE;
        ptable := ptable + NR_PTE;
        pdirIdx := pdirIdx + 1;
      }
    }

    /** init_page: the tables, the directory base and the paging bit. */
    method InitPage()
      requires Laid()
      modifies kpdir, kptable, this`cr0, this`cr3
      ensures KernelDirectory(kpdir[..], kptableAt) && KernelTable(kptable[..])
      ensures cr3 / PAGE_SIZE == kpdirAt / PAGE_SIZE
      ensures cr0 / 0x8000_0000 == 1 && cr0 % 0x8000_0000 == old(cr0) % 0x8000_0000
    {
      hide KernelDirectory, KernelTable;
      Aligned(kpdirAt);
      SetsPaging(cr0);
      BuildTables();
      cr3 := kpdirAt / PAGE_SIZE * PAGE_SIZE;
      cr0 := cr0 % 0x8000_0000 + 0x8000_0000;
    }

    lemma SetsPaging(x: U32)
      ensures var y := x % 0x8000_0000 + 0x8000_0000; y / 0x8000_0000 == 1 && y % 0x8000_0000 == x % 0x8000_0000
    {
    }

    /** init_mm */
    method InitMm()
      requires Laid()
      modifies updir, this`ucr3
      ensures UserDirectory(updir[..], kpdir[..]) && ucr3 / PAGE_SIZE == updirAt / PAGE_SIZE
    {
      Aligned(updirAt);
      hide Shares, Entry;
      Clear(updir);
      SharesNothing(updir[..], kpdir[..]);
      var i := KOFFSET / PT_SIZE;
      while i < KOFFSET / PT_SIZE + PHY_MEM / PT_SIZE
        invariant 768 <= i <= 800 && Shares(updir[..], kpdir[..], i - 768)
        modifies updir
      {
        SharesOn(updir[..], kpdir[..], i - 768);
        updir[i] := kpdir[i];
        i := i + 1;
      }
      ucr3 := updirAt / 0x400 * 0x400;
    }

    /** create_video_mapping */
    method CreateVideoMapping()
      requires Laid() && forall j :: 0 <= j < NR_PTE ==> vptable[j] == 0
      modifies updir, vptable
      ensures updir[..] == old(updir[..])[0 := Entry(vptableAt)] && VideoTable(vptable[..])
    {
      updir[0] := Entry(vptableAt);
      var i := VMEM_ADDR / PAGE_SIZE;
      while i < VMEM_ADDR / PAGE_SIZE + NR_PT
        invariant 160 <= i <= 176
        invariant forall k :: 160 <= k < i ==> vptable[k] == Entry(k * PAGE_SIZE)
        invariant forall k :: 0 <= k < 160 ==> vptable[k] == 0
        invariant forall k :: i <= k < NR_PTE ==> vptable[k] == 0
        modifies vptable
      {
        vptable[i] := Entry(i * PAGE_SIZE);
        i := i + 1;
      }
    }
  }

  // ---------------------------------------------------------------- what the walk makes of it

  /** The table lies at `at` in physical memory. */
  ghost predicate Holds(m: seq<Byte>, at: nat, table: seq<U32>) {
    at + 4 * |table| <= |m| && forall i :: 0 <= i < |table| ==> Load(m, at + 4 * i, 4) == table[i]
  }

  /** A page behind a directory entry that leads to table number `k` of the tables at `tableAt`. */
  lemma FrameOf(m: seq<Byte>, dirAt: U32, dir: seq<U32>, tableAt: U32, table: seq<U32>, page: nat, k: nat)
    requires dirAt % PAGE_SIZE == tableAt % PAGE_SIZE == 0
    requires Holds(m, dirAt, dir) && Holds(m, tableAt, table)
    requires page / 1024 < |dir| && 1024 * k + 1024 <= |table| && tableAt + PAGE_SIZE * k < 0x1_0000_0000
    requires dir[page / 1024] == Entry(tableAt + PAGE_SIZE * k)
    ensures var e := table[1024 * k + page % 1024];
            Frame(m, dirAt / PAGE_SIZE, page) == if e % 2 == 0 then None else Some(e / PAGE_SIZE)
  {
    hide Load, Entry;
    EntryFields(tableAt + PAGE_SIZE * k);
    var i, j := page / 1024, 1024 * k + page % 1024;
    assert Load(m, dirAt + 4 * i, 4) == dir[i];
    assert Load(m, tableAt + 4 * j, 4) == table[j];
    TableEntry(dirAt, tableAt, page, k);
  }

  lemma TableEntry(dirAt: nat, tableAt: nat, page: nat, k: nat)
    requires dirAt % PAGE_SIZE == tableAt % PAGE_SIZE == 0
    ensures dirAt / PAGE_SIZE * PAGE_SIZE == dirAt
    ensures (tableAt + PAGE_SIZE * k) / PAGE_SIZE * PAGE_SIZE + page % 1024 * 4 ==
            tableAt + 4 * (1024 * k + page % 1024)
  {
    var q := tableAt / PAGE_SIZE;
    assert tableAt == PAGE_SIZE * q;
    assert (tableAt + PAGE_SIZE * k) / PAGE_SIZE == q + k;
  }

  lemma NoFrame(m: seq<Byte>, dirAt: U32, dir: seq<U32>, page: nat)
    requires dirAt % PAGE_SIZE == 0 && Holds(m, dirAt, dir) && page / 1024 < |dir| && dir[page / 1024] == 0
    ensures Frame(m, dirAt / PAGE_SIZE, page) == None
  {
    hide Load;
    var i := page / 1024;
    assert Load(m, dirAt + 4 * i, 4) == dir[i];
  }

  lemma DirectoryAt(dir: seq<U32>, tableAt: U32, i: nat)
    requires KernelDirectory(dir, tableAt) && i < NR_PDE
    ensures |dir| == NR_PDE && tableAt % PAGE_SIZE == 0 && tableAt + PHY_MEM / 1024 < 0x1_0000_0000
    ensures dir[i] == if i < 32 then Entry(tableAt + PAGE_SIZE * i)
                      else if 768 <= i < 800 then Entry(tableAt + PAGE_SIZE * (i - 768))
                      else 0
  {
    hide Entry;
  }

  /** Under the kernel's directory every address below 128 MB, and the same address from KOFFSET on, is
      that physical address; nothing else is mapped. */
  lemma KernelMapping(m: seq<Byte>, dirAt: U32, dir: seq<U32>, tableAt: U32, table: seq<U32>, va: U32)
    requires KernelDirectory(dir, tableAt) && KernelTable(table) && dirAt % PAGE_SIZE == 0
    requires Holds(m, dirAt, dir) && Holds(m, tableAt, table)
    ensures Place(Tables(m, dirAt / PAGE_SIZE), va) ==
            if va < PHY_MEM then Some(va)
            else if KOFFSET <= va < KOFFSET + PHY_MEM then Some(va - KOFFSET)
            else None
  {
    hide Load, Frame, Entry, KernelDirectory, Holds;
    var page := va / PAGE_SIZE;
    var i := page / 1024;
    DirectoryAt(dir, tableAt, i);
    if va < PHY_MEM || KOFFSET <= va < KOFFSET + PHY_MEM {
      var k := if va < PHY_MEM then i else i - 768;
      FrameOf(m, dirAt, dir, tableAt, table, page, k);
      EntryFields((1024 * k + page % 1024) * PAGE_SIZE);
    } else {
      NoFrame(m, dirAt, dir, page);
    }
  }

  /** Under the kernel's directory a read at an address of physical memory, and one from KOFFSET on, is the
      physical one. */
  lemma KernelReads(m: seq<Byte>, dirAt: U32, dir: seq<U32>, tableAt: U32, table: seq<U32>, va: U32, n: nat)
    requires KernelDirectory(dir, tableAt) && KernelTable(table) && dirAt % PAGE_SIZE == 0
    requires Holds(m, dirAt, dir) && Holds(m, tableAt, table) && va + n <= PHY_MEM <= |m|
    ensures Gather(m, Tables(m, dirAt / PAGE_SIZE), va, n) == Some(Load(m, va, n))
    ensures Gather(m, Tables(m, dirAt / PAGE_SIZE), va + KOFFSET, n) == Some(Load(m, va, n))
  {
    hide Place, Gather, Load, KernelDirectory, KernelTable, Holds, Tables;
    var pages := Tables(m, dirAt / PAGE_SIZE);
    forall i: U32 | va <= i < va + n
      ensures Place(pages, i) == Some(i) && Place(pages, i + KOFFSET) == Some(i)
    {
      KernelMapping(m, dirAt, dir, tableAt, table, i);
      KernelMapping(m, dirAt, dir, tableAt, table, i + KOFFSET);
    }
    GatherRow(m, pages, va, n, va);
    forall j: U32 | va + KOFFSET <= j < va + KOFFSET + n ensures Place(pages, j) == Some(va + (j - (va + KOFFSET))) {
      assert Place(pages, j - KOFFSET + KOFFSET) == Some(j - KOFFSET);
    }
    GatherRow(m, pages, va + KOFFSET, n, va);
  }

  /** What the kernel reads at an address once paging is on, below and from KOFFSET on. */
  method KernelRead(mc: Machine, ghost dirAt: U32, ghost dir: seq<U32>, ghost tableAt: U32, ghost table: seq<U32>,
                    va: U32, len: Length)
    returns (low: Option<U32>, high: Option<U32>)
    requires KernelDirectory(dir, tableAt) && KernelTable(table) && dirAt % PAGE_SIZE == 0
    requires Holds(mc.mem[..], dirAt, dir) && Holds(mc.mem[..], tableAt, table)
    requires mc.pg && mc.pdbr == dirAt / PAGE_SIZE && PHY_MEM <= mc.mem.Length < 0x1_0000_0000
    requires va + len <= PHY_MEM
    ensures low == high == Some(Load(mc.mem[..], va, len))
  {
    hide Gather, Load, KernelDirectory, KernelTable, Holds, Tables;
    KernelReads(mc.mem[..], dirAt, dir, tableAt, table, va, len);
    low := mc.LaddrRead(va, len);
    high := mc.LaddrRead(va + KOFFSET, len);
  }

  /** After init_mm the user's directory agrees with the kernel's from KOFFSET on, and maps nothing
      below. */
  lemma UserMapping(m: seq<Byte>, dirAt: U32, dir: seq<U32>, userAt: U32, user: seq<U32>, tableAt: U32,
                    table: seq<U32>, va: U32)
    requires KernelDirectory(dir, tableAt) && KernelTable(table) && UserDirectory(user, dir)
    requires dirAt % PAGE_SIZE == userAt % PAGE_SIZE == 0
    requires Holds(m, dirAt, dir) && Holds(m, userAt, user) && Holds(m, tableAt, table)
    ensures va >= KOFFSET ==> Place(Tables(m, userAt / PAGE_SIZE), va) == Place(Tables(m, dirAt / PAGE_SIZE), va)
    ensures va < KOFFSET ==> Place(Tables(m, userAt / PAGE_SIZE), va) == None
  {
    hide KernelDirectory, KernelTable, Holds, Place;
    KernelMapping(m, dirAt, dir, tableAt, table, va);
    KernelHalf(m, userAt, user, dir, tableAt, table, va);
  }

  /** What a directory's upper half maps when its entries there are the kernel's. */
  lemma KernelHalf(m: seq<Byte>, userAt: U32, user: seq<U32>, dir: seq<U32>, tableAt: U32, table: seq<U32>, va: U32)
    requires KernelDirectory(dir, tableAt) && KernelTable(table)
    requires |user| == NR_PDE && (forall i :: 768 <= i < 800 ==> user[i] == dir[i])
    requires forall i :: 800 <= i < NR_PDE ==> user[i] == 0
    requires userAt % PAGE_SIZE == 0 && Holds(m, userAt, user) && Holds(m, tableAt, table)
    ensures va >= KOFFSET ==>
      Place(Tables(m, userAt / PAGE_SIZE), va) == if va < KOFFSET + PHY_MEM then Some(va - KOFFSET) else None
    ensures va < KOFFSET && user[va / PT_SIZE] == 0 ==> Place(Tables(m, userAt / PAGE_SIZE), va) == None
  {
    hide Load, Frame, Entry, Tables, Holds, KernelDirectory;
    var page := va / PAGE_SIZE;
    TablesAt(m, userAt / PAGE_SIZE, page);
    var i := page / 1024;
    assert i == va / PT_SIZE;
    DirectoryAt(dir, tableAt, i);
    if KOFFSET <= va < KOFFSET + PHY_MEM {
      FrameOf(m, userAt, user, tableAt, table, page, i - 768);
      EntryFields((1024 * (i - 768) + page % 1024) * PAGE_SIZE);
    } else if user[i] == 0 {
      NoFrame(m, userAt, user, page);
    }
  }

  /** create_video_mapping adds the identity on the video memory, page by page, and nothing else. */
  lemma VideoMapping(m: seq<Byte>, dir: seq<U32>, userAt: U32, user: seq<U32>, tableAt: U32, table: seq<U32>,
                     videoAt: U32, video: seq<U32>, va: U32)
    requires KernelDirectory(dir, tableAt) && KernelTable(table) && UserDirectory(user, dir) && VideoTable(video)
    requires userAt % PAGE_SIZE == videoAt % PAGE_SIZE == 0
    requires Holds(m, userAt, user[0 := Entry(videoAt)]) && Holds(m, tableAt, table) && Holds(m, videoAt, video)
    ensures VMEM_ADDR <= va < VMEM_ADDR + SCR_SIZE ==> Place(Tables(m, userAt / PAGE_SIZE), va) == Some(va)
    ensures va < KOFFSET ==>
      Place(Tables(m, userAt / PAGE_SIZE), va) ==
      if VMEM_ADDR <= va < VMEM_ADDR + NR_PT * PAGE_SIZE then Some(va) else None
    ensures va >= KOFFSET ==>
      Place(Tables(m, userAt / PAGE_SIZE), va) == if va < KOFFSET + PHY_MEM then Some(va - KOFFSET) else None
  {
    var user' := user[0 := Entry(videoAt)];
    UpperHalf(user, user', dir, videoAt, va);
    hide Place, Entry, Shares, KernelDirectory, KernelTable, VideoTable, Holds;
    KernelHalf(m, userAt, user', dir, tableAt, table, va);
    if va < PT_SIZE {
      VideoWalk(m, userAt, user', videoAt, video, va);
    }
  }

  /** The first table of the user's directory is the video table. */
  lemma VideoWalk(m: seq<Byte>, userAt: U32, user: seq<U32>, videoAt: U32, video: seq<U32>, va: U32)
    requires |user| == NR_PDE && user[0] == Entry(videoAt) && VideoTable(video) && va < PT_SIZE
    requires userAt % PAGE_SIZE == videoAt % PAGE_SIZE == 0
    requires Holds(m, userAt, user) && Holds(m, videoAt, video)
    ensures Place(Tables(m, userAt / PAGE_SIZE), va) ==
            if VMEM_ADDR <= va < VMEM_ADDR + NR_PT * PAGE_SIZE then Some(va) else None
  {
    hide Load, Frame, Entry, Holds;
    var page := va / PAGE_SIZE;
    FrameOf(m, userAt, user, videoAt, video, page, 0);
    if 160 <= page < 176 {
      EntryFields(page * PAGE_SIZE);
    }
  }

  lemma UpperHalf(user: seq<U32>, user': seq<U32>, dir: seq<U32>, videoAt: U32, va: U32)
    requires UserDirectory(user, dir) && user' == user[0 := Entry(videoAt)]
    ensures |user'| == NR_PDE && user'[0] == Entry(videoAt)
    ensures forall i :: 768 <= i < 800 ==> user'[i] == dir[i]
    ensures forall i :: 800 <= i < NR_PDE ==> user'[i] == 0
    ensures PT_SIZE <= va < KOFFSET ==> user'[va / PT_SIZE] == 0
  {
    hide Entry;
  }
}
