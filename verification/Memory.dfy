/** Guest memory behind linear addresses: accesses that cross a page are split in two physical ones,
    and mean the same as translating every byte (nemu/src/memory/memory.c,
    nemu/src/memory/mmu/page.c). No address is a memory-mapped device's. */
module Memory {
  import opened Options
  import opened Paging
  import opened Powers
  import opened Words

  type Length = n: nat | n in {1, 2, 4} witness 1

  // ---------------------------------------------------------------- physical memory

  /** One physical access; None where it would leave the array. */
  function Physical(m: seq<Byte>, place: Option<nat>, n: nat): Option<nat> {
    if place.None? || place.value + n > |m| then None else Some(Load(m, place.value, n))
  }

  function PhysicalStore(m: seq<Byte>, place: Option<nat>, n: nat, data: nat): Option<seq<Byte>> {
    if place.None? || place.value + n > |m| then None else Some(Store(m, place.value, n, data))
  }

  lemma {:induction false} LoadBound(m: seq<Byte>, a: nat, n: nat)
    requires a + n <= |m|
    ensures Load(m, a, n) < Pow256(n)
    decreases n
  {
    if n > 0 {
      LoadBound(m, a + 1, n - 1);
    }
  }

  lemma {:induction false} StoreFrame(m: seq<Byte>, a: nat, n: nat, data: nat, q: nat)
    requires a + n <= |m| && q < |m| && (q < a || a + n <= q)
    ensures Store(m, a, n, data)[q] == m[q]
    decreases n
  {
    if n > 0 {
      StoreFrame(m[a := data % 256], a + 1, n - 1, data / 256, q);
    }
  }

  lemma {:induction false} StoreLoad(m: seq<Byte>, a: nat, n: nat, data: nat)
    requires a + n <= |m|
    ensures Load(Store(m, a, n, data), a, n) == Low(data, n)
    decreases n
  {
    if n > 0 {
      var m' := m[a := data % 256];
      StoreLoad(m', a + 1, n - 1, data / 256);
      StoreFrame(m', a + 1, n - 1, data / 256, a);
    }
  }

  /** An access that runs into the next page is one physical access at the end of its first page and
      one at the beginning of the next. */
  lemma GatherCrossing(m: seq<Byte>, pages: PageMap, laddr: U32, k: nat, d: nat)
    requires 0 < k && 0 < d <= 4 && laddr % PAGE_SIZE + k == PAGE_SIZE
    ensures var x := Physical(m, Place(pages, laddr), k);
            var y := Physical(m, Place(pages, After(laddr, k)), d);
            Gather(m, pages, laddr, k + d) ==
            if x.None? || y.None? then None else Some(x.value + Pow256(k) * y.value)
  {
    NextPage(laddr, k);
    GatherSplit(m, pages, laddr, k, d);
    GatherInPage(m, pages, laddr, k);
    GatherInPage(m, pages, After(laddr, k), d);
  }

  lemma NextPage(laddr: U32, k: nat)
    requires laddr % PAGE_SIZE + k == PAGE_SIZE
    ensures After(laddr, k) % PAGE_SIZE == 0
  {
  }

  lemma {:induction false} Pow256Add(a: nat, b: nat)
    ensures Pow256(a + b) == Pow256(a) * Pow256(b)
  {
    if a > 0 {
      Pow256Add(a - 1, b);
      MulAssoc(256, Pow256(a - 1), Pow256(b));
    }
  }

  lemma JoinBound(x: nat, y: nat, k: nat, d: nat)
    requires x < Pow256(k) && y < Pow256(d) && k + d <= 4
    ensures x + Pow256(k) * y < 0x1_0000_0000
  {
    Pow256Add(k, d);
    assert Pow256(4) == 0x1_0000_0000 by { assert Pow256(2) == 0x1_0000; }
    hide Pow256;
    Pow256Monotone(k + d, 4);
    assert Pow256(k) * (y + 1) <= Pow256(k) * Pow256(d);
  }

  lemma ModDiv(x: nat, p: nat)
    requires p > 0
    ensures 256 * p > 0 && x % (256 * p) % 256 == x % 256 && x % (256 * p) / 256 == x / 256 % p
  {
    ModDivBy(x, p, 256 * p);
  }

  lemma ModDivBy(x: nat, p: nat, w: nat)
    requires p > 0 && w == 256 * p
    ensures x % w % 256 == x % 256 && x % w / 256 == x / 256 % p
  {
    var q, r := Divided(x, w);
    LowestByte(x, p, w, q, r);
  }

  lemma Divided(x: nat, w: nat) returns (q: nat, r: nat)
    requires w > 0
    ensures q == x / w && r == x % w && x == w * q + r && r < w
  {
    q, r := x / w, x % w;
  }

  lemma LowestByte(x: nat, p: nat, w: nat, q: nat, r: nat)
    requires w == 256 * p && x == w * q + r && r < w
    ensures r % 256 == x % 256 && r / 256 == x / 256 % p
  {
    var a, b := r / 256, r % 256;
    MulAssoc(256, p, q);
    DivMod(x, 256, p * q + a, b);
    DivMod(p * q + a, p, q, a);
  }

  /** A store takes no more than its bytes from the data. */
  lemma {:induction false} StoreLow(m: seq<Byte>, a: nat, n: nat, data: nat, j: nat)
    requires a + n <= |m| && n <= j
    ensures Store(m, a, n, data % Pow256(j)) == Store(m, a, n, data)
    decreases n
  {
    if n > 0 {
      ModDiv(data, Pow256(j - 1));
      StoreLow(m[a := data % 256], a + 1, n - 1, data / 256, j - 1);
    }
  }

  // ---------------------------------------------------------------- what a linear write does

  /** How many bytes of the access its first page holds. */
  function FirstPart(laddr: U32, n: nat): nat {
    if laddr % PAGE_SIZE + n <= PAGE_SIZE then n else PAGE_SIZE - laddr % PAGE_SIZE
  }

  /** laddr_write with paging on: the second page is looked up after the first part is written. */
  function Written(m: seq<Byte>, pdbr: nat, laddr: U32, n: nat, data: nat): Option<seq<Byte>> {
    var k := FirstPart(laddr, n);
    match Scatter(m, Tables(m, pdbr), laddr, k, data)
    case None => None
    case Some(t) => if k == n then Some(t) else Scatter(t, Tables(t, pdbr), After(laddr, k), n - k, Rest(data, k))
  }

  /** The physical address `q` holds a byte of the two table entries that map a page. */
  ghost predicate InWalk(m: seq<Byte>, pdbr: nat, page: nat, q: nat) {
    var pdeAt := pdbr * PAGE_SIZE + page / 1024 * 4;
    || pdeAt <= q < pdeAt + 4
    || (pdeAt + 4 <= |m| &&
        var pteAt := Load(m, pdeAt, 4) / PAGE_SIZE * PAGE_SIZE + page % 1024 * 4;
        pteAt <= q < pteAt + 4)
  }

  lemma {:induction false} LoadFrame(m: seq<Byte>, t: seq<Byte>, a: nat, n: nat)
    requires |t| == |m| && a + n <= |m| && forall q :: a <= q < a + n ==> t[q] == m[q]
    ensures Load(t, a, n) == Load(m, a, n)
    decreases n
  {
    if n > 0 {
      LoadFrame(m, t, a + 1, n - 1);
    }
  }

  /** A page stays where it is as long as its two table entries do. */
  lemma FrameStable(m: seq<Byte>, t: seq<Byte>, pdbr: nat, page: nat)
    requires |t| == |m| && forall q :: 0 <= q < |m| && InWalk(m, pdbr, page, q) ==> t[q] == m[q]
    ensures Frame(t, pdbr, page) == Frame(m, pdbr, page)
  {
    hide Load;
    var pdeAt := pdbr * PAGE_SIZE + page / 1024 * 4;
    if pdeAt + 4 <= |m| {
      assert forall q :: pdeAt <= q < pdeAt + 4 ==> InWalk(m, pdbr, page, q);
      LoadFrame(m, t, pdeAt, 4);
      var pteAt := Load(m, pdeAt, 4) / PAGE_SIZE * PAGE_SIZE + page % 1024 * 4;
      if pteAt + 4 <= |m| {
        assert forall q :: pteAt <= q < pteAt + 4 ==> InWalk(m, pdbr, page, q);
        LoadFrame(m, t, pteAt, 4);
      }
    }
  }

  lemma FirstPartPage(laddr: U32, n: Length)
    ensures var k := FirstPart(laddr, n);
            && 0 < k <= n && laddr % PAGE_SIZE + k <= PAGE_SIZE
            && (k < n ==> laddr % PAGE_SIZE + k == PAGE_SIZE && After(laddr, k) % PAGE_SIZE == 0)
            && (k < n ==> After(laddr, k) / PAGE_SIZE == After(laddr, n - 1) / PAGE_SIZE)
  {
    var k := FirstPart(laddr, n);
    if k < n {
      NextPage(laddr, k);
      var l := After(laddr, k);
      assert After(laddr, n - 1) == l + (n - 1 - k) by {
        assert l == laddr + k || l == laddr + k - 0x1_0000_0000;
      }
    }
  }

  /** An access sees no more of the page map than the pages of its first and last byte. */
  lemma GatherPages(m: seq<Byte>, pages: PageMap, pages': PageMap, laddr: U32, n: Length)
    requires pages(laddr / PAGE_SIZE) == pages'(laddr / PAGE_SIZE)
    requires pages(After(laddr, n - 1) / PAGE_SIZE) == pages'(After(laddr, n - 1) / PAGE_SIZE)
    ensures Gather(m, pages, laddr, n) == Gather(m, pages', laddr, n)
  {
    hide Gather, Load, Pow256, After;
    FirstPartPage(laddr, n);
    var k := FirstPart(laddr, n);
    if k == n {
      GatherInPage(m, pages, laddr, n);
      GatherInPage(m, pages', laddr, n);
    } else {
      GatherCrossing(m, pages, laddr, k, n - k);
      GatherCrossing(m, pages', laddr, k, n - k);
    }
  }

  /** A write means translating every byte in the memory before it, in particular if its part in the
      first page does not touch the table entries of the second one. */
  lemma WrittenIsBytewise(m: seq<Byte>, pdbr: nat, laddr: U32, n: Length, data: nat)
    requires forall q :: 0 <= q < |m| && Touches(Tables(m, pdbr), laddr, FirstPart(laddr, n), q) ==>
      !InWalk(m, pdbr, After(laddr, n - 1) / PAGE_SIZE, q)
    ensures Written(m, pdbr, laddr, n, data) == Scatter(m, Tables(m, pdbr), laddr, n, data)
  {
    hide Scatter, Touches, InWalk, Rest, Frame, After;
    FirstPartPage(laddr, n);
    var k := FirstPart(laddr, n);
    var first := Scatter(m, Tables(m, pdbr), laddr, k, data);
    if k < n {
      ScatterSplit(m, Tables(m, pdbr), laddr, k, n - k, data);
      if first.Some? {
        var t := first.value;
        ScatterLength(m, Tables(m, pdbr), laddr, k, data);
        forall q | 0 <= q < |m| && InWalk(m, pdbr, After(laddr, k) / PAGE_SIZE, q) ensures t[q] == m[q] {
          ScatterFrame(m, Tables(m, pdbr), laddr, k, data, q);
        }
        FrameStable(m, t, pdbr, After(laddr, k) / PAGE_SIZE);
        ScatterInPage(t, Tables(t, pdbr), After(laddr, k), n - k, Rest(data, k));
        ScatterInPage(t, Tables(m, pdbr), After(laddr, k), n - k, Rest(data, k));
      }
    }
  }

  /** What was written is what a read then returns, and nothing else changed, in particular if the write
      overwrites no table entry of its own pages; the two pages may share a frame. */
  lemma ReadBackApart(m: seq<Byte>, pdbr: nat, laddr: U32, n: Length, data: U32)
    requires forall q :: 0 <= q < |m| && Touches(Tables(m, pdbr), laddr, n, q) ==>
      !InWalk(m, pdbr, laddr / PAGE_SIZE, q) && !InWalk(m, pdbr, After(laddr, n - 1) / PAGE_SIZE, q)
    requires Written(m, pdbr, laddr, n, data).Some?
    ensures var t := Written(m, pdbr, laddr, n, data).value;
            && |t| == |m|
            && (forall q :: 0 <= q < |m| && !Touches(Tables(m, pdbr), laddr, n, q) ==> t[q] == m[q])
            && Gather(t, Tables(t, pdbr), laddr, n) == Some(data % Pow256(n))
  {
    var pages := Tables(m, pdbr);
    hide Scatter, Gather, Touches, InWalk, Frame, After, Low, Written;
    FirstPartPage(laddr, n);
    forall q | 0 <= q < |m| && Touches(pages, laddr, FirstPart(laddr, n), q) ensures Touches(pages, laddr, n, q) {
      TouchesMore(pages, laddr, FirstPart(laddr, n), n, q);
    }
    WrittenIsBytewise(m, pdbr, laddr, n, data);
    var t := Written(m, pdbr, laddr, n, data).value;
    ScatterLength(m, pages, laddr, n, data);
    forall q | 0 <= q < |m| && !Touches(pages, laddr, n, q) ensures t[q] == m[q] {
      ScatterFrame(m, pages, laddr, n, data, q);
    }
    FrameStable(m, t, pdbr, laddr / PAGE_SIZE);
    FrameStable(m, t, pdbr, After(laddr, n - 1) / PAGE_SIZE);
    GatherScatter(m, pages, laddr, n, data);
    GatherPages(t, pages, Tables(t, pdbr), laddr, n);
    LowIsMod(data, n);
  }

  lemma TouchesMore(pages: PageMap, laddr: U32, k: nat, n: nat, q: nat)
    requires k <= n && Touches(pages, laddr, k, q)
    ensures Touches(pages, laddr, n, q)
  {
  }

  lemma {:induction false} LowIsMod(data: nat, n: nat)
    ensures Low(data, n) == data % Pow256(n)
  {
    if n > 0 {
      LowIsMod(data / 256, n - 1);
      ModDiv(data, Pow256(n - 1));
    }
  }

  /** A directory at address 0 and a table at 0x1000 that maps its page 1022 to itself and its page
      1023 to 0x2000. */
  function SelfMapped(): (m: seq<Byte>)
    ensures |m| == 0x4000
  {
    seq(0x4000, i requires 0 <= i < 0x4000 =>
      if i == 0 || i == 0x1FF8 || i == 0x1FFC then 0x07
      else if i == 1 || i == 0x1FF9 then 0x10
      else if i == 0x1FFD then 0x20
      else 0)
  }

  lemma LoadWord(m: seq<Byte>, a: nat, b0: nat, b1: nat, b2: nat, b3: nat)
    requires a + 4 <= |m| && m[a] == b0 && m[a + 1] == b1 && m[a + 2] == b2 && m[a + 3] == b3
    ensures Load(m, a, 4) == b0 + 0x100 * b1 + 0x1_0000 * b2 + 0x100_0000 * b3
  {
    assert Load(m, a + 2, 2) == m[a + 2] + 256 * Load(m, a + 3, 1);
    assert Load(m, a + 3, 1) == m[a + 3] + 256 * Load(m, a + 4, 0);
  }

  lemma FrameFrom(m: seq<Byte>, page: nat, pdeAt: nat, pde: nat, pteAt: nat, pte: nat)
    requires pdeAt == page / 1024 * 4 && pdeAt + 4 <= |m| && Load(m, pdeAt, 4) == pde && pde % 2 == 1
    requires pteAt == pde / PAGE_SIZE * PAGE_SIZE + page % 1024 * 4 && pteAt + 4 <= |m|
    requires Load(m, pteAt, 4) == pte && pte % 2 == 1
    ensures Frame(m, 0, page) == Some(pte / PAGE_SIZE)
  {
    hide Load;
  }

  lemma SelfMappedFrames(m: seq<Byte>, t: seq<Byte>)
    requires m == SelfMapped() && t == m[0x1FFF := 0x80]
    ensures Frame(m, 0, 1022) == Some(1) && Frame(m, 0, 1023) == Some(2)
    ensures Frame(t, 0, 1023) == Some(0x80002)
  {
    LoadWord(m, 0, 0x07, 0x10, 0, 0);
    LoadWord(m, 0x1FF8, 0x07, 0x10, 0, 0);
    LoadWord(m, 0x1FFC, 0x07, 0x20, 0, 0);
    LoadWord(t, 0, 0x07, 0x10, 0, 0);
    LoadWord(t, 0x1FFC, 0x07, 0x20, 0, 0x80);
    hide Load, SelfMapped, Frame;
    FrameFrom(m, 1022, 0, 0x1007, 0x1FF8, 0x1007);
    FrameFrom(m, 1023, 0, 0x1007, 0x1FFC, 0x2007);
    FrameFrom(t, 1023, 0, 0x1007, 0x1FFC, 0x8000_2007);
  }

  /** A write that is not byte-wise: its first byte is the top byte of the entry that maps the second
      page, which so ends up outside memory. */
  lemma CrossingIntoItsOwnTable()
    ensures var m := SelfMapped();
            var laddr: U32 := 0x3F_EFFF;
            && Scatter(m, Tables(m, 0), laddr, 2, 0x5A80).Some?
            && Written(m, 0, laddr, 2, 0x5A80).None?
  {
    hide Frame, SelfMapped, Load, Scatter, Place, Tables, Written;
    var m := SelfMapped();
    var laddr: U32, next: U32 := 0x3F_EFFF, 0x3F_F000;
    var t: seq<Byte> := m[0x1FFF := 0x80];
    SelfMappedFrames(m, t);
    TablesAt(m, 0, 1022);
    TablesAt(m, 0, 1023);
    TablesAt(t, 0, 1023);
    PlaceAt(Tables(m, 0), laddr, 1022, 0xFFF, 1);
    PlaceAt(Tables(m, 0), next, 1023, 0, 2);
    PlaceAt(Tables(t, 0), next, 1023, 0, 0x80002);
    LastByteOfPage(m, 0, laddr, 0x5A80, 0x1FFF);
    ScatterOne(t, Tables(m, 0), next, 0x5A);
    ScatterOne(t, Tables(t, 0), next, 0x5A);
  }

  lemma TablesAt(m: seq<Byte>, pdbr: nat, page: nat)
    ensures Tables(m, pdbr)(page) == Frame(m, pdbr, page)
  {
  }

  /** A write of two bytes across a page. */
  lemma LastByteOfPage(m: seq<Byte>, pdbr: nat, laddr: U32, data: nat, p: nat)
    requires laddr % PAGE_SIZE == PAGE_SIZE - 1 && Place(Tables(m, pdbr), laddr) == Some(p) && p < |m|
    ensures var t := m[p := data % 256];
            && Written(m, pdbr, laddr, 2, data) == Scatter(t, Tables(t, pdbr), After(laddr, 1), 1, data / 256)
            && Scatter(m, Tables(m, pdbr), laddr, 2, data) ==
               Scatter(t, Tables(m, pdbr), After(laddr, 1), 1, data / 256)
  {
    RestIsShift(data);
    hide Frame, Load, Scatter, Place, Tables, Rest, After;
    ScatterOne(m, Tables(m, pdbr), laddr, data);
    ScatterSplit(m, Tables(m, pdbr), laddr, 1, 1, data);
  }

  lemma PlaceAt(pages: PageMap, laddr: U32, page: nat, offset: nat, frame: nat)
    requires laddr == page * PAGE_SIZE + offset && offset < PAGE_SIZE && pages(page) == Some(frame)
    ensures Place(pages, laddr) == Some(frame * PAGE_SIZE + offset)
  {
  }

  lemma ScatterOne(m: seq<Byte>, pages: PageMap, laddr: U32, data: nat)
    ensures var p := Place(pages, laddr);
            Scatter(m, pages, laddr, 1, data) ==
            if p.None? || p.value >= |m| then None else Some(m[p.value := data % 256])
  {
  }

  class Machine {
    const mem: array<Byte>
    var pg: bool
    var pdbr: nat

    constructor (size: nat)
      ensures fresh(mem) && mem[..] == seq(size, _ => 0) && !pg
    {
      mem := new Byte[size](_ => 0);
      pg, pdbr := false, 0;
    }

    /** hw_mem_read */
    method Read(paddr: nat, n: nat) returns (r: U32)
      requires paddr + n <= mem.Length && n <= 4
      ensures r == Load(mem[..], paddr, n)
    {
      var i: nat := n;
      r := 0;
      LoadBound(mem[..], paddr, n);
      assert Pow256(4) == 0x1_0000_0000 by { assert Pow256(2) == 0x1_0000; }
      while i > 0
        invariant 0 <= i <= n && r == Load(mem[..], paddr + i, n - i)
      {
        i := i - 1;
        LoadBound(mem[..], paddr + i, n - i);
        Pow256Monotone(n - i, 4);
        r := mem[paddr + i] + 256 * r;
      }
    }

    /** hw_mem_write */
    method Write(paddr: nat, n: nat, data: U32)
      requires paddr + n <= mem.Length
      modifies mem
      ensures mem[..] == Store(old(mem[..]), paddr, n, data)
    {
      var i, rest: nat := 0, data;
      while i < n
        invariant i <= n && Store(mem[..], paddr + i, n - i, rest) == Store(old(mem[..]), paddr, n, data)
      {
        ghost var m := mem[..];
        var b: Byte := rest % 256;
        mem[paddr + i] := b;
        assert mem[..] == m[paddr + i := b];
        rest := rest / 256;
        i := i + 1;
      }
    }

    /** page_translate; None where one of its assertions on a present bit fails, or the walk leaves
        memory. */
    method PageTranslate(laddr: U32) returns (r: Option<nat>)
      ensures r == Place(Tables(mem[..], pdbr), laddr)
    {
      hide Load;
      var pdeAt := pdbr * PAGE_SIZE + laddr / 0x40_0000 * 4;
      assert laddr / 0x40_0000 == laddr / PAGE_SIZE / 1024;
      if pdeAt + 4 > mem.Length { return None; }
      var pde := Read(pdeAt, 4);
      if pde % 2 != 1 { return None; }
      var pteAt := pde / PAGE_SIZE * PAGE_SIZE + laddr / PAGE_SIZE % 1024 * 4;
      if pteAt + 4 > mem.Length { return None; }
      var pte := Read(pteAt, 4);
      if pte % 2 != 1 { return None; }
      return Some(pte / PAGE_SIZE * PAGE_SIZE + laddr % PAGE_SIZE);
    }

    /** laddr_read: with paging on exactly the bytes at the translated addresses, also where the access crosses
        a page or wraps around at the top of the address space; with paging off the bytes at the address. */
    method LaddrRead(laddr: U32, len: Length) returns (r: Option<U32>)
      requires mem.Length < 0x1_0000_0000
      ensures pg ==> r == Gather(mem[..], Tables(mem[..], pdbr), laddr, len)
      ensures !pg ==> r == if laddr + len <= mem.Length then Some(Load(mem[..], laddr, len)) else None
    {
      hide Gather, Place, Tables, Load, Pow256;
      if pg {
        var d := laddr % PAGE_SIZE + len - PAGE_SIZE;
        if d > 0 {
          var k := len - d;
          GatherCrossing(mem[..], Tables(mem[..], pdbr), laddr, k, d);
          var paddr := PageTranslate(laddr);
          if paddr.None? || paddr.value + k > mem.Length { return None; }
          var lower := Read(paddr.value, k);
          LoadBound(mem[..], paddr.value, k);
          paddr := PageTranslate(After(laddr, k));
          if paddr.None? || paddr.value + d > mem.Length { return None; }
          var upper := Read(paddr.value, d);
          LoadBound(mem[..], paddr.value, d);
          JoinBound(lower, upper, k, d);
          return Some(lower + Pow256(k) * upper);
        } else {
          GatherInPage(mem[..], Tables(mem[..], pdbr), laddr, len);
          var paddr := PageTranslate(laddr);
          if paddr.None? || paddr.value + len > mem.Length { return None; }
          var all := Read(paddr.value, len);
          return Some(all);
        }
      } else {
        if laddr + len > mem.Length { return None; }
        var all := Read(laddr, len);
        return Some(all);
      }
    }

    /** laddr_write; false where the access does not happen. */
    method LaddrWrite(laddr: U32, len: Length, data: U32) returns (ok: bool)
      requires mem.Length < 0x1_0000_0000
      modifies mem
      ensures pg ==>
        var w := Written(old(mem[..]), pdbr, laddr, len, data);
        (ok <==> w.Some?) && (ok ==> mem[..] == w.value)
      ensures !pg ==>
        (ok <==> laddr + len <= mem.Length) &&
        mem[..] == if ok then Store(old(mem[..]), laddr, len, data) else old(mem[..])
    {
      hide Gather, Scatter, Place, Tables, Store, Rest, Pow256;
      if pg {
        var d := laddr % PAGE_SIZE + len - PAGE_SIZE;
        if d > 0 {
          var k := len - d;
          ghost var m := mem[..];
          NextPage(laddr, k);
          ScatterInPage(m, Tables(m, pdbr), laddr, k, data);
          var paddr := PageTranslate(laddr);
          if paddr.None? || paddr.value + k > mem.Length { return false; }
          var lower := data % Pow256(4 - d);
          Write(paddr.value, k, lower);
          StoreLow(m, paddr.value, k, data, 4 - d);
          ghost var t := mem[..];
          ScatterInPage(t, Tables(t, pdbr), After(laddr, k), d, Rest(data, k));
          paddr := PageTranslate(After(laddr, k));
          if paddr.None? || paddr.value + d > mem.Length { return false; }
          RestIsShift(data);
          var upper := data / Pow256(k);
          Write(paddr.value, d, upper);
          return true;
        } else {
          ScatterInPage(mem[..], Tables(mem[..], pdbr), laddr, len, data);
          var paddr := PageTranslate(laddr);
          if paddr.None? || paddr.value + len > mem.Length { return false; }
          Write(paddr.value, len, data);
          return true;
        }
      } else {
        if laddr + len > mem.Length { return false; }
        Write(laddr, len, data);
        return true;
      }
    }

    /** With paging off, as before the kernel turns it on, what is written is read back. */
    method WriteThenRead(laddr: U32, len: Length, data: U32) returns (r: Option<U32>)
      requires mem.Length < 0x1_0000_0000 && !pg
      modifies mem
      ensures r == if laddr + len <= mem.Length then Some(data % Pow256(len)) else None
      ensures forall q :: 0 <= q < mem.Length && !(laddr <= q < laddr + len) ==> mem[q] == old(mem[q])
    {
      hide Load, Store, Pow256;
      ghost var m := mem[..];
      var ok := LaddrWrite(laddr, len, data);
      if ok {
        StoreLoad(m, laddr, len, data);
        LowIsMod(data, len);
        forall q | 0 <= q < |m| && !(laddr <= q < laddr + len) ensures mem[q] == m[q] {
          StoreFrame(m, laddr, len, data, q);
          assert mem[..][q] == m[q];
        }
      }
      r := LaddrRead(laddr, len);
    }
  }

  lemma {:induction false} Pow256Monotone(a: nat, b: nat)
    requires a <= b
    ensures Pow256(a) <= Pow256(b)
    decreases b
  {
    if a < b {
      Pow256Monotone(a, b - 1);
    }
  }
}