/** Physical bytes, the two-level page walk, and what an access through it means byte by byte
    (nemu/src/memory/memory.c, nemu/src/memory/mmu/page.c). */
module Paging {
  import opened Options
  import opened Words

  const PAGE_SIZE: nat := 4096

  // ---------------------------------------------------------------- little-endian bytes

  function Pow256(n: nat): (r: nat)
    ensures r > 0
  {
    if n == 0 then 1 else 256 * Pow256(n - 1)
  }

  function Load(m: seq<Byte>, a: nat, n: nat): nat
    requires a + n <= |m|
    decreases n
  {
    if n == 0 then 0 else m[a] + 256 * Load(m, a + 1, n - 1)
  }

  function Store(m: seq<Byte>, a: nat, n: nat, data: nat): (r: seq<Byte>)
    requires a + n <= |m|
    ensures |r| == |m|
    decreases n
  {
    if n == 0 then m else Store(m[a := data % 256], a + 1, n - 1, data / 256)
  }

  /** `data` without its lowest `k` bytes. */
  function Rest(data: nat, k: nat): nat {
    if k == 0 then data else Rest(data / 256, k - 1)
  }

  /** The shift that takes the upper bytes of a 32-bit word. */
  lemma RestIsShift(data: nat)
    ensures Pow256(1) == 256 && Pow256(2) == 0x1_0000 && Pow256(3) == 0x100_0000
    ensures Rest(data, 1) == data / 256 && Rest(data, 2) == data / 0x1_0000 && Rest(data, 3) == data / 0x100_0000
  {
    assert Rest(data, 1) == Rest(data / 256, 0);
    assert Rest(data, 2) == Rest(data / 256, 1) == Rest(data / 256 / 256, 0);
    assert Rest(data, 3) == Rest(data / 256, 2) == Rest(data / 256 / 256, 1) == Rest(data / 256 / 256 / 256, 0);
    assert Pow256(1) == 256 * Pow256(0) && Pow256(2) == 256 * Pow256(1) && Pow256(3) == 256 * Pow256(2);
  }

  // ---------------------------------------------------------------- translation

  /** A page's frame: the walk through directory and table; None where page_translate's assertion on a
      present bit fails, or the walk leaves memory. */
  function Frame(m: seq<Byte>, pdbr: nat, page: nat): Option<nat> {
    var pdeAt := pdbr * PAGE_SIZE + page / 1024 * 4;
    if pdeAt + 4 > |m| then None else
      var pde := Load(m, pdeAt, 4);
      var pteAt := pde / PAGE_SIZE * PAGE_SIZE + page % 1024 * 4;
      if pde % 2 == 0 || pteAt + 4 > |m| then None else
        var pte := Load(m, pteAt, 4);
        if pte % 2 == 0 then None else Some(pte / PAGE_SIZE)
  }

  /** A page map: where each page lies, if anywhere. */
  type PageMap = nat -> Option<nat>

  /** page_translate, when the map is that of the tables in memory. */
  function Place(pages: PageMap, laddr: U32): Option<nat> {
    match pages(laddr / PAGE_SIZE)
    case None => None
    case Some(f) => Some(f * PAGE_SIZE + laddr % PAGE_SIZE)
  }

  function Tables(m: seq<Byte>, pdbr: nat): PageMap { page => Frame(m, pdbr, page) }

  function Next(laddr: U32): U32 { (laddr + 1) % 0x1_0000_0000 }

  function After(laddr: U32, n: nat): U32 { (laddr + n) % 0x1_0000_0000 }

  // ---------------------------------------------------------------- accesses byte by byte

  /** `n` bytes from `laddr` on, each one translated on its own, lowest first. */
  function Gather(m: seq<Byte>, pages: PageMap, laddr: U32, n: nat): Option<nat>
    decreases n
  {
    if n == 0 then Some(0) else
      var p := Place(pages, laddr);
      if p.None? || p.value >= |m| then None else
        match Gather(m, pages, Next(laddr), n - 1)
        case None => None
        case Some(rest) => Some(m[p.value] + 256 * rest)
  }

  /** Addresses mapped one after the other are read from one place. */
  lemma {:induction false} GatherRow(m: seq<Byte>, pages: PageMap, laddr: U32, n: nat, p: nat)
    requires laddr + n <= 0x1_0000_0000 && p + n <= |m|
    requires forall i: U32 :: laddr <= i < laddr + n ==> Place(pages, i) == Some(p + (i - laddr))
    ensures Gather(m, pages, laddr, n) == Some(Load(m, p, n))
    decreases n
  {
    hide Place;
    if n > 1 {
      assert Next(laddr) == laddr + 1;
      GatherRow(m, pages, laddr + 1, n - 1, p + 1);
    } else if n == 1 {
      assert Gather(m, pages, Next(laddr), 0) == Some(0) && Load(m, p + 1, 0) == 0;
    }
  }

  function Scatter(m: seq<Byte>, pages: PageMap, laddr: U32, n: nat, data: nat): Option<seq<Byte>>
    decreases n
  {
    if n == 0 then Some(m) else
      var p := Place(pages, laddr);
      if p.None? || p.value >= |m| then None
      else Scatter(m[p.value := data % 256], pages, Next(laddr), n - 1, data / 256)
  }

  // ---------------------------------------------------------------- within a page

  lemma AfterNext(laddr: U32, n: nat)
    ensures After(Next(laddr), n) == After(laddr, n + 1)
    ensures After(laddr, 0) == laddr
  {
  }

  lemma SamePage(laddr: U32)
    requires laddr % PAGE_SIZE + 1 < PAGE_SIZE
    ensures Next(laddr) / PAGE_SIZE == laddr / PAGE_SIZE
    ensures Next(laddr) % PAGE_SIZE == laddr % PAGE_SIZE + 1
  {
  }

  /** Inside one page an access is a physical one at the translated address. */
  lemma {:induction false} GatherInPage(m: seq<Byte>, pages: PageMap, laddr: U32, n: nat)
    requires 0 < n && laddr % PAGE_SIZE + n <= PAGE_SIZE
    ensures var p := Place(pages, laddr);
            Gather(m, pages, laddr, n) ==
            if p.None? || p.value + n > |m| then None else Some(Load(m, p.value, n))
    decreases n
  {
    var p := Place(pages, laddr);
    if n == 1 {
      assert Gather(m, pages, Next(laddr), 0) == Some(0);
      if p.Some? && p.value < |m| {
        assert Load(m, p.value + 1, 0) == 0;
      }
    } else {
      SamePage(laddr);
      GatherInPage(m, pages, Next(laddr), n - 1);
    }
  }

  lemma {:induction false} ScatterInPage(m: seq<Byte>, pages: PageMap, laddr: U32, n: nat, data: nat)
    requires 0 < n && laddr % PAGE_SIZE + n <= PAGE_SIZE
    ensures var p := Place(pages, laddr);
            Scatter(m, pages, laddr, n, data) ==
            if p.None? || p.value + n > |m| then None else Some(Store(m, p.value, n, data))
    decreases n
  {
    var p := Place(pages, laddr);
    if n > 1 {
      SamePage(laddr);
      if p.Some? && p.value < |m| {
        ScatterInPage(m[p.value := data % 256], pages, Next(laddr), n - 1, data / 256);
      }
    }
  }

  lemma Recombine(first: int, x: int, p: int, y: int)
    ensures first + 256 * (x + p * y) == (first + 256 * x) + (256 * p) * y
  {
  }

  /** An access is one access after the other. */
  lemma {:induction false} GatherSplit(m: seq<Byte>, pages: PageMap, laddr: U32, a: nat, b: nat)
    ensures var x, y := Gather(m, pages, laddr, a), Gather(m, pages, After(laddr, a), b);
            Gather(m, pages, laddr, a + b) ==
            if x.None? || y.None? then None else Some(x.value + Pow256(a) * y.value)
    decreases a
  {
    hide Gather, Place, Next, After;
    AfterNext(laddr, if a > 0 then a - 1 else 0);
    if a == 0 {
      GatherNone(m, pages, laddr);
    } else {
      GatherSplit(m, pages, Next(laddr), a - 1, b);
      GatherFirst(m, pages, laddr, a);
      GatherFirst(m, pages, laddr, a + b);
      var x, y := Gather(m, pages, Next(laddr), a - 1), Gather(m, pages, After(laddr, a), b);
      var p := Place(pages, laddr);
      if x.Some? && y.Some? && p.Some? && p.value < |m| {
        Recombine(m[p.value], x.value, Pow256(a - 1), y.value);
      }
    }
  }

  lemma GatherNone(m: seq<Byte>, pages: PageMap, laddr: U32)
    ensures Gather(m, pages, laddr, 0) == Some(0)
  {
  }

  lemma GatherFirst(m: seq<Byte>, pages: PageMap, laddr: U32, n: nat)
    requires n > 0
    ensures var p, rest := Place(pages, laddr), Gather(m, pages, Next(laddr), n - 1);
            Gather(m, pages, laddr, n) ==
            if p.None? || p.value >= |m| || rest.None? then None else Some(m[p.value] + 256 * rest.value)
  {
  }

  lemma {:induction false} ScatterSplit(m: seq<Byte>, pages: PageMap, laddr: U32, a: nat, b: nat, data: nat)
    ensures var t := Scatter(m, pages, laddr, a, data);
            Scatter(m, pages, laddr, a + b, data) ==
            if t.None? then None else Scatter(t.value, pages, After(laddr, a), b, Rest(data, a))
    decreases a
  {
    AfterNext(laddr, if a > 0 then a - 1 else 0);
    if a > 0 {
      var p := Place(pages, laddr);
      if p.Some? && p.value < |m| {
        ScatterSplit(m[p.value := data % 256], pages, Next(laddr), a - 1, b, data / 256);
      }
    }
  }

  // ---------------------------------------------------------------- what a write changes

  /** Some byte of the access lies at the physical address `q`. */
  ghost predicate Touches(pages: PageMap, laddr: U32, n: nat, q: nat) {
    exists i: nat :: i < n && Place(pages, After(laddr, i)) == Some(q)
  }

  lemma TouchesNext(pages: PageMap, laddr: U32, n: nat, q: nat)
    requires n > 0
    ensures Touches(pages, laddr, n, q) <==>
            Place(pages, laddr) == Some(q) || Touches(pages, Next(laddr), n - 1, q)
  {
    AfterNext(laddr, 0);
    if Touches(pages, laddr, n, q) {
      var i: nat :| i < n && Place(pages, After(laddr, i)) == Some(q);
      if i > 0 {
        AfterNext(laddr, i - 1);
      }
    }
    if Touches(pages, Next(laddr), n - 1, q) {
      var i: nat :| i < n - 1 && Place(pages, After(Next(laddr), i)) == Some(q);
      AfterNext(laddr, i);
    }
  }

  /** A write changes nothing but the bytes it addresses. */
  lemma {:induction false} ScatterFrame(m: seq<Byte>, pages: PageMap, laddr: U32, n: nat, data: nat, q: nat)
    requires Scatter(m, pages, laddr, n, data).Some? && q < |m| && !Touches(pages, laddr, n, q)
    ensures var t := Scatter(m, pages, laddr, n, data).value;
            |t| == |m| && t[q] == m[q]
    decreases n
  {
    hide Touches, Next;
    if n > 0 {
      TouchesNext(pages, laddr, n, q);
      ScatterFrame(m[Place(pages, laddr).value := data % 256], pages, Next(laddr), n - 1, data / 256, q);
    }
  }

  lemma {:induction false} ScatterLength(m: seq<Byte>, pages: PageMap, laddr: U32, n: nat, data: nat)
    requires Scatter(m, pages, laddr, n, data).Some?
    ensures |Scatter(m, pages, laddr, n, data).value| == |m|
    decreases n
  {
    if n > 0 {
      ScatterLength(m[Place(pages, laddr).value := data % 256], pages, Next(laddr), n - 1, data / 256);
    }
  }

  /** Bytes less than a page apart never share an address, even if their pages share a frame. */
  lemma Apart(pages: PageMap, laddr: U32, n: nat)
    requires Place(pages, laddr).Some? && n < PAGE_SIZE
    ensures !Touches(pages, Next(laddr), n, Place(pages, laddr).value)
  {
    forall i: nat | i < n && Place(pages, After(Next(laddr), i)).Some?
      ensures Place(pages, After(Next(laddr), i)) != Place(pages, laddr)
    {
      Offsets(laddr, i);
    }
  }

  lemma Offsets(laddr: U32, i: nat)
    requires i + 1 < PAGE_SIZE
    ensures After(Next(laddr), i) % PAGE_SIZE != laddr % PAGE_SIZE
  {
    AfterNext(laddr, i);
    assert After(laddr, i + 1) == laddr + i + 1 || After(laddr, i + 1) == laddr + i + 1 - 0x1_0000_0000;
  }

  /** The lowest `n` bytes of a number. */
  function Low(data: nat, n: nat): nat {
    if n == 0 then 0 else data % 256 + 256 * Low(data / 256, n - 1)
  }

  /** Reading back what was written, through the same map. */
  lemma {:induction false} GatherScatter(m: seq<Byte>, pages: PageMap, laddr: U32, n: nat, data: nat)
    requires Scatter(m, pages, laddr, n, data).Some? && n <= PAGE_SIZE
    ensures Gather(Scatter(m, pages, laddr, n, data).value, pages, laddr, n) == Some(Low(data, n))
    decreases n
  {
    if n > 0 {
      var p := Place(pages, laddr).value;
      var m' := m[p := data % 256];
      GatherScatter(m', pages, Next(laddr), n - 1, data / 256);
      Apart(pages, laddr, n - 1);
      ScatterFrame(m', pages, Next(laddr), n - 1, data / 256, p);
    }
  }

  /** A read depends on nothing but the bytes it addresses. */
  lemma {:induction false} GatherFrame(m: seq<Byte>, t: seq<Byte>, pages: PageMap, laddr: U32, n: nat)
    requires |t| == |m| && forall q :: 0 <= q < |m| && Touches(pages, laddr, n, q) ==> t[q] == m[q]
    ensures Gather(t, pages, laddr, n) == Gather(m, pages, laddr, n)
    decreases n
  {
    hide Touches, Next;
    if n > 0 {
      forall q | 0 <= q < |m| && Touches(pages, Next(laddr), n - 1, q) ensures t[q] == m[q] {
        TouchesNext(pages, laddr, n, q);
      }
      GatherFrame(m, t, pages, Next(laddr), n - 1);
      if Place(pages, laddr).Some? && Place(pages, laddr).value < |m| {
        TouchesNext(pages, laddr, n, Place(pages, laddr).value);
      }
    }
  }
}
