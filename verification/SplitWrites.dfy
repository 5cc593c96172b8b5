/** When a write whose second page is looked up after its first part is the write that translates every
    byte beforehand, and when it can be read back (nemu/src/memory/memory.c). */
module SplitWrites {
  import opened Options
  import opened Paging
  import opened Memory
  import opened Powers
  import opened Words

  // ---------------------------------------------------------------- stores

  /** Storing what is there changes nothing. */
  lemma {:induction false} StoreNoop(m: seq<Byte>, a: nat, n: nat, data: nat)
    requires a + n <= |m| && Load(m, a, n) == Low(data, n)
    ensures Store(m, a, n, data) == m
    decreases n
  {
    if n > 0 {
      Digits(m[a], Load(m, a + 1, n - 1), data % 256, Low(data / 256, n - 1));
      assert m[a := data % 256] == m;
      StoreNoop(m, a + 1, n - 1, data / 256);
    }
  }

  lemma Digits(x: nat, r: nat, y: nat, s: nat)
    requires x < 256 && y < 256 && x + 256 * r == y + 256 * s
    ensures x == y && r == s
  {
  }

  /** Two stores of the same data in different places agree only if both places held it already. */
  lemma StoresAgreeIff(m: seq<Byte>, a: nat, b: nat, n: nat, data: nat)
    requires a + n <= |m| && b + n <= |m| && (a + n <= b || b + n <= a)
    ensures Store(m, a, n, data) == Store(m, b, n, data) <==>
            Load(m, a, n) == Low(data, n) && Load(m, b, n) == Low(data, n)
  {
    hide Low, Load, Store;
    var s, t := Store(m, a, n, data), Store(m, b, n, data);
    StoreLoad(m, a, n, data);
    StoreLoad(m, b, n, data);
    forall q | b <= q < b + n ensures s[q] == m[q] { StoreFrame(m, a, n, data, q); }
    forall q | a <= q < a + n ensures t[q] == m[q] { StoreFrame(m, b, n, data, q); }
    LoadFrame(m, s, b, n);
    LoadFrame(m, t, a, n);
    if Load(m, a, n) == Low(data, n) && Load(m, b, n) == Low(data, n) {
      StoreNoop(m, a, n, data);
      StoreNoop(m, b, n, data);
    }
  }

  // ---------------------------------------------------------------- the exact condition

  /** The place exists and holds the lowest `n` bytes of the data. */
  predicate Bears(m: seq<Byte>, p: Option<nat>, n: nat, data: nat) {
    p.Some? && p.value + n <= |m| && Load(m, p.value, n) == Low(data, n)
  }

  /** Two places for `n` bytes lead to the same memory: the same place, both outside memory, or both
      inside and holding the data already. */
  predicate SameStore(m: seq<Byte>, p: Option<nat>, p': Option<nat>, n: nat, data: nat) {
    || p == p'
    || ((p.None? || p.value + n > |m|) && (p'.None? || p'.value + n > |m|))
    || (Bears(m, p, n, data) && Bears(m, p', n, data))
  }

  lemma SameStoreIff(m: seq<Byte>, pages: PageMap, pages': PageMap, laddr: U32, n: nat, data: nat)
    requires n <= PAGE_SIZE
    ensures var p, p' := Place(pages, laddr), Place(pages', laddr);
            PhysicalStore(m, p, n, data) == PhysicalStore(m, p', n, data) <==> SameStore(m, p, p', n, data)
  {
    hide Low, Load, Store;
    var p, p' := Place(pages, laddr), Place(pages', laddr);
    if p != p' && p.Some? && p.value + n <= |m| && p'.Some? && p'.value + n <= |m| {
      StoresAgreeIff(m, p.value, p'.value, n, data);
    }
  }

  /** Where the second part of the write goes, looked up after and before the first part. */
  ghost predicate LookupAgrees(m: seq<Byte>, pdbr: nat, laddr: U32, n: Length, data: nat) {
    var k := FirstPart(laddr, n);
    var first := Scatter(m, Tables(m, pdbr), laddr, k, data);
    k < n && first.Some? ==>
      var t := first.value;
      SameStore(t, Place(Tables(t, pdbr), After(laddr, k)), Place(Tables(m, pdbr), After(laddr, k)), n - k,
                Rest(data, k))
  }

  /** laddr_write is the write that translates every byte in the memory before it, exactly if the two
      lookups of the second page lead to the same memory. */
  lemma WrittenIsBytewiseIff(m: seq<Byte>, pdbr: nat, laddr: U32, n: Length, data: nat)
    ensures Written(m, pdbr, laddr, n, data) == Scatter(m, Tables(m, pdbr), laddr, n, data) <==>
            LookupAgrees(m, pdbr, laddr, n, data)
  {
    hide Scatter, Rest, Frame, After, SameStore, Place, Store, Tables;
    FirstPartPage(laddr, n);
    var k := FirstPart(laddr, n);
    var first := Scatter(m, Tables(m, pdbr), laddr, k, data);
    if k < n {
      ScatterSplit(m, Tables(m, pdbr), laddr, k, n - k, data);
      if first.Some? {
        var t := first.value;
        ScatterInPage(t, Tables(t, pdbr), After(laddr, k), n - k, Rest(data, k));
        ScatterInPage(t, Tables(m, pdbr), After(laddr, k), n - k, Rest(data, k));
        SameStoreIff(t, Tables(t, pdbr), Tables(m, pdbr), After(laddr, k), n - k, Rest(data, k));
      }
    }
  }

  // ---------------------------------------------------------------- reading back

  /** The page map a write really goes through: the first page as mapped before it, every other page as
      mapped after its first part. */
  ghost function Used(m: seq<Byte>, pdbr: nat, laddr: U32, n: nat, data: nat): PageMap {
    var first := Scatter(m, Tables(m, pdbr), laddr, FirstPart(laddr, n), data);
    page => if page == laddr / PAGE_SIZE || first.None? then Frame(m, pdbr, page) else Frame(first.value, pdbr, page)
  }

  lemma UsedAt(m: seq<Byte>, pdbr: nat, laddr: U32, n: Length, data: nat)
    ensures var u, k := Used(m, pdbr, laddr, n, data), FirstPart(laddr, n);
            var first := Scatter(m, Tables(m, pdbr), laddr, k, data);
            && Place(u, laddr) == Place(Tables(m, pdbr), laddr)
            && (k < n && first.Some? ==>
                 Place(u, After(laddr, k)) == Place(Tables(first.value, pdbr), After(laddr, k)))
  {
    hide Scatter, Frame;
    FirstPartPage(laddr, n);
    if FirstPart(laddr, n) < n {
      OtherPage(laddr, FirstPart(laddr, n));
    }
  }

  lemma OtherPage(laddr: U32, k: nat)
    requires laddr % PAGE_SIZE + k == PAGE_SIZE
    ensures After(laddr, k) / PAGE_SIZE != laddr / PAGE_SIZE
  {
    var page := laddr / PAGE_SIZE;
    assert laddr + k == PAGE_SIZE * (page + 1);
    assert After(laddr, k) == if laddr + k < 0x1_0000_0000 then PAGE_SIZE * (page + 1) else 0;
  }

  /** Every write is a byte-wise one through that map. */
  lemma WrittenThroughUsed(m: seq<Byte>, pdbr: nat, laddr: U32, n: Length, data: nat)
    ensures Written(m, pdbr, laddr, n, data) == Scatter(m, Used(m, pdbr, laddr, n, data), laddr, n, data)
  {
    hide Scatter, Rest, Frame, After, Place, Store, Tables, Used;
    FirstPartPage(laddr, n);
    UsedAt(m, pdbr, laddr, n, data);
    var k, u := FirstPart(laddr, n), Used(m, pdbr, laddr, n, data);
    var first := Scatter(m, Tables(m, pdbr), laddr, k, data);
    ScatterInPage(m, Tables(m, pdbr), laddr, k, data);
    ScatterInPage(m, u, laddr, k, data);
    if k < n {
      ScatterSplit(m, u, laddr, k, n - k, data);
      if first.Some? {
        ScatterInPage(first.value, u, After(laddr, k), n - k, Rest(data, k));
        ScatterInPage(first.value, Tables(first.value, pdbr), After(laddr, k), n - k, Rest(data, k));
      }
    }
  }

  lemma {:induction false} LowSplit(data: nat, k: nat, d: nat)
    ensures Low(data, k + d) == Low(data, k) + Pow256(k) * Low(Rest(data, k), d)
    ensures Low(data, k) < Pow256(k)
    decreases k
  {
    if k > 0 {
      LowSplit(data / 256, k - 1, d);
      Recombine(data % 256, Low(data / 256, k - 1), Pow256(k - 1), Low(Rest(data, k), d));
    }
  }

  lemma JoinUnique(x: nat, y: nat, a: nat, b: nat, p: nat)
    requires x < p && a < p
    ensures x + p * y == a + p * b <==> x == a && y == b
  {
    if x + p * y == a + p * b {
      DivMod(x + p * y, p, y, x);
      DivMod(x + p * y, p, b, a);
    }
  }

  /** A read returns a number exactly if each of its pages lies where the bytes of its part are. */
  lemma ReadsIff(m: seq<Byte>, pages: PageMap, laddr: U32, n: Length, data: nat)
    ensures var k := FirstPart(laddr, n);
            Gather(m, pages, laddr, n) == Some(Low(data, n)) <==>
              Bears(m, Place(pages, laddr), k, data) &&
              (k < n ==> Bears(m, Place(pages, After(laddr, k)), n - k, Rest(data, k)))
  {
    hide Gather, Load, Low, Rest, Pow256, After, Place;
    FirstPartPage(laddr, n);
    var k := FirstPart(laddr, n);
    if k == n {
      GatherInPage(m, pages, laddr, n);
    } else {
      var p, q := Place(pages, laddr), Place(pages, After(laddr, k));
      GatherCrossing(m, pages, laddr, k, n - k);
      LowSplit(data, k, n - k);
      if p.Some? && p.value + k <= |m| && q.Some? && q.value + (n - k) <= |m| {
        LoadBound(m, p.value, k);
        JoinUnique(Load(m, p.value, k), Load(m, q.value, n - k), Low(data, k), Low(Rest(data, k), n - k), Pow256(k));
      }
    }
  }

  /** A page of the access is mapped as the write used it, or to a place that holds its part. */
  predicate StillThere(t: seq<Byte>, used: Option<nat>, now: Option<nat>, n: nat, data: nat) {
    used == now || Bears(t, now, n, data)
  }

  /** What was written is read back exactly if both pages of the access are then mapped as the write used
      them, or to places that hold their part. */
  lemma ReadBackIff(m: seq<Byte>, pdbr: nat, laddr: U32, n: Length, data: U32)
    requires Written(m, pdbr, laddr, n, data).Some?
    ensures var t, u, k := Written(m, pdbr, laddr, n, data).value, Used(m, pdbr, laddr, n, data), FirstPart(laddr, n);
            var now, next := Tables(t, pdbr), After(laddr, k);
            Gather(t, now, laddr, n) == Some(data % Pow256(n)) <==>
              StillThere(t, Place(u, laddr), Place(now, laddr), k, data) &&
              (k < n ==> StillThere(t, Place(u, next), Place(now, next), n - k, Rest(data, k)))
  {
    hide Scatter, Gather, Low, Rest, Written, Used, Pow256, After, Place, Tables, Bears;
    var u := Used(m, pdbr, laddr, n, data);
    WrittenThroughUsed(m, pdbr, laddr, n, data);
    GatherScatter(m, u, laddr, n, data);
    LowIsMod(data, n);
    var t := Written(m, pdbr, laddr, n, data).value;
    ReadsIff(t, u, laddr, n, data);
    ReadsIff(t, Tables(t, pdbr), laddr, n, data);
  }

  /** Nothing but the bytes written changes, and a following read returns them if its two pages are then
      mapped as they were when the write used them; the two may share a frame. */
  lemma ReadAfterWrite(m: seq<Byte>, pdbr: nat, laddr: U32, n: Length, data: U32)
    requires Written(m, pdbr, laddr, n, data).Some?
    ensures var t, u := Written(m, pdbr, laddr, n, data).value, Used(m, pdbr, laddr, n, data);
            var first, last := laddr / PAGE_SIZE, After(laddr, n - 1) / PAGE_SIZE;
            && |t| == |m|
            && (forall q :: 0 <= q < |m| && !Touches(u, laddr, n, q) ==> t[q] == m[q])
            && (Frame(t, pdbr, first) == u(first) && Frame(t, pdbr, last) == u(last) ==>
                 Gather(t, Tables(t, pdbr), laddr, n) == Some(data % Pow256(n)))
  {
    hide Scatter, Gather, Touches, Frame, After, Low, Written, Used, Pow256;
    var u := Used(m, pdbr, laddr, n, data);
    WrittenThroughUsed(m, pdbr, laddr, n, data);
    var t := Written(m, pdbr, laddr, n, data).value;
    ScatterLength(m, u, laddr, n, data);
    forall q | 0 <= q < |m| && !Touches(u, laddr, n, q) ensures t[q] == m[q] {
      ScatterFrame(m, u, laddr, n, data, q);
    }
    FirstPartPage(laddr, n);
    ReadBackIff(m, pdbr, laddr, n, data);
  }

  /** That premise is needed: a byte written into its own page's table entry takes the page away. */
  lemma WriteThatUnmapsItself()
    ensures var m := SelfMapped();
            var laddr: U32 := 0x3F_EFF8;
            var t := Written(m, 0, laddr, 1, 0x06);
            t.Some? && Gather(t.value, Tables(t.value, 0), laddr, 1).None?
  {
    var m := SelfMapped();
    var laddr: U32 := 0x3F_EFF8;
    var t: seq<Byte> := m[0x1FF8 := 0x06];
    LoadWord(m, 0, 0x07, 0x10, 0, 0);
    LoadWord(m, 0x1FF8, 0x07, 0x10, 0, 0);
    LoadWord(t, 0, 0x07, 0x10, 0, 0);
    LoadWord(t, 0x1FF8, 0x06, 0x10, 0, 0);
    hide SelfMapped, Load, Scatter, Gather, Frame;
    FrameFrom(m, 1022, 0, 0x1007, 0x1FF8, 0x1007);
    NotPresent(t, 1022, 0, 0x1007, 0x1FF8, 0x1006);
    PlaceAt(Tables(m, 0), laddr, 1022, 0xFF8, 1);
    ScatterOne(m, Tables(m, 0), laddr, 0x06);
    GatherInPage(t, Tables(t, 0), laddr, 1);
  }

  lemma NotPresent(m: seq<Byte>, page: nat, pdeAt: nat, pde: nat, pteAt: nat, pte: nat)
    requires pdeAt == page / 1024 * 4 && pdeAt + 4 <= |m| && Load(m, pdeAt, 4) == pde && pde % 2 == 1
    requires pteAt == pde / PAGE_SIZE * PAGE_SIZE + page % 1024 * 4 && pteAt + 4 <= |m|
    requires Load(m, pteAt, 4) == pte && pte % 2 == 0
    ensures Frame(m, 0, page) == None
  {
    hide Load;
  }
}
