/** Taking an interrupt through a gate and returning from it (nemu/src/cpu/intr.c,
    nemu/src/cpu/instr/iret.c). Memory is reached through a page map that the pushes do not change;
    reading the code segment's descriptor is not part of this model. */
module Interrupts {
  import opened Options
  import opened Paging
  import opened Gates
  import opened Memory
  import opened Powers
  import opened Words

  /** `n` bytes below `esp`. */
  function Below(esp: U32, n: nat): U32
    requires n <= 0x1_0000_0000
  {
    (esp + (0x1_0000_0000 - n)) % 0x1_0000_0000
  }

  /** Bit 9 of EFLAGS. */
  function InterruptFlag(eflags: U32): nat { eflags / 0x200 % 2 }

  function SetInterruptFlag(eflags: U32, on: bool): (r: U32) {
    eflags - InterruptFlag(eflags) * 0x200 + if on then 0x200 else 0
  }

  lemma FlagSet(eflags: U32, on: bool)
    ensures var r := SetInterruptFlag(eflags, on);
            && InterruptFlag(r) == (if on then 1 else 0)
            && r / 0x400 == eflags / 0x400 && r % 0x200 == eflags % 0x200
  {
    var high, low, was := eflags / 0x400, eflags % 0x200, InterruptFlag(eflags);
    assert eflags / 0x200 == 2 * high + was;
    assert eflags == 0x200 * (2 * high + was) + low;
    var r := SetInterruptFlag(eflags, on);
    var bit := if on then 1 else 0;
    assert r == 0x200 * (2 * high + bit) + low;
    hide SetInterruptFlag;
    DivMod(r, 0x200, 2 * high + bit, low);
    DivMod(r, 0x400, high, 0x200 * bit + low);
    DivMod(2 * high + bit, 2, high, bit);
  }

  /** EFLAGS as the Intel manual has them after a gate (volume 3A, section 6.12.1.3): an interrupt gate
      clears IF and a trap gate leaves it. */
  function ManualFlags(eflags: U32, kind: nat): U32 {
    if kind == INTERRUPT_GATE_32 then SetInterruptFlag(eflags, false) else eflags
  }

  /** The code does as the manual says exactly for interrupt gates, and for trap gates with IF set. */
  lemma FlagsAgreeIff(eflags: U32, kind: nat)
    requires kind in {INTERRUPT_GATE_32, TRAP_GATE_32}
    ensures SetInterruptFlag(eflags, kind == TRAP_GATE_32) == ManualFlags(eflags, kind) <==>
            kind == INTERRUPT_GATE_32 || InterruptFlag(eflags) == 1
  {
    FlagSet(eflags, kind == TRAP_GATE_32);
    hide InterruptFlag;
  }

  lemma BelowAfter(esp: U32, n: nat, k: nat)
    requires k <= n <= 4096
    ensures After(Below(esp, n), k) == Below(esp, n - k)
    ensures Below(esp, 0) == esp && After(Below(esp, n), n) == esp
  {
    BelowIs(esp, n);
    BelowIs(esp, n - k);
    BelowIs(esp, 0);
    AfterIs(Below(esp, n), k);
    AfterIs(Below(esp, n), n);
    hide Below, After;
  }

  lemma BelowIs(esp: U32, n: nat)
    requires n <= 4096
    ensures Below(esp, n) == if esp >= n then esp - n else esp + 0x1_0000_0000 - n
  {
  }

  lemma AfterIs(at: U32, n: nat)
    requires n <= 4096
    ensures After(at, n) == if at + n < 0x1_0000_0000 then at + n else at + n - 0x1_0000_0000
  {
  }

  // ---------------------------------------------------------------- three words on the stack

  /** Memory after a word is pushed. */
  function Pushed(m: seq<Byte>, pages: PageMap, at: U32, val: U32): Option<seq<Byte>> {
    Scatter(m, pages, at, 4, val)
  }

  /** Memory after EFLAGS, CS and EIP are pushed, in that order. */
  function FramePushed(m: seq<Byte>, pages: PageMap, esp: U32, eflags: U32, cs: U32, eip: U32): Option<seq<Byte>> {
    match Pushed(m, pages, Below(esp, 4), eflags)
    case None => None
    case Some(m1) =>
      match Pushed(m1, pages, Below(esp, 8), cs)
      case None => None
      case Some(m2) => Pushed(m2, pages, Below(esp, 12), eip)
  }

  /** No address lies in two stretches that follow one another within a page's length. */
  lemma NoOverlap(pages: PageMap, at: U32, a: nat, b: nat, q: nat)
    requires a + b <= PAGE_SIZE && Touches(pages, at, a, q)
    ensures !Touches(pages, After(at, a), b, q)
  {
    hide After, Place;
    var i: nat :| i < a && Place(pages, After(at, i)) == Some(q);
    forall j: nat | j < b ensures Place(pages, After(After(at, a), j)) != Some(q) {
      DifferentOffsets(at, i, a, j);
      DifferentPlaces(pages, After(at, i), After(After(at, a), j));
    }
  }

  lemma DifferentPlaces(pages: PageMap, x: U32, y: U32)
    requires x % PAGE_SIZE != y % PAGE_SIZE && Place(pages, x).Some?
    ensures Place(pages, x) != Place(pages, y)
  {
  }

  lemma DifferentOffsets(at: U32, i: nat, a: nat, j: nat)
    requires i < a && a + j < PAGE_SIZE
    ensures After(After(at, a), j) % PAGE_SIZE != After(at, i) % PAGE_SIZE
  {
    hide After;
    OffsetAfter(at, i);
    OffsetAfter(at, a);
    OffsetAfter(After(at, a), j);
    Residues(at % PAGE_SIZE, i, a, j);
  }

  lemma Residues(o: nat, i: nat, a: nat, j: nat)
    requires o < PAGE_SIZE && i < a && a + j < PAGE_SIZE
    ensures ((o + a) % PAGE_SIZE + j) % PAGE_SIZE != (o + i) % PAGE_SIZE
  {
    var u := if o + a < PAGE_SIZE then o + a else o + a - PAGE_SIZE;
    assert (o + a) % PAGE_SIZE == u;
    assert (u + j) % PAGE_SIZE == if u + j < PAGE_SIZE then u + j else u + j - PAGE_SIZE;
    assert (o + i) % PAGE_SIZE == if o + i < PAGE_SIZE then o + i else o + i - PAGE_SIZE;
  }

  lemma OffsetAfter(at: U32, n: nat)
    requires n < PAGE_SIZE
    ensures After(at, n) % PAGE_SIZE == (at % PAGE_SIZE + n) % PAGE_SIZE
  {
    assert After(at, n) == at + n || After(at, n) == at + n - 0x1_0000_0000;
  }

  /** A word is unaffected by a word pushed right below it. */
  lemma WordKept(m: seq<Byte>, pages: PageMap, at: U32, k: nat, val: U32)
    requires 4 <= k <= 8 && Pushed(m, pages, at, val).Some?
    ensures Gather(Pushed(m, pages, at, val).value, pages, After(at, k), 4) == Gather(m, pages, After(at, k), 4)
  {
    hide Scatter, Gather;
    var t := Pushed(m, pages, at, val).value;
    ScatterLength(m, pages, at, 4, val);
    forall q | 0 <= q < |m| && Touches(pages, After(at, k), 4, q) ensures t[q] == m[q] {
      if Touches(pages, at, 4, q) {
        TouchesMore(pages, at, 4, k, q);
        NoOverlap(pages, at, k, 4, q);
      }
      ScatterFrame(m, pages, at, 4, val, q);
    }
    GatherFrame(m, t, pages, After(at, k), 4);
  }

  lemma WordSize()
    ensures Pow256(4) == 0x1_0000_0000
  {
    assert Pow256(2) == 0x1_0000;
  }

  lemma WordRead(m: seq<Byte>, pages: PageMap, at: U32, val: U32)
    requires Pushed(m, pages, at, val).Some?
    ensures Gather(Pushed(m, pages, at, val).value, pages, at, 4) == Some(val)
  {
    hide Scatter, Gather, Pow256;
    GatherScatter(m, pages, at, 4, val);
    LowIsMod(val, 4);
    WordSize();
  }

  /** The frame holds EIP, CS and EFLAGS from the new stack pointer up. */
  lemma FrameHolds(m: seq<Byte>, pages: PageMap, esp: U32, eflags: U32, cs: U32, eip: U32)
    requires FramePushed(m, pages, esp, eflags, cs, eip).Some?
    ensures var t := FramePushed(m, pages, esp, eflags, cs, eip).value;
            && Gather(t, pages, Below(esp, 12), 4) == Some(eip)
            && Gather(t, pages, Below(esp, 8), 4) == Some(cs)
            && Gather(t, pages, Below(esp, 4), 4) == Some(eflags)
  {
    hide Scatter, Gather, Below, After;
    BelowAfter(esp, 12, 4);
    BelowAfter(esp, 12, 8);
    BelowAfter(esp, 8, 4);
    var m1 := Pushed(m, pages, Below(esp, 4), eflags).value;
    var m2 := Pushed(m1, pages, Below(esp, 8), cs).value;
    WordRead(m, pages, Below(esp, 4), eflags);
    WordRead(m1, pages, Below(esp, 8), cs);
    WordRead(m2, pages, Below(esp, 12), eip);
    hide Pushed;
    WordKept(m1, pages, Below(esp, 8), 4, cs);
    WordKept(m2, pages, Below(esp, 12), 4, eip);
    WordKept(m2, pages, Below(esp, 12), 8, eip);
  }

  /** Nothing outside the twelve bytes of the frame changes. */
  lemma FrameLeaves(m: seq<Byte>, pages: PageMap, esp: U32, eflags: U32, cs: U32, eip: U32, q: nat)
    requires FramePushed(m, pages, esp, eflags, cs, eip).Some?
    requires q < |m| && !Touches(pages, Below(esp, 12), 12, q)
    ensures var t := FramePushed(m, pages, esp, eflags, cs, eip).value;
            |t| == |m| && t[q] == m[q]
  {
    var m1 := Pushed(m, pages, Below(esp, 4), eflags).value;
    var m2 := Pushed(m1, pages, Below(esp, 8), cs).value;
    hide Scatter, Touches, Below, After;
    ScatterLength(m, pages, Below(esp, 4), 4, eflags);
    ScatterLength(m1, pages, Below(esp, 8), 4, cs);
    ScatterLength(m2, pages, Below(esp, 12), 4, eip);
    PartOfFrame(pages, esp, 4, q);
    PartOfFrame(pages, esp, 8, q);
    PartOfFrame(pages, esp, 12, q);
    ScatterFrame(m, pages, Below(esp, 4), 4, eflags, q);
    ScatterFrame(m1, pages, Below(esp, 8), 4, cs, q);
    ScatterFrame(m2, pages, Below(esp, 12), 4, eip, q);
  }

  lemma PartOfFrame(pages: PageMap, esp: U32, n: nat, q: nat)
    requires 4 <= n <= 12 && !Touches(pages, Below(esp, 12), 12, q)
    ensures !Touches(pages, Below(esp, n), 4, q)
  {
    if Touches(pages, Below(esp, n), 4, q) {
      var i: nat :| i < 4 && Place(pages, After(Below(esp, n), i)) == Some(q);
      BelowAfter(esp, 12, 12 - n);
      BelowAfter(esp, 12, 12 - n + i);
      BelowAfter(esp, n, i);
    }
  }

  // ---------------------------------------------------------------- the processor

  /** The eight bytes at `at` are a descriptor's. */
  ghost predicate HoldsGate(m: seq<Byte>, pages: PageMap, at: U32, g: Gate) {
    && Fits(g)
    && Gather(m, pages, at, 4) == Some(LowWord(g)) && Gather(m, pages, After(at, 4), 4) == Some(HighWord(g))
  }

  /** The frame pushed below `esp` shares no byte with the eight at `at`. */
  ghost predicate Clear(m: seq<Byte>, pages: PageMap, esp: U32, at: U32) {
    forall q :: 0 <= q < |m| && Touches(pages, Below(esp, 12), 12, q) ==>
      !Touches(pages, at, 4, q) && !Touches(pages, After(at, 4), 4, q)
  }

  lemma GateSurvives(m: seq<Byte>, pages: PageMap, esp: U32, eflags: U32, cs: U32, eip: U32, at: U32, g: Gate)
    requires FramePushed(m, pages, esp, eflags, cs, eip).Some?
    requires HoldsGate(m, pages, at, g) && Clear(m, pages, esp, at)
    ensures HoldsGate(FramePushed(m, pages, esp, eflags, cs, eip).value, pages, at, g)
  {
    hide FramePushed, Touches, Gather, Below, After, LowWord, HighWord, Fits;
    var t := FramePushed(m, pages, esp, eflags, cs, eip).value;
    FrameLength(m, pages, esp, eflags, cs, eip);
    forall q | 0 <= q < |m| && (Touches(pages, at, 4, q) || Touches(pages, After(at, 4), 4, q)) ensures t[q] == m[q] {
      FrameLeaves(m, pages, esp, eflags, cs, eip, q);
    }
    GatherFrame(m, t, pages, at, 4);
    GatherFrame(m, t, pages, After(at, 4), 4);
  }

  lemma FrameLength(m: seq<Byte>, pages: PageMap, esp: U32, eflags: U32, cs: U32, eip: U32)
    requires FramePushed(m, pages, esp, eflags, cs, eip).Some?
    ensures |FramePushed(m, pages, esp, eflags, cs, eip).value| == |m|
  {
    var m1 := Pushed(m, pages, Below(esp, 4), eflags).value;
    var m2 := Pushed(m1, pages, Below(esp, 8), cs).value;
    hide Scatter;
    ScatterLength(m, pages, Below(esp, 4), 4, eflags);
    ScatterLength(m1, pages, Below(esp, 8), 4, cs);
    ScatterLength(m2, pages, Below(esp, 12), 4, eip);
  }

  class Processor {
    const pages: PageMap
    var mem: seq<Byte>
    var eip: U32
    var cs: U32
    var eflags: U32
    var esp: U32
    var idtr: U32

    constructor (pages: PageMap, mem: seq<Byte>, eip: U32, cs: U32, eflags: U32, esp: U32, idtr: U32)
      requires cs < 0x1_0000
      ensures this.pages == pages && this.mem == mem && this.eip == eip && this.cs == cs
      ensures this.eflags == eflags && this.esp == esp && this.idtr == idtr
    {
      this.pages, this.mem, this.eip, this.cs := pages, mem, eip, cs;
      this.eflags, this.esp, this.idtr := eflags, esp, idtr;
    }

    /** single_push; false where the write does not happen. */
    method SinglePush(val: U32) returns (ok: bool)
      modifies this`esp, this`mem
      ensures esp == Below(old(esp), 4)
      ensures var t := Pushed(old(mem), pages, Below(old(esp), 4), val);
              ok == t.Some? && mem == if ok then t.value else old(mem)
    {
      esp := Below(esp, 4);
      var t := Pushed(mem, pages, esp, val);
      if t.None? { return false; }
      mem := t.value;
      return true;
    }

    /** single_pop of iret */
    method SinglePop() returns (val: Option<U32>)
      modifies this`esp
      ensures esp == After(old(esp), 4) && val == Gather(mem, pages, old(esp), 4)
    {
      GatherBound(mem, pages, esp, 4);
      WordSize();
      var r := Gather(mem, pages, esp, 4);
      esp := After(esp, 4);
      if r.None? { return None; }
      return Some(r.value);
    }

    /** raise_intr through a gate that lies in memory: false only where a push has no memory to go to,
        or the gate is neither an interrupt nor a trap gate. */
    method RaiseIntr(no: Byte, ghost g: Gate) returns (ok: bool)
      requires cs < 0x1_0000
      requires HoldsGate(mem, pages, After(idtr, 8 * no), g) && Clear(mem, pages, esp, After(idtr, 8 * no))
      modifies this`esp, this`mem, this`eip, this`cs, this`eflags
      ensures var t := FramePushed(old(mem), pages, old(esp), old(eflags), old(cs), old(eip));
              && (ok <==> t.Some? && g.kind in {INTERRUPT_GATE_32, TRAP_GATE_32})
              && (ok ==> mem == t.value)
      ensures ok ==> eip / 0x1_0000 == g.offsetHigh && eip % 0x1_0000 == g.offsetLow && cs == g.selector
      ensures ok ==> eip == Target(g) && esp == Below(old(esp), 12)
      ensures ok ==>
        && InterruptFlag(eflags) == (if g.kind == TRAP_GATE_32 then 1 else 0)
        && eflags / 0x400 == old(eflags) / 0x400 && eflags % 0x200 == old(eflags) % 0x200
      ensures ok ==> (eflags == ManualFlags(old(eflags), g.kind) <==>
                      g.kind == INTERRUPT_GATE_32 || InterruptFlag(old(eflags)) == 1)
    {
      hide Scatter, Gather, Below, After, LowWord, HighWord, Decode, Touches, Clear, Target;
      hide InterruptFlag, SetInterruptFlag, ManualFlags;
      FlagSet(eflags, g.kind == TRAP_GATE_32);
      TargetParts(g);
      if g.kind in {INTERRUPT_GATE_32, TRAP_GATE_32} { FlagsAgreeIff(eflags, g.kind); }
      BelowTwice(esp);
      ok := SinglePush(eflags);
      if !ok { return; }
      ok := SinglePush(cs);
      if !ok { return; }
      ok := SinglePush(eip);
      if !ok { return; }
      GateSurvives(old(mem), pages, old(esp), old(eflags), old(cs), old(eip), After(idtr, 8 * no), g);
      assert HoldsGate(mem, pages, After(idtr, 8 * no), g);
      DecodeEncode(g);
      var gateStart := After(idtr, 8 * no);
      var low := Gather(mem, pages, gateStart, 4);
      var high := Gather(mem, pages, After(gateStart, 4), 4);
      var gate := Decode(low.value, high.value);
      if gate.kind == 0xE {
        eflags := SetInterruptFlag(eflags, false);
      } else if gate.kind == 0xF {
        eflags := SetInterruptFlag(eflags, true);
      } else {
        return false;
      }
      eip := Target(gate);
      cs := gate.selector;
      return true;
    }

    /** raise_intr through the table init_idt makes: any number gets to its handler in the kernel's code
        segment, with interrupts off exactly for the four devices. */
    method RaiseKernelIntr(no: Byte, ghost h: Handlers) returns (ok: bool)
      requires |h.vec| == 15 && cs < 0x1_0000
      requires HoldsGate(mem, pages, After(idtr, 8 * no), Expected(h, no))
      requires Clear(mem, pages, esp, After(idtr, 8 * no))
      modifies this`esp, this`mem, this`eip, this`cs, this`eflags
      ensures var t := FramePushed(old(mem), pages, old(esp), old(eflags), old(cs), old(eip));
              (ok <==> t.Some?) && (ok ==> mem == t.value && esp == Below(old(esp), 12))
      ensures ok ==> eip == Handler(h, no) && cs == 8
      ensures ok ==>
        && InterruptFlag(eflags) == (if no in {32, 33, 34, 46} then 0 else 1)
        && eflags / 0x400 == old(eflags) / 0x400 && eflags % 0x200 == old(eflags) % 0x200
    {
      hide FramePushed, HoldsGate, Clear, Below, After, InterruptFlag, Expected, Handler, Target;
      KernelGate(h, no);
      ok := RaiseIntr(no, Expected(h, no));
    }

    /** iret; false where a pop has no memory to come from. */
    method Iret() returns (ok: bool)
      modifies this`esp, this`eip, this`cs, this`eflags
      ensures var a := Gather(mem, pages, old(esp), 4);
              var b := Gather(mem, pages, After(old(esp), 4), 4);
              var c := Gather(mem, pages, After(old(esp), 8), 4);
              && (ok <==> a.Some? && b.Some? && c.Some?)
              && (ok ==> eip == a.value && cs == b.value % 0x1_0000 && eflags == c.value)
      ensures ok ==> esp == After(old(esp), 12)
    {
      AfterTwice(esp);
      hide Gather, After;
      var a := SinglePop();
      if a.None? { return false; }
      eip := a.value;
      var b := SinglePop();
      if b.None? { return false; }
      cs := b.value % 0x1_0000;
      var c := SinglePop();
      if c.None? { return false; }
      eflags := c.value;
      return true;
    }

    /** An interrupt and its return, with a handler that leaves the stack as it found it: the processor
        is where it was, and memory differs in the twelve bytes of the frame at most. */
    method RaiseAndReturn(no: Byte, ghost g: Gate) returns (ok: bool)
      requires cs < 0x1_0000
      requires HoldsGate(mem, pages, After(idtr, 8 * no), g) && Clear(mem, pages, esp, After(idtr, 8 * no))
      modifies this`esp, this`mem, this`eip, this`cs, this`eflags
      ensures ok <==>
        FramePushed(old(mem), pages, old(esp), old(eflags), old(cs), old(eip)).Some? &&
        g.kind in {INTERRUPT_GATE_32, TRAP_GATE_32}
      ensures ok ==> eip == old(eip) && cs == old(cs) && eflags == old(eflags) && esp == old(esp)
      ensures ok ==> |mem| == |old(mem)| && forall q ::
        0 <= q < |mem| && !Touches(pages, Below(old(esp), 12), 12, q) ==> mem[q] == old(mem[q])
    {
      hide FramePushed, HoldsGate, Clear, Gather, Below, After, Touches;
      ok := RaiseIntr(no, g);
      if !ok { return; }
      ghost var m, sp, fl, c, ip := old(mem), old(esp), old(eflags), old(cs), old(eip);
      FrameHolds(m, pages, sp, fl, c, ip);
      BelowAfter(sp, 12, 4);
      BelowAfter(sp, 12, 8);
      BelowAfter(sp, 12, 12);
      ok := Iret();
      FrameLength(m, pages, sp, fl, c, ip);
      forall q | 0 <= q < |mem| && !Touches(pages, Below(sp, 12), 12, q) ensures mem[q] == m[q] {
        FrameLeaves(m, pages, sp, fl, c, ip, q);
      }
    }
  }

  lemma BelowTwice(esp: U32)
    ensures Below(Below(esp, 4), 4) == Below(esp, 8) && Below(Below(esp, 8), 4) == Below(esp, 12)
  {
    BelowIs(esp, 4);
    BelowIs(esp, 8);
    BelowIs(esp, 12);
    BelowIs(Below(esp, 4), 4);
    BelowIs(Below(esp, 8), 4);
    hide Below;
  }

  lemma AfterTwice(esp: U32)
    ensures After(After(esp, 4), 4) == After(esp, 8) && After(After(esp, 8), 4) == After(esp, 12)
  {
    AfterIs(esp, 4);
    AfterIs(esp, 8);
    AfterIs(esp, 12);
    AfterIs(After(esp, 4), 4);
    AfterIs(After(esp, 8), 4);
    hide After;
  }

  lemma {:induction false} GatherBound(m: seq<Byte>, pages: PageMap, at: U32, n: nat)
    ensures Gather(m, pages, at, n).Some? ==> Gather(m, pages, at, n).value < Pow256(n)
    decreases n
  {
    if n > 0 {
      GatherBound(m, pages, Next(at), n - 1);
    }
  }
}
