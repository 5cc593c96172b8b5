/** Interrupt gates: the kernel's descriptor table (kernel/src/irq/idt.c) and the descriptor the
    emulator reads back (nemu/src/cpu/intr.c), two views of the same eight bytes. */
module Gates {
  import opened Paging
  import opened Powers
  import opened Words

  const NR_IRQ: nat := 256
  const INTERRUPT_GATE_32: nat := 0xE
  const TRAP_GATE_32: nat := 0xF
  const SEG_KERNEL_CODE: nat := 1
  const DPL_KERNEL: nat := 0
  const DPL_USER: nat := 3

  /** The fields of a descriptor, each as wide as its bit field. */
  datatype Gate = Gate(
    offsetLow: nat, selector: nat, pad: nat, kind: nat, system: nat, dpl: nat, present: nat, offsetHigh: nat)

  predicate Fits(g: Gate) {
    && g.offsetLow < 0x1_0000 && g.selector < 0x1_0000 && g.pad < 0x100 && g.kind < 16 && g.system < 2
    && g.dpl < 4 && g.present < 2 && g.offsetHigh < 0x1_0000
  }

  /** The two words of a descriptor in memory, fields from the lowest bit up. */
  function LowWord(g: Gate): (w: U32)
    requires Fits(g)
  {
    g.offsetLow + 0x1_0000 * g.selector
  }

  function HighWord(g: Gate): (w: U32)
    requires Fits(g)
  {
    g.pad + 0x100 * g.kind + 0x1000 * g.system + 0x2000 * g.dpl + 0x8000 * g.present + 0x1_0000 * g.offsetHigh
  }

  /** The union of the emulator: the fields of two words. */
  function Decode(low: U32, high: U32): Gate {
    Gate(low % 0x1_0000, low / 0x1_0000,
         high % 0x100, high / 0x100 % 16, high / 0x1000 % 2, high / 0x2000 % 4, high / 0x8000 % 2, high / 0x1_0000)
  }

  /** Reading a descriptor back gives its fields. */
  lemma DecodeEncode(g: Gate)
    requires Fits(g)
    ensures Decode(LowWord(g), HighWord(g)) == g
  {
    var x1 := g.present + 2 * g.offsetHigh;
    var x2 := g.dpl + 4 * x1;
    var x3 := g.system + 2 * x2;
    var x4 := g.kind + 16 * x3;
    var h := HighWord(g);
    assert h == g.pad + 0x100 * x4;
    assert h == (g.pad + 0x100 * g.kind) + 0x1000 * x3;
    assert h == (g.pad + 0x100 * g.kind + 0x1000 * g.system) + 0x2000 * x2;
    assert h == (g.pad + 0x100 * g.kind + 0x1000 * g.system + 0x2000 * g.dpl) + 0x8000 * x1;
    hide HighWord;
    DivMod(h, 0x100, x4, g.pad);
    DivMod(h, 0x1000, x3, g.pad + 0x100 * g.kind);
    DivMod(h, 0x2000, x2, g.pad + 0x100 * g.kind + 0x1000 * g.system);
    DivMod(h, 0x8000, x1, g.pad + 0x100 * g.kind + 0x1000 * g.system + 0x2000 * g.dpl);
    DivMod(h, 0x1_0000, g.offsetHigh, h - 0x1_0000 * g.offsetHigh);
    DivMod(x4, 16, x3, g.kind);
    DivMod(x3, 2, x2, g.system);
    DivMod(x2, 4, x1, g.dpl);
    DivMod(x1, 2, g.offsetHigh, g.present);
    DivMod(LowWord(g), 0x1_0000, g.selector, g.offsetLow);
  }

  /** Where the emulator jumps through a gate. */
  function Target(g: Gate): (r: U32)
    requires Fits(g)
  {
    g.offsetHigh * 0x1_0000 + g.offsetLow
  }

  lemma TargetParts(g: Gate)
    requires Fits(g)
    ensures Target(g) / 0x1_0000 == g.offsetHigh && Target(g) % 0x1_0000 == g.offsetLow
  {
  }

  /** set_intr and set_trap, which differ in the type. */
  function MakeGate(kind: nat, selector: U32, offset: U32, dpl: nat): (g: Gate)
    requires kind < 16
  {
    Gate(offset % 0x1_0000, selector % 0x1_0000, 0, kind, 0, dpl % 4, 1, offset / 0x1_0000 % 0x1_0000)
  }

  /** A gate made for a handler is present, has the privilege level asked for, and leads to that handler. */
  lemma GateLeads(kind: nat, selector: U32, offset: U32, dpl: nat)
    requires kind < 16 && selector < 0x1_0000
    ensures var g := MakeGate(kind, selector, offset, dpl);
            && Fits(g) && Target(g) == offset && g.selector == selector && g.kind == kind
            && g.present == 1 && g.system == 0 && g.pad == 0 && (dpl < 4 ==> g.dpl == dpl)
            && Decode(LowWord(g), HighWord(g)) == g
  {
    var g := MakeGate(kind, selector, offset, dpl);
    assert offset == offset / 0x1_0000 * 0x1_0000 + offset % 0x1_0000;
    DecodeEncode(g);
    hide Decode, LowWord, HighWord;
  }

  /** The addresses of the kernel's entry points. */
  datatype Handlers = Handlers(vec: seq<U32>, vecsys: U32, irq0: U32, irq1: U32, irq2: U32, irq14: U32, empty: U32)

  /** What entry `n` of the table is for. */
  function Expected(h: Handlers, n: nat): Gate
    requires |h.vec| == 15
  {
    var code := SEG_KERNEL_CODE * 8;
    if n < 15 then MakeGate(TRAP_GATE_32, code, h.vec[n], DPL_KERNEL)
    else if n == 0x80 then MakeGate(TRAP_GATE_32, code, h.vecsys, DPL_USER)
    else if n == 32 then MakeGate(INTERRUPT_GATE_32, code, h.irq0, DPL_KERNEL)
    else if n == 33 then MakeGate(INTERRUPT_GATE_32, code, h.irq1, DPL_KERNEL)
    else if n == 34 then MakeGate(INTERRUPT_GATE_32, code, h.irq2, DPL_KERNEL)
    else if n == 46 then MakeGate(INTERRUPT_GATE_32, code, h.irq14, DPL_KERNEL)
    else MakeGate(TRAP_GATE_32, code, h.empty, DPL_KERNEL)
  }

  /** The address of the handler entry `n` is for. */
  function Handler(h: Handlers, n: nat): U32
    requires |h.vec| == 15
  {
    if n < 15 then h.vec[n]
    else if n == 0x80 then h.vecsys
    else if n == 32 then h.irq0
    else if n == 33 then h.irq1
    else if n == 34 then h.irq2
    else if n == 46 then h.irq14
    else h.empty
  }

  /** Every entry is present and leads to its handler in the kernel's code segment; exactly the four device
      interrupts go through interrupt gates, and exactly the system call is open to user code. */
  lemma KernelGate(h: Handlers, n: nat)
    requires |h.vec| == 15 && n < NR_IRQ
    ensures var g := Expected(h, n);
            && Fits(g) && Target(g) == Handler(h, n) && g.selector == 8
            && Decode(LowWord(g), HighWord(g)) == g
            && g.present == 1 && g.system == 0 && g.pad == 0 && g.dpl == (if n == 0x80 then 3 else 0)
            && g.kind == if n in {32, 33, 34, 46} then 0xE else 0xF
  {
    hide MakeGate, Decode, Target, Fits, LowWord, HighWord;
    var kind := if n in {32, 33, 34, 46} then INTERRUPT_GATE_32 else TRAP_GATE_32;
    GateLeads(kind, 8, Handler(h, n), if n == 0x80 then DPL_USER else DPL_KERNEL);
  }

  class Table {
    const idt: array<Gate>

    constructor ()
      ensures idt.Length == NR_IRQ == 256 && fresh(idt)
    {
      idt := new Gate[NR_IRQ](_ => Gate(0, 0, 0, 0, 0, 0, 0, 0));
    }

    method SetIntr(n: nat, selector: U32, offset: U32, dpl: nat)
      requires n < idt.Length
      modifies idt
      ensures idt[..] == old(idt[..])[n := MakeGate(INTERRUPT_GATE_32, selector, offset, dpl)]
    {
      idt[n] := idt[n].(offsetLow := offset % 0x1_0000);
      idt[n] := idt[n].(selector := selector % 0x1_0000);
      idt[n] := idt[n].(pad := 0);
      idt[n] := idt[n].(kind := INTERRUPT_GATE_32);
      idt[n] := idt[n].(system := 0);
      idt[n] := idt[n].(dpl := dpl % 4);
      idt[n] := idt[n].(present := 1);
      idt[n] := idt[n].(offsetHigh := offset / 0x1_0000 % 0x1_0000);
    }

    method SetTrap(n: nat, selector: U32, offset: U32, dpl: nat)
      requires n < idt.Length
      modifies idt
      ensures idt[..] == old(idt[..])[n := MakeGate(TRAP_GATE_32, selector, offset, dpl)]
    {
      idt[n] := idt[n].(offsetLow := offset % 0x1_0000);
      idt[n] := idt[n].(selector := selector % 0x1_0000);
      idt[n] := idt[n].(pad := 0);
      idt[n] := idt[n].(kind := TRAP_GATE_32);
      idt[n] := idt[n].(system := 0);
      idt[n] := idt[n].(dpl := dpl % 4);
      idt[n] := idt[n].(present := 1);
      idt[n] := idt[n].(offsetHigh := offset / 0x1_0000 % 0x1_0000);
    }

    /** init_idt: whatever the order of the calls, every entry ends up as the one it is for. */
    method InitIdt(h: Handlers)
      requires idt.Length == NR_IRQ && |h.vec| == 15
      modifies idt
      ensures forall n :: 0 <= n < NR_IRQ ==> idt[n] == Expected(h, n)
    {
      hide MakeGate;
      var code := SEG_KERNEL_CODE * 8;
      var i := 0;
      while i < NR_IRQ
        invariant 0 <= i <= NR_IRQ
        invariant forall n :: 0 <= n < i ==> idt[n] == MakeGate(TRAP_GATE_32, code, h.empty, DPL_KERNEL)
      {
        SetTrap(i, code, h.empty, DPL_KERNEL);
        assert forall n :: 0 <= n < NR_IRQ ==> idt[n] == idt[..][n];
        i := i + 1;
      }
      SetTrap(0, code, h.vec[0], DPL_KERNEL);
      SetTrap(1, code, h.vec[1], DPL_KERNEL);
      SetTrap(2, code, h.vec[2], DPL_KERNEL);
      SetTrap(3, code, h.vec[3], DPL_KERNEL);
      SetTrap(4, code, h.vec[4], DPL_KERNEL);
      SetTrap(5, code, h.vec[5], DPL_KERNEL);
      SetTrap(6, code, h.vec[6], DPL_KERNEL);
      SetTrap(7, code, h.vec[7], DPL_KERNEL);
      SetTrap(8, code, h.vec[8], DPL_KERNEL);
      SetTrap(9, code, h.vec[9], DPL_KERNEL);
      SetTrap(10, code, h.vec[10], DPL_KERNEL);
      SetTrap(11, code, h.vec[11], DPL_KERNEL);
      SetTrap(12, code, h.vec[12], DPL_KERNEL);
      SetTrap(13, code, h.vec[13], DPL_KERNEL);
      SetTrap(14, code, h.vec[14], DPL_KERNEL);
      SetTrap(0x80, code, h.vecsys, DPL_USER);
      SetIntr(32 + 0, code, h.irq0, DPL_KERNEL);
      SetIntr(32 + 1, code, h.irq1, DPL_KERNEL);
      SetIntr(32 + 2, code, h.irq2, DPL_KERNEL);
      SetIntr(32 + 14, code, h.irq14, DPL_KERNEL);
      assert forall n :: 0 <= n < NR_IRQ ==> idt[n] == idt[..][n];
    }
  }
}
