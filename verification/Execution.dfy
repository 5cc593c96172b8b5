/**
 `exec` of nemu/src/cpu/cpu.c with breakpoints: run, stop at an armed opcode, put the original opcode
 back, and on the next call re-run the instruction and re-arm. The debugged program cannot tell: up to
 stops that repeat a state, the machine goes through exactly the states of the unpatched program.
 */
module Execution {
  import opened Marks
  import opened BreakpointPool
  import opened Words

  datatype Cpu = Cpu(eip: U32, regs: seq<nat>)

  datatype NemuState = STOP | RUN | READY | BREAK

  /** What one instruction other than 0xf1 does: registers and memory, its length, and whether it is
      the trap that ends the program. */
  datatype Outcome = Outcome(cpu: Cpu, mem: seq<Byte>, len: nat, stop: bool)

  type Isa = (Cpu, seq<Byte>) -> Outcome

  /** What a watched expression evaluates to, on registers and memory as they are. */
  type Probe = (string, Cpu, seq<Byte>) -> nat

  datatype Guest = Guest(cpu: Cpu, mem: seq<Byte>)

  function Fetch(mem: seq<Byte>, a: nat): Byte { if a < |mem| then mem[a] else 0 }

  function Advance(cpu: Cpu, len: nat): Cpu { cpu.(eip := (cpu.eip + len) % 0x1_0000_0000) }

  /** Lengths add up, one byte at a time around the end of the address space, and registers stay. */
  lemma AdvanceByBytes(cpu: Cpu, len: nat)
    ensures Advance(cpu, 0) == cpu && Advance(cpu, len + 1) == Advance(Advance(cpu, len), 1)
    ensures Advance(cpu, 1) == Cpu(if cpu.eip == 0xffff_ffff then 0 else cpu.eip + 1, cpu.regs)
  {
  }

  function Previous(a: U32): U32 { if a == 0 then 0xffff_ffff else a - 1 }

  /** One instruction of the unpatched program. An 0xf1 of its own has length 1 and no other effect. */
  function ProgramStep(isa: Isa, g: Guest): Guest {
    if Fetch(g.mem, g.cpu.eip) == INT3 then Guest(Advance(g.cpu, 1), g.mem)
    else
      var o := isa(g.cpu, g.mem);
      Guest(Advance(o.cpu, o.len), o.mem)
  }

  /** The instruction at g is the trap that ends the program. */
  predicate Stops(isa: Isa, g: Guest) { Fetch(g.mem, g.cpu.eip) != INT3 && isa(g.cpu, g.mem).stop }

  function ProgramRun(isa: Isa, g: Guest, k: nat): Guest {
    if k == 0 then g else ProgramStep(isa, ProgramRun(isa, g, k - 1))
  }

  lemma {:induction false} ProgramRunAdd(isa: Isa, g: Guest, j: nat, k: nat)
    ensures ProgramRun(isa, ProgramRun(isa, g, j), k) == ProgramRun(isa, g, j + k)
  {
    hide ProgramStep;
    if k > 0 {
      ProgramRunAdd(isa, g, j, k - 1);
      assert j + k - 1 == j + (k - 1);
    }
  }

  /** Memory with some addresses overwritten by 0xf1. */
  function Overlay(mem: seq<Byte>, q: set<nat>): (r: seq<Byte>)
    ensures |r| == |mem|
    ensures forall i :: 0 <= i < |r| ==> r[i] == if i in q then INT3 else mem[i]
  {
    seq(|mem|, i requires 0 <= i < |mem| => if i in q then INT3 else mem[i])
  }

  /** The instruction at g neither reads nor writes the addresses p as data or operand bytes: running
      it over any overlay of p that leaves its own first byte gives the overlay of its result. */
  ghost predicate Untouched(isa: Isa, p: set<nat>, g: Guest) {
    Fetch(g.mem, g.cpu.eip) != INT3 ==>
      var o := isa(g.cpu, g.mem);
      && |o.mem| == |g.mem|
      && (forall a :: a in p && a < |g.mem| ==> o.mem[a] == g.mem[a])
      && (forall q :: q <= p && g.cpu.eip !in q ==>
            isa(g.cpu, Overlay(g.mem, q)) == Outcome(o.cpu, Overlay(o.mem, q), o.len, o.stop))
  }

  /** The whole run of the unpatched program leaves the addresses p alone. */
  ghost predicate Undisturbed(isa: Isa, p: set<nat>, g: Guest) {
    forall k: nat :: Untouched(isa, p, ProgramRun(isa, g, k))
  }

  lemma UndisturbedLater(isa: Isa, p: set<nat>, g: Guest, j: nat)
    requires Undisturbed(isa, p, g)
    ensures Undisturbed(isa, p, ProgramRun(isa, g, j))
    ensures Untouched(isa, p, ProgramRun(isa, g, j))
  {
    forall k: nat ensures Untouched(isa, p, ProgramRun(isa, ProgramRun(isa, g, j), k)) {
      ProgramRunAdd(isa, g, j, k);
    }
  }

  // ---------------------------------------------------------------- patched memory

  function Addresses(marks: seq<Mark>): set<nat> {
    set k | 0 <= k < |marks| && marks[k].Break? :: marks[k].addr
  }

  lemma AddressesHave(marks: seq<Mark>, a: nat)
    ensures a in Addresses(marks) <==> HasBreak(marks, a)
  {
    if HasBreak(marks, a) {
      var k :| 0 <= k < |marks| && IsBreakAt(marks[k], a);
      assert marks[k].Break?;
    }
    if a in Addresses(marks) {
      var k :| 0 <= k < |marks| && marks[k].Break? && marks[k].addr == a;
      assert IsBreakAt(marks[k], a);
    }
  }

  /** Memory is the program with 0xf1 at some live breakpoints, and every saved opcode is the program's
      byte (or 0xf1, when another breakpoint was armed there already). */
  ghost predicate Consistent(mem: seq<Byte>, marks: seq<Mark>) {
    && Inside(marks, |mem|)
    && (forall a :: 0 <= a < |mem| && mem[a] != Restored(mem, marks)[a] ==> HasBreak(marks, a) && mem[a] == INT3)
    && (forall k :: 0 <= k < |marks| && marks[k].Break? ==>
          marks[k].ori == INT3 || marks[k].ori == Restored(mem, marks)[marks[k].addr])
  }

  function Differences(mem: seq<Byte>, program: seq<Byte>): set<nat>
    requires |mem| == |program|
  {
    set a | 0 <= a < |mem| && mem[a] != program[a]
  }

  lemma ConsistentIsOverlay(mem: seq<Byte>, marks: seq<Mark>)
    requires Consistent(mem, marks)
    ensures var program := Restored(mem, marks);
      mem == Overlay(program, Differences(mem, program)) && Differences(mem, program) <= Addresses(marks)
  {
    var program := Restored(mem, marks);
    forall a | a in Differences(mem, program) ensures a in Addresses(marks) {
      AddressesHave(marks, a);
    }
  }

  /** An ordinary instruction in patched memory is the program's instruction under the patches. */
  lemma OrdinaryStep(isa: Isa, cpu: Cpu, mem: seq<Byte>, marks: seq<Mark>)
    requires Consistent(mem, marks) && Fetch(mem, cpu.eip) != INT3
    requires Untouched(isa, Addresses(marks), Guest(cpu, Restored(mem, marks)))
    ensures var o := isa(cpu, mem);
      && |o.mem| == |mem|
      && Consistent(o.mem, marks)
      && (forall a :: 0 <= a < |mem| && HasBreak(marks, a) ==> o.mem[a] == mem[a])
      && Guest(Advance(o.cpu, o.len), Restored(o.mem, marks)) == ProgramStep(isa, Guest(cpu, Restored(mem, marks)))
      && (o.stop <==> Stops(isa, Guest(cpu, Restored(mem, marks))))
  {
    var program := Restored(mem, marks);
    var q := Differences(mem, program);
    ConsistentIsOverlay(mem, marks);
    var o, ref := isa(cpu, mem), isa(cpu, program);
    assert o == Outcome(ref.cpu, Overlay(ref.mem, q), ref.len, ref.stop);
    forall a | 0 <= a < |mem|
      ensures Restored(o.mem, marks)[a] == ref.mem[a]
      ensures HasBreak(marks, a) ==> o.mem[a] == mem[a]
    {
      RestoredAt(o.mem, marks, a);
      RestoredAt(mem, marks, a);
      AddressesHave(marks, a);
    }
    assert Restored(o.mem, marks) == ref.mem;
    forall k | 0 <= k < |marks| && marks[k].Break? ensures ref.mem[marks[k].addr] == program[marks[k].addr] {
      assert marks[k].addr in Addresses(marks);
    }
  }

  /** Writing any saved opcode back, or 0xf1, at a live address is invisible to the program. */
  lemma PatchIsInvisible(mem: seq<Byte>, marks: seq<Mark>, a: nat, b: Byte)
    requires Consistent(mem, marks) && HasBreak(marks, a) && a < |mem|
    requires b == INT3 || b == Restored(mem, marks)[a]
    ensures Consistent(mem[a := b], marks) && Restored(mem[a := b], marks) == Restored(mem, marks)
  {
    SameProgram(mem, mem[a := b], marks);
  }

  lemma {:induction false} NewestIsSaved(marks: seq<Mark>, a: nat) returns (k: nat)
    requires HasBreak(marks, a)
    ensures k < |marks| && IsBreakAt(marks[k], a) && marks[k].ori == Newest(marks, a)
    decreases |marks|
  {
    HeadOrTail(marks, a);
    if IsBreakAt(marks[0], a) {
      k := 0;
    } else {
      k := NewestIsSaved(marks[1..], a);
      k := k + 1;
    }
  }

  lemma NewestIsFaithful(mem: seq<Byte>, marks: seq<Mark>, a: nat)
    requires Consistent(mem, marks) && HasBreak(marks, a)
    ensures a < |mem| && (Newest(marks, a) == INT3 || Newest(marks, a) == Restored(mem, marks)[a])
  {
    var k := NewestIsSaved(marks, a);
  }

  lemma ResumeIsInvisible(mem: seq<Byte>, marks: seq<Mark>)
    requires Consistent(mem, marks)
    ensures Consistent(Armed(mem, marks), marks) && Restored(Armed(mem, marks), marks) == Restored(mem, marks)
  {
    ResumeKeepsProgram(mem, marks);
    forall a | 0 <= a < |mem| ensures Armed(mem, marks)[a] == if HasBreak(marks, a) then INT3 else mem[a] {
      ArmedAt(mem, marks, a);
    }
  }

  /** The live breakpoints that the memory has armed. */
  ghost predicate ArmedAtAddr(mem: seq<Byte>, marks: seq<Mark>, a: nat) {
    HasBreak(marks, a) && Fetch(mem, a) == INT3
  }

  /** The debugger's commands between two calls of exec keep the program's view and its consistency. */
  lemma CommandKeepsView(c: Command, d: Debuggee)
    requires Consistent(d.mem, d.marks) && DistinctAddresses(d.marks) && Fresh(c, d)
    ensures var d' := Execute(c, d);
      && Consistent(d'.mem, d'.marks) && DistinctAddresses(d'.marks)
      && Restored(d'.mem, d'.marks) == Restored(d.mem, d.marks)
  {
    var d', program := Execute(c, d), Restored(d.mem, d.marks);
    ExecuteKeepsProgram(c, d, program);
    forall a | 0 <= a < |d.mem| ensures d'.mem[a] == program[a] || (HasBreak(d'.marks, a) && d'.mem[a] == INT3) {
      CommandAt(c, d, a);
    }
    forall k | 0 <= k < |d'.marks| && d'.marks[k].Break?
      ensures d'.marks[k].ori == INT3 || d'.marks[k].ori == program[d'.marks[k].addr]
    {
      if c.SetBreak? && c.addr < |d.mem| {
        assert k > 0 ==> d'.marks[k] == d.marks[k - 1];
      } else if c.SetWatch? {
        assert d'.marks[k] == d.marks[k - 1];
      } else if c.Delete? && IndexOf(d.marks, c.no) < |d.marks| {
        var i := IndexOf(d.marks, c.no);
        assert d'.marks[k] == d.marks[if k < i then k else k + 1];
      } else {
        assert d'.marks == d.marks;
      }
    }
  }

  lemma CommandAt(c: Command, d: Debuggee, a: nat)
    requires Consistent(d.mem, d.marks) && DistinctAddresses(d.marks) && Fresh(c, d) && a < |d.mem|
    ensures var d', program := Execute(c, d), Restored(d.mem, d.marks);
      d'.mem[a] == program[a] || (HasBreak(d'.marks, a) && d'.mem[a] == INT3)
  {
    var d', program := Execute(c, d), Restored(d.mem, d.marks);
    ExecuteKeepsProgram(c, d, program);
    hide Restored, HasBreak, RestoredUp;
    assert d.mem[a] == program[a] || (HasBreak(d.marks, a) && d.mem[a] == INT3);
    match c
    case SetBreak(no, addr) =>
      if addr < |d.mem| { PushedAt(Break(no, addr, d.mem[addr]), d.marks, a); }
    case SetWatch(no, expr, val) => PushedAt(Watch(no, expr, val), d.marks, a);
    case Delete(no) =>
      var k := IndexOf(d.marks, no);
      if k < |d.marks| { FreedAt(d.mem, d.marks, k, a, program); }
    case DeleteAll =>
    case Mask =>
    case Resume =>
      ArmedAt(d.mem, d.marks, a);
  }

  lemma PushedAt(m: Mark, marks: seq<Mark>, a: nat)
    ensures HasBreak([m] + marks, a) <==> IsBreakAt(m, a) || HasBreak(marks, a)
  {
    assert ([m] + marks)[1..] == marks;
    HeadOrTail([m] + marks, a);
    hide HasBreak;
  }

  lemma FreedAt(mem: seq<Byte>, marks: seq<Mark>, k: nat, a: nat, program: seq<Byte>)
    requires Inside(marks, |mem|) && k < |marks| && a < |mem| == |program| && DistinctAddresses(marks)
    requires Inside(Without(marks, k), |mem|) && Restored(Freed(mem, marks[k]), Without(marks, k)) == program
    requires mem[a] == program[a] || (HasBreak(marks, a) && mem[a] == INT3)
    ensures var m := Freed(mem, marks[k])[a];
      m == program[a] || (HasBreak(Without(marks, k), a) && m == INT3)
  {
    hide Restored, HasBreak, Oldest, Without;
    WithoutHas(marks, k, a);
    if IsBreakAt(marks[k], a) {
      DistinctWithout(marks, k);
      RestoredAt(Freed(mem, marks[k]), Without(marks, k), a);
    }
  }

  /** The bytes at live breakpoints are as they were. */
  ghost predicate KeepsLive(mem: seq<Byte>, mem': seq<Byte>, marks: seq<Mark>) {
    |mem'| == |mem| && forall a :: 0 <= a < |mem| && HasBreak(marks, a) ==> mem'[a] == mem[a]
  }

  /** After a step every live breakpoint is armed if the step re-armed, and as before if not, but for
      the one at `but`, where execution stopped. */
  ghost predicate ArmedAfter(mem: seq<Byte>, mem': seq<Byte>, marks: seq<Mark>, rearmed: bool, hit: bool, but: nat) {
    && |mem'| == |mem|
    && forall a :: 0 <= a < |mem| && HasBreak(marks, a) && !(hit && a == but) ==>
         mem'[a] == if rearmed then INT3 else mem[a]
  }

  lemma StepArms(m0: seq<Byte>, m1: seq<Byte>, m2: seq<Byte>, m3: seq<Byte>, marks: seq<Mark>, rerun: bool,
      hit: bool, at: nat, b: Byte)
    requires Inside(marks, |m0|) && KeepsLive(m0, m1, marks)
    requires m2 == if rerun then Armed(m1, marks) else m1
    requires if hit then at < |m2| && m3 == m2[at := b] else m3 == m2
    ensures ArmedAfter(m0, m3, marks, rerun, hit, at)
  {
    forall a | 0 <= a < |m0| && HasBreak(marks, a) ensures Armed(m1, marks)[a] == INT3 {
      ArmedAt(m1, marks, a);
    }
  }

  lemma ArmedThen(m0: seq<Byte>, m1: seq<Byte>, m2: seq<Byte>, marks: seq<Mark>, rearmed: bool, hit: bool, a: nat)
    requires ArmedAfter(m0, m1, marks, rearmed, false, 0) && ArmedAfter(m1, m2, marks, false, hit, a)
    ensures ArmedAfter(m0, m2, marks, rearmed, hit, a)
  {
  }

  /** The addresses that are armed once exec is under way: all live ones if it re-arms, else those the
      memory had armed. */
  ghost predicate Watched(mem: seq<Byte>, marks: seq<Mark>, rearmed: bool, a: nat) {
    HasBreak(marks, a) && (rearmed || Fetch(mem, a) == INT3)
  }

  lemma WatchedIsArmed(m0: seq<Byte>, m1: seq<Byte>, marks: seq<Mark>, rearmed: bool, a: nat)
    requires Inside(marks, |m0|) && ArmedAfter(m0, m1, marks, rearmed, false, 0)
    ensures Watched(m0, marks, rearmed, a) <==> ArmedAtAddr(m1, marks, a)
  {
  }

  // ---------------------------------------------------------------- one step of the patched machine

  datatype Event =
    | Executed                // one instruction of the program
    | Trapped                 // one instruction, and it ended the program
    | OwnBreak                // one instruction, an 0xf1 of the program itself
    | Hit                     // stopped before the instruction at a live breakpoint

  /** What a step does to the program's state. */
  function ProgramEvent(isa: Isa, e: Event, g: Guest): Guest {
    if e.Hit? then g else ProgramStep(isa, g)
  }

  /** How a run of `steps` instructions of the unpatched program ends: the last one is its trap or an 0xf1 of
      its own exactly if the event says so, and no instruction before is either. */
  ghost predicate EndsAs(isa: Isa, g0: Guest, steps: nat, last: Event) {
    && (last.Trapped? || last.OwnBreak? ==> steps > 0)
    && (last.Trapped? ==> Stops(isa, ProgramRun(isa, g0, steps - 1)))
    && (last.OwnBreak? ==> Breaks(ProgramRun(isa, g0, steps - 1)))
    && forall j: nat :: j < (if last.Trapped? || last.OwnBreak? then steps - 1 else steps) ==>
         GoesOn(isa, ProgramRun(isa, g0, j))
  }

  predicate Breaks(g: Guest) { Fetch(g.mem, g.cpu.eip) == INT3 }

  predicate GoesOn(isa: Isa, g: Guest) { !Stops(isa, g) && !Breaks(g) }

  lemma EndsNext(isa: Isa, g0: Guest, steps: nat, e: Event)
    requires EndsAs(isa, g0, steps, Executed)
    requires e.Trapped? <==> !e.Hit? && Stops(isa, ProgramRun(isa, g0, steps))
    requires e.OwnBreak? <==> !e.Hit? && Breaks(ProgramRun(isa, g0, steps))
    ensures EndsAs(isa, g0, if e.Hit? then steps else steps + 1, e)
  {
    hide Stops, Breaks, ProgramRun;
  }

  /** What a call of exec has done after `steps` program instructions, the last event being `last`:
      it started with program state g0 and memory m0, and is now at g with memory m. */
  ghost predicate Reached(isa: Isa, g0: Guest, m0: seq<Byte>, marks: seq<Mark>, rearm: bool,
      steps: nat, last: Event, g: Guest, m: seq<Byte>)
  {
    // the program's own run, nothing else
    && g == ProgramRun(isa, g0, steps)
    // no watched breakpoint was passed (a re-run passes the one it starts at)
    && (forall j :: (if rearm then 1 else 0) <= j < steps ==>
         !Watched(m0, marks, rearm, ProgramRun(isa, g0, j).cpu.eip))
    // only live breakpoints stop it, after the first instruction only watched ones
    && (last.Hit? ==> HasBreak(marks, g.cpu.eip) && (steps > 0 ==> Watched(m0, marks, rearm, g.cpu.eip)))
    && (last.Hit? && steps == 0 ==> ArmedAtAddr(m0, marks, g0.cpu.eip))
    && (steps > 0 ==> !ArmedAtAddr(m0, marks, g0.cpu.eip))
    && (last.Trapped? || last.OwnBreak? ==> steps > 0)
    // a stop leaves the opcode it saved there
    && (last.Hit? ==> Fetch(m, g.cpu.eip) == Newest(marks, g.cpu.eip))
    // what is armed now
    && (steps == 0 && !last.Hit? ==> m == m0)
    && (steps > 0 || last.Hit? ==> ArmedAfter(m0, m, marks, rearm, last.Hit?, g.cpu.eip))
  }

  lemma ReachedStep(isa: Isa, g0: Guest, m0: seq<Byte>, marks: seq<Mark>, rearm: bool,
      steps: nat, g: Guest, m: seq<Byte>, e: Event, g': Guest, m': seq<Byte>)
    requires Inside(marks, |m0|) && Reached(isa, g0, m0, marks, rearm, steps, Executed, g, m)
    requires g' == ProgramEvent(isa, e, g)
    requires e.Hit? <==> ArmedAtAddr(m, marks, g.cpu.eip)
    requires ArmedAfter(m, m', marks, rearm && steps == 0, e.Hit?, g'.cpu.eip)
    requires e.Hit? ==> HasBreak(marks, g'.cpu.eip) && Fetch(m', g'.cpu.eip) == Newest(marks, g'.cpu.eip)
    ensures Reached(isa, g0, m0, marks, rearm, if e.Hit? then steps else steps + 1, e, g', m')
  {
    if steps > 0 {
      assert ArmedAfter(m0, m, marks, rearm, false, 0);
      ArmedThen(m0, m, m', marks, rearm, e.Hit?, g'.cpu.eip);
      WatchedIsArmed(m0, m, marks, rearm, g.cpu.eip);
    }
    hide HasBreak, ArmedAfter, Fetch;
  }

  // ---------------------------------------------------------------- watchpoints on the way

  function Values(probe: Probe, cpu: Cpu, mem: seq<Byte>): string -> nat { e => probe(e, cpu, mem) }

  /** A call is ended by a watchpoint exactly if some watched expression has another value than the one kept. */
  lemma StirredIff(probe: Probe, cpu: Cpu, mem: seq<Byte>, marks: seq<Mark>)
    ensures FirstStirred(marks, Values(probe, cpu, mem)) < |marks| <==>
      exists k :: 0 <= k < |marks| && marks[k].Watch? && marks[k].oldVal != probe(marks[k].expr, cpu, mem)
  {
    FirstChanged(marks, Values(probe, cpu, mem));
  }

  /** Memory as a call of exec that started with m0 has it after its first instruction, when the program's
      memory is `mem`. */
  function Under(mem: seq<Byte>, m0: seq<Byte>, marks: seq<Mark>, rearm: bool): seq<Byte> {
    seq(|mem|, i requires 0 <= i < |mem| =>
      if !HasBreak(marks, i) then mem[i] else if rearm then INT3 else Fetch(m0, i))
  }

  lemma MemoryIsUnder(m: seq<Byte>, m0: seq<Byte>, marks: seq<Mark>, rearm: bool)
    requires Consistent(m, marks) && ArmedAfter(m0, m, marks, rearm, false, 0)
    ensures m == Under(Restored(m, marks), m0, marks, rearm)
  {
    hide HasBreak, Restored;
  }

  /** No watched expression has changed after `j` instructions. */
  ghost predicate Calm(isa: Isa, probe: Probe, g0: Guest, m0: seq<Byte>, marks: seq<Mark>, rearm: bool, j: nat) {
    var g := ProgramRun(isa, g0, j);
    FirstStirred(marks, Values(probe, g.cpu, Under(g.mem, m0, marks, rearm))) == |marks|
  }

  ghost predicate CalmTo(isa: Isa, probe: Probe, g0: Guest, m0: seq<Byte>, marks: seq<Mark>, rearm: bool, k: int) {
    forall j: nat :: 1 <= j <= k ==> Calm(isa, probe, g0, m0, marks, rearm, j)
  }

  lemma StillCalm(isa: Isa, probe: Probe, g0: Guest, m0: seq<Byte>, marks: seq<Mark>, rearm: bool, k: nat,
      cpu: Cpu, m: seq<Byte>)
    requires CalmTo(isa, probe, g0, m0, marks, rearm, k)
    requires Consistent(m, marks) && ArmedAfter(m0, m, marks, rearm, false, 0)
    requires Guest(cpu, Restored(m, marks)) == ProgramRun(isa, g0, k + 1)
    requires FirstStirred(marks, Values(probe, cpu, m)) == |marks|
    ensures CalmTo(isa, probe, g0, m0, marks, rearm, k + 1)
  {
    hide Consistent, ArmedAfter, Restored, Under, FirstStirred;
    MemoryIsUnder(m, m0, marks, rearm);
    assert Calm(isa, probe, g0, m0, marks, rearm, k + 1);
  }

  lemma ConsistentSame(mem: seq<Byte>, ms: seq<Mark>, ms': seq<Mark>)
    requires Consistent(mem, ms) && SameBreaks(ms, ms')
    ensures Consistent(mem, ms') && Restored(mem, ms') == Restored(mem, ms)
  {
    SameBreaksKeep(ms, ms', mem);
    forall a: nat ensures HasBreak(ms, a) <==> HasBreak(ms', a) {
      SameBreaksHave(ms, ms', a);
    }
    forall k | 0 <= k < |ms'| && ms'[k].Break? ensures ms'[k] == ms[k] {
      assert SameBreak(ms[k], ms'[k]);
    }
    hide HasBreak, Restored;
  }

  lemma SameAddresses(ms: seq<Mark>, ms': seq<Mark>)
    requires SameBreaks(ms, ms')
    ensures Addresses(ms') == Addresses(ms)
  {
    forall a: nat ensures a in Addresses(ms) <==> a in Addresses(ms') {
      SameBreaksHave(ms, ms', a);
      AddressesHave(ms, a);
      AddressesHave(ms', a);
    }
  }

  /** A call that does not start at an armed opcode, as after every stop whose saved opcode is not an
      0xf1, executes at least one instruction of the program. */
  lemma MakesProgress(isa: Isa, g0: Guest, m0: seq<Byte>, marks: seq<Mark>, rearm: bool,
      steps: nat, last: Event, g: Guest, m: seq<Byte>)
    requires Reached(isa, g0, m0, marks, rearm, steps, last, g, m)
    requires (last.Executed? ==> steps > 0) && !ArmedAtAddr(m0, marks, g0.cpu.eip)
    ensures steps >= 1
  {
    hide ArmedAfter, HasBreak;
  }

  /** How much of a call's count is used up: a stop at a breakpoint costs one, too. */
  function Used(steps: nat, last: Event): nat { steps + if last.Hit? then 1 else 0 }

  class Debugger {
    const pool: Pool
    const isa: Isa
    const probe: Probe
    var cpu: Cpu
    var state: NemuState

    constructor (p: Pool, i: Isa, w: Probe, c: Cpu)
      ensures pool == p && isa == i && probe == w && cpu == c && state == READY
    {
      pool, isa, probe, cpu, state := p, i, w, c, READY;
    }

    ghost predicate Valid()
      reads pool, pool.live, pool.spare, pool.mem
    {
      pool.Valid() && Consistent(pool.mem[..], pool.Live())
    }

    /** The state the debugged program believes to be in. */
    ghost function View(): Guest
      requires Valid()
      reads this`cpu, pool, pool.live, pool.spare, pool.mem
    {
      Guest(cpu, Restored(pool.mem[..], pool.Live()))
    }

    /** exec_inst, and the addition of the length in exec. */
    method ExecInst() returns (stop: bool)
      requires Valid() && Untouched(isa, Addresses(pool.Live()), View())
      modifies this, pool.mem
      ensures Valid() && pool.Live() == old(pool.Live())
      ensures var hit := Fetch(old(pool.mem[..]), old(cpu.eip)) == INT3;
        && KeepsLive(old(pool.mem[..]), pool.mem[..], pool.Live())
        && (stop <==> !hit && Stops(isa, old(View())))
        && if hit then
          state == BREAK && !stop && cpu == Advance(old(cpu), 1) && pool.mem[..] == old(pool.mem[..])
        else
          && state == (if stop then STOP else old(state))
          && View() == ProgramStep(isa, old(View()))
    {
      var opcode := if cpu.eip < pool.mem.Length then pool.mem[cpu.eip] else 0;
      if opcode == INT3 {
        state := BREAK;
        cpu := Advance(cpu, 1);
        return false;
      }
      var mem := pool.mem[..];
      OrdinaryStep(isa, cpu, mem, pool.Live());
      var o := isa(cpu, mem);
      forall i | 0 <= i < pool.mem.Length {
        pool.mem[i] := o.mem[i];
      }
      assert pool.mem[..] == o.mem;
      if o.stop { state := STOP; }
      cpu := Advance(o.cpu, o.len);
      stop := o.stop;
    }

    /** resume_breakpoints, seen from the program: nothing happens. */
    method Rearm()
      requires Valid()
      modifies pool.mem
      ensures Valid() && pool.Live() == old(pool.Live()) && View() == old(View())
      ensures pool.mem[..] == Armed(old(pool.mem[..]), pool.Live())
    {
      ResumeIsInvisible(pool.mem[..], pool.Live());
      pool.ResumeBreakpoints();
    }

    /** After an 0xf1 was executed: if it was a live breakpoint, put the original opcode back and step
        back in front of it. */
    method Restore() returns (ghost found: bool)
      requires Valid()
      modifies this`cpu, pool.mem
      ensures Valid() && pool.Live() == old(pool.Live())
      ensures var at := Previous(old(cpu.eip));
        && found == HasBreak(pool.Live(), at)
        && cpu == (if found then old(cpu).(eip := at) else old(cpu))
        && View() == Guest(cpu, old(View()).mem)
        && if found then at < pool.mem.Length && pool.mem[..] == old(pool.mem[..])[at := Newest(pool.Live(), at)]
           else pool.mem[..] == old(pool.mem[..])
    {
      hide Restored, Consistent, HasBreak, Newest, Inside, Pool.Live;
      var at := Previous(cpu.eip);
      ghost var marks, m := pool.Live(), pool.mem[..];
      var bp := pool.FindBreakpoint(at);
      found := bp != null;
      if bp != null {
        NewestIsFaithful(m, marks, at);
        PatchIsInvisible(m, marks, at, bp.oriByte);
        pool.mem[bp.addr] := bp.oriByte;
        assert pool.mem[..] == m[at := bp.oriByte];
        cpu := cpu.(eip := at);
      }
    }

    /** One instruction, then re-arm if this is the re-run after a stop, then look the stop up and put the
        original opcode back. */
    method RunOne(rerun: bool) returns (ghost e: Event)
      requires Valid() && state == RUN && Untouched(isa, Addresses(pool.Live()), View())
      modifies this, pool.mem
      ensures Valid() && pool.Live() == old(pool.Live())
      ensures View() == ProgramEvent(isa, e, old(View()))
      ensures state == if e.Executed? then RUN else if e.Trapped? then STOP else BREAK
      ensures e.Hit? <==> ArmedAtAddr(old(pool.mem[..]), pool.Live(), old(cpu.eip))
      ensures e.Trapped? <==> !e.Hit? && Stops(isa, old(View()))
      ensures e.OwnBreak? <==> !e.Hit? && Breaks(old(View()))
      ensures ArmedAfter(old(pool.mem[..]), pool.mem[..], pool.Live(), rerun, e.Hit?, cpu.eip)
      ensures e.Hit? ==> HasBreak(pool.Live(), cpu.eip) && Fetch(pool.mem[..], cpu.eip) == Newest(pool.Live(), cpu.eip)
    {
      ghost var marks, m0 := pool.Live(), pool.mem[..];
      BreakByteIsOwnOrLive(m0, marks, cpu.eip);
      StepsOver(cpu, isa, View());
      hide Consistent, Untouched, HasBreak, Restored, Inside, KeepsLive, ArmedAfter, Addresses, Armed;
      hide Advance, Previous, ProgramStep, Pool.Valid, Pool.Live;
      var stop := ExecInst();
      ghost var m1 := pool.mem[..];
      if rerun {
        Rearm();
      }
      ghost var m2 := pool.mem[..];
      e := if stop then Trapped else Executed;
      if state == BREAK {
        var found := Restore();
        e := if found then Hit else OwnBreak;
      }
      StepArms(m0, m1, m2, pool.mem[..], marks, rerun, e.Hit?, cpu.eip, if e.Hit? then Newest(marks, cpu.eip) else 0);
    }

    lemma StepsOver(c: Cpu, i: Isa, g: Guest)
      ensures Previous(Advance(c, 1).eip) == c.eip && Advance(c, 1).(eip := c.eip) == c
      ensures Fetch(g.mem, g.cpu.eip) == INT3 ==> ProgramStep(i, g) == Guest(Advance(g.cpu, 1), g.mem)
    {
    }

    /** An 0xf1 in memory is a live breakpoint's or the program's own. */
    lemma BreakByteIsOwnOrLive(mem: seq<Byte>, marks: seq<Mark>, a: nat)
      requires Consistent(mem, marks)
      ensures Fetch(mem, a) == INT3 ==> HasBreak(marks, a) || Fetch(Restored(mem, marks), a) == INT3
      ensures Fetch(Restored(mem, marks), a) == INT3 ==> Fetch(mem, a) == INT3
    {
      if a < |mem| && mem[a] != Restored(mem, marks)[a] {
        assert HasBreak(marks, a);
      }
    }

    /** The check for watchpoints: a changed one stops the call. */
    method LookAround() returns (woken: bool)
      requires Valid()
      modifies this`state, Nodes(pool.nodes)`oldVal
      ensures Valid() && View() == old(View())
      ensures var marks, now := old(pool.Live()), Values(probe, cpu, pool.mem[..]);
        (woken <==> FirstStirred(marks, now) < |marks|) && pool.Live() == if woken then Noticed(marks, now) else marks
      ensures SameBreaks(old(pool.Live()), pool.Live())
      ensures state == if woken then READY else old(state)
    {
      hide *;
      PoolIsValid();
      ViewIs();
      ghost var marks, now := pool.Live(), Values(probe, cpu, pool.mem[..]);
      woken := pool.CheckWatchpoints(Values(probe, cpu, pool.mem[..]));
      NoticedSame(marks, now);
      ConsistentSame(pool.mem[..], marks, pool.Live());
      ViewIs();
      if woken {
        state := READY;
      }
    }

    /** The body of exec's loop: an instruction, and the check for watchpoints. */
    method Step(rerun: bool) returns (ghost e: Event, woken: bool)
      requires Valid() && state == RUN && Untouched(isa, Addresses(pool.Live()), View())
      modifies this, pool.mem, Nodes(pool.nodes)`oldVal
      ensures Valid() && View() == ProgramEvent(isa, e, old(View()))
      ensures var marks, now := old(pool.Live()), Values(probe, cpu, pool.mem[..]);
        (woken <==> FirstStirred(marks, now) < |marks|) && pool.Live() == if woken then Noticed(marks, now) else marks
      ensures SameBreaks(old(pool.Live()), pool.Live())
      ensures state == if woken then READY else if e.Executed? then RUN else if e.Trapped? then STOP else BREAK
      ensures e.Hit? <==> ArmedAtAddr(old(pool.mem[..]), old(pool.Live()), old(cpu.eip))
      ensures e.Trapped? <==> !e.Hit? && Stops(isa, old(View()))
      ensures e.OwnBreak? <==> !e.Hit? && Breaks(old(View()))
      ensures ArmedAfter(old(pool.mem[..]), pool.mem[..], old(pool.Live()), rerun, e.Hit?, cpu.eip)
      ensures e.Hit? ==>
        HasBreak(old(pool.Live()), cpu.eip) && Fetch(pool.mem[..], cpu.eip) == Newest(old(pool.Live()), cpu.eip)
    {
      hide *;
      e := RunOne(rerun);
      woken := LookAround();
    }

    lemma ViewIs()
      ensures Valid() <==> pool.Valid() && Consistent(pool.mem[..], pool.Live())
      ensures Valid() ==> View() == Guest(cpu, Restored(pool.mem[..], pool.Live()))
    {
    }

    /** exec: run at most n instructions. `steps` program instructions are executed, `last` says what ended
        the call, unless a watched expression has changed, for the first time in the call. */
    method Exec(n: U32) returns (ghost steps: nat, ghost last: Event, ghost woken: bool)
      requires Valid() && Undisturbed(isa, Addresses(pool.Live()), View())
      modifies this, pool.mem, Nodes(pool.nodes)`oldVal
      ensures Valid() && Undisturbed(isa, Addresses(pool.Live()), View())
      ensures Reached(isa, old(View()), old(pool.mem[..]), old(pool.Live()), old(state) == BREAK,
                      steps, last, View(), pool.mem[..])
      ensures EndsAs(isa, old(View()), steps, last)
      ensures CalmTo(isa, probe, old(View()), old(pool.mem[..]), old(pool.Live()), old(state) == BREAK,
                     Used(steps, last) - 1)
      ensures var marks, now := old(pool.Live()), Values(probe, cpu, pool.mem[..]);
        && pool.Live() == (if woken then Noticed(marks, now) else marks) && SameBreaks(marks, pool.Live())
        && (woken <==> Used(steps, last) > 0 && FirstStirred(marks, now) < |marks|)
      ensures Used(steps, last) <= n && (last.Executed? && !woken ==> steps == n)
      ensures state == if woken then READY else if last.Trapped? then STOP else
                       if Used(steps, last) == n then READY else BREAK
      ensures n > 0 && !ArmedAtAddr(old(pool.mem[..]), old(pool.Live()), old(cpu.eip)) ==> steps >= 1
    {
      hide *;
      PoolIsValid();
      ghost var marks, m0, g0 := pool.Live(), pool.mem[..], View();
      var rerun := state == BREAK;
      ghost var rearm := rerun;
      var left: nat := n;
      state := RUN;
      steps, last, woken := 0, Executed, false;
      ReachedStart(isa, g0, m0, marks, rearm);
      CalmStart(g0, m0, marks, rearm);
      while left > 0 && state == RUN
        invariant Valid() && pool.Valid() && SameBreaks(marks, pool.Live())
        invariant Reached(isa, g0, m0, marks, rearm, steps, last, View(), pool.mem[..])
        invariant View() == ProgramRun(isa, g0, steps) && EndsAs(isa, g0, steps, last)
        invariant left + Used(steps, last) == n
        invariant CalmTo(isa, probe, g0, m0, marks, rearm, Used(steps, last) - 1)
        invariant last.Executed? && !woken ==> CalmTo(isa, probe, g0, m0, marks, rearm, steps)
        invariant var now := Values(probe, cpu, pool.mem[..]);
          && pool.Live() == (if woken then Noticed(marks, now) else marks)
          && (woken <==> Used(steps, last) > 0 && FirstStirred(marks, now) < |marks|)
        invariant state == if woken then READY else if last.Executed? then RUN else
                           if last.Trapped? then STOP else BREAK
        invariant last.Executed? ==> rerun == (rearm && steps == 0)
        decreases left
      {
        PoolIsValid();
        UsedIs(steps, last);
        UndisturbedLater(isa, Addresses(marks), g0, steps);
        ghost var g1, m1, before := View(), pool.mem[..], steps;
        var stirred: bool;
        last, stirred := Step(rerun);
        woken := stirred;
        PoolIsValid();
        ReachedStep(isa, g0, m0, marks, rearm, steps, g1, m1, last, View(), pool.mem[..]);
        EndsNext(isa, g0, steps, last);
        left := left - 1;
        rerun := false;
        steps := if last.Hit? then steps else steps + 1;
        ReachedRun(isa, g0, m0, marks, rearm, steps, last, View(), pool.mem[..]);
        UsedIs(steps, last);
        if last.Executed? && !woken {
          ViewIs();
          ReachedArmed(isa, g0, m0, marks, rearm, steps, last, View(), pool.mem[..]);
          StillCalm(isa, probe, g0, m0, marks, rearm, before, cpu, pool.mem[..]);
        }
      }
      UsedIs(steps, last);
      UndisturbedLater(isa, Addresses(marks), g0, steps);
      SameAddresses(marks, pool.Live());
      if n > 0 && !ArmedAtAddr(m0, marks, g0.cpu.eip) {
        MakesProgress(isa, g0, m0, marks, rearm, steps, last, View(), pool.mem[..]);
      }
      if state == STOP {
      } else if left == 0 {
        state := READY;
      }
    }

    /** Any sequence of exec calls goes through the unpatched program's own run. */
    method ExecAll(ns: seq<U32>) returns (ghost total: nat)
      requires Valid() && Undisturbed(isa, Addresses(pool.Live()), View())
      modifies this, pool.mem, Nodes(pool.nodes)`oldVal
      ensures Valid() && SameBreaks(old(pool.Live()), pool.Live())
      ensures View() == ProgramRun(isa, old(View()), total)
      ensures Undisturbed(isa, Addresses(pool.Live()), View())
    {
      hide *;
      PoolIsValid();
      ghost var marks, g0 := pool.Live(), View();
      total := 0;
      RunNothing(isa, g0);
      SameAlready(marks);
      var i := 0;
      while i < |ns|
        invariant i <= |ns| && Valid() && pool.Valid() && SameBreaks(marks, pool.Live())
        invariant View() == ProgramRun(isa, g0, total)
        invariant Undisturbed(isa, Addresses(pool.Live()), View())
      {
        ghost var g, m, ms, rearm := View(), pool.mem[..], pool.Live(), state == BREAK;
        ghost var steps, last, woken := Exec(ns[i]);
        PoolIsValid();
        SameBreaksThen(marks, ms, pool.Live());
        ReachedRun(isa, g, m, ms, rearm, steps, last, View(), pool.mem[..]);
        ProgramRunAdd(isa, g0, total, steps);
        total := total + steps;
        i := i + 1;
      }
    }

    lemma SameAlready(ms: seq<Mark>)
      ensures SameBreaks(ms, ms)
    {
    }

    lemma UsedIs(steps: nat, last: Event)
      ensures Used(steps, last) == steps + if last.Hit? then 1 else 0
    {
    }

    lemma CalmStart(g0: Guest, m0: seq<Byte>, marks: seq<Mark>, rearm: bool)
      ensures CalmTo(isa, probe, g0, m0, marks, rearm, 0) && CalmTo(isa, probe, g0, m0, marks, rearm, -1)
      ensures SameBreaks(marks, marks) && Used(0, Executed) == 0
    {
    }

    lemma ReachedArmed(i: Isa, g0: Guest, m0: seq<Byte>, marks: seq<Mark>, rearm: bool,
        steps: nat, last: Event, g: Guest, m: seq<Byte>)
      requires Reached(i, g0, m0, marks, rearm, steps, last, g, m) && steps > 0 && !last.Hit?
      ensures ArmedAfter(m0, m, marks, rearm, false, 0)
    {
    }

    lemma PoolIsValid()
      requires Valid()
      ensures pool.Valid() && Inside(pool.Live(), |pool.mem[..]|) && View().cpu == cpu
    {
    }

    lemma RunNothing(i: Isa, g: Guest)
      ensures ProgramRun(i, g, 0) == g
    {
    }

    lemma ReachedStart(i: Isa, g0: Guest, m0: seq<Byte>, marks: seq<Mark>, rearm: bool)
      ensures Reached(i, g0, m0, marks, rearm, 0, Executed, g0, m0) && ProgramRun(i, g0, 0) == g0
      ensures EndsAs(i, g0, 0, Executed)
    {
    }

    lemma ReachedRun(i: Isa, g0: Guest, m0: seq<Byte>, marks: seq<Mark>, rearm: bool,
        steps: nat, last: Event, g: Guest, m: seq<Byte>)
      requires Reached(i, g0, m0, marks, rearm, steps, last, g, m)
      ensures g == ProgramRun(i, g0, steps)
    {
    }
  }
}
