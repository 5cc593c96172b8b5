/**
 The breakpoint list of nemu/src/monitor/breakpoint.c as a value: the live entries from head to tail,
 and what their opcode patches do to guest memory. The head is the newest entry.
 */
module Marks {
  import opened Words

  const INT3: Byte := 0xf1

  datatype Mark =
    | Break(no: nat, addr: nat, ori: Byte)
    | Watch(no: nat, expr: string, oldVal: nat)

  /** Every breakpoint of the list lies in memory. */
  predicate Inside(marks: seq<Mark>, size: nat) {
    forall k :: 0 <= k < |marks| && marks[k].Break? ==> marks[k].addr < size
  }

  /** Memory with the saved opcodes written back from head to tail: the program as it was before any
      live breakpoint was set. */
  function Restored(mem: seq<Byte>, marks: seq<Mark>): (r: seq<Byte>)
    requires Inside(marks, |mem|)
    ensures |r| == |mem|
    decreases |marks|
  {
    if marks == [] then mem
    else if marks[0].Watch? then Restored(mem, marks[1..])
    else Restored(mem[marks[0].addr := marks[0].ori], marks[1..])
  }

  /** Memory with the saved opcodes written back from tail to head, as delete-all does. */
  function RestoredUp(mem: seq<Byte>, marks: seq<Mark>): (r: seq<Byte>)
    requires Inside(marks, |mem|)
    ensures |r| == |mem|
  {
    if marks == [] then mem
    else
      var rest := RestoredUp(mem, marks[1..]);
      if marks[0].Watch? then rest else rest[marks[0].addr := marks[0].ori]
  }

  /** Memory with every live breakpoint armed. */
  function Armed(mem: seq<Byte>, marks: seq<Mark>): (r: seq<Byte>)
    requires Inside(marks, |mem|)
    ensures |r| == |mem|
    decreases |marks|
  {
    if marks == [] then mem
    else if marks[0].Watch? then Armed(mem, marks[1..])
    else Armed(mem[marks[0].addr := INT3], marks[1..])
  }

  predicate IsBreakAt(m: Mark, a: nat) { m.Break? && m.addr == a }

  predicate HasBreak(marks: seq<Mark>, a: nat) {
    exists k :: 0 <= k < |marks| && IsBreakAt(marks[k], a)
  }

  lemma HeadOrTail(marks: seq<Mark>, a: nat)
    ensures HasBreak(marks, a) <==> marks != [] && (IsBreakAt(marks[0], a) || HasBreak(marks[1..], a))
  {
    if HasBreak(marks, a) {
      var k :| 0 <= k < |marks| && IsBreakAt(marks[k], a);
      if k > 0 { assert IsBreakAt(marks[1..][k - 1], a); }
    }
    if marks != [] && HasBreak(marks[1..], a) {
      var k :| 0 <= k < |marks[1..]| && IsBreakAt(marks[1..][k], a);
      assert IsBreakAt(marks[k + 1], a);
    }
  }

  /** The saved opcode of the oldest, and of the newest, live breakpoint at an address. */
  function Oldest(marks: seq<Mark>, a: nat): Byte
    requires HasBreak(marks, a)
  {
    HeadOrTail(marks, a);
    if HasBreak(marks[1..], a) then Oldest(marks[1..], a) else marks[0].ori
  }

  function Newest(marks: seq<Mark>, a: nat): Byte
    requires HasBreak(marks, a)
  {
    HeadOrTail(marks, a);
    if IsBreakAt(marks[0], a) then marks[0].ori else Newest(marks[1..], a)
  }

  /** Restoring gives each address the oldest saved opcode and leaves all other bytes alone. */
  lemma {:induction false} RestoredAt(mem: seq<Byte>, marks: seq<Mark>, a: nat)
    requires Inside(marks, |mem|) && a < |mem|
    ensures Restored(mem, marks)[a] == if HasBreak(marks, a) then Oldest(marks, a) else mem[a]
    decreases |marks|
  {
    if marks != [] {
      var m := if marks[0].Watch? then mem else mem[marks[0].addr := marks[0].ori];
      RestoredAt(m, marks[1..], a);
      HeadOrTail(marks, a);
    }
  }

  lemma {:induction false} RestoredUpAt(mem: seq<Byte>, marks: seq<Mark>, a: nat)
    requires Inside(marks, |mem|) && a < |mem|
    ensures RestoredUp(mem, marks)[a] == if HasBreak(marks, a) then Newest(marks, a) else mem[a]
    decreases |marks|
  {
    if marks != [] {
      RestoredUpAt(mem, marks[1..], a);
      HeadOrTail(marks, a);
    }
  }

  lemma {:induction false} ArmedAt(mem: seq<Byte>, marks: seq<Mark>, a: nat)
    requires Inside(marks, |mem|) && a < |mem|
    ensures Armed(mem, marks)[a] == if HasBreak(marks, a) then INT3 else mem[a]
    decreases |marks|
  {
    if marks != [] {
      var m := if marks[0].Watch? then mem else mem[marks[0].addr := INT3];
      ArmedAt(m, marks[1..], a);
      HeadOrTail(marks, a);
    }
  }

  // ---------------------------------------------------------------- what the commands keep

  /** Two memories that differ at live breakpoints only restore to the same program. */
  lemma SameProgram(m: seq<Byte>, m': seq<Byte>, marks: seq<Mark>)
    requires |m| == |m'| && Inside(marks, |m|)
    requires forall a :: 0 <= a < |m| && !HasBreak(marks, a) ==> m[a] == m'[a]
    ensures Restored(m, marks) == Restored(m', marks)
  {
    forall a | 0 <= a < |m| ensures Restored(m, marks)[a] == Restored(m', marks)[a] {
      RestoredAt(m, marks, a);
      RestoredAt(m', marks, a);
    }
  }

  /** Setting a breakpoint keeps the program, whatever is already live at that address. */
  lemma SetKeepsProgram(mem: seq<Byte>, marks: seq<Mark>, no: nat, addr: nat)
    requires Inside(marks, |mem|) && addr < |mem|
    ensures var marks' := [Break(no, addr, mem[addr])] + marks;
      Inside(marks', |mem|) && Restored(mem[addr := INT3], marks') == Restored(mem, marks)
  {
    var marks' := [Break(no, addr, mem[addr])] + marks;
    assert marks'[1..] == marks;
    assert mem[addr := INT3][addr := mem[addr]] == mem;
  }

  lemma ResumeKeepsProgram(mem: seq<Byte>, marks: seq<Mark>)
    requires Inside(marks, |mem|)
    ensures Restored(Armed(mem, marks), marks) == Restored(mem, marks)
  {
    forall a | 0 <= a < |mem| && !HasBreak(marks, a) ensures Armed(mem, marks)[a] == mem[a] {
      ArmedAt(mem, marks, a);
    }
    SameProgram(Armed(mem, marks), mem, marks);
  }

  lemma MaskKeepsProgram(mem: seq<Byte>, marks: seq<Mark>)
    requires Inside(marks, |mem|)
    ensures Restored(Restored(mem, marks), marks) == Restored(mem, marks)
  {
    forall a | 0 <= a < |mem| && !HasBreak(marks, a) ensures Restored(mem, marks)[a] == mem[a] {
      RestoredAt(mem, marks, a);
    }
    SameProgram(Restored(mem, marks), mem, marks);
  }

  function Without(marks: seq<Mark>, k: nat): seq<Mark>
    requires k < |marks|
  {
    marks[..k] + marks[k + 1..]
  }

  /** The memory after the k-th entry was freed. */
  function Freed(mem: seq<Byte>, m: Mark): seq<Byte>
    requires m.Break? ==> m.addr < |mem|
  {
    if m.Watch? then mem else mem[m.addr := m.ori]
  }

  lemma RestoredUpStep(mem: seq<Byte>, marks: seq<Mark>)
    requires Inside(marks, |mem|)
    ensures marks == [] ==> RestoredUp(mem, marks) == mem
    ensures marks != [] ==>
      (Inside(marks[1..], |mem|) && (marks[0].Break? ==> marks[0].addr < |mem|)
      && RestoredUp(mem, marks) == Freed(RestoredUp(mem, marks[1..]), marks[0]))
  {
  }

  lemma WithoutHas(marks: seq<Mark>, k: nat, a: nat)
    requires k < |marks|
    ensures HasBreak(marks, a) <==> HasBreak(Without(marks, k), a) || IsBreakAt(marks[k], a)
  {
    var rest := Without(marks, k);
    if HasBreak(rest, a) {
      var j :| 0 <= j < |rest| && IsBreakAt(rest[j], a);
      assert IsBreakAt(marks[if j < k then j else j + 1], a);
    }
    if HasBreak(marks, a) {
      var j :| 0 <= j < |marks| && IsBreakAt(marks[j], a);
      if j != k { assert IsBreakAt(rest[if j < k then j else j - 1], a); }
    }
  }

  lemma {:induction false} OldestWithout(marks: seq<Mark>, k: nat, a: nat)
    requires k < |marks| && HasBreak(marks, a)
    ensures !IsBreakAt(marks[k], a) ==>
      HasBreak(Without(marks, k), a) && Oldest(Without(marks, k), a) == Oldest(marks, a)
    ensures !HasBreak(Without(marks, k), a) ==> Oldest(marks, a) == marks[k].ori
    decreases |marks|
  {
    var rest := Without(marks, k);
    WithoutHas(marks, k, a);
    HeadOrTail(marks, a);
    if k > 0 {
      assert rest[1..] == Without(marks[1..], k - 1);
      assert marks[1..][k - 1] == marks[k] && rest[0] == marks[0];
      HeadOrTail(rest, a);
      WithoutHas(marks[1..], k - 1, a);
      if HasBreak(marks[1..], a) {
        OldestWithout(marks[1..], k - 1, a);
      }
    } else {
      assert rest == marks[1..];
    }
  }

  /** Deleting entry k keeps the program exactly when no newer breakpoint at its address would take
      over with a different saved opcode. With one live breakpoint per address it always does. */
  lemma DeleteKeepsProgramIff(mem: seq<Byte>, marks: seq<Mark>, k: nat)
    requires Inside(marks, |mem|) && k < |marks|
    ensures Inside(Without(marks, k), |mem|)
    ensures marks[k].Break? ==> HasBreak(marks, marks[k].addr)
    ensures Restored(Freed(mem, marks[k]), Without(marks, k)) == Restored(mem, marks) <==>
      (marks[k].Break? && HasBreak(Without(marks, k), marks[k].addr) ==>
        Oldest(Without(marks, k), marks[k].addr) == Oldest(marks, marks[k].addr))
  {
    DeletedHas(marks, k);
    DeletedInside(mem, marks, k);
    hide Restored, Oldest, HasBreak, Without, Freed, Inside;
    var rest, freed := Without(marks, k), Freed(mem, marks[k]);
    if marks[k].Break? {
      DeletedAt(mem, marks, k, marks[k].addr);
    }
    var after, before := Restored(freed, rest), Restored(mem, marks);
    if after != before {
      var a := FirstDifference(after, before);
      DeletedAt(mem, marks, k, a);
    }
  }

  lemma FirstDifference(s: seq<Byte>, t: seq<Byte>) returns (a: nat)
    requires |s| == |t| && s != t
    ensures a < |s| && s[a] != t[a]
  {
    a :| a < |s| && s[a] != t[a];
  }

  lemma DeletedHas(marks: seq<Mark>, k: nat)
    requires k < |marks|
    ensures marks[k].Break? ==> HasBreak(marks, marks[k].addr)
  {
    assert IsBreakAt(marks[k], if marks[k].Break? then marks[k].addr else 0) <==> marks[k].Break?;
  }

  lemma DeletedInside(mem: seq<Byte>, marks: seq<Mark>, k: nat)
    requires Inside(marks, |mem|) && k < |marks|
    ensures Inside(Without(marks, k), |mem|) && |Freed(mem, marks[k])| == |mem|
    ensures marks[k].Break? ==> marks[k].addr < |mem|
  {
  }

  lemma DeletedAt(mem: seq<Byte>, marks: seq<Mark>, k: nat, a: nat)
    requires Inside(marks, |mem|) && k < |marks| && a < |mem|
    ensures Inside(Without(marks, k), |mem|)
    ensures var rest, freed := Without(marks, k), Freed(mem, marks[k]);
      if IsBreakAt(marks[k], a) && HasBreak(rest, a) then
        HasBreak(marks, a) && Restored(freed, rest)[a] == Oldest(rest, a) && Restored(mem, marks)[a] == Oldest(marks, a)
      else Restored(freed, rest)[a] == Restored(mem, marks)[a]
  {
    RestoredAt(Freed(mem, marks[k]), Without(marks, k), a);
    RestoredAt(mem, marks, a);
    WithoutHas(marks, k, a);
    if HasBreak(marks, a) { OldestWithout(marks, k, a); }
  }

  /** Delete-all gives the program back exactly when at every address the newest and the oldest live
      breakpoint saved the same opcode. */
  lemma DeleteAllRestoresIff(mem: seq<Byte>, marks: seq<Mark>)
    requires Inside(marks, |mem|)
    ensures RestoredUp(mem, marks) == Restored(mem, marks) <==>
      forall a :: 0 <= a < |mem| && HasBreak(marks, a) ==> Newest(marks, a) == Oldest(marks, a)
  {
    forall a | 0 <= a < |mem|
      ensures HasBreak(marks, a) ==>
        RestoredUp(mem, marks)[a] == Newest(marks, a) && Restored(mem, marks)[a] == Oldest(marks, a)
      ensures !HasBreak(marks, a) ==> RestoredUp(mem, marks)[a] == Restored(mem, marks)[a]
    {
      RestoredAt(mem, marks, a);
      RestoredUpAt(mem, marks, a);
    }
  }

  /** One live breakpoint per address. */
  predicate DistinctAddresses(marks: seq<Mark>) {
    forall i, j :: 0 <= i < j < |marks| && marks[i].Break? && marks[j].Break? ==> marks[i].addr != marks[j].addr
  }

  lemma {:induction false} DistinctNewestIsOldest(marks: seq<Mark>, a: nat)
    requires DistinctAddresses(marks) && HasBreak(marks, a)
    ensures Newest(marks, a) == Oldest(marks, a)
    decreases |marks|
  {
    HeadOrTail(marks, a);
    if HasBreak(marks[1..], a) {
      forall k | 0 <= k < |marks[1..]| && IsBreakAt(marks[1..][k], a) ensures !IsBreakAt(marks[0], a) {
        assert marks[k + 1] == marks[1..][k];
      }
      DistinctNewestIsOldest(marks[1..], a);
    }
  }

  lemma DistinctWithout(marks: seq<Mark>, k: nat)
    requires k < |marks| && DistinctAddresses(marks) && marks[k].Break?
    ensures !HasBreak(Without(marks, k), marks[k].addr)
  {
    var rest, a := Without(marks, k), marks[k].addr;
    forall j | 0 <= j < |rest| ensures !IsBreakAt(rest[j], a) {
      assert rest[j] == marks[if j < k then j else j + 1];
    }
  }

  // ---------------------------------------------------------------- runs of commands

  datatype Command =
    | SetBreak(no: nat, addr: nat)
    | SetWatch(no: nat, expr: string, val: nat)
    | Delete(no: nat)
    | DeleteAll
    | Mask
    | Resume

  datatype Debuggee = Debuggee(mem: seq<Byte>, marks: seq<Mark>)

  /** The first entry with a number, or |marks|. */
  function IndexOf(marks: seq<Mark>, no: nat): (k: nat)
    ensures k <= |marks|
    ensures k < |marks| ==> marks[k].no == no
    ensures forall j :: 0 <= j < k ==> marks[j].no != no
  {
    if marks == [] || marks[0].no == no then 0 else 1 + IndexOf(marks[1..], no)
  }

  function Execute(c: Command, d: Debuggee): (r: Debuggee)
    requires Inside(d.marks, |d.mem|)
    ensures |r.mem| == |d.mem| && Inside(r.marks, |r.mem|)
  {
    match c
    case SetBreak(no, addr) =>
      if addr < |d.mem| then Debuggee(d.mem[addr := INT3], [Break(no, addr, d.mem[addr])] + d.marks) else d
    case SetWatch(no, expr, val) => Debuggee(d.mem, [Watch(no, expr, val)] + d.marks)
    case Delete(no) =>
      var k := IndexOf(d.marks, no);
      if k < |d.marks| then Debuggee(Freed(d.mem, d.marks[k]), Without(d.marks, k)) else d
    case DeleteAll => Debuggee(RestoredUp(d.mem, d.marks), [])
    case Mask => Debuggee(Restored(d.mem, d.marks), d.marks)
    case Resume => Debuggee(Armed(d.mem, d.marks), d.marks)
  }

  /** Two breakpoints set on one address: delete-all, and deleting the first before the second, leave an
      0xf1 in the program; only deleting the second first gives the program back. */
  lemma DoubleBreakpointCorrupts(b: Byte)
    ensures var d := Execute(SetBreak(1, 0), Execute(SetBreak(0, 0), Debuggee([b], [])));
      && Execute(DeleteAll, d) == Debuggee([0xf1], [])
      && Execute(Delete(1), Execute(Delete(0), d)) == Debuggee([0xf1], [])
      && Execute(Delete(0), Execute(Delete(1), d)) == Debuggee([b], [])
  {
    var older, newer := Break(0, 0, b), Break(1, 0, INT3);
    var d := Execute(SetBreak(1, 0), Execute(SetBreak(0, 0), Debuggee([b], [])));
    assert d == Debuggee([INT3], [newer, older]) by {
      assert [b][0 := INT3] == [INT3] && [INT3][0 := INT3] == [INT3];
      assert [older] + [] == [older] && [newer] + [older] == [newer, older];
    }
    assert [newer, older][1..] == [older] && [older][1..] == [];
    assert RestoredUp([INT3], [older]) == [b] && [b][0 := INT3] == [INT3];
    assert Without([newer, older], 1) == [newer] && Without([newer, older], 0) == [older];
    assert Without([newer], 0) == [] && Without([older], 0) == [];
    assert Freed([INT3], older) == [b] && Freed([b], newer) == [INT3] && Freed([INT3], newer) == [INT3];
  }

  /** No breakpoint is set where one is live already. */
  predicate Fresh(c: Command, d: Debuggee) {
    c.SetBreak? ==> !HasBreak(d.marks, c.addr)
  }

  ghost predicate Sound(d: Debuggee, program: seq<Byte>) {
    && Inside(d.marks, |d.mem|) && DistinctAddresses(d.marks)
    && Restored(d.mem, d.marks) == program
  }

  lemma ExecuteKeepsProgram(c: Command, d: Debuggee, program: seq<Byte>)
    requires Sound(d, program) && Fresh(c, d)
    ensures Sound(Execute(c, d), program)
    ensures c.DeleteAll? || c.Mask? ==> Execute(c, d).mem == program
  {
    match c
    case SetBreak(no, addr) => SetBreakSound(no, addr, d, program);
    case SetWatch(no, expr, val) =>
      assert ([Watch(no, expr, val)] + d.marks)[1..] == d.marks;
    case Delete(no) => DeleteSound(no, d, program);
    case DeleteAll => DeleteAllSound(d, program);
    case Mask =>
      hide Restored, DistinctAddresses;
      MaskKeepsProgram(d.mem, d.marks);
    case Resume =>
      hide Restored, DistinctAddresses;
      ResumeKeepsProgram(d.mem, d.marks);
  }

  lemma SetBreakSound(no: nat, addr: nat, d: Debuggee, program: seq<Byte>)
    requires Sound(d, program) && Fresh(SetBreak(no, addr), d)
    ensures Sound(Execute(SetBreak(no, addr), d), program)
  {
    if addr < |d.mem| {
      SetKeepsProgram(d.mem, d.marks, no, addr);
      forall k | 0 <= k < |d.marks| && d.marks[k].Break? ensures d.marks[k].addr != addr {
        assert !IsBreakAt(d.marks[k], addr);
      }
      hide Restored;
    }
  }

  lemma DeleteSound(no: nat, d: Debuggee, program: seq<Byte>)
    requires Sound(d, program)
    ensures Sound(Execute(Delete(no), d), program)
  {
    hide Restored, Without, Freed, HasBreak, Oldest;
    var k := IndexOf(d.marks, no);
    if k < |d.marks| {
      DeleteKeepsProgramIff(d.mem, d.marks, k);
      DeletedInside(d.mem, d.marks, k);
      DistinctRest(d.marks, k);
      if d.marks[k].Break? { DistinctWithout(d.marks, k); }
    }
  }

  lemma DistinctRest(marks: seq<Mark>, k: nat)
    requires k < |marks| && DistinctAddresses(marks)
    ensures DistinctAddresses(Without(marks, k))
  {
  }

  lemma DeleteAllSound(d: Debuggee, program: seq<Byte>)
    requires Sound(d, program)
    ensures Sound(Execute(DeleteAll, d), program) && Execute(DeleteAll, d).mem == program
  {
    forall a | 0 <= a < |d.mem| && HasBreak(d.marks, a) ensures Newest(d.marks, a) == Oldest(d.marks, a) {
      DistinctNewestIsOldest(d.marks, a);
    }
    DeleteAllRestoresIff(d.mem, d.marks);
    hide RestoredUp, HasBreak;
  }

  /** A run of commands that only sets fresh breakpoints, and the state it ends in. */
  ghost predicate FreshRun(cs: seq<Command>, d: Debuggee)
    requires Inside(d.marks, |d.mem|)
    decreases |cs|
  {
    cs == [] || (Fresh(cs[0], d) && FreshRun(cs[1..], Execute(cs[0], d)))
  }

  function RunAll(cs: seq<Command>, d: Debuggee): Debuggee
    requires Inside(d.marks, |d.mem|)
    decreases |cs|
  {
    if cs == [] then d else RunAll(cs[1..], Execute(cs[0], d))
  }

  /** Over any such run the debugged program is still there under the patches, and delete-all at the
      end leaves exactly it. */
  lemma {:induction false} RunKeepsProgram(cs: seq<Command>, d: Debuggee, program: seq<Byte>)
    requires Sound(d, program) && FreshRun(cs, d)
    ensures Sound(RunAll(cs, d), program)
    ensures Execute(DeleteAll, RunAll(cs, d)).mem == program
    decreases |cs|
  {
    if cs == [] {
      ExecuteKeepsProgram(DeleteAll, d, program);
    } else {
      ExecuteKeepsProgram(cs[0], d, program);
      RunKeepsProgram(cs[1..], Execute(cs[0], d), program);
    }
  }

  // ---------------------------------------------------------------- watchpoints

  /** A watchpoint whose expression no longer has the value kept with it. */
  predicate Stirred(m: Mark, val: string -> nat) { m.Watch? && val(m.expr) != m.oldVal }

  /** The first such entry, or |marks|. */
  function FirstStirred(marks: seq<Mark>, val: string -> nat): (k: nat)
    ensures k <= |marks|
  {
    if marks == [] || Stirred(marks[0], val) then 0 else 1 + FirstStirred(marks[1..], val)
  }

  lemma {:induction false} FirstStirredIs(marks: seq<Mark>, val: string -> nat, k: nat)
    requires k <= |marks| && (k < |marks| ==> Stirred(marks[k], val))
    requires forall j :: 0 <= j < k ==> !Stirred(marks[j], val)
    ensures FirstStirred(marks, val) == k
  {
    if k > 0 {
      FirstStirredIs(marks[1..], val, k - 1);
    }
  }

  /** What the first one is: all watchpoints before it have the value kept, and it has another. */
  lemma {:induction false} FirstChanged(marks: seq<Mark>, val: string -> nat)
    ensures var k := FirstStirred(marks, val);
      && (k < |marks| ==> marks[k].Watch? && marks[k].oldVal != val(marks[k].expr))
      && forall j :: 0 <= j < k && marks[j].Watch? ==> marks[j].oldVal == val(marks[j].expr)
  {
    if marks != [] && !Stirred(marks[0], val) {
      FirstChanged(marks[1..], val);
    }
  }

  /** The list after a scan: the entry that stops it keeps the new value. */
  function Noticed(marks: seq<Mark>, val: string -> nat): (r: seq<Mark>)
    ensures |r| == |marks|
  {
    var k := FirstStirred(marks, val);
    if k < |marks| && marks[k].Watch? then marks[k := marks[k].(oldVal := val(marks[k].expr))] else marks
  }

  /** The lists differ in the values of watchpoints at most. */
  predicate SameBreaks(ms: seq<Mark>, ms': seq<Mark>) {
    |ms| == |ms'| && forall k :: 0 <= k < |ms| ==> SameBreak(ms[k], ms'[k])
  }

  predicate SameBreak(m: Mark, m': Mark) {
    m == m' || (m.Watch? && m'.Watch? && m.no == m'.no && m.expr == m'.expr)
  }

  lemma NoticedSame(marks: seq<Mark>, val: string -> nat)
    ensures SameBreaks(marks, Noticed(marks, val))
    ensures FirstStirred(marks, val) == |marks| ==> Noticed(marks, val) == marks
  {
  }

  lemma {:induction false} SameBreaksKeep(ms: seq<Mark>, ms': seq<Mark>, mem: seq<Byte>)
    requires SameBreaks(ms, ms') && Inside(ms, |mem|)
    ensures Inside(ms', |mem|) && Restored(mem, ms') == Restored(mem, ms)
    decreases |ms|
  {
    if ms != [] {
      assert SameBreak(ms[0], ms'[0]);
      SameBreaksKeep(ms[1..], ms'[1..], if ms[0].Watch? then mem else mem[ms[0].addr := ms[0].ori]);
    }
  }

  lemma SameBreaksHave(ms: seq<Mark>, ms': seq<Mark>, a: nat)
    requires SameBreaks(ms, ms')
    ensures HasBreak(ms, a) <==> HasBreak(ms', a)
  {
    if HasBreak(ms, a) {
      var k :| 0 <= k < |ms| && IsBreakAt(ms[k], a);
      assert SameBreak(ms[k], ms'[k]) && IsBreakAt(ms'[k], a);
    }
    if HasBreak(ms', a) {
      var k :| 0 <= k < |ms'| && IsBreakAt(ms'[k], a);
      assert SameBreak(ms[k], ms'[k]) && IsBreakAt(ms[k], a);
    }
  }

  lemma SameBreaksDistinct(ms: seq<Mark>, ms': seq<Mark>)
    requires SameBreaks(ms, ms') && DistinctAddresses(ms)
    ensures DistinctAddresses(ms')
  {
    forall i, j | 0 <= i < j < |ms'| && ms'[i].Break? && ms'[j].Break? ensures ms'[i].addr != ms'[j].addr {
      assert SameBreak(ms[i], ms'[i]) && SameBreak(ms[j], ms'[j]);
    }
  }

  lemma SameBreaksThen(ms: seq<Mark>, ms': seq<Mark>, ms'': seq<Mark>)
    requires SameBreaks(ms, ms') && SameBreaks(ms', ms'')
    ensures SameBreaks(ms, ms'')
  {
    forall k | 0 <= k < |ms| ensures SameBreak(ms[k], ms''[k]) {
      assert SameBreak(ms[k], ms'[k]) && SameBreak(ms'[k], ms''[k]);
    }
  }
}
