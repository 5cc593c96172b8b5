/** The commands of the debugger's main loop as values, and what they make of the list of breakpoints
    (nemu/src/monitor/ui.c). Which breakpoints are live, and under which number, does not depend on what
    the program does. */
module Requests {
  import opened Marks
  import opened Options
  import opened Words

  /** `c` and `si` run the program; `b`, `w` and `d` work on the list. The value of a watched expression
      and whether it has one are given. */
  datatype Request =
    | Go(n: U32)
    | SetAt(addr: nat)
    | WatchFor(expr: string, val: nat, success: bool)
    | DeleteNo(no: int)
    | DeleteEvery

  /** A live entry without its contents, and the whole pool as such entries and free numbers. */
  datatype Slot = Slot(no: nat, addr: Option<nat>)
  datatype Book = Book(slots: seq<Slot>, spare: seq<nat>)

  function SlotOf(m: Mark): Slot { Slot(m.no, if m.Break? then Some(m.addr) else None) }

  function SlotsOf(marks: seq<Mark>): seq<Slot> {
    seq(|marks|, i requires 0 <= i < |marks| => SlotOf(marks[i]))
  }

  /** The addresses of the live breakpoints. */
  function Places(b: Book): set<nat> {
    set k | 0 <= k < |b.slots| && b.slots[k].addr.Some? :: b.slots[k].addr.value
  }

  predicate Taken(slots: seq<Slot>, a: nat) {
    exists k :: 0 <= k < |slots| && slots[k].addr == Some(a)
  }

  function First(slots: seq<Slot>, no: int): (k: nat)
    ensures k <= |slots|
  {
    if slots == [] || slots[0].no == no then 0 else 1 + First(slots[1..], no)
  }

  /** A breakpoint is set in memory, where none is live, and while there are free numbers. */
  predicate Allows(b: Book, r: Request, size: nat) {
    match r
    case SetAt(addr) => addr < size && !Taken(b.slots, addr) && b.spare != []
    case WatchFor(_, _, success) => success ==> b.spare != []
    case _ => true
  }

  function Pushed(b: Book, addr: Option<nat>): Book {
    if b.spare == [] then b else Book([Slot(b.spare[0], addr)] + b.slots, b.spare[1..])
  }

  /** The pool after a request. */
  function Next(b: Book, r: Request): Book {
    match r
    case Go(_) => b
    case SetAt(addr) => Pushed(b, Some(addr))
    case WatchFor(_, _, success) => if success then Pushed(b, None) else b
    case DeleteNo(no) =>
      var k := First(b.slots, no);
      if k < |b.slots| then Book(b.slots[..k] + b.slots[k + 1..], [b.slots[k].no] + b.spare) else b
    case DeleteEvery => Book([], seq(|b.slots|, i requires 0 <= i < |b.slots| => b.slots[i].no) + b.spare)
  }

  function After(b: Book, rs: seq<Request>): Book {
    if rs == [] then b else Next(After(b, rs[..|rs| - 1]), rs[|rs| - 1])
  }

  /** Every request of a session is allowed when its turn comes. */
  predicate Orderly(b: Book, rs: seq<Request>, size: nat) {
    forall i :: 0 <= i < |rs| ==> Allows(After(b, rs[..i]), rs[i], size)
  }

  /** Running and deleting are allowed at any time. */
  lemma RunsAreOrderly(b: Book, rs: seq<Request>, size: nat)
    requires forall r :: r in rs ==> r.Go? || r.DeleteNo? || r.DeleteEvery?
    ensures Orderly(b, rs, size)
  {
    forall i | 0 <= i < |rs| ensures Allows(After(b, rs[..i]), rs[i], size) {
      assert rs[i] in rs;
    }
  }

  lemma AfterMore(b: Book, rs: seq<Request>, i: nat)
    requires i < |rs|
    ensures After(b, rs[..i + 1]) == Next(After(b, rs[..i]), rs[i])
  {
    assert rs[..i + 1][..i] == rs[..i];
  }

  // ---------------------------------------------------------------- marks and slots

  lemma TakenIs(marks: seq<Mark>, a: nat)
    ensures Taken(SlotsOf(marks), a) <==> HasBreak(marks, a)
  {
    var slots := SlotsOf(marks);
    if HasBreak(marks, a) {
      var k :| 0 <= k < |marks| && IsBreakAt(marks[k], a);
      assert slots[k].addr == Some(a);
    }
    if Taken(slots, a) {
      var k :| 0 <= k < |slots| && slots[k].addr == Some(a);
      assert IsBreakAt(marks[k], a);
    }
  }

  lemma PlacesTaken(b: Book, a: nat)
    ensures a in Places(b) <==> Taken(b.slots, a)
  {
  }

  lemma {:induction false} FirstIs(marks: seq<Mark>, no: int)
    ensures no >= 0 ==> First(SlotsOf(marks), no) == IndexOf(marks, no)
    ensures First(SlotsOf(marks), no) < |marks| <==> exists k :: 0 <= k < |marks| && marks[k].no == no
  {
    if marks != [] {
      FirstIs(marks[1..], no);
      assert SlotsOf(marks)[1..] == SlotsOf(marks[1..]);
      if k :| 0 <= k < |marks| && marks[k].no == no && k > 0 { assert marks[1..][k - 1].no == no; }
      if k :| 0 <= k < |marks[1..]| && marks[1..][k].no == no { assert marks[k + 1].no == no; }
    }
  }

  lemma SlotsPushed(m: Mark, marks: seq<Mark>)
    ensures SlotsOf([m] + marks) == [SlotOf(m)] + SlotsOf(marks)
  {
  }

  lemma SlotsWithout(marks: seq<Mark>, k: nat)
    requires k < |marks|
    ensures SlotsOf(Without(marks, k)) == SlotsOf(marks)[..k] + SlotsOf(marks)[k + 1..]
  {
  }

  /** Values of watchpoints do not matter. */
  lemma SlotsSame(ms: seq<Mark>, ms': seq<Mark>)
    requires SameBreaks(ms, ms')
    ensures SlotsOf(ms') == SlotsOf(ms)
  {
    forall k | 0 <= k < |ms| ensures SlotOf(ms'[k]) == SlotOf(ms[k]) {
      assert SameBreak(ms[k], ms'[k]);
    }
  }
}
