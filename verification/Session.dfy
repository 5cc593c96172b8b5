/** Debugging sessions: the commands of nemu/src/monitor/ui.c in any order on one debugger, with breakpoints
    set, deleted and run into in between, and a record of what each came to. */
module Session {
  import opened BreakpointPool
  import opened Execution
  import opened Marks
  import opened Options
  import opened Rearming
  import opened Requests
  import opened Words

  ghost function Numbers(s: seq<Bp>): seq<nat> { seq(|s|, i requires 0 <= i < |s| => s[i].no) }

  /** The pool of a debugger. */
  ghost function BookOf(d: Debugger): Book
    requires d.Valid()
    reads d.pool, d.pool.live, d.pool.spare, d.pool.mem
  {
    Book(SlotsOf(d.pool.Live()), Numbers(d.pool.spare))
  }

  /** Its live breakpoints that are not armed. */
  ghost function UnarmedOf(d: Debugger): set<nat>
    requires d.Valid()
    reads d.pool, d.pool.live, d.pool.spare, d.pool.mem
  {
    UnarmedIn(d.pool.mem[..], d.pool.Live())
  }

  ghost predicate Ready(d: Debugger)
    reads d.pool, d.pool.live, d.pool.spare, d.pool.mem
  {
    d.Valid() && DistinctAddresses(d.pool.Live())
  }

  /** What Ready and the views of a debugger are made of. */
  lemma Describe(d: Debugger)
    ensures Ready(d) <==>
      d.pool.Valid() && Consistent(d.pool.mem[..], d.pool.Live()) && DistinctAddresses(d.pool.Live())
    ensures Ready(d) ==>
      && d.Valid() && d.View() == Guest(d.cpu, Restored(d.pool.mem[..], d.pool.Live()))
      && BookOf(d) == Book(SlotsOf(d.pool.Live()), Numbers(d.pool.spare))
      && UnarmedOf(d) == UnarmedIn(d.pool.mem[..], d.pool.Live())
      && Places(BookOf(d)) == Addresses(d.pool.Live()) >= UnarmedOf(d)
  {
    if Ready(d) {
      PlacesAre(d.pool.Live(), Numbers(d.pool.spare));
      UnarmedLive(d.pool.mem[..], d.pool.Live());
    }
    hide Pool.Valid, Pool.Live, Consistent, DistinctAddresses, Restored, SlotsOf, Numbers, Places, Addresses, UnarmedIn;
  }

  lemma UnarmedLive(mem: seq<Byte>, marks: seq<Mark>)
    ensures UnarmedIn(mem, marks) <= Addresses(marks)
  {
    hide Addresses;
  }

  lemma PlacesAre(marks: seq<Mark>, spare: seq<nat>)
    ensures Places(Book(SlotsOf(marks), spare)) == Addresses(marks)
  {
    var b := Book(SlotsOf(marks), spare);
    forall a: nat ensures a in Places(b) <==> a in Addresses(marks) {
      PlacesTaken(b, a);
      TakenIs(marks, a);
      AddressesHave(marks, a);
    }
  }

  // ---------------------------------------------------------------- commands on the list

  method SetBreak(d: Debugger, addr: nat)
    requires Ready(d) && Allows(BookOf(d), SetAt(addr), d.pool.mem.Length)
    modifies d.pool, d.pool.nodes, d.pool.mem
    ensures Ready(d) && d.View() == old(d.View()) && BookOf(d) == old(Next(BookOf(d), SetAt(addr)))
    ensures UnarmedOf(d) == UnarmedNext(old(UnarmedOf(d)), Did, Places(BookOf(d)))
    ensures Addresses(d.pool.Live()) == old(Addresses(d.pool.Live())) + {addr}
  {
    hide *;
    Describe(d);
    ghost var was, spare := Debuggee(d.pool.mem[..], d.pool.Live()), d.pool.spare;
    BreakAllowed(SlotsOf(was.marks), spare, addr, |was.mem|);
    var no := d.pool.SetBreakpoint(addr);
    BreakPushed(was, no, addr);
    Describe(d);
  }

  lemma BreakAllowed(slots: seq<Slot>, spare: seq<Bp>, addr: nat, size: nat)
    requires Allows(Book(slots, Numbers(spare)), SetAt(addr), size)
    ensures addr < size && spare != [] && !Taken(slots, addr)
    ensures Next(Book(slots, Numbers(spare)), SetAt(addr)) ==
            Book([Slot(spare[0].no, Some(addr))] + slots, Numbers(spare[1..]))
  {
    hide Taken;
    assert Numbers(spare)[1..] == Numbers(spare[1..]);
  }

  lemma BreakPushed(was: Debuggee, no: nat, addr: nat)
    requires Consistent(was.mem, was.marks) && DistinctAddresses(was.marks)
    requires addr < |was.mem| && !Taken(SlotsOf(was.marks), addr)
    ensures var mem, marks := was.mem[addr := INT3], [Break(no, addr, was.mem[addr])] + was.marks;
            && Consistent(mem, marks) && DistinctAddresses(marks)
            && Restored(mem, marks) == Restored(was.mem, was.marks)
            && SlotsOf(marks) == [Slot(no, Some(addr))] + SlotsOf(was.marks)
            && Addresses(marks) == Addresses(was.marks) + {addr}
            && UnarmedIn(mem, marks) == UnarmedNext(UnarmedIn(was.mem, was.marks), Did, Addresses(marks))
  {
    hide Consistent, DistinctAddresses, Restored, HasBreak, Addresses, SlotsOf, Taken;
    TakenIs(was.marks, addr);
    CommandKeepsView(Command.SetBreak(no, addr), was);
    SlotsPushed(Break(no, addr, was.mem[addr]), was.marks);
    AddressesPushed(Break(no, addr, was.mem[addr]), was.marks);
    AddressesHave(was.marks, addr);
  }

  lemma AddressesPushed(m: Mark, marks: seq<Mark>)
    ensures Addresses([m] + marks) == Addresses(marks) + if m.Break? then {m.addr} else {}
  {
    forall a: nat
      ensures a in Addresses([m] + marks) <==> a in Addresses(marks) || IsBreakAt(m, a)
    {
      AddressesHave([m] + marks, a);
      AddressesHave(marks, a);
      PushedAt(m, marks, a);
    }
    hide Addresses;
  }

  method SetWatch(d: Debugger, expr: string, val: nat, success: bool)
    requires Ready(d) && Allows(BookOf(d), WatchFor(expr, val, success), d.pool.mem.Length)
    modifies d.pool, d.pool.nodes
    ensures Ready(d) && d.View() == old(d.View()) && BookOf(d) == old(Next(BookOf(d), WatchFor(expr, val, success)))
    ensures UnarmedOf(d) == UnarmedNext(old(UnarmedOf(d)), Did, Places(BookOf(d)))
    ensures Addresses(d.pool.Live()) == old(Addresses(d.pool.Live()))
  {
    hide *;
    Describe(d);
    ghost var was, spare := Debuggee(d.pool.mem[..], d.pool.Live()), d.pool.spare;
    WatchAllowed(SlotsOf(was.marks), spare, expr, val, success, |was.mem|);
    NothingUnarmed(was);
    var no := d.pool.SetWatchpoint(expr, val, success);
    if success {
      WatchPushed(was, no, expr, val);
    }
    Describe(d);
  }

  lemma WatchAllowed(slots: seq<Slot>, spare: seq<Bp>, expr: string, val: nat, success: bool, size: nat)
    requires Allows(Book(slots, Numbers(spare)), WatchFor(expr, val, success), size)
    ensures success ==> spare != []
    ensures Next(Book(slots, Numbers(spare)), WatchFor(expr, val, success)) ==
            if success then Book([Slot(spare[0].no, None)] + slots, Numbers(spare[1..]))
            else Book(slots, Numbers(spare))
  {
    if success { assert Numbers(spare)[1..] == Numbers(spare[1..]); }
  }

  lemma NothingUnarmed(was: Debuggee)
    ensures UnarmedNext(UnarmedIn(was.mem, was.marks), Did, Addresses(was.marks)) == UnarmedIn(was.mem, was.marks)
  {
  }

  lemma WatchPushed(was: Debuggee, no: nat, expr: string, val: nat)
    requires Consistent(was.mem, was.marks) && DistinctAddresses(was.marks)
    ensures var marks := [Watch(no, expr, val)] + was.marks;
            && Consistent(was.mem, marks) && DistinctAddresses(marks)
            && Restored(was.mem, marks) == Restored(was.mem, was.marks)
            && SlotsOf(marks) == [Slot(no, None)] + SlotsOf(was.marks)
            && Addresses(marks) == Addresses(was.marks)
            && UnarmedIn(was.mem, marks) == UnarmedNext(UnarmedIn(was.mem, was.marks), Did, Addresses(marks))
  {
    hide Consistent, DistinctAddresses, Restored, HasBreak, Addresses, SlotsOf;
    CommandKeepsView(Command.SetWatch(no, expr, val), was);
    SlotsPushed(Watch(no, expr, val), was.marks);
    AddressesPushed(Watch(no, expr, val), was.marks);
  }

  method DeleteOne(d: Debugger, no: int)
    requires Ready(d)
    modifies d.pool, d.pool.nodes, d.pool.mem
    ensures Ready(d) && d.View() == old(d.View()) && BookOf(d) == old(Next(BookOf(d), DeleteNo(no)))
    ensures UnarmedOf(d) == UnarmedNext(old(UnarmedOf(d)), Did, Places(BookOf(d)))
    ensures Addresses(d.pool.Live()) <= old(Addresses(d.pool.Live()))
  {
    hide *;
    Describe(d);
    ghost var was, live, spare := Debuggee(d.pool.mem[..], d.pool.Live()), d.pool.live, d.pool.spare;
    LiveNumbers(d.pool);
    FirstIs(was.marks, no);
    MarkDeleted(was, no, live, spare);
    NothingUnarmed(was);
    var ok := d.pool.DeleteBreakpoint(no);
    Describe(d);
  }

  ghost predicate SameNumbers(marks: seq<Mark>, live: seq<Bp>) {
    |marks| == |live| && forall i :: 0 <= i < |live| ==> marks[i].no == live[i].no
  }

  lemma LiveNumbers(p: Pool)
    requires p.Valid()
    ensures SameNumbers(p.Live(), p.live)
  {
    hide Pool.Valid;
  }

  lemma MarkDeleted(was: Debuggee, no: int, live: seq<Bp>, spare: seq<Bp>)
    requires Consistent(was.mem, was.marks) && DistinctAddresses(was.marks) && SameNumbers(was.marks, live)
    ensures no >= 0 && IndexOf(was.marks, no) < |was.marks| ==>
      var k, b := IndexOf(was.marks, no), Book(SlotsOf(was.marks), Numbers(spare));
      && k < |live| && (was.marks[k].Break? ==> was.marks[k].addr < |was.mem|)
      && var mem, marks := Freed(was.mem, was.marks[k]), Without(was.marks, k);
      && Inside(marks, |mem|) && Consistent(mem, marks) && DistinctAddresses(marks)
      && Restored(mem, marks) == Restored(was.mem, was.marks)
      && Book(SlotsOf(marks), Numbers([live[k]] + spare)) == Next(b, DeleteNo(no))
      && Addresses(marks) <= Addresses(was.marks)
      && UnarmedIn(mem, marks) == UnarmedNext(UnarmedIn(was.mem, was.marks), Did, Addresses(marks))
    ensures !(exists k :: 0 <= k < |was.marks| && was.marks[k].no == no) ==>
      var b := Book(SlotsOf(was.marks), Numbers(spare)); Next(b, DeleteNo(no)) == b
  {
    assert Inside(was.marks, |was.mem|);
    FirstIs(was.marks, no);
    hide Consistent, DistinctAddresses, Restored, HasBreak, Addresses, First, UnarmedIn, UnarmedNext;
    if no >= 0 && IndexOf(was.marks, no) < |was.marks| {
      var k := IndexOf(was.marks, no);
      CommandKeepsView(Delete(no), was);
      SlotsWithout(was.marks, k);
      assert Numbers([live[k]] + spare) == [live[k].no] + Numbers(spare);
      AddressesWithout(was.mem, was.marks, k);
    }
  }

  /** Deleting an entry touches no other live address. */
  lemma AddressesWithout(mem: seq<Byte>, marks: seq<Mark>, k: nat)
    requires k < |marks| && Inside(marks, |mem|) && DistinctAddresses(marks)
    ensures var rest, freed := Without(marks, k), Freed(mem, marks[k]);
            && Addresses(rest) <= Addresses(marks)
            && UnarmedIn(freed, rest) == UnarmedNext(UnarmedIn(mem, marks), Did, Addresses(rest))
  {
    var rest, freed := Without(marks, k), Freed(mem, marks[k]);
    forall a: nat | a in Addresses(rest) ensures a in Addresses(marks) && Fetch(freed, a) == Fetch(mem, a) {
      AddressesHave(rest, a);
      AddressesHave(marks, a);
      WithoutHas(marks, k, a);
      if marks[k].Break? { DistinctWithout(marks, k); }
    }
    hide Addresses, HasBreak, Without, Freed;
  }

  method DeleteThemAll(d: Debugger)
    requires Ready(d)
    modifies d.pool, d.pool.nodes, d.pool.mem
    ensures Ready(d) && d.View() == old(d.View()) && BookOf(d) == old(Next(BookOf(d), DeleteEvery))
    ensures UnarmedOf(d) == UnarmedNext(old(UnarmedOf(d)), Did, Places(BookOf(d)))
    ensures Addresses(d.pool.Live()) == {} && d.pool.mem[..] == d.View().mem
  {
    hide *;
    Describe(d);
    ghost var was, live, spare := Debuggee(d.pool.mem[..], d.pool.Live()), d.pool.live, d.pool.spare;
    LiveNumbers(d.pool);
    MarksDeleted(was, live, spare);
    d.pool.DeleteAllBreakpoints();
    Describe(d);
  }

  lemma MarksDeleted(was: Debuggee, live: seq<Bp>, spare: seq<Bp>)
    requires Consistent(was.mem, was.marks) && DistinctAddresses(was.marks) && SameNumbers(was.marks, live)
    ensures var mem := RestoredUp(was.mem, was.marks);
            && Inside([], |mem|) && Consistent(mem, []) && DistinctAddresses([]) && Addresses([]) == {}
            && mem == Restored(was.mem, was.marks) == Restored(mem, [])
            && Book(SlotsOf([]), Numbers(live + spare)) == Next(Book(SlotsOf(was.marks), Numbers(spare)), DeleteEvery)
            && UnarmedIn(mem, []) == UnarmedNext(UnarmedIn(was.mem, was.marks), Did, Addresses([]))
  {
    assert Inside(was.marks, |was.mem|);
    hide Consistent, DistinctAddresses, HasBreak;
    CommandKeepsView(DeleteAll, was);
    assert Numbers(live + spare) == Numbers(live) + Numbers(spare);
    assert Numbers(live) == seq(|live|, i requires 0 <= i < |live| => SlotsOf(was.marks)[i].no);
  }

  // ---------------------------------------------------------------- running

  /** A call of exec: its turn of the record is faithful, and says what is armed afterwards. */
  method Continue(d: Debugger, n: U32, ghost area: set<nat>) returns (ghost t: Turn)
    requires Ready(d) && Addresses(d.pool.Live()) <= area && Undisturbed(d.isa, area, d.View()) && n > 0
    modifies d, d.pool.mem, Nodes(d.pool.nodes)`oldVal
    ensures Ready(d) && BookOf(d) == old(BookOf(d)) && Addresses(d.pool.Live()) == old(Addresses(d.pool.Live()))
    ensures t.Ran? && Fits(Go(n), t) && t.rearm == (old(d.state) == BREAK)
    ensures Faithful(d.isa, old(d.View()), old(Places(BookOf(d))), old(UnarmedOf(d)), t)
    ensures d.View() == ProgramRun(d.isa, old(d.View()), StepsOf(t))
    ensures UnarmedOf(d) == UnarmedNext(old(UnarmedOf(d)), t, Places(BookOf(d)))
    ensures (d.state == BREAK) == Broken(old(d.state) == BREAK, t)
    ensures (d.state == STOP) == Ended(old(d.state) == STOP, t)
  {
    hide *;
    Describe(d);
    ghost var marks, g, m, rearm := d.pool.Live(), d.View(), d.pool.mem[..], d.state == BREAK;
    UndisturbedFewer(d.isa, Addresses(marks), area, g);
    ghost var steps, last, woken := d.Exec(n);
    t := TurnOf(n, rearm, steps, last, woken, d.View());
    CallIsTurn(d, marks, g, m, rearm, n, steps, last, woken);
    d.ViewIs();
    Describe(d);
  }

  /** What the contract of Exec means for the record. */
  lemma CallIsTurn(d: Debugger, marks: seq<Mark>, g0: Guest, m0: seq<Byte>, rearm: bool, n: U32,
      steps: nat, last: Event, woken: bool)
    requires d.Valid() && Consistent(m0, marks) && DistinctAddresses(marks) && SameBreaks(marks, d.pool.Live()) && n > 0
    requires Reached(d.isa, g0, m0, marks, rearm, steps, last, d.View(), d.pool.mem[..]) && |m0| == d.pool.mem.Length
    requires EndsAs(d.isa, g0, steps, last)
    requires Used(steps, last) <= n && (last.Executed? && !woken ==> steps == n)
    requires woken ==> Used(steps, last) > 0
    requires d.state == if woken then READY else if last.Trapped? then STOP else
                        if Used(steps, last) == n then READY else BREAK
    ensures var t := TurnOf(n, rearm, steps, last, woken, d.View());
            && t.Ran? && t.rearm == rearm && Fits(Go(n), t)
            && Faithful(d.isa, g0, Addresses(marks), UnarmedIn(m0, marks), t)
            && d.View() == ProgramRun(d.isa, g0, StepsOf(t))
            && UnarmedIn(d.pool.mem[..], d.pool.Live()) == UnarmedNext(UnarmedIn(m0, marks), t, Addresses(marks))
            && (d.state == BREAK) == Broken(rearm, t) && forall was :: (d.state == STOP) == Ended(was, t)
    ensures DistinctAddresses(d.pool.Live()) && SlotsOf(d.pool.Live()) == SlotsOf(marks)
    ensures Addresses(d.pool.Live()) == Addresses(marks)
  {
    var live, mem, g := d.pool.Live(), d.pool.mem[..], d.View();
    InsideIf(m0, marks);
    d.ViewIs();
    hide *;
    ReachedFits(d.isa, g0, m0, marks, rearm, n, steps, last, woken, g, mem);
    ReachedIsFaithful(d.isa, g0, m0, marks, rearm, n, steps, last, woken, g, mem);
    SameBreaksKeep(marks, live, mem);
    ReachedUnarmed(d.isa, g0, m0, marks, rearm, n, steps, last, woken, g, mem);
    SameAddresses(marks, live);
    SameUnarmed(mem, marks, live);
    SlotsSame(marks, live);
    SameBreaksDistinct(marks, live);
  }

  lemma InsideIf(mem: seq<Byte>, marks: seq<Mark>)
    requires Consistent(mem, marks)
    ensures Inside(marks, |mem|)
  {
  }

  lemma SameUnarmed(mem: seq<Byte>, ms: seq<Mark>, ms': seq<Mark>)
    requires Addresses(ms) == Addresses(ms')
    ensures UnarmedIn(mem, ms) == UnarmedIn(mem, ms')
  {
    hide Addresses;
  }

  lemma UndisturbedFewer(isa: Isa, p: set<nat>, area: set<nat>, g: Guest)
    requires Undisturbed(isa, area, g) && p <= area
    ensures Undisturbed(isa, p, g)
  {
    forall k: nat ensures Untouched(isa, p, ProgramRun(isa, g, k)) {
      assert Untouched(isa, area, ProgramRun(isa, g, k));
    }
  }

  /** One request. */
  method Handle(d: Debugger, r: Request, ghost area: set<nat>) returns (ghost t: Turn)
    requires Ready(d) && Allows(BookOf(d), r, d.pool.mem.Length)
    requires Addresses(d.pool.Live()) <= area && (r.SetAt? ==> r.addr in area)
    requires Undisturbed(d.isa, area, d.View())
    modifies d, d.pool, d.pool.nodes, d.pool.mem
    ensures Ready(d) && Addresses(d.pool.Live()) <= area && BookOf(d) == old(Next(BookOf(d), r)) && Fits(r, t)
    ensures t.Ran? ==>
      t.rearm == (old(d.state) == BREAK) &&
      Faithful(d.isa, old(d.View()), old(Places(BookOf(d))), old(UnarmedOf(d)), t)
    ensures UnarmedOf(d) == UnarmedNext(old(UnarmedOf(d)), t, Places(BookOf(d)))
    ensures (d.state == BREAK) == Broken(old(d.state) == BREAK, t)
    ensures (d.state == STOP) == Ended(old(d.state) == STOP, t)
    ensures d.View() == ProgramRun(d.isa, old(d.View()), StepsOf(t)) && Undisturbed(d.isa, area, d.View())
  {
    hide Consistent, DistinctAddresses, Restored, Undisturbed, Addresses, SlotsOf, First, Taken, Faithful, Used;
    hide Pool.Valid, Pool.Live, Debugger.View, Debugger.Valid, Ready, BookOf, UnarmedOf, Places, ProgramRun, Allows;
    ReadyIsValid(d);
    d.RunNothing(d.isa, d.View());
    t := Did;
    match r {
      case Go(n) =>
        if n > 0 {
          t := Continue(d, n, area);
        } else {
          Describe(d);
          NothingUnarmed(Debuggee(d.pool.mem[..], d.pool.Live()));
        }
      case SetAt(addr) => SetBreak(d, addr);
      case WatchFor(expr, val, success) => SetWatch(d, expr, val, success);
      case DeleteNo(no) => DeleteOne(d, no);
      case DeleteEvery => DeleteThemAll(d);
    }
    ReadyIsValid(d);
    UndisturbedLater(d.isa, area, old(d.View()), StepsOf(t));
  }

  lemma ReadyIsValid(d: Debugger)
    requires Ready(d)
    ensures d.Valid() && d.pool.Valid()
  {
  }

  /** The main loop: all requests, unless the program ends before, with its own trap as the last instruction. The
      record tells, request by request, how the session goes through the program's own run, which live breakpoints
      are passed and which stop it; the list is the one the requests say, and what is not armed is what the record
      says. */
  method Serve(d: Debugger, rs: seq<Request>, ghost area: set<nat>) returns (served: nat, ghost log: seq<Turn>)
    requires Ready(d) && Orderly(BookOf(d), rs, d.pool.mem.Length)
    requires Addresses(d.pool.Live()) <= area && forall r :: r in rs && r.SetAt? ==> r.addr in area
    requires Undisturbed(d.isa, area, d.View())
    modifies d, d.pool, d.pool.nodes, d.pool.mem
    ensures served == |log| <= |rs| && (served < |rs| ==> served > 0 && d.state == STOP)
    ensures (d.state == STOP) == EndedAfter(old(d.state) == STOP, log)
    ensures forall i :: 0 < i < served ==> !EndedAfter(old(d.state) == STOP, log[..i])
    ensures old(d.state) != STOP && d.state == STOP ==>
      Steps(log) > 0 && Stops(d.isa, ProgramRun(d.isa, old(d.View()), Steps(log) - 1))
    ensures Ready(d) && BookOf(d) == After(old(BookOf(d)), rs[..served])
    ensures Record(d.isa, old(d.View()), old(BookOf(d)), old(UnarmedOf(d)), old(d.state) == BREAK, rs, log)
    ensures d.View() == ProgramRun(d.isa, old(d.View()), Steps(log))
    ensures UnarmedOf(d) == Unarmed(old(BookOf(d)), old(UnarmedOf(d)), rs, log)
    ensures (d.state == BREAK) == BrokenAfter(old(d.state) == BREAK, log)
    ensures old(UnarmedOf(d)) == {} ==>
      (UnarmedOf(d) <= StoppedAt(log) <==>
       forall i: nat, a: nat :: Forgotten(old(BookOf(d)), rs, log, i, a) ==> a in StoppedAt(log))
  {
    hide *;
    ReadyIsValid(d);
    ghost var g, b, u, broken, size := d.View(), BookOf(d), UnarmedOf(d), d.state == BREAK, d.pool.mem.Length;
    ghost var ended := d.state == STOP;
    served, log := 0, [];
    EndedFirst(ended);
    Begin(d.isa, g, b, u, broken, rs);
    while served < |rs|
      invariant served == |log| <= |rs| && Ready(d) && d.Valid() && d.pool.Valid()
      invariant Addresses(d.pool.Live()) <= area && Undisturbed(d.isa, area, d.View())
      invariant BookOf(d) == After(b, rs[..served])
      invariant Record(d.isa, g, b, u, broken, rs, log) && d.View() == ProgramRun(d.isa, g, Steps(log))
      invariant UnarmedOf(d) == Unarmed(b, u, rs, log) && (d.state == BREAK) == BrokenAfter(broken, log)
      invariant (d.state == STOP) == EndedAfter(ended, log) && (served > 0 ==> d.state != STOP)
      invariant forall i :: 0 < i < served ==> !EndedAfter(ended, log[..i])
    {
      IsAllowed(b, rs, served, size);
      AfterMore(b, rs, served);
      ghost var t := Handle(d, rs[served], area);
      ReadyIsValid(d);
      RecordMore(d.isa, g, b, u, broken, rs, log, t);
      EndedPrefixes(ended, log, t);
      ProgramRunAdd(d.isa, g, Steps(log), StepsOf(t));
      served, log := served + 1, log + [t];
      if d.state == STOP {
        break;
      }
    }
    RecordIsFlagged(d.isa, g, b, u, broken, rs, log);
    AllArmedIff(b, broken, rs, log);
    if !ended && d.state == STOP { EndedByProgram(d.isa, g, b, u, broken, rs, log); }
  }

  /** `si` onto a breakpoint, and then `c`, whatever the program: the stop uses the count up, so the next call
      does not re-arm. The breakpoint stays on the list, and the program runs through it. */
  method StepOnto(d: Debugger, n: U32, ghost area: set<nat>) returns (ghost t: Turn)
    requires Ready(d) && Addresses(d.pool.Live()) <= area && Undisturbed(d.isa, area, d.View()) && n > 0
    requires d.state != BREAK && d.cpu.eip in Places(BookOf(d)) - UnarmedOf(d)
    requires Fetch(d.View().mem, d.cpu.eip) != INT3
    modifies d, d.pool.mem, Nodes(d.pool.nodes)`oldVal
    ensures Ready(d) && t.Ran? && Fits(Go(n), t) && d.View() == ProgramRun(d.isa, old(d.View()), t.steps)
    ensures old(d.cpu.eip) in Places(BookOf(d)) && old(d.cpu.eip) in UnarmedOf(d)
    ensures Faithful(d.isa, old(d.View()), old(Places(BookOf(d))), old(UnarmedOf(d)) + {old(d.cpu.eip)}, t)
    ensures !t.rearm && (t.last.Hit? ==> t.at != old(d.cpu.eip))
  {
    hide *;
    Describe(d);
    ghost var g, live, u := d.View(), Places(BookOf(d)), UnarmedOf(d);
    ghost var first := Continue(d, 1, area);
    OneOntoArmed(d.isa, g, live, u, first);
    t := Continue(d, n, area);
    RunThrough(d.isa, g, live, u, g.cpu.eip, t);
  }

  lemma RunThrough(isa: Isa, g: Guest, live: set<nat>, u: set<nat>, a: nat, t: Turn)
    requires t.Ran? && !t.rearm && a in live && Faithful(isa, g, live, u + {a}, t)
    ensures a in UnarmedNext(u + {a}, t, live) && (t.last.Hit? ==> t.at != a) && StepsOf(t) == t.steps
  {
  }

  lemma Begin(isa: Isa, g: Guest, b: Book, u: set<nat>, broken: bool, rs: seq<Request>)
    ensures Record(isa, g, b, u, broken, rs, []) && ProgramRun(isa, g, Steps([])) == g
    ensures After(b, rs[..0]) == b && Unarmed(b, u, rs, []) == u && BrokenAfter(broken, []) == broken
  {
  }

  lemma EndedFirst(ended: bool)
    ensures EndedAfter(ended, []) == ended
  {
  }

  lemma EndedPrefixes(ended: bool, log: seq<Turn>, t: Turn)
    requires forall i :: 0 < i < |log| ==> !EndedAfter(ended, log[..i])
    requires log != [] ==> !EndedAfter(ended, log)
    ensures forall i :: 0 < i < |log + [t]| ==> !EndedAfter(ended, (log + [t])[..i])
  {
    forall i | 0 < i < |log + [t]| ensures !EndedAfter(ended, (log + [t])[..i]) {
      assert (log + [t])[..i] == log[..i];
      if i == |log| { assert log[..i] == log; }
    }
  }

  lemma IsAllowed(b: Book, rs: seq<Request>, i: nat, size: nat)
    requires Orderly(b, rs, size) && i < |rs|
    ensures Allows(After(b, rs[..i]), rs[i], size)
  {
  }
}
