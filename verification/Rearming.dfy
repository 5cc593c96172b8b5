/** Which live breakpoints are armed in the course of a debugging session. A stop takes the 0xf1 out; only
    a later `exec` that finds the emulator still stopped puts it back (nemu/src/cpu/cpu.c). */
module Rearming {
  import opened Execution
  import opened Marks
  import opened Requests
  import opened Words

  // ---------------------------------------------------------------- the record of a session

  /** What a request came to: a call of exec, which says whether it re-armed, how far it got and where it
      left the program (`own` if the program itself has an 0xf1 there), or a change to the list. */
  datatype Turn =
    | Ran(n: nat, rearm: bool, steps: nat, last: Event, woken: bool, at: nat, own: bool)
    | Did

  function StepsOf(t: Turn): nat { if t.Ran? then t.steps else 0 }

  function Steps(log: seq<Turn>): nat {
    if log == [] then 0 else Steps(log[..|log| - 1]) + StepsOf(log[|log| - 1])
  }

  /** `si 0` is refused, every other `si` and `c` runs. */
  predicate Fits(r: Request, t: Turn) {
    && (t.Ran? <==> r.Go? && r.n > 0)
    && (t.Ran? ==>
         && t.n == r.n && 0 < Used(t.steps, t.last) <= t.n
         && (t.last.Executed? && !t.woken ==> t.steps == t.n))
  }

  /** Whether the emulator is in the state of a stop (NEMU_BREAK) after a turn. */
  function Broken(was: bool, t: Turn): bool {
    if t.Ran? then !t.woken && !t.last.Trapped? && Used(t.steps, t.last) < t.n else was
  }

  function BrokenAfter(was: bool, log: seq<Turn>): bool {
    if log == [] then was else Broken(BrokenAfter(was, log[..|log| - 1]), log[|log| - 1])
  }

  /** Whether the program has ended (NEMU_STOP): a watchpoint after its trap makes the state NEMU_READY. */
  function Ended(was: bool, t: Turn): bool { if t.Ran? then t.last.Trapped? && !t.woken else was }

  function EndedAfter(was: bool, log: seq<Turn>): bool {
    if log == [] then was else Ended(EndedAfter(was, log[..|log| - 1]), log[|log| - 1])
  }

  /** A stop at `a` that took an 0xf1 out. */
  predicate StopsAt(t: Turn, a: nat) { t.Ran? && t.last.Hit? && t.at == a && !t.own }

  predicate Rearms(t: Turn) { t.Ran? && t.rearm }

  /** The live breakpoints that are not armed after a turn; `live` are those live then. */
  function UnarmedNext(u: set<nat>, t: Turn, live: set<nat>): set<nat> {
    ((if Rearms(t) then {} else u) + (if t.Ran? && t.last.Hit? && !t.own then {t.at} else {})) * live
  }

  /** And after the first |log| requests of a session that began with book `b` and with `u` not armed. */
  function Unarmed(b: Book, u: set<nat>, rs: seq<Request>, log: seq<Turn>): set<nat>
    requires |log| <= |rs|
    decreases |log|
  {
    if log == [] then u else
      var k := |log| - 1;
      UnarmedNext(Unarmed(b, u, rs, log[..k]), log[k], Places(After(b, rs[..k + 1])))
  }

  /** A call of exec goes through the program's run from g and ends with the program if that ends, passes no
      armed breakpoint and stops at armed ones only; a re-arming call has all of them armed once its first
      instruction is done. */
  ghost predicate Faithful(isa: Isa, g: Guest, live: set<nat>, u: set<nat>, t: Turn)
    requires t.Ran?
  {
    var armed := if t.rearm then live else live - u;
    && EndsAs(isa, g, t.steps, t.last)
    && (t.steps > 0 ==> g.cpu.eip !in live - u)
    && (forall j :: 0 < j < t.steps ==> ProgramRun(isa, g, j).cpu.eip !in armed)
    && var now := ProgramRun(isa, g, t.steps);
    && t.at == now.cpu.eip && t.own == (Fetch(now.mem, now.cpu.eip) == INT3)
    && (t.last.Hit? ==> t.at in if t.steps == 0 then live - u else armed)
  }

  /** The i-th entry of the record tells what happened. */
  ghost predicate Tells(isa: Isa, g: Guest, b: Book, u: set<nat>, broken: bool, rs: seq<Request>, log: seq<Turn>,
      i: nat)
    requires i < |log| <= |rs|
  {
    && Fits(rs[i], log[i])
    && (log[i].Ran? ==>
         && log[i].rearm == BrokenAfter(broken, log[..i])
         && Faithful(isa, ProgramRun(isa, g, Steps(log[..i])), Places(After(b, rs[..i])), Unarmed(b, u, rs, log[..i]),
                     log[i]))
  }

  ghost predicate Record(isa: Isa, g: Guest, b: Book, u: set<nat>, broken: bool, rs: seq<Request>, log: seq<Turn>) {
    |log| <= |rs| && forall i: nat :: i < |log| ==> Tells(isa, g, b, u, broken, rs, log, i)
  }

  lemma RecordMore(isa: Isa, g: Guest, b: Book, u: set<nat>, broken: bool, rs: seq<Request>, log: seq<Turn>, t: Turn)
    requires Record(isa, g, b, u, broken, rs, log) && |log| < |rs| && Fits(rs[|log|], t)
    requires t.Ran? ==>
      && t.rearm == BrokenAfter(broken, log)
      && Faithful(isa, ProgramRun(isa, g, Steps(log)), Places(After(b, rs[..|log|])), Unarmed(b, u, rs, log), t)
    ensures Record(isa, g, b, u, broken, rs, log + [t])
    ensures Steps(log + [t]) == Steps(log) + StepsOf(t)
    ensures BrokenAfter(broken, log + [t]) == Broken(BrokenAfter(broken, log), t)
    ensures forall was :: EndedAfter(was, log + [t]) == Ended(EndedAfter(was, log), t)
    ensures Unarmed(b, u, rs, log + [t]) == UnarmedNext(Unarmed(b, u, rs, log), t, Places(After(b, rs[..|log| + 1])))
  {
    var more := log + [t];
    assert more[..|log|] == log;
    forall i: nat | i < |more| ensures Tells(isa, g, b, u, broken, rs, more, i) {
      if i < |log| {
        assert Tells(isa, g, b, u, broken, rs, log, i);
        assert more[..i] == log[..i];
      }
    }
  }

  lemma RecordLess(isa: Isa, g: Guest, b: Book, u: set<nat>, broken: bool, rs: seq<Request>, log: seq<Turn>)
    requires Record(isa, g, b, u, broken, rs, log) && log != []
    ensures Record(isa, g, b, u, broken, rs, log[..|log| - 1])
    ensures var t := log[|log| - 1];
      t.Ran? ==> EndsAs(isa, ProgramRun(isa, g, Steps(log[..|log| - 1])), t.steps, t.last)
  {
    var front := log[..|log| - 1];
    forall i: nat | i < |front| ensures Tells(isa, g, b, u, broken, rs, front, i) {
      assert Tells(isa, g, b, u, broken, rs, log, i) && front[..i] == log[..i];
    }
    assert Tells(isa, g, b, u, broken, rs, log, |log| - 1);
    hide ProgramRun, EndsAs, Places, After, Unarmed, BrokenAfter, Steps, Fits;
  }

  /** Where a record says that the program has ended, its own last instruction was the trap. */
  lemma {:induction false} EndedByProgram(isa: Isa, g: Guest, b: Book, u: set<nat>, broken: bool, rs: seq<Request>,
      log: seq<Turn>)
    requires Record(isa, g, b, u, broken, rs, log) && EndedAfter(false, log)
    ensures Steps(log) > 0 && Stops(isa, ProgramRun(isa, g, Steps(log) - 1))
    decreases |log|
  {
    hide Record, ProgramRun, Stops;
    var t, front := log[|log| - 1], log[..|log| - 1];
    RecordLess(isa, g, b, u, broken, rs, log);
    if t.Ran? {
      ProgramRunAdd(isa, g, Steps(front), t.steps - 1);
    } else {
      EndedByProgram(isa, g, b, u, broken, rs, front);
    }
  }

  // ---------------------------------------------------------------- what exec leaves armed

  /** The live breakpoints whose opcode in memory is not 0xf1. */
  function UnarmedIn(mem: seq<Byte>, marks: seq<Mark>): set<nat> {
    set a | a in Addresses(marks) && Fetch(mem, a) != INT3
  }

  /** A call of exec as a turn. */
  function TurnOf(n: nat, rearm: bool, steps: nat, last: Event, woken: bool, g: Guest): Turn {
    Ran(n, rearm, steps, last, woken, g.cpu.eip, Fetch(g.mem, g.cpu.eip) == INT3)
  }

  lemma ReachedIsFaithful(isa: Isa, g0: Guest, m0: seq<Byte>, marks: seq<Mark>, rearm: bool,
      n: nat, steps: nat, last: Event, woken: bool, g: Guest, m: seq<Byte>)
    requires Reached(isa, g0, m0, marks, rearm, steps, last, g, m) && EndsAs(isa, g0, steps, last)
    ensures Faithful(isa, g0, Addresses(marks), UnarmedIn(m0, marks), TurnOf(n, rearm, steps, last, woken, g))
  {
    hide ArmedAfter;
    forall a: nat ensures a in Addresses(marks) <==> HasBreak(marks, a) {
      AddressesHave(marks, a);
    }
    hide HasBreak, Addresses;
  }

  lemma ReachedUnarmed(isa: Isa, g0: Guest, m0: seq<Byte>, marks: seq<Mark>, rearm: bool,
      n: nat, steps: nat, last: Event, woken: bool, g: Guest, m: seq<Byte>)
    requires Reached(isa, g0, m0, marks, rearm, steps, last, g, m) && Used(steps, last) > 0
    requires Inside(marks, |m0|) && |m| == |m0| && DistinctAddresses(marks) && g.mem == Restored(m, marks)
    ensures UnarmedIn(m, marks) ==
            UnarmedNext(UnarmedIn(m0, marks), TurnOf(n, rearm, steps, last, woken, g), Addresses(marks))
  {
    var t := TurnOf(n, rearm, steps, last, woken, g);
    forall a: nat | a in Addresses(marks)
      ensures Fetch(m, a) != INT3 <==> a in UnarmedNext(UnarmedIn(m0, marks), t, Addresses(marks))
    {
      LiveAfter(isa, g0, m0, marks, rearm, steps, last, g, m, a);
    }
  }

  /** The opcode at a live address after a call. */
  lemma LiveAfter(isa: Isa, g0: Guest, m0: seq<Byte>, marks: seq<Mark>, rearm: bool,
      steps: nat, last: Event, g: Guest, m: seq<Byte>, a: nat)
    requires Reached(isa, g0, m0, marks, rearm, steps, last, g, m) && Used(steps, last) > 0
    requires Inside(marks, |m0|) && |m| == |m0| && DistinctAddresses(marks) && g.mem == Restored(m, marks)
    requires a in Addresses(marks)
    ensures Fetch(m, a) ==
            if last.Hit? && a == g.cpu.eip then Fetch(g.mem, a) else if rearm then INT3 else Fetch(m0, a)
  {
    AddressesHave(marks, a);
    LiveInside(marks, |m0|, a);
    RestoredAt(m, marks, a);
    DistinctNewestIsOldest(marks, a);
    hide HasBreak, Addresses, Restored, DistinctAddresses, ProgramRun, Watched;
  }

  /** The count of the call, and the state it ends in. */
  lemma ReachedFits(isa: Isa, g0: Guest, m0: seq<Byte>, marks: seq<Mark>, rearm: bool,
      n: U32, steps: nat, last: Event, woken: bool, g: Guest, m: seq<Byte>)
    requires Reached(isa, g0, m0, marks, rearm, steps, last, g, m) && n > 0
    requires Used(steps, last) <= n && (last.Executed? && !woken ==> steps == n) && (woken ==> Used(steps, last) > 0)
    ensures var t := TurnOf(n, rearm, steps, last, woken, g);
            && Fits(Go(n), t) && StepsOf(t) == steps
            && Broken(rearm, t) == (!woken && !last.Trapped? && Used(steps, last) != n)
            && t.Ran? && t.rearm == rearm && Used(steps, last) > 0
            && forall was :: Ended(was, t) == (last.Trapped? && !woken)
    ensures g == ProgramRun(isa, g0, steps)
  {
    hide ArmedAfter, HasBreak, Fetch, ProgramRun, Newest, ArmedAtAddr, Watched;
  }

  lemma LiveInside(marks: seq<Mark>, size: nat, a: nat)
    requires Inside(marks, size) && HasBreak(marks, a)
    ensures a < size
  {
  }

  /** A call for one instruction, on an armed breakpoint of a program that is not stopped: its count is used
      up by the stop. */
  lemma OneOntoArmed(isa: Isa, g: Guest, live: set<nat>, u: set<nat>, t: Turn)
    requires Fits(Go(1), t) && t.Ran? && !t.rearm && Faithful(isa, g, live, u, t)
    requires g.cpu.eip in live - u && u <= live && Fetch(g.mem, g.cpu.eip) != INT3
    ensures t.steps == 0 && StopsAt(t, g.cpu.eip) && Lapses(t) && !Broken(false, t)
    ensures ProgramRun(isa, g, StepsOf(t)) == g && UnarmedNext(u, t, live) == u + {g.cpu.eip}
  {
  }

  // ---------------------------------------------------------------- exactly which stops are forgotten

  /** There is a live breakpoint at `a` after turn j. */
  predicate LiveAt(b: Book, rs: seq<Request>, j: nat, a: nat) { j < |rs| && a in Places(After(b, rs[..j + 1])) }

  /** From turn i on, up to the end of the record, the breakpoint at `a` was never deleted and nothing
      re-armed it. */
  predicate Standing(b: Book, rs: seq<Request>, log: seq<Turn>, i: nat, a: nat)
    requires |log| <= |rs|
  {
    && (forall j: nat :: i <= j < |log| ==> LiveAt(b, rs, j, a))
    && (forall j: nat :: i < j < |log| ==> !Rearms(log[j]))
  }

  /** The stop of turn i took out the 0xf1 at `a`, and that is how it is. */
  predicate Stood(b: Book, rs: seq<Request>, log: seq<Turn>, i: nat, a: nat)
    requires |log| <= |rs|
  {
    i < |log| && StopsAt(log[i], a) && Standing(b, rs, log, i, a)
  }

  lemma StandingMore(b: Book, rs: seq<Request>, log: seq<Turn>, i: nat, a: nat)
    requires 0 < |log| <= |rs| && i < |log| - 1
    ensures Standing(b, rs, log, i, a) <==>
            Standing(b, rs, log[..|log| - 1], i, a) &&
            LiveAt(b, rs, |log| - 1, a) && !Rearms(log[|log| - 1])
  {
    hide LiveAt, Rearms;
    var k, front := |log| - 1, log[..|log| - 1];
    if Standing(b, rs, front, i, a) && LiveAt(b, rs, k, a) && !Rearms(log[k]) {
      forall j: nat | i < j < |log| ensures !Rearms(log[j]) {
        if j < k { assert front[j] == log[j]; }
      }
    }
    if Standing(b, rs, log, i, a) {
      forall j: nat | i < j < k ensures !Rearms(front[j]) {
        assert front[j] == log[j];
      }
    }
  }

  /** In a session that begins with all breakpoints armed, a live breakpoint is not armed exactly if some
      stop took its 0xf1 out and since then it was neither deleted nor re-armed. */
  lemma {:induction false} UnarmedIff(b: Book, rs: seq<Request>, log: seq<Turn>, a: nat)
    requires |log| <= |rs|
    ensures a in Unarmed(b, {}, rs, log) <==> exists i: nat :: Stood(b, rs, log, i, a)
    decreases |log|
  {
    hide LiveAt, StopsAt, Rearms, Standing, Unarmed;
    if log == [] {
      NoneAtFirst(b, rs);
    } else {
      var k, front := |log| - 1, log[..|log| - 1];
      UnarmedIff(b, rs, front, a);
      UnarmedLast(b, rs, log, a);
      LastStands(b, rs, log, a);
      if i: nat :| Stood(b, rs, front, i, a) {
        StandingMore(b, rs, log, i, a);
        assert front[i] == log[i];
        assert Stood(b, rs, log, i, a) <==> LiveAt(b, rs, k, a) && !Rearms(log[k]);
      }
      if i: nat :| Stood(b, rs, log, i, a) && i < k {
        StandingMore(b, rs, log, i, a);
        assert front[i] == log[i] && Stood(b, rs, front, i, a);
      }
      assert StopsAt(log[k], a) && LiveAt(b, rs, k, a) <==> Stood(b, rs, log, k, a);
    }
  }

  lemma NoneAtFirst(b: Book, rs: seq<Request>)
    ensures Unarmed(b, {}, rs, []) == {}
  {
  }

  lemma UnarmedLast(b: Book, rs: seq<Request>, log: seq<Turn>, a: nat)
    requires 0 < |log| <= |rs|
    ensures var k := |log| - 1;
            a in Unarmed(b, {}, rs, log) <==>
              LiveAt(b, rs, k, a) &&
              ((a in Unarmed(b, {}, rs, log[..k]) && !Rearms(log[k])) || StopsAt(log[k], a))
  {
    hide Places, After;
  }

  lemma LastStands(b: Book, rs: seq<Request>, log: seq<Turn>, a: nat)
    requires 0 < |log| <= |rs|
    ensures Standing(b, rs, log, |log| - 1, a) <==> LiveAt(b, rs, |log| - 1, a)
  {
    hide LiveAt;
  }

  /** The count of the call ran out exactly at the stop, or a watchpoint ended the call there: the next call
      will not know. */
  predicate Lapses(t: Turn) { t.Ran? && t.last.Hit? && (t.woken || Used(t.steps, t.last) == t.n) }

  /** The place of the last stop, if the last call ended in one. */
  function StoppedAt(log: seq<Turn>): set<nat> {
    if log == [] then {}
    else if log[|log| - 1].Ran? then
      if log[|log| - 1].last.Hit? then {log[|log| - 1].at} else {}
    else StoppedAt(log[..|log| - 1])
  }

  /** The flags of a record are right. */
  predicate Flagged(broken: bool, rs: seq<Request>, log: seq<Turn>) {
    |log| <= |rs| && forall i: nat :: i < |log| ==>
      Fits(rs[i], log[i]) && (log[i].Ran? ==> log[i].rearm == BrokenAfter(broken, log[..i]))
  }

  lemma RecordIsFlagged(isa: Isa, g: Guest, b: Book, u: set<nat>, broken: bool, rs: seq<Request>, log: seq<Turn>)
    requires Record(isa, g, b, u, broken, rs, log)
    ensures Flagged(broken, rs, log)
  {
    forall i: nat | i < |log| ensures Fits(rs[i], log[i])
      ensures log[i].Ran? ==> log[i].rearm == BrokenAfter(broken, log[..i])
    {
      assert Tells(isa, g, b, u, broken, rs, log, i);
    }
  }

  /** A stop that did not lapse is where the program still is, as long as nothing re-armed it. */
  lemma {:induction false} StillThere(broken: bool, rs: seq<Request>, log: seq<Turn>, i: nat, k: nat)
    requires Flagged(broken, rs, log) && i < k <= |log| && log[i].Ran? && log[i].last.Hit? && !Lapses(log[i])
    requires forall j: nat :: i < j < k ==> !Rearms(log[j])
    ensures BrokenAfter(broken, log[..k]) && StoppedAt(log[..k]) == {log[i].at}
    decreases k
  {
    assert log[..k][..k - 1] == log[..k - 1];
    if i < k - 1 {
      StillThere(broken, rs, log, i, k - 1);
    }
  }

  /** A stop that is behind: it lapsed, and its breakpoint was neither deleted nor re-armed since. */
  predicate Forgotten(b: Book, rs: seq<Request>, log: seq<Turn>, i: nat, a: nat)
    requires |log| <= |rs|
  {
    Stood(b, rs, log, i, a) && Lapses(log[i])
  }

  lemma StoodLapses(b: Book, broken: bool, rs: seq<Request>, log: seq<Turn>, i: nat, a: nat)
    requires |log| <= |rs| && Flagged(broken, rs, log) && Stood(b, rs, log, i, a) && a !in StoppedAt(log)
    ensures Lapses(log[i])
  {
    hide LiveAt, StoppedAt, Flagged;
    assert log[..|log|] == log;
    if !Lapses(log[i]) { StillThere(broken, rs, log, i, |log|); }
  }

  /** Apart from the place of the last stop, exactly the forgotten stops leave a live breakpoint unarmed. */
  lemma ForgottenIff(b: Book, broken: bool, rs: seq<Request>, log: seq<Turn>, a: nat)
    requires |log| <= |rs| && Flagged(broken, rs, log) && a !in StoppedAt(log)
    ensures a in Unarmed(b, {}, rs, log) <==> exists i: nat :: Forgotten(b, rs, log, i, a)
  {
    hide Unarmed, Places, After, StoppedAt, Flagged;
    UnarmedIff(b, rs, log, a);
    if i: nat :| Stood(b, rs, log, i, a) {
      StoodLapses(b, broken, rs, log, i, a);
      assert Forgotten(b, rs, log, i, a);
    }
    if i: nat :| Forgotten(b, rs, log, i, a) {
      assert Stood(b, rs, log, i, a);
    }
  }

  /** All live breakpoints but the one stopped at are armed exactly if no other stop is forgotten. */
  lemma AllArmedIff(b: Book, broken: bool, rs: seq<Request>, log: seq<Turn>)
    requires |log| <= |rs| && Flagged(broken, rs, log)
    ensures Unarmed(b, {}, rs, log) <= StoppedAt(log) <==>
            forall i: nat, a: nat :: Forgotten(b, rs, log, i, a) ==> a in StoppedAt(log)
  {
    hide Unarmed, Forgotten, StoppedAt, Flagged;
    forall a: nat | a !in StoppedAt(log)
      ensures a in Unarmed(b, {}, rs, log) <==> exists i: nat :: Forgotten(b, rs, log, i, a)
    {
      ForgottenIff(b, broken, rs, log, a);
    }
  }

  /** `si` onto a breakpoint and then `c`: the stop is forgotten at once, and the call after it passes over
      the breakpoint. */
  lemma SteppedOnto(b: Book, rs: seq<Request>, log: seq<Turn>, woken: bool, a: nat)
    requires |log| == |rs| == 2 && Flagged(false, rs, log) && rs[0] == Go(1) && rs[1].Go? && a in Places(b)
    requires log[0] == Ran(1, false, 0, Hit, woken, a, false)
    ensures Forgotten(b, rs, log, 0, a) && !Rearms(log[1]) && a in Unarmed(b, {}, rs, log)
  {
    assert rs[..0] == [] && rs[..1] == [rs[0]] && rs[..2] == rs;
    assert log[..0] == [] && log[..1] == [log[0]];
    assert After(b, rs[..1]) == b by { assert rs[..1][..0] == []; }
    assert After(b, rs[..2]) == b by { assert rs[..2][..1] == rs[..1]; }
    hide After, Places;
    assert BrokenAfter(false, log[..1]) == Broken(BrokenAfter(false, []), log[0]);
    assert LiveAt(b, rs, 0, a) && LiveAt(b, rs, 1, a);
    assert Stood(b, rs, log, 0, a);
    UnarmedIff(b, rs, log, a);
  }
}
