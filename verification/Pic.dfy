/** The interrupt controller and the processor's side of it as threads that interleave step by step
    (nemu/src/device/i8259_pic.c, `do_intr` in nemu/src/cpu/cpu.c). Locking the mutex blocks until it
    is free; the flag cpu.intr and the latched number are read by the processor without it. */
module Pic {
  import opened Options
  import opened Words

  const IRQ_BASE: nat := 32
  const NO_INTR: Byte := 255

  /** Where a device thread is in i8259_raise_intr. */
  datatype Device = Idle | Calling(irq: Byte) | Holding(irq: Byte) | Latched(irq: Byte) | Signalled

  /** Where the processor is in do_intr; `upto` is how many raises there had been at the query. */
  datatype Core =
    | Running
    | Seen
    | Queried(no: Byte, upto: nat)
    | Acking(no: Byte, upto: nat)
    | Cleared(no: Byte, from: nat, upto: nat)
    | Lowered(no: Byte, from: nat, upto: nat)
    | Failed

  datatype Owner = Free | Dev(d: nat) | Cpu

  /** A number handed to raise_intr: it answers the raises `from` (after the acknowledgement before)
      up to `upto` (at the query). */
  datatype Delivery = Delivery(no: Byte, from: nat, upto: nat)

  datatype State = State(
    no: Byte, intr: bool, owner: Owner, devices: seq<Device>, core: Core,
    raised: seq<Byte>, acked: nat, delivered: seq<Delivery>)

  datatype Action =
    | Call(d: nat, irq: Byte) | Lock(d: nat) | Latch(d: nat) | Signal(d: nat) | Unlock(d: nat)
    | Check | Query | AckLock | AckClear | AckLower | AckUnlock

  function Init(n: nat): State {
    State(NO_INTR, false, Free, seq(n, _ => Idle), Running, [], 0, [])
  }

  /** The number latched when `irq` is raised on top of `no`: 8-bit arithmetic, priority to the higher. */
  function Latching(no: Byte, irq: Byte): Byte {
    if no == NO_INTR || irq > no - IRQ_BASE then (irq + IRQ_BASE) % 256 else no
  }

  predicate Acks(c: Core) { c.Acking? || c.Cleared? || c.Lowered? }

  predicate Locks(d: Device) { d.Holding? || d.Latched? || d.Signalled? }

  /** One atomic step of one thread; None if that thread cannot take it. */
  function Step(s: State, a: Action): Option<State> {
    match a
    case Call(d, irq) =>
      if d < |s.devices| && s.devices[d].Idle? then Some(s.(devices := s.devices[d := Calling(irq)])) else None
    case Lock(d) =>
      if d < |s.devices| && s.devices[d].Calling? && s.owner.Free? then
        Some(s.(owner := Dev(d), devices := s.devices[d := Holding(s.devices[d].irq)]))
      else None
    case Latch(d) =>
      if d < |s.devices| && s.devices[d].Holding? then
        var irq := s.devices[d].irq;
        Some(s.(no := Latching(s.no, irq), raised := s.raised + [irq], devices := s.devices[d := Latched(irq)]))
      else None
    case Signal(d) =>
      if d < |s.devices| && s.devices[d].Latched? then
        Some(s.(intr := true, devices := s.devices[d := Signalled]))
      else None
    case Unlock(d) =>
      if d < |s.devices| && s.devices[d].Signalled? then
        Some(s.(owner := Free, devices := s.devices[d := Idle]))
      else None
    case Check => if s.core.Running? && s.intr then Some(s.(core := Seen)) else None
    case Query =>
      if s.core.Seen? then
        Some(s.(core := if s.no == NO_INTR then Failed else Queried(s.no, |s.raised|)))
      else None
    case AckLock =>
      if s.core.Queried? && s.owner.Free? then
        Some(s.(owner := Cpu, core := Acking(s.core.no, s.core.upto)))
      else None
    case AckClear =>
      if s.core.Acking? then
        Some(s.(no := NO_INTR, acked := |s.raised|, core := Cleared(s.core.no, s.acked, s.core.upto)))
      else None
    case AckLower =>
      if s.core.Cleared? then
        Some(s.(intr := false, core := Lowered(s.core.no, s.core.from, s.core.upto)))
      else None
    case AckUnlock =>
      if s.core.Lowered? then
        Some(s.(owner := Free, core := Running,
                delivered := s.delivered + [Delivery(s.core.no, s.core.from, s.core.upto)]))
      else None
  }

  /** Every interleaving: any sequence of steps that are enabled one after the other. */
  function Run(s: State, actions: seq<Action>): Option<State>
    decreases |actions|
  {
    if actions == [] then Some(s) else
      match Run(s, actions[..|actions| - 1])
      case None => None
      case Some(m) => Step(m, actions[|actions| - 1])
  }

  /** The number latched after a series of raises. */
  function Level(irqs: seq<Byte>): Byte {
    if irqs == [] then NO_INTR else Latching(Level(irqs[..|irqs| - 1]), irqs[|irqs| - 1])
  }

  // ---------------------------------------------------------------- what every step keeps

  /** The mutex is held by exactly the thread inside its critical section. */
  predicate Exclusive(s: State) {
    && (Acks(s.core) <==> s.owner == Cpu)
    && (forall d :: 0 <= d < |s.devices| ==> (Locks(s.devices[d]) <==> s.owner == Dev(d)))
    && (s.owner.Dev? ==> s.owner.d < |s.devices|)
  }

  /** No device latches the number that means none. */
  predicate Harmless(s: State) {
    && (forall d :: 0 <= d < |s.devices| ==>
         (s.devices[d].Calling? || s.devices[d].Holding? || s.devices[d].Latched?) ==>
           s.devices[d].irq + IRQ_BASE != NO_INTR)
    && (forall i :: 0 <= i < |s.raised| ==> s.raised[i] + IRQ_BASE != NO_INTR)
  }

  /** The raises a query has seen are those since the last acknowledgement. */
  predicate Books(s: State) {
    && s.acked <= |s.raised|
    && s.no == Level(s.raised[s.acked..])
    && |s.delivered| + (if s.core.Cleared? || s.core.Lowered? then 1 else 0) <= s.acked
    && (s.core.Queried? || s.core.Acking? ==>
         s.acked < s.core.upto <= |s.raised| && s.core.no == Level(s.raised[s.acked..s.core.upto]))
    && (s.core.Cleared? || s.core.Lowered? ==>
         && s.core.from < s.core.upto <= s.acked == |s.raised|
         && s.core.no == Level(s.raised[s.core.from..s.core.upto]))
  }

  /** What has been delivered answers the raises of disjoint, ordered stretches. */
  predicate Answers(s: State) {
    forall i: nat :: i < |s.delivered| ==> Answer(s, i)
  }

  /** The flag the processor polls and the latched number agree, but for the middle of an update. */
  predicate FlagAgrees(s: State) {
    && (s.intr ==> s.no != NO_INTR || s.core.Cleared?)
    && (s.core.Seen? || s.core.Queried? || s.core.Acking? ==> s.intr && s.no != NO_INTR)
    && (forall d :: 0 <= d < |s.devices| && s.devices[d].Latched? ==> s.no != NO_INTR)
    && (s.no != NO_INTR ==> s.intr || (s.owner.Dev? && s.owner.d < |s.devices| && s.devices[s.owner.d].Latched?))
    && !s.core.Failed?
  }

  predicate Inv(s: State) {
    Exclusive(s) && Harmless(s) && Books(s) && Answers(s) && FlagAgrees(s)
  }

  lemma KeepsExclusive(s: State, a: Action)
    requires Exclusive(s) && Step(s, a).Some?
    ensures Exclusive(Step(s, a).value)
  {
  }

  lemma KeepsHarmless(s: State, a: Action)
    requires Harmless(s) && Step(s, a).Some? && (a.Call? ==> a.irq + IRQ_BASE != NO_INTR)
    ensures Harmless(Step(s, a).value)
  {
  }

  lemma LevelSnoc(irqs: seq<Byte>, irq: Byte)
    ensures Level(irqs + [irq]) == Latching(Level(irqs), irq)
  {
    assert (irqs + [irq])[..|irqs|] == irqs;
  }

  lemma NoRaises()
    ensures Level([]) == NO_INTR
  {
  }

  lemma KeepsBooks(s: State, a: Action)
    requires Exclusive(s) && Books(s) && FlagAgrees(s) && Step(s, a).Some?
    ensures Books(Step(s, a).value)
  {
    hide Level, Latching;
    NoRaises();
    var t := Step(s, a).value;
    if a.Latch? {
      var irq := s.devices[a.d].irq;
      LevelSnoc(s.raised[s.acked..], irq);
      assert t.raised[s.acked..] == s.raised[s.acked..] + [irq];
      assert forall i, j :: 0 <= i <= j <= |s.raised| ==> t.raised[i..j] == s.raised[i..j];
    } else if a.Query? {
      assert s.raised[s.acked..|s.raised|] == s.raised[s.acked..];
      assert s.raised[s.acked..] != [];
    } else if a.AckClear? {
      assert t.raised[t.acked..] == [];
    }
  }

  /** The `i`-th delivery is in order. */
  predicate Answer(s: State, i: nat)
    requires i < |s.delivered|
  {
    var e := s.delivered[i];
    && e.from < e.upto <= s.acked <= |s.raised|
    && e.no == Level(s.raised[e.from..e.upto])
    && (i > 0 ==> s.delivered[i - 1].upto <= e.from)
    && (s.core.Cleared? || s.core.Lowered? ==> e.upto <= s.core.from)
  }

  lemma KeepsAnswers(s: State, a: Action)
    requires Exclusive(s) && Books(s) && Answers(s) && Step(s, a).Some?
    ensures Answers(Step(s, a).value)
  {
    var t := Step(s, a).value;
    forall i: nat | i < |t.delivered| ensures Answer(t, i) {
      KeepsAnswer(s, a, i);
    }
  }

  lemma KeepsAnswer(s: State, a: Action, i: nat)
    requires Exclusive(s) && Books(s) && Answers(s) && Step(s, a).Some?
    requires i < |Step(s, a).value.delivered|
    ensures Answer(Step(s, a).value, i)
  {
    hide Exclusive, Level;
    var t := Step(s, a).value;
    if i < |s.delivered| {
      var e := s.delivered[i];
      assert Answer(s, i);
      assert t.raised[e.from..e.upto] == s.raised[e.from..e.upto];
    } else {
      assert i > 0 ==> Answer(s, i - 1);
    }
  }

  lemma KeepsFlag(s: State, a: Action)
    requires Exclusive(s) && Harmless(s) && Books(s) && FlagAgrees(s) && Step(s, a).Some?
    ensures FlagAgrees(Step(s, a).value)
  {
    if s.core.Cleared? || s.core.Lowered? {
      assert s.raised[s.acked..] == [];
      assert s.no == NO_INTR;
    }
    if a.Latch? {
      assert Latching(s.no, s.devices[a.d].irq) != NO_INTR;
    }
    hide Level, Latching;
  }

  // ---------------------------------------------------------------- every run

  /** No device raises an irq whose number would read as none. */
  predicate Sane(actions: seq<Action>) {
    forall a :: a in actions && a.Call? ==> a.irq + IRQ_BASE != NO_INTR
  }

  lemma {:induction false} RunKeeps(n: nat, actions: seq<Action>)
    requires Sane(actions) && Run(Init(n), actions).Some?
    ensures Inv(Run(Init(n), actions).value)
    decreases |actions|
  {
    if actions != [] {
      var before, a := actions[..|actions| - 1], actions[|actions| - 1];
      RunKeeps(n, before);
      var s := Run(Init(n), before).value;
      assert a in actions;
      hide Exclusive, Harmless, Books, Answers, FlagAgrees, Step, Level;
      KeepsExclusive(s, a);
      KeepsHarmless(s, a);
      KeepsBooks(s, a);
      KeepsAnswers(s, a);
      KeepsFlag(s, a);
    }
  }

  /** In every interleaving the assertion of do_intr holds, a raised interrupt stays visible to the
      processor whenever the mutex is free, and there are no more deliveries than raises. */
  lemma AssertionHolds(n: nat, actions: seq<Action>)
    requires Sane(actions) && Run(Init(n), actions).Some?
    ensures var s := Run(Init(n), actions).value;
            && !s.core.Failed?
            && (s.owner.Free? ==> (s.intr <==> s.no != NO_INTR))
            && |s.delivered| <= |s.raised|
  {
    RunKeeps(n, actions);
  }

  predicate Small(irqs: seq<Byte>) {
    forall i :: 0 <= i < |irqs| ==> irqs[i] < 16
  }

  /** Among irqs below 16 the latched number is the highest one. */
  lemma {:induction false} LevelIsHighest(irqs: seq<Byte>)
    requires Small(irqs)
    ensures irqs == [] ==> Level(irqs) == NO_INTR
    ensures irqs != [] ==> IRQ_BASE <= Level(irqs) < IRQ_BASE + 16
    ensures irqs != [] ==> Level(irqs) - IRQ_BASE in irqs
    ensures forall i :: 0 <= i < |irqs| ==> irqs[i] <= Level(irqs) - IRQ_BASE
  {
    if irqs != [] {
      var front, last := irqs[..|irqs| - 1], irqs[|irqs| - 1];
      LevelIsHighest(front);
      assert irqs == front + [last];
    }
  }

  lemma {:induction false} RunIsSmall(n: nat, actions: seq<Action>)
    requires forall a :: a in actions && a.Call? ==> a.irq < 16
    requires Run(Init(n), actions).Some?
    ensures var s := Run(Init(n), actions).value;
            && Small(s.raised)
            && forall d :: 0 <= d < |s.devices| ==>
                 (s.devices[d].Calling? || s.devices[d].Holding? || s.devices[d].Latched?) ==> s.devices[d].irq < 16
    decreases |actions|
  {
    if actions != [] {
      var before, a := actions[..|actions| - 1], actions[|actions| - 1];
      RunIsSmall(n, before);
      assert a in actions;
    }
  }

  /** In every interleaving of devices with irqs below 16: each number delivered is 32 plus the highest
      irq raised after the acknowledgement before and up to its query, and the stretches of raises the
      deliveries answer are nonempty and follow one another. */
  lemma EveryDelivery(n: nat, actions: seq<Action>, i: nat)
    requires forall a :: a in actions && a.Call? ==> a.irq < 16
    requires Run(Init(n), actions).Some? && i < |Run(Init(n), actions).value.delivered|
    ensures var s := Run(Init(n), actions).value;
            var e := s.delivered[i];
            && e.from < e.upto <= |s.raised|
            && IRQ_BASE <= e.no
            && e.no - IRQ_BASE in s.raised[e.from..e.upto]
            && (forall k :: e.from <= k < e.upto ==> s.raised[k] <= e.no - IRQ_BASE)
            && (i > 0 ==> s.delivered[i - 1].upto <= e.from)
  {
    hide *;
    SmallIsSane(actions);
    RunKeeps(n, actions);
    RunIsSmall(n, actions);
    DeliveryAnswers(Run(Init(n), actions).value, i);
  }

  lemma SmallIsSane(actions: seq<Action>)
    requires forall a :: a in actions && a.Call? ==> a.irq < 16
    ensures Sane(actions)
  {
  }

  lemma DeliveryAnswers(s: State, i: nat)
    requires Inv(s) && Small(s.raised) && i < |s.delivered|
    ensures var e := s.delivered[i];
            && e.from < e.upto <= |s.raised|
            && IRQ_BASE <= e.no
            && e.no - IRQ_BASE in s.raised[e.from..e.upto]
            && (forall k :: e.from <= k < e.upto ==> s.raised[k] <= e.no - IRQ_BASE)
            && (i > 0 ==> s.delivered[i - 1].upto <= e.from)
  {
    hide Level, Exclusive, Harmless, Books, FlagAgrees;
    assert Answer(s, i);
    Highest(s.raised, s.delivered[i]);
  }

  lemma Highest(raised: seq<Byte>, e: Delivery)
    requires Small(raised) && e.from < e.upto <= |raised| && e.no == Level(raised[e.from..e.upto])
    ensures IRQ_BASE <= e.no && e.no - IRQ_BASE in raised[e.from..e.upto]
    ensures forall k :: e.from <= k < e.upto ==> raised[k] <= e.no - IRQ_BASE
  {
    var w := raised[e.from..e.upto];
    LevelIsHighest(w);
    forall k | e.from <= k < e.upto ensures raised[k] <= e.no - IRQ_BASE {
      assert w[k - e.from] == raised[k];
    }
  }

  lemma RunSnoc(s: State, actions: seq<Action>, a: Action)
    ensures Run(s, actions + [a]) ==
            match Run(s, actions) case None => None case Some(m) => Step(m, a)
  {
    assert (actions + [a])[..|actions|] == actions;
  }

  // ---------------------------------------------------------------- the code, one call at a time

  /** The shared variables and the calls on them as they run when nothing interleaves. */
  class Controller {
    var intrNo: Byte
    var intr: bool

    constructor ()
      ensures intrNo == Init(0).no && intr == Init(0).intr
    {
      intrNo, intr := NO_INTR, false;
    }

    /** i8259_raise_intr: the five steps of a device, one after the other. */
    method RaiseIntr(irq: Byte)
      modifies this
      ensures forall s: State, d :: Ready(s, d) && s.no == old(intrNo) && s.intr == old(intr) ==>
        var r := Run(s, RaiseCall(d, irq));
        r.Some? && r.value.no == intrNo && r.value.intr == intr
    {
      ghost var no := intrNo;
      if intrNo == NO_INTR || (intrNo != NO_INTR && irq > intrNo - IRQ_BASE) {
        intrNo := (irq + IRQ_BASE) % 256;
      }
      intr := true;
      forall s: State, d | Ready(s, d) && s.no == no
        ensures Run(s, RaiseCall(d, irq)) ==
                Some(s.(no := Latching(s.no, irq), intr := true, raised := s.raised + [irq]))
      {
        RaiseAlone(s, d, irq);
      }
    }

    /** do_intr: nothing, the failed assertion (None), or an acknowledged number for raise_intr. */
    method DoIntr(iflag: bool) returns (r: Option<seq<Byte>>)
      modifies this
      ensures !(old(intr) && iflag) ==> r == Some([]) && intrNo == old(intrNo) && intr == old(intr)
      ensures old(intr) && iflag ==> forall s: State ::
        s.owner.Free? && s.core.Running? && s.no == old(intrNo) && s.intr ==>
          match r
          case None => Run(s, [Check, Query]) == Some(s.(core := Failed))
          case Some(nos) =>
            var t := Run(s, InterruptCall());
            && t.Some? && t.value.no == intrNo && t.value.intr == intr
            && |t.value.delivered| == |s.delivered| + 1 && nos == [t.value.delivered[|s.delivered|].no]
    {
      ghost var was := intrNo;
      r := Some([]);
      if intr && iflag {
        var no := intrNo;
        if no == NO_INTR {
          r := None;
        } else {
          intrNo := NO_INTR;
          intr := false;
          r := Some([no]);
        }
        forall s: State | s.owner.Free? && s.core.Running? && s.no == was && s.intr
          ensures s.no == NO_INTR ==> Run(s, [Check, Query]) == Some(s.(core := Failed))
          ensures s.no != NO_INTR ==>
            Run(s, InterruptCall()) ==
            Some(s.(no := NO_INTR, intr := false, acked := |s.raised|,
                    delivered := s.delivered + [Delivery(s.no, s.acked, |s.raised|)]))
        {
          InterruptAlone(s);
        }
      }
    }
  }

  predicate Ready(s: State, d: nat) {
    d < |s.devices| && s.devices[d].Idle? && s.owner.Free?
  }

  function RaiseCall(d: nat, irq: Byte): seq<Action> { [Call(d, irq), Lock(d), Latch(d), Signal(d), Unlock(d)] }

  function InterruptCall(): seq<Action> { [Check, Query] + Acknowledgement() }

  function Acknowledgement(): seq<Action> { [AckLock, AckClear, AckLower, AckUnlock] }

  lemma RaiseAlone(s: State, d: nat, irq: Byte)
    requires Ready(s, d)
    ensures Run(s, RaiseCall(d, irq)) ==
            Some(s.(no := Latching(s.no, irq), intr := true, raised := s.raised + [irq]))
  {
    var a1 := [Call(d, irq)];
    var a2 := a1 + [Lock(d)];
    var a3 := a2 + [Latch(d)];
    var a4 := a3 + [Signal(d)];
    var s2 := s.(owner := Dev(d), devices := s.devices[d := Holding(irq)]);
    var s3 := s2.(no := Latching(s.no, irq), raised := s.raised + [irq], devices := s.devices[d := Latched(irq)]);
    var s4 := s3.(intr := true, devices := s.devices[d := Signalled]);
    RunSnoc(s, [], Call(d, irq));
    RunSnoc(s, a1, Lock(d));
    RunSnoc(s, a2, Latch(d));
    RunSnoc(s, a3, Signal(d));
    RunSnoc(s, a4, Unlock(d));
    assert a4 + [Unlock(d)] == RaiseCall(d, irq);
    assert Run(s, []) == Some(s) && [] + [Call(d, irq)] == a1;
    hide Run, Latching;
    assert s.devices[d := Calling(irq)][d := Holding(irq)] == s.devices[d := Holding(irq)];
    assert Run(s, a2) == Some(s2);
    assert s2.devices[d := Latched(irq)] == s.devices[d := Latched(irq)];
    assert Run(s, a3) == Some(s3);
    assert s3.devices[d := Signalled] == s.devices[d := Signalled];
    assert Run(s, a4) == Some(s4);
    assert s4.devices[d := Idle] == s.devices;
  }

  lemma {:induction false} RunOn(s: State, a: seq<Action>, b: seq<Action>)
    requires Run(s, a).Some?
    ensures Run(s, a + b) == Run(Run(s, a).value, b)
    decreases |b|
  {
    if b == [] {
      assert a + b == a;
    } else {
      var front := b[..|b| - 1];
      RunOn(s, a, front);
      assert (a + b)[..|a + b| - 1] == a + front;
    }
  }

  lemma QueryAlone(s: State)
    requires s.core.Running? && s.intr
    ensures Run(s, [Check, Query]) ==
            Some(s.(core := if s.no == NO_INTR then Failed else Queried(s.no, |s.raised|)))
  {
    assert Run(s, []) == Some(s) && [] + [Check] == [Check] && [Check] + [Query] == [Check, Query];
    RunSnoc(s, [], Check);
    RunSnoc(s, [Check], Query);
    hide Run;
  }

  lemma AcknowledgeAlone(s: State)
    requires s.owner.Free? && s.core.Queried?
    ensures Run(s, Acknowledgement()) ==
            Some(s.(no := NO_INTR, intr := false, acked := |s.raised|, core := Running,
                    delivered := s.delivered + [Delivery(s.core.no, s.acked, s.core.upto)]))
  {
    var a1 := [AckLock];
    var a2 := a1 + [AckClear];
    var a3 := a2 + [AckLower];
    assert Run(s, []) == Some(s) && [] + [AckLock] == a1;
    RunSnoc(s, [], AckLock);
    RunSnoc(s, a1, AckClear);
    RunSnoc(s, a2, AckLower);
    RunSnoc(s, a3, AckUnlock);
    assert a3 + [AckUnlock] == Acknowledgement();
    hide Run;
  }

  lemma InterruptAlone(s: State)
    requires s.owner.Free? && s.core.Running? && s.intr
    ensures s.no == NO_INTR ==> Run(s, [Check, Query]) == Some(s.(core := Failed))
    ensures s.no != NO_INTR ==>
      Run(s, InterruptCall()) ==
      Some(s.(no := NO_INTR, intr := false, acked := |s.raised|,
              delivered := s.delivered + [Delivery(s.no, s.acked, |s.raised|)]))
  {
    hide Run, Acknowledgement;
    QueryAlone(s);
    if s.no != NO_INTR {
      AcknowledgeAlone(s.(core := Queried(s.no, |s.raised|)));
      RunOn(s, [Check, Query], Acknowledgement());
    }
  }

  // ---------------------------------------------------------------- exactly the sane devices

  /** A device that raises irq 223 with nothing latched makes the assertion of do_intr fail. */
  lemma Irq223Fails(n: nat, d: nat)
    requires d < n
    ensures var actions := RaiseCall(d, 223) + [Check, Query];
            Run(Init(n), actions).Some? && Run(Init(n), actions).value.core.Failed?
  {
    var s, call := Init(n), RaiseCall(d, 223);
    RaiseAlone(s, d, 223);
    RunSnoc(s, call, Check);
    RunSnoc(s, call + [Check], Query);
    assert call + [Check] + [Query] == call + [Check, Query];
    hide Run, RaiseCall;
  }

  /** All calls raise an irq of a set. */
  predicate Uses(actions: seq<Action>, irqs: set<Byte>) {
    forall a :: a in actions && a.Call? ==> a.irq in irqs
  }

  /** Whatever the number of devices and the irqs they use: the assertion of do_intr holds in every
      interleaving exactly if 223 is not among the irqs. */
  lemma AssertionHoldsIff(n: nat, irqs: set<Byte>)
    requires n > 0
    ensures 223 !in irqs <==>
      forall actions :: Uses(actions, irqs) && Run(Init(n), actions).Some? ==> !Run(Init(n), actions).value.core.Failed?
  {
    if 223 in irqs {
      Irq223Fails(n, 0);
      assert Uses(RaiseCall(0, 223) + [Check, Query], irqs);
    } else {
      forall actions | Uses(actions, irqs) && Run(Init(n), actions).Some?
        ensures !Run(Init(n), actions).value.core.Failed?
      {
        AssertionHolds(n, actions);
      }
    }
  }
}
