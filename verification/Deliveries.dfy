/** Which part of a run a delivered interrupt number answers for: the positions in the run behind the
    counters of a delivery (nemu/src/device/i8259_pic.c, `do_intr` in nemu/src/cpu/cpu.c). */
module Deliveries {
  import opened Options
  import opened Pic
  import opened Words

  /** How many raises there are in a run. */
  function Raises(actions: seq<Action>): nat {
    if actions == [] then 0 else
      Raises(actions[..|actions| - 1]) + if actions[|actions| - 1].Latch? then 1 else 0
  }

  /** Where a run acknowledges, in order. */
  function Clears(actions: seq<Action>): (cs: seq<nat>)
    ensures forall i :: 0 <= i < |cs| ==> cs[i] < |actions|
  {
    if actions == [] then [] else
      Clears(actions[..|actions| - 1]) + if actions[|actions| - 1].AckClear? then [|actions| - 1] else []
  }

  /** Raises before the k-th acknowledgement, counted from 1; before the first there are none to count. */
  function RaisesUntil(actions: seq<Action>, k: nat): nat
    requires k <= |Clears(actions)|
  {
    if k > 0 then Raises(actions[..Clears(actions)[k - 1]]) else 0
  }

  /** The processor queried after the k-th acknowledgement and before `end`, with `upto` raises so far. */
  ghost predicate Queries(actions: seq<Action>, k: nat, end: nat, upto: nat) {
    exists q: nat :: QueryAt(actions, k, end, upto, q)
  }

  predicate QueryAt(actions: seq<Action>, k: nat, end: nat, upto: nat, q: nat) {
    && q < end <= |actions| && actions[q].Query? && upto == Raises(actions[..q])
    && k <= |Clears(actions)| && (k > 0 ==> Clears(actions)[k - 1] < q)
  }

  /** The i-th delivery belongs to the i-th acknowledgement: it answers the raises after the one before,
      up to a query in between. */
  ghost predicate Timely(actions: seq<Action>, i: nat, e: Delivery) {
    && i < |Clears(actions)| && e.from == RaisesUntil(actions, i)
    && Queries(actions, i, Clears(actions)[i], e.upto)
  }

  /** The bookkeeping of a state that a run has reached. */
  ghost predicate Counts(actions: seq<Action>, s: State) {
    var k := |Clears(actions)|;
    && |s.raised| == Raises(actions) && s.acked == RaisesUntil(actions, k)
    && |s.delivered| + (if s.core.Cleared? || s.core.Lowered? then 1 else 0) == k
    && (s.core.Queried? || s.core.Acking? ==> Queries(actions, k, |actions|, s.core.upto))
    && (s.core.Cleared? || s.core.Lowered? ==> Timely(actions, k - 1, Delivery(s.core.no, s.core.from, s.core.upto)))
    && forall i: nat :: i < |s.delivered| ==> Timely(actions, i, s.delivered[i])
  }

  lemma {:induction false} ClearsInside(actions: seq<Action>, i: nat)
    requires i < |Clears(actions)|
    ensures actions[Clears(actions)[i]].AckClear?
    decreases |actions|
  {
    var before := actions[..|actions| - 1];
    if i < |Clears(before)| { ClearsInside(before, i); }
  }

  lemma OneMore(actions: seq<Action>, a: Action)
    ensures Raises(actions + [a]) == Raises(actions) + if a.Latch? then 1 else 0
    ensures Clears(actions + [a]) == Clears(actions) + if a.AckClear? then [|actions|] else []
  {
    assert (actions + [a])[..|actions|] == actions;
  }

  lemma UntilStays(actions: seq<Action>, a: Action, k: nat)
    requires k <= |Clears(actions)|
    ensures k <= |Clears(actions + [a])| && RaisesUntil(actions + [a], k) == RaisesUntil(actions, k)
  {
    OneMore(actions, a);
    if k > 0 {
      ClearsInside(actions, k - 1);
      assert (actions + [a])[..Clears(actions)[k - 1]] == actions[..Clears(actions)[k - 1]];
    }
  }

  lemma QueriesStay(actions: seq<Action>, a: Action, k: nat, end: nat, upto: nat)
    requires Queries(actions, k, end, upto)
    ensures Queries(actions + [a], k, end, upto)
    ensures end == |actions| ==> Queries(actions + [a], k, |actions| + 1, upto)
  {
    hide Raises, Clears;
    OneMore(actions, a);
    var q: nat :| QueryAt(actions, k, end, upto, q);
    assert (actions + [a])[..q] == actions[..q];
    assert QueryAt(actions + [a], k, end, upto, q);
    if end == |actions| { assert QueryAt(actions + [a], k, |actions| + 1, upto, q); }
  }

  lemma TimelyStays(actions: seq<Action>, a: Action, i: nat, e: Delivery)
    requires Timely(actions, i, e)
    ensures Timely(actions + [a], i, e)
  {
    hide Queries, Raises, Clears;
    OneMore(actions, a);
    UntilStays(actions, a, i);
    QueriesStay(actions, a, i, Clears(actions)[i], e.upto);
  }

  lemma CountsOn(actions: seq<Action>, s: State, a: Action)
    requires Counts(actions, s) && Step(s, a).Some?
    ensures Counts(actions + [a], Step(s, a).value)
  {
    hide Raises, Clears, RaisesUntil, Queries, Timely, Latching;
    var t, k, more := Step(s, a).value, |Clears(actions)|, actions + [a];
    OneMore(actions, a);
    UntilStays(actions, a, k);
    forall i: nat | i < |s.delivered| ensures Timely(more, i, s.delivered[i]) {
      TimelyStays(actions, a, i, s.delivered[i]);
    }
    if s.core.Cleared? || s.core.Lowered? {
      TimelyStays(actions, a, k - 1, Delivery(s.core.no, s.core.from, s.core.upto));
    }
    if s.core.Queried? || s.core.Acking? {
      QueriesStay(actions, a, k, |actions|, s.core.upto);
    }
    match a
    case Query => NewQuery(actions, k);
    case AckClear => NewClear(actions, s);
    case _ =>
  }

  lemma NewQuery(actions: seq<Action>, k: nat)
    requires k == |Clears(actions)|
    ensures Queries(actions + [Query], k, |actions| + 1, Raises(actions))
  {
    OneMore(actions, Query);
    assert (actions + [Query])[..|actions|] == actions;
    if k > 0 { ClearsInside(actions, k - 1); }
    assert QueryAt(actions + [Query], k, |actions| + 1, Raises(actions), |actions|);
  }

  lemma NewClear(actions: seq<Action>, s: State)
    requires Counts(actions, s) && s.core.Acking?
    ensures var k, more := |Clears(actions)|, actions + [AckClear];
            && |Clears(more)| == k + 1 && RaisesUntil(more, k + 1) == Raises(actions)
            && Timely(more, k, Delivery(s.core.no, s.acked, s.core.upto))
  {
    hide Raises, Queries;
    var k := |Clears(actions)|;
    OneMore(actions, AckClear);
    UntilStays(actions, AckClear, k);
    QueriesStay(actions, AckClear, k, |actions|, s.core.upto);
    assert (actions + [AckClear])[..|actions|] == actions;
    hide Clears;
  }

  lemma {:induction false} RunCounts(n: nat, actions: seq<Action>)
    requires Run(Init(n), actions).Some?
    ensures Counts(actions, Run(Init(n), actions).value)
    decreases |actions|
  {
    hide Step;
    if actions != [] {
      var before, a := actions[..|actions| - 1], actions[|actions| - 1];
      RunCounts(n, before);
      CountsOn(before, Run(Init(n), before).value, a);
      assert before + [a] == actions;
    }
  }

  /** In every interleaving the i-th delivery goes with the i-th acknowledgement: its number answers the
      raises from the acknowledgement before it up to its own query. */
  lemma DeliveryIsTimely(n: nat, actions: seq<Action>, i: nat)
    requires Run(Init(n), actions).Some? && i < |Run(Init(n), actions).value.delivered|
    ensures var e, cs := Run(Init(n), actions).value.delivered[i], Clears(actions);
            && i < |cs| && actions[cs[i]] == AckClear
            && e.from == (if i == 0 then 0 else Raises(actions[..cs[i - 1]]))
            && exists q: nat ::
                 && (i > 0 ==> cs[i - 1] < q) && q < cs[i] && actions[q] == Query
                 && e.upto == Raises(actions[..q])
  {
    hide Run, Raises, Clears;
    RunCounts(n, actions);
    var e, cs := Run(Init(n), actions).value.delivered[i], Clears(actions);
    ClearsInside(actions, i);
    if i > 0 { ClearsInside(actions, i - 1); }
    assert Timely(actions, i, e);
    var q: nat :| QueryAt(actions, i, cs[i], e.upto, q);
    assert e.upto == Raises(actions[..q]);
  }

  // ---------------------------------------------------------------- what becomes of a raise

  /** The numbers handed over, or about to be. */
  function Taken(s: State): seq<Delivery> {
    s.delivered +
    if s.core.Cleared? || s.core.Lowered? then [Delivery(s.core.no, s.core.from, s.core.upto)] else []
  }

  /** How many raises there had been at the i-th acknowledgement. */
  function Acked(s: State, i: nat): nat
    requires i < |Taken(s)|
  {
    if i + 1 < |Taken(s)| then Taken(s)[i + 1].from else s.acked
  }

  /** Raise number k went into the i-th number delivered. */
  predicate Answered(s: State, k: nat, i: nat) {
    i < |Taken(s)| && Taken(s)[i].from <= k < Taken(s)[i].upto
  }

  /** It came after the query of the i-th delivery, and its acknowledgement wiped it out. */
  predicate Lost(s: State, k: nat, i: nat) {
    i < |Taken(s)| && Taken(s)[i].upto <= k < Acked(s, i)
  }

  lemma {:induction false} RaisesMonotone(actions: seq<Action>, i: nat, j: nat)
    requires i <= j <= |actions|
    ensures Raises(actions[..i]) <= Raises(actions[..j])
    decreases j
  {
    if i < j {
      assert actions[..j][..j - 1] == actions[..j - 1];
      RaisesMonotone(actions, i, j - 1);
    }
  }

  lemma TakenTimely(actions: seq<Action>, s: State, i: nat)
    requires Counts(actions, s) && i < |Taken(s)|
    ensures |Taken(s)| == |Clears(actions)| && Timely(actions, i, Taken(s)[i])
  {
    hide Raises, Clears, RaisesUntil, Queries, Timely;
  }

  /** The stretch of a delivery and the gap behind it. */
  lemma Stretch(actions: seq<Action>, s: State, i: nat)
    requires Counts(actions, s) && i < |Taken(s)|
    ensures Taken(s)[i].from <= Taken(s)[i].upto <= Acked(s, i) == RaisesUntil(actions, i + 1)
    ensures Taken(s)[0].from == 0
  {
    TakenTimely(actions, s, i);
    TakenTimely(actions, s, 0);
    if i + 1 < |Taken(s)| { TakenTimely(actions, s, i + 1); }
    var e, cs := Taken(s)[i], Clears(actions);
    hide Raises, Taken, Clears;
    var q: nat :| QueryAt(actions, i, cs[i], e.upto, q);
    if i > 0 { RaisesMonotone(actions, cs[i - 1], q); }
    RaisesMonotone(actions, q, cs[i]);
  }

  lemma {:induction false} StretchesOrdered(actions: seq<Action>, s: State, i: nat, j: nat)
    requires Counts(actions, s) && i < j < |Taken(s)|
    ensures Acked(s, i) <= Taken(s)[j].from
    decreases j
  {
    hide Counts, Taken;
    if i + 1 < j {
      StretchesOrdered(actions, s, i, j - 1);
      Stretch(actions, s, j - 1);
    }
  }

  lemma {:induction false} Located(actions: seq<Action>, s: State, k: nat, n: nat) returns (i: nat)
    requires Counts(actions, s) && 0 < n <= |Taken(s)| && k < Acked(s, n - 1)
    ensures i < n && Taken(s)[i].from <= k < Acked(s, i)
    decreases n
  {
    hide Counts, Taken;
    Stretch(actions, s, n - 1);
    if k >= Taken(s)[n - 1].from {
      i := n - 1;
    } else {
      i := Located(actions, s, k, n - 1);
    }
  }

  /** In every interleaving a raise is pending, answered by one delivery, or lost behind one: there is
      always exactly one of these. */
  lemma RaiseFate(n: nat, actions: seq<Action>, k: nat)
    requires Run(Init(n), actions).Some? && k < |Run(Init(n), actions).value.raised|
    ensures var s := Run(Init(n), actions).value;
            && (k < s.acked <==> exists i :: Answered(s, k, i) || Lost(s, k, i))
            && (forall i, j :: (Answered(s, k, i) || Lost(s, k, i)) && (Answered(s, k, j) || Lost(s, k, j)) ==> i == j)
            && (forall i :: !(Answered(s, k, i) && Lost(s, k, i)))
  {
    hide Run;
    RunCounts(n, actions);
    var s := Run(Init(n), actions).value;
    NothingTaken(actions, s);
    hide Counts, Taken;
    forall i: nat, j: nat | (Answered(s, k, i) || Lost(s, k, i)) && (Answered(s, k, j) || Lost(s, k, j))
      ensures i == j
    {
      Stretch(actions, s, i);
      Stretch(actions, s, j);
      if i < j { StretchesOrdered(actions, s, i, j); }
      if j < i { StretchesOrdered(actions, s, j, i); }
    }
    forall i: nat | Answered(s, k, i) || Lost(s, k, i) ensures k < s.acked {
      Stretch(actions, s, i);
      if i + 1 < |Taken(s)| {
        StretchesOrdered(actions, s, i, |Taken(s)| - 1);
        Stretch(actions, s, |Taken(s)| - 1);
      }
    }
    if k < s.acked {
      var i := Located(actions, s, k, |Taken(s)|);
      assert Answered(s, k, i) || Lost(s, k, i);
    }
  }

  lemma NothingTaken(actions: seq<Action>, s: State)
    requires Counts(actions, s)
    ensures Taken(s) == [] ==> s.acked == 0
  {
  }

  // ---------------------------------------------------------------- a raise that is lost

  /** A device raises `x`, the processor queries, a device raises `y`, and the processor acknowledges:
      only `x` is delivered, however high `y` is, and nothing is left of `y`. */
  lemma HigherRaiseIsLost(n: nat, d: nat, x: Byte, y: Byte)
    requires d < n && x + IRQ_BASE < NO_INTR
    ensures var actions := RaiseCall(d, x) + [Check, Query] + RaiseCall(d, y) + Acknowledgement();
            var r := Run(Init(n), actions);
            && r.Some? && r.value.raised == [x, y] && r.value.delivered == [Delivery(x + IRQ_BASE, 0, 1)]
            && Lost(r.value, 1, 0) && r.value.no == NO_INTR && !r.value.intr
  {
    hide Run, RaiseCall, Acknowledgement, Latching;
    var q, ack := [Check, Query], Acknowledgement();
    var s2 := FirstRaiseQueried(n, d, x);
    RaiseAlone(s2, d, y);
    var s3 := s2.(no := Latching(s2.no, y), intr := true, raised := [x] + [y]);
    AcknowledgeAlone(s3);
    RunOn(Init(n), RaiseCall(d, x) + q, RaiseCall(d, y));
    RunOn(Init(n), RaiseCall(d, x) + q + RaiseCall(d, y), ack);
  }

  lemma FirstRaiseQueried(n: nat, d: nat, x: Byte) returns (s: State)
    requires d < n && x + IRQ_BASE < NO_INTR
    ensures Run(Init(n), RaiseCall(d, x) + [Check, Query]) == Some(s)
    ensures Ready(s, d) && s.core == Queried(x + IRQ_BASE, 1) && s.raised == [x] && s.delivered == [] && s.acked == 0
  {
    RaiseAlone(Init(n), d, x);
    hide Run, RaiseCall;
    var s1 := Init(n).(no := x + IRQ_BASE, intr := true, raised := [x]);
    assert [] + [x] == [x];
    QueryAlone(s1);
    RunOn(Init(n), RaiseCall(d, x), [Check, Query]);
    s := s1.(core := Queried(s1.no, 1));
  }
}
