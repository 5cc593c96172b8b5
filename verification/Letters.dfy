/** The letters of the typing game as values: what creating, moving and shooting them means, and
    what every run keeps (game/src/typing/effect.c). */
module Letters {
  import opened Options

  const SCR_HEIGHT: real := 200.0

  datatype Letter = Letter(x: real, y: int, text: int, v: real)

  datatype Game = Game(letters: seq<Letter>, hit: nat, miss: nat, created: nat, pressed: set<int>)

  function Moved(l: Letter): Letter { l.(x := l.x + l.v) }

  predicate PastTop(l: Letter) { l.x < 0.0 }

  predicate PastBottom(l: Letter) { l.x >= 0.0 && l.x + 7.9 > SCR_HEIGHT }

  /** The letters still on the screen after a tick, in order. */
  function Survivors(ls: seq<Letter>): seq<Letter> {
    if ls == [] then [] else
      var m := Moved(ls[|ls| - 1]);
      Survivors(ls[..|ls| - 1]) + if PastTop(m) || PastBottom(m) then [] else [m]
  }

  function Hits(ls: seq<Letter>): nat {
    if ls == [] then 0 else Hits(ls[..|ls| - 1]) + if PastTop(Moved(ls[|ls| - 1])) then 1 else 0
  }

  function Misses(ls: seq<Letter>): nat {
    if ls == [] then 0 else Misses(ls[..|ls| - 1]) + if PastBottom(Moved(ls[|ls| - 1])) then 1 else 0
  }

  lemma {:induction false} SurvivorsOnScreen(ls: seq<Letter>)
    ensures forall l :: l in Survivors(ls) ==> 0.0 <= l.x <= SCR_HEIGHT - 7.9
  {
    if ls != [] {
      SurvivorsOnScreen(ls[..|ls| - 1]);
    }
  }

  lemma {:induction false} EveryLetterCounted(ls: seq<Letter>)
    ensures |Survivors(ls)| + Hits(ls) + Misses(ls) == |ls|
  {
    if ls != [] {
      EveryLetterCounted(ls[..|ls| - 1]);
    }
  }

  predicate OnScreenNext(l: Letter) { 0.0 <= l.x + l.v <= 192.1 }

  /** `rest` are the letters of `ls` at the indices `kept`, in order, each moved by its speed, and none of the
      others is on the screen. */
  ghost predicate KeepsMoved(ls: seq<Letter>, kept: seq<nat>, rest: seq<Letter>) {
    && |rest| == |kept|
    && (forall j, k :: 0 <= j < k < |kept| ==> kept[j] < kept[k])
    && (forall k :: 0 <= k < |kept| ==>
         && kept[k] < |ls| && OnScreenNext(ls[kept[k]])
         && var l := ls[kept[k]]; rest[k] == Letter(l.x + l.v, l.y, l.text, l.v))
    && (forall i :: 0 <= i < |ls| && OnScreenNext(ls[i]) ==> i in kept)
  }

  /** What a tick leaves are exactly the letters that stay on the screen. */
  lemma {:induction false} TickKeeps(ls: seq<Letter>) returns (kept: seq<nat>)
    ensures KeepsMoved(ls, kept, Survivors(ls))
  {
    if ls == [] {
      kept := [];
    } else {
      var k, front := |ls| - 1, ls[..|ls| - 1];
      kept := TickKeeps(front);
      var more := if OnScreenNext(ls[k]) then kept + [k] else kept;
      KeepsMore(ls, kept, Survivors(front));
      kept := more;
    }
  }

  lemma KeepsMore(ls: seq<Letter>, kept: seq<nat>, rest: seq<Letter>)
    requires ls != [] && KeepsMoved(ls[..|ls| - 1], kept, rest)
    ensures var k := |ls| - 1; var l := ls[k];
      if OnScreenNext(l) then KeepsMoved(ls, kept + [k], rest + [Letter(l.x + l.v, l.y, l.text, l.v)])
      else KeepsMoved(ls, kept, rest)
  {
    var k, front := |ls| - 1, ls[..|ls| - 1];
    assert forall i :: 0 <= i < k ==> front[i] == ls[i];
    if OnScreenNext(ls[k]) {
      assert (kept + [k])[|kept|] == k;
      forall i | 0 <= i < |ls| && OnScreenNext(ls[i]) ensures i in kept + [k] {
        if i < k { assert OnScreenNext(front[i]) && i in kept; }
      }
    }
  }

  /** A hit is a letter that leaves at the top. */
  lemma {:induction false} HitsAre(ls: seq<Letter>)
    ensures Hits(ls) == |set i | 0 <= i < |ls| && ls[i].x + ls[i].v < 0.0|
  {
    if ls == [] {
    } else {
      var k, front := |ls| - 1, ls[..|ls| - 1];
      HitsAre(front);
      var tops := set i | 0 <= i < k && front[i].x + front[i].v < 0.0;
      assert (set i | 0 <= i < |ls| && ls[i].x + ls[i].v < 0.0) ==
        if ls[k].x + ls[k].v < 0.0 then tops + {k} else tops;
    }
  }

  /** A miss is one that leaves at the bottom. */
  lemma {:induction false} MissesAre(ls: seq<Letter>)
    ensures Misses(ls) == |set i | 0 <= i < |ls| && ls[i].x + ls[i].v > 192.1|
  {
    if ls == [] {
    } else {
      var k, front := |ls| - 1, ls[..|ls| - 1];
      MissesAre(front);
      var bottoms := set i | 0 <= i < k && front[i].x + front[i].v > 192.1;
      assert (set i | 0 <= i < |ls| && ls[i].x + ls[i].v > 192.1) ==
        if ls[k].x + ls[k].v > 192.1 then bottoms + {k} else bottoms;
    }
  }

  predicate Eligible(l: Letter, pressed: set<int>) {
    l.v > 0.0 && l.x > -100.0 && l.text in pressed
  }

  /** The letter a key press shoots: the first of the lowest falling letters with a pressed key. */
  ghost predicate IsTarget(ls: seq<Letter>, pressed: set<int>, i: nat) {
    && i < |ls| && Eligible(ls[i], pressed)
    && (forall j :: 0 <= j < |ls| && Eligible(ls[j], pressed) ==> ls[j].x <= ls[i].x)
    && (forall j :: 0 <= j < i && Eligible(ls[j], pressed) ==> ls[j].x < ls[i].x)
  }

  ghost predicate NoTarget(ls: seq<Letter>, pressed: set<int>) {
    forall j :: 0 <= j < |ls| ==> !Eligible(ls[j], pressed)
  }

  /** The search so far: the target among the first `k` letters, if there is one. */
  ghost predicate BestOf(ls: seq<Letter>, pressed: set<int>, k: nat, best: Option<nat>)
    requires k <= |ls|
  {
    match best
    case None => NoTarget(ls[..k], pressed)
    case Some(i) => IsTarget(ls[..k], pressed, i)
  }

  lemma BestStart(ls: seq<Letter>, pressed: set<int>)
    ensures BestOf(ls, pressed, 0, None)
  {
  }

  lemma BestStep(ls: seq<Letter>, pressed: set<int>, k: nat, best: Option<nat>)
    requires k < |ls| && BestOf(ls, pressed, k, best)
    ensures var min := if best.Some? then ls[best.value].x else -100.0;
            BestOf(ls, pressed, k + 1,
                   if ls[k].v > 0.0 && ls[k].x > min && ls[k].text in pressed then Some(k) else best)
  {
    var u, w := ls[..k], ls[..k + 1];
    assert forall j :: 0 <= j < k ==> w[j] == u[j];
  }

  function Shot(g: Game, i: nat): Game
    requires i < |g.letters|
  {
    var l := g.letters[i];
    g.(letters := g.letters[i := l.(v := -3.0)], pressed := g.pressed - {l.text})
  }

  // ---------------------------------------------------------------- runs

  datatype Event = Create(y: int, v: real, text: int) | Tick | Press(key: int) | Key

  predicate Sane(e: Event) {
    match e
    case Create(_, _, text) => 0 <= text < 26
    case Press(key) => 0 <= key < 26
    case _ => true
  }

  /** One event; a letter can only be created while fewer than `size` are out. */
  ghost predicate Reacts(g: Game, e: Event, size: nat, h: Game) {
    match e
    case Create(y, v, text) =>
      && |g.letters| < size
      && h == g.(letters := [Letter(0.0, y, text, v)] + g.letters, created := g.created + 1,
                 pressed := g.pressed - {text})
    case Tick =>
      h == g.(letters := Survivors(g.letters), hit := g.hit + Hits(g.letters), miss := g.miss + Misses(g.letters))
    case Press(key) => h == g.(pressed := g.pressed + {key})
    case Key =>
      || (NoTarget(g.letters, g.pressed) && h == g)
      || exists i :: IsTarget(g.letters, g.pressed, i) && h == Shot(g, i)
  }

  ghost predicate Run(g: Game, events: seq<Event>, size: nat, h: Game)
    decreases |events|
  {
    if events == [] then h == g
    else exists m :: Reacts(g, events[0], size, m) && Run(m, events[1..], size, h)
  }

  /** No letter is ever lost or counted twice, and never more than `size` are out. */
  ghost predicate Conserved(g: Game, size: nat) {
    g.created == |g.letters| + g.hit + g.miss && |g.letters| <= size
  }

  lemma ReactsConserves(g: Game, e: Event, size: nat, h: Game)
    requires Conserved(g, size) && Reacts(g, e, size, h)
    ensures Conserved(h, size)
  {
    EveryLetterCounted(g.letters);
  }

  lemma {:induction false} RunConserves(g: Game, events: seq<Event>, size: nat, h: Game)
    requires Conserved(g, size) && Run(g, events, size, h)
    ensures Conserved(h, size)
    decreases |events|
  {
    if events != [] {
      var m :| Reacts(g, events[0], size, m) && Run(m, events[1..], size, h);
      ReactsConserves(g, events[0], size, m);
      RunConserves(m, events[1..], size, h);
    }
  }

  lemma RunNothing(g: Game, size: nat)
    ensures Run(g, [], size, g)
  {
  }

  lemma {:induction false} RunSnoc(g: Game, events: seq<Event>, size: nat, m: Game, e: Event, h: Game)
    requires Run(g, events, size, m) && Reacts(m, e, size, h)
    ensures Run(g, events + [e], size, h)
    decreases |events|
  {
    if events == [] {
      assert ([e])[1..] == [];
      assert Run(h, [], size, h);
      assert [] + [e] == [e];
    } else {
      var n :| Reacts(g, events[0], size, n) && Run(n, events[1..], size, m);
      RunSnoc(n, events[1..], size, m, e, h);
      assert (events + [e])[1..] == events[1..] + [e];
    }
  }
}
