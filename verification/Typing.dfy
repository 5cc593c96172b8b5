/** The typing game's letters on their pooled list (game/src/typing/effect.c). */
module Typing {
  import opened Options
  import opened LinkList
  import opened Letters

  function LetterOf(f: Fly): Letter { Letter(f.x, f.y, f.text, f.v) }

  ghost function LettersOf(s: seq<Fly>, nodes: seq<nat>): (r: seq<Letter>)
    requires Below(nodes, |s|)
    ensures |r| == |nodes|
  {
    seq(|nodes|, k requires 0 <= k < |nodes| => LetterOf(s[nodes[k]]))
  }

  /** The letters depend on nothing but the fields of the live nodes. */
  lemma LettersFrame(s: seq<Fly>, t: seq<Fly>, nodes: seq<nat>)
    requires Below(nodes, |s|) && |s| == |t|
    requires forall k :: 0 <= k < |nodes| ==> LetterOf(t[nodes[k]]) == LetterOf(s[nodes[k]])
    ensures LettersOf(t, nodes) == LettersOf(s, nodes)
  {
  }

  lemma LettersFront(s: seq<Fly>, t: seq<Fly>, nodes: seq<nat>, obj: nat)
    requires Below(nodes, |s|) && |s| == |t| && obj < |s|
    requires forall k :: 0 <= k < |nodes| ==> LetterOf(t[nodes[k]]) == LetterOf(s[nodes[k]])
    ensures Below([obj] + nodes, |s|)
    ensures LettersOf(t, [obj] + nodes) == [LetterOf(t[obj])] + LettersOf(s, nodes)
  {
  }

  lemma SameLinks(s: seq<Fly>, t: seq<Fly>, nodes: seq<nat>)
    requires Doubly(s, nodes) && |t| == |s|
    requires forall i :: 0 <= i < |s| ==> t[i].next == s[i].next && t[i].prev == s[i].prev
    ensures Doubly(t, nodes)
  {
  }

  /** A letter is put in front of the live list. */
  lemma CreateKeeps(size: nat, s: seq<Fly>, t: seq<Fly>, w: seq<Fly>, freeHead: int, free: seq<nat>,
                    live: seq<nat>, now: nat, l: Letter)
    requires Doubly(s, live) && |s| == |t| && Below(live, |s|)
    requires Owned(size, t, freeHead, free, [now] + live) && freeHead != NULL
    requires forall i :: 0 <= i < |s| && i in live ==> t[i] == s[i]
    requires now < |t| && t[now].prev == t[now].next == NULL
    requires var u := Pushed(t, At(live, 0), now);
             w == u[now := u[now].(x := l.x, y := l.y, v := l.v, text := l.text)]
    ensures Owned(size, w, freeHead, free, [now] + live)
    ensures Doubly(w, [now] + live)
    ensures LettersOf(w, [now] + live) == [l] + LettersOf(s, live)
  {
    var u := Pushed(t, At(live, 0), now);
    assert [now] + live + [] == [now] + live;
    DistinctPrefix([now] + live, free);
    Pool.FirstApart(now, live, []);
    DoublyFrame(s, t, live);
    hide Distinct, Doubly, Chain, Below, Owned, Pushed;
    PushFront(t, live, now);
    forall i | 0 <= i < |s| && i != now
      ensures LetterOf(w[i]) == LetterOf(t[i]) && (i !in [now] + live ==> w[i].next == t[i].next)
    {
      OtherFields(t, live, now, i);
    }
    OwnedFrame(size, t, w, freeHead, free, [now] + live);
    SameLinks(u, w, [now] + live);
    LettersFront(s, w, live, now);
  }

  lemma OtherFields(t: seq<Fly>, live: seq<nat>, now: nat, i: nat)
    requires Below(live, |t|) && now < |t| && i < |t| && i != now && now !in live
    ensures var u := Pushed(t, At(live, 0), now);
            LetterOf(u[i]) == LetterOf(t[i]) && (i !in [now] + live ==> u[i].next == t[i].next)
  {
    if live != [] {
      PushedFields(t, live[0], now, i);
      assert live[0] in [now] + live;
    }
  }

  class Field {
    const list: Pool
    var head: int
    var hit: nat
    var miss: nat
    var pressed: set<int>
    ghost var live: seq<nat>
    ghost var created: nat

    /** The live list is a well-formed doubly linked list, apart from the free list; the free list, once
        a letter was created, ends in the node that is never issued; and every letter created is on
        the screen, hit or missed. */
    ghost predicate Valid()
      reads this, list, list.pool
    {
      && Wellformed()
      && (created > 0 ==> list.freeHead != NULL)
      && (forall l :: l in Abstract().letters ==> 0 <= l.text < 26)
      && Conserved(Abstract(), list.size)
    }

    ghost predicate Wellformed()
      reads this`head, this`live, list, list.pool
    {
      list.Owns(live) && Doubly(list.pool[..], live) && head == At(live, 0)
    }

    ghost function Abstract(): Game
      requires Wellformed()
      reads this, list, list.pool
    {
      Game(LettersOf(list.pool[..], live), hit, miss, created, pressed)
    }

    constructor (size: nat)
      ensures Valid() && list.size == size && Abstract() == Game([], 0, 0, 0, {})
      ensures fresh(list) && fresh(list.pool)
    {
      list := new Pool(size);
      head, hit, miss, pressed := NULL, 0, 0, {};
      live, created := [], 0;
    }

    /** The assignments to a new letter's fields. */
    method SetLetter(node: nat, y: int, v: real, text: int)
      requires node < list.pool.Length
      modifies list.pool
      ensures var was := old(list.pool[..]);
              list.pool[..] == was[node := was[node].(x := 0.0, y := y, v := v, text := text)]
    {
      var pool := list.pool;
      pool[node] := pool[node].(x := 0.0);
      pool[node] := pool[node].(y := y);
      pool[node] := pool[node].(v := v);
      pool[node] := pool[node].(text := text);
    }

    /** create_new_letter; false where the pool's assertion stops the game. */
    method CreateNewLetter(y: int, v: real, text: int) returns (ok: bool)
      requires Valid() && 0 <= text < 26
      modifies this, list, list.pool
      ensures Valid()
      ensures ok <==> |old(Abstract()).letters| < list.size
      ensures ok ==> Reacts(old(Abstract()), Create(y, v, text), list.size, Abstract())
      ensures !ok ==> Abstract() == old(Abstract())
    {
      hide Distinct, Chain, Doubly, Inserted, Below, LettersOf;
      ghost var s := list.pool[..];
      var node := list.New(live);
      ghost var t := list.pool[..];
      if node.None? {
        NothingMoved(s, t, live);
        return false;
      }
      var now := node.value;
      if head == NULL {
        head := now;
      } else {
        AtBelow(live, 0, list.size + 1);
        list.Insert(NULL, head, now);
        head := now;
      }
      assert list.pool[..] == Pushed(t, At(live, 0), now);
      SetLetter(head, y, v, text);
      pressed := pressed - {text};
      CreateKeeps(list.size, s, t, list.pool[..], list.freeHead, list.free, live, now, Letter(0.0, y, text, v));
      live := [now] + live;
      created := created + 1;
      return true;
    }

    /** `live` is `a`, `node`, `b`. */
    ghost predicate At3(a: seq<nat>, node: nat, b: seq<nat>)
      reads this`head, this`live, list, list.pool
    {
      && Wellformed() && live == a + [node] + b && list.freeHead != NULL
      && node < list.size + 1 && Below(a, list.size + 1) && Below(b, list.size + 1)
    }

    /** One letter's new position. */
    method Advance(node: nat, ghost a: seq<nat>, ghost b: seq<nat>)
      requires At3(a, node, b)
      modifies list.pool
      ensures At3(a, node, b)
      ensures LetterOf(list.pool[node]) == Moved(old(LetterOf(list.pool[node])))
      ensures list.pool[node].next == old(list.pool[node].next) == At(b, 0)
      ensures LettersOf(list.pool[..], a) == old(LettersOf(list.pool[..], a))
      ensures LettersOf(list.pool[..], b) == old(LettersOf(list.pool[..], b))
    {
      ghost var s := list.pool[..];
      hide Distinct, Chain, Doubly, Below, Owned, LettersOf;
      list.pool[node] := list.pool[node].(x := list.pool[node].x + list.pool[node].v);
      AdvanceKeeps(list.size, s, list.pool[..], list.freeHead, list.free, a, node, b);
    }

    /** fly_remove on a live letter: it is still issued, but on the list no more. */
    method Unlink(node: nat, ghost a: seq<nat>, ghost b: seq<nat>)
      requires At3(a, node, b)
      modifies list.pool
      ensures list.Owns(a + [node] + b)
      ensures Doubly(SetNext(list.pool[..], node, list.freeHead), a + b)
      ensures LettersOf(SetNext(list.pool[..], node, list.freeHead), a) == old(LettersOf(list.pool[..], a))
      ensures LettersOf(SetNext(list.pool[..], node, list.freeHead), b) == old(LettersOf(list.pool[..], b))
    {
      hide Distinct, Chain, Doubly, Below, Owned, LettersOf, Removed, SetNext, At;
      ghost var s := list.pool[..];
      UnlinkKeeps(list.size, s, list.freeHead, list.free, a, node, b);
      list.Remove(node);
      DropKeeps(s, list.pool[..], list.freeHead, a, node, b);
    }

    /** A letter off the screen is unlinked and given back. */
    method Drop(node: nat, next: int, ghost a: seq<nat>, ghost b: seq<nat>)
      requires At3(a, node, b) && next == At(b, 0)
      modifies this`head, this`live, list, list.pool
      ensures Wellformed() && live == a + b && list.freeHead != NULL
      ensures LettersOf(list.pool[..], a) == old(LettersOf(list.pool[..], a))
      ensures LettersOf(list.pool[..], b) == old(LettersOf(list.pool[..], b))
    {
      HeadAfter(list.size, list.pool[..], list.freeHead, list.free, a, node, b);
      hide Distinct, Chain, Doubly, Below, Owned, LettersOf, SetNext, At;
      Unlink(node, a, b);
      list.Free(node, a, b);
      if node == head {
        head := next;
      }
      live := a + b;
    }

    /** The loop of update_letter_pos after `n` letters: `done` is what is left of them. */
    ghost predicate Midway(g: Game, n: nat, done: seq<nat>, rest: seq<nat>)
      reads this, list, list.pool
    {
      && Wellformed() && live == done + rest
      && Below(done, list.size + 1) && Below(rest, list.size + 1)
      && n + |rest| == |g.letters|
      && LettersOf(list.pool[..], done) == Survivors(g.letters[..n])
      && LettersOf(list.pool[..], rest) == g.letters[n..]
      && hit == g.hit + Hits(g.letters[..n]) && miss == g.miss + Misses(g.letters[..n])
      && created == g.created && pressed == g.pressed
      && (created > 0 ==> list.freeHead != NULL)
    }

    /** The body of the loop: the letter moves, and is counted, unlinked and given back if it left the
        screen. */
    method Visit(it: int, ghost g: Game, ghost n: nat, ghost done: seq<nat>, ghost rest: seq<nat>)
      returns (next: int, ghost done': seq<nat>)
      requires Midway(g, n, done, rest) && it == At(rest, 0) && it != NULL
      modifies this`head, this`live, this`hit, this`miss, list, list.pool
      ensures rest != [] && Midway(g, n + 1, done', rest[1..]) && next == At(rest[1..], 0)
    {
      ghost var b := Enter(it, g, n, done, rest);
      hide At3, Wellformed, Distinct, Chain, Doubly, Below, Owned, LettersOf, LetterOf, Moved, Survivors, Hits,
           Misses, At, Midway;
      Advance(it, done, b);
      Position(list.pool[it]);
      var pool := list.pool;
      next := pool[it].next;
      if pool[it].x < 0.0 || pool[it].x + 7.9 > SCR_HEIGHT {
        if pool[it].x < 0.0 {
          hit := hit + 1;
        } else {
          miss := miss + 1;
        }
        Drop(it, next, done, b);
        done' := done;
      } else {
        done' := Keep(it, done, b);
      }
      Onward(g, n, done', rest);
    }

    lemma Position(f: Fly)
      ensures LetterOf(f).x == f.x
    {
    }

    lemma Fields(f: Fly)
      ensures LetterOf(f).x == f.x && LetterOf(f).v == f.v && LetterOf(f).text == f.text
    {
    }

    /** What one more letter done takes. */
    lemma Onward(g: Game, n: nat, done: seq<nat>, rest: seq<nat>)
      requires rest != [] && n + |rest| == |g.letters|
      requires Wellformed() && live == done + rest[1..] && list.freeHead != NULL
      requires Below(done, list.size + 1) && Below(rest[1..], list.size + 1)
      requires LettersOf(list.pool[..], done) == Survivors(g.letters[..n + 1])
      requires LettersOf(list.pool[..], rest[1..]) == g.letters[n + 1..]
      requires hit == g.hit + Hits(g.letters[..n + 1]) && miss == g.miss + Misses(g.letters[..n + 1])
      requires created == g.created && pressed == g.pressed
      ensures Midway(g, n + 1, done, rest[1..])
    {
    }

    lemma Enter(it: int, g: Game, n: nat, done: seq<nat>, rest: seq<nat>) returns (b: seq<nat>)
      requires Midway(g, n, done, rest) && it == At(rest, 0) && it != NULL
      ensures 0 <= it < list.pool.Length == list.size + 1
      ensures rest != [] && b == rest[1..] && At3(done, it, b) && n < |g.letters|
      ensures Below(done, list.size + 1) && LettersOf(list.pool[..], done) == Survivors(g.letters[..n])
      ensures Below(b, list.size + 1) && LettersOf(list.pool[..], b) == g.letters[n + 1..]
      ensures hit == g.hit + Hits(g.letters[..n]) && miss == g.miss + Misses(g.letters[..n])
      ensures created == g.created && pressed == g.pressed && n + |rest| == |g.letters|
      ensures LetterOf(list.pool[it]) == g.letters[n]
      ensures var m := Moved(g.letters[n]);
              && Survivors(g.letters[..n + 1]) ==
                 Survivors(g.letters[..n]) + (if PastTop(m) || PastBottom(m) then [] else [m])
              && Hits(g.letters[..n + 1]) == Hits(g.letters[..n]) + (if PastTop(m) then 1 else 0)
              && Misses(g.letters[..n + 1]) == Misses(g.letters[..n]) + (if PastBottom(m) then 1 else 0)
    {
      b := rest[1..];
      hide Distinct, Chain, Doubly, Survivors, Hits, Misses;
      Unfold(list.size, list.pool[..], list.freeHead, list.free, done, rest, it);
      TickStep(g.letters, n);
    }

    lemma Keep(node: nat, a: seq<nat>, b: seq<nat>) returns (a': seq<nat>)
      requires At3(a, node, b)
      ensures Wellformed() && live == a' + b && Below(a', list.size + 1) && list.freeHead != NULL
      ensures LettersOf(list.pool[..], a') == LettersOf(list.pool[..], a) + [LetterOf(list.pool[node])]
    {
      a' := a + [node];
      hide Distinct, Chain, Doubly;
      Append(list.pool[..], a, node);
    }

    method UpdateLetterPos()
      requires Valid()
      modifies this, list, list.pool
      ensures Valid()
      ensures Reacts(old(Abstract()), Tick, list.size, Abstract())
    {
      hide *;
      ghost var g := Start();
      ghost var done: seq<nat>, rest: seq<nat>, n := [], live, 0;
      var it := head;
      while it != NULL
        invariant Midway(g, n, done, rest) && it == At(rest, 0)
        decreases |rest|
      {
        ghost var done';
        it, done' := Visit(it, g, n, done, rest);
        done, rest, n := done', rest[1..], n + 1;
      }
      Finish(g, n, done, rest);
    }

    lemma Start() returns (g: Game)
      requires Valid()
      ensures Midway(g, 0, [], live) && head == At(live, 0)
      ensures Wellformed() && Below(live, list.size + 1) && g == Abstract()
      ensures Conserved(g, list.size) && forall l :: l in g.letters ==> 0 <= l.text < 26
    {
      g := Abstract();
      hide Owned, Doubly;
      Begin(list.pool[..], live, g.letters);
    }

    lemma Finish(g: Game, n: nat, done: seq<nat>, rest: seq<nat>)
      requires Midway(g, n, done, rest) && At(rest, 0) == NULL && Conserved(g, list.size)
      requires forall l :: l in g.letters ==> 0 <= l.text < 26
      ensures Valid() && Reacts(g, Tick, list.size, Abstract())
    {
      assert rest == [] && done + rest == done && g.letters[..n] == g.letters;
      SurvivorTexts(g.letters);
      EveryLetterCounted(g.letters);
      hide Owned, Doubly, Hits, Misses;
    }

    /** The search of update_keypress. */
    method FindTarget() returns (target: int, ghost best: Option<nat>)
      requires Valid()
      ensures BestOf(Abstract().letters, pressed, |live|, best)
      ensures best.None? ==> target == NULL
      ensures best.Some? ==> best.value < |live| && target == live[best.value]
    {
      hide *;
      HeadIsFirst();
      ghost var g := Abstract();
      var pool := list.pool;
      var it, min := head, -100.0;
      target := NULL;
      ghost var k: nat := 0;
      best := None;
      BestStart(g.letters, pressed);
      while it != NULL
        invariant k <= |live| && it == At(live, k)
        invariant BestOf(g.letters, pressed, k, best)
        invariant best.None? ==> target == NULL && min == -100.0
        invariant best.Some? ==> best.value < |live| && target == live[best.value] && min == g.letters[best.value].x
        decreases |live| - k
      {
        AtLetter(k, it);
        Fields(pool[it]);
        assert 0 <= pool[it].text < 26;
        BestStep(g.letters, pressed, k, best);
        if pool[it].v > 0.0 && pool[it].x > min && pool[it].text in pressed {
          min := pool[it].x;
          target := it;
          best := Some(k);
        }
        it := pool[it].next;
        k := k + 1;
      }
    }

    lemma HeadIsFirst()
      requires Valid()
      ensures Wellformed() && head == At(live, 0) && |Abstract().letters| == |live|
      ensures forall k :: 0 <= k <= |live| && At(live, k) == NULL ==> k == |live|
    {
    }

    /** update_keypress: the key of the lowest falling letter that is pressed shoots it upwards. */
    method UpdateKeypress() returns (found: bool)
      requires Valid()
      modifies this, list.pool
      ensures Valid()
      ensures found <==> !NoTarget(old(Abstract()).letters, old(pressed))
      ensures Reacts(old(Abstract()), Key, list.size, Abstract())
      ensures found ==> |pressed| < |old(pressed)|
    {
      ghost var g := Abstract();
      var pool := list.pool;
      var target, best := FindTarget();
      assert g.letters[..|live|] == g.letters;
      if target == NULL { return false; }
      ghost var i, s := best.value, pool[..];
      assert IsTarget(g.letters, pressed, i);
      pressed := pressed - {pool[target].text};
      pool[target] := pool[target].(v := -3.0);
      ShotKeeps(list.size, s, pool[..], list.freeHead, list.free, live, i);
      assert Abstract() == Shot(g, i);
      return true;
    }

    method PressKey(key: int)
      requires Valid() && 0 <= key < 26
      modifies this`pressed
      ensures Valid() && Reacts(old(Abstract()), Press(key), list.size, Abstract())
    {
      pressed := pressed + {key};
    }

    /** One event; false where the pool has no node for another letter. */
    method React(e: Event) returns (ok: bool)
      requires Valid() && Sane(e)
      modifies this, list, list.pool
      ensures Valid()
      ensures ok ==> Reacts(old(Abstract()), e, list.size, Abstract())
      ensures !ok ==> e.Create? && |Abstract().letters| == list.size && Abstract() == old(Abstract())
    {
      assert Sane(e) && Conserved(Abstract(), list.size);
      hide Wellformed, Reacts;
      ok := true;
      match e
      case Create(y, v, text) => ok := CreateNewLetter(y, v, text);
      case Tick => UpdateLetterPos();
      case Press(key) => PressKey(key);
      case Key => var found := UpdateKeypress();
    }

    /** Any run of the game, up to the first letter the pool has no node for: it does what the events
        mean on the letters alone, so every letter created is on the screen, hit or missed. */
    method Play(events: seq<Event>) returns (n: nat)
      requires Valid() && forall e :: e in events ==> Sane(e)
      modifies this, list, list.pool
      ensures Valid() && n <= |events|
      ensures Run(old(Abstract()), events[..n], list.size, Abstract())
      ensures n < |events| ==> events[n].Create? && |Abstract().letters| == list.size
    {
      hide *;
      Inside();
      ghost var g := Abstract();
      n := 0;
      RunNothing(g, list.size);
      while n < |events|
        invariant Valid() && Wellformed() && n <= |events|
        invariant Run(g, events[..n], list.size, Abstract())
      {
        ghost var m := Abstract();
        assert events[n] in events;
        var ok := React(events[n]);
        Inside();
        if !ok { return; }
        RunSnoc(g, events[..n], list.size, m, events[n], Abstract());
        assert events[..n + 1] == events[..n] + [events[n]];
        n := n + 1;
      }
    }

    lemma Inside()
      requires Valid()
      ensures Wellformed()
    {
    }

    lemma AtLetter(k: nat, it: int)
      requires Valid() && it == At(live, k) != NULL
      ensures 0 <= it < list.pool.Length && k < |live| && list.pool[it].next == At(live, k + 1)
      ensures it == live[k] && k < |Abstract().letters|
      ensures LetterOf(list.pool[it]) == Abstract().letters[k] && 0 <= list.pool[it].text < 26
    {
      assert Abstract().letters[k] in Abstract().letters;
    }
  }

  lemma ShotKeeps(size: nat, s: seq<Fly>, t: seq<Fly>, freeHead: int, free: seq<nat>, live: seq<nat>, i: nat)
    requires Owned(size, s, freeHead, free, live) && Doubly(s, live) && i < |live| && freeHead != NULL
    requires live[i] < |s| && t == s[live[i] := s[live[i]].(v := -3.0)]
    ensures Owned(size, t, freeHead, free, live) && Doubly(t, live)
    ensures Below(live, |s|) && LettersOf(t, live) == LettersOf(s, live)[i := LetterOf(s[live[i]]).(v := -3.0)]
  {
    DistinctPrefix(live, free);
    OwnedFrame(size, s, t, freeHead, free, live);
    SameLinks(s, t, live);
  }

  lemma {:induction false} SurvivorTexts(ls: seq<Letter>)
    requires forall l :: l in ls ==> 0 <= l.text < 26
    ensures forall l :: l in Survivors(ls) ==> 0 <= l.text < 26
  {
    if ls != [] {
      SurvivorTexts(ls[..|ls| - 1]);
    }
  }

  lemma Begin(s: seq<Fly>, live: seq<nat>, ls: seq<Letter>)
    requires Below(live, |s|) && LettersOf(s, live) == ls
    ensures Below([], |s|) && LettersOf(s, []) == Survivors(ls[..0]) == []
    ensures Hits(ls[..0]) == Misses(ls[..0]) == 0 && ls[0..] == ls && |live| == |ls|
    ensures [] + live == live
  {
  }

  lemma TickStep(ls: seq<Letter>, n: nat)
    requires n < |ls|
    ensures var m := Moved(ls[n]);
            && Survivors(ls[..n + 1]) == Survivors(ls[..n]) + (if PastTop(m) || PastBottom(m) then [] else [m])
            && Hits(ls[..n + 1]) == Hits(ls[..n]) + (if PastTop(m) then 1 else 0)
            && Misses(ls[..n + 1]) == Misses(ls[..n]) + (if PastBottom(m) then 1 else 0)
  {
    assert ls[..n + 1][..n] == ls[..n];
  }

  lemma Append(s: seq<Fly>, a: seq<nat>, node: nat)
    requires Below(a, |s|) && node < |s|
    ensures Below(a + [node], |s|) && LettersOf(s, a + [node]) == LettersOf(s, a) + [LetterOf(s[node])]
  {
  }

  /** The loop of update_letter_pos at a letter. */
  lemma Unfold(size: nat, s: seq<Fly>, freeHead: int, free: seq<nat>, done: seq<nat>, rest: seq<nat>, it: int)
    requires Owned(size, s, freeHead, free, done + rest) && Below(rest, |s|)
    requires it == At(rest, 0) != NULL
    ensures 0 <= it < |s| && rest != [] && freeHead != NULL && done + rest == done + [it] + rest[1..]
    ensures Below(rest[1..], |s|)
    ensures LettersOf(s, rest) == [LetterOf(s[it])] + LettersOf(s, rest[1..])
  {
  }

  lemma NotInside(a: seq<nat>, node: nat, b: seq<nat>)
    requires Distinct(a + [node] + b)
    ensures node !in a && node !in b
  {
    Rearranged(a + [node] + b, [node] + a + b);
    Pool.FirstApart(node, a, b);
  }

  lemma HeadAfter(size: nat, s: seq<Fly>, freeHead: int, free: seq<nat>, a: seq<nat>, node: nat, b: seq<nat>)
    requires Owned(size, s, freeHead, free, a + [node] + b) && freeHead != NULL
    ensures At(a + [node] + b, 0) == node <==> a == []
    ensures At(a + b, 0) == if a == [] then At(b, 0) else At(a + [node] + b, 0)
  {
    var w := a + [node] + b;
    DistinctPrefix(w, free);
    assert w[|a|] == node;
    if a != [] {
      assert w[0] == a[0];
    }
  }

  lemma AdvanceKeeps(size: nat, s: seq<Fly>, t: seq<Fly>, freeHead: int, free: seq<nat>, a: seq<nat>, node: nat,
                     b: seq<nat>)
    requires Owned(size, s, freeHead, free, a + [node] + b) && Doubly(s, a + [node] + b) && freeHead != NULL
    requires node < |s| && Below(a, |s|) && Below(b, |s|) && |t| == |s|
    requires t == s[node := s[node].(x := s[node].x + s[node].v)]
    ensures Owned(size, t, freeHead, free, a + [node] + b) && Doubly(t, a + [node] + b)
    ensures s[node].next == At(b, 0)
    ensures LettersOf(t, a) == LettersOf(s, a) && LettersOf(t, b) == LettersOf(s, b)
  {
    UnlinkKeeps(size, s, freeHead, free, a, node, b);
    NotInside(a, node, b);
    hide Distinct, Doubly, Chain, Owned, Removed;
    OwnedFrame(size, s, t, freeHead, free, a + [node] + b);
    SameLinks(s, t, a + [node] + b);
    LettersFrame(s, t, a);
    LettersFrame(s, t, b);
  }

  lemma DropKeeps(s: seq<Fly>, r: seq<Fly>, freeHead: int, a: seq<nat>, node: nat, b: seq<nat>)
    requires node < |s| && Below(a, |s|) && Below(b, |s|) && Distinct(a + [node] + b)
    requires s[node].prev == NULL || 0 <= s[node].prev < |s|
    requires s[node].next == NULL || 0 <= s[node].next < |s|
    requires r == Removed(s, node) && Doubly(r, a + b)
    ensures var t := SetNext(r, node, freeHead);
            && Doubly(t, a + b)
            && LettersOf(t, a) == LettersOf(s, a) && LettersOf(t, b) == LettersOf(s, b)
  {
    var t := SetNext(r, node, freeHead);
    NotInside(a, node, b);
    forall i | 0 <= i < |s| ensures LetterOf(r[i]) == LetterOf(s[i]) && (i != node ==> t[i] == r[i]) {
      RemovedLinks(s, node, i);
    }
    hide Distinct, Removed;
    DoublyFrame(r, t, a + b);
    LettersFrame(s, t, a);
    LettersFrame(s, t, b);
  }

  lemma NothingMoved(s: seq<Fly>, t: seq<Fly>, live: seq<nat>)
    requires Doubly(s, live) && |s| == |t|
    requires forall i :: 0 <= i < |s| && i in live ==> t[i] == s[i]
    ensures Below(live, |s|) && Doubly(t, live) && LettersOf(t, live) == LettersOf(s, live)
  {
    DoublyFrame(s, t, live);
    LettersFrame(s, t, live);
  }
}
