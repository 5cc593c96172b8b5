/** The pooled doubly linked list of the game (game/include/adt/linklist.h, instantiated by
    game/src/typing/effect.c): nodes live in one static array, a pointer is an index into it. */
module LinkList {
  import opened Options

  const NULL: int := -1

  datatype Fly = Fly(x: real, y: int, text: int, v: real, prev: int, next: int)

  // ---------------------------------------------------------------- lists in the array

  ghost predicate Distinct(nodes: seq<nat>) {
    forall i, j :: 0 <= i < j < |nodes| ==> nodes[i] != nodes[j]
  }

  function At(nodes: seq<nat>, i: int): int {
    if 0 <= i < |nodes| then nodes[i] else NULL
  }

  ghost predicate Below(nodes: seq<nat>, n: nat) {
    forall k :: 0 <= k < |nodes| ==> nodes[k] < n
  }

  /** Following `_next` visits exactly `nodes`. */
  ghost predicate Chain(s: seq<Fly>, nodes: seq<nat>) {
    Below(nodes, |s|) && forall k :: 0 <= k < |nodes| ==> s[nodes[k]].next == At(nodes, k + 1)
  }

  /** ... and `_prev` leads back. */
  ghost predicate Doubly(s: seq<Fly>, nodes: seq<nat>) {
    Chain(s, nodes) && forall k :: 0 <= k < |nodes| ==> s[nodes[k]].prev == At(nodes, k - 1)
  }

  function SetNext(s: seq<Fly>, node: int, next: int): (r: seq<Fly>)
    requires node == NULL || 0 <= node < |s|
    ensures |r| == |s|
  {
    if node == NULL then s else s[node := s[node].(next := next)]
  }

  function SetPrev(s: seq<Fly>, node: int, prev: int): (r: seq<Fly>)
    requires node == NULL || 0 <= node < |s|
    ensures |r| == |s|
  {
    if node == NULL then s else s[node := s[node].(prev := prev)]
  }

  /** A node linked in between two neighbours. */
  function Inserted(s: seq<Fly>, prev: int, next: int, obj: nat): (r: seq<Fly>)
    requires (prev == NULL || 0 <= prev < |s|) && (next == NULL || 0 <= next < |s|) && obj < |s|
    ensures |r| == |s|
  {
    SetPrev(SetNext(s[obj := s[obj].(prev := prev, next := next)], prev, obj), next, obj)
  }

  /** A node's neighbours linked to each other. */
  function Removed(s: seq<Fly>, node: nat): (r: seq<Fly>)
    requires node < |s|
    requires s[node].prev == NULL || 0 <= s[node].prev < |s|
    requires s[node].next == NULL || 0 <= s[node].next < |s|
    ensures |r| == |s|
  {
    SetPrev(SetNext(s, s[node].prev, s[node].next), s[node].next, s[node].prev)
  }

  lemma InsertedLinks(s: seq<Fly>, prev: int, next: int, obj: nat, i: nat)
    requires (prev == NULL || 0 <= prev < |s|) && (next == NULL || 0 <= next < |s|) && obj < |s|
    requires prev != obj && next != obj && i < |s|
    ensures var r := Inserted(s, prev, next, obj);
            && r[i].next == (if i == prev then obj else if i == obj then next else s[i].next)
            && r[i].prev == (if i == next then obj else if i == obj then prev else s[i].prev)
            && r[i].(next := 0, prev := 0) == s[i].(next := 0, prev := 0)
  {
  }

  lemma RemovedLinks(s: seq<Fly>, node: nat, i: nat)
    requires node < |s| && i < |s|
    requires s[node].prev == NULL || 0 <= s[node].prev < |s|
    requires s[node].next == NULL || 0 <= s[node].next < |s|
    ensures var r := Removed(s, node);
            && r[i].next == (if i == s[node].prev then s[node].next else s[i].next)
            && r[i].prev == (if i == s[node].next then s[node].prev else s[i].prev)
            && r[i].(next := 0, prev := 0) == s[i].(next := 0, prev := 0)
  {
  }

  /** Where the neighbours of an element are, before and after it is taken out. */
  lemma Neighbours(a: seq<nat>, obj: nat, b: seq<nat>, k: nat)
    requires k < |a + b| && Distinct(a + [obj] + b)
    ensures
      var w, w' := a + b, a + [obj] + b;
      var k' := if k < |a| then k else k + 1;
      && w[k] == w'[k'] && w[k] != obj
      && (w[k] == At(a, |a| - 1) <==> k == |a| - 1)
      && (w[k] == At(b, 0) <==> k == |a|)
      && At(w', k' + 1) == (if k == |a| - 1 then obj else At(w, k + 1))
      && At(w', k' - 1) == (if k == |a| then obj else At(w, k - 1))
      && At(w, k + 1) == (if k == |a| - 1 then At(b, 0) else At(w, k + 1))
      && At(w, k - 1) == (if k == |a| then At(a, |a| - 1) else At(w, k - 1))
  {
    var w, w' := a + b, a + [obj] + b;
    var k' := if k < |a| then k else k + 1;
    assert w'[|a|] == obj;
    assert w[k] == w'[k'];
    if |a| > 0 { assert w'[|a| - 1] == a[|a| - 1]; }
    if |b| > 0 { assert w'[|a| + 1] == b[0]; }
  }

  /** Inserting anywhere keeps both directions intact. */
  lemma InsertBetween(s: seq<Fly>, a: seq<nat>, obj: nat, b: seq<nat>)
    requires Doubly(s, a + b) && Distinct(a + [obj] + b)
    requires obj < |s| && Below(a, |s|) && Below(b, |s|)
    ensures Doubly(Inserted(s, At(a, |a| - 1), At(b, 0), obj), a + [obj] + b)
  {
    hide Inserted, Distinct, Doubly, Chain, Below, At;
    AtBelow(a, |a| - 1, |s|);
    AtBelow(b, 0, |s|);
    var r := Inserted(s, At(a, |a| - 1), At(b, 0), obj);
    var w' := a + [obj] + b;
    forall k | 0 <= k < |w'|
      ensures w'[k] < |r| && r[w'[k]].next == At(w', k + 1) && r[w'[k]].prev == At(w', k - 1)
    {
      InsertedNode(s, a, obj, b, k);
    }
    DoublyFrom(r, w');
  }

  lemma InsertedNode(s: seq<Fly>, a: seq<nat>, obj: nat, b: seq<nat>, k: nat)
    requires Doubly(s, a + b) && Distinct(a + [obj] + b) && k <= |a| + |b|
    requires obj < |s| && Below(a, |s|) && Below(b, |s|)
    ensures var r, w' := Inserted(s, At(a, |a| - 1), At(b, 0), obj), a + [obj] + b;
            w'[k] < |r| && r[w'[k]].next == At(w', k + 1) && r[w'[k]].prev == At(w', k - 1)
  {
    hide Inserted, Distinct, Doubly, Chain, Below, At;
    var prev, next := At(a, |a| - 1), At(b, 0);
    var w, w' := a + b, a + [obj] + b;
    NotAnEnd(a, obj, b);
    AtBelow(a, |a| - 1, |s|);
    AtBelow(b, 0, |s|);
    if k == |a| {
      InsertedLinks(s, prev, next, obj, obj);
    } else {
      var i := if k < |a| then k else k - 1;
      Neighbours(a, obj, b, i);
      DoublyAt(s, w, i);
      InsertedLinks(s, prev, next, obj, w[i]);
    }
  }

  lemma AtBelow(nodes: seq<nat>, i: int, n: nat)
    requires Below(nodes, n)
    ensures At(nodes, i) == NULL || 0 <= At(nodes, i) < n
  {
  }

  lemma DoublyAt(s: seq<Fly>, nodes: seq<nat>, k: nat)
    requires Doubly(s, nodes) && k < |nodes|
    ensures nodes[k] < |s| && s[nodes[k]].next == At(nodes, k + 1) && s[nodes[k]].prev == At(nodes, k - 1)
  {
  }

  lemma NotAnEnd(a: seq<nat>, obj: nat, b: seq<nat>)
    requires Distinct(a + [obj] + b)
    ensures At(a, |a| - 1) != obj && At(b, 0) != obj
    ensures var w' := a + [obj] + b;
            w'[|a|] == obj && At(w', |a| + 1) == At(b, 0) && At(w', |a| - 1) == At(a, |a| - 1)
  {
    var w' := a + [obj] + b;
    assert w'[|a|] == obj;
    if |a| > 0 { assert w'[|a| - 1] == a[|a| - 1]; }
    if |b| > 0 { assert w'[|a| + 1] == b[0]; }
  }

  /** Removing anywhere keeps both directions intact. */
  lemma RemoveBetween(s: seq<Fly>, a: seq<nat>, obj: nat, b: seq<nat>)
    requires Doubly(s, a + [obj] + b) && Distinct(a + [obj] + b)
    requires obj < |s| && Below(a, |s|) && Below(b, |s|)
    ensures s[obj].prev == At(a, |a| - 1) && s[obj].next == At(b, 0)
    ensures Doubly(Removed(s, obj), a + b)
  {
    hide Removed, Distinct, Doubly, Chain, Below, At;
    var w, w' := a + b, a + [obj] + b;
    NotAnEnd(a, obj, b);
    AtBelow(a, |a| - 1, |s|);
    AtBelow(b, 0, |s|);
    DoublyAt(s, w', |a|);
    var r := Removed(s, obj);
    forall k | 0 <= k < |w|
      ensures w[k] < |r| && r[w[k]].next == At(w, k + 1) && r[w[k]].prev == At(w, k - 1)
    {
      Neighbours(a, obj, b, k);
      DoublyAt(s, w', if k < |a| then k else k + 1);
      RemovedLinks(s, obj, w[k]);
    }
    DoublyFrom(r, w);
  }

  lemma DoublyFrom(s: seq<Fly>, nodes: seq<nat>)
    requires forall k :: 0 <= k < |nodes| ==>
      nodes[k] < |s| && s[nodes[k]].next == At(nodes, k + 1) && s[nodes[k]].prev == At(nodes, k - 1)
    ensures Doubly(s, nodes)
  {
  }

  lemma DoublyFrame(s: seq<Fly>, t: seq<Fly>, nodes: seq<nat>)
    requires Doubly(s, nodes) && |s| == |t|
    requires forall k :: 0 <= k < |nodes| && nodes[k] < |s| ==> t[nodes[k]] == s[nodes[k]]
    ensures Doubly(t, nodes)
  {
  }

  lemma ChainFrame(s: seq<Fly>, t: seq<Fly>, nodes: seq<nat>)
    requires Chain(s, nodes) && |s| == |t|
    requires forall k :: 0 <= k < |nodes| && nodes[k] < |s| ==> t[nodes[k]].next == s[nodes[k]].next
    ensures Chain(t, nodes)
  {
  }

  // ---------------------------------------------------------------- counting

  lemma {:induction false} DistinctCount(w: seq<nat>, x: nat)
    requires Distinct(w)
    ensures multiset(w)[x] <= 1 && (x !in w ==> multiset(w)[x] == 0)
  {
    if w != [] {
      DistinctCount(w[1..], x);
      assert w == [w[0]] + w[1..];
      assert w[0] !in w[1..];
    }
  }

  lemma RepeatCount(w: seq<nat>, i: nat, j: nat)
    requires i < j < |w| && w[i] == w[j]
    ensures multiset(w)[w[i]] >= 2
  {
    var rest := w[i + 1..];
    assert rest[j - i - 1] == w[i];
    assert w[i] in multiset(rest);
    assert w == (w[..i] + [w[i]]) + rest;
  }

  /** Rearranging a list changes neither what it contains nor that it has no repetitions. */
  lemma Rearranged(w: seq<nat>, w': seq<nat>)
    requires multiset(w) == multiset(w') && Distinct(w)
    ensures Distinct(w')
    ensures forall x :: x in w <==> x in w'
  {
    forall i, j | 0 <= i < j < |w'| ensures w'[i] != w'[j] {
      DistinctCount(w, w'[i]);
      if w'[i] == w'[j] {
        RepeatCount(w', i, j);
      }
    }
    forall x ensures x in w <==> x in w' {
      assert x in multiset(w) <==> x in multiset(w');
    }
  }

  /** A list without repetitions that covers 0 .. n-1 and nothing else has n elements. */
  lemma CountCover(nodes: seq<nat>, n: nat)
    requires Distinct(nodes) && Below(nodes, n)
    requires forall i: nat :: i < n ==> i in nodes
    ensures |nodes| == n
  {
    var all := seq(n, i requires 0 <= i < n => i as nat);
    assert Distinct(all);
    forall x: nat ensures multiset(nodes)[x] == multiset(all)[x] {
      DistinctCount(nodes, x);
      DistinctCount(all, x);
      if x < n {
        assert x in nodes && x in multiset(nodes);
        assert all[x] == x && x in multiset(all);
      } else {
        assert x !in nodes && x !in all;
      }
    }
    assert multiset(nodes) == multiset(all);
    assert |multiset(nodes)| == |multiset(all)|;
  }

  // ---------------------------------------------------------------- the pool

  /** `issued` and the free list split the pool; the free list, once there is one, ends in the last
      element of the array. */
  ghost predicate Owned(size: nat, s: seq<Fly>, freeHead: int, free: seq<nat>, issued: seq<nat>) {
    && |s| == size + 1
    && Below(issued, size + 1) && Below(free, size + 1)
    && if freeHead == NULL then
         issued == [] && free == [] && s[size].next == NULL
       else
         && free != [] && freeHead == free[0] && free[|free| - 1] == size
         && Chain(s, free)
         && Distinct(issued + free)
         && forall i: nat :: i <= size ==> i in issued + free
  }

  /** Changes to issued nodes do not concern the free list. */
  lemma OwnedFrame(size: nat, s: seq<Fly>, t: seq<Fly>, freeHead: int, free: seq<nat>, issued: seq<nat>)
    requires Owned(size, s, freeHead, free, issued) && freeHead != NULL && |t| == |s|
    requires forall i :: 0 <= i < |s| && i !in issued ==> t[i].next == s[i].next
    ensures Owned(size, t, freeHead, free, issued)
  {
    hide Distinct, Chain;
    Rearranged(issued + free, free + issued);
    forall k | 0 <= k < |free| ensures free[k] !in issued {
      Apart(issued, free, k);
    }
    ChainFrame(s, t, free);
  }

  lemma Apart(a: seq<nat>, b: seq<nat>, k: nat)
    requires Distinct(a + b) && k < |b|
    ensures b[k] !in a
  {
    forall i | 0 <= i < |a| ensures a[i] != b[k] {
      assert (a + b)[i] == a[i] && (a + b)[|a| + k] == b[k];
    }
  }

  /** The pool after a node is put in front of the list; the first one stands alone. */
  function Pushed(s: seq<Fly>, first: int, obj: nat): (r: seq<Fly>)
    requires (first == NULL || 0 <= first < |s|) && obj < |s|
    ensures |r| == |s|
  {
    if first == NULL then s else Inserted(s, NULL, first, obj)
  }

  lemma PushFront(s: seq<Fly>, nodes: seq<nat>, obj: nat)
    requires Doubly(s, nodes) && Distinct([obj] + nodes) && obj < |s|
    requires s[obj].prev == s[obj].next == NULL
    ensures Below(nodes, |s|) && Doubly(Pushed(s, At(nodes, 0), obj), [obj] + nodes)
  {
    hide Inserted, Distinct, Doubly, Chain, Below;
    DoublyBelow(s, nodes);
    if nodes == [] {
      assert [obj] + nodes == [obj];
      Alone(s, obj);
    } else {
      assert [] + nodes == nodes;
      assert [] + [obj] + nodes == [obj] + nodes;
      EmptyBelow(|s|);
      InsertBetween(s, [], obj, nodes);
    }
  }

  lemma Alone(s: seq<Fly>, obj: nat)
    requires obj < |s| && s[obj].prev == s[obj].next == NULL
    ensures Doubly(s, [obj])
  {
  }

  lemma DoublyBelow(s: seq<Fly>, nodes: seq<nat>)
    requires Doubly(s, nodes)
    ensures Below(nodes, |s|)
  {
  }

  lemma EmptyBelow(n: nat)
    ensures Below([], n)
  {
  }

  lemma DistinctPrefix(a: seq<nat>, b: seq<nat>)
    requires Distinct(a + b)
    ensures Distinct(a)
  {
    forall i, j | 0 <= i < j < |a| ensures a[i] != a[j] {
      assert (a + b)[i] == a[i] && (a + b)[j] == a[j];
    }
  }

  lemma PushedFields(s: seq<Fly>, first: int, obj: nat, i: nat)
    requires 0 <= first < |s| && first != obj && obj < |s| && i < |s|
    ensures Pushed(s, first, obj)[i].(next := 0, prev := 0) == s[i].(next := 0, prev := 0)
    ensures i != obj && i != first ==> Pushed(s, first, obj)[i] == s[i]
  {
    InsertedLinks(s, NULL, first, obj, i);
  }

  /** A node is unlinked: its neighbours are live, so the free list is as it was. */
  lemma UnlinkKeeps(size: nat, s: seq<Fly>, freeHead: int, free: seq<nat>, a: seq<nat>, node: nat, b: seq<nat>)
    requires Owned(size, s, freeHead, free, a + [node] + b) && Doubly(s, a + [node] + b)
    requires node < |s| && Below(a, |s|) && Below(b, |s|)
    ensures freeHead != NULL && Distinct(a + [node] + b)
    ensures s[node].prev == At(a, |a| - 1) && s[node].next == At(b, 0)
    ensures (s[node].prev == NULL || 0 <= s[node].prev < |s|) && (s[node].next == NULL || 0 <= s[node].next < |s|)
    ensures Owned(size, Removed(s, node), freeHead, free, a + [node] + b)
    ensures Doubly(Removed(s, node), a + b)
  {
    assert freeHead != NULL;
    DistinctPrefix(a + [node] + b, free);
    hide Distinct, Doubly, Chain, Owned, Removed;
    RemoveBetween(s, a, node, b);
    AtBelow(a, |a| - 1, |s|);
    AtBelow(b, 0, |s|);
    AtWithin(a, node, b);
    var r := Removed(s, node);
    forall i | 0 <= i < |s| && i !in a + [node] + b ensures r[i].next == s[i].next {
      RemovedLinks(s, node, i);
    }
    OwnedFrame(size, s, r, freeHead, free, a + [node] + b);
  }

  lemma AtWithin(a: seq<nat>, node: nat, b: seq<nat>)
    ensures At(a, |a| - 1) != NULL ==> At(a, |a| - 1) in a + [node] + b
    ensures At(b, 0) != NULL ==> At(b, 0) in a + [node] + b
  {
  }

  class Pool {
    const size: nat
    const pool: array<Fly>
    var freeHead: int
    ghost var free: seq<nat>

    ghost predicate Owns(issued: seq<nat>)
      reads this, pool
    {
      pool.Length == size + 1 && Owned(size, pool[..], freeHead, free, issued)
    }

    constructor (n: nat)
      ensures size == n && Owns([]) && freeHead == NULL && fresh(pool)
    {
      size := n;
      pool := new Fly[n + 1](_ => Fly(0.0, 0, 0, 0.0, NULL, NULL));
      freeHead := NULL;
      free := [];
    }

    /** The first call's initialisation: element i is linked to element i + 1. */
    method Thread()
      requires Owns([]) && freeHead == NULL
      modifies this, pool
      ensures freeHead == 0 && Owns([])
    {
      var i := 1;
      while i <= size
        invariant 1 <= i <= size + 1
        invariant forall k :: 0 <= k < i - 1 ==> pool[k].next == k + 1
        invariant pool[size].next == NULL
        modifies pool
      {
        pool[i - 1] := pool[i - 1].(next := i);
        i := i + 1;
      }
      freeHead := 0;
      free := seq(size + 1, k => k);
      forall k: nat | k <= size ensures k in [] + free {
        assert ([] + free)[k] == k;
      }
    }

    /** fly_new: None where its assertion fails, which is when every node but the last is out. */
    method New(ghost issued: seq<nat>) returns (r: Option<nat>)
      requires Owns(issued)
      modifies this, pool
      ensures freeHead != NULL
      ensures r.None? <==> |issued| == size
      ensures r.None? ==> Owns(issued)
      ensures r.Some? ==> r.value !in issued && Owns([r.value] + issued)
      ensures r.Some? ==> r.value <= size && pool[r.value].next == pool[r.value].prev == NULL
      ensures forall i :: 0 <= i < pool.Length && i in issued ==> pool[i] == old(pool[i])
    {
      if freeHead == NULL {
        Thread();
      }
      CountCover(issued + free, size + 1);
      assert Chain(pool[..], free);
      assert pool[freeHead].next == At(free, 1);
      if pool[freeHead].next == NULL { return None; }
      var ret: nat := freeHead;
      freeHead := pool[ret].next;
      ghost var s := pool[..];
      pool[ret] := pool[ret].(prev := NULL, next := NULL);
      TakeFirst(issued, free, s, pool[..], size);
      free := free[1..];
      return Some(ret);
    }

    lemma TakeFirst(issued: seq<nat>, free: seq<nat>, s: seq<Fly>, t: seq<Fly>, size: nat)
      requires |free| >= 2 && free[|free| - 1] == size && |s| == |t| == size + 1
      requires Below(issued, |s|) && Chain(s, free) && Distinct(issued + free)
      requires forall i: nat :: i <= size ==> i in issued + free
      requires forall i :: 0 <= i < |s| && i != free[0] ==> t[i] == s[i]
      ensures free[0] !in issued && Below([free[0]] + issued, |s|)
      ensures Chain(t, free[1..]) && Distinct([free[0]] + issued + free[1..])
      ensures forall i: nat :: i <= size ==> i in [free[0]] + issued + free[1..]
    {
      hide Distinct, Chain;
      var rest := free[1..];
      assert free == [free[0]] + rest;
      Rearranged(issued + free, [free[0]] + issued + rest);
      FirstApart(free[0], issued, rest);
      ChainBelow(s, free);
      ChainTail(s, t, free);
    }

    static lemma FirstApart(x: nat, a: seq<nat>, b: seq<nat>)
      requires Distinct([x] + a + b)
      ensures x !in a && x !in b
    {
      var w := [x] + a + b;
      forall k | 0 <= k < |a| ensures a[k] != x {
        assert w[k + 1] == a[k] && w[0] == x;
      }
      forall k | 0 <= k < |b| ensures b[k] != x {
        assert w[|a| + k + 1] == b[k] && w[0] == x;
      }
    }

    lemma ChainBelow(s: seq<Fly>, nodes: seq<nat>)
      requires Chain(s, nodes)
      ensures Below(nodes, |s|)
    {
    }

    lemma ChainTail(s: seq<Fly>, t: seq<Fly>, nodes: seq<nat>)
      requires nodes != [] && Chain(s, nodes) && |s| == |t| && nodes[0] !in nodes[1..]
      requires forall i :: 0 <= i < |s| && i != nodes[0] ==> t[i] == s[i]
      ensures Chain(t, nodes[1..])
    {
      forall k | 0 <= k < |nodes[1..]| ensures t[nodes[1..][k]].next == At(nodes[1..], k + 1) {
        assert nodes[1..][k] == nodes[k + 1];
      }
    }

    /** fly_insert */
    method Insert(prev: int, next: int, obj: nat)
      requires obj < pool.Length && (prev != NULL || next != NULL)
      requires (prev == NULL || 0 <= prev < pool.Length) && (next == NULL || 0 <= next < pool.Length)
      modifies pool
      ensures pool[..] == Inserted(old(pool[..]), prev, next, obj)
    {
      pool[obj] := pool[obj].(prev := prev);
      pool[obj] := pool[obj].(next := next);
      assert pool[..] == old(pool[..])[obj := old(pool[obj]).(prev := prev, next := next)];
      if prev != NULL {
        pool[prev] := pool[prev].(next := obj);
      }
      if next != NULL {
        pool[next] := pool[next].(prev := obj);
      }
    }

    /** fly_remove */
    method Remove(node: nat)
      requires node < pool.Length
      requires pool[node].prev == NULL || 0 <= pool[node].prev < pool.Length
      requires pool[node].next == NULL || 0 <= pool[node].next < pool.Length
      modifies pool
      ensures pool[..] == Removed(old(pool[..]), node)
    {
      var prev, next := pool[node].prev, pool[node].next;
      if prev != NULL {
        pool[prev] := pool[prev].(next := next);
      }
      if next != NULL {
        pool[next] := pool[next].(prev := prev);
      }
    }

    /** fly_free: the node goes to the front of the free list. */
    method Free(node: nat, ghost a: seq<nat>, ghost b: seq<nat>)
      requires Owns(a + [node] + b) && node < pool.Length
      modifies this`freeHead, this`free, pool
      ensures Owns(a + b) && freeHead != NULL
      ensures pool[..] == SetNext(old(pool[..]), node, old(freeHead))
    {
      ghost var s := pool[..];
      GiveBack(a, node, b, free);
      pool[node] := pool[node].(next := freeHead);
      ChainCons(s, pool[..], node, free);
      freeHead := node;
      free := [node] + free;
    }

    lemma GiveBack(a: seq<nat>, node: nat, b: seq<nat>, free: seq<nat>)
      requires Distinct(a + [node] + b + free)
      requires forall i: nat :: i <= size ==> i in a + [node] + b + free
      requires Below(a + [node] + b, size + 1)
      ensures Distinct(a + b + ([node] + free)) && node !in free && Below(a + b, size + 1)
      ensures forall i: nat :: i <= size ==> i in a + b + ([node] + free)
    {
      Rearranged(a + [node] + b + free, a + b + ([node] + free));
      Rearranged(a + [node] + b + free, [node] + (a + b) + free);
      FirstApart(node, a + b, free);
      var w := a + [node] + b;
      forall k | 0 <= k < |a + b| ensures (a + b)[k] < size + 1 {
        assert (a + b)[k] == w[if k < |a| then k else k + 1];
      }
    }

    lemma ChainCons(s: seq<Fly>, t: seq<Fly>, node: nat, nodes: seq<nat>)
      requires Chain(s, nodes) && node < |s| && node !in nodes
      requires t == s[node := s[node].(next := At(nodes, 0))]
      ensures Chain(t, [node] + nodes)
    {
      var w := [node] + nodes;
      forall k | 0 <= k < |w| ensures w[k] < |t| && t[w[k]].next == At(w, k + 1) {
        if k > 0 { assert w[k] == nodes[k - 1]; }
      }
    }
  }
}
