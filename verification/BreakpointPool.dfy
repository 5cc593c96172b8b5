/**
 nemu/src/monitor/breakpoint.c: a pool of nodes on two intrusive lists, `head` (live entries, newest
 first) and `free`, that patches guest memory in place. Every operation is proved to act on the live
 list as module Marks says.
 */
module BreakpointPool {
  import opened Marks
  import opened Words

  const NR_BP: nat := 32

  datatype Kind = BREAKPOINT | WATCHPOINT

  class Bp {
    const no: nat
    var oriByte: Byte
    var inUse: bool
    var kind: Kind
    var addr: nat
    var expr: string
    var oldVal: nat
    var next: Bp?

    constructor (n: nat)
      ensures no == n && !inUse && next == null
    {
      no, inUse, next := n, false, null;
      oriByte, kind, addr, expr, oldVal := 0, BREAKPOINT, 0, "", 0;
    }
  }

  /** Following `next` from first visits exactly the nodes of s. */
  ghost predicate Linked(first: Bp?, s: seq<Bp>)
    reads s`next
  {
    if s == [] then first == null
    else first == s[0] && Linked(s[0].next, s[1..])
  }

  ghost function Successor(s: seq<Bp>, i: nat): Bp?
    requires i < |s|
  {
    if i + 1 < |s| then s[i + 1] else null
  }

  /** The same, node by node. */
  lemma {:induction false} LinkedPointwise(first: Bp?, s: seq<Bp>)
    ensures Linked(first, s) <==>
      first == (if s == [] then null else s[0]) && forall i :: 0 <= i < |s| ==> s[i].next == Successor(s, i)
    decreases |s|
  {
    if s != [] {
      LinkedPointwise(s[0].next, s[1..]);
      assert s[0].next == Successor(s, 0) <==> s[0].next == if s[1..] == [] then null else s[1..][0];
      forall i | 0 <= i < |s[1..]| ensures s[1..][i] == s[i + 1] && Successor(s[1..], i) == Successor(s, i + 1) {}
      if forall i :: 0 <= i < |s[1..]| ==> s[1..][i].next == Successor(s[1..], i) {
        forall i | 1 <= i < |s| ensures s[i].next == Successor(s, i) {
          assert s[1..][i - 1] == s[i];
        }
      }
    }
  }

  ghost predicate NoDuplicates(s: seq<Bp>) {
    forall i, j :: 0 <= i < j < |s| ==> s[i] != s[j]
  }

  ghost function Nodes(s: seq<Bp>): set<Bp> { set p | p in s }

  ghost function MarkOf(p: Bp): Mark
    reads p`kind, p`addr, p`oriByte, p`expr, p`oldVal
  {
    if p.kind == BREAKPOINT then Break(p.no, p.addr, p.oriByte) else Watch(p.no, p.expr, p.oldVal)
  }

  ghost function MarksOf(s: seq<Bp>): (r: seq<Mark>)
    reads s
    ensures |r| == |s|
    ensures forall i :: 0 <= i < |s| ==> r[i] == MarkOf(s[i])
  {
    seq(|s|, i requires 0 <= i < |s| reads s => MarkOf(s[i]))
  }

  class Pool {
    const nodes: seq<Bp>
    const mem: array<Byte>
    var head: Bp?
    var free: Bp?
    ghost var live: seq<Bp>
    ghost var spare: seq<Bp>

    /** The static nodes are split into those in use and the free ones. */
    ghost predicate Split(used: set<Bp>)
      reads this`spare
    {
      && |nodes| == NR_BP && NoDuplicates(nodes) && (forall i :: 0 <= i < NR_BP ==> nodes[i].no == i)
      && (forall p :: p in nodes ==> p in used || p in spare)
      && (forall p :: p in used ==> p in nodes && p !in spare)
      && (forall p :: p in spare ==> p in nodes)
      && NoDuplicates(spare)
    }

    /** inUse tells which is which, and `free` is the list of the free ones. */
    ghost predicate Parts(used: set<Bp>)
      reads this`spare, this`free, used`inUse, spare`inUse, spare`next
    {
      && Split(used)
      && (forall p :: p in used ==> p.inUse)
      && (forall p :: p in spare ==> !p.inUse)
      && Linked(free, spare)
    }

    /** The pool's invariant: `head` and `free` are acyclic, disjoint lists that cover all nodes, inUse
        marks exactly the live ones, and every live breakpoint lies in memory. */
    ghost predicate Valid()
      reads this, live, spare
    {
      && Parts(Nodes(live))
      && NoDuplicates(live) && Linked(head, live)
      && (forall p :: p in live ==> p.kind == BREAKPOINT ==> p.addr < mem.Length)
    }

    /** The live list as a value. */
    ghost function Live(): (r: seq<Mark>)
      requires Valid()
      reads this, live, spare
      ensures Inside(r, mem.Length)
    {
      MarksOf(live)
    }

    /** init_bp_list */
    constructor (guest: array<Byte>)
      ensures Valid() && mem == guest && live == [] && spare == nodes
      ensures fresh(nodes) && fresh(this)
      ensures |spare| == 32 && forall i :: 0 <= i < 32 ==> spare[i].no == i
    {
      var bps: seq<Bp> := [];
      var first: Bp? := null;
      var i := NR_BP;
      while i > 0
        invariant 0 <= i <= NR_BP && |bps| == NR_BP - i
        invariant fresh(bps) && NoDuplicates(bps)
        invariant forall k :: 0 <= k < |bps| ==> bps[k].no == i + k && !bps[k].inUse
        invariant Linked(first, bps)
      {
        i := i - 1;
        var p := new Bp(i);
        p.next := first;
        assert ([p] + bps)[1..] == bps;
        bps := [p] + bps;
        first := p;
      }
      nodes := bps;
      mem := guest;
      head := null;
      free := first;
      live := [];
      spare := bps;
    }

    /** new_BP: take the first free node off the free list. */
    method NewBp(ghost used: set<Bp>) returns (p: Bp)
      requires Parts(used) && spare != []
      modifies this`free, this`spare, free`inUse
      ensures p == old(spare[0]) && spare == old(spare[1..]) && p !in used
      ensures Parts(used + {p})
    {
      p := free;
      assert p in spare;
      free := free.next;
      p.inUse := true;
      spare := spare[1..];
      assert p !in spare;
    }

    /** free_BP: put the saved opcode back and push the node on the free list. */
    method FreeBp(p: Bp, ghost used: set<Bp>)
      requires Parts(used) && p in used && (p.kind == BREAKPOINT ==> p.addr < mem.Length)
      modifies this`free, this`spare, p`inUse, p`next, mem
      ensures Parts(used - {p}) && spare == [p] + old(spare)
      ensures mem[..] == Freed(old(mem[..]), old(MarkOf(p)))
    {
      if p.kind == WATCHPOINT {
      } else {
        mem[p.addr] := p.oriByte;
      }
      p.inUse := false;
      p.next := free;
      free := p;
      spare := [p] + spare;
      assert spare[1..] == old(spare);
    }

    /** The last two steps of every set: link the node in front of the live list. */
    method Push(p: Bp)
      requires Parts(Nodes(live) + {p}) && p !in live
      requires NoDuplicates(live) && Linked(head, live)
      requires forall q :: q in live || q == p ==> q.kind == BREAKPOINT ==> q.addr < mem.Length
      modifies this`head, this`live, p`next
      ensures Valid() && live == [p] + old(live)
      ensures Live() == [old(MarkOf(p))] + old(MarksOf(live))
    {
      hide NoDuplicates, MarksOf, Linked, Nodes;
      ConsNodes(p, live);
      p.next := head;
      ConsLinked(p, live);
      head := p;
      live := [p] + live;
    }

    lemma ConsNodes(p: Bp, s: seq<Bp>)
      requires p !in s && NoDuplicates(s)
      ensures NoDuplicates([p] + s) && Nodes([p] + s) == Nodes(s) + {p} && (forall q :: q in s ==> q in Nodes(s))
      ensures MarksOf([p] + s) == [MarkOf(p)] + MarksOf(s)
    {
    }

    lemma ConsLinked(p: Bp, s: seq<Bp>)
      requires Linked(p.next, s)
      ensures Linked(p, [p] + s)
      ensures MarksOf([p] + s) == [MarkOf(p)] + MarksOf(s)
    {
      assert ([p] + s)[1..] == s;
    }

    lemma FirstFree()
      requires Valid() && spare != []
      ensures free == spare[0] && free in spare && free in nodes && free !in live
    {
      assert forall q :: q in live ==> q in Nodes(live);
    }

    /** Save the opcode in the node and arm the address. */
    method Patch(p: Bp, addr: nat)
      requires addr < mem.Length
      modifies p`kind, p`addr, p`oriByte, mem
      ensures p.kind == BREAKPOINT && p.addr == addr && p.oriByte == old(mem[addr])
      ensures mem[..] == old(mem[..])[addr := INT3]
    {
      p.kind := BREAKPOINT;
      p.addr := addr;
      p.oriByte := mem[addr];
      mem[addr] := INT3;
    }

    /** set_breakpoint: save the opcode, arm the address, push the node on the live list. */
    method SetBreakpoint(addr: nat) returns (no: nat)
      requires Valid() && spare != [] && addr < mem.Length
      modifies this, nodes, mem
      ensures Valid() && spare == old(spare[1..]) && no == old(spare[0]).no
      ensures Live() == [Break(no, addr, old(mem[addr]))] + old(Live())
      ensures mem[..] == old(mem[..])[addr := INT3]
    {
      hide NoDuplicates, MarksOf, Split;
      FirstFree();
      var p := NewBp(Nodes(live));
      Patch(p, addr);
      assert Linked(head, live) && Linked(free, spare) && MarksOf(live) == old(MarksOf(live));
      Push(p);
      no := p.no;
    }

    method Remember(p: Bp, e: string, val: nat)
      modifies p`kind, p`expr, p`oldVal
      ensures p.kind == WATCHPOINT && p.expr == e && p.oldVal == val
    {
      p.kind := WATCHPOINT;
      p.expr := e;
      p.oldVal := val;
    }

    /** set_watchpoint, given what the evaluator said about the expression. */
    method SetWatchpoint(e: string, val: nat, success: bool) returns (no: int)
      requires Valid() && (success ==> spare != [])
      modifies this, nodes
      ensures Valid() && (no == -1 <==> !success)
      ensures success ==> no == old(spare[0]).no && spare == old(spare[1..])
      ensures success ==> no >= 0 && Live() == [Watch(no, e, val)] + old(Live())
      ensures !success ==> Live() == old(Live()) && spare == old(spare)
    {
      if !success {
        return -1;
      }
      hide NoDuplicates, MarksOf, Split;
      FirstFree();
      var p := NewBp(Nodes(live));
      Remember(p, e, val);
      assert Linked(head, live) && Linked(free, spare) && MarksOf(live) == old(MarksOf(live));
      Push(p);
      no := p.no;
    }

    /** The node p at position k of the live list and the entry it stands for. */
    lemma LiveAt(p: Bp, k: nat)
      requires Valid() && k <= |live| && Linked(p, live[k..])
      ensures k < |live| && live[k] == p && Linked(p.next, live[k + 1..])
      ensures var ms := Live(); ms[k] == MarkOf(p) && ms[k..][0] == ms[k] && ms[k..][1..] == ms[k + 1..]
      ensures p.inUse && p in nodes && (p.kind == BREAKPOINT ==> p.addr < mem.Length)
    {
      assert live[k..][0] == p && live[k..][1..] == live[k + 1..];
      assert p in live && p in Nodes(live);
    }

    /** find_breakpoint: the newest live breakpoint at an address. */
    method FindBreakpoint(addr: nat) returns (p: Bp?)
      requires Valid()
      ensures p == null <==> !HasBreak(Live(), addr)
      ensures p != null ==> p in live && p in nodes && IsBreakAt(MarkOf(p), addr) && p.oriByte == Newest(Live(), addr)
    {
      p := head;
      ghost var k, ms := 0, Live();
      assert ms[0..] == ms && live[0..] == live;
      while p != null
        invariant k <= |live| && Linked(p, live[k..])
        invariant HasBreak(ms, addr) <==> HasBreak(ms[k..], addr)
        invariant HasBreak(ms, addr) ==> Newest(ms, addr) == Newest(ms[k..], addr)
        decreases |live| - k
      {
        LiveAt(p, k);
        HeadOrTail(ms[k..], addr);
        if p.kind == BREAKPOINT && p.addr == addr {
          break;
        }
        p := p.next;
        k := k + 1;
      }
    }

    /** resume_breakpoints: arm every live breakpoint. */
    method ResumeBreakpoints()
      requires Valid()
      modifies mem
      ensures Valid() && Live() == old(Live())
      ensures mem[..] == Armed(old(mem[..]), Live())
    {
      hide Parts, NoDuplicates;
      var p := head;
      ghost var k, ms := 0, Live();
      assert ms[0..] == ms && live[0..] == live;
      while p != null
        invariant k <= |live| && Linked(p, live[k..])
        invariant Armed(mem[..], ms[k..]) == Armed(old(mem[..]), ms)
        decreases |live| - k
      {
        LiveAt(p, k);
        ghost var before := mem[..];
        if p.kind == BREAKPOINT {
          mem[p.addr] := INT3;
          assert mem[..] == before[p.addr := INT3];
        }
        p := p.next;
        k := k + 1;
      }
    }

    /** mask_breakpoints: write every saved opcode back, newest first. */
    method MaskBreakpoints()
      requires Valid()
      modifies mem
      ensures Valid() && Live() == old(Live())
      ensures mem[..] == Restored(old(mem[..]), Live())
    {
      hide Parts, NoDuplicates;
      var p := head;
      ghost var k, ms := 0, Live();
      assert ms[0..] == ms && live[0..] == live;
      while p != null
        invariant k <= |live| && Linked(p, live[k..])
        invariant Restored(mem[..], ms[k..]) == Restored(old(mem[..]), ms)
        decreases |live| - k
      {
        LiveAt(p, k);
        ghost var before := mem[..];
        if p.kind == BREAKPOINT {
          mem[p.addr] := p.oriByte;
          assert mem[..] == before[p.addr := p.oriByte];
        }
        p := p.next;
        k := k + 1;
      }
    }

    /** scan_watchpoint: the first watchpoint whose expression has changed, and its new value. */
    method ScanWatchpoint(val: string -> nat) returns (p: Bp?, v: nat, ghost k: nat)
      requires Valid()
      ensures k == FirstStirred(Live(), val) && (p == null <==> k == |live|)
      ensures p != null ==> p == live[k] && p.kind == WATCHPOINT && v == val(p.expr)
    {
      hide NoDuplicates, Parts, MarksOf, FirstStirred;
      p, v, k := head, 0, 0;
      ghost var ms := Live();
      assert live[0..] == live;
      while p != null
        invariant 0 <= k <= |live| == |ms| && Linked(p, live[k..])
        invariant forall j :: 0 <= j < k ==> !Stirred(ms[j], val)
        decreases |live| - k
      {
        LiveAt(p, k);
        if p.kind == WATCHPOINT {
          v := val(p.expr);
          if p.oldVal != v {
            FirstStirredIs(ms, val, k);
            return;
          }
        }
        p := p.next;
        k := k + 1;
      }
      FirstStirredIs(ms, val, k);
    }

    /** What exec does with the watchpoint found: its new value is the one kept from now on. */
    method Notice(p: Bp, v: nat, ghost k: nat)
      requires Valid() && k < |live| && live[k] == p && p.kind == WATCHPOINT
      modifies p`oldVal
      ensures Valid() && live == old(live) && Live() == old(Live())[k := Watch(p.no, p.expr, v)]
    {
      p.oldVal := v;
      forall i | 0 <= i < |live| && i != k ensures live[i] != p {}
      assert MarksOf(live) == old(MarksOf(live))[k := Watch(p.no, p.expr, v)];
    }

    /** The check for watchpoints in exec's loop. */
    method CheckWatchpoints(val: string -> nat) returns (hit: bool)
      requires Valid()
      modifies Nodes(nodes)`oldVal
      ensures Valid() && live == old(live) && spare == old(spare)
      ensures hit <==> FirstStirred(old(Live()), val) < |old(Live())|
      ensures Live() == Noticed(old(Live()), val)
    {
      var wp, v, k := ScanWatchpoint(val);
      hit := wp != null;
      if wp != null {
        InPool(wp);
        assert Live()[k] == MarkOf(wp);
        hide Valid;
        Notice(wp, v, k);
      }
    }

    lemma InPool(p: Bp)
      requires Valid() && p in live
      ensures p in nodes && p in Nodes(nodes)
    {
      assert p in Nodes(live);
    }

    /** The search of delete_breakpoint: the node with this number and its predecessor. */
    method Search(no: int) returns (p: Bp?, prev: Bp?, ghost k: nat)
      requires Valid()
      ensures k <= |live| && (p == null <==> k == |live|)
      ensures forall j :: 0 <= j < k ==> live[j].no != no
      ensures p != null ==> p == live[k] && p.no == no && prev == if k == 0 then null else live[k - 1]
    {
      hide NoDuplicates, Parts, MarksOf;
      p, prev, k := head, null, 0;
      assert live[0..] == live;
      while p != null
        invariant 0 <= k <= |live| && Linked(p, live[k..])
        invariant prev == if k == 0 then null else live[k - 1]
        invariant forall j :: 0 <= j < k ==> live[j].no != no
        decreases |live| - k
      {
        LiveAt(p, k);
        if p.no == no {
          return;
        }
        prev := p;
        p := p.next;
        k := k + 1;
      }
    }

    /** Redirect the link of node k's predecessor, or the head, past node k. */
    method Redirect(p: Bp, prev: Bp?, ghost s: seq<Bp>, ghost k: nat)
      requires k < |s| && s[k] == p && NoDuplicates(s) && Linked(head, s)
      requires prev == if k == 0 then null else s[k - 1]
      modifies this`head, Nodes(s)`next
      ensures Linked(head, Cut(s, k)) && MarksOf(Cut(s, k)) == old(MarksOf(Cut(s, k)))
    {
      LinkedPointwise(head, s);
      if prev == null {
        head := p.next;
      } else {
        prev.next := p.next;
      }
      Relinked(head, s, Cut(s, k), k);
    }

    lemma SpareApart()
      requires Valid()
      ensures forall q :: q in spare ==> q !in Nodes(live)
    {
    }

    /** Take node k out of the live list. Its node stays in use. */
    method Unlink(p: Bp, prev: Bp?, ghost k: nat)
      requires Valid() && k < |live| && live[k] == p
      requires prev == if k == 0 then null else live[k - 1]
      modifies this`head, this`live, Nodes(live)`next
      ensures Parts(Nodes(live) + {p}) && p !in live
      ensures live == Cut(old(live), k) && NoDuplicates(live) && Linked(head, live)
      ensures MarksOf(live) == Without(old(MarksOf(live)), k)
      ensures forall q :: q in live ==> q in old(live)
    {
      SpareApart();
      hide NoDuplicates, Cut, Split, Linked, Nodes, MarksOf, Without;
      CutNodes(live, k);
      CutMarks(live, k);
      Redirect(p, prev, live, k);
      live := Cut(live, k);
    }

    /** Free a node that was taken off the live list. */
    method Release(p: Bp)
      requires Parts(Nodes(live) + {p}) && p !in live
      requires NoDuplicates(live) && Linked(head, live)
      requires forall q :: q in live || q == p ==> q.kind == BREAKPOINT ==> q.addr < mem.Length
      modifies this`free, this`spare, p`inUse, p`next, mem
      ensures Valid() && MarksOf(live) == old(MarksOf(live)) && spare == [p] + old(spare)
      ensures mem[..] == Freed(old(mem[..]), old(MarkOf(p)))
    {
      assert Nodes(live) + {p} - {p} == Nodes(live);
      FreeBp(p, Nodes(live) + {p});
      assert forall i :: 0 <= i < |live| ==> MarkOf(live[i]) == old(MarkOf(live[i]));
    }

    /** Unlink node k and free it. */
    method Remove(p: Bp, prev: Bp?, ghost k: nat)
      requires Valid() && k < |live| && live[k] == p
      requires prev == if k == 0 then null else live[k - 1]
      modifies this, nodes, mem
      ensures Valid() && live == Cut(old(live), k) && spare == [p] + old(spare)
      ensures MarksOf(live) == Without(old(MarksOf(live)), k) && mem[..] == Freed(old(mem[..]), old(MarkOf(p)))
    {
      assert forall q :: q in Nodes(live) ==> q in nodes;
      assert p in Nodes(live);
      hide NoDuplicates, Cut, Split, Linked, Without;
      Unlink(p, prev, k);
      Release(p);
    }

    /** delete_breakpoint: unlink the entry with this number and free its node. */
    method DeleteBreakpoint(no: int) returns (ok: bool)
      requires Valid()
      modifies this, nodes, mem
      ensures Valid()
      ensures ok <==> exists k :: 0 <= k < |old(Live())| && old(Live())[k].no == no
      ensures !ok ==> Live() == old(Live()) && mem[..] == old(mem[..]) && spare == old(spare)
      ensures ok ==> no >= 0 && var k := IndexOf(old(Live()), no);
        && Live() == Without(old(Live()), k) && mem[..] == Freed(old(mem[..]), old(Live())[k])
        && spare == [old(live)[k]] + old(spare)
    {
      var p, prev, k := Search(no);
      if p == null {
        return false;
      }
      FirstIndex(Live(), no, k);
      Remove(p, prev, k);
      ok := true;
    }

    lemma FirstIndex(ms: seq<Mark>, no: nat, k: nat)
      requires k < |ms| && ms[k].no == no && forall j :: 0 <= j < k ==> ms[j].no != no
      ensures IndexOf(ms, no) == k
    {
    }

    ghost function Cut(s: seq<Bp>, k: nat): seq<Bp>
      requires k < |s|
    {
      s[..k] + s[k + 1..]
    }

    lemma CutAt(was: seq<Bp>, k: nat)
      requires k < |was|
      ensures |Cut(was, k)| == |was| - 1
      ensures forall i :: 0 <= i < |was| - 1 ==> Cut(was, k)[i] == was[if i < k then i else i + 1]
    {
    }

    lemma CutMarks(was: seq<Bp>, k: nat)
      requires k < |was|
      ensures MarksOf(Cut(was, k)) == Without(MarksOf(was), k)
    {
      CutAt(was, k);
      hide Cut;
    }

    /** What a removal means for the nodes. */
    lemma CutNodes(was: seq<Bp>, k: nat)
      requires k < |was| && NoDuplicates(was)
      ensures NoDuplicates(Cut(was, k)) && was[k] !in Cut(was, k)
      ensures Nodes(was) == Nodes(Cut(was, k)) + {was[k]}
      ensures forall q :: q in Cut(was, k) ==> q in was
    {
      CutAt(was, k);
      hide Cut;
      var cut := Cut(was, k);
      forall q | q in was && q != was[k] ensures q in cut {
        var j :| 0 <= j < |was| && was[j] == q;
        assert cut[if j < k then j else j - 1] == q;
      }
      forall i | 0 <= i < |cut| ensures cut[i] in was && cut[i] != was[k] {
      }
    }

    /** The links of the shortened list. */
    lemma Relinked(first: Bp?, was: seq<Bp>, cut: seq<Bp>, k: nat)
      requires k < |was| && cut == Cut(was, k)
      requires forall i :: 0 <= i < |was| && i != k ==> was[i].next == Successor(was, if i + 1 == k then k else i)
      requires first == if k == 0 then Successor(was, 0) else was[0]
      ensures Linked(first, cut)
    {
      hide Linked, Cut, Successor;
      CutAt(was, k);
      forall i | 0 <= i < |cut| ensures cut[i].next == Successor(cut, i) {
        var j := if i < k then i else i + 1;
        assert was[j].next == Successor(was, if j + 1 == k then k else j);
        CutSuccessor(was, cut, k, i);
      }
      FirstOfCut(first, was, cut, k);
      LinkedPointwise(first, cut);
    }

    lemma CutSuccessor(was: seq<Bp>, cut: seq<Bp>, k: nat, i: nat)
      requires k < |was| && cut == Cut(was, k) && i < |cut|
      ensures var j := if i < k then i else i + 1;
              cut[i] == was[j] && Successor(cut, i) == Successor(was, if j + 1 == k then k else j)
    {
    }

    lemma FirstOfCut(first: Bp?, was: seq<Bp>, cut: seq<Bp>, k: nat)
      requires k < |was| && cut == Cut(was, k) && first == if k == 0 then Successor(was, 0) else was[0]
      ensures first == if cut == [] then null else cut[0]
    {
    }

    /** delete_all_breakpoint_recursively: free the tail first, then the node. */
    method DeleteFrom(p: Bp?, ghost s: seq<Bp>, ghost used: set<Bp>)
      requires Parts(used) && Linked(p, s) && NoDuplicates(s) && Nodes(s) <= used
      requires forall q :: q in s ==> q.kind == BREAKPOINT ==> q.addr < mem.Length
      modifies this`free, this`spare, Nodes(s)`next, Nodes(s)`inUse, mem
      ensures Parts(used - Nodes(s)) && spare == s + old(spare)
      ensures Inside(old(MarksOf(s)), mem.Length) && mem[..] == RestoredUp(old(mem[..]), old(MarksOf(s)))
      decreases |s|
    {
      hide NoDuplicates, Parts, MarksOf, Linked, Nodes, Inside, RestoredUp, Freed;
      ListFacts(p, s);
      RestoredUpStep(mem[..], MarksOf(s));
      if p == null {
        assert used - Nodes(s) == used && s + spare == spare;
        return;
      }
      ghost var rest := s[1..];
      DeleteFrom(p.next, rest, used);
      FreeBp(p, used - Nodes(rest));
      assert used - Nodes(rest) - {p} == used - Nodes(s);
      assert [p] + rest == s;
    }

    lemma ListFacts(p: Bp?, s: seq<Bp>)
      requires Linked(p, s) && NoDuplicates(s)
      requires forall q :: q in s ==> q.kind == BREAKPOINT ==> q.addr < mem.Length
      ensures Inside(MarksOf(s), mem.Length)
      ensures p == null ==> s == [] && Nodes(s) == {} && MarksOf(s) == []
      ensures p != null ==>
        (s != [] && p == s[0] && p in s
        && Linked(p.next, s[1..]) && NoDuplicates(s[1..]) && (forall q :: q in s[1..] ==> q in s)
        && p in Nodes(s) && p !in Nodes(s[1..]) && Nodes(s) == Nodes(s[1..]) + {p}
        && MarksOf(s) != [] && MarksOf(s)[0] == MarkOf(p) && MarksOf(s)[1..] == MarksOf(s[1..]))
    {
    }

    /** delete_all_breakpoint */
    method DeleteAllBreakpoints()
      requires Valid()
      modifies this, nodes, mem
      ensures Valid() && Live() == [] && spare == old(live) + old(spare)
      ensures mem[..] == RestoredUp(old(mem[..]), old(Live()))
    {
      assert forall q :: q in Nodes(live) ==> q in nodes;
      DeleteFrom(head, live, Nodes(live));
      head := null;
      live := [];
      assert Nodes(old(live)) - Nodes(old(live)) == Nodes([]);
    }
  }
}
