/** The debugger's expression evaluator (nemu/src/monitor/expr.c, `eval`, `getDominPos`,
    `check_parentheses`): evaluation by splitting at the dominant operator. */
module Evaluator {
  import opened Options
  import opened Tokens
  import opened Words

  // ---------------------------------------------------------------- evaluation of token ranges

  predicate Wrapped(s: seq<Token>) {
    |s| >= 2 && s[0].kind == LPAREN && s[|s| - 1].kind == RPAREN
  }

  /** Scanning left from `i` with `depth` brackets open: the index that closes the last one. */
  function Match(s: seq<Token>, i: int, depth: int): (r: Option<nat>)
    requires -1 <= i < |s|
    ensures r.Some? ==> r.value <= i
    decreases i
  {
    if i < 0 then None else
      var d := depth - Nesting(s[i]);
      if d == 0 then Some(i) else Match(s, i - 1, d)
  }

  function Nesting(t: Token): int {
    if t.kind == LPAREN then 1 else if t.kind == RPAREN then -1 else 0
  }

  /** The position of the token visited at `i`: a closing bracket is skipped to its opening one. */
  function Landing(s: seq<Token>, i: nat): (r: Option<nat>)
    requires i < |s|
    ensures r.Some? ==> r.value <= i
  {
    if s[i].kind == RPAREN then Match(s, i, 0) else Some(i)
  }

  function Better(s: seq<Token>, pos: nat, j: nat): nat
    requires pos < |s| && j < |s|
  {
    if Priority(s[pos].kind) <= Priority(s[j].kind) then pos else j
  }

  function Scan(s: seq<Token>, i: int, pos: nat): (r: Option<nat>)
    requires -1 <= i < |s| && pos < |s|
    ensures r.Some? ==> r.value < |s|
    decreases i
  {
    if i < 0 then Some(pos) else
      match Landing(s, i)
      case None => None
      case Some(j) => Scan(s, j - 1, Better(s, pos, j))
  }

  /** The dominant operator; None where an assertion of getDominPos fails. */
  function Dominant(s: seq<Token>): (r: Option<nat>)
    requires s != []
    ensures r.Some? ==> r.value < |s| - 1
  {
    match Scan(s, |s| - 1, |s| - 1)
    case None => None
    case Some(pos) => if pos < |s| - 1 then Some(pos) else None
  }

  function Truth(b: bool): U32 { if b then 1 else 0 }

  function Wrap(n: int): U32 { n % 0x1_0000_0000 }

  /** One bit of a bitwise operator; the complement has the right operand only. */
  predicate BitOp(k: Kind, x: bool, y: bool) {
    match k
    case BOR => x || y
    case BXOR => x != y
    case BAND => x && y
    case _ => !y
  }

  /** A bitwise operator on the low w bits of its operands. */
  function Bitwise(k: Kind, a: nat, b: nat, w: nat): nat {
    if w == 0 then 0
    else 2 * Bitwise(k, a / 2, b / 2, w - 1) + if BitOp(k, a % 2 == 1, b % 2 == 1) then 1 else 0
  }

  /** What an operator means in C on 32-bit unsigned operands; None for a zero divisor. */
  function Meaning(k: Kind, a: U32, b: U32, mem: U32 -> U32): Option<U32> {
    match k
    case PLUS => Some(Wrap(a + b))
    case MINUS => Some(Wrap(a - b))
    case STAR => Some(Wrap(a * b))
    case SLASH => if b == 0 then None else Some(Quotient(a, b))
    case A => Some(Truth(a > b))
    case AE => Some(Truth(a >= b))
    case B => Some(Truth(a < b))
    case BE => Some(Truth(a <= b))
    case EQ => Some(Truth(a == b))
    case NEQ => Some(Truth(a != b))
    case AND => Some(Truth(a != 0 && b != 0))
    case OR => Some(Truth(a != 0 || b != 0))
    case BOR | BXOR | BAND => Some(Wrap(Bitwise(k, a, b, 32)))
    case NOT => Some(Truth(b == 0))
    case TILDE => Some(Wrap(Bitwise(k, 0, b, 32)))
    case DEREF => Some(mem(b))
    case OPPO => Some(Wrap(0 - b))
    case _ => None
  }

  function Quotient(a: U32, b: U32): U32
    requires b != 0
  {
    a / b
  }

  /** The switch of eval: there is no case for '>', whose label is the character 'A' instead. */
  function Apply(k: Kind, a: U32, b: U32, mem: U32 -> U32): Option<U32> {
    if k == A then None else Meaning(k, a, b, mem)
  }

  function Combine(k: Kind, a: Option<U32>, b: Option<U32>, mem: U32 -> U32): Option<U32> {
    if a.None? || b.None? then None else Apply(k, a.value, b.value, mem)
  }

  function Number(t: Token): U32 { Decimal(t.str) % 0x1_0000_0000 }

  /** eval on a token range; `mem` is vaddr_read, and None stands for an assertion or a trap. */
  function EvalRange(s: seq<Token>, mem: U32 -> U32): Option<U32>
    decreases |s|
  {
    if s == [] then Some(0xFFFF_FFFF)
    else if |s| == 1 then Some(Number(s[0]))
    else if Wrapped(s) then EvalRange(s[1..|s| - 1], mem)
    else
      match Dominant(s)
      case None => None
      case Some(op) =>
        var val1 := if IsUnary(s[op].kind) then Some(0) else EvalRange(s[..op], mem);
        Combine(s[op].kind, val1, EvalRange(s[op + 1..], mem), mem)
  }

  // ---------------------------------------------------------------- the code

  method CheckParentheses(tokens: array<Token>, p: nat, q: nat) returns (r: bool)
    requires p < q < tokens.Length
    ensures r <==> Wrapped(tokens[p..q + 1])
  {
    if tokens[p].kind == LPAREN && tokens[q].kind == RPAREN { return true; }
    var cnt, i := 0, p;
    while i <= q
      invariant i <= q + 1
    {
      if tokens[i].kind == LPAREN {
        cnt := cnt + 1;
      } else if tokens[i].kind == RPAREN {
        cnt := cnt - 1;
      }
      if cnt < 0 { return false; }
      i := i + 1;
    }
    return false;
  }

  /** The inner loop of getDominPos: from a closing bracket to the one that opens it. */
  method SkipGroup(tokens: array<Token>, p: nat, q: nat, start: nat) returns (r: Option<nat>)
    requires p <= start <= q < tokens.Length
    ensures r == match Match(tokens[p..q + 1], start - p, 0) case None => None case Some(j) => Some(p + j)
  {
    ghost var s := tokens[p..q + 1];
    var i: int, cnt := start, 0;
    while i >= p
      invariant p - 1 <= i <= start
      invariant Match(s, start - p, 0) == Match(s, i - p, cnt)
    {
      if tokens[i].kind == RPAREN {
        cnt := cnt + 1;
      } else if tokens[i].kind == LPAREN {
        cnt := cnt - 1;
      }
      if cnt == 0 { return Some(i); }
      i := i - 1;
    }
    return None;
  }

  lemma ScanStep(s: seq<Token>, i: nat, pos: nat)
    requires i < |s| && pos < |s|
    ensures Scan(s, i, pos) ==
            match Landing(s, i)
            case None => None
            case Some(j) => Scan(s, j - 1, Better(s, pos, j))
  {
  }

  lemma ScanEnd(s: seq<Token>, pos: nat)
    requires pos < |s|
    ensures Scan(s, -1, pos) == Some(pos)
  {
  }

  method GetDominPos(tokens: array<Token>, p: nat, q: nat) returns (r: Option<nat>)
    requires p <= q < tokens.Length
    ensures r == match Dominant(tokens[p..q + 1]) case None => None case Some(j) => Some(p + j)
  {
    hide Match, Scan, Priority;
    ghost var s := tokens[p..q + 1];
    var pos, i: int := q, q;
    while i >= p
      invariant p - 1 <= i <= q && p <= pos <= q
      invariant Scan(s, q - p, q - p) == Scan(s, i - p, pos - p)
    {
      ScanStep(s, i - p, pos - p);
      if tokens[i].kind == RPAREN {
        var opening := SkipGroup(tokens, p, q, i);
        if opening.None? { return None; }
        i := opening.value;
      }
      pos := if Priority(tokens[pos].kind) <= Priority(tokens[i].kind) then pos else i;
      i := i - 1;
    }
    assert Scan(s, -1, pos - p) == Some(pos - p) by { ScanEnd(s, pos - p); }
    return if pos < q then Some(pos) else None;
  }

  /** The four ways out of eval, as equations. */
  lemma EvalLeaf(s: seq<Token>, mem: U32 -> U32)
    requires |s| <= 1
    ensures EvalRange(s, mem) == if s == [] then Some(0xFFFF_FFFF) else Some(Number(s[0]))
  {
  }

  lemma EvalUnwrap(s: seq<Token>, mem: U32 -> U32)
    requires Wrapped(s)
    ensures |s| >= 2 && EvalRange(s, mem) == EvalRange(s[1..|s| - 1], mem)
  {
  }

  lemma EvalStuck(s: seq<Token>, mem: U32 -> U32)
    requires |s| >= 2 && !Wrapped(s) && Dominant(s).None?
    ensures EvalRange(s, mem).None?
  {
  }

  lemma EvalSplit(s: seq<Token>, op: nat, mem: U32 -> U32)
    requires |s| >= 2 && !Wrapped(s) && Dominant(s) == Some(op)
    ensures op + 1 < |s|
    ensures EvalRange(s, mem) ==
            Combine(s[op].kind, if IsUnary(s[op].kind) then Some(0) else EvalRange(s[..op], mem),
                    EvalRange(s[op + 1..], mem), mem)
  {
    hide Combine, Dominant, Number, IsUnary, Wrapped;
  }

  method Eval(tokens: array<Token>, p: nat, q: int, mem: U32 -> U32) returns (r: Option<U32>)
    requires p <= q + 1 <= tokens.Length
    ensures r == EvalRange(tokens[p..q + 1], mem)
    decreases q + 1 - p
  {
    hide *;
    ghost var s := tokens[p..q + 1];
    if p > q {
      EvalLeaf(s, mem);
      return Some(0xFFFF_FFFF);
    } else if p == q {
      EvalLeaf(s, mem);
      var n := Atou(tokens[p].str);
      NumberIs(tokens[p]);
      return Some(n);
    }
    var wrapped := CheckParentheses(tokens, p, q);
    if wrapped {
      EvalUnwrap(s, mem);
      assert s[1..|s| - 1] == tokens[p + 1..q];
      r := Eval(tokens, p + 1, q - 1, mem);
      return;
    }
    var dominant := GetDominPos(tokens, p, q);
    if dominant.None? {
      EvalStuck(s, mem);
      return None;
    }
    var op := dominant.value;
    EvalSplit(s, op - p, mem);
    assert s[..op - p] == tokens[p..op] && s[op - p + 1..] == tokens[op + 1..q + 1];
    var val1: Option<U32> := Some(0);
    if !IsUnary(tokens[op].kind) {
      val1 := Eval(tokens, p, op - 1, mem);
    }
    var val2 := Eval(tokens, op + 1, q, mem);
    r := Combine(tokens[op].kind, val1, val2, mem);
  }

  lemma NumberIs(t: Token)
    ensures Number(t) == Decimal(t.str) % 0x1_0000_0000
  {
  }
}
