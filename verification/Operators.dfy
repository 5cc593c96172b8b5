/** What the operators of the debugger's expressions compute, one law each, and how tightly they bind: stated
    on the values of token ranges (nemu/src/monitor/expr.c, the switch of `eval` and `priority`). */
module Operators {
  import opened Evaluator
  import opened Grammar
  import opened Options
  import opened Powers
  import opened Tokens
  import opened Words

  predicate IsNumber(t: Token, n: U32) { t.kind == NUM && n == Decimal(t.str) % 0x1_0000_0000 }

  /** The value of `x op y`, for two numbers. */
  function Infix(x: Token, op: Token, y: Token, mem: U32 -> U32): Option<U32> { EvalRange([x, op, y], mem) }

  /** The value of `op x`. */
  function Prefix(op: Token, x: Token, mem: U32 -> U32): Option<U32> { EvalRange([op, x], mem) }

  /** The operator between two numbers is the dominant one. */
  lemma InfixIs(x: Token, op: Token, y: Token, a: U32, b: U32, mem: U32 -> U32)
    requires IsNumber(x, a) && IsNumber(y, b) && IsBinary(op.kind)
    ensures Infix(x, op, y, mem) == Apply(op.kind, a, b, mem)
  {
    hide Priority, IsUnary, Number, EvalRange, Apply, Decimal, Scan;
    var s := [x, op, y];
    Kinds(op.kind);
    ScanStep(s, 2, 2);
    ScanStep(s, 1, 2);
    ScanStep(s, 0, 1);
    ScanEnd(s, 1);
    EvalSplit(s, 1, mem);
    assert s[..1] == [x] && s[2..] == [y];
    Leaf(x, a, mem);
    Leaf(y, b, mem);
  }

  lemma PrefixIs(op: Token, x: Token, a: U32, mem: U32 -> U32)
    requires IsNumber(x, a) && IsUnary(op.kind)
    ensures Prefix(op, x, mem) == Apply(op.kind, 0, a, mem)
  {
    hide Priority, IsUnary, Number, EvalRange, Apply, Decimal, Scan;
    var s := [op, x];
    Kinds(op.kind);
    ScanStep(s, 1, 1);
    ScanStep(s, 0, 1);
    ScanEnd(s, 0);
    EvalSplit(s, 0, mem);
    assert s[1..] == [x];
    Leaf(x, a, mem);
  }

  lemma Leaf(x: Token, a: U32, mem: U32 -> U32)
    requires IsNumber(x, a)
    ensures EvalRange([x], mem) == Some(a)
  {
    EvalLeaf([x], mem);
  }

  lemma Kinds(k: Kind)
    ensures IsBinary(k) || IsUnary(k) ==> Priority(k) < Priority(NUM) && k !in {NUM, LPAREN, RPAREN}
    ensures IsBinary(k) <==> !IsUnary(k) && k !in {NUM, LPAREN, RPAREN}
    ensures IsUnary(k) <==> k == DEREF || k == OPPO || k == NOT || k == TILDE
  {
  }

  // ---------------------------------------------------------------- arithmetic

  /** Sums, differences, products and negation are exact modulo 2^32. */
  lemma SumLaw(x: Token, op: Token, y: Token, a: U32, b: U32, mem: U32 -> U32)
    requires IsNumber(x, a) && IsNumber(y, b) && op.kind == PLUS
    ensures var r := Infix(x, op, y, mem);
      r.Some? && (r.value == a + b || r.value == a + b - 0x1_0000_0000)
  {
    hide Infix, Decimal;
    InfixIs(x, op, y, a, b, mem);
  }

  lemma DifferenceLaw(x: Token, op: Token, y: Token, a: U32, b: U32, mem: U32 -> U32)
    requires IsNumber(x, a) && IsNumber(y, b) && op.kind == MINUS
    ensures var r := Infix(x, op, y, mem);
      r.Some? && (r.value + b) % 0x1_0000_0000 == a
  {
    hide Infix, Decimal;
    InfixIs(x, op, y, a, b, mem);
  }

  lemma ProductLaw(x: Token, op: Token, y: Token, a: U32, b: U32, mem: U32 -> U32) returns (k: nat)
    requires IsNumber(x, a) && IsNumber(y, b) && op.kind == STAR
    ensures var r := Infix(x, op, y, mem);
      r.Some? && a * b == r.value + k * 0x1_0000_0000
  {
    hide Infix, Decimal;
    InfixIs(x, op, y, a, b, mem);
    k := a * b / 0x1_0000_0000;
  }

  /** The quotient is the largest number that fits, and there is none exactly for a zero divisor. */
  lemma QuotientLaw(x: Token, op: Token, y: Token, a: U32, b: U32, mem: U32 -> U32)
    requires IsNumber(x, a) && IsNumber(y, b) && op.kind == SLASH
    ensures var r := Infix(x, op, y, mem);
      && (r.None? <==> b == 0)
      && (r.Some? ==> r.value * b <= a < r.value * b + b)
  {
    hide Infix, Decimal;
    InfixIs(x, op, y, a, b, mem);
  }

  lemma NegationLaw(op: Token, x: Token, a: U32, mem: U32 -> U32)
    requires IsNumber(x, a) && op.kind == OPPO
    ensures var r := Prefix(op, x, mem);
      r.Some? && (r.value + a) % 0x1_0000_0000 == 0
  {
    hide Prefix, Decimal;
    PrefixIs(op, x, a, mem);
  }

  // ---------------------------------------------------------------- comparisons and logic

  /** Every comparison but `>`, and the logical operators, give 1 or 0 by what they say. */
  predicate Says(k: Kind, a: U32, b: U32)
    requires k in {AE, B, BE, EQ, NEQ, AND, OR}
  {
    match k
    case AE => b <= a
    case B => a < b
    case BE => !(b < a)
    case EQ => !(a < b || b < a)
    case NEQ => a < b || b < a
    case AND => 0 < a && 0 < b
    case OR => !(a == 0 == b)
  }

  lemma TruthLaw(x: Token, op: Token, y: Token, a: U32, b: U32, mem: U32 -> U32)
    requires IsNumber(x, a) && IsNumber(y, b) && op.kind in {AE, B, BE, EQ, NEQ, AND, OR}
    ensures Infix(x, op, y, mem) == Some(if Says(op.kind, a, b) then 1 else 0)
  {
    hide Infix, Decimal;
    InfixIs(x, op, y, a, b, mem);
  }

  /** `>` has a value in C, and none here. */
  lemma GreaterLaw(x: Token, op: Token, y: Token, a: U32, b: U32, mem: U32 -> U32)
    requires IsNumber(x, a) && IsNumber(y, b) && op.kind == A
    ensures Value(Binary(Num(x), op, Num(y)), mem) == Some(if b < a then 1 else 0)
    ensures Infix(x, op, y, mem) == None
  {
    hide Infix, Decimal;
    InfixIs(x, op, y, a, b, mem);
  }

  /** In C the right operand of `&&` after zero, and of `||` after anything else, does not matter at all; after
      the other numbers it decides alone. */
  lemma ShortCircuit(x: Token, op: Token, right: Expr, a: U32, mem: U32 -> U32)
    requires IsNumber(x, a) && (op.kind == AND || op.kind == OR)
    ensures var r, v := Value(Binary(Num(x), op, right), mem), Value(right, mem);
      if op.kind == AND && a == 0 then r == Some(0)
      else if op.kind == OR && a > 0 then r == Some(1)
      else if v.None? then r == None
      else r == Some(if v.value > 0 then 1 else 0)
  {
    NumberValue(x, a, mem);
    BinaryValue(Num(x), op, right, mem);
    LogicMeaning(op.kind, a, if Value(right, mem).Some? then Value(right, mem).value else 0, mem);
    hide Value, Meaning, Decimal;
  }

  lemma NumberValue(x: Token, a: U32, mem: U32 -> U32)
    requires IsNumber(x, a)
    ensures Value(Num(x), mem) == Some(a)
  {
    hide Decimal;
  }

  lemma BinaryValue(left: Expr, op: Token, right: Expr, mem: U32 -> U32)
    requires Value(left, mem).Some?
    ensures var a, v := Value(left, mem).value, Value(right, mem);
      Value(Binary(left, op, right), mem) ==
      if Skips(op.kind, a) then Some(if op.kind == AND then 0 else 1)
      else if v.None? then None
      else Meaning(op.kind, a, v.value, mem)
  {
    hide Skips, Meaning;
  }

  lemma LogicMeaning(k: Kind, a: U32, b: U32, mem: U32 -> U32)
    ensures k == AND ==> Meaning(k, a, b, mem) == Some(if a > 0 && b > 0 then 1 else 0)
    ensures k == OR ==> Meaning(k, a, b, mem) == Some(if a > 0 || b > 0 then 1 else 0)
  {
  }

  lemma NotLaw(op: Token, x: Token, a: U32, mem: U32 -> U32)
    requires IsNumber(x, a) && op.kind == NOT
    ensures Prefix(op, x, mem) == Some(if a == 0 then 1 else 0)
  {
    hide Prefix, Decimal;
    PrefixIs(op, x, a, mem);
  }

  lemma DereferenceLaw(op: Token, x: Token, a: U32, mem: U32 -> U32)
    requires IsNumber(x, a) && op.kind == DEREF
    ensures Prefix(op, x, mem) == Some(mem(a))
  {
    hide Prefix, Decimal;
    PrefixIs(op, x, a, mem);
  }

  // ---------------------------------------------------------------- bits

  /** The i-th bit of a number, the lowest first. */
  predicate BitOf(n: nat, i: nat) { if i == 0 then n % 2 == 1 else BitOf(n / 2, i - 1) }

  lemma {:induction false} BitwiseBit(k: Kind, a: nat, b: nat, w: nat, i: nat)
    requires i < w
    ensures BitOf(Bitwise(k, a, b, w), i) <==> BitOp(k, BitOf(a, i), BitOf(b, i))
  {
    hide BitOp;
    if i > 0 {
      BitwiseBit(k, a / 2, b / 2, w - 1, i - 1);
    }
  }

  lemma {:induction false} BitwiseBound(k: Kind, a: nat, b: nat, w: nat)
    ensures Bitwise(k, a, b, w) < Pow2(w)
  {
    if w > 0 {
      BitwiseBound(k, a / 2, b / 2, w - 1);
    }
  }

  lemma WordSize()
    ensures Pow2(32) == 0x1_0000_0000
  {
    assert Pow2(8) == 0x100;
    Pow2Add(8, 8);
    Pow2Add(16, 16);
  }

  /** No bit of a 32-bit word is lost. */
  lemma WordBit(k: Kind, a: U32, b: U32, i: nat)
    requires i < 32
    ensures BitOf(Wrap(Bitwise(k, a, b, 32)), i) <==> BitOp(k, BitOf(a, i), BitOf(b, i))
  {
    hide Bitwise, BitOf, BitOp, Pow2;
    WordSize();
    BitwiseBound(k, a, b, 32);
    BitwiseBit(k, a, b, 32, i);
  }

  /** Bit by bit: `|`, `^`, `&` and `~`. */
  lemma OrLaw(x: Token, op: Token, y: Token, a: U32, b: U32, mem: U32 -> U32, i: nat)
    requires IsNumber(x, a) && IsNumber(y, b) && op.kind == BOR && i < 32
    ensures var r := Infix(x, op, y, mem);
      r.Some? && (BitOf(r.value, i) <==> BitOf(a, i) || BitOf(b, i))
  {
    hide Infix, Prefix, Decimal, BitOf, Bitwise, Wrap;
    InfixIs(x, op, y, a, b, mem);
    WordBit(BOR, a, b, i);
  }

  lemma XorLaw(x: Token, op: Token, y: Token, a: U32, b: U32, mem: U32 -> U32, i: nat)
    requires IsNumber(x, a) && IsNumber(y, b) && op.kind == BXOR && i < 32
    ensures var r := Infix(x, op, y, mem);
      r.Some? && (BitOf(r.value, i) <==> BitOf(a, i) != BitOf(b, i))
  {
    hide Infix, Prefix, Decimal, BitOf, Bitwise, Wrap;
    InfixIs(x, op, y, a, b, mem);
    WordBit(BXOR, a, b, i);
  }

  lemma AndLaw(x: Token, op: Token, y: Token, a: U32, b: U32, mem: U32 -> U32, i: nat)
    requires IsNumber(x, a) && IsNumber(y, b) && op.kind == BAND && i < 32
    ensures var r := Infix(x, op, y, mem);
      r.Some? && (BitOf(r.value, i) <==> BitOf(a, i) && BitOf(b, i))
  {
    hide Infix, Prefix, Decimal, BitOf, Bitwise, Wrap;
    InfixIs(x, op, y, a, b, mem);
    WordBit(BAND, a, b, i);
  }

  lemma ComplementLaw(op: Token, x: Token, a: U32, mem: U32 -> U32, i: nat)
    requires IsNumber(x, a) && op.kind == TILDE && i < 32
    ensures var r := Prefix(op, x, mem);
      r.Some? && (BitOf(r.value, i) <==> !BitOf(a, i))
  {
    hide Infix, Prefix, Decimal, BitOf, Bitwise, Wrap;
    PrefixIs(op, x, a, mem);
    WordBit(TILDE, 0, a, i);
  }

  // ---------------------------------------------------------------- how tightly operators bind

  /** The classes of operators of C11 sections 6.5.3 to 6.5.14, the loosest first. */
  const CLASSES: seq<set<Kind>> := [
    {OR}, {AND}, {BOR}, {BXOR}, {BAND}, {EQ, NEQ}, {A, AE, B, BE}, {PLUS, MINUS}, {STAR, SLASH},
    {NOT, TILDE, DEREF, OPPO}
  ]

  /** The priorities are in the order of the classes, and equal within one. */
  lemma ClassesBind(i: nat, j: nat, k: Kind, l: Kind)
    requires i < |CLASSES| && j < |CLASSES| && k in CLASSES[i] && l in CLASSES[j]
    ensures Priority(k) < Priority(l) <==> i < j
    ensures IsUnary(k) <==> i == |CLASSES| - 1
    ensures IsBinary(k) <==> i < |CLASSES| - 1
  {
    ClassPriority(i, k);
    ClassPriority(j, l);
  }

  lemma ClassPriority(i: nat, k: Kind)
    requires i < |CLASSES| && k in CLASSES[i]
    ensures Priority(k) == if i < 7 then i + 3 else i + 4
    ensures IsUnary(k) <==> i == 9
    ensures IsBinary(k) <==> i < 9
  {
  }

  lemma EveryOperatorHasAClass(k: Kind) returns (i: nat)
    ensures k in {NUM, LPAREN, RPAREN} || (i < |CLASSES| && k in CLASSES[i])
  {
    i := if IsUnary(k) || k in {NUM, LPAREN, RPAREN} then 9 else if Priority(k) > 10 then Priority(k) - 4
         else Priority(k) - 3;
  }

  /** Three numbers: the right operation comes first exactly if its operator is in a tighter class. */
  lemma ThreeNumbers(x: Token, o: Token, y: Token, p: Token, z: Token, a: U32, b: U32, c: U32, i: nat, j: nat,
      mem: U32 -> U32)
    requires IsNumber(x, a) && IsNumber(y, b) && IsNumber(z, c)
    requires i < |CLASSES| - 1 && j < |CLASSES| - 1 && o.kind in CLASSES[i] && p.kind in CLASSES[j]
    ensures EvalRange([x, o, y, p, z], mem) ==
      if i < j then Combine(o.kind, Some(a), Infix(y, p, z, mem), mem)
      else Combine(p.kind, Infix(x, o, y, mem), Some(c), mem)
  {
    ClassesBind(i, j, o.kind, p.kind);
    ClassesBind(j, i, p.kind, o.kind);
    Kinds(o.kind);
    Kinds(p.kind);
    hide Priority, IsUnary, IsBinary, Number, EvalRange, Combine, Decimal, Scan, CLASSES;
    var s := [x, o, y, p, z];
    ScanStep(s, 4, 4);
    ScanStep(s, 3, 4);
    ScanStep(s, 2, 3);
    ScanStep(s, 1, 3);
    ScanStep(s, 0, if i < j then 1 else 3);
    ScanEnd(s, if i < j then 1 else 3);
    EvalSplit(s, if i < j then 1 else 3, mem);
    assert s[..1] == [x] && s[2..] == [y, p, z] && s[..3] == [x, o, y] && s[4..] == [z];
    Leaf(x, a, mem);
    Leaf(z, c, mem);
  }

  /** The product is computed first on either side of a sum. */
  lemma ProductFirst(x: Token, plus: Token, y: Token, star: Token, z: Token, a: U32, b: U32, c: U32, mem: U32 -> U32)
    requires IsNumber(x, a) && IsNumber(y, b) && IsNumber(z, c) && plus.kind == PLUS && star.kind == STAR
    ensures EvalRange([x, plus, y, star, z], mem) == Some((a + b * c) % 0x1_0000_0000)
    ensures EvalRange([x, star, y, plus, z], mem) == Some((a * b + c) % 0x1_0000_0000)
  {
    hide *;
    SumWithProduct(x, plus, y, star, z, a, b, c, mem);
    ProductWithSum(x, star, y, plus, z, a, b, c, mem);
  }

  lemma SumWithProduct(x: Token, plus: Token, y: Token, star: Token, z: Token, a: U32, b: U32, c: U32,
      mem: U32 -> U32)
    requires IsNumber(x, a) && IsNumber(y, b) && IsNumber(z, c) && plus.kind == PLUS && star.kind == STAR
    ensures EvalRange([x, plus, y, star, z], mem) == Some((a + b * c) % 0x1_0000_0000)
  {
    ClassOf();
    hide *;
    ThreeNumbers(x, plus, y, star, z, a, b, c, 7, 8, mem);
    InfixIs(y, star, z, b, c, mem);
    Arithmetic(b, c, mem);
    Wrapping(a, b * c, mem);
  }

  lemma ProductWithSum(x: Token, star: Token, y: Token, plus: Token, z: Token, a: U32, b: U32, c: U32,
      mem: U32 -> U32)
    requires IsNumber(x, a) && IsNumber(y, b) && IsNumber(z, c) && plus.kind == PLUS && star.kind == STAR
    ensures EvalRange([x, star, y, plus, z], mem) == Some((a * b + c) % 0x1_0000_0000)
  {
    ClassOf();
    hide *;
    ThreeNumbers(x, star, y, plus, z, a, b, c, 8, 7, mem);
    InfixIs(x, star, y, a, b, mem);
    Arithmetic(a, b, mem);
    Wrapping(c, a * b, mem);
  }

  lemma ClassOf()
    ensures |CLASSES| == 10 && PLUS in CLASSES[7] && MINUS in CLASSES[7] && STAR in CLASSES[8]
    ensures IsBinary(STAR) && IsBinary(MINUS)
  {
  }

  lemma Arithmetic(a: U32, b: U32, mem: U32 -> U32)
    ensures Apply(STAR, a, b, mem) == Some(Wrap(a * b)) && Apply(MINUS, a, b, mem) == Some(Wrap(a - b))
  {
    hide Wrap;
  }

  /** Reducing an operand first makes no difference. */
  lemma Wrapping(c: U32, n: int, mem: U32 -> U32)
    ensures Combine(PLUS, Some(c), Some(Wrap(n)), mem) == Some(Wrap(c + n))
    ensures Combine(PLUS, Some(Wrap(n)), Some(c), mem) == Some(Wrap(c + n))
    ensures Combine(MINUS, Some(Wrap(n)), Some(c), mem) == Some(Wrap(n - c))
    ensures Wrap(n) == n % 0x1_0000_0000 && Wrap(c + n) == (c + n) % 0x1_0000_0000
    ensures Wrap(n - c) == (n - c) % 0x1_0000_0000
  {
    WrapInside(c, n);
    WrapInside(0 - c, n);
  }

  lemma WrapInside(n: int, m: int)
    ensures (n + m % 0x1_0000_0000) % 0x1_0000_0000 == (n + m) % 0x1_0000_0000
  {
    var q, r := m / 0x1_0000_0000, m % 0x1_0000_0000;
    assert n + m == n + r + 0x1_0000_0000 * q;
    WrapMultiple(n + r, q);
  }

  /** Differences associate to the left. */
  lemma LeftFirst(x: Token, minus: Token, y: Token, minus': Token, z: Token, a: U32, b: U32, c: U32, mem: U32 -> U32)
    requires IsNumber(x, a) && IsNumber(y, b) && IsNumber(z, c) && minus.kind == minus'.kind == MINUS
    ensures EvalRange([x, minus, y, minus', z], mem) == Some((a - b - c) % 0x1_0000_0000)
  {
    ClassOf();
    hide *;
    ThreeNumbers(x, minus, y, minus', z, a, b, c, 7, 7, mem);
    InfixIs(x, minus, y, a, b, mem);
    Arithmetic(a, b, mem);
    Wrapping(c, a - b, mem);
  }
}
