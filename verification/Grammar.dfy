/** The C grammar of the debugger's expressions, and how far eval agrees with it
    (nemu/src/monitor/expr.c). */
module Grammar {
  import opened Options
  import opened Tokens
  import opened Evaluator
  import opened Words

  datatype Expr =
    | Num(number: Token)
    | Unary(op: Token, arg: Expr)
    | Binary(left: Expr, op: Token, right: Expr)
    | Paren(open: Token, inner: Expr, close: Token)

  function Level(t: Expr): nat {
    match t
    case Num(_) => 255
    case Paren(_, _, _) => 14
    case Unary(_, _) => 13
    case Binary(_, op, _) => Priority(op.kind)
  }

  /** The trees of the C grammar: operands bind tighter than their operator, and a right operand
      strictly tighter, so binary operators associate to the left. */
  predicate Grammatical(t: Expr) {
    match t
    case Num(n) => n.kind == NUM
    case Paren(open, inner, close) => open.kind == LPAREN && close.kind == RPAREN && Grammatical(inner)
    case Unary(op, arg) => IsUnary(op.kind) && Level(arg) >= 13 && Grammatical(arg)
    case Binary(left, op, right) =>
      && IsBinary(op.kind)
      && Level(left) >= Priority(op.kind) && Level(right) > Priority(op.kind)
      && Grammatical(left) && Grammatical(right)
  }

  function Print(t: Expr): (s: seq<Token>)
    ensures |s| >= 1
  {
    match t
    case Num(n) => [n]
    case Paren(open, inner, close) => [open] + Print(inner) + [close]
    case Unary(op, arg) => [op] + Print(arg)
    case Binary(left, op, right) => Print(left) + [op] + Print(right)
  }

  /** The value of the tree with both operands of every operation computed, on 32-bit unsigned numbers;
      None where a divisor is zero. */
  function Eager(t: Expr, mem: U32 -> U32): Option<U32> {
    match t
    case Num(n) => Some(Number(n))
    case Paren(_, inner, _) => Eager(inner, mem)
    case Unary(op, arg) =>
      var v := Eager(arg, mem);
      if v.None? then None else Meaning(op.kind, 0, v.value, mem)
    case Binary(left, op, right) =>
      var a, b := Eager(left, mem), Eager(right, mem);
      if a.None? || b.None? then None else Meaning(op.kind, a.value, b.value, mem)
  }

  /** The left operand alone decides: `&&` after zero, `||` after anything else (C11 sections 6.5.13 and
      6.5.14). */
  predicate Skips(k: Kind, a: U32) { (k == AND && a == 0) || (k == OR && a != 0) }

  /** The value C gives the tree: as above, but a right operand that is skipped may have none. */
  function Value(t: Expr, mem: U32 -> U32): Option<U32> {
    match t
    case Num(n) => Some(Number(n))
    case Paren(_, inner, _) => Value(inner, mem)
    case Unary(op, arg) =>
      var v := Value(arg, mem);
      if v.None? then None else Meaning(op.kind, 0, v.value, mem)
    case Binary(left, op, right) =>
      var a := Value(left, mem);
      if a.None? then None
      else if Skips(op.kind, a.value) then Some(if op.kind == AND then 0 else 1)
      else
        var b := Value(right, mem);
        if b.None? then None else Meaning(op.kind, a.value, b.value, mem)
  }

  /** Where computing every operand gives a value, it is C's. */
  lemma {:induction false} EagerIsValue(t: Expr, mem: U32 -> U32)
    requires Eager(t, mem).Some?
    ensures Value(t, mem) == Eager(t, mem)
  {
    hide Meaning;
    match t
    case Num(_) =>
    case Paren(_, inner, _) => EagerIsValue(inner, mem);
    case Unary(_, arg) => EagerIsValue(arg, mem);
    case Binary(left, op, right) =>
      EagerIsValue(left, mem);
      EagerIsValue(right, mem);
      SkippedMeaning(op.kind, Value(left, mem).value, Value(right, mem).value, mem);
  }

  lemma SkippedMeaning(k: Kind, a: U32, b: U32, mem: U32 -> U32)
    ensures Skips(k, a) ==> Meaning(k, a, b, mem) == Some(if k == AND then 0 else 1)
  {
  }

  // ---------------------------------------------------------------- where eval departs from C

  predicate UsesGreater(t: Expr) {
    match t
    case Num(_) => false
    case Paren(_, inner, _) => UsesGreater(inner)
    case Unary(_, arg) => UsesGreater(arg)
    case Binary(left, op, right) => op.kind == A || UsesGreater(left) || UsesGreater(right)
  }

  /** Some binary operation, as in `(a)+(b)`, opens with one bracket and closes with another. */
  predicate HasSplitParens(t: Expr) {
    match t
    case Num(_) => false
    case Paren(_, inner, _) => HasSplitParens(inner)
    case Unary(_, arg) => HasSplitParens(arg)
    case Binary(left, _, right) => Wrapped(Print(t)) || HasSplitParens(left) || HasSplitParens(right)
  }

  predicate HasStackedUnary(t: Expr) {
    match t
    case Num(_) => false
    case Paren(_, inner, _) => HasStackedUnary(inner)
    case Unary(_, arg) => arg.Unary? || HasStackedUnary(arg)
    case Binary(left, _, right) => HasStackedUnary(left) || HasStackedUnary(right)
  }

  /** Only the innermost operator of a stack of unary operators is kept. */
  function Collapse(t: Expr): (r: Expr)
    ensures !HasStackedUnary(t) ==> r == t
    ensures !HasStackedUnary(r) && (t.Unary? <==> r.Unary?)
  {
    match t
    case Num(_) => t
    case Paren(open, inner, close) => Paren(open, Collapse(inner), close)
    case Unary(op, arg) => if arg.Unary? then Collapse(arg) else Unary(op, Collapse(arg))
    case Binary(left, op, right) => Binary(Collapse(left), op, Collapse(right))
  }

  // ---------------------------------------------------------------- scanning a printed tree

  /** The tokens of `t` stand at index `a` of `s`. */
  predicate At(s: seq<Token>, a: nat, t: Expr)
    decreases t
  {
    && a + Length(t) <= |s|
    && match t
       case Num(n) => s[a] == n
       case Paren(open, inner, close) =>
         s[a] == open && At(s, a + 1, inner) && s[a + 1 + Length(inner)] == close
       case Unary(op, arg) => s[a] == op && At(s, a + 1, arg)
       case Binary(left, op, right) =>
         At(s, a, left) && s[a + Length(left)] == op && At(s, a + Length(left) + 1, right)
  }

  function Length(t: Expr): (n: nat)
    ensures n >= 1
  {
    match t
    case Num(_) => 1
    case Paren(_, inner, _) => Length(inner) + 2
    case Unary(_, arg) => Length(arg) + 1
    case Binary(left, _, right) => Length(left) + 1 + Length(right)
  }

  lemma {:induction false} PrintLength(t: Expr)
    ensures |Print(t)| == Length(t)
  {
    match t
    case Num(_) =>
    case Paren(_, inner, _) => PrintLength(inner);
    case Unary(_, arg) => PrintLength(arg);
    case Binary(left, _, right) =>
      PrintLength(left);
      PrintLength(right);
  }

  lemma {:induction false} PrintAt(pre: seq<Token>, t: Expr, post: seq<Token>)
    ensures At(pre + Print(t) + post, |pre|, t)
    decreases t
  {
    match t
    case Num(n) =>
    case Paren(open, inner, close) =>
      hide At;
      PrintAt(pre + [open], inner, [close] + post);
      PrintAtParen(pre, t, post);
    case Unary(op, arg) =>
      hide At;
      PrintAt(pre + [op], arg, post);
      PrintAtUnary(pre, t, post);
    case Binary(left, op, right) =>
      hide At;
      PrintAt(pre, left, [op] + Print(right) + post);
      PrintAt(pre + Print(left) + [op], right, post);
      PrintAtBinary(pre, t, post);
  }

  lemma Regroup(pre: seq<Token>, x: Token, w: seq<Token>, y: seq<Token>, post: seq<Token>)
    ensures pre + ([x] + w + y) + post == (pre + [x]) + w + (y + post)
    ensures (pre + ([x] + w + y) + post)[|pre|] == x
  {
  }

  lemma Attach(pre: seq<Token>, x: Token, w: seq<Token>, post: seq<Token>)
    ensures pre + ([x] + w) + post == (pre + [x]) + w + post
    ensures (pre + ([x] + w) + post)[|pre|] == x
  {
  }

  lemma Detach(pre: seq<Token>, v: seq<Token>, x: Token, w: seq<Token>, post: seq<Token>)
    ensures pre + (v + [x] + w) + post == pre + v + ([x] + w + post)
    ensures pre + (v + [x] + w) + post == (pre + v) + ([x] + w) + post
  {
  }

  lemma PrintAtParen(pre: seq<Token>, t: Expr, post: seq<Token>)
    requires t.Paren? && At((pre + [t.open]) + Print(t.inner) + ([t.close] + post), |pre| + 1, t.inner)
    ensures At(pre + Print(t) + post, |pre|, t)
  {
    var s, w := pre + Print(t) + post, Print(t.inner);
    PrintLength(t.inner);
    assert Print(t) == [t.open] + w + [t.close];
    hide Print;
    Regroup(pre, t.open, w, [t.close], post);
    assert s[|pre| + 1 + |w|] == t.close;
  }

  lemma PrintAtUnary(pre: seq<Token>, t: Expr, post: seq<Token>)
    requires t.Unary? && At((pre + [t.op]) + Print(t.arg) + post, |pre| + 1, t.arg)
    ensures At(pre + Print(t) + post, |pre|, t)
  {
    var s := pre + Print(t) + post;
    assert Print(t) == [t.op] + Print(t.arg);
    hide Print;
    Attach(pre, t.op, Print(t.arg), post);
  }

  lemma PrintAtBinary(pre: seq<Token>, t: Expr, post: seq<Token>)
    requires t.Binary?
    requires At(pre + Print(t.left) + ([t.op] + Print(t.right) + post), |pre|, t.left)
    requires At((pre + Print(t.left) + [t.op]) + Print(t.right) + post, |pre| + |Print(t.left)| + 1, t.right)
    ensures At(pre + Print(t) + post, |pre|, t)
  {
    hide At, Length;
    var s, w := pre + Print(t) + post, Print(t.left);
    PrintLength(t.left);
    assert Print(t) == w + [t.op] + Print(t.right);
    hide Print;
    Attach(pre + w, t.op, Print(t.right), post);
    Detach(pre, w, t.op, Print(t.right), post);
    AtBinary(s, |pre|, t);
  }

  lemma AtBinary(s: seq<Token>, a: nat, t: Expr)
    requires t.Binary? && At(s, a, t.left) && At(s, a + Length(t.left) + 1, t.right)
    ensures a + Length(t.left) < |s| && (s[a + Length(t.left)] == t.op ==> At(s, a, t))
  {
    AtInside(s, a + Length(t.left) + 1, t.right);
  }

  lemma AtInside(s: seq<Token>, a: nat, t: Expr)
    requires At(s, a, t)
    ensures a + Length(t) <= |s|
  {
  }

  lemma PrintBinary(t: Expr)
    requires t.Binary?
    ensures |Print(t)| == |Print(t.left)| + 1 + |Print(t.right)|
    ensures Print(t)[..|Print(t.left)|] == Print(t.left)
    ensures Print(t)[|Print(t.left)|] == t.op && Print(t)[|Print(t.left)| + 1..] == Print(t.right)
  {
  }

  /** What stands where, node by node. */
  lemma NumNode(s: seq<Token>, a: nat, t: Expr)
    requires At(s, a, t) && Grammatical(t) && t.Num?
    ensures Length(t) == 1 && a < |s| && s[a].kind == NUM
    ensures Priority(s[a].kind) == Level(t) == 255
  {
  }

  lemma ParenNode(s: seq<Token>, a: nat, t: Expr)
    requires At(s, a, t) && Grammatical(t) && t.Paren?
    ensures Length(t) == Length(t.inner) + 2 && a + 1 + Length(t.inner) < |s|
    ensures s[a].kind == LPAREN && s[a + 1 + Length(t.inner)].kind == RPAREN
    ensures At(s, a + 1, t.inner) && Grammatical(t.inner)
    ensures Priority(LPAREN) == Priority(RPAREN) == Level(t) == 14
  {
  }

  lemma UnaryNode(s: seq<Token>, a: nat, t: Expr)
    requires At(s, a, t) && Grammatical(t) && t.Unary?
    ensures Length(t) == Length(t.arg) + 1 && a < |s| && Nesting(s[a]) == 0 && s[a].kind != RPAREN
    ensures At(s, a + 1, t.arg) && Grammatical(t.arg)
    ensures Priority(s[a].kind) == Level(t) == 13 && Level(t.arg) >= 13
    ensures t.arg.Unary? <==> Level(t.arg) == 13
  {
    hide Priority, IsUnary, IsBinary, Nesting;
    UnaryKind(t.op);
    if t.arg.Binary? { BinaryKind(t.arg.op); }
  }

  lemma UnaryKind(op: Token)
    ensures IsUnary(op.kind) ==> Priority(op.kind) == 13 && Nesting(op) == 0 && op.kind != RPAREN
  {
  }

  lemma BinaryKind(op: Token)
    ensures IsBinary(op.kind) ==> Priority(op.kind) < 13 && Nesting(op) == 0 && op.kind != RPAREN
  {
  }

  lemma BinaryNode(s: seq<Token>, a: nat, t: Expr)
    requires At(s, a, t) && Grammatical(t) && t.Binary?
    ensures Length(t) == Length(t.left) + 1 + Length(t.right) && a + Length(t.left) < |s|
    ensures Nesting(s[a + Length(t.left)]) == 0 && s[a + Length(t.left)].kind != RPAREN
    ensures At(s, a, t.left) && At(s, a + Length(t.left) + 1, t.right)
    ensures Grammatical(t.left) && Grammatical(t.right)
    ensures Priority(s[a + Length(t.left)].kind) == Level(t) <= Level(t.left)
    ensures Level(t) < Level(t.right)
  {
    hide Priority, IsUnary, IsBinary, Nesting;
    BinaryKind(t.op);
  }

  lemma NoNesting(t: Token)
    ensures t.kind == NUM ==> Nesting(t) == 0
  {
  }

  lemma Bracketing(open: Token, close: Token)
    ensures open.kind == LPAREN ==> Nesting(open) == 1
    ensures close.kind == RPAREN ==> Nesting(close) == -1
  {
  }

  /** A printed tree is balanced: scanning over it inside brackets changes nothing. */
  lemma {:induction false} MatchOver(s: seq<Token>, a: nat, t: Expr, depth: nat)
    requires At(s, a, t) && Grammatical(t) && depth >= 1
    ensures a + Length(t) <= |s|
    ensures Match(s, a + Length(t) - 1, depth) == Match(s, a - 1, depth)
    decreases t
  {
    hide At, Grammatical, Length, Priority, Level, Nesting;
    match t
    case Num(_) =>
      NumNode(s, a, t);
      NoNesting(s[a]);
    case Paren(_, inner, _) =>
      ParenNode(s, a, t);
      Bracketing(s[a], s[a + 1 + Length(inner)]);
      MatchOver(s, a + 1, inner, depth + 1);
    case Unary(_, arg) =>
      UnaryNode(s, a, t);
      MatchOver(s, a + 1, arg, depth);
    case Binary(left, _, right) =>
      BinaryNode(s, a, t);
      MatchOver(s, a + Length(left) + 1, right, depth);
      MatchOver(s, a, left, depth);
  }

  lemma MatchParen(s: seq<Token>, a: nat, t: Expr)
    requires At(s, a, t) && Grammatical(t) && t.Paren?
    ensures a + Length(t) <= |s|
    ensures Match(s, a + Length(t) - 1, 0) == Some(a)
  {
    hide At, Grammatical, Length, Priority, Level;
    ParenNode(s, a, t);
    MatchOver(s, a + 1, t.inner, 1);
  }

  /** Where the dominant operator of a printed tree is. */
  function Offset(t: Expr): (r: nat)
    ensures r < Length(t)
  {
    match t
    case Num(_) => 0
    case Paren(_, _, _) => 0
    case Unary(_, arg) => if arg.Unary? then 1 + Offset(arg) else 0
    case Binary(left, _, _) => Length(left)
  }

  lemma {:induction false} OffsetLevel(s: seq<Token>, a: nat, t: Expr)
    requires At(s, a, t) && Grammatical(t)
    ensures a + Length(t) <= |s|
    ensures Priority(s[a + Offset(t)].kind) == Level(t)
    decreases t
  {
    hide At, Grammatical, Length, Priority, Level;
    match t
    case Num(_) => NumNode(s, a, t);
    case Paren(_, _, _) => ParenNode(s, a, t);
    case Unary(_, arg) =>
      UnaryNode(s, a, t);
      if arg.Unary? { OffsetLevel(s, a + 1, t.arg); } else { AtInside(s, a, t); }
    case Binary(_, _, right) =>
      BinaryNode(s, a, t);
      OffsetLevel(s, a + Length(t.left) + 1, right);
  }

  /** The better of a position and the dominant operator of the tree printed at `a`. */
  function Pick(s: seq<Token>, pos: nat, t: Expr, a: nat): (r: nat)
    requires pos < |s|
  {
    if Priority(s[pos].kind) <= Level(t) then pos else a + Offset(t)
  }

  /** getDominPos leaves a printed tree with the better of the position it came with and the tree's
      own dominant operator. */
  lemma {:induction false} ScanOver(s: seq<Token>, a: nat, t: Expr, pos: nat)
    requires At(s, a, t) && Grammatical(t) && pos < |s|
    ensures a + Length(t) <= |s| && Pick(s, pos, t, a) < |s|
    ensures Scan(s, a + Length(t) - 1, pos) == Scan(s, a - 1, Pick(s, pos, t, a))
    decreases t
  {
    hide At, Grammatical, Length, Priority, Level, Scan, Match, Pick, Offset, Better, Nesting;
    PickInside(s, pos, t, a);
    match t {
      case Num(_) =>
        NumNode(s, a, t);
        ScanStep(s, a, pos);
        PickBracket(s, pos, t, a);
      case Paren(_, inner, _) =>
        ParenNode(s, a, t);
        ScanStep(s, a + Length(t) - 1, pos);
        MatchParen(s, a, t);
        PickBracket(s, pos, t, a);
      case Unary(_, arg) =>
        UnaryNode(s, a, t);
        ScanOver(s, a + 1, arg, pos);
        NotClosing(s[a]);
        ScanStep(s, a, Pick(s, pos, arg, a + 1));
        PickUnary(s, pos, t, a);
      case Binary(left, op, right) =>
        BinaryNode(s, a, t);
        var m := a + Length(left);
        ScanOver(s, m + 1, right, pos);
        var pos1 := Pick(s, pos, right, m + 1);
        ScanStep(s, m, pos1);
        BetterInside(s, pos1, m);
        ScanOver(s, a, left, Better(s, pos1, m));
        PickBinary(s, pos, t, a);
    }
  }

  lemma NotClosing(t: Token)
    ensures Nesting(t) == 0 ==> t.kind != RPAREN
  {
  }

  lemma BetterInside(s: seq<Token>, pos: nat, j: nat)
    requires pos < |s| && j < |s|
    ensures Better(s, pos, j) < |s|
  {
  }

  lemma PickInside(s: seq<Token>, pos: nat, t: Expr, a: nat)
    requires At(s, a, t) && Grammatical(t) && pos < |s|
    ensures a + Length(t) <= |s| && Pick(s, pos, t, a) < |s|
  {
    hide At, Grammatical, Priority, Level;
    OffsetLevel(s, a, t);
  }

  lemma PickBracket(s: seq<Token>, pos: nat, t: Expr, a: nat)
    requires At(s, a, t) && Grammatical(t) && pos < |s| && (t.Num? || t.Paren?)
    ensures a + Length(t) <= |s| && Pick(s, pos, t, a) == Better(s, pos, a)
  {
    hide At, Grammatical, Priority, Level, Length;
    OffsetLevel(s, a, t);
  }

  lemma PickUnary(s: seq<Token>, pos: nat, t: Expr, a: nat)
    requires At(s, a, t) && Grammatical(t) && pos < |s| && t.Unary?
    ensures a + Length(t) <= |s| && Pick(s, pos, t.arg, a + 1) < |s|
    ensures Pick(s, pos, t, a) == Better(s, Pick(s, pos, t.arg, a + 1), a)
  {
    hide At, Grammatical, Priority, Level, Length;
    UnaryNode(s, a, t);
    OffsetLevel(s, a, t);
    OffsetLevel(s, a + 1, t.arg);
  }

  lemma PickBinary(s: seq<Token>, pos: nat, t: Expr, a: nat)
    requires At(s, a, t) && Grammatical(t) && pos < |s| && t.Binary?
    ensures var m := a + Length(t.left);
      && m + 1 + Length(t.right) <= |s| && Pick(s, pos, t.right, m + 1) < |s|
      && Better(s, Pick(s, pos, t.right, m + 1), m) < |s|
      && Pick(s, pos, t, a) == Pick(s, Better(s, Pick(s, pos, t.right, m + 1), m), t.left, a)
  {
    hide At, Grammatical, Priority, Level, Length;
    BinaryNode(s, a, t);
    OffsetLevel(s, a, t);
    OffsetLevel(s, a, t.left);
    OffsetLevel(s, a + Length(t.left) + 1, t.right);
  }

  lemma {:induction false} LastToken(s: seq<Token>, a: nat, t: Expr)
    requires At(s, a, t) && Grammatical(t)
    ensures a + Length(t) <= |s|
    ensures Priority(s[a + Length(t) - 1].kind) >= 14
    decreases t
  {
    hide At, Grammatical, Length, Priority, Level;
    match t
    case Num(_) => NumNode(s, a, t);
    case Paren(_, _, _) => ParenNode(s, a, t);
    case Unary(_, arg) =>
      UnaryNode(s, a, t);
      LastToken(s, a + 1, arg);
    case Binary(left, _, right) =>
      BinaryNode(s, a, t);
      LastToken(s, a + Length(left) + 1, right);
  }

  lemma PrintedAt(t: Expr)
    ensures At(Print(t), 0, t) && |Print(t)| == Length(t)
  {
    hide At, Print, Length;
    PrintLength(t);
    PrintAt([], t, []);
    assert [] + Print(t) + [] == Print(t);
  }

  /** The dominant operator of a printed tree is its root; of stacked unary operators, the innermost. */
  lemma DominantIsRoot(t: Expr)
    requires Grammatical(t) && (t.Unary? || t.Binary?)
    ensures Dominant(Print(t)) == Some(Offset(t))
  {
    hide At, Scan, Print, Match, Length, Level, Grammatical, Priority, Offset;
    var s := Print(t);
    PrintedAt(t);
    LastToken(s, 0, t);
    LongPrint(t);
    ScanOver(s, 0, t, |s| - 1);
    ScanEnd(s, Offset(t));
  }

  lemma LongPrint(t: Expr)
    requires Grammatical(t) && (t.Unary? || t.Binary?)
    ensures Level(t) <= 13 && Offset(t) < Length(t) - 1
  {
  }

  // ---------------------------------------------------------------- brackets that do not belong together

  function Balance(s: seq<Token>): int {
    if s == [] then 0 else Balance(s[..|s| - 1]) + Nesting(s[|s| - 1])
  }

  lemma BalanceStep(s: seq<Token>, k: nat)
    requires k < |s|
    ensures Balance(s[..k + 1]) == Balance(s[..k]) + Nesting(s[k])
  {
    assert s[..k + 1][..k] == s[..k];
  }

  lemma {:induction false} BalanceConcat(s: seq<Token>, w: seq<Token>)
    ensures Balance(s + w) == Balance(s) + Balance(w)
    decreases |w|
  {
    if w == [] {
      assert s + w == s;
    } else {
      var front := w[..|w| - 1];
      BalanceConcat(s, front);
      assert (s + w)[..|s + w| - 1] == s + front;
    }
  }

  lemma BalanceOne(t: Token)
    ensures Balance([t]) == Nesting(t)
  {
    assert [t][..0] == [];
  }

  lemma {:induction false} PrintBalanced(t: Expr)
    requires Grammatical(t)
    ensures Balance(Print(t)) == 0
  {
    hide Balance;
    match t
    case Num(n) => BalanceOne(n);
    case Paren(open, inner, close) =>
      PrintBalanced(inner);
      BalanceOne(open);
      BalanceOne(close);
      BalanceConcat([open], Print(inner));
      BalanceConcat([open] + Print(inner), [close]);
    case Unary(op, arg) =>
      PrintBalanced(arg);
      BalanceOne(op);
      BalanceConcat([op], Print(arg));
    case Binary(left, op, right) =>
      PrintBalanced(left);
      PrintBalanced(right);
      BalanceOne(op);
      BalanceConcat(Print(left), [op]);
      BalanceConcat(Print(left) + [op], Print(right));
  }

  /** A bracket scan that stops has found exactly the nesting it set out for, and no less on the way. */
  lemma {:induction false} MatchMeets(s: seq<Token>, i: nat, depth: nat)
    requires i < |s| && depth - Nesting(s[i]) >= 1
    ensures
      match Match(s, i, depth)
      case None => true
      case Some(j) =>
        && Balance(s[..j]) == Balance(s[..i + 1]) - depth
        && forall k :: j < k <= i ==> Balance(s[..k]) > Balance(s[..i + 1]) - depth
    decreases i
  {
    hide Balance;
    BalanceStep(s, i);
    var d := depth - Nesting(s[i]);
    if i > 0 {
      if d - Nesting(s[i - 1]) >= 1 {
        MatchMeets(s, i - 1, d);
      } else {
        BalanceStep(s, i - 1);
      }
    }
  }

  /** No bracket group reaches back over the first bracket that closes before it is opened. */
  lemma LandsAbove(s: seq<Token>, k: nat, i: nat)
    requires 0 < k <= i + 1 <= |s| && s[i].kind == RPAREN
    requires Balance(s[..k]) == -1 && forall j :: 0 <= j < k ==> Balance(s[..j]) >= 0
    ensures Match(s, i, 0).Some? ==> Match(s, i, 0).value >= k
  {
    hide Balance, Match;
    MatchMeets(s, i, 0);
    match Match(s, i, 0)
    case None =>
    case Some(j) => AboveBreak(s, k, i, j);
  }

  lemma AboveBreak(s: seq<Token>, k: nat, i: nat, j: nat)
    requires 0 < k <= i + 1 <= |s| && j <= i
    requires Balance(s[..k]) == -1 && forall x :: 0 <= x < k ==> Balance(s[..x]) >= 0
    requires Balance(s[..j]) == Balance(s[..i + 1])
    requires forall x :: j < x <= i ==> Balance(s[..x]) > Balance(s[..i + 1])
    ensures j >= k
  {
    hide Balance;
  }

  /** The scan for the dominant operator dies on a bracket that closes before it is opened. */
  lemma {:induction false} ScanStuck(s: seq<Token>, k: nat, i: nat, pos: nat)
    requires 0 < k <= i + 1 <= |s| && pos < |s|
    requires Balance(s[..k]) == -1 && forall j :: 0 <= j < k ==> Balance(s[..j]) >= 0
    ensures Scan(s, i, pos).None?
    decreases i
  {
    hide Balance, Priority, Match, Scan;
    BalanceStep(s, k - 1);
    ScanStep(s, i, pos);
    match Landing(s, i)
    case None =>
    case Some(j) =>
      if s[i].kind == RPAREN {
        LandsAbove(s, k, i);
      }
      ScanStuck(s, k, j - 1, Better(s, pos, j));
  }

  lemma {:induction false} FirstBreak(s: seq<Token>, k: nat) returns (m: nat)
    requires k <= |s| && Balance(s[..k]) < 0
    ensures 0 < m <= k && Balance(s[..m]) == -1
    ensures forall j :: 0 <= j < m ==> Balance(s[..j]) >= 0
  {
    assert s[..0] == [] && Balance([]) == 0;
    hide Balance;
    m := 1;
    BalanceStep(s, 0);
    while Balance(s[..m]) >= 0
      invariant 0 < m <= k
      invariant forall j :: 0 <= j < m ==> Balance(s[..j]) >= 0
      invariant Balance(s[..m]) >= -1
      decreases k - m
    {
      BalanceStep(s, m);
      m := m + 1;
    }
  }

  lemma BrokenIsLong(s: seq<Token>, m: nat)
    requires Balance(s) == 0 && m <= |s| && Balance(s[..m]) < 0
    ensures m < |s|
  {
    assert s[..|s|] == s;
  }

  /** eval aborts on any range that is balanced over all but has a bracket that closes before it is
      opened, also after peeling off outer brackets. */
  lemma {:induction false} BrokenAborts(s: seq<Token>, k: nat, mem: U32 -> U32)
    requires Balance(s) == 0 && k <= |s| && Balance(s[..k]) < 0
    ensures EvalRange(s, mem).None?
    decreases |s|
  {
    hide Balance, Scan, Match, EvalRange, Nesting;
    var m := FirstBreak(s, k);
    BrokenIsLong(s, m);
    if Wrapped(s) {
      EvalUnwrap(s, mem);
      var inner := s[1..|s| - 1];
      PeelAll(s, inner);
      Peel(s, inner, m);
      BrokenAborts(inner, m - 1, mem);
    } else {
      ScanStuck(s, m, |s| - 1, |s| - 1);
      EvalStuck(s, mem);
    }
  }

  lemma Peel(s: seq<Token>, inner: seq<Token>, k: nat)
    requires Wrapped(s) && inner == s[1..|s| - 1] && 1 <= k <= |s| - 1
    ensures Balance(s[..k]) == 1 + Balance(inner[..k - 1])
  {
    hide Balance;
    InnerPrefix(s, inner, k);
    BalanceConcat([s[0]], inner[..k - 1]);
    BalanceOne(s[0]);
  }

  lemma InnerPrefix(s: seq<Token>, inner: seq<Token>, k: nat)
    requires |s| >= 2 && inner == s[1..|s| - 1] && 1 <= k <= |s| - 1
    ensures s[..k] == [s[0]] + inner[..k - 1]
  {
    forall i | 0 <= i < k ensures s[..k][i] == ([s[0]] + inner[..k - 1])[i] {
      if i > 0 {
        assert inner[i - 1] == s[i];
      }
    }
  }

  lemma PeelAll(s: seq<Token>, inner: seq<Token>)
    requires Wrapped(s) && inner == s[1..|s| - 1]
    ensures Balance(s) == Balance(inner)
  {
    hide Balance;
    assert s[..|s|] == s;
    assert inner[..|inner|] == inner;
    Peel(s, inner, |s| - 1);
    BalanceStep(s, |s| - 1);
  }

  /** An operation such as `(a)+(b)` never gets past getDominPos. */
  lemma SplitParensAbort(t: Expr, mem: U32 -> U32)
    requires Grammatical(t) && t.Binary? && Wrapped(Print(t))
    ensures EvalRange(Print(t), mem).None?
  {
    hide Balance, EvalRange, Print;
    var s, n := Print(t), |Print(t.left)|;
    var inner := s[1..|s| - 1];
    PrintBinary(t);
    PrintBalanced(t);
    PrintBalanced(t.left);
    EvalUnwrap(s, mem);
    PeelAll(s, inner);
    Peel(s, inner, n);
    BrokenAborts(inner, n - 1, mem);
  }

  // ---------------------------------------------------------------- what eval computes

  /** On every expression of the grammar: eval aborts on '>' and on split brackets, and otherwise
      computes every operand of the expression with each stack of unary operators cut to its innermost. */
  function Evaluated(t: Expr, mem: U32 -> U32): Option<U32> {
    if UsesGreater(t) || HasSplitParens(t) then None else Eager(Collapse(t), mem)
  }

  lemma {:induction false} EvalPrint(t: Expr, mem: U32 -> U32)
    requires Grammatical(t)
    ensures EvalRange(Print(t), mem) == Evaluated(t, mem)
  {
    hide EvalRange, Print, Evaluated, Combine;
    EvaluatedParts(t, mem);
    match t
    case Num(_) => EvalNum(t, mem);
    case Paren(_, inner, _) =>
      EvalPrint(inner, mem);
      EvalParen(t, mem);
    case Unary(_, arg) =>
      EvalPrint(arg, mem);
      EvalUnary(t, mem);
    case Binary(left, _, right) =>
      EvalPrint(left, mem);
      EvalPrint(right, mem);
      EvalBinary(t, mem);
  }

  lemma EvaluatedParts(t: Expr, mem: U32 -> U32)
    requires Grammatical(t)
    ensures Evaluated(t, mem) ==
            match t
            case Num(n) => Some(Number(n))
            case Paren(_, inner, _) => Evaluated(inner, mem)
            case Unary(op, arg) =>
              if arg.Unary? then Evaluated(arg, mem) else Combine(op.kind, Some(0), Evaluated(arg, mem), mem)
            case Binary(left, op, right) =>
              if Wrapped(Print(t)) then None
              else Combine(op.kind, Evaluated(left, mem), Evaluated(right, mem), mem)
  {
    hide Meaning, Priority, Number;
  }

  lemma EvalNum(t: Expr, mem: U32 -> U32)
    requires t.Num?
    ensures EvalRange(Print(t), mem) == Some(Number(t.number))
  {
    EvalLeaf(Print(t), mem);
  }

  lemma EvalParen(t: Expr, mem: U32 -> U32)
    requires Grammatical(t) && t.Paren?
    ensures EvalRange(Print(t), mem) == EvalRange(Print(t.inner), mem)
  {
    hide EvalRange;
    var s := Print(t);
    EvalUnwrap(s, mem);
    assert s[1..|s| - 1] == Print(t.inner);
  }

  lemma EvalBinary(t: Expr, mem: U32 -> U32)
    requires Grammatical(t) && t.Binary?
    ensures EvalRange(Print(t), mem) ==
            if Wrapped(Print(t)) then None
            else Combine(t.op.kind, EvalRange(Print(t.left), mem), EvalRange(Print(t.right), mem), mem)
  {
    hide EvalRange, Combine, Dominant, Print, Priority;
    if Wrapped(Print(t)) {
      SplitParensAbort(t, mem);
    } else {
      PrintBinary(t);
      PrintLength(t.left);
      DominantIsRoot(t);
      EvalSplit(Print(t), |Print(t.left)|, mem);
    }
  }

  lemma UnaryNotWrapped(t: Expr)
    requires Grammatical(t) && t.Unary?
    ensures |Print(t)| >= 2 && !Wrapped(Print(t)) && Offset(t) < |Print(t)|
    ensures IsUnary(Print(t)[Offset(t)].kind)
  {
    PrintedAt(t);
    OffsetLevel(Print(t), 0, t);
  }

  /** A unary operator applies to its operand's value unless that is itself a unary operation, whose
      value then is the whole expression's. */
  lemma EvalUnary(t: Expr, mem: U32 -> U32)
    requires Grammatical(t) && t.Unary?
    ensures EvalRange(Print(t), mem) ==
            if t.arg.Unary? then EvalRange(Print(t.arg), mem)
            else Combine(t.op.kind, Some(0), EvalRange(Print(t.arg), mem), mem)
  {
    hide *;
    PrintUnary(t);
    UnaryDominant(t);
    EvalSplit(Print(t), Offset(t), mem);
    if t.arg.Unary? {
      UnaryDominant(t.arg);
      EvalSplit(Print(t.arg), Offset(t.arg), mem);
      Shifted(Print(t), Print(t.arg), Offset(t.arg));
    }
  }

  lemma PrintUnary(t: Expr)
    requires Grammatical(t) && t.Unary?
    ensures |Print(t)| >= 1 && Print(t)[0] == t.op && Print(t)[1..] == Print(t.arg)
    ensures Grammatical(t.arg) && IsUnary(t.op.kind)
    ensures Offset(t) == if t.arg.Unary? then 1 + Offset(t.arg) else 0
  {
  }

  lemma UnaryDominant(t: Expr)
    requires Grammatical(t) && t.Unary?
    ensures |Print(t)| >= 2 && !Wrapped(Print(t)) && Offset(t) < |Print(t)|
    ensures Dominant(Print(t)) == Some(Offset(t)) && IsUnary(Print(t)[Offset(t)].kind)
  {
    DominantIsRoot(t);
    UnaryNotWrapped(t);
  }

  lemma Shifted(s: seq<Token>, w: seq<Token>, op: nat)
    requires |s| >= 1 && s[1..] == w && op < |w|
    ensures s[1 + op] == w[op] && s[2 + op..] == w[op + 1..]
  {
    hide *;
  }

  /** eval gives an expression with '>' or split brackets its C value exactly when it has none. Any other
      expression gets it exactly when the operators that are dropped and the operands that C would skip
      make no difference; without stacked unary operators, exactly when no operand, skipped or not, traps,
      or the expression has no value in C either. */
  lemma EvalAgreesIff(t: Expr, mem: U32 -> U32)
    requires Grammatical(t)
    ensures EvalRange(Print(t), mem) == Value(t, mem) <==>
            if UsesGreater(t) || HasSplitParens(t) then Value(t, mem).None?
            else Eager(Collapse(t), mem) == Value(t, mem)
    ensures !UsesGreater(t) && !HasSplitParens(t) && !HasStackedUnary(t) ==>
            (EvalRange(Print(t), mem) == Value(t, mem) <==> Eager(t, mem).Some? || Value(t, mem).None?)
  {
    hide EvalRange, Print, Eager, Value;
    EvalPrint(t, mem);
    if Eager(t, mem).Some? { EagerIsValue(t, mem); }
  }

  lemma SmallNumbers()
    ensures Number(Token(NUM, "0")) == 0 && Number(Token(NUM, "1")) == 1
  {
    assert Decimal("0") == 0 by { assert "0"[..0] == ""; }
    assert Decimal("1") == 1 by { assert "1"[..0] == ""; }
  }

  /** `0 && 1 / 0` is 0 in C, but eval divides by zero. */
  lemma SkippedOperandTraps(mem: U32 -> U32)
    ensures
      var zero, one := Num(Token(NUM, "0")), Num(Token(NUM, "1"));
      var t := Binary(zero, Token(AND, ""), Binary(one, Token(SLASH, ""), zero));
      && Grammatical(t) && !UsesGreater(t) && !HasSplitParens(t) && !HasStackedUnary(t)
      && Value(t, mem) == Some(0)
      && EvalRange(Print(t), mem) == None
  {
    hide EvalRange, Decimal, Number;
    SmallNumbers();
    var zero, one := Num(Token(NUM, "0")), Num(Token(NUM, "1"));
    var ratio := Binary(one, Token(SLASH, ""), zero);
    var t := Binary(zero, Token(AND, ""), ratio);
    assert Grammatical(ratio) && !Wrapped(Print(ratio)) && !Wrapped(Print(t));
    assert Value(zero, mem) == Some(0) && Eager(ratio, mem) == None;
    EvalPrint(t, mem);
  }

  lemma Negations(mem: U32 -> U32)
    ensures Meaning(OPPO, 0, 1, mem) == Some(0xFFFF_FFFF) && Meaning(OPPO, 0, 0xFFFF_FFFF, mem) == Some(1)
  {
  }

  /** `- - 1` is evaluated to -1. */
  lemma StackedUnaryIsDropped(mem: U32 -> U32)
    ensures
      var minus := Token(OPPO, "");
      var t := Unary(minus, Unary(minus, Num(Token(NUM, "1"))));
      && Grammatical(t)
      && Value(t, mem) == Some(1)
      && EvalRange(Print(t), mem) == Some(0xFFFF_FFFF)
  {
    hide EvalRange, Decimal, Number, Print, Meaning;
    Negations(mem);
    SmallNumbers();
    var minus := Token(OPPO, "");
    var one := Num(Token(NUM, "1"));
    var t := Unary(minus, Unary(minus, one));
    assert Grammatical(Unary(minus, one));
    assert Value(Unary(minus, one), mem) == Some(0xFFFF_FFFF);
    assert Collapse(t) == Unary(minus, one);
    EvalPrint(t, mem);
  }
}
