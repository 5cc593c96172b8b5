/** Addition and subtraction of the arithmetic unit, and the condition codes that read its flags
    (nemu/src/cpu/alu.c, nemu/include/cpu/instr_helper.h). */
module Alu {
  import opened Powers
  import opened Words

  type Bit = b: nat | b < 2
  type Width = n: nat | n in {8, 16, 32} witness 8

  function Size(n: Width): (r: nat)
    ensures 256 <= r <= 0x1_0000_0000
  {
    if n == 8 then 0x100 else if n == 16 then 0x1_0000 else 0x1_0000_0000
  }

  /** The operand an instruction of width `n` sees: `x & (0xFFFFFFFF >> (32 - n))`. */
  function Low(x: int, n: Width): (r: U32)
    ensures r < Size(n)
  {
    x % Size(n)
  }

  /** The two's complement value of the operand. */
  function Signed(x: int, n: Width): int {
    if Low(x, n) < Size(n) / 2 then Low(x, n) else Low(x, n) - Size(n)
  }

  function Word(x: int): U32 { x % 0x1_0000_0000 }

  /** Sign extension to 32 bits. */
  function SignExt(x: U32, n: Width): U32 { Word(Signed(x, n)) }

  function Sign(x: U32): Bit { if x < 0x8000_0000 then 0 else 1 }

  function AsBit(b: bool): Bit { if b then 1 else 0 }

  /** The number of ones among the low `k` bits. */
  function Ones(x: nat, k: nat): nat {
    if k == 0 then 0 else x % 2 + Ones(x / 2, k - 1)
  }

  lemma OnesEnd(x: nat, k: nat)
    requires k > 0
    ensures Ones(x, k) == x % 2 + Ones(x / 2, k - 1)
  {
  }

  // ---------------------------------------------------------------- facts about widths

  lemma LowWord(x: int, n: Width)
    ensures Low(Word(x), n) == Low(x, n)
  {
    var k := 0x1_0000_0000 / Size(n);
    assert x == Word(x) + 0x1_0000_0000 * (x / 0x1_0000_0000);
    assert 0x1_0000_0000 == Size(n) * k;
    LowShift(Word(x), n, k * (x / 0x1_0000_0000));
  }

  lemma LowUnique(x: int, n: Width, q: int, r: nat)
    requires x == Size(n) * q + r && r < Size(n)
    ensures Low(x, n) == r
  {
    if n == 8 {
      assert x == 0x100 * q + r;
    } else if n == 16 {
      assert x == 0x1_0000 * q + r;
    } else {
      assert x == 0x1_0000_0000 * q + r;
    }
  }

  lemma LowShift(x: int, n: Width, k: int)
    ensures Low(x + Size(n) * k, n) == Low(x, n)
  {
    var q := x / Size(n);
    Distribute(Size(n), q, k);
    LowUnique(x + Size(n) * k, n, q + k, Low(x, n));
  }

  lemma Distribute(m: int, q: int, k: int)
    ensures m * (q + k) == m * q + m * k
  {
  }

  lemma SizeIsPower(n: Width)
    ensures Size(n) == Pow2(n)
  {
    assert Pow2(8) == 0x100;
    Pow2Add(8, 8);
    Pow2Add(16, 16);
  }

  /** Its values are those of n bits, and the one of an operand differs from it by a multiple of 2^n. */
  lemma SignedIs(x: int, n: Width) returns (k: int)
    ensures Signed(x, n) == x + Pow2(n) * k && 0 <= Signed(x, n) + Pow2(n - 1) < Pow2(n)
  {
    SizeIsPower(n);
    Pow2Step(n - 1);
    hide Pow2;
    var q := x / Size(n);
    assert x == Size(n) * q + Low(x, n);
    k := if Low(x, n) < Size(n) / 2 then -q else -q - 1;
    Distribute(Size(n), -q, -1);
  }

  /** Sign extension keeps the unsigned order, so comparing extended words compares the operands. */
  lemma SignExtOrder(x: U32, y: U32, n: Width)
    ensures SignExt(x, n) < SignExt(y, n) <==> Low(x, n) < Low(y, n)
    ensures SignExt(x, n) == SignExt(y, n) <==> Low(x, n) == Low(y, n)
  {
    SignExtValue(x, n);
    SignExtValue(y, n);
    hide Low, SignExt;
  }

  lemma SignExtValue(x: U32, n: Width)
    ensures SignExt(x, n) == if Low(x, n) < Size(n) / 2 then Low(x, n) else Low(x, n) + 0x1_0000_0000 - Size(n)
  {
  }

  lemma MaskedOrder(x: U32, y: U32, n: Width)
    ensures SignExt(Low(x, n), n) < SignExt(Low(y, n), n) <==> Low(x, n) < Low(y, n)
    ensures SignExt(Low(x, n), n) == SignExt(Low(y, n), n) <==> Low(x, n) == Low(y, n)
  {
    hide SignExt;
    LowUnique(Low(x, n), n, 0, Low(x, n));
    LowUnique(Low(y, n), n, 0, Low(y, n));
    SignExtOrder(Low(x, n), Low(y, n), n);
  }

  lemma SignOfExt(x: U32, n: Width)
    ensures Sign(SignExt(x, n)) == AsBit(Signed(x, n) < 0)
  {
  }

  // ---------------------------------------------------------------- sums and differences of operands

  lemma LowSum(s: U32, d: U32, c: Bit, n: Width)
    ensures var t := Low(s, n) + Low(d, n) + c;
            Low(Word(d + s + c), n) == if t < Size(n) then t else t - Size(n)
  {
    var t := Low(s, n) + Low(d, n) + c;
    var k := d / Size(n) + s / Size(n);
    LowWord(d + s + c, n);
    Distribute(Size(n), d / Size(n), s / Size(n));
    assert d + s + c == t + Size(n) * k;
    LowShift(t, n, k);
    LowUnique(t, n, if t < Size(n) then 0 else 1, if t < Size(n) then t else t - Size(n));
  }

  lemma LowDifference(s: U32, d: U32, c: Bit, n: Width)
    ensures var t := Low(d, n) - Low(s, n) - c;
            Low(Word(d - s - c), n) == if t >= 0 then t else t + Size(n)
  {
    var t := Low(d, n) - Low(s, n) - c;
    var k := d / Size(n) - s / Size(n);
    LowWord(d - s - c, n);
    Distribute(Size(n), d / Size(n), -(s / Size(n)));
    Distribute(Size(n), s / Size(n), -(s / Size(n)));
    assert d - s - c == t + Size(n) * k;
    LowShift(t, n, k);
    LowUnique(t, n, if t >= 0 then 0 else -1, if t >= 0 then t else t + Size(n));
  }

  /** The sign rule of set_OF_add is exactly signed overflow, with or without a carry in. */
  lemma SumOverflow(s: U32, d: U32, c: Bit, n: Width)
    ensures var r := Word(d + s + c);
            (Signed(s, n) < 0) == (Signed(d, n) < 0) != (Signed(r, n) < 0) <==>
            Signed(r, n) != Signed(d, n) + Signed(s, n) + c
  {
    LowSum(s, d, c, n);
  }

  /** The sign rule of set_OF_sub is exactly signed overflow, with or without a borrow in. */
  lemma DifferenceOverflow(s: U32, d: U32, c: Bit, n: Width)
    ensures var r := Word(d - s - c);
            (Signed(d, n) < 0) != (Signed(s, n) < 0) == (Signed(r, n) < 0) <==>
            Signed(r, n) != Signed(d, n) - Signed(s, n) - c
  {
    LowDifference(s, d, c, n);
  }

  lemma SumFacts(s: U32, d: U32, c: Bit, n: Width)
    ensures var res := Word(d + s + c);
            var r := Low(res, n);
            && r + Size(n) * AsBit(if c == 0 then r < Low(s, n) else r <= Low(s, n)) ==
               Low(d, n) + Low(s, n) + c
            && (AsBit((Signed(s, n) < 0) == (Signed(d, n) < 0) != (Signed(res, n) < 0)) == 0 <==>
                Signed(res, n) == Signed(d, n) + Signed(s, n) + c)
  {
    LowSum(s, d, c, n);
    SumOverflow(s, d, c, n);
    hide Low, Signed, Word;
  }

  lemma DifferenceFacts(s: U32, d: U32, c: Bit, n: Width)
    ensures var res := Word(d - s - c);
            var r := Low(res, n);
            && r == Low(d, n) - Low(s, n) - c + Size(n) * AsBit(if c == 0 then r > Low(d, n) else r >= Low(d, n))
            && (AsBit((Signed(d, n) < 0) != (Signed(s, n) < 0) == (Signed(res, n) < 0)) == 0 <==>
                Signed(res, n) == Signed(d, n) - Signed(s, n) - c)
  {
    LowDifference(s, d, c, n);
    DifferenceOverflow(s, d, c, n);
    hide Low, Signed, Word;
  }

  // ---------------------------------------------------------------- the unit

  class Cpu {
    var CF: Bit
    var PF: Bit
    var ZF: Bit
    var SF: Bit
    var OF: Bit

    constructor ()
      ensures CF == PF == ZF == SF == OF == 0
    {
      CF, PF, ZF, SF, OF := 0, 0, 0, 0, 0;
    }

    /** What the flags that depend on the result alone say about it. */
    ghost predicate Describes(r: nat, n: Width)
      reads this
    {
      && (ZF == 1 <==> r == 0)
      && (SF == 1 <==> Signed(r, n) < 0)
      && (PF == 1 <==> Ones(r, 8) % 2 == 0)
    }

    method SetCFAdd(result: U32, src: U32, n: Width)
      modifies this`CF
      ensures CF == AsBit(Low(result, n) < Low(src, n))
    {
      hide *;
      MaskedOrder(result, src, n);
      CF := AsBit(SignExt(Low(result, n), n) < SignExt(Low(src, n), n));
    }

    method SetPF(result: U32)
      modifies this`PF
      ensures PF == AsBit(Ones(result, 8) % 2 == 0)
    {
      var tmp, cnt, ind := result, 0, 0;
      while ind < 8
        invariant 0 <= ind <= 8 && cnt + Ones(tmp, 8 - ind) == Ones(result, 8)
      {
        OnesEnd(tmp, 8 - ind);
        if tmp % 2 != 0 {
          cnt := cnt + 1;
        }
        tmp := tmp / 2;
        ind := ind + 1;
      }
      PF := AsBit(cnt % 2 == 0);
    }

    method SetZF(result: U32, n: Width)
      modifies this`ZF
      ensures ZF == AsBit(Low(result, n) == 0)
    {
      ZF := AsBit(Low(result, n) == 0);
    }

    method SetSF(result: U32, n: Width)
      modifies this`SF
      ensures SF == AsBit(Signed(result, n) < 0)
    {
      hide Low, Size, Signed, SignExt, Sign;
      SignOfExt(Low(result, n), n);
      LowFacts(result, n);
      SF := Sign(SignExt(Low(result, n), n));
    }

    method SetOFAdd(result: U32, src: U32, dest: U32, n: Width)
      modifies this`OF
      ensures OF == AsBit((Signed(src, n) < 0) == (Signed(dest, n) < 0) != (Signed(result, n) < 0))
    {
      hide Low, Size, Signed, SignExt, Sign;
      var r, s, d := SignExt(result, n), SignExt(src, n), SignExt(dest, n);
      SignOfExt(result, n);
      SignOfExt(src, n);
      SignOfExt(dest, n);
      if Sign(s) == Sign(d) {
        if Sign(r) != Sign(s) { OF := 1; } else { OF := 0; }
      } else {
        OF := 0;
      }
    }

    method SetOFSub(result: U32, src: U32, dest: U32, n: Width)
      modifies this`OF
      ensures OF == AsBit((Signed(dest, n) < 0) != (Signed(src, n) < 0) == (Signed(result, n) < 0))
    {
      hide Low, Size, Signed, SignExt, Sign;
      var r, s, d := SignExt(result, n), SignExt(src, n), SignExt(dest, n);
      SignOfExt(result, n);
      SignOfExt(src, n);
      SignOfExt(dest, n);
      if Sign(d) != Sign(s) {
        if Sign(r) == Sign(s) { OF := 1; } else { OF := 0; }
      } else {
        OF := 0;
      }
    }

    method SetCFAdc(result: U32, src: U32, cf: Bit, n: Width)
      modifies this`CF
      ensures CF == AsBit(if cf == 0 then Low(result, n) < Low(src, n) else Low(result, n) <= Low(src, n))
    {
      hide Low, Size, Signed, SignExt, Word, Ones;
      MaskedOrder(result, src, n);
      var r, s := SignExt(Low(result, n), n), SignExt(Low(src, n), n);
      if cf == 0 {
        CF := AsBit(r < s);
      } else if cf == 1 {
        CF := AsBit(r <= s);
      }
    }

    method SetCFSub(result: U32, dest: U32, n: Width)
      modifies this`CF
      ensures CF == AsBit(Low(result, n) > Low(dest, n))
    {
      hide Low, Size, Signed, SignExt, Word, Ones;
      MaskedOrder(result, dest, n);
      CF := AsBit(SignExt(Low(result, n), n) > SignExt(Low(dest, n), n));
    }

    method SetCFSbb(result: U32, dest: U32, n: Width)
      modifies this`CF
      ensures CF == AsBit(if old(CF) == 0 then Low(result, n) > Low(dest, n) else Low(result, n) >= Low(dest, n))
    {
      hide Low, Size, Signed, SignExt, Word, Ones;
      MaskedOrder(result, dest, n);
      var r, d := SignExt(Low(result, n), n), SignExt(Low(dest, n), n);
      if CF == 1 {
        CF := AsBit(r >= d);
      } else if CF == 0 {
        CF := AsBit(r > d);
      }
    }

    method Add(src: U32, dest: U32, n: Width) returns (r: U32)
      modifies this
      ensures r < Size(n) && r + Size(n) * CF == Low(dest, n) + Low(src, n)
      ensures OF == 0 <==> Signed(r, n) == Signed(dest, n) + Signed(src, n)
      ensures Describes(r, n)
    {
      hide Low, Size, Signed, SignExt, Word, Ones;
      var res := Word(dest + src);
      SetCFAdd(res, src, n);
      SetPF(res);
      SetZF(res, n);
      SetSF(res, n);
      SetOFAdd(res, src, dest, n);
      r := Low(res, n);
      SumFacts(src, dest, 0, n);
      LowFacts(res, n);
    }

    method Adc(src: U32, dest: U32, n: Width) returns (r: U32)
      modifies this
      ensures r < Size(n) && r + Size(n) * CF == Low(dest, n) + Low(src, n) + old(CF)
      ensures OF == 0 <==> Signed(r, n) == Signed(dest, n) + Signed(src, n) + old(CF)
      ensures Describes(r, n)
    {
      hide Low, Size, Signed, SignExt, Word, Ones;
      var cf := CF;
      var res := Word(dest + src + cf);
      SetCFAdc(res, src, cf, n);
      SetPF(res);
      SetZF(res, n);
      SetSF(res, n);
      SetOFAdd(res, src, dest, n);
      r := Low(res, n);
      SumFacts(src, dest, cf, n);
      LowFacts(res, n);
    }

    method Sub(src: U32, dest: U32, n: Width) returns (r: U32)
      modifies this
      ensures r < Size(n) && r == Low(dest, n) - Low(src, n) + Size(n) * CF
      ensures OF == 0 <==> Signed(r, n) == Signed(dest, n) - Signed(src, n)
      ensures Describes(r, n)
    {
      hide Low, Size, Signed, SignExt, Word, Ones;
      var res := Word(dest - src);
      SetCFSub(res, dest, n);
      SetPF(res);
      SetZF(res, n);
      SetSF(res, n);
      SetOFSub(res, src, dest, n);
      r := Low(res, n);
      DifferenceFacts(src, dest, 0, n);
      LowFacts(res, n);
    }

    method Sbb(src: U32, dest: U32, n: Width) returns (r: U32)
      modifies this
      ensures r < Size(n) && r == Low(dest, n) - Low(src, n) - old(CF) + Size(n) * CF
      ensures OF == 0 <==> Signed(r, n) == Signed(dest, n) - Signed(src, n) - old(CF)
      ensures Describes(r, n)
    {
      Nested(src, dest, CF);
      hide Low, Size, Signed, SignExt, Word, Ones;
      var cf := CF;
      var res := Word(dest - Word(src + cf));
      SetCFSbb(res, dest, n);
      SetPF(res);
      SetZF(res, n);
      SetSF(res, n);
      SetOFSub(res, src, dest, n);
      r := Low(res, n);
      DifferenceFacts(src, dest, cf, n);
      LowFacts(res, n);
    }

    predicate ConditionE() reads this { ZF == 1 }
    predicate ConditionNE() reads this { ZF == 0 }
    predicate ConditionA() reads this { CF == 0 && ZF == 0 }
    predicate ConditionAE() reads this { CF == 0 }
    predicate ConditionB() reads this { CF == 1 }
    predicate ConditionBE() reads this { CF == 1 || ZF == 1 }
    predicate ConditionG() reads this { ZF == 0 && SF == OF }
    predicate ConditionGE() reads this { SF == OF }
    predicate ConditionL() reads this { SF != OF }
    predicate ConditionLE() reads this { ZF == 1 || SF != OF }

    /** A comparison is a subtraction whose result is dropped; every condition then decides its order. */
    method Compare(src: U32, dest: U32, n: Width)
      modifies this
      ensures ConditionE() <==> Low(dest, n) == Low(src, n)
      ensures ConditionNE() <==> Low(dest, n) != Low(src, n)
      ensures ConditionB() <==> Low(dest, n) < Low(src, n)
      ensures ConditionBE() <==> Low(dest, n) <= Low(src, n)
      ensures ConditionA() <==> Low(dest, n) > Low(src, n)
      ensures ConditionAE() <==> Low(dest, n) >= Low(src, n)
      ensures ConditionL() <==> Signed(dest, n) < Signed(src, n)
      ensures ConditionLE() <==> Signed(dest, n) <= Signed(src, n)
      ensures ConditionG() <==> Signed(dest, n) > Signed(src, n)
      ensures ConditionGE() <==> Signed(dest, n) >= Signed(src, n)
    {
      hide Low, Size, Signed, SignExt, Word, Ones;
      var r := Sub(src, dest, n);
      FlagsDecide(src, dest, n, r, CF, ZF, SF, OF);
    }
  }

  lemma Nested(s: U32, d: U32, c: Bit)
    ensures Word(d - Word(s + c)) == Word(d - s - c)
  {
  }

  /** What the four flags of a subtraction decide, whatever computed them. */
  lemma FlagsDecide(s: U32, d: U32, n: Width, r: U32, cf: Bit, zf: Bit, sf: Bit, of: Bit)
    requires r < Size(n) && r == Low(d, n) - Low(s, n) + Size(n) * cf
    requires zf == 1 <==> r == 0
    requires sf == 1 <==> Signed(r, n) < 0
    requires of == 0 <==> Signed(r, n) == Signed(d, n) - Signed(s, n)
    ensures cf == 1 <==> Low(d, n) < Low(s, n)
    ensures zf == 1 <==> Low(d, n) == Low(s, n)
    ensures zf == 1 <==> Signed(d, n) == Signed(s, n)
    ensures sf != of <==> Signed(d, n) < Signed(s, n)
  {
    LowUnique(r, n, 0, r);
    hide Low;
  }

  lemma LowFacts(x: U32, n: Width)
    ensures Low(Low(x, n), n) == Low(x, n)
    ensures Signed(Low(x, n), n) == Signed(x, n)
    ensures Ones(Low(x, n), 8) == Ones(x, 8)
  {
    LowUnique(Low(x, n), n, 0, Low(x, n));
    MulAssoc(256, Size(n) / 256, x / Size(n));
    assert Pow2(8) == 256;
    OnesHigh(x, Low(x, n), Size(n) / 256 * (x / Size(n)), 8);
  }

  /** Only the low bits count. */
  lemma {:induction false} OnesHigh(x: nat, y: nat, k: int, bits: nat)
    requires x == y + Pow2(bits) * k
    ensures Ones(x, bits) == Ones(y, bits)
  {
    if bits > 0 {
      MulAssoc(2, Pow2(bits - 1), k);
      OnesHigh(x / 2, y / 2, k, bits - 1);
    }
  }

  // ---------------------------------------------------------------- numbers of many words

  function Weight(n: Width, k: nat): (w: nat)
    ensures w > 0
  {
    if k == 0 then 1 else Weight(n, k - 1) * Size(n)
  }

  /** The number that words of width `n`, lowest first, stand for. */
  function Big(a: seq<U32>, n: Width): nat {
    if a == [] then 0 else Big(a[..|a| - 1], n) + Weight(n, |a| - 1) * Low(a[|a| - 1], n)
  }

  lemma BigSnoc(a: seq<U32>, x: U32, n: Width)
    ensures Big(a + [x], n) == Big(a, n) + Weight(n, |a|) * Low(x, n)
  {
    assert (a + [x])[..|a|] == a;
  }

  lemma BigTake(a: seq<U32>, i: nat, n: Width)
    requires i < |a|
    ensures Big(a[..i + 1], n) == Big(a[..i], n) + Weight(n, i) * Low(a[i], n)
  {
    assert a[..i + 1][..i] == a[..i];
  }

  lemma CarryOn(w: nat, size: nat, r: int, x: int, c: int, c': int, sum: int, a: int, b: int)
    requires r + w * c == sum && x + size * c' == a + b + c
    ensures (r + w * x) + (w * size) * c' == sum + w * a + w * b
  {
    calc {
      w * x + (w * size) * c';
      w * (x + size * c');
      w * (a + b + c);
      w * a + w * b + w * c;
    }
  }

  lemma BorrowOn(w: nat, size: nat, r: int, x: int, c: int, c': int, diff: int, a: int, b: int)
    requires r == diff + w * c && x == a - b - c + size * c'
    ensures r + w * x == diff + w * a - w * b + (w * size) * c'
  {
    calc {
      w * x;
      w * (a - b - c + size * c');
      w * a - w * b - w * c + (w * size) * c';
    }
  }

  lemma {:induction false} BigBound(a: seq<U32>, n: Width)
    ensures Big(a, n) < Weight(n, |a|)
  {
    if a != [] {
      var k := |a| - 1;
      BigBound(a[..k], n);
      TopWord(Weight(n, k), Size(n), Low(a[k], n));
    }
  }

  lemma TopWord(w: nat, size: nat, x: nat)
    requires x < size
    ensures w * x + w <= w * size
  {
    assert w * x + w == w * (x + 1);
    assert w * (x + 1) <= w * size;
  }

  /** alu_add on the lowest words, then alu_adc upwards: the exact sum, with the last CF as the
      carry out. */
  method AddNumbers(cpu: Cpu, dest: seq<U32>, src: seq<U32>, n: Width) returns (r: seq<U32>)
    requires |dest| == |src| > 0
    modifies cpu
    ensures |r| == |dest|
    ensures Big(r, n) + Weight(n, |r|) * cpu.CF == Big(dest, n) + Big(src, n)
    ensures cpu.CF == 1 <==> Big(dest, n) + Big(src, n) >= Weight(n, |dest|)
  {
    hide Low, Size, Signed, Big, Weight;
    var word := cpu.Add(src[0], dest[0], n);
    r := [word];
    FirstWord(dest, n);
    FirstWord(src, n);
    FirstWord(r, n);
    LowIsWhole(word, n);
    var i := 1;
    while i < |dest|
      invariant 1 <= i <= |dest| && |r| == i
      invariant Big(r, n) + Weight(n, i) * cpu.CF == Big(dest[..i], n) + Big(src[..i], n)
    {
      ghost var c := cpu.CF;
      word := cpu.Adc(src[i], dest[i], n);
      LowIsWhole(word, n);
      BigSnoc(r, word, n);
      BigTake(dest, i, n);
      BigTake(src, i, n);
      WeightStep(n, i);
      CarryOn(Weight(n, i), Size(n), Big(r, n), word, c, cpu.CF, Big(dest[..i], n) + Big(src[..i], n),
              Low(dest[i], n), Low(src[i], n));
      r := r + [word];
      i := i + 1;
    }
    assert dest[..|dest|] == dest && src[..|src|] == src;
    BigBound(r, n);
  }

  /** alu_sub on the lowest words, then alu_sbb upwards: the exact difference, with the last CF as the
      borrow. */
  method SubtractNumbers(cpu: Cpu, dest: seq<U32>, src: seq<U32>, n: Width) returns (r: seq<U32>)
    requires |dest| == |src| > 0
    modifies cpu
    ensures |r| == |dest|
    ensures Big(r, n) == Big(dest, n) - Big(src, n) + Weight(n, |r|) * cpu.CF
    ensures cpu.CF == 1 <==> Big(dest, n) < Big(src, n)
  {
    hide Low, Size, Signed, Big, Weight;
    var word := cpu.Sub(src[0], dest[0], n);
    r := [word];
    FirstWord(dest, n);
    FirstWord(src, n);
    FirstWord(r, n);
    LowIsWhole(word, n);
    var i := 1;
    while i < |dest|
      invariant 1 <= i <= |dest| && |r| == i
      invariant Big(r, n) == Big(dest[..i], n) - Big(src[..i], n) + Weight(n, i) * cpu.CF
    {
      ghost var c := cpu.CF;
      word := cpu.Sbb(src[i], dest[i], n);
      LowIsWhole(word, n);
      BigSnoc(r, word, n);
      BigTake(dest, i, n);
      BigTake(src, i, n);
      WeightStep(n, i);
      BorrowOn(Weight(n, i), Size(n), Big(r, n), word, c, cpu.CF, Big(dest[..i], n) - Big(src[..i], n),
               Low(dest[i], n), Low(src[i], n));
      r := r + [word];
      i := i + 1;
    }
    assert dest[..|dest|] == dest && src[..|src|] == src;
    BigBound(r, n);
  }

  lemma FirstWord(a: seq<U32>, n: Width)
    requires a != []
    ensures Big(a[..1], n) == Low(a[0], n) && Weight(n, 1) == Size(n)
    ensures |a| == 1 ==> a[..1] == a
  {
    assert a[..1][..0] == [] && Weight(n, 0) == 1;
  }

  lemma LowIsWhole(x: U32, n: Width)
    requires x < Size(n)
    ensures Low(x, n) == x
  {
    LowUnique(x, n, 0, x);
  }

  lemma WeightStep(n: Width, k: nat)
    ensures Weight(n, k + 1) == Weight(n, k) * Size(n)
  {
  }
}
