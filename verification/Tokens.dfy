/** Tokens of the debugger's expressions, and the decimal strings they carry
    (nemu/src/monitor/expr.c, `atou` and `utoa`). */
module Tokens {
  import opened Words

  datatype Kind =
    | NUM | LPAREN | RPAREN
    | PLUS | MINUS | STAR | SLASH
    | EQ | NEQ | A | AE | B | BE
    | AND | OR | BAND | BOR | BXOR
    | NOT | TILDE | DEREF | OPPO

  /** A number's string holds its digits; an operator's, whatever its slot of the static array held
      before. */
  datatype Token = Token(kind: Kind, str: string)

  predicate IsUnary(k: Kind) { k in {DEREF, OPPO, NOT, TILDE} }

  predicate IsBinary(k: Kind) { !IsUnary(k) && k !in {NUM, LPAREN, RPAREN} }

  /** The binding strength of a token, as the source's table has it. */
  function Priority(k: Kind): nat {
    if k == OR then 3
    else if k == AND then 4
    else if k == BOR then 5
    else if k == BXOR then 6
    else if k == BAND then 7
    else if k == EQ || k == NEQ then 8
    else if k == A || k == AE || k == B || k == BE then 9
    else if k == PLUS || k == MINUS then 11
    else if k == STAR || k == SLASH then 12
    else if k == NOT || k == TILDE || k == DEREF || k == OPPO then 13
    else if k == LPAREN || k == RPAREN then 14
    else 255
  }

  // ---------------------------------------------------------------- decimal strings

  predicate AllDigits(s: string) {
    forall i :: 0 <= i < |s| ==> '0' <= s[i] <= '9'
  }

  /** The number a string of decimal digits denotes. */
  function Decimal(s: string): int {
    if s == "" then 0 else 10 * Decimal(s[..|s| - 1]) + (s[|s| - 1] as int - '0' as int)
  }

  /** Reducing modulo 2^32 after every digit loses nothing. */
  lemma WrapDigit(n: int, d: int)
    ensures (n % 0x1_0000_0000 * 10 + d) % 0x1_0000_0000 == (10 * n + d) % 0x1_0000_0000
  {
    var m := n % 0x1_0000_0000;
    var q := n / 0x1_0000_0000;
    assert 10 * n + d == (10 * m + d) + 0x1_0000_0000 * (10 * q);
    WrapMultiple(10 * m + d, 10 * q);
  }

  lemma WrapMultiple(n: int, k: int)
    ensures (n + 0x1_0000_0000 * k) % 0x1_0000_0000 == n % 0x1_0000_0000
  {
    var r := n % 0x1_0000_0000;
    var q := n / 0x1_0000_0000;
    assert n + 0x1_0000_0000 * k == 0x1_0000_0000 * (q + k) + r;
  }

  method Atou(s: string) returns (res: U32)
    ensures res == Decimal(s) % 0x1_0000_0000
  {
    res := 0;
    var i := 0;
    while i < |s|
      invariant i <= |s|
      invariant res == Decimal(s[..i]) % 0x1_0000_0000
    {
      assert s[..i + 1][..i] == s[..i];
      WrapDigit(Decimal(s[..i]), (s[i] as int - '0' as int));
      assert Decimal(s[..i + 1]) == 10 * Decimal(s[..i]) + (s[i] as int - '0' as int);
      res := (res * 10 + (s[i] as int - '0' as int)) % 0x1_0000_0000;
      i := i + 1;
    }
    assert s[..|s|] == s;
  }

  /** The shortest decimal digits of a number; zero has none. */
  function Digits(n: nat): (s: string)
    ensures AllDigits(s) && Decimal(s) == n
    ensures s != "" ==> s[0] != '0'
  {
    if n == 0 then "" else
      var front := Digits(n / 10);
      var s := front + ['0' + (n % 10) as char];
      assert s[..|s| - 1] == front;
      s
  }

  lemma {:induction false} DigitsLength(n: nat, k: nat, bound: nat)
    requires n < bound && bound == Pow10(k)
    ensures |Digits(n)| <= k
    decreases k
  {
    hide Digits;
    DigitsStep(n);
    if n > 0 {
      DigitsLength(n / 10, k - 1, bound / 10);
    }
  }

  lemma DigitsStep(n: nat)
    ensures |Digits(n)| == if n == 0 then 0 else |Digits(n / 10)| + 1
  {
  }

  function Pow10(k: nat): (r: nat)
    ensures r > 0
  {
    if k == 0 then 1 else 10 * Pow10(k - 1)
  }

  function Reverse(s: string): (r: string)
    ensures |r| == |s|
    ensures forall i :: 0 <= i < |s| ==> r[i] == s[|s| - 1 - i]
  {
    if s == "" then "" else Reverse(s[1..]) + [s[0]]
  }

  lemma ReverseSnoc(s: string, c: char)
    ensures Reverse(s + [c]) == [c] + Reverse(s)
  {
  }

  lemma NextDigit(n: nat)
    requires n != 0
    ensures Digits(n) == Digits(n / 10) + ['0' + (n % 10) as char]
  {
  }

  lemma TenDigits(num: U32)
    ensures |Digits(num)| <= 10
  {
    assert Pow10(10) == 10_000_000_000 by { assert Pow10(5) == 100_000; assert Pow10(8) == 100_000_000; }
    DigitsLength(num, 10, Pow10(10));
  }

  /** The first loop of utoa: the digits, last one first. */
  method WriteDigits(num: U32, str: array<char>) returns (k: nat)
    requires str.Length == 32
    modifies str
    ensures k <= 10 && Reverse(str[..k]) == Digits(num)
  {
    hide Digits;
    hide Reverse;
    TenDigits(num);
    var n: nat := num;
    k := 0;
    assert Digits(n) + Reverse(str[..k]) == Digits(num);
    while n != 0
      invariant k + |Digits(n)| <= 10
      invariant Digits(n) + Reverse(str[..k]) == Digits(num)
      decreases n
    {
      ghost var done := str[..k];
      var c := '0' + (n % 10) as char;
      NextDigit(n);
      str[k] := c;
      assert str[..k + 1] == done + [c];
      ReverseSnoc(done, c);
      assert (Digits(n / 10) + [c]) + Reverse(done) == Digits(n / 10) + ([c] + Reverse(done));
      k := k + 1;
      n := n / 10;
    }
    NoDigits();
    assert Digits(0) + Reverse(str[..k]) == Reverse(str[..k]);
  }

  lemma NoDigits()
    ensures Digits(0) == ""
  {
  }

  /** The second loop of utoa: the first `k` characters are reversed in place. */
  method ReverseInPlace(str: array<char>, k: nat)
    requires k <= str.Length
    modifies str
    ensures str[..k] == Reverse(old(str[..k]))
  {
    var i, j := 0, k - 1;
    while i < j
      invariant 0 <= i && i + j == k - 1 && i <= j + 2
      invariant forall m :: 0 <= m < k && (m < i || m > j) ==> str[m] == old(str[k - 1 - m])
      invariant forall m :: i <= m <= j ==> str[m] == old(str[m])
    {
      str[i], str[j] := str[j], str[i];
      i := i + 1;
      j := j - 1;
    }
    ghost var was := old(str[..k]);
    assert forall m :: 0 <= m < k ==> str[m] == was[k - 1 - m];
  }

  /** utoa in base 10: digits come out last first and are reversed in place; the string ends at the
      NUL, after at most ten characters. */
  method Utoa(num: U32, str: array<char>) returns (ghost len: nat)
    requires str.Length == 32
    modifies str
    ensures len <= 10 && str[len] == '\0' && str[..len] == Digits(num)
  {
    var k := WriteDigits(num, str);
    ReverseInPlace(str, k);
    str[k] := '\0';
    len := k;
  }

  /** The round trip: the printed number is read back unchanged, zero included. */
  method UtoaThenAtou(num: U32) returns (res: U32)
    ensures res == num
  {
    hide Digits, Decimal;
    var str := new char[32](_ => '\0');
    ghost var len := Utoa(num, str);
    NoNul(Digits(num));
    assert forall i :: 0 <= i < len ==> str[i] == str[..len][i];
    var end := Strlen(str, len);
    res := Atou(str[..end]);
  }

  lemma NoNul(s: string)
    requires AllDigits(s)
    ensures forall i :: 0 <= i < |s| ==> s[i] != '\0'
  {
  }

  /** strlen: the string ends at its first NUL. */
  method Strlen(str: array<char>, ghost len: nat) returns (end: nat)
    requires len < str.Length && str[len] == '\0' && forall i :: 0 <= i < len ==> str[i] != '\0'
    ensures end == len
  {
    end := 0;
    while str[end] != '\0'
      invariant end <= len
      decreases len - end
    {
      end := end + 1;
    }
  }
}
