/**
 Decimal numbers: printing in utils/numbers.c (digits10_uint64, uint64_2_str) and reading in
 utils/strings.c (str2uint64_t).
 */
module Decimal {

  import opened Integers

  // ----- The canonical numeral

  function Digit(d: nat): char
    requires d < 10
  {
    '0' + d as char
  }

  function Numeral(n: nat): (s: string)
    ensures s != ""
  {
    if n < 10 then [Digit(n)] else Numeral(n / 10) + [Digit(n % 10)]
  }

  function Pow2(k: nat): nat {
    if k == 0 then 1 else 2 * Pow2(k - 1)
  }

  function Pow10(k: nat): nat {
    if k == 0 then 1 else 10 * Pow10(k - 1)
  }

  // A numeral has as many digits as the power of ten it stays below.
  lemma {:induction false} NumeralLength(n: nat, d: nat)
    requires d >= 1 && n < Pow10(d) && (d == 1 || Pow10(d - 1) <= n)
    ensures |Numeral(n)| == d
    decreases d
  {
    if d == 1 {
    } else {
      assert Pow10(d - 1) == 10 * Pow10(d - 2);
      Pow10Positive(d - 2);
      NumeralLength(n / 10, d - 1);
    }
  }

  lemma {:induction false} Pow10Positive(k: nat)
    ensures Pow10(k) >= 1
  {
    if k > 0 { Pow10Positive(k - 1); }
  }

  // ----- Counting digits

  function BitLength(x: nat): nat {
    if x == 0 then 0 else 1 + BitLength(x / 2)
  }

  lemma {:induction false} BitLengthBounds(x: nat)
    requires x >= 1
    ensures BitLength(x) >= 1 && Pow2(BitLength(x) - 1) <= x < Pow2(BitLength(x))
  {
    if x > 1 { BitLengthBounds(x / 2); }
  }

  const POWERS_OF_10: seq<nat> :=
    [0, 10, 100, 1000, 10000, 100000,
     1000000, 10000000, 100000000, 1000000000, 10000000000,
     100000000000, 1000000000000, 10000000000000, 100000000000000, 1000000000000000,
     10000000000000000, 100000000000000000, 1000000000000000000, 10000000000000000000]

  // `n | 1`
  function Odd(n: nat): nat {
    if n % 2 == 0 then n + 1 else n
  }

  // A guess at the number of digits; the count of leading zeros of x is 64 - BitLength(x).
  function Estimate(n: nat): nat {
    BitLength(Odd(n)) * 1233 / 4096
  }

  // digits10_uint64
  function Digits10(n: nat): int
    requires Estimate(n) < 20
  {
    var t := Estimate(n);
    t - (if n < POWERS_OF_10[t] then 1 else 0) + 1
  }

  lemma {:induction false} Pow2Monotone(a: nat, b: nat)
    requires a <= b
    ensures Pow2(a) <= Pow2(b)
    decreases b - a
  {
    if a < b { Pow2Monotone(a, b - 1); }
  }

  // The largest bit length for which the guess is `t`.
  const BITS: seq<nat> := [3, 6, 9, 13, 16, 19, 23, 26, 29, 33, 36, 39, 43, 46, 49, 53, 56, 59, 63, 64]

  lemma Pow2Step(k: nat)
    ensures Pow2(k + 1) == 2 * Pow2(k) && Pow2(k + 3) == 8 * Pow2(k) && Pow2(k + 4) == 16 * Pow2(k)
  {
    assert Pow2(k + 2) == 2 * Pow2(k + 1);
    assert Pow2(k + 3) == 2 * Pow2(k + 2);
  }

  lemma PowersOfTwo()
    ensures Pow2(3) == 8
    ensures Pow2(6) == 64
    ensures Pow2(9) == 512
    ensures Pow2(13) == 8192
    ensures Pow2(16) == 65536
    ensures Pow2(19) == 524288
    ensures Pow2(23) == 8388608
    ensures Pow2(26) == 67108864
    ensures Pow2(29) == 536870912
    ensures Pow2(33) == 8589934592
    ensures Pow2(36) == 68719476736
    ensures Pow2(39) == 549755813888
    ensures Pow2(43) == 8796093022208
    ensures Pow2(46) == 70368744177664
    ensures Pow2(49) == 562949953421312
    ensures Pow2(53) == 9007199254740992
    ensures Pow2(56) == 72057594037927936
    ensures Pow2(59) == 576460752303423488
    ensures Pow2(63) == 9223372036854775808
    ensures Pow2(64) == 18446744073709551616
  {
    Pow2Step(0); assert Pow2(3) == 8;
    Pow2Step(3); assert Pow2(6) == 64;
    Pow2Step(6); assert Pow2(9) == 512;
    Pow2Step(9); assert Pow2(13) == 8192;
    Pow2Step(13); assert Pow2(16) == 65536;
    Pow2Step(16); assert Pow2(19) == 524288;
    Pow2Step(19); assert Pow2(23) == 8388608;
    Pow2Step(23); assert Pow2(26) == 67108864;
    Pow2Step(26); assert Pow2(29) == 536870912;
    Pow2Step(29); assert Pow2(33) == 8589934592;
    Pow2Step(33); assert Pow2(36) == 68719476736;
    Pow2Step(36); assert Pow2(39) == 549755813888;
    Pow2Step(39); assert Pow2(43) == 8796093022208;
    Pow2Step(43); assert Pow2(46) == 70368744177664;
    Pow2Step(46); assert Pow2(49) == 562949953421312;
    Pow2Step(49); assert Pow2(53) == 9007199254740992;
    Pow2Step(53); assert Pow2(56) == 72057594037927936;
    Pow2Step(56); assert Pow2(59) == 576460752303423488;
    Pow2Step(59); assert Pow2(63) == 9223372036854775808;
    Pow2Step(63); assert Pow2(64) == 18446744073709551616;
  }

  lemma PowersOfTen()
    ensures Pow10(0) == 1
    ensures Pow10(1) == 10
    ensures Pow10(2) == 100
    ensures Pow10(3) == 1000
    ensures Pow10(4) == 10000
    ensures Pow10(5) == 100000
    ensures Pow10(6) == 1000000
    ensures Pow10(7) == 10000000
    ensures Pow10(8) == 100000000
    ensures Pow10(9) == 1000000000
    ensures Pow10(10) == 10000000000
    ensures Pow10(11) == 100000000000
    ensures Pow10(12) == 1000000000000
    ensures Pow10(13) == 10000000000000
    ensures Pow10(14) == 100000000000000
    ensures Pow10(15) == 1000000000000000
    ensures Pow10(16) == 10000000000000000
    ensures Pow10(17) == 100000000000000000
    ensures Pow10(18) == 1000000000000000000
    ensures Pow10(19) == 10000000000000000000
    ensures Pow10(20) == 100000000000000000000
  {
    assert Pow10(0) == 1;
    assert Pow10(1) == 10;
    assert Pow10(2) == 100;
    assert Pow10(3) == 1000;
    assert Pow10(4) == 10000;
    assert Pow10(5) == 100000;
    assert Pow10(6) == 1000000;
    assert Pow10(7) == 10000000;
    assert Pow10(8) == 100000000;
    assert Pow10(9) == 1000000000;
    assert Pow10(10) == 10000000000;
    assert Pow10(11) == 100000000000;
    assert Pow10(12) == 1000000000000;
    assert Pow10(13) == 10000000000000;
    assert Pow10(14) == 100000000000000;
    assert Pow10(15) == 1000000000000000;
    assert Pow10(16) == 10000000000000000;
    assert Pow10(17) == 100000000000000000;
    assert Pow10(18) == 1000000000000000000;
    assert Pow10(19) == 10000000000000000000;
    assert Pow10(20) == 100000000000000000000;
  }

  // Numbers of BITS[t] bits lie between two consecutive powers of ten, all the way up to 64 bits.
  lemma GuessOk(t: nat)
    requires t < 20
    ensures Pow10(t) <= Pow2(BITS[t]) <= Pow10(t + 1)
    ensures t > 0 ==> POWERS_OF_10[t] == Pow10(t)
  {
    PowersOfTwo();
    PowersOfTen();
  }

  // The guess for a bit length, the other way round.
  lemma GuessOfBits(bits: nat, t: nat)
    requires 1 <= bits <= 64 && t == bits * 1233 / 4096
    ensures t < 20 && bits <= BITS[t] && (t > 0 ==> bits > BITS[t - 1])
  {
  }

  lemma BitsOfWord(x: nat)
    requires 1 <= x < TWO64
    ensures 1 <= BitLength(x) <= 64
  {
    BitLengthBounds(x);
    assert Pow2(64) == TWO64 by { PowersOfTwo(); }
    if BitLength(x) > 64 { Pow2Monotone(64, BitLength(x) - 1); }
  }

  // The guess for a number of `bits` bits, possibly one bit set too many, is right or one too many.
  lemma GuessForBits(n: nat, bits: nat, t: nat)
    requires 1 <= bits <= 64 && t == bits * 1233 / 4096
    requires n < Pow2(bits) && (bits >= 2 ==> Pow2(bits - 1) <= n)
    ensures t < 20 && n < Pow10(t + 1)
    ensures t > 0 ==> Pow10(t - 1) <= n && POWERS_OF_10[t] == Pow10(t)
  {
    GuessOfBits(bits, t);
    GuessOk(t);
    Pow2Monotone(bits, BITS[t]);
    if t > 0 {
      GuessOk(t - 1);
      Pow2Monotone(BITS[t - 1], bits - 1);
    }
  }

  // Setting the lowest bit keeps the number within the same powers of two.
  lemma OddBits(n: nat)
    ensures var bits := BitLength(Odd(n));
            bits >= 1 && n < Pow2(bits) && (bits >= 2 ==> Pow2(bits - 1) <= n)
  {
    BitLengthBounds(Odd(n));
    var bits := BitLength(Odd(n));
    assert bits >= 2 ==> Pow2(bits - 1) == 2 * Pow2(bits - 2);
  }

  lemma GuessBounds(n: nat)
    requires n < TWO64
    ensures var t := Estimate(n);
            && t < 20 && n < Pow10(t + 1)
            && (t > 0 ==> Pow10(t - 1) <= n && POWERS_OF_10[t] == Pow10(t))
  {
    BitsOfWord(Odd(n));
    OddBits(n);
    GuessForBits(n, BitLength(Odd(n)), Estimate(n));
  }

  // Every 64-bit number is printed with as many digits as the guess, corrected by the table, says.
  lemma DigitsRight(n: nat)
    requires n < TWO64
    ensures Estimate(n) < 20 && Digits10(n) == |Numeral(n)|
  {
    GuessBounds(n);
    DigitsFromGuess(n, Estimate(n));
  }

  lemma DigitsFromGuess(n: nat, t: nat)
    requires t < 20 && n < Pow10(t + 1) && (t > 0 ==> Pow10(t - 1) <= n && POWERS_OF_10[t] == Pow10(t))
    ensures t - (if n < POWERS_OF_10[t] then 1 else 0) + 1 == |Numeral(n)|
  {
    if n < POWERS_OF_10[t] {
      NumeralLength(n, t);
    } else {
      NumeralLength(n, t + 1);
    }
  }

  // ----- Printing

  // The table of digit pairs, as the source writes it: ten rows of ten pairs.
  const DIGIT_PAIRS: seq<string> :=
    ["00010203040506070809",
     "10111213141516171819",
     "20212223242526272829",
     "30313233343536373839",
     "40414243444546474849",
     "50515253545556575859",
     "60616263646566676869",
     "70717273747576777879",
     "80818283848586878889",
     "90919293949596979899"]

  // The character at offset `k` of the table.
  function PairChar(k: nat): char
    requires k < 200
  {
    DIGIT_PAIRS[k / 20][k % 20]
  }

  lemma PairIsTwoDigits(r: nat)
    requires r < 100
    ensures PairChar(2 * r) == Digit(r / 10) && PairChar(2 * r + 1) == Digit(r % 10)
  {
    var row, col := r / 10, r % 10;
    assert (2 * r) / 20 == row && (2 * r) % 20 == 2 * col && (2 * r + 1) / 20 == row && (2 * r + 1) % 20 == 2 * col + 1;
    RowIs(row, col);
  }

  lemma RowIs(row: nat, col: nat)
    requires row < 10 && col < 10
    ensures DIGIT_PAIRS[row][2 * col] == Digit(row) && DIGIT_PAIRS[row][2 * col + 1] == Digit(col)
  {
    RowText(row);
  }

  lemma RowText(row: nat)
    requires row < 10
    ensures var d := Digit(row);
            DIGIT_PAIRS[row] == [d, '0', d, '1', d, '2', d, '3', d, '4', d, '5', d, '6', d, '7', d, '8', d, '9']
  {
  }

  lemma NumeralPair(v: nat)
    requires v >= 100
    ensures Numeral(v) == Numeral(v / 100) + [Digit(v % 100 / 10), Digit(v % 10)]
  {
    assert v / 10 / 10 == v / 100 && v / 10 % 10 == v % 100 / 10;
    assert Numeral(v / 10) == Numeral(v / 100) + [Digit(v / 10 % 10)];
  }

  // Two characters of the table, ending at `c`.
  method PutPair(dst: array<char>, c: nat, r: nat)
    requires 1 <= c < dst.Length && r < 100
    modifies dst
    ensures dst[c - 1] == Digit(r / 10) && dst[c] == Digit(r % 10)
    ensures forall i :: 0 <= i < dst.Length && i != c - 1 && i != c ==> dst[i] == old(dst[i])
  {
    PairIsTwoDigits(r);
    dst[c - 1], dst[c] := PairChar(2 * r), PairChar(2 * r + 1);
  }

  lemma PairAtEnd(num: string, c: nat, head: string, a: char, b: char)
    requires c < |num| && num[..c + 1] == head + [a, b]
    ensures c >= 1 && num[..c - 1] == head && num[c - 1] == a && num[c] == b
  {
    assert |head| == c - 1;
    assert num[..c - 1] == num[..c + 1][..c - 1];
    assert num[c - 1] == num[..c + 1][c - 1] && num[c] == num[..c + 1][c];
  }

  lemma LastDigit(v: nat)
    ensures v % 100 % 10 == v % 10
  {
  }

  lemma LastPair(v: nat, num: string, c: nat)
    requires v >= 100 && c < |num| && Numeral(v) == num[..c + 1]
    ensures c >= 2 && num[c - 1] == Digit(v % 100 / 10) && num[c] == Digit(v % 100 % 10)
    ensures Numeral(v / 100) == num[..c - 1]
  {
    NumeralPair(v);
    LastDigit(v);
    PairAtEnd(num, c, Numeral(v / 100), Digit(v % 100 / 10), Digit(v % 10));
  }

  // The digits of `v0`, filled in from the last to the first.
  method Fill(v0: nat, dst: array<char>, size: nat)
    requires size == |Numeral(v0)| <= dst.Length
    modifies dst
    ensures forall i :: 0 <= i < size ==> dst[i] == Numeral(v0)[i]
    ensures forall i :: size <= i < dst.Length ==> dst[i] == old(dst[i])
  {
    ghost var num := Numeral(v0);
    var v, c := v0, size - 1;
    while v >= 100
      invariant 0 <= c < size && |Numeral(v)| == c + 1
      invariant Numeral(v) == num[..c + 1]
      invariant forall i :: c < i < size ==> dst[i] == num[i]
      invariant forall i :: size <= i < dst.Length ==> dst[i] == old(dst[i])
    {
      LastPair(v, num, c);
      PutPair(dst, c, v % 100);
      v := v / 100;
      c := c - 2;
    }
    assert forall i :: 0 <= i <= c ==> num[i] == Numeral(v)[i];
    if v < 10 {
      dst[c] := '0' + v as char;
    } else {
      assert Numeral(v) == [Digit(v / 10), Digit(v % 10)];
      PutPair(dst, c, v);
    }
  }

  // uint64_2_str: fills exactly the first digits10_uint64(v) characters.
  method ToString(v: nat, dst: array<char>) returns (size: nat)
    requires v < TWO64 && |Numeral(v)| <= dst.Length
    modifies dst
    ensures size == |Numeral(v)| && dst[..size] == Numeral(v)
    ensures forall i :: size <= i < dst.Length ==> dst[i] == old(dst[i])
  {
    DigitsRight(v);
    size := Digits10(v);
    Fill(v, dst, size);
  }

  // ----- Reading

  predicate IsDigit(ch: char) {
    '0' <= ch <= '9'
  }

  // The value of the digits at the start of `s`, continuing from `n`.
  function Value(s: string, n: nat): nat {
    if s == "" || !IsDigit(s[0]) then n else Value(s[1..], 10 * n + (s[0] as nat - '0' as nat))
  }

  // str2uint64_t, on the characters in front of the terminator; the result wraps at 64 bits.
  method FromString(s: string) returns (n: nat)
    ensures n == Value(s, 0) % TWO64
  {
    n := 0;
    var i := 0;
    ghost var exact: nat := 0;
    while i < |s| && IsDigit(s[i])
      invariant i <= |s| && n == exact % TWO64 && Value(s[i..], exact) == Value(s, 0)
    {
      var d := s[i] as nat - '0' as nat;
      WrapStep(exact, d);
      assert s[i..][1..] == s[i + 1..];
      n := (n * 10) % TWO64;
      n := (n + d) % TWO64;
      exact := 10 * exact + d;
      i := i + 1;
    }
  }

  // Wrapping at each step is wrapping once at the end.
  lemma WrapStep(x: nat, d: nat)
    ensures ((x % TWO64 * 10) % TWO64 + d) % TWO64 == (10 * x + d) % TWO64
  {
    var q, r := x / TWO64, x % TWO64;
    var q', r' := r * 10 / TWO64, (r * 10) % TWO64;
    assert 10 * x + d == (10 * q + q') * TWO64 + (r' + d);
    ModPlus(r' + d, 10 * q + q');
  }

  lemma {:induction false} ModPlus(a: nat, k: nat)
    ensures (k * TWO64 + a) % TWO64 == a % TWO64
  {
    if k > 0 {
      ModPlus(a, k - 1);
      assert k * TWO64 + a == (k - 1) * TWO64 + a + TWO64;
    }
  }

  lemma {:induction false} ValueAppend(s: string, t: string, n: nat)
    requires forall i :: 0 <= i < |s| ==> IsDigit(s[i])
    ensures Value(s + t, n) == Value(t, Value(s, n))
  {
    if s == "" {
      assert s + t == t;
    } else {
      assert (s + t)[1..] == s[1..] + t;
      ValueAppend(s[1..], t, 10 * n + (s[0] as nat - '0' as nat));
    }
  }

  lemma {:induction false} NumeralDigits(v: nat)
    ensures forall i :: 0 <= i < |Numeral(v)| ==> IsDigit(Numeral(v)[i])
  {
    if v >= 10 { NumeralDigits(v / 10); }
  }

  lemma {:induction false} ValueOfNumeral(v: nat)
    ensures Value(Numeral(v), 0) == v
  {
    if v < 10 {
      assert Numeral(v)[1..] == "";
    } else {
      ValueOfNumeral(v / 10);
      NumeralDigits(v / 10);
      var last := [Digit(v % 10)];
      ValueAppend(Numeral(v / 10), last, 0);
      assert last[1..] == "";
    }
  }

  // What is printed reads back, whatever follows it, as long as that is not another digit.
  lemma PrintedReadsBack(v: nat, rest: string)
    requires v < TWO64 && (rest == "" || !IsDigit(rest[0]))
    ensures Value(Numeral(v) + rest, 0) % TWO64 == v
  {
    NumeralDigits(v);
    ValueAppend(Numeral(v), rest, 0);
    ValueOfNumeral(v);
  }

  // Zeros in front do not count, and a text without a digit in front counts zero.
  lemma ZerosInFront(s: string)
    ensures Value("0" + s, 0) == Value(s, 0)
    ensures s == "" || !IsDigit(s[0]) ==> Value(s, 0) == 0
  {
    assert ("0" + s)[1..] == s;
  }

  // Numerals of different numbers differ.
  lemma NumeralInjective(v: nat, w: nat)
    requires Numeral(v) == Numeral(w)
    ensures v == w
  {
    ValueOfNumeral(v);
    ValueOfNumeral(w);
  }
}
