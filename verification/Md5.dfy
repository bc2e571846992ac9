/**
 The MD5 digest of utils/md5.c against sections 3.1 to 3.5 of RFC 1321.
 */
module Md5 {
  import opened Integers

  type Byte = x: int | 0 <= x < 256

  // ----- RFC 1321: what happens to single words

  type Word = bv32
  type Shift = n: bv8 | 1 <= n <= 31 witness 1

  function F(x: Word, y: Word, z: Word): Word { (x & y) | (!x & z) }
  function G(x: Word, y: Word, z: Word): Word { (x & z) | (y & !z) }
  function H(x: Word, y: Word, z: Word): Word { x ^ y ^ z }
  function I(x: Word, y: Word, z: Word): Word { y ^ (x | !z) }

  // The auxiliary function of a round.
  function Aux(round: nat, x: Word, y: Word, z: Word): Word {
    if round == 0 then F(x, y, z) else if round == 1 then G(x, y, z) else if round == 2 then H(x, y, z) else I(x, y, z)
  }

  function RotateLeft(x: Word, n: Shift): Word {
    (x << n) | (x >> (32 - n))
  }

  const SINES: seq<seq<Word>> := [
    [0xd76aa478, 0xe8c7b756, 0x242070db, 0xc1bdceee, 0xf57c0faf, 0x4787c62a, 0xa8304613, 0xfd469501,
     0x698098d8, 0x8b44f7af, 0xffff5bb1, 0x895cd7be, 0x6b901122, 0xfd987193, 0xa679438e, 0x49b40821],
    [0xf61e2562, 0xc040b340, 0x265e5a51, 0xe9b6c7aa, 0xd62f105d, 0x02441453, 0xd8a1e681, 0xe7d3fbc8,
     0x21e1cde6, 0xc33707d6, 0xf4d50d87, 0x455a14ed, 0xa9e3e905, 0xfcefa3f8, 0x676f02d9, 0x8d2a4c8a],
    [0xfffa3942, 0x8771f681, 0x6d9d6122, 0xfde5380c, 0xa4beea44, 0x4bdecfa9, 0xf6bb4b60, 0xbebfbc70,
     0x289b7ec6, 0xeaa127fa, 0xd4ef3085, 0x04881d05, 0xd9d4d039, 0xe6db99e5, 0x1fa27cf8, 0xc4ac5665],
    [0xf4292244, 0x432aff97, 0xab9423a7, 0xfc93a039, 0x655b59c3, 0x8f0ccc92, 0xffeff47d, 0x85845dd1,
     0x6fa87e4f, 0xfe2ce6e0, 0xa3014314, 0x4e0811a1, 0xf7537e82, 0xbd3af235, 0x2ad7d2bb, 0xeb86d391]]

  function Sine(round: nat, n: nat): Word {
    if round < 4 && n < 16 then SINES[round][n] else 0
  }

  // a = b + ((a + f(b, c, d) + x + t) <<< s), in operation `n` of a round
  function Mix(round: nat, n: nat, a: Word, b: Word, c: Word, d: Word, x: Word, s: Shift): Word {
    b + RotateLeft(a + Aux(round, b, c, d) + x + Sine(round, n), s)
  }

  function Add(x: Word, y: Word): Word { x + y }

  // Bytes make words low-order byte first,
  function Load(b0: Byte, b1: Byte, b2: Byte, b3: Byte): Word {
    var n0: int, n1: int, n2: int, n3: int := b0, b1, b2, b3;
    (n0 + 0x100 * n1 + 0x1_0000 * n2 + 0x100_0000 * n3) as bv32
  }

  // and words make bytes the same way.
  function Store(w: Word): seq<Byte> {
    Bytes(w as int, 4)
  }

  // A number as `k` bytes, low-order byte first.
  function Bytes(v: nat, k: nat): (b: seq<Byte>)
    ensures |b| == k
  {
    if k == 0 then [] else [v % 256] + Bytes(v / 256, k - 1)
  }

  // ----- What is known of these apart from their definitions

  // Bit by bit, F is "if x then y else z" and G "if z then x else y", H is a parity, and I is `y`
  // flipped where `x` or not `z`.
  lemma FChooses(x: Word, y: Word, z: Word)
    ensures F(x, y, z) & x == y & x && F(x, y, z) & !x == z & !x
  {
  }

  lemma GChooses(x: Word, y: Word, z: Word)
    ensures G(x, y, z) & z == x & z && G(x, y, z) & !z == y & !z
  {
  }

  lemma HIsParity(x: Word, y: Word, z: Word)
    ensures H(x, y, z) ^ x ^ y ^ z == 0
  {
  }

  lemma IFlips(x: Word, y: Word, z: Word)
    ensures I(x, y, z) ^ y == x | !z
  {
  }

  // The shifts and ors rotate, by each of the amounts that occur.
  lemma Rotates(x: Word)
    ensures RotateLeft(x, 7) == x.RotateLeft(7) && RotateLeft(x, 12) == x.RotateLeft(12)
    ensures RotateLeft(x, 17) == x.RotateLeft(17) && RotateLeft(x, 22) == x.RotateLeft(22)
    ensures RotateLeft(x, 5) == x.RotateLeft(5) && RotateLeft(x, 9) == x.RotateLeft(9)
    ensures RotateLeft(x, 14) == x.RotateLeft(14) && RotateLeft(x, 20) == x.RotateLeft(20)
    ensures RotateLeft(x, 4) == x.RotateLeft(4) && RotateLeft(x, 11) == x.RotateLeft(11)
    ensures RotateLeft(x, 16) == x.RotateLeft(16) && RotateLeft(x, 23) == x.RotateLeft(23)
    ensures RotateLeft(x, 6) == x.RotateLeft(6) && RotateLeft(x, 10) == x.RotateLeft(10)
    ensures RotateLeft(x, 15) == x.RotateLeft(15) && RotateLeft(x, 21) == x.RotateLeft(21)
  {
  }

  // The number that bytes make, low-order byte first.
  function Number(b: seq<Byte>): nat {
    if b == [] then 0 else b[0] + 256 * Number(b[1..])
  }

  lemma {:induction false} BytesMakeNumber(v: nat, k: nat)
    requires v < Power256(k)
    ensures Number(Bytes(v, k)) == v
  {
    if k > 0 {
      assert Bytes(v, k)[1..] == Bytes(v / 256, k - 1);
      BytesMakeNumber(v / 256, k - 1);
    }
  }

  // The registers start from the bytes of section 3.3.
  lemma InitialBytes()
    ensures Store(0x67452301) == [0x01, 0x23, 0x45, 0x67] && Store(0xefcdab89) == [0x89, 0xab, 0xcd, 0xef]
    ensures Store(0x98badcfe) == [0xfe, 0xdc, 0xba, 0x98] && Store(0x10325476) == [0x76, 0x54, 0x32, 0x10]
    ensures MD5.initial == Regs(0x67452301, 0xefcdab89, 0x98badcfe, 0x10325476)
  {
    FourBytes(0x67452301);
    FourBytes(0xefcdab89);
    FourBytes(0x98badcfe);
    FourBytes(0x10325476);
  }

  lemma FourBytes(v: nat)
    ensures Bytes(v, 4) == [v % 256, v / 256 % 256, v / 256 / 256 % 256, v / 256 / 256 / 256 % 256]
  {
    var v1 := v / 256;
    var v2 := v1 / 256;
    var v3 := v2 / 256;
    assert Bytes(v3, 1) == [v3 % 256];
    assert Bytes(v2, 2) == [v2 % 256] + Bytes(v3, 1);
    assert Bytes(v1, 3) == [v1 % 256] + Bytes(v2, 2);
  }

  // Loading a word is the inverse of storing it.
  lemma LoadMakesNumber(b0: Byte, b1: Byte, b2: Byte, b3: Byte)
    ensures Number([b0, b1, b2, b3]) < 0x1_0000_0000 && Load(b0, b1, b2, b3) == Number([b0, b1, b2, b3]) as Word
  {
    FourNumber(b0, b1, b2, b3);
  }

  lemma FourNumber(b0: nat, b1: nat, b2: nat, b3: nat)
    requires b0 < 256 && b1 < 256 && b2 < 256 && b3 < 256
    ensures Number([b0, b1, b2, b3]) == b0 + 0x100 * b1 + 0x1_0000 * b2 + 0x100_0000 * b3 < TWO32
  {
    assert [b0, b1, b2, b3][1..] == [b1, b2, b3] && [b1, b2, b3][1..] == [b2, b3] && [b2, b3][1..] == [b3];
    assert Number([b3]) == b3 by { assert [b3][1..] == []; }
    assert Number([b2, b3]) == b2 + 256 * b3;
    assert Number([b1, b2, b3]) == b1 + 256 * (b2 + 256 * b3);
  }

  // ----- RFC 1321: the order in which it happens

  datatype Regs<W> = Regs(a: W, b: W, c: W, d: W)

  // The operations on single words.  Nothing about the order of things depends on what they are.
  datatype Words<!W> = Words(
    mix: (nat, nat, W, W, W, W, W, Shift) -> W,
    add: (W, W) -> W,
    load: (Byte, Byte, Byte, Byte) -> W,
    store: W -> seq<Byte>,
    initial: Regs<W>)

  const MD5 := Words(Mix, Add, Load, Store, Regs(0x67452301, 0xefcdab89, 0x98badcfe, 0x10325476))

  // Section 3.4: the message words in the order the operations of each round take them.
  const WORD_ORDER: seq<seq<nat>> := [
    [0, 1, 2, 3, 4, 5, 6, 7, 8, 9, 10, 11, 12, 13, 14, 15],
    [1, 6, 11, 0, 5, 10, 15, 4, 9, 14, 3, 8, 13, 2, 7, 12],
    [5, 8, 11, 14, 1, 4, 7, 10, 13, 0, 3, 6, 9, 12, 15, 2],
    [0, 7, 14, 5, 12, 3, 10, 1, 8, 15, 6, 13, 4, 11, 2, 9]]

  // Section 3.4: the shifts, which repeat every four operations of a round.
  const SHIFTS: seq<seq<Shift>> := [[7, 12, 17, 22], [5, 9, 14, 20], [4, 11, 16, 23], [6, 10, 15, 21]]

  // Operation `n` of a round of section 3.4; the register it changes goes round as A, D, C, B.
  function Operation<W>(p: Words<W>, q: Regs<W>, block: seq<W>, round: nat, n: nat): Regs<W>
    requires round < 4 && n < 16 && |block| == 16
  {
    var x, s := block[WORD_ORDER[round][n]], SHIFTS[round][n % 4];
    if n % 4 == 0 then q.(a := p.mix(round, n, q.a, q.b, q.c, q.d, x, s))
    else if n % 4 == 1 then q.(d := p.mix(round, n, q.d, q.a, q.b, q.c, x, s))
    else if n % 4 == 2 then q.(c := p.mix(round, n, q.c, q.d, q.a, q.b, x, s))
    else q.(b := p.mix(round, n, q.b, q.c, q.d, q.a, x, s))
  }

  // The first `n` of the 16 operations of a round.
  function Operations<W>(p: Words<W>, q: Regs<W>, block: seq<W>, round: nat, n: nat): Regs<W>
    requires round < 4 && n <= 16 && |block| == 16
  {
    if n == 0 then q else Operation(p, Operations(p, q, block, round, n - 1), block, round, n - 1)
  }

  // The first `k` of the four rounds.
  function Rounds<W>(p: Words<W>, q: Regs<W>, block: seq<W>, k: nat): Regs<W>
    requires k <= 4 && |block| == 16
  {
    if k == 0 then q else Operations(p, Rounds(p, q, block, k - 1), block, k - 1, 16)
  }

  function BlockStep<W>(p: Words<W>, q: Regs<W>, block: seq<W>): Regs<W>
    requires |block| == 16
  {
    var r := Rounds(p, q, block, 4);
    Regs(p.add(q.a, r.a), p.add(q.b, r.b), p.add(q.c, r.c), p.add(q.d, r.d))
  }

  function WordAt<W>(p: Words<W>, data: seq<Byte>, k: nat): W
    requires 4 * k + 3 < |data|
  {
    p.load(data[4 * k], data[4 * k + 1], data[4 * k + 2], data[4 * k + 3])
  }

  function BlockWords<W>(p: Words<W>, data: seq<Byte>): (w: seq<W>)
    requires |data| == 64
    ensures |w| == 16
  {
    seq(16, k requires 0 <= k < 16 => WordAt(p, data, k))
  }

  function Fold<W>(p: Words<W>, q: Regs<W>, data: seq<Byte>): Regs<W>
    requires |data| % 64 == 0
    decreases |data|
  {
    if data == [] then q else Fold(p, BlockStep(p, q, BlockWords(p, data[..64])), data[64..])
  }

  function Zeros(n: nat): (z: seq<Byte>)
    ensures |z| == n
  {
    seq(n, _ => 0)
  }

  // Sections 3.1 and 3.2: a one bit, zeros up to 448 bits modulo 512, and `bits` in eight bytes.
  function Padded(m: seq<Byte>, bits: nat): (r: seq<Byte>)
    ensures |r| % 64 == 0
  {
    m + [0x80] + Zeros((119 - |m| % 64) % 64) + Bytes(bits, 8)
  }

  function Encoded<W>(p: Words<W>, q: Regs<W>): seq<Byte> {
    p.store(q.a) + p.store(q.b) + p.store(q.c) + p.store(q.d)
  }

  // The digest of the standard; only the low 64 bits of the length in bits are used.
  function Digest<W>(p: Words<W>, m: seq<Byte>): seq<Byte> {
    Encoded(p, Fold(p, p.initial, Padded(m, (8 * |m|) % TWO64)))
  }

  // ----- The code's schedule

  const COEFFICIENTS: seq<seq<nat>> := [[0, 1], [1, 5], [5, 3], [0, 7]]

  // __md5_rotr on eight bits.
  function RotateRight8(x: bv8, n: nat): bv8
    requires n <= 8
  {
    (x >> n) | (x << (8 - n))
  }

  // 27 packs the register numbers 0, 1, 2, 3 in pairs of bits.
  function Packed(n: nat): bv8 {
    RotateRight8(27, n % 4 * 2)
  }

  // The register the code uses as `a`, `b`, `c` or `d` (j = 0 .. 3) in operation n of a round.
  function Register(n: nat, j: nat): nat
    requires j < 4
  {
    ((Packed(n) >> (6 - 2 * j)) & 3) as int
  }

  lemma RegistersGoRound(n: nat)
    ensures n % 4 == 0 ==> Register(n, 0) == 0 && Register(n, 1) == 1 && Register(n, 2) == 2 && Register(n, 3) == 3
    ensures n % 4 == 1 ==> Register(n, 0) == 3 && Register(n, 1) == 0 && Register(n, 2) == 1 && Register(n, 3) == 2
    ensures n % 4 == 2 ==> Register(n, 0) == 2 && Register(n, 1) == 3 && Register(n, 2) == 0 && Register(n, 3) == 1
    ensures n % 4 == 3 ==> Register(n, 0) == 1 && Register(n, 1) == 2 && Register(n, 2) == 3 && Register(n, 3) == 0
  {
  }

  // The index arithmetic of the code gives the order of the standard, round by round.
  lemma WordsInOrder(round: nat, n: nat)
    requires round < 4 && n < 16
    ensures (COEFFICIENTS[round][0] + n * COEFFICIENTS[round][1]) % 16 == WORD_ORDER[round][n]
  {
    var c := COEFFICIENTS[round];
    if round == 0 {
      assert c == [0, 1];
      RoundOne(n);
    } else if round == 1 {
      assert c == [1, 5];
      RoundTwo(n);
    } else if round == 2 {
      assert c == [5, 3];
      RoundThree(n);
    } else {
      assert c == [0, 7];
      RoundFour(n);
    }
  }

  lemma RoundOne(n: nat)
    requires n < 16
    ensures n % 16 == WORD_ORDER[0][n]
  {
  }

  lemma RoundTwo(n: nat)
    requires n < 16
    ensures (1 + n * 5) % 16 == WORD_ORDER[1][n]
  {
  }

  lemma RoundThree(n: nat)
    requires n < 16
    ensures (5 + n * 3) % 16 == WORD_ORDER[2][n]
  {
  }

  lemma RoundFour(n: nat)
    requires n < 16
    ensures (n * 7) % 16 == WORD_ORDER[3][n]
  {
  }

  // ----- The code

  ghost function RegsOf<W>(s: seq<W>): Regs<W>
    requires |s| == 4
  {
    Regs(s[0], s[1], s[2], s[3])
  }

  // One turn of the inner loop of __md5_transform.
  method Turn<W>(p: Words<W>, s: array<W>, x: seq<Byte>, r: nat, n: nat)
    requires s.Length == 4 && |x| == 64 && r < 4 && n < 16
    modifies s
    ensures RegsOf(s[..]) == Operation(p, old(RegsOf(s[..])), BlockWords(p, x), r, n)
  {
    RegistersGoRound(n);
    WordsInOrder(r, n);
    var word := WordAt(p, x, (COEFFICIENTS[r][0] + n * COEFFICIENTS[r][1]) % 16);
    assert word == BlockWords(p, x)[WORD_ORDER[r][n]];
    s[Register(n, 0)] := p.mix(r, n, s[Register(n, 0)], s[Register(n, 1)], s[Register(n, 2)], s[Register(n, 3)],
                               word, SHIFTS[r][n % 4]);
  }

  // The inner loop of __md5_transform.
  method Round<W>(p: Words<W>, s: array<W>, x: seq<Byte>, r: nat)
    requires s.Length == 4 && |x| == 64 && r < 4
    modifies s
    ensures RegsOf(s[..]) == Operations(p, old(RegsOf(s[..])), BlockWords(p, x), r, 16)
  {
    ghost var q := RegsOf(s[..]);
    for n := 0 to 16
      invariant RegsOf(s[..]) == Operations(p, q, BlockWords(p, x), r, n)
    {
      Turn(p, s, x, r, n);
    }
  }

  // The outer loop of __md5_transform.
  method AllRounds<W>(p: Words<W>, s: array<W>, x: seq<Byte>)
    requires s.Length == 4 && |x| == 64
    modifies s
    ensures RegsOf(s[..]) == Rounds(p, old(RegsOf(s[..])), BlockWords(p, x), 4)
  {
    ghost var q := RegsOf(s[..]);
    for r := 0 to 4
      invariant RegsOf(s[..]) == Rounds(p, q, BlockWords(p, x), r)
    {
      Round(p, s, x, r);
    }
  }

  lemma RestOf(n: nat, at: nat, rest: nat)
    requires at % 64 == 0 && rest < 64 && n == at + rest
    ensures rest == n % 64
  {
  }

  class Hasher<W> {
    const p: Words<W>
    const state: array<W>

    // __md5_init
    constructor (p: Words<W>)
      ensures this.p == p && fresh(state) && state.Length == 4 && RegsOf(state[..]) == p.initial
    {
      this.p := p;
      state := new W[4] [p.initial.a, p.initial.b, p.initial.c, p.initial.d];
    }

    // The final additions of __md5_transform.
    method AddTo(s: array<W>)
      requires state.Length == 4 && s.Length == 4 && s != state
      modifies state
      ensures forall j :: 0 <= j < 4 ==> state[j] == p.add(old(state[j]), s[j])
    {
      for i := 0 to 4
        invariant forall j :: 0 <= j < 4 ==> state[j] == if j < i then p.add(old(state[j]), s[j]) else old(state[j])
      {
        state[i] := p.add(state[i], s[i]);
      }
    }

    // __md5_transform
    method Transform(x: seq<Byte>)
      requires state.Length == 4 && |x| == 64
      modifies state
      ensures RegsOf(state[..]) == BlockStep(p, old(RegsOf(state[..])), BlockWords(p, x))
    {
      var s := new W[4] [state[0], state[1], state[2], state[3]];
      assert RegsOf(s[..]) == RegsOf(state[..]);
      AllRounds(p, s, x);
      AddTo(s);
    }

    method TakeBlock(src: seq<Byte>, at: nat, ghost q: Regs<W>)
      requires state.Length == 4 && at + 64 <= |src| && at % 64 == 0 && RegsOf(state[..]) == Fold(p, q, src[..at])
      modifies state
      ensures RegsOf(state[..]) == Fold(p, q, src[..at + 64])
      ensures (at + 64) % 64 == 0
    {
      FoldBlock(p, q, src, at);
      Transform(src[at..at + 64]);
    }

    // The loop of __md5_proc over the whole blocks.
    method Blocks(src: seq<Byte>) returns (rest: nat)
      requires state.Length == 4
      modifies state
      ensures rest == |src| % 64
      ensures RegsOf(state[..]) == Fold(p, old(RegsOf(state[..])), src[..|src| - rest])
    {
      var at := 0;
      rest := |src|;
      ghost var q := RegsOf(state[..]);
      assert src[..0] == [];
      while rest >= 64
        invariant at + rest == |src| && at % 64 == 0
        invariant RegsOf(state[..]) == Fold(p, q, src[..at])
      {
        TakeBlock(src, at, q);
        at := at + 64;
        rest := rest - 64;
      }
      RestOf(|src|, at, rest);
    }

    // The buffer at the end of __md5_proc: the rest of the message, the one bit and zeros.
    method LastBuffer(tail: seq<Byte>) returns (buf: array<Byte>)
      requires |tail| < 64
      ensures fresh(buf) && buf[..] == tail + [0x80] + Zeros(63 - |tail|)
    {
      var rst := |tail|;
      buf := new Byte[64](i requires 0 <= i => if i < rst then tail[i] else 0);
      buf[rst] := 0x80;
    }

    // The length in bits goes into the last eight bytes.
    method PutLength(buf: array<Byte>, bits: nat)
      requires buf.Length == 64
      modifies buf
      ensures buf[..] == old(buf[..56]) + Bytes(bits, 8)
    {
      var length := Bytes(bits, 8);
      for i := 0 to 8
        invariant forall j :: 0 <= j < 56 ==> buf[j] == old(buf[j])
        invariant forall j :: 0 <= j < i ==> buf[56 + j] == length[j]
      {
        buf[56 + i] := length[i];
      }
    }

    method ClearFront(buf: array<Byte>)
      requires buf.Length == 64
      modifies buf
      ensures buf[..56] == Zeros(56)
    {
      for i := 0 to 56
        invariant forall j :: 0 <= j < i ==> buf[j] == 0
      {
        buf[i] := 0;
      }
    }

    // The end of __md5_proc.
    method Finish(tail: seq<Byte>, bits: nat)
      requires state.Length == 4 && |tail| < 64
      modifies state
      ensures RegsOf(state[..]) == Fold(p, old(RegsOf(state[..])), Padded(tail, bits))
    {
      FoldTail(p, RegsOf(state[..]), tail, bits);
      var buf := LastBuffer(tail);
      if |tail| >= 56 {
        Transform(buf[..]);
        ClearFront(buf);
      } else {
        FrontOf(tail);
      }
      PutLength(buf, bits);
      Transform(buf[..]);
    }

    // __md5_proc; the length in bits is computed in 32 bits.
    method Proc(src: seq<Byte>)
      requires state.Length == 4 && |src| < TWO32
      modifies state
      ensures RegsOf(state[..]) == Fold(p, old(RegsOf(state[..])), Padded(src, (8 * |src|) % TWO32))
    {
      var bits := (8 * |src|) % TWO32;
      ghost var whole, q := src[..|src| - |src| % 64], RegsOf(state[..]);
      var rest := Blocks(src);
      var tail := src[|src| - rest..];
      assert src == whole + tail;
      PaddedSplits(p, q, whole, tail, bits);
      Finish(tail, bits);
    }
  }

  lemma {:induction false} FoldAppend<W>(p: Words<W>, q: Regs<W>, a: seq<Byte>, b: seq<Byte>)
    requires |a| % 64 == 0 && |b| % 64 == 0
    ensures Fold(p, q, a + b) == Fold(p, Fold(p, q, a), b)
    decreases |a|
  {
    if a == [] {
      assert a + b == b;
    } else {
      assert (a + b)[..64] == a[..64] && (a + b)[64..] == a[64..] + b;
      FoldAppend(p, BlockStep(p, q, BlockWords(p, a[..64])), a[64..], b);
    }
  }

  lemma FoldOne<W>(p: Words<W>, q: Regs<W>, b: seq<Byte>)
    requires |b| == 64
    ensures Fold(p, q, b) == BlockStep(p, q, BlockWords(p, b))
  {
    assert b[..64] == b && b[64..] == [];
  }

  lemma FoldBlock<W>(p: Words<W>, q: Regs<W>, src: seq<Byte>, at: nat)
    requires at + 64 <= |src| && at % 64 == 0
    ensures Fold(p, q, src[..at + 64]) == BlockStep(p, Fold(p, q, src[..at]), BlockWords(p, src[at..at + 64]))
  {
    assert src[..at + 64] == src[..at] + src[at..at + 64];
    FoldAppend(p, q, src[..at], src[at..at + 64]);
    FoldOne(p, Fold(p, q, src[..at]), src[at..at + 64]);
  }

  // The padding of less than a block is one block or two.
  lemma PaddedTail(tail: seq<Byte>, bits: nat)
    requires |tail| < 64
    ensures |tail| < 56 ==> Padded(tail, bits) == tail + [0x80] + Zeros(55 - |tail|) + Bytes(bits, 8)
    ensures |tail| >= 56 ==> Padded(tail, bits) == (tail + [0x80] + Zeros(63 - |tail|)) + (Zeros(56) + Bytes(bits, 8))
  {
    if |tail| >= 56 {
      assert Zeros(119 - |tail|) == Zeros(63 - |tail|) + Zeros(56);
    }
  }

  lemma FrontOf(tail: seq<Byte>)
    requires |tail| < 56
    ensures (tail + [0x80] + Zeros(63 - |tail|))[..56] == tail + [0x80] + Zeros(55 - |tail|)
  {
  }

  // So it is folded in one step or two.
  lemma FoldTail<W>(p: Words<W>, q: Regs<W>, tail: seq<Byte>, bits: nat)
    requires |tail| < 64
    ensures Fold(p, q, Padded(tail, bits)) ==
            if |tail| < 56 then BlockStep(p, q, BlockWords(p, tail + [0x80] + Zeros(55 - |tail|) + Bytes(bits, 8)))
            else BlockStep(p, BlockStep(p, q, BlockWords(p, tail + [0x80] + Zeros(63 - |tail|))), BlockWords(p, Zeros(56) + Bytes(bits, 8)))
  {
    PaddedTail(tail, bits);
    if |tail| < 56 {
      FoldOne(p, q, Padded(tail, bits));
    } else {
      var first, second := tail + [0x80] + Zeros(63 - |tail|), Zeros(56) + Bytes(bits, 8);
      FoldAppend(p, q, first, second);
      FoldOne(p, q, first);
      FoldOne(p, Fold(p, q, first), second);
    }
  }

  // Whole blocks in front do not change the padding.
  lemma PaddedSplits<W>(p: Words<W>, q: Regs<W>, whole: seq<Byte>, tail: seq<Byte>, bits: nat)
    requires |whole| % 64 == 0 && |tail| < 64
    ensures Fold(p, q, Padded(whole + tail, bits)) == Fold(p, Fold(p, q, whole), Padded(tail, bits))
  {
    assert |whole + tail| % 64 == |tail| % 64;
    assert Padded(whole + tail, bits) == whole + Padded(tail, bits);
    FoldAppend(p, q, whole, Padded(tail, bits));
  }

  // md5_calc: what the code computes of any message whose length fits in 32 bits.
  method Calc<W>(p: Words<W>, src: seq<Byte>) returns (enc: seq<Byte>)
    requires |src| < TWO32
    ensures enc == Encoded(p, Fold(p, p.initial, Padded(src, (8 * |src|) % TWO32)))
  {
    var h := new Hasher(p);
    h.Proc(src);
    enc := p.store(h.state[0]) + p.store(h.state[1]) + p.store(h.state[2]) + p.store(h.state[3]);
  }

  // ----- When the code follows the standard

  lemma {:induction false} BytesInjective(v: nat, w: nat, k: nat)
    requires Bytes(v, k) == Bytes(w, k) && v < Power256(k) && w < Power256(k)
    ensures v == w
  {
    if k > 0 {
      assert Bytes(v, k)[0] == v % 256 && Bytes(w, k)[0] == w % 256;
      assert Bytes(v, k)[1..] == Bytes(v / 256, k - 1) && Bytes(w, k)[1..] == Bytes(w / 256, k - 1);
      BytesInjective(v / 256, w / 256, k - 1);
    }
  }

  function Power256(k: nat): nat {
    if k == 0 then 1 else 256 * Power256(k - 1)
  }

  lemma EightBytes()
    ensures Power256(8) == TWO64
  {
    assert Power256(4) == TWO32;
  }

  lemma PaddedEnds(m: seq<Byte>, bits: nat)
    ensures var n := |Padded(m, bits)| - 8;
            n >= 0 && Padded(m, bits)[n..] == Bytes(bits, 8)
  {
  }

  lemma PaddedInjective(m: seq<Byte>, v: nat, w: nat)
    requires v < TWO64 && w < TWO64
    ensures Padded(m, v) == Padded(m, w) <==> v == w
  {
    if Padded(m, v) == Padded(m, w) {
      PaddedEnds(m, v);
      PaddedEnds(m, w);
      EightBytes();
      BytesInjective(v, w, 8);
    }
  }

  lemma LowBits(n: nat)
    requires n < TWO32
    ensures (8 * n) % TWO64 == 8 * n
    ensures (8 * n) % TWO32 == 8 * n <==> n < 0x2000_0000
  {
  }

  // The code pads as the standard does exactly when the message is shorter than 2^29 bytes.
  lemma PaddingFollowsStandard(m: seq<Byte>)
    requires |m| < TWO32
    ensures Padded(m, (8 * |m|) % TWO32) == Padded(m, (8 * |m|) % TWO64) <==> |m| < 0x2000_0000
  {
    LowBits(|m|);
    PaddedInjective(m, (8 * |m|) % TWO32, (8 * |m|) % TWO64);
  }

  // So for every shorter message the code computes the digest of the standard.
  method Md5Calc(src: seq<Byte>) returns (enc: seq<Byte>)
    requires |src| < 0x2000_0000
    ensures enc == Digest(MD5, src)
  {
    PaddingFollowsStandard(src);
    enc := Calc(MD5, src);
  }
}
