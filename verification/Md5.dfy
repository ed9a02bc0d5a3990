/**
  MD5: the padding done on the fly and the rotating registers, against RFC 1321.
 */
module Md5 {
  // ---- RFC 1321 ------------------------------------------------------------------------

  /** The table T of the RFC, a row for each round. */
  const T1: seq<bv32> := [
    0xd76aa478, 0xe8c7b756, 0x242070db, 0xc1bdceee, 0xf57c0faf, 0x4787c62a, 0xa8304613, 0xfd469501,
    0x698098d8, 0x8b44f7af, 0xffff5bb1, 0x895cd7be, 0x6b901122, 0xfd987193, 0xa679438e, 0x49b40821]
  const T2: seq<bv32> := [
    0xf61e2562, 0xc040b340, 0x265e5a51, 0xe9b6c7aa, 0xd62f105d, 0x02441453, 0xd8a1e681, 0xe7d3fbc8,
    0x21e1cde6, 0xc33707d6, 0xf4d50d87, 0x455a14ed, 0xa9e3e905, 0xfcefa3f8, 0x676f02d9, 0x8d2a4c8a]
  const T3: seq<bv32> := [
    0xfffa3942, 0x8771f681, 0x6d9d6122, 0xfde5380c, 0xa4beea44, 0x4bdecfa9, 0xf6bb4b60, 0xbebfbc70,
    0x289b7ec6, 0xeaa127fa, 0xd4ef3085, 0x04881d05, 0xd9d4d039, 0xe6db99e5, 0x1fa27cf8, 0xc4ac5665]
  const T4: seq<bv32> := [
    0xf4292244, 0x432aff97, 0xab9423a7, 0xfc93a039, 0x655b59c3, 0x8f0ccc92, 0xffeff47d, 0x85845dd1,
    0x6fa87e4f, 0xfe2ce6e0, 0xa3014314, 0x4e0811a1, 0xf7537e82, 0xbd3af235, 0x2ad7d2bb, 0xeb86d391]

  type Index16 = g: nat | g < 16

  /** The word of the block used in each operation, round by round as section 3.4 lists them. */
  const K1: seq<Index16> := [0, 1, 2, 3, 4, 5, 6, 7, 8, 9, 10, 11, 12, 13, 14, 15]
  const K2: seq<Index16> := [1, 6, 11, 0, 5, 10, 15, 4, 9, 14, 3, 8, 13, 2, 7, 12]
  const K3: seq<Index16> := [5, 8, 11, 14, 1, 4, 7, 10, 13, 0, 3, 6, 9, 12, 15, 2]
  const K4: seq<Index16> := [0, 7, 14, 5, 12, 3, 10, 1, 8, 15, 6, 13, 4, 11, 2, 9]

  function WordOf(i: nat): Index16
    requires i < 64
  {
    if i < 16 then K1[i] else if i < 32 then K2[i - 16] else if i < 48 then K3[i - 32] else K4[i - 48]
  }

  /** The rotation of each operation: four amounts per round, in turn. */
  function RotationOf(i: nat): (s: bv8)
    requires i < 64
    ensures s <= 32
  {
    if i < 16 then Pick(i % 4, 7, 12, 17, 22)
    else if i < 32 then Pick(i % 4, 5, 9, 14, 20)
    else if i < 48 then Pick(i % 4, 4, 11, 16, 23)
    else Pick(i % 4, 6, 10, 15, 21)
  }

  function Pick(k: nat, a: bv8, b: bv8, c: bv8, d: bv8): bv8 {
    if k == 0 then a else if k == 1 then b else if k == 2 then c else d
  }

  function F(x: bv32, y: bv32, z: bv32): bv32 { (x & y) | (!x & z) }

  function G(x: bv32, y: bv32, z: bv32): bv32 { (x & z) | (y & !z) }

  function H(x: bv32, y: bv32, z: bv32): bv32 { x ^ y ^ z }

  function I(x: bv32, y: bv32, z: bv32): bv32 { y ^ (x | !z) }

  /** left_rotate. */
  function Rotate(x: bv32, s: bv8): bv32
    requires s <= 32
  {
    (x << s) | (x >> (32 - s))
  }

  /** The four registers A, B, C, D, each fixed in its place. */
  type Registers = r: seq<bv32> | |r| == 4 witness [0, 0, 0, 0]

  function Mix(round: nat, x: bv32, y: bv32, z: bv32): bv32 {
    if round == 0 then F(x, y, z) else if round == 1 then G(x, y, z) else if round == 2 then H(x, y, z) else I(x, y, z)
  }

  function Sine(i: nat): bv32
    requires i < 64
  {
    if i < 16 then T1[i] else if i < 32 then T2[i - 16] else if i < 48 then T3[i - 32] else T4[i - 48]
  }

  /** Addition modulo 2^32, under a name, so that proofs about registers can do without its bits. */
  function Add(a: bv32, b: bv32): bv32 { a + b }

  /** What an operation adds to its second register. */
  function Amount(a: bv32, f: bv32, t: bv32, x: bv32, s: bv8): bv32
    requires s <= 32
  {
    Rotate(a + f + t + x, s)
  }

  /** What operation i makes of the first of its four registers. */
  function Changed(a: bv32, b: bv32, c: bv32, d: bv32, x: seq<bv32>, i: nat): bv32
    requires i < 64 && |x| == 16
  {
    Add(b, Amount(a, Mix(i / 16, b, c, d), Sine(i), x[WordOf(i)], RotationOf(i)))
  }

  /** Operation i: in turn on [ABCD], [DABC], [CDAB], [BCDA]. */
  function Operation(r: Registers, x: seq<bv32>, i: nat): Registers
    requires i < 64 && |x| == 16
  {
    var a := (4 - i % 4) % 4;
    var b, c, d := (a + 1) % 4, (a + 2) % 4, (a + 3) % 4;
    r[a := Changed(r[a], r[b], r[c], r[d], x, i)]
  }

  function Operations(r: Registers, x: seq<bv32>, i: nat): Registers
    requires i <= 64 && |x| == 16
    decreases 64 - i
  {
    if i == 64 then r else Operations(Operation(r, x, i), x, i + 1)
  }

  function WordAt(b: seq<bv8>, at: nat): bv32
    requires at + 4 <= |b|
  {
    (b[at] as bv32) | ((b[at + 1] as bv32) << 8) | ((b[at + 2] as bv32) << 16) | ((b[at + 3] as bv32) << 24)
  }

  function Words(block: seq<bv8>): (r: seq<bv32>)
    requires |block| == 64
    ensures |r| == 16
  {
    seq(16, g requires 0 <= g < 16 => WordAt(block, 4 * g))
  }

  function Compress(r: Registers, block: seq<bv8>): Registers
    requires |block| == 64
  {
    var q := Operations(r, Words(block), 0);
    [Add(r[0], q[0]), Add(r[1], q[1]), Add(r[2], q[2]), Add(r[3], q[3])]
  }

  function Zeros(n: nat): (r: seq<bv8>)
    ensures |r| == n
  {
    seq(n, _ => 0)
  }

  /** The low-order n bytes of a number, low-order byte first. */
  function LittleEndian(x: nat, n: nat): (r: seq<bv8>)
    ensures |r| == n
  {
    if n == 0 then [] else [(x % 256) as bv8] + LittleEndian(x / 256, n - 1)
  }

  /** Zeros between the one bit and the length: up to 56 bytes modulo 64, and no more. */
  function PadZeros(n: nat): nat {
    if n % 64 < 56 then 55 - n % 64 else 119 - n % 64
  }

  /** The message with a one bit, zeros up to 56 modulo 64 bytes, and its length in bits. */
  function Padded(m: seq<bv8>): (r: seq<bv8>)
    ensures |r| == 64 * Blocks(|m|)
  {
    m + [0x80] + Zeros(PadZeros(|m|)) + LittleEndian(8 * |m|, 8)
  }

  /** Blocks in a padded message of n bytes. */
  function Blocks(n: nat): nat {
    n / 64 + if n % 64 < 56 then 1 else 2
  }

  function Fold(r: Registers, blocks: seq<bv8>, n: nat): Registers
    requires |blocks| == 64 * n
    decreases n
  {
    hide Compress;
    if n == 0 then r else Fold(Compress(r, blocks[..64]), blocks[64..], n - 1)
  }

  const INITIAL: Registers := [0x67452301, 0xefcdab89, 0x98badcfe, 0x10325476]

  /** The digest of sections 3.1 to 3.4 of RFC 1321. */
  function Digest(m: seq<bv8>): Registers {
    Fold(INITIAL, Padded(m), Blocks(|m|))
  }

  // ---- the program ---------------------------------------------------------------------

  const ROW1: seq<bv8> := [7, 12, 17, 22, 7, 12, 17, 22, 7, 12, 17, 22, 7, 12, 17, 22]
  const ROW2: seq<bv8> := [5, 9, 14, 20, 5, 9, 14, 20, 5, 9, 14, 20, 5, 9, 14, 20]
  const ROW3: seq<bv8> := [4, 11, 16, 23, 4, 11, 16, 23, 4, 11, 16, 23, 4, 11, 16, 23]
  const ROW4: seq<bv8> := [6, 10, 15, 21, 6, 10, 15, 21, 6, 10, 15, 21, 6, 10, 15, 21]
  const TABLE1: seq<bv8> := ROW1 + ROW2 + ROW3 + ROW4

  /** The index into the block that the program computes for operation i. */
  function Index(i: nat): (g: nat)
    ensures g < 16
  {
    if i < 16 then i
    else if i < 32 then (5 * i + 1) % 16
    else if i < 48 then (3 * i + 5) % 16
    else (7 * i) % 16
  }

  /** The registers as the program shifts them around, before operation i. */
  predicate Turned(r: Registers, i: nat, a: bv32, b: bv32, c: bv32, d: bv32) {
    StartingAt(r, (4 - i % 4) % 4, a, b, c, d)
  }

  predicate StartingAt(r: Registers, k: nat, a: bv32, b: bv32, c: bv32, d: bv32)
    requires k < 4
  {
    a == r[k] && b == r[(k + 1) % 4] && c == r[(k + 2) % 4] && d == r[(k + 3) % 4]
  }

  lemma TurnRegisters(r: Registers, k: nat, a: bv32, b: bv32, c: bv32, d: bv32, v: bv32)
    requires k < 4 && StartingAt(r, k, a, b, c, d)
    ensures StartingAt(r[k := v], (k + 3) % 4, d, v, b, c)
  {
  }

  lemma Row1Agrees(j: nat)
    requires j < 16
    ensures j == K1[j] && ROW1[j] == Pick(j % 4, 7, 12, 17, 22)
  {
  }

  lemma Row2Agrees(j: nat)
    requires j < 16
    ensures (5 * (16 + j) + 1) % 16 == K2[j] && ROW2[j] == Pick(j % 4, 5, 9, 14, 20)
  {
  }

  lemma Row3Agrees(j: nat)
    requires j < 16
    ensures (3 * (32 + j) + 5) % 16 == K3[j] && ROW3[j] == Pick(j % 4, 4, 11, 16, 23)
  {
  }

  lemma Row4Agrees(j: nat)
    requires j < 16
    ensures (7 * (48 + j)) % 16 == K4[j] && ROW4[j] == Pick(j % 4, 6, 10, 15, 21)
  {
  }

  lemma RowLengths()
    ensures |ROW1| == |ROW2| == |ROW3| == |ROW4| == 16
  {
  }

  /** The program's index arithmetic and its table of rotations are the lists of the RFC. */
  lemma TablesAgree(i: nat)
    requires i < 64
    ensures Index(i) == WordOf(i) && |TABLE1| == 64 && TABLE1[i] == RotationOf(i)
  {
    hide Pick;
    RowLengths();
    if i < 16 {
      Row1Agrees(i);
    } else if i < 32 {
      Row2Agrees(i - 16);
    } else if i < 48 {
      Row3Agrees(i - 32);
    } else {
      Row4Agrees(i - 48);
    }
  }

  lemma MixAgrees(b: bv32, c: bv32, d: bv32)
    ensures (d & b) | (!d & c) == G(b, c, d) && c ^ (b | !d) == I(b, c, d)
    ensures (b & c) | (!b & d) == F(b, c, d) && b ^ c ^ d == H(b, c, d)
  {
  }

  /** Shifting all four registers by one place is moving on to the next operation. */
  lemma TurnStep(r: Registers, x: seq<bv32>, i: nat, a: bv32, b: bv32, c: bv32, d: bv32)
    requires i < 64 && |x| == 16 && Turned(r, i, a, b, c, d)
    ensures Turned(Operation(r, x, i), i + 1, d, Changed(a, b, c, d, x, i), b, c)
  {
    hide Changed;
    var k := (4 - i % 4) % 4;
    assert (4 - (i + 1) % 4) % 4 == (k + 3) % 4;
    assert a == r[k] && b == r[(k + 1) % 4] && c == r[(k + 2) % 4] && d == r[(k + 3) % 4];
    TurnRegisters(r, k, a, b, c, d, Changed(a, b, c, d, x, i));
  }

  /** The round loop of digest_md5_calc over one block. */
  method Rounds(a0: bv32, b0: bv32, c0: bv32, d0: bv32, block: seq<bv8>) returns (A: bv32, B: bv32, C: bv32, D: bv32)
    requires |block| == 64
    ensures [A, B, C, D] == Operations([a0, b0, c0, d0], Words(block), 0)
  {
    hide Mix, Amount, WordOf, RotationOf, WordAt, Operation, Sine, Add, Function, Index;
    A, B, C, D := a0, b0, c0, d0;
    ghost var x := Words(block);
    ghost var r: Registers := [a0, b0, c0, d0];
    var i := 0;
    while i < 64
      invariant 0 <= i <= 64
      invariant Turned(r, i, A, B, C, D)
      invariant Operations(r, x, i) == Operations([a0, b0, c0, d0], x, 0)
    {
      var f, g := Function(i, B, C, D), Index(i);
      TablesAgree(i);
      TurnStep(r, x, i, A, B, C, D);
      r := Operation(r, x, i);
      var dTemp := D;
      D := C;
      C := B;
      var input := WordAt(block, 4 * g);
      B := Add(B, Amount(A, f, Sine(i), input, TABLE1[i]));
      A := dTemp;
      i := i + 1;
    }
  }

  /** The program's choice of F for operation i. */
  function Function(i: nat, B: bv32, C: bv32, D: bv32): (f: bv32)
    requires i < 64
    ensures f == Mix(i / 16, B, C, D)
  {
    MixAgrees(B, C, D);
    if i < 16 then (B & C) | (!B & D)
    else if i < 32 then (D & B) | (!D & C)
    else if i < 48 then B ^ C ^ D
    else C ^ (B | !D)
  }

  // ---- padding -------------------------------------------------------------------------

  /** Block i as the program finds or makes it. */
  function ProgramBlock(m: seq<bv8>, i: nat): (r: seq<bv8>)
    ensures |r| == 64
  {
    var len := |m| - 64 * i;
    if len >= 64 then m[64 * i..64 * i + 64]
    else seq(64, j requires 0 <= j < 64 =>
               if j < len then m[64 * i + j]
               else if j == len then 0x80
               else if len < 56 && 56 <= j < 60 then LengthByte(|m|, j - 56)
               else 0)
  }

  /** Byte k of the bit length, as a C int. */
  function LengthByte(n: nat, k: nat): bv8
    requires k < 4
  {
    var bits := 8 * n;
    ((if k == 0 then bits else if k == 1 then bits / 256 else if k == 2 then bits / 256 / 256
      else bits / 256 / 256 / 256) % 256) as bv8
  }

  /** Byte j of a number. */
  function ByteNumber(x: nat, j: nat): (r: nat)
    ensures r < 256
  {
    if j == 0 then x % 256 else ByteNumber(x / 256, j - 1)
  }

  lemma {:induction false} LittleEndianAt(x: nat, n: nat, j: nat)
    requires j < n
    ensures LittleEndian(x, n)[j] == ByteNumber(x, j) as bv8
  {
    if j > 0 {
      LittleEndianAt(x / 256, n - 1, j - 1);
    }
  }

  lemma {:induction false} NoBytes(j: nat)
    ensures ByteNumber(0, j) == 0
  {
    if j > 0 {
      NoBytes(j - 1);
    }
  }

  lemma BytesOfWord(x: nat, j: nat)
    requires x < 0x1_0000_0000
    ensures ByteNumber(x, j) ==
            if j == 0 then x % 256 else if j == 1 then x / 256 % 256 else if j == 2 then x / 256 / 256 % 256
            else if j == 3 then x / 256 / 256 / 256 % 256 else 0
  {
    if j > 3 {
      var x4 := x / 256 / 256 / 256 / 256;
      assert ByteNumber(x, j) == ByteNumber(x / 256 / 256, j - 2);
      assert ByteNumber(x / 256 / 256, j - 2) == ByteNumber(x4, j - 4);
      NoBytes(j - 4);
    } else if j == 3 {
      assert ByteNumber(x, j) == ByteNumber(x / 256 / 256, 1);
    }
  }

  /** The four bytes the program stores are the low half of the 64-bit length; the rest are zero. */
  lemma LengthBytes(n: nat, j: nat)
    requires n < 0x1000_0000 && j < 8
    ensures LittleEndian(8 * n, 8)[j] == if j < 4 then LengthByte(n, j) else 0
  {
    LittleEndianAt(8 * n, 8, j);
    BytesOfWord(8 * n, j);
  }

  /**
    The blocks the program processes are those of the padded message, in order, also when the
    padding spills into one more block.
   */
  lemma BlocksArePadded(m: seq<bv8>, i: nat)
    requires |m| < 0x1000_0000 && i < Blocks(|m|)
    ensures Padded(m)[64 * i..64 * i + 64] == ProgramBlock(m, i)
  {
    hide Padded, ProgramBlock;
    forall j | 0 <= j < 64 ensures Padded(m)[64 * i..64 * i + 64][j] == ProgramBlock(m, i)[j] {
      BytesAgree(m, i, j);
    }
  }

  lemma BytesAgree(m: seq<bv8>, i: nat, j: nat)
    requires |m| < 0x1000_0000 && i < Blocks(|m|) && j < 64
    ensures Padded(m)[64 * i + j] == ProgramBlock(m, i)[j]
  {
    hide LengthByte, LittleEndian, Padded;
    PaddedAt(m, 64 * i + j);
    if j >= 56 && i + 1 == Blocks(|m|) {
      LengthBytes(|m|, j - 56);
    }
  }

  /** Byte number at of the padded message. */
  lemma PaddedAt(m: seq<bv8>, at: nat)
    requires |m| < 0x1000_0000 && at < |Padded(m)|
    ensures Padded(m)[at] ==
            if at < |m| then m[at]
            else if at == |m| then 0x80
            else if at < |Padded(m)| - 8 then 0
            else LittleEndian(8 * |m|, 8)[at - (|Padded(m)| - 8)]
  {
    hide LittleEndian;
  }

  /** Makes the block for the end of the message. */
  method LastBlock(m: seq<bv8>, i: nat, len: int) returns (temp: array<bv8>)
    requires len == |m| - 64 * i < 64
    ensures fresh(temp) && temp.Length == 64 && temp[..] == ProgramBlock(m, i)
  {
    hide LengthByte, ProgramBlock;
    temp := new bv8[64](_ => 0);
    if len >= 0 {
      forall j | 0 <= j < len {
        temp[j] := m[64 * i + j];
      }
      temp[len] := 0x80;
    }
    ghost var padded := temp[..];
    if len < 56 {
      temp[56] := LengthByte(|m|, 0);
      temp[57] := LengthByte(|m|, 1);
      temp[58] := LengthByte(|m|, 2);
      temp[59] := LengthByte(|m|, 3);
    }
    LengthStored(m, i, len, padded, temp[..]);
  }

  lemma LengthStored(m: seq<bv8>, i: nat, len: int, padded: seq<bv8>, temp: seq<bv8>)
    requires len == |m| - 64 * i < 64 && |padded| == |temp| == 64
    requires forall j :: 0 <= j < 64 ==> padded[j] == if j < len then m[64 * i + j] else if j == len then 0x80 else 0
    requires forall j :: 0 <= j < 64 ==>
               temp[j] == if len < 56 && 56 <= j < 60 then LengthByte(|m|, j - 56) else padded[j]
    ensures temp == ProgramBlock(m, i)
  {
    hide LengthByte;
  }

  /** Block i of the message as the program takes it from the caller's buffer or makes it. */
  method Chunk(m: seq<bv8>, i: nat, len: int) returns (input: seq<bv8>)
    requires len == |m| - 64 * i
    ensures input == ProgramBlock(m, i)
  {
    if len >= 64 {
      input := m[|m| - len..|m| - len + 64];
      WholeBlock(m, i);
    } else {
      var temp := LastBlock(m, i, len);
      input := temp[..];
    }
  }

  /** The pass over one block: the rounds, and the sums after them. */
  method Absorb(a: bv32, b: bv32, c: bv32, d: bv32, block: seq<bv8>) returns (a0: bv32, b0: bv32, c0: bv32, d0: bv32)
    requires |block| == 64
    ensures [a0, b0, c0, d0] == Compress([a, b, c, d], block)
  {
    hide Operations, Words, Add;
    var A, B, C, D := Rounds(a, b, c, d, block);
    a0, b0, c0, d0 := Add(a, A), Add(b, B), Add(c, C), Add(d, D);
  }

  /** digest_md5_calc, for messages whose length in bits a C int can hold. */
  method Calc(m: seq<bv8>) returns (result: Registers)
    requires |m| < 0x1000_0000
    ensures result == Digest(m)
  {
    hide Compress, Padded, ProgramBlock, Fold;
    var len := |m|;
    var chunks := (len + 8 + 64) / 64;
    var a0: bv32, b0: bv32, c0: bv32, d0: bv32 := 0x67452301, 0xefcdab89, 0x98badcfe, 0x10325476;
    ghost var i := 0;
    ghost var p := Padded(m);
    assert p[0..] == p;
    while chunks > 0
      invariant 0 <= chunks && 0 <= i && i + chunks == Blocks(|m|) && len == |m| - 64 * i
      invariant Fold([a0, b0, c0, d0], p[64 * i..], chunks) == Digest(m)
    {
      var input := Chunk(m, (|m| - len) / 64, len);
      FoldBlock([a0, b0, c0, d0], m, i, chunks);
      a0, b0, c0, d0 := Absorb(a0, b0, c0, d0, input);
      chunks := chunks - 1;
      len := len - 64;
      i := i + 1;
    }
    FoldNone([a0, b0, c0, d0], p[64 * i..]);
    result := [a0, b0, c0, d0];
  }

  lemma FoldBlock(r: Registers, m: seq<bv8>, i: nat, n: nat)
    requires |m| < 0x1000_0000 && n > 0 && i + n == Blocks(|m|)
    ensures Fold(r, Padded(m)[64 * i..], n) == Fold(Compress(r, ProgramBlock(m, i)), Padded(m)[64 * (i + 1)..], n - 1)
  {
    hide Compress, Padded, ProgramBlock, Fold;
    BlocksArePadded(m, i);
    var p := Padded(m);
    assert p[64 * i..] == p[64 * i..64 * i + 64] + p[64 * (i + 1)..];
    FoldStep(r, ProgramBlock(m, i), p[64 * (i + 1)..], n - 1);
  }

  lemma FoldStep(r: Registers, first: seq<bv8>, rest: seq<bv8>, n: nat)
    requires |first| == 64 && |rest| == 64 * n
    ensures Fold(r, first + rest, n + 1) == Fold(Compress(r, first), rest, n)
  {
    hide Compress;
    assert (first + rest)[..64] == first && (first + rest)[64..] == rest;
  }

  lemma FoldNone(r: Registers, p: seq<bv8>)
    requires p == []
    ensures Fold(r, p, 0) == r
  {
  }

  lemma WholeBlock(m: seq<bv8>, i: nat)
    requires |m| - 64 * i >= 64
    ensures ProgramBlock(m, i) == m[64 * i..64 * i + 64]
  {
  }

  // ---- chaining ------------------------------------------------------------------------

  /** One block adds the outcome of its operations to the registers it started from, whatever they are. */
  lemma OneBlock(r: Registers, block: seq<bv8>, k: nat)
    requires |block| == 64 && k < 4
    ensures Fold(r, block, 1)[k] == Add(r[k], Operations(r, Words(block), 0)[k])
  {
    hide Operations, Words, Compress, Fold, Add;
    FoldStep(r, block, [], 0);
    assert block + [] == block;
    FoldNone(Compress(r, block), []);
    SumsOfBlock(r, block, k);
  }

  lemma SumsOfBlock(r: Registers, block: seq<bv8>, k: nat)
    requires |block| == 64 && k < 4
    ensures Compress(r, block)[k] == Add(r[k], Operations(r, Words(block), 0)[k])
  {
    hide Operations, Words, Add;
  }

  /** The blocks of a message are taken one after the other, each from where the last one ended. */
  lemma {:induction false} BlocksChain(r: Registers, a: seq<bv8>, b: seq<bv8>, n: nat, k: nat)
    requires |a| == 64 * n && |b| == 64 * k
    ensures Fold(r, a + b, n + k) == Fold(Fold(r, a, n), b, k)
    decreases n
  {
    hide Compress;
    if n == 0 {
      assert a + b == b;
    } else {
      var first, rest := a[..64], a[64..];
      assert a + b == first + (rest + b) && a == first + rest;
      FoldStep(r, first, rest + b, n - 1 + k);
      FoldStep(r, first, rest, n - 1);
      BlocksChain(Compress(r, first), rest, b, n - 1, k);
    }
  }
}
