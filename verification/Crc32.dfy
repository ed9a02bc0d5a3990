/**
  CRC-32, by table and bit by bit.
 */
module Crc32 {
  const POLY: bv32 := 0xedb8_8320
  const ONES: bv32 := 0xffff_ffff

  // The bit operations have names so that proofs about them can do without their bits.

  function Xor(a: bv32, b: bv32): bv32 { a ^ b }

  function Half(c: bv32): bv32 { c >> 1 }

  function LowBit(c: bv32): bv32 { c & 1 }

  function LowByte(c: bv32): bv32 { c & 0xff }

  function HighPart(c: bv32): bv32 { c & 0xffff_ff00 }

  function DropByte(c: bv32): bv32 { c >> 8 }

  function Word(b: bv8): bv32 { b as bv32 }

  /** One step of the table generator. */
  function Shift1(c: bv32): bv32 {
    if LowBit(c) == 1 then Xor(POLY, Half(c)) else Half(c)
  }

  function Shift(c: bv32, n: nat): bv32
    decreases n
  {
    if n == 0 then c else Shift(Shift1(c), n - 1)
  }

  /** One step of the bit-serial register: the message bit joins the bit shifted out. */
  function BitStep(c: bv32, bit: bv32): bv32 {
    if LowBit(Xor(c, bit)) == 1 then Xor(Half(c), POLY) else Half(c)
  }

  /** The register after n bits of w, least significant first. */
  function Serial(c: bv32, w: bv32, n: nat): bv32
    decreases n
  {
    if n == 0 then c else Serial(BitStep(c, LowBit(w)), Half(w), n - 1)
  }

  /** The register after a message, bit by bit. */
  function Register(c: bv32, m: seq<bv8>): bv32
    decreases |m|
  {
    if m == [] then c else Register(Serial(c, Word(m[0]), 8), m[1..])
  }

  /** The CRC-32 of section 8 of RFC 1952. */
  function Crc(m: seq<bv8>): bv32 {
    Xor(Register(ONES, m), ONES)
  }

  predicate IsTable(t: seq<bv32>) {
    |t| == 256 && forall i :: 0 <= i < 256 ==> t[i] == Shift(i as bv32, 8)
  }

  class Digest {
    const table: array<bv32>

    ghost predicate Ready()
      reads this, table
    {
      table.Length == 256 && IsTable(table[..])
    }

    /** digest_crc32_init. */
    constructor ()
      ensures Ready()
    {
      table := new bv32[256];
      new;
      hide Shift1;
      var i := 0;
      while i < 256
        invariant 0 <= i <= 256
        invariant forall k :: 0 <= k < i ==> table[k] == Shift(k as bv32, 8)
      {
        var c := i as bv32;
        var j := 0;
        while j < 8
          invariant 0 <= j <= 8
          invariant forall k :: 0 <= k < i ==> table[k] == Shift(k as bv32, 8)
          invariant Shift(c, 8 - j) == Shift(i as bv32, 8)
        {
          GeneratorStep(c);
          c := if c & 1 == 1 then POLY ^ (c >> 1) else c >> 1;
          j := j + 1;
        }
        table[i] := c;
        i := i + 1;
      }
    }

    /** digest_crc32_calc. */
    method Calc(m: seq<bv8>) returns (result: bv32)
      requires Ready()
      ensures result == Crc(m)
    {
      hide Shift, Serial, Xor, LowByte, DropByte, Word;
      var c := ONES;
      var i := 0;
      assert m[0..] == m;
      while i < |m|
        invariant 0 <= i <= |m|
        invariant Register(c, m[i..]) == Register(ONES, m)
      {
        TableStep(table[..], c, m[i]);
        assert m[i..][1..] == m[i + 1..];
        var index := LowByte(Xor(c, Word(m[i])));
        c := Xor(table[index as int], DropByte(c));
        i := i + 1;
      }
      result := Xor(c, ONES);
    }
  }

  lemma GeneratorStep(c: bv32)
    ensures Shift1(c) == if c & 1 == 1 then POLY ^ (c >> 1) else c >> 1
  {
  }

  // ---- bits ----------------------------------------------------------------------------

  lemma XorSplits(a: bv32, b: bv32)
    ensures Half(Xor(a, b)) == Xor(Half(a), Half(b))
    ensures LowBit(Xor(a, b)) == Xor(LowBit(a), LowBit(b))
    ensures LowBit(a) == 0 || LowBit(a) == 1
  {
  }

  lemma XorCommutes(a: bv32, b: bv32)
    ensures Xor(a, b) == Xor(b, a)
  {
  }

  lemma XorMoves(p: bv32, a: bv32, b: bv32)
    ensures Xor(p, Xor(a, b)) == Xor(Xor(p, a), b)
  {
  }

  lemma XorMeets(p: bv32, a: bv32, b: bv32)
    ensures Xor(Xor(p, a), Xor(p, b)) == Xor(a, b)
  {
    assert (p ^ a) ^ (p ^ b) == a ^ b;
  }

  lemma XorBits()
    ensures Xor(0, 0) == 0 && Xor(0, 1) == 1 && Xor(1, 0) == 1 && Xor(1, 1) == 0
  {
  }

  lemma XorCancels(a: bv32, b: bv32, w: bv32)
    requires Xor(a, w) == Xor(b, w)
    ensures a == b
  {
    assert (a ^ w) ^ w == a && (b ^ w) ^ w == b;
  }

  lemma XorZero(a: bv32)
    ensures Xor(a, 0) == a
  {
  }

  lemma SplitWord(x: bv32)
    ensures x == Xor(LowByte(x), HighPart(x)) && DropByte(HighPart(x)) == DropByte(x)
  {
  }

  lemma ByteBounds(c: bv32, b: bv8)
    ensures DropByte(Word(b)) == 0 && DropByte(Xor(c, Word(b))) == DropByte(c)
  {
  }

  lemma LowByteIndex(x: bv32)
    ensures LowByte(x) as int < 256 && (LowByte(x) as int) as bv32 == LowByte(x)
  {
  }

  // ---- the table form is the serial form -----------------------------------------------

  /** The generator step is linear over xor, and so is any number of them. */
  lemma Shift1Linear(a: bv32, b: bv32)
    ensures Shift1(Xor(a, b)) == Xor(Shift1(a), Shift1(b))
  {
    hide Xor, Half, LowBit;
    XorBits();
    XorSplits(a, b);
    XorSplits(b, a);
    var x, y := Half(a), Half(b);
    if LowBit(a) == 1 && LowBit(b) == 1 {
      XorMeets(POLY, x, y);
    } else if LowBit(a) == 1 {
      XorMoves(POLY, x, y);
    } else if LowBit(b) == 1 {
      XorCommutes(x, y);
      XorMoves(POLY, y, x);
      XorCommutes(Xor(POLY, y), x);
    }
  }

  lemma {:induction false} ShiftLinear(a: bv32, b: bv32, n: nat)
    ensures Shift(Xor(a, b), n) == Xor(Shift(a, n), Shift(b, n))
    decreases n
  {
    hide Shift1, Xor;
    if n > 0 {
      Shift1Linear(a, b);
      ShiftLinear(Shift1(a), Shift1(b), n - 1);
    }
  }

  function Drop(x: bv32, n: nat): bv32
    decreases n
  {
    if n == 0 then x else Drop(Half(x), n - 1)
  }

  predicate LowZeros(x: bv32, n: nat)
    decreases n
  {
    n == 0 || (LowBit(x) == 0 && LowZeros(Half(x), n - 1))
  }

  /** Dropping a byte bit by bit, in two steps of four. */
  lemma DropFour(x: bv32)
    ensures Drop(x, 8) == Drop(Half(Half(Half(Half(x)))), 4)
    ensures LowZeros(x, 8) <==>
            LowBit(x) == 0 && LowBit(Half(x)) == 0 && LowBit(Half(Half(x))) == 0 && LowBit(Half(Half(Half(x)))) == 0
            && LowZeros(Half(Half(Half(Half(x)))), 4)
  {
    hide Half, LowBit;
    assert Drop(x, 8) == Drop(Half(Half(x)), 6);
    assert LowZeros(Half(x), 7) <==> LowBit(Half(x)) == 0 && LowZeros(Half(Half(x)), 6);
    assert LowZeros(Half(Half(x)), 6) <==> LowBit(Half(Half(x))) == 0 && LowZeros(Half(Half(Half(x))), 5);
  }

  lemma LastFour(x: bv32)
    ensures Drop(x, 4) == Half(Half(Half(Half(x))))
    ensures LowZeros(x, 4) <==>
            LowBit(x) == 0 && LowBit(Half(x)) == 0 && LowBit(Half(Half(x))) == 0 && LowBit(Half(Half(Half(x)))) == 0
  {
    hide Half, LowBit;
    assert Drop(x, 4) == Drop(Half(Half(x)), 2);
    assert LowZeros(Half(x), 3) <==> LowBit(Half(x)) == 0 && LowZeros(Half(Half(x)), 2);
    assert LowZeros(Half(Half(x)), 2) <==> LowBit(Half(Half(x))) == 0 && LowZeros(Half(Half(Half(x))), 1);
  }

  lemma HalfFour(x: bv32)
    ensures Half(Half(Half(Half(x)))) == x >> 4
  {
  }

  lemma DropIsShift(x: bv32)
    ensures Drop(x, 8) == DropByte(x)
  {
    hide Half, LowBit, LowZeros, Drop;
    DropFour(x);
    LastFour(x >> 4);
    HalfFour(x);
    HalfFour(x >> 4);
    assert (x >> 4) >> 4 == DropByte(x);
  }

  lemma FourZeros(x: bv32)
    ensures x & 0xf == 0 ==>
              LowBit(x) == 0 && LowBit(Half(x)) == 0 && LowBit(Half(Half(x))) == 0 && LowBit(Half(Half(Half(x)))) == 0
  {
  }

  lemma HighPartZeros(x: bv32)
    ensures LowZeros(HighPart(x), 8)
  {
    hide Half, LowBit, LowZeros, Drop;
    var h := HighPart(x);
    DropFour(h);
    HalfFour(h);
    LastFour(h >> 4);
    FourZeros(h);
    FourZeros(h >> 4);
    assert h & 0xf == 0 && (h >> 4) & 0xf == 0;
  }

  /** Zeros shifted out leave the rest alone. */
  lemma {:induction false} ShiftZeros(x: bv32, n: nat)
    requires LowZeros(x, n)
    ensures Shift(x, n) == Drop(x, n)
    decreases n
  {
    hide Half, LowBit, Xor;
    if n > 0 {
      ShiftZeros(Half(x), n - 1);
    }
  }

  /** Eight steps only look up the low byte; the rest is shifted and joined in. */
  lemma ShiftSplit(x: bv32)
    ensures Shift(x, 8) == Xor(Shift(LowByte(x), 8), DropByte(x))
  {
    hide Shift, Drop, LowZeros, Xor, LowByte, HighPart, DropByte;
    SplitWord(x);
    ShiftLinear(LowByte(x), HighPart(x), 8);
    HighPartZeros(x);
    ShiftZeros(HighPart(x), 8);
    DropIsShift(HighPart(x));
  }

  lemma BitJoins(c: bv32, w: bv32)
    ensures Shift1(Xor(c, w)) == Xor(BitStep(c, LowBit(w)), Half(w))
  {
    hide Xor, Half, LowBit;
    XorBits();
    XorSplits(c, w);
    XorSplits(w, c);
    XorSplits(c, LowBit(w));
    LowBitTwice(w);
    XorMoves(POLY, Half(c), Half(w));
    XorCommutes(POLY, Half(c));
  }

  lemma LowBitTwice(w: bv32)
    ensures LowBit(LowBit(w)) == LowBit(w)
  {
  }

  /** The bit-serial register is the generator run on register and message joined up front. */
  lemma {:induction false} SerialIsShift(c: bv32, w: bv32, n: nat)
    ensures Shift(Xor(c, w), n) == Xor(Serial(c, w, n), Drop(w, n))
    decreases n
  {
    hide Shift1, BitStep, Xor, Half, LowBit;
    if n > 0 {
      BitJoins(c, w);
      SerialIsShift(BitStep(c, LowBit(w)), Half(w), n - 1);
    }
  }

  lemma SerialByte(c: bv32, b: bv8)
    ensures Serial(c, Word(b), 8) == Shift(Xor(c, Word(b)), 8)
  {
    hide Shift, Serial, Drop, Xor, DropByte, Word;
    SerialIsShift(c, Word(b), 8);
    DropIsShift(Word(b));
    ByteBounds(c, b);
    XorZero(Serial(c, Word(b), 8));
  }

  /** One table look-up does what eight register steps do. */
  lemma TableStep(t: seq<bv32>, c: bv32, b: bv8)
    requires IsTable(t)
    ensures LowByte(Xor(c, Word(b))) as int < 256
    ensures Xor(t[LowByte(Xor(c, Word(b))) as int], DropByte(c)) == Serial(c, Word(b), 8)
  {
    hide Shift, Serial, Xor, LowByte, DropByte, Word;
    LowByteIndex(Xor(c, Word(b)));
    ShiftSplit(Xor(c, Word(b)));
    ByteBounds(c, b);
    SerialByte(c, b);
  }

  // ---- what the register detects -------------------------------------------------------

  lemma Shift1Injective(a: bv32, b: bv32)
    requires Shift1(a) == Shift1(b)
    ensures a == b
  {
  }

  lemma {:induction false} ShiftInjective(a: bv32, b: bv32, n: nat)
    requires Shift(a, n) == Shift(b, n)
    ensures a == b
    decreases n
  {
    hide Shift1;
    if n > 0 {
      ShiftInjective(Shift1(a), Shift1(b), n - 1);
      Shift1Injective(a, b);
    }
  }

  /** The same bytes keep different registers apart. */
  lemma {:induction false} RegisterInjective(c: bv32, d: bv32, m: seq<bv8>)
    requires Register(c, m) == Register(d, m)
    ensures c == d
    decreases |m|
  {
    hide Serial, Shift, Xor, Word;
    if m != [] {
      var w := Word(m[0]);
      RegisterInjective(Serial(c, w, 8), Serial(d, w, 8), m[1..]);
      SerialByte(c, m[0]);
      SerialByte(d, m[0]);
      ShiftInjective(Xor(c, w), Xor(d, w), 8);
      XorCancels(c, d, w);
    }
  }

  lemma {:induction false} RegisterConcat(c: bv32, a: seq<bv8>, b: seq<bv8>)
    ensures Register(c, a + b) == Register(Register(c, a), b)
    decreases |a|
  {
    hide Serial, Word;
    if a == [] {
      assert a + b == b;
    } else {
      assert (a + b)[0] == a[0] && (a + b)[1..] == a[1..] + b;
      RegisterConcat(Serial(c, Word(a[0]), 8), a[1..], b);
    }
  }

  lemma RegisterCons(c: bv32, b: bv8, rest: seq<bv8>)
    ensures Register(c, [b] + rest) == Register(Serial(c, Word(b), 8), rest)
  {
    hide Serial, Word;
    assert ([b] + rest)[1..] == rest;
  }

  /** Changing one byte of a message, wherever and however, changes its CRC. */
  lemma OneByteIsDetected(m: seq<bv8>, i: nat, b: bv8)
    requires i < |m| && b != m[i]
    ensures Crc(m[i := b]) != Crc(m)
  {
    hide Register, Serial, Shift, Xor, Word;
    var c := Register(ONES, m[..i]);
    var rest := m[i + 1..];
    assert m == m[..i] + ([m[i]] + rest);
    assert m[i := b] == m[..i] + ([b] + rest);
    RegisterConcat(ONES, m[..i], [m[i]] + rest);
    RegisterConcat(ONES, m[..i], [b] + rest);
    RegisterCons(c, m[i], rest);
    RegisterCons(c, b, rest);
    if Crc(m[i := b]) == Crc(m) {
      XorCancels(Register(ONES, m), Register(ONES, m[i := b]), ONES);
      RegisterInjective(Serial(c, Word(m[i]), 8), Serial(c, Word(b), 8), rest);
      SerialByte(c, m[i]);
      SerialByte(c, b);
      ShiftInjective(Xor(c, Word(m[i])), Xor(c, Word(b)), 8);
      SameByte(c, m[i], b);
    }
  }

  lemma SameByte(c: bv32, a: bv8, b: bv8)
    requires Xor(c, Word(a)) == Xor(c, Word(b))
    ensures a == b
  {
    var x, y := Word(a), Word(b);
    assert c ^ (c ^ x) == x && c ^ (c ^ y) == y;
    assert x == y;
  }

  // ---- a known value -------------------------------------------------------------------

  /** The digits 1 to 9. */
  const DIGITS: seq<bv8> := [0x31, 0x32, 0x33, 0x34, 0x35, 0x36, 0x37, 0x38, 0x39]

  lemma Digits1To3()
    ensures Serial(0xffff_ffff, 0x31, 8) == 0x7c23_1048
    ensures Serial(0x7c23_1048, 0x32, 8) == 0xb0ac_bb32
    ensures Serial(0xb0ac_bb32, 0x33, 8) == 0x77b7_9c2d
  {
    assert Serial(0xffff_ffff, 0x31, 8) == Serial(0xaff5_1d87, 0x03, 4);
    assert Serial(0x7c23_1048, 0x32, 8) == Serial(0xd114_92ec, 0x03, 4);
    assert Serial(0xb0ac_bb32, 0x33, 8) == Serial(0x16bd_dbd7, 0x03, 4);
  }

  lemma Digits4To6()
    ensures Serial(0x77b7_9c2d, 0x34, 8) == 0x641c_1f5c
    ensures Serial(0x641c_1f5c, 0x35, 8) == 0x340a_c5e3
    ensures Serial(0x340a_c5e3, 0x36, 8) == 0xf68d_2c9e
  {
    assert Serial(0x77b7_9c2d, 0x34, 8) == Serial(0xf774_ea86, 0x03, 4);
    assert Serial(0x641c_1f5c, 0x35, 8) == Serial(0xf64e_52b1, 0x03, 4);
    assert Serial(0x340a_c5e3, 0x36, 8) == Serial(0x682b_fdaa, 0x03, 4);
  }

  lemma Digits7To9()
    ensures Serial(0xf68d_2c9e, 0x37, 8) == 0xaffc_9660
    ensures Serial(0xaffc_9660, 0x38, 8) == 0x651f_2550
    ensures Serial(0x651f_2550, 0x39, 8) == 0x340b_c6d9
  {
    assert Serial(0xf68d_2c9e, 0x37, 8) == Serial(0xff67_418d, 0x03, 4);
    assert Serial(0xaffc_9660, 0x38, 8) == Serial(0xe747_4a46, 0x03, 4);
    assert Serial(0x651f_2550, 0x39, 8) == Serial(0xf65e_6111, 0x03, 4);
  }

  /** One byte, when its bits have been worked out. */
  lemma Take(c: bv32, m: seq<bv8>, next: bv32)
    requires m != [] && Serial(c, Word(m[0]), 8) == next
    ensures Register(c, m) == Register(next, m[1..])
  {
    hide Serial, Word;
  }

  lemma RegisterOfDigits()
    ensures Register(0xffff_ffff, DIGITS) == 0x340b_c6d9
  {
    hide Register, Serial;
    Digits1To3();
    Take(0xffff_ffff, DIGITS, 0x7c23_1048);
    Take(0x7c23_1048, DIGITS[1..], 0xb0ac_bb32);
    Take(0xb0ac_bb32, DIGITS[2..], 0x77b7_9c2d);
    FromFourthDigit();
  }

  lemma FromFourthDigit()
    ensures Register(0x77b7_9c2d, DIGITS[3..]) == 0x340b_c6d9
  {
    hide Register, Serial;
    Digits4To6();
    Take(0x77b7_9c2d, DIGITS[3..], 0x641c_1f5c);
    Take(0x641c_1f5c, DIGITS[4..], 0x340a_c5e3);
    Take(0x340a_c5e3, DIGITS[5..], 0xf68d_2c9e);
    FromSeventhDigit();
  }

  lemma FromSeventhDigit()
    ensures Register(0xf68d_2c9e, DIGITS[6..]) == 0x340b_c6d9
  {
    hide Register, Serial;
    Digits7To9();
    Take(0xf68d_2c9e, DIGITS[6..], 0xaffc_9660);
    Take(0xaffc_9660, DIGITS[7..], 0x651f_2550);
    Take(0x651f_2550, DIGITS[8..], 0x340b_c6d9);
    RegisterOfNone(0x340b_c6d9, DIGITS[9..]);
  }

  lemma RegisterOfNone(c: bv32, m: seq<bv8>)
    requires m == []
    ensures Register(c, m) == c
  {
  }

  /** The CRC of "123456789". */
  lemma CrcOfDigits()
    ensures Crc([0x31, 0x32, 0x33, 0x34, 0x35, 0x36, 0x37, 0x38, 0x39]) == 0xcbf4_3926
  {
    hide Register;
    RegisterOfDigits();
  }
}
