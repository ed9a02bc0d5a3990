/**
  Powers of two in 32-bit unsigned arithmetic: rounding up, and masking as remainder.
 */
module Pow2 {
  /** Exactly one bit set. */
  predicate IsPow2(c: bv32) {
    c != 0 && c & (c - 1) == 0
  }

  function RoundUp(x: bv32): bv32 {
    var x0 := x - 1;
    var x1 := x0 | (x0 >> 1);
    var x2 := x1 | (x1 >> 2);
    var x3 := x2 | (x2 >> 4);
    var x4 := x3 | (x3 >> 8);
    var x5 := x4 | (x4 >> 16);
    x5 + 1
  }

  /** The least power of two that is not smaller, exactly for 1 to 2^31. */
  method RoundupPow2(x: bv32) returns (r: bv32)
    ensures r == RoundUp(x)
    ensures IsPow2(r) <==> 1 <= x <= 0x8000_0000
    ensures IsPow2(r) ==> x <= r && forall p: bv32 :: IsPow2(p) && x <= p ==> r <= p
  {
    RoundUpRange(x);
    if 1 <= x <= 0x8000_0000 {
      RoundUpIsLeast(x);
    }
    r := x - 1;
    r := r | (r >> 1);
    r := r | (r >> 2);
    r := r | (r >> 4);
    r := r | (r >> 8);
    r := r | (r >> 16);
    r := r + 1;
  }

  /** Within its range the result is the least power of two that is not smaller. */
  lemma RoundUpIsLeast(x: bv32)
    requires 1 <= x <= 0x8000_0000
    ensures IsPow2(RoundUp(x)) && x <= RoundUp(x)
    ensures forall p: bv32 :: IsPow2(p) && x <= p ==> RoundUp(x) <= p
  {
  }

  /** Outside this range the result is no power of two: it wraps to zero. */
  lemma RoundUpRange(x: bv32)
    ensures IsPow2(RoundUp(x)) <==> 1 <= x <= 0x8000_0000
  {
  }

  /** A number below 256 as an 8-bit word, and back. */
  lemma ByteValue(y: nat)
    requires y < 256
    ensures (y as bv8) as nat == y
  {
    var x := ByteOf(y);
    SameByte(x, y);
  }

  lemma SameByte(x: bv8, y: nat)
    requires x as nat == y
    ensures x == y as bv8
  {
  }

  lemma {:induction false} ByteOf(y: nat) returns (x: bv8)
    requires y < 256
    ensures x as nat == y
  {
    if y == 0 {
      x := 0;
    } else {
      var z := ByteOf(y - 1);
      NextByte(z);
      x := z + 1;
    }
  }

  lemma NextByte(x: bv8)
    requires (x as nat) < 255
    ensures (x + 1) as nat == x as nat + 1
  {
  }

  function Power(k: nat): (r: nat)
    ensures r > 0
  {
    if k == 0 then 1 else 2 * Power(k - 1)
  }

  ghost predicate IsPower(c: nat) {
    exists k: nat :: c == Power(k)
  }

  /** Bitwise and of natural numbers. */
  function And(x: nat, y: nat): nat {
    if x == 0 || y == 0 then 0 else 2 * And(x / 2, y / 2) + (x % 2) * (y % 2)
  }

  /** Masking with a power of two minus one is taking the remainder. */
  lemma {:induction false} MaskIsRemainder(x: nat, k: nat)
    ensures And(x, Power(k) - 1) == x % Power(k)
    decreases k
  {
    hide And;
    if k == 0 {
      AndZero(x);
    } else {
      MaskIsRemainder(x / 2, k - 1);
      HalfRemainder(x, Power(k - 1));
      AndOdd(x, Power(k - 1));
    }
  }

  lemma AndZero(x: nat)
    ensures And(x, 0) == 0
  {
  }

  lemma AndOdd(x: nat, p: nat)
    requires p > 0
    ensures And(x, 2 * p - 1) == 2 * And(x / 2, p - 1) + x % 2
  {
    if p == 1 {
      AndZero(x / 2);
    } else if x == 0 {
      assert And(0, p - 1) == 0;
    } else {
      assert (2 * p - 1) / 2 == p - 1 && (2 * p - 1) % 2 == 1;
    }
  }

  lemma HalfRemainder(x: nat, p: nat)
    requires p > 0
    ensures x % (2 * p) == 2 * (x / 2 % p) + x % 2
  {
    var q, r := x / 2 / p, x / 2 % p;
    assert x / 2 == q * p + r;
    assert x == (2 * p) * q + (2 * r + x % 2);
    assert 0 <= 2 * r + x % 2 < 2 * p;
    RemainderIs(x, 2 * p, q, 2 * r + x % 2);
  }

  lemma {:induction false} MultipleGrows(m: nat, a: int, b: int)
    requires a < b
    ensures m * a + m <= m * b
    decreases b - a
  {
    assert m * b == m * (b - 1) + m;
    if a < b - 1 {
      MultipleGrows(m, a, b - 1);
    }
  }

  lemma RemainderIs(x: int, m: nat, q: int, r: nat)
    requires m > 0 && x == m * q + r && r < m
    ensures x % m == r && x / m == q
  {
    var q' := x / m;
    assert m * q' <= x < m * q' + m;
    if q' < q {
      MultipleGrows(m, q', q);
    } else if q < q' {
      MultipleGrows(m, q, q');
    }
  }

  /** A 32-bit word with one bit set, as a number. */
  lemma OneBitIsPower(c: bv32)
    requires IsPow2(c)
    ensures IsPower(c as nat)
  {
    var k := BitIndex(c);
  }

  lemma BitIndex(c: bv32) returns (k: nat)
    requires IsPow2(c)
    ensures c as nat == Power(k)
  {
    k := 0;
    var p: bv32 := 1;
    while p != c
      invariant k < 32 && p == 1 << k && p as nat == Power(k)
      invariant p <= c && IsPow2(c)
      decreases 32 - k
    {
      Doubled(p);
      k := k + 1;
      p := p << 1;
    }
  }

  lemma Doubled(p: bv32)
    requires p < 0x8000_0000
    ensures (p << 1) as nat == 2 * (p as nat)
  {
  }
}
