/**
  What left_rotate of MD5 does to a word as a number: the high bits come round as low bits.
 */
module Md5Rotation {
  import opened Md5
  import opened Pow2

  // ---- one place -----------------------------------------------------------------------

  lemma OneMoreBits(x: bv32, s: bv8)
    requires s < 32
    ensures (x << (s + 1)) | (x >> (32 - (s + 1))) ==
            (((x << s) | (x >> (32 - s))) << 1) | (((x << s) | (x >> (32 - s))) >> 31)
  {
  }

  /** One place to the left, the top bit coming round. */
  function OneMore(y: bv32): bv32 { (y << 1) | (y >> 31) }

  lemma RotateOneMore(x: bv32, s: bv8, y: bv32)
    requires s < 32 && y == Rotate(x, s)
    ensures Rotate(x, s + 1) == OneMore(y)
  {
    OneMoreBits(x, s);
  }

  lemma NoTopBit(y: bv32)
    requires y < 0x8000_0000
    ensures OneMore(y) == y << 1 && (y << 1) as nat == 2 * (y as nat) && y as nat < 0x8000_0000
  {
  }

  lemma TopBitComesRound(y: bv32)
    requires y >= 0x8000_0000
    ensures y - 0x8000_0000 < 0x8000_0000 && OneMore(y) == ((y - 0x8000_0000) << 1) | 1
    ensures (y - 0x8000_0000) as nat == y as nat - 0x8000_0000
  {
  }

  lemma DoubledPlusOne(p: bv32)
    requires p < 0x8000_0000
    ensures ((p << 1) | 1) as nat == 2 * (p as nat) + 1
  {
  }

  /** A number below 2^32 doubled, with the bit that overflows coming round. */
  function Around(y: nat): nat {
    if y < 0x8000_0000 then 2 * y else 2 * (y - 0x8000_0000) + 1
  }

  lemma OneMoreValue(y: bv32)
    ensures OneMore(y) as nat == Around(y as nat)
  {
    hide OneMore;
    if y < 0x8000_0000 {
      NoTopBit(y);
    } else {
      TopBitComesRound(y);
      DoubledPlusOne(y - 0x8000_0000);
    }
  }

  lemma RotateByNone(x: bv32)
    ensures Rotate(x, 0) == x
  {
  }

  // ---- any number of places ------------------------------------------------------------

  lemma {:induction false} PowerAdds(a: nat, b: nat)
    ensures Power(a) * Power(b) == Power(a + b)
  {
    if a > 0 {
      PowerAdds(a - 1, b);
      assert Power(a) * Power(b) == 2 * (Power(a - 1) * Power(b));
    }
  }

  lemma PowerOf31()
    ensures Power(31) == 0x8000_0000
  {
    assert Power(8) == 0x100;
    PowerAdds(8, 8);
    PowerAdds(16, 8);
    PowerAdds(7, 24);
  }

  /** One more place: the top bit t of the low part becomes the lowest bit of the high part. */
  lemma PartsStep(a: nat, b: nat, t: nat, p: nat, q: nat)
    requires a < p && b < q && t < 2 && p * q == 0x8000_0000
    ensures Around((t * q + b) * p + a) == b * (2 * p) + (2 * a + t)
  {
    hide Around;
    LowPart(a, b, p, q);
    if t == 0 {
      assert (t * q + b) * p == b * p;
      AroundSmall(b * p + a);
    } else {
      assert (t * q + b) * p == p * q + b * p;
      AroundLarge(b * p + a);
    }
    assert b * (2 * p) == 2 * (b * p);
  }

  lemma LowPart(a: nat, b: nat, p: nat, q: nat)
    requires a < p && b < q
    ensures b * p + a < p * q
  {
    assert b * p <= (q - 1) * p;
  }

  lemma AroundSmall(y: nat)
    requires y < 0x8000_0000
    ensures Around(y) == 2 * y
  {
  }

  lemma AroundLarge(y: nat)
    ensures Around(0x8000_0000 + y) == 2 * y + 1
  {
  }

  /** The last place of s. */
  lemma LastPlace(x: bv32, s: bv8)
    requires 0 < s <= 32
    ensures (s - 1) as nat == s as nat - 1 && s - 1 < 32
    ensures Rotate(x, s) as nat == Around(Rotate(x, s - 1) as nat)
  {
    hide Rotate, Around, OneMore;
    Fewer(s);
    RotateOneMore(x, s - 1, Rotate(x, s - 1));
    OneMoreValue(Rotate(x, s - 1));
  }

  lemma Fewer(s: bv8)
    requires 0 < s <= 32
    ensures (s - 1) as nat == s as nat - 1 && s - 1 + 1 == s && s - 1 < 32
  {
  }

  /** A number below 2^32 after n places. */
  function Turned(v: nat, n: nat): nat {
    if n == 0 then v else Around(Turned(v, n - 1))
  }

  lemma {:induction false} RotateTurns(x: bv32, s: bv8, n: nat)
    requires s <= 32 && n == s as nat
    ensures Rotate(x, s) as nat == Turned(x as nat, n)
    decreases n
  {
    hide Rotate, Around;
    if n == 0 {
      RotateByNone(x);
    } else {
      LastPlace(x, s);
      RotateTurns(x, s - 1, n - 1);
    }
  }

  /** A word split at n bits from the top: low part b and high part a change places. */
  lemma {:induction false} TurnedParts(a: nat, b: nat, n: nat)
    requires n <= 32 && b < Power(32 - n) && a < Power(n)
    ensures Turned(a * Power(32 - n) + b, n) == b * Power(n) + a
    decreases n
  {
    hide Around, Power;
    if n == 0 {
      PowerSteps(31);
    } else {
      var p, q := Power(n - 1), Power(32 - n);
      PowerSteps(n - 1);
      PowerSteps(32 - n);
      Halved(a, b, q);
      TurnedParts(a / 2, a % 2 * q + b, n - 1);
      PowersSplit(n);
      PartsStep(a / 2, b, a % 2, p, q);
      Rejoined(a, b, p);
    }
  }

  lemma Rejoined(a: nat, b: nat, p: nat)
    requires a / 2 < p
    ensures b * (2 * p) + (2 * (a / 2) + a % 2) == b * (2 * p) + a && a < 2 * p
  {
  }

  lemma PowerSteps(n: nat)
    ensures Power(n + 1) == 2 * Power(n) && Power(0) == 1
  {
  }

  lemma PowersSplit(n: nat)
    requires 0 < n <= 32
    ensures Power(n - 1) * Power(32 - n) == 0x8000_0000
  {
    PowerAdds(n - 1, 32 - n);
    PowerOf31();
  }

  lemma Halved(a: nat, b: nat, q: nat)
    requires b < q
    ensures a / 2 * (2 * q) + (a % 2 * q + b) == a * q + b && a % 2 * q + b < 2 * q
  {
    assert a == a / 2 * 2 + a % 2;
    assert a * q == a / 2 * (2 * q) + a % 2 * q;
  }

  /** Rotating left by s places multiplies by 2^s modulo 2^32 and adds the bits shifted out. */
  lemma RotateValue(x: bv32, s: bv8)
    requires s <= 32
    ensures Rotate(x, s) as nat ==
            x as nat * Power(s as nat) % 0x1_0000_0000 + x as nat / Power(32 - s as nat)
  {
    hide Rotate, Power, Turned;
    RotateTurns(x, s, s as nat);
    TurnedValue(x as nat, s as nat);
  }

  lemma TurnedValue(v: nat, n: nat)
    requires v < 0x1_0000_0000 && n <= 32
    ensures Turned(v, n) == v * Power(n) % 0x1_0000_0000 + v / Power(32 - n)
  {
    hide *;
    var p, q := Power(n), Power(32 - n);
    PowerPositive(n);
    PowerPositive(32 - n);
    WholeWord(n);
    Divided(v, p, q);
    TurnedParts(v / q, v % q, n);
    Overflow(v, p, q);
  }

  lemma Divided(x: nat, p: nat, q: nat)
    requires q > 0 && x < p * q
    ensures x == x / q * q + x % q && x % q < q && x / q < p
  {
    assert (x / q - p) * q < 0;
  }

  lemma {:induction false} PowerPositive(n: nat)
    ensures Power(n) > 0
  {
    if n > 0 {
      PowerPositive(n - 1);
    }
  }

  lemma WholeWord(n: nat)
    requires n <= 32
    ensures Power(n) * Power(32 - n) == 0x1_0000_0000
  {
    hide Power;
    PowerAdds(n, 32 - n);
    PowerSteps(31);
    PowerOf31();
  }

  lemma Overflow(v: nat, p: nat, q: nat)
    requires 0 < p && 0 < q && p * q == 0x1_0000_0000
    ensures v * p % 0x1_0000_0000 == v % q * p
  {
    var a, b := v / q, v % q;
    assert v * p == a * (p * q) + b * p by {
      assert v == a * q + b;
    }
    assert b * p <= (q - 1) * p == p * q - p;
  }
}
