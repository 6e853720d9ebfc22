/**
 * Integer helpers shared by the packer, the unpacker and the encoder rules:
 * powers of two (C's shifts on non-negative values), and the signed 8-, 16-
 * and 32-bit views that the Java host arrays (byte[], short[], int[]) give
 * of a C value.
 */
module Numeric {

  newtype int8 = x: int | -0x80 <= x < 0x80
  newtype int16 = x: int | -0x8000 <= x < 0x8000
  newtype int32 = x: int | -0x8000_0000 <= x < 0x8000_0000

  /** 2 to the power n. `x << n` is `x * Pow2(n)` and, for `x >= 0`, `x >> n` is `x / Pow2(n)`. */
  function Pow2(n: nat): (r: nat)
    ensures r >= 1
  {
    if n == 0 then 1 else 2 * Pow2(n - 1)
  }

  lemma {:induction false} Pow2Add(a: nat, b: nat)
    ensures Pow2(a + b) == Pow2(a) * Pow2(b)
  {
    if a > 0 {
      Pow2Add(a - 1, b);
      assert Pow2(a + b) == 2 * Pow2(a - 1 + b);
    }
  }

  lemma {:induction false} Pow2Monotone(a: nat, b: nat)
    requires a <= b
    ensures Pow2(a) <= Pow2(b)
  {
    if a < b {
      Pow2Monotone(a, b - 1);
    }
  }

  lemma Pow2Sixteen()
    ensures Pow2(8) == 0x100 && Pow2(16) == 0x1_0000
  {
    Pow2Add(8, 8);
    assert Pow2(8) == 0x100;
  }

  /** The value a conversion to a Java byte stores: the low 8 bits read as two's complement. */
  function ToInt8(x: int): (r: int8)
    ensures (r as int - x) % 0x100 == 0
  {
    var m := x % 0x100;
    if m >= 0x80 then (m - 0x100) as int8 else m as int8
  }

  /** The value a conversion to a Java short stores: the low 16 bits read as two's complement. */
  function ToInt16(x: int): (r: int16)
    ensures (r as int - x) % 0x1_0000 == 0
  {
    var m := x % 0x1_0000;
    if m >= 0x8000 then (m - 0x1_0000) as int16 else m as int16
  }

  /** The value a conversion to a Java int stores: the low 32 bits read as two's complement. */
  function ToInt32(x: int): (r: int32)
    ensures (r as int - x) % 0x1_0000_0000 == 0
  {
    var m := x % 0x1_0000_0000;
    if m >= 0x8000_0000 then (m - 0x1_0000_0000) as int32 else m as int32
  }

  /** The value a conversion to OPJ_UINT32 stores: the low 32 bits, unsigned. */
  function ToUint32(x: int): (r: nat)
    ensures r < 0x1_0000_0000
    ensures (r - x) % 0x1_0000_0000 == 0
  {
    x % 0x1_0000_0000
  }

  /** Adding a multiple of 2^32 does not change the stored OPJ_UINT32. */
  lemma ToUint32Shift(y: int, k: int)
    ensures ToUint32(y + k * 0x1_0000_0000) == ToUint32(y)
  {
    DivUnique(y + k * 0x1_0000_0000, 0x1_0000_0000, y / 0x1_0000_0000 + k, y % 0x1_0000_0000);
  }

  /** The bit pattern of a Java short, as an unsigned 16-bit number. */
  function Bits16(v: int16): (r: nat)
    ensures r < 0x1_0000
    ensures ToInt16(r) == v
  {
    (v as int) % 0x1_0000
  }

  /** Reading back the bit pattern of a stored 16-bit value gives the value. */
  lemma Bits16OfToInt16(x: int)
    requires 0 <= x < 0x1_0000
    ensures Bits16(ToInt16(x)) == x
  {
  }

  /** Reading back the bit pattern of a stored 32-bit value gives the value. */
  lemma Bits32OfToInt32(x: int)
    requires 0 <= x < 0x1_0000_0000
    ensures Bits32(ToInt32(x)) == x
  {
  }

  lemma MulAtLeast(k: int, h: int)
    requires k >= 1 && h > 0
    ensures k * h >= h
  {
  }

  lemma MulLe(a: int, b: int, c: nat)
    requires a <= b
    ensures a * c <= b * c
  {
    assert b * c - a * c == (b - a) * c;
  }

  /** Division is determined by any decomposition with an in-range remainder. */
  lemma DivUnique(p: int, h: int, a: int, b: int)
    requires h > 0 && p == a * h + b && 0 <= b < h
    ensures p / h == a && p % h == b
  {
    var q, r := p / h, p % h;
    assert p == q * h + r;
    assert (a - q) * h == r - b;
    if a > q {
      MulAtLeast(a - q, h);
    } else if a < q {
      assert (q - a) * h == b - r;
      MulAtLeast(q - a, h);
    }
  }

  /** A number below a product divided by one factor stays below the other. */
  lemma DivBelow(v: nat, a: nat, b: nat)
    requires a > 0 && v < a * b
    ensures v / a < b
  {
  }

  /** Dividing by h splits into twice the quotient by 2h plus the top bit of the remainder. */
  lemma DivByHalf(p: nat, h: nat)
    requires h >= 1
    ensures p / h == 2 * (p / (2 * h)) + (p % (2 * h)) / h
    ensures (p % (2 * h)) / h < 2
  {
    var q, r := p / (2 * h), p % (2 * h);
    var t, w := r / h, r % h;
    DivBelow(r, h, 2);
    assert p == (2 * q + t) * h + w by {
      assert p == q * (2 * h) + r;
      assert r == t * h + w;
      assert q * (2 * h) + t * h == (2 * q + t) * h;
    }
    DivUnique(p, h, 2 * q + t, w);
  }

  /** The quotient is the largest multiple not above the dividend. */
  lemma DivBounds(x: nat, d: nat)
    requires d >= 1
    ensures (x / d) * d <= x < (x / d + 1) * d
  {
    assert x == (x / d) * d + x % d;
    assert (x / d + 1) * d == (x / d) * d + d;
  }

  /** Division by a positive number is monotone. */
  lemma DivMonotone(x: nat, y: nat, d: nat)
    requires d >= 1 && x <= y
    ensures x / d <= y / d
  {
    DivBounds(x, d);
    DivBounds(y, d);
    if x / d > y / d {
      MulAtLeast(x / d - y / d, d);
    }
  }

  /** The bit pattern of a Java int, as an unsigned 32-bit number. */
  function Bits32(v: int32): (r: nat)
    ensures r < 0x1_0000_0000
    ensures ToInt32(r) == v
  {
    (v as int) % 0x1_0000_0000
  }

  /** Bit i of a natural number: `(x >> i) & 1`. */
  predicate Bit(x: nat, i: nat)
  {
    (x / Pow2(i)) % 2 == 1
  }

  /** `x | (1 << i)`. */
  function SetBit(x: nat, i: nat): nat
  {
    if Bit(x, i) then x else x + Pow2(i)
  }

  /** Dividing by p * k is dividing by p, then by k. */
  lemma DivDiv(x: nat, p: nat, k: nat, pk: nat)
    requires p >= 1 && k >= 1 && pk == p * k
    ensures x / pk == (x / p) / k
  {
    var a, b := x / p, x % p;
    var c, d := a / k, a % k;
    assert x == c * pk + (d * p + b) by {
      assert x == a * p + b;
      assert a == c * k + d;
      assert (c * k + d) * p == c * pk + d * p;
    }
    assert d * p + b < pk by {
      MulLe(d + 1, k, p);
      assert (d + 1) * p == d * p + p;
      assert k * p == pk;
    }
    DivUnique(x, pk, c, d * p + b);
  }

  /** Adding one to an even number does not change its quotient by an even k. */
  lemma EvenSucc(y: nat, k: nat, h: nat)
    requires y % 2 == 0 && h >= 1 && k == 2 * h
    ensures (y + 1) / k == y / k
  {
    var c, d := y / k, y % k;
    var e := c * h;
    assert y == 2 * e + d by {
      assert y == c * k + d;
      assert c * k == 2 * e;
    }
    assert d + 1 < k;
    DivUnique(y + 1, k, c, d + 1);
  }

  /** Adding a multiple d * p of p changes the quotient by p by d. */
  lemma AddMultiple(x: nat, p: nat, d: nat)
    requires p >= 1
    ensures (x + d * p) / p == x / p + d
  {
    DivUnique(x + d * p, p, x / p + d, x % p);
  }

  /** Adding p to x when bit "p" of x is clear leaves the quotient by p * k unchanged, for an even k = 2h. */
  lemma AddClearBitHigh(x: nat, p: nat, k: nat, h: nat, pk: nat)
    requires p >= 1 && h >= 1 && k == 2 * h && (x / p) % 2 == 0 && pk == p * k
    ensures (x + p) / pk == x / pk
  {
    DivDiv(x, p, k, pk);
    DivDiv(x + p, p, k, pk);
    AddMultiple(x, p, 1);
    EvenSucc(x / p, k, h);
  }

  /** Adding an even multiple of p keeps the parity of the quotient by p. */
  lemma AddEvenMultiple(x: nat, p: nat, y: nat, e: nat)
    requires p >= 1 && y == x + (2 * e) * p
    ensures (y / p) % 2 == (x / p) % 2
  {
    AddMultiple(x, p, 2 * e);
  }

  /** 2^j is 2^i times an even power of two when i < j. */
  lemma Pow2Split(i: nat, j: nat)
    requires i < j
    ensures Pow2(j) == Pow2(i) * Pow2(j - i) && Pow2(j - i) == 2 * Pow2(j - i - 1)
  {
    Pow2Add(i, j - i);
  }

  /** Below a clear bit i, adding 2^i leaves bit j as it was. */
  lemma SetBitBelow(x: nat, i: nat, j: nat)
    requires j < i
    ensures Bit(x + Pow2(i), j) == Bit(x, j)
  {
    Pow2Split(j, i);
    AddEvenMultiple(x, Pow2(j), x + Pow2(i), Pow2(i - j - 1));
  }

  /** Above a clear bit i, adding 2^i leaves bit j as it was. */
  lemma SetBitAbove(x: nat, i: nat, j: nat)
    requires i < j && !Bit(x, i)
    ensures Bit(x + Pow2(i), j) == Bit(x, j)
  {
    var p, k, h, pk := Pow2(i), Pow2(j - i), Pow2(j - i - 1), Pow2(j);
    Pow2Split(i, j);
    AddClearBitHigh(x, p, k, h, pk);
  }

  /** Setting bit i sets that bit and no other. */
  lemma SetBitBits(x: nat, i: nat, j: nat)
    ensures Bit(SetBit(x, i), j) <==> Bit(x, j) || j == i
  {
    if !Bit(x, i) {
      if j == i {
        AddMultiple(x, Pow2(i), 1);
      } else if j < i {
        SetBitBelow(x, i, j);
      } else {
        SetBitAbove(x, i, j);
      }
    }
  }
}
