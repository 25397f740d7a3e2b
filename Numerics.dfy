/** Integer helpers for the sphere sizing: exact powers of four, which stand
    for `(int)Mathf.Pow(4, k)`, and 32-bit wrap-around for C# `int` products. */
module Numerics {

  /** 4^k. Mathf.Pow returns a float, but every power of four below 2^31 is
      exactly representable, so the cast to int is exact for the exponents used. */
  function Pow4(k: nat): (r: nat)
    ensures r >= 1
    ensures k >= 1 ==> r >= 4
  {
    if k == 0 then 1 else 4 * Pow4(k - 1)
  }

  lemma {:induction false} Pow4Add(a: nat, b: nat)
    ensures Pow4(a + b) == Pow4(a) * Pow4(b)
  {
    if a > 0 {
      Pow4Add(a - 1, b);
      calc {
        Pow4(a + b);
        4 * Pow4(a - 1 + b);
        4 * (Pow4(a - 1) * Pow4(b));
        (4 * Pow4(a - 1)) * Pow4(b);
      }
    }
  }

  lemma {:induction false} Pow4Monotone(a: nat, b: nat)
    requires a <= b
    ensures Pow4(a) <= Pow4(b)
    ensures Pow4(a) < Pow4(b) <==> a < b
  {
    if a < b {
      Pow4Monotone(a, b - 1);
    }
  }

  /** The powers of four at and just beyond the largest resolution whose
      vertex count fits a C# `int`. */
  lemma Pow4Values()
    ensures Pow4(12) == 16777216
    ensures Pow4(13) == 67108864
    ensures Pow4(14) == 268435456
    ensures Pow4(15) == 1073741824
  {
    assert Pow4(3) == 64;
    assert Pow4(6) == 4096 by { Pow4Add(3, 3); }
    assert Pow4(12) == 16777216 by { Pow4Add(6, 6); }
    assert Pow4(13) == 4 * Pow4(12);
    assert Pow4(14) == 4 * Pow4(13);
    assert Pow4(15) == 4 * Pow4(14);
  }

  /** A face of 3p vertices with p = d·q leaves, cut into d slices, gives
      slices of 3q vertices, and 20·d such slices hold 60·p vertices. */
  lemma SliceArithmetic(p: int, d: int, q: int)
    requires d > 0 && p == d * q
    ensures (3 * p) / d == 3 * q
    ensures (20 * d) * (3 * q) == 60 * p
  {
    var n, k := 3 * p, 3 * q;
    assert n == d * k;
    var r := n % d;
    var k' := n / d;
    assert n == d * k' + r && 0 <= r < d;
    assert d * (k - k') == r;
    MulMagnitude(d, k - k');
  }

  lemma MulMagnitude(d: int, x: int)
    requires d > 0
    ensures x >= 1 ==> d * x >= d
    ensures x <= -1 ==> d * x <= -d
  {
  }

  /** One more row of p: i·p + p == (i+1)·p. */
  lemma MulSucc(i: int, p: int)
    ensures i * p + p == (i + 1) * p
  {
  }

  function Min(a: int, b: int): int { if a <= b then a else b }

  function Max(a: int, b: int): int { if a >= b then a else b }

  const Int32Modulus: int := 0x1_0000_0000

  /** The value a C# `int` holds after an unchecked computation whose exact
      result is x: x reduced into [-2^31, 2^31). */
  function Wrap32(x: int): (r: int)
    ensures -0x8000_0000 <= r < 0x8000_0000
    ensures (r - x) % Int32Modulus == 0
    ensures -0x8000_0000 <= x < 0x8000_0000 ==> r == x
  {
    var m := x % Int32Modulus;
    if m < 0x8000_0000 then m else m - Int32Modulus
  }
}
