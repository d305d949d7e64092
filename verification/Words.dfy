/** Unsigned 32-bit words as integers, with the wrap-around of `uint32_t` written out. */
module Words {
  const TWO_32: int := 0x1_0000_0000

  type u32 = n: int | 0 <= n < 0x1_0000_0000

  function Add32(a: u32, b: u32): u32 {
    (a + b) % TWO_32
  }

  lemma Add32Aligned(a: u32, b: u32)
    requires a % 4 == 0 && b % 4 == 0
    ensures Add32(a, b) % 4 == 0
  {
    if a + b < TWO_32 {
      assert Add32(a, b) == a + b;
    } else {
      assert Add32(a, b) == a + b - TWO_32;
    }
  }

  function Pow2(k: nat): (p: nat)
    ensures p >= 1
  {
    if k == 0 then 1 else 2 * Pow2(k - 1)
  }

  /** (x >> k) & 1, shifting one place at a time */
  function Bit(x: nat, k: nat): (b: int)
    ensures 0 <= b <= 1
    decreases k
  {
    if k == 0 then x % 2 else Bit(x / 2, k - 1)
  }

  lemma {:induction false} NoBits(k: nat)
    ensures Bit(0, k) == 0
  {
    if k > 0 {
      NoBits(k - 1);
    }
  }

  lemma {:induction false} OwnBit(k: nat)
    ensures Bit(Pow2(k), k) == 1
  {
    if k > 0 {
      OwnBit(k - 1);
      assert Pow2(k) / 2 == Pow2(k - 1);
    }
  }

  // ---------------------------------------------------------------- products and quotients

  lemma {:induction false} MulPositive(a: int, k: nat)
    requires a > 0 && k > 0
    ensures a * k >= a
  {
    if k > 1 {
      MulPositive(a, k - 1);
      assert a * k == a * (k - 1) + a;
    }
  }

  lemma MulAway(a: int, k: int)
    requires a > 0 && k != 0
    ensures a * k >= a || a * k <= -a
  {
    MulPositive(a, if k > 0 then k else -k);
    assert a * -k == -(a * k);
  }

  /** A quotient and a remainder are determined by the number they make up. */
  lemma DivModIs(n: int, d: int, q: int, r: int)
    requires d > 0 && n == d * q + r && 0 <= r < d
    ensures n / d == q && n % d == r
  {
    var k := q - n / d;
    assert n == d * (n / d) + n % d;
    assert d * k == d * q - d * (n / d);
    if k != 0 {
      MulAway(d, k);
    }
  }

  lemma MulMonotone(a: int, b: int, c: int)
    requires a <= b && c >= 0
    ensures a * c <= b * c
  {
    assert (b - a) * c >= 0;
  }

  lemma {:induction false} Pow2Add(j: nat, k: nat)
    ensures Pow2(j + k) == Pow2(j) * Pow2(k)
    decreases k
  {
    if k > 0 {
      Pow2Add(j, k - 1);
      assert Pow2(j) * Pow2(k) == 2 * (Pow2(j) * Pow2(k - 1));
    }
  }

  /** A bit is what is left of the quotient by its power of two. */
  lemma {:induction false} BitIs(x: nat, k: nat)
    ensures Bit(x, k) == (x / Pow2(k)) % 2
    decreases k
  {
    if k == 0 {
      DivModIs(x, 1, x, 0);
    } else {
      BitIs(x / 2, k - 1);
      var p := Pow2(k - 1);
      var q, r := (x / 2) / p, (x / 2) % p;
      assert x / 2 == p * q + r;
      assert x == (2 * p) * q + (2 * r + x % 2);
      DivModIs(x, 2 * p, q, 2 * r + x % 2);
    }
  }

  // ---------------------------------------------------------------- alignment

  ghost predicate IsPowerOfTwo(a: int) {
    exists k: nat :: a == Pow2(k)
  }

  /** alignUp, which masks bits off and so rounds up to a multiple only for a power of two */
  function AlignUp(v: int, alignment: int): (r: int)
    requires alignment > 0
    ensures v <= r < v + alignment && r % alignment == 0
  {
    var last := v + alignment - 1;
    DivModIs(last - last % alignment, alignment, last / alignment, 0);
    last - last % alignment
  }
}
