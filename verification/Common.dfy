/**
 What several of the models share: bytes, optional results, 32-bit words and powers of two.
 */
module Common {
  type octet = x: int | 0 <= x < 256

  datatype Option<T> = None | Some(value: T)

  const TWO32 := 0x1_0000_0000

  /** 1 << k. */
  function Power(k: nat): (r: int)
    ensures 1 <= r
  {
    if k == 0 then 1 else 2 * Power(k - 1)
  }

  lemma Power32()
    ensures 2 * Power(31) == Power(32) == TWO32
  {
    assert Power(4) == 2 * 2 * Power(2) == 16;
    assert Power(8) == 2 * 2 * Power(6) == 256;
    assert Power(12) == 2 * 2 * Power(10) == 4096;
    assert Power(16) == 2 * 2 * Power(14) == 0x1_0000;
    assert Power(20) == 2 * 2 * Power(18) == 0x10_0000;
    assert Power(24) == 2 * 2 * Power(22) == 0x100_0000;
    assert Power(28) == 2 * 2 * Power(26) == 0x1000_0000;
    assert Power(30) == 2 * 2 * Power(28) == 0x4000_0000;
  }

  lemma {:induction false} PowerGrows(j: nat, k: nat)
    requires j < k
    ensures 2 * Power(j) <= Power(k)
    decreases k
  {
    if j + 1 < k {
      PowerGrows(j, k - 1);
    } else {
      assert Power(k) == 2 * Power(j);
    }
  }

  lemma Times(a: int, b: int, c: int)
    requires a <= b && 0 <= c
    ensures a * c <= b * c
  {
  }

  lemma Eight(j: int)
    ensures (8 * j) % 8 == 0
  {
  }

  lemma ModEight(x: int, j: int)
    ensures (x + 8 * j) % 8 == x % 8
  {
  }

  lemma ModSixteen(x: int, j: int)
    ensures (x + 16 * j) % 16 == x % 16
  {
  }

  /** Quotient and remainder of numbers that are not negative. */
  lemma Quotient(x: int, d: int)
    requires 0 <= x && 0 < d
    ensures x == x / d * d + x % d && 0 <= x % d < d && 0 <= x / d && 0 <= x / d * d <= x
  {
    var q := x / d;
    if q <= -1 {
      Times(q, -1, d);
    } else {
      Times(0, q, d);
    }
  }

  /** The order of truncation and addition does not matter. */
  lemma Carry(x: int, y: int)
    ensures (x % TWO32 + y) % TWO32 == (x + y) % TWO32
  {
    var k, r := x / TWO32, x % TWO32;
    assert x == TWO32 * k + r;
    Modulo(r + y, k);
  }

  lemma Modulo(x: int, k: int)
    ensures (x + TWO32 * k) % TWO32 == x % TWO32
  {
  }
}
