/**
 __div64_32 of lib/mylibc/stdlib/div64.c: division of a 64-bit number by a 32-bit one with shifts and subtractions.
 */
module Division {
  import opened Common

  const TWO64 := 0x1_0000_0000_0000_0000
  const TWO63 := 0x8000_0000_0000_0000

  /** base << k */
  function Scaled(base: int, k: nat): int {
    base * Power(k)
  }

  lemma ScaledDoubles(base: int, k: nat)
    ensures Scaled(base, k + 1) == 2 * Scaled(base, k)
  {
    assert base * (2 * Power(k)) == 2 * (base * Power(k));
  }

  /** While base << k lies below rem, doubling it does not leave 64 bits. */
  lemma DoubleFits(base: int, k: nat, rem: int)
    requires 0 < base < TWO32 && Scaled(base, k) < rem < base * TWO32
    ensures k < 32 && 2 * Scaled(base, k) == Scaled(base, k + 1) <= base * TWO32 < TWO64
    ensures 2 * Power(k) == Power(k + 1) <= TWO32 && base <= Scaled(base, k)
  {
    hide Power;
    PowerBelow(k);
    ScaledDoubles(base, k);
    if k >= 32 {
      Times(TWO32, Power(k), base);
    } else {
      Times(Power(k + 1), TWO32, base);
      Times(base, TWO32 - 1, TWO32);
      Times(1, Power(k), base);
    }
  }

  lemma PowerBelow(k: nat)
    ensures 1 <= Power(k) && if k < 32 then 2 * Power(k) == Power(k + 1) <= TWO32 else TWO32 <= Power(k)
  {
    Power32();
    if k > 32 {
      PowerGrows(32, k);
    } else if k < 31 {
      PowerGrows(k + 1, 32);
    }
  }

  lemma SmallRemainders(q: int, x: int, y: int)
    requires 0 <= q < TWO32 && 0 <= x < TWO32 && 0 <= y < TWO64
    ensures q * TWO32 % TWO64 == q * TWO32 && x % TWO32 == x && y % TWO64 == y
  {
  }

  /** The number is replaced by the quotient; the remainder is returned. */
  method Div64(n: int, base: int) returns (quotient: int, remainder: int)
    requires 0 <= n < TWO64 && 0 < base < TWO32
    ensures quotient == n / base && remainder == n % base
  {
    hide Scaled;
    var rem, b, res, d := n, base, 0, 1;
    res, rem := Reduce(n, base);
    ghost var k: nat := 0;
    ScaledOnce(base);
    while 0 < b < TWO63 && b < rem
      invariant d == Power(k) && b == Scaled(base, k) && base <= b < TWO64
      invariant k <= 32
      decreases 32 - k
    {
      DoubleFits(base, k, rem);
      b := (b + b) % TWO64;
      d := (d + d) % TWO64;
      k := k + 1;
    }
    quotient, remainder := Subtract(n, base, rem, b, res, d, k);
    Unique(n, base, quotient, remainder);
  }

  lemma ScaledOnce(base: int)
    ensures Scaled(base, 0) == base && Power(0) == 1
  {
  }

  /** Reduce the thing a bit first: divide the high word. */
  method Reduce(n: int, base: int) returns (res: int, rem: int)
    requires 0 <= n < TWO64 && 0 < base < TWO32
    ensures n == res * base + rem && 0 <= rem < base * TWO32 && 0 <= res
  {
    res, rem := 0, n;
    var high := rem / TWO32;
    if high >= base {
      high := high / base;
      Times(base, TWO32, TWO32);
      SmallRemainders(high, high * base, n - high * base * TWO32);
      res := high * TWO32 % TWO64;
      // (uint64_t)(high * base) << 32, with a 32-bit product
      rem := (rem - high * base % TWO32 * TWO32) % TWO64;
    }
  }

  /** The loop do { ... } while (d), with b = base * 2^k: one bit of the quotient at a time. */
  method Subtract(n: int, base: int, rem0: int, b0: int, res0: int, d0: int, ghost k0: nat) returns (res: int, rem: int)
    requires 0 < base && d0 == Power(k0) && b0 == Scaled(base, k0) && 0 <= rem0 < 2 * b0 && 0 <= res0
             && n == res0 * base + rem0
    ensures n == res * base + rem && 0 <= rem < base && 0 <= res
  {
    hide Scaled, Power;
    res, rem := res0, rem0;
    var b, d := b0, d0;
    ghost var k: nat := k0;
    Halved(base, k);
    while d > 0
      invariant d > 0 ==> d == Power(k) && b == Scaled(base, k) && 0 <= rem < 2 * b
      invariant d == 0 ==> 0 <= rem < base
      invariant 0 <= d && 0 <= res && n == res * base + rem
      decreases d
    {
      Halved(base, k);
      if rem >= b {
        rem := rem - b;
        OneBit(res, d, base, k);
        res := res + d;
      }
      b := b / 2;
      d := d / 2;
      if k > 0 {
        k := k - 1;
      }
    }
  }

  lemma Halved(base: int, k: nat)
    ensures 0 < Power(k)
    ensures if k == 0 then Power(k) / 2 == 0 && Scaled(base, k) == base
            else Power(k) / 2 == Power(k - 1) && Scaled(base, k) == 2 * Scaled(base, k - 1)
  {
    if k > 0 {
      ScaledDoubles(base, k - 1);
    }
  }

  lemma OneBit(res: int, d: int, base: int, k: nat)
    requires d == Power(k)
    ensures (res + d) * base == res * base + Scaled(base, k)
  {
    assert (res + d) * base == res * base + base * d;
  }

  /** do_div: the short division when the high word is zero. */
  method DoDiv(n: int, base: int) returns (quotient: int, remainder: int)
    requires 0 <= n < TWO64 && 0 < base < TWO32
    ensures quotient == n / base && remainder == n % base
  {
    if n / TWO32 == 0 {
      remainder := n % TWO32 % base;
      quotient := n % TWO32 / base;
    } else {
      quotient, remainder := Div64(n, base);
      Unique(n, base, quotient, remainder);
    }
  }

  /** Quotient and remainder are determined. */
  lemma Unique(n: int, b: int, q: int, r: int)
    requires 0 < b && n == q * b + r && 0 <= r < b
    ensures q == n / b && r == n % b
  {
    var p, s := n / b, n % b;
    assert n == p * b + s && 0 <= s < b;
    assert (p - q) * b == p * b - q * b;
    NoMultiple(p - q, b, r - s);
  }

  lemma NoMultiple(x: int, b: int, d: int)
    requires 0 < b && x * b == d && -b < d < b
    ensures x == 0
  {
    if x >= 1 {
      Times(1, x, b);
    }
    if x <= -1 {
      Times(x, -1, b);
    }
  }
}
