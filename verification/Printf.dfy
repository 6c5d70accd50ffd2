/**
 Decimal conversion in lib/mylibc/stdio/simple_printf.c: put_dec and its parts.
 */
module Printf {
  import opened Division

  // Decimal digits.

  /** The decimal digits of n as characters, least significant first, without leading zeros. */
  function Decimal(n: int): string
    requires 0 <= n
  {
    if n < 10 then [Digit(n)] else [Digit(n % 10)] + Decimal(n / 10)
  }

  function Digit(d: int): char
    requires 0 <= d < 10
  {
    '0' + d as char
  }

  /** Dividing by 10 takes off one digit; k is what the rest of the number contributes. */
  lemma Shift(n: int, x: int, k: int)
    requires n == x + 10 * k
    ensures n % 10 == x % 10 && n / 10 == x / 10 + k
  {
  }

  /** (x * 0xcd) >> 11 */
  function By205(x: int): int {
    x * 0xcd / 2048
  }

  /** (x * 0xd) >> 7 */
  function By13(x: int): int {
    x * 0xd / 128
  }

  /** (x * 0xcd) >> 11 is x / 10 on the values that occur. */
  lemma Tenth205(n: int, x: int, k: int) returns (q: int)
    requires n == x + 10 * k && 0 <= x < 1020
    ensures q == By205(x) == n / 10 - k && x - 10 * q == n % 10 && 0 <= 10 * q <= x < 10 * q + 10
  {
    Shift(n, x, k);
    var a, r := x / 10, x % 10;
    q := a;
    Exact(x * 0xcd, 2048, a, 2 * a + 205 * r);
  }

  /** (x * 0xd) >> 7 is x / 10 on fewer values, but enough. */
  lemma Tenth13(n: int, x: int, k: int) returns (q: int)
    requires n == x + 10 * k && 0 <= x < 69
    ensures q == By13(x) == n / 10 - k && x - 10 * q == n % 10 && 0 <= 10 * q <= x < 10 * q + 10
  {
    Shift(n, x, k);
    var a, r := x / 10, x % 10;
    q := a;
    Exact(x * 0xd, 128, a, 2 * a + 13 * r);
  }

  lemma Exact(y: int, b: int, a: int, r: int)
    requires (b == 2048 || b == 128) && y == b * a + r && 0 <= r < b
    ensures y / b == a
  {
  }

  lemma Split(q: int)
    requires 0 <= q < 100000
    ensures var d0, d1, d2, d3 := q % 16, q / 16 % 16, q / 256 % 16, q / 4096;
            q == 4096 * d3 + 256 * d2 + 16 * d1 + d0 && 0 <= d0 < 16 && 0 <= d1 < 16 && 0 <= d2 < 16 && 0 <= d3 <= 24
  {
  }

  // put_dec_trunc
  method PutDecTrunc(buf: string, q0: int) returns (r: string)
    requires 0 <= q0 < 100000
    ensures r == buf + Decimal(q0)
  {
    Split(q0);
    var d1, d2, d3 := q0 / 16 % 16, q0 / 256 % 16, q0 / 4096;
    var low := q0 % 16;
    r := Trunc(buf, q0, low, d1, d2, d3);
  }

  method Trunc(buf: string, ghost n: int, low: int, d1_: int, d2_: int, d3_: int) returns (r: string)
    requires n == 4096 * d3_ + 256 * d2_ + 16 * d1_ + low && 0 <= low < 16 && 0 <= d1_ < 16 && 0 <= d2_ < 16
             && 0 <= d3_ <= 24 && n < 100000
    ensures r == buf + Decimal(n)
  {
    hide Decimal, By205;
    LastDigit(n);
    var d1, d2, d3 := d1_, d2_, d3_;
    var d0 := 6 * (d3 + d2 + d1) + low;
    ghost var t := Tenth205(n, d0, d1 + 25 * d2 + 409 * d3);
    var q := By205(d0);
    d0 := d0 - 10 * q;
    r := buf + [Digit(d0)];
    d1 := q + 9 * d3 + 5 * d2 + d1;
    if d1 != 0 {
      r := TruncMore(r, n / 10, d1, d2, d3);
    }
  }

  /** From the second digit on. */
  method TruncMore(buf: string, ghost n1: int, d1_: int, d2_: int, d3_: int) returns (r: string)
    requires n1 == d1_ + 10 * (2 * d2_ + 40 * d3_) && 0 < d1_ < 370 && 0 <= d2_ < 16 && 0 <= d3_ <= 24 && n1 < 10000
    ensures r == buf + Decimal(n1)
  {
    hide Decimal, By205;
    LastDigit(n1);
    var d1, d2, d3 := d1_, d2_, d3_;
    ghost var t := Tenth205(n1, d1, 2 * d2 + 40 * d3);
    var q := By205(d1);
    d1 := d1 - 10 * q;
    r := buf + [Digit(d1)];
    d2 := q + 2 * d2;
    if d2 != 0 || d3 != 0 {
      r := TruncRest(r, n1 / 10, d2, d3);
    }
  }

  lemma LastDigit(n: int)
    requires 0 <= n
    ensures Decimal(n) == [Digit(n % 10)] + (if n / 10 == 0 then [] else Decimal(n / 10))
    ensures n < 10 ==> n % 10 == n && n / 10 == 0
  {
  }

  /** The third digit and those above it. */
  method TruncRest(buf: string, ghost n2: int, d2_: int, d3_: int) returns (r: string)
    requires n2 == d2_ + 40 * d3_ && 0 < n2 < 1000 && 0 <= d2_ < 69 && 0 <= d3_ <= 24
    ensures r == buf + Decimal(n2)
  {
    hide Decimal, By205, By13;
    LastDigit(n2);
    LastDigit(n2 / 10);
    LastDigit(n2 / 10 / 10);
    var d2, d3 := d2_, d3_;
    ghost var t := Tenth13(n2, d2, 4 * d3);
    ghost var n3 := n2 / 10;
    var q := By13(d2);
    d2 := d2 - 10 * q;
    r := buf + [Digit(d2)];
    d3 := q + 4 * d3;
    if d3 != 0 {
      t := Tenth205(n3, d3, 0);
      q := By205(d3);
      d3 := d3 - 10 * q;
      r := r + [Digit(d3)];
      if q != 0 {
        r := r + [Digit(q)];
      }
    }
  }

  /** The five digits of a number below 100000, with leading zeros. */
  function Five(n: int): string
    requires 0 <= n < 100000
  {
    [Digit(n % 10), Digit(n / 10 % 10), Digit(n / 10 / 10 % 10), Digit(n / 10 / 10 / 10 % 10),
        Digit(n / 10 / 10 / 10 / 10)]
  }

  // put_dec_full
  method PutDecFull(buf: string, q0: int) returns (r: string)
    requires 0 <= q0 < 100000
    ensures r == buf + Five(q0)
  {
    Split(q0);
    var d1, d2, d3 := q0 / 16 % 16, q0 / 256 % 16, q0 / 4096;
    var low := q0 % 16;
    r := Full(buf, q0, low, d1, d2, d3);
  }

  method Full(buf: string, ghost n: int, low: int, d1_: int, d2_: int, d3_: int) returns (r: string)
    requires n == 4096 * d3_ + 256 * d2_ + 16 * d1_ + low && 0 <= low < 16 && 0 <= d1_ < 16 && 0 <= d2_ < 16
             && 0 <= d3_ <= 24 && n < 100000
    ensures r == buf + Five(n)
  {
    hide By205, By13;
    var d1, d2, d3 := d1_, d2_, d3_;
    var d0 := 6 * (d3 + d2 + d1) + low;
    ghost var t := Tenth205(n, d0, d1 + 25 * d2 + 409 * d3);
    ghost var n1 := n / 10;
    var q := By205(d0);
    d0 := d0 - 10 * q;
    r := buf + [Digit(d0)];
    d1 := q + 9 * d3 + 5 * d2 + d1;
    t := Tenth205(n1, d1, 2 * d2 + 40 * d3);
    ghost var n2 := n1 / 10;
    q := By205(d1);
    d1 := d1 - 10 * q;
    r := r + [Digit(d1)];
    d2 := q + 2 * d2;
    t := Tenth13(n2, d2, 4 * d3);
    ghost var n3 := n2 / 10;
    q := By13(d2);
    d2 := d2 - 10 * q;
    r := r + [Digit(d2)];
    d3 := q + 4 * d3;
    t := Tenth205(n3, d3, 0);
    q := By205(d3);
    d3 := d3 - 10 * q;
    r := r + [Digit(d3)];
    r := r + [Digit(q)];
  }

  /** Five digits at a time. */
  lemma FiveDigits(n: int)
    requires 100000 <= n
    ensures Decimal(n) == Five(n % 100000) + Decimal(n / 100000)
  {
    hide Decimal;
    var q, h := n % 100000, n / 100000;
    assert n == 100000 * h + q;
    Shift(n, q, 10000 * h);
    var n1, q1 := n / 10, q / 10;
    Shift(n1, q1, 1000 * h);
    var n2, q2 := n1 / 10, q1 / 10;
    Shift(n2, q2, 100 * h);
    var n3, q3 := n2 / 10, q2 / 10;
    Shift(n3, q3, 10 * h);
    var n4, q4 := n3 / 10, q3 / 10;
    Shift(n4, q4, h);
    assert q4 < 10 && n4 / 10 == h && n4 % 10 == q4;
    OneDigit(n);
    OneDigit(n1);
    OneDigit(n2);
    OneDigit(n3);
    OneDigit(n4);
  }

  lemma OneDigit(n: int)
    requires 10 <= n
    ensures Decimal(n) == [Digit(n % 10)] + Decimal(n / 10)
  {
  }

  // put_dec
  method PutDec(buf: string, num0: int) returns (r: string)
    requires 0 <= num0 < TWO64
    ensures r == buf + Decimal(num0)
  {
    var num := num0;
    r := buf;
    while num >= 100000
      invariant 0 <= num < TWO64 && r + Decimal(num) == buf + Decimal(num0)
      decreases num
    {
      FiveDigits(num);
      var rem;
      num, rem := DoDiv(num, 100000);
      r := PutDecFull(r, rem);
    }
    r := PutDecTrunc(r, num);
  }
}
