/**
 What the field of number looks like, character by character: its width, the padding, the sign, the prefix and
 the digits, in terms of powers of the base.
 */
module NumberFields {
  import opened Common
  import opened Division
  import opened Numbers

  const LOWER := "0123456789abcdef"
  const UPPER := "0123456789ABCDEF"

  function PowerOf(base: int, k: nat): (r: int)
    requires 2 <= base
    ensures 1 <= r
  {
    if k == 0 then 1
    else
      Times(1, PowerOf(base, k - 1), base);
      base * PowerOf(base, k - 1)
  }

  /** Digit k of n, counted from the least significant one. */
  function Place(n: int, base: int, k: nat): (r: int)
    requires 2 <= base
    ensures 0 <= r < base
  {
    n / PowerOf(base, k) % base
  }

  /** How many digits n has. */
  function DigitCount(n: int, base: int): nat
    requires 0 <= n && 2 <= base
    decreases n
  {
    if n < base then 1
    else
      assert n == n / base * base + n % base;
      SmallQuotient(n, base, n / base, n % base);
      1 + DigitCount(n / base, base)
  }

  lemma DivideUnique(n: int, d: int, q: int, r: int)
    requires n == q * d + r && 0 <= r < d
    ensures n / d == q && n % d == r
  {
    var k := n / d - q;
    assert n == n / d * d + n % d;
    assert k * d == r - n % d;
    if 1 <= k {
      Times(1, k, d);
    } else if k <= -1 {
      Times(k, -1, d);
    }
  }

  /** Dividing twice is dividing by the product. */
  lemma DivideTwice(n: int, a: int, b: int)
    requires 0 < a && 0 < b
    ensures 0 < a * b && n / a / b == n / (a * b)
  {
    var q, r := n / a, n % a;
    var q2, r2 := q / b, q % b;
    assert n == q * a + r && q == q2 * b + r2;
    assert (q2 * b + r2) * a == q2 * (a * b) + r2 * a;
    assert (r2 + 1) * a == r2 * a + a;
    Times(0, r2, a);
    Times(r2 + 1, b, a);
    DivideUnique(n, a * b, q2, r2 * a + r);
  }

  lemma Between(n: int, base: int, q: int, r: int, low: int, high: int)
    requires 2 <= base && n == q * base + r && 0 <= r < base && low <= q < high
    ensures low * base <= n < high * base
  {
    Times(low, q, base);
    Times(q + 1, high, base);
    assert (q + 1) * base == q * base + base;
  }

  /** n lies between two powers of the base. */
  lemma {:induction false} CountExact(n: int, base: int)
    requires 0 <= n && 2 <= base
    ensures var d := DigitCount(n, base);
            1 <= d && n < PowerOf(base, d) && (1 < d ==> PowerOf(base, d - 1) <= n)
    decreases n
  {
    assert PowerOf(base, 1) == base * PowerOf(base, 0) == base;
    if n < base {
    } else {
      var q, r := n / base, n % base;
      assert n == q * base + r;
      SmallQuotient(n, base, q, r);
      CountExact(q, base);
      var d := DigitCount(q, base);
      Between(n, base, q, r, if 1 < d then PowerOf(base, d - 1) else 1, PowerOf(base, d));
      assert PowerOf(base, d + 1) == PowerOf(base, d) * base && PowerOf(base, d) == PowerOf(base, d - 1) * base;
    }
  }

  /** The other digits of n are those of n / base. */
  lemma PlaceStep(n: int, base: int, k: nat)
    requires 0 <= n && 2 <= base
    ensures if k == 0 then Place(n, base, k) == n % base else Place(n, base, k) == Place(n / base, base, k - 1)
  {
    if 0 < k {
      DivideTwice(n, base, PowerOf(base, k - 1));
    } else {
      assert n / 1 == n;
    }
  }

  /** The digits that number works out are those of n. */
  lemma {:induction false} DigitAt(n: int, base: int, small: bool, k: nat)
    requires 0 <= n && 2 <= base <= 16
    ensures |DigitsOf(n, base, small)| == DigitCount(n, base)
    ensures k < DigitCount(n, base) ==>
              DigitsOf(n, base, small)[k] == (if small then LOWER else UPPER)[Place(n, base, k)]
    decreases n
  {
    hide HexDigit, Place, DigitsOf;
    PlaceStep(n, base, k);
    HexDigitIs(n % base, small);
    DigitsStep(n, base, small);
    if n < base {
      SmallQuotient(n, base, n / base, n % base);
    } else {
      SmallQuotient(n, base, n / base, n % base);
      DigitAt(n / base, base, small, if k == 0 then 0 else k - 1);
    }
  }

  lemma HexDigitIs(d: int, small: bool)
    requires 0 <= d < 16
    ensures HexDigit(d, small) == (if small then LOWER else UPPER)[d]
  {
  }

  lemma {:induction false} ReversedAt(s: string, i: int)
    ensures |Reversed(s)| == |s| && (0 <= i < |s| ==> Reversed(s)[i] == s[|s| - 1 - i])
    decreases |s|
  {
    if s == "" {
    } else {
      var rest := Reversed(s[..|s| - 1]);
      ReversedAt(s[..|s| - 1], i - 1);
      assert Reversed(s) == [s[|s| - 1]] + rest;
      if 0 < i < |s| {
        assert Reversed(s)[i] == rest[i - 1];
      }
    }
  }

  function SignWidth(num: int, f: Flags): int {
    if f.sign && (num >= TWO63 || f.plus || f.space) then 1 else 0
  }

  function PrefixWidth(base: int, f: Flags): int {
    if !f.special || base == 10 then 0 else if base == 16 then 2 else 1
  }

  /** Sign, prefix, and the digits or the precision, whichever is more. */
  function ContentWidth(num: int, base: int, precision: int, f: Flags): int
    requires 0 <= num < TWO64 && 2 <= base
  {
    SignWidth(num, f) + PrefixWidth(base, f) + Most(DigitCount(Magnitude(num, f), base), precision)
  }

  /** The parts of the field, with their widths. */
  lemma Parts(num: int, base: int, size: int, precision: int, f: Flags)
    returns (lead: string, sign: string, prefix: string, zeros: string, digits: string, trail: string)
    requires 0 <= num < TWO64 && 2 <= base <= 16
    ensures Formatted(num, base, size, precision, f) == lead + sign + prefix + zeros + digits + trail
    ensures sign == SignOf(num, f) && prefix == PrefixOf(base, f)
            && digits == Reversed(DigitsOf(Magnitude(num, f), base, f.small))
    ensures |sign| == SignWidth(num, f) && |prefix| == PrefixWidth(base, f)
            && |digits| == DigitCount(Magnitude(num, f), base)
    ensures Blank(lead) && Blank(trail) && forall i | 0 <= i < |zeros| :: zeros[i] == '0'
    ensures var c := ContentWidth(num, base, precision, f);
            |lead| == (if f.left || f.zeroPad then 0 else Most(size - c, 0))
            && |trail| == (if f.left then Most(size - c, 0) else 0)
            && |lead| + |sign| + |prefix| + |zeros| + |digits| + |trail| == Most(size, c)
  {
    hide DigitsOf, Repeat, Reversed, DigitCount, Padding, SignOf, PrefixOf, Magnitude, SignWidth, PrefixWidth,
      Blank, Body;
    Widths(num, base, size, precision, f);
    var d := DigitsOf(Magnitude(num, f), base, f.small);
    ReversedAt(d, 0);
    var pad := Padding(num, base, size, precision, f);
    sign, prefix, digits := SignOf(num, f), PrefixOf(base, f), Reversed(d);
    lead, zeros, trail := Pads(pad, precision - |d|, f);
    assert Formatted(num, base, size, precision, f) == lead + sign + prefix
        + Body(if f.zeroPad && !f.left then pad else 0, precision - |d|, d, if f.left then pad else 0);
    BodyIs(pad, precision - |d|, d, f);
  }

  lemma Widths(num: int, base: int, size: int, precision: int, f: Flags)
    requires 0 <= num < TWO64 && 2 <= base <= 16
    ensures |SignOf(num, f)| == SignWidth(num, f) && |PrefixOf(base, f)| == PrefixWidth(base, f)
    ensures 0 <= Magnitude(num, f)
            && |DigitsOf(Magnitude(num, f), base, f.small)| == DigitCount(Magnitude(num, f), base)
    ensures Padding(num, base, size, precision, f) == size - ContentWidth(num, base, precision, f)
  {
    hide DigitsOf, DigitCount;
    DigitAt(Magnitude(num, f), base, f.small, 0);
  }

  ghost predicate Blank(s: string) {
    forall i | 0 <= i < |s| :: s[i] == ' '
  }

  /** The padding of a field, wherever the flags put it, and the zeros that the precision asks for. */
  lemma Pads(pad: int, y: int, f: Flags) returns (lead: string, zeros: string, trail: string)
    ensures lead == Repeat(' ', if f.zeroPad || f.left then 0 else pad)
            && trail == Repeat(' ', if f.left then pad else 0)
    ensures zeros == Repeat('0', if f.zeroPad && !f.left then pad else 0) + Repeat('0', y)
    ensures Blank(lead) && Blank(trail) && forall i | 0 <= i < |zeros| :: zeros[i] == '0'
    ensures |lead| == (if f.left || f.zeroPad then 0 else Most(pad, 0))
            && |trail| == (if f.left then Most(pad, 0) else 0)
            && |lead| + |zeros| + |trail| == Most(pad, 0) + Most(y, 0)
  {
    hide Repeat;
    lead, trail := Repeat(' ', if f.zeroPad || f.left then 0 else pad), Repeat(' ', if f.left then pad else 0);
    RepeatIs(' ', if f.zeroPad || f.left then 0 else pad);
    RepeatIs(' ', if f.left then pad else 0);
    var z := if f.zeroPad && !f.left then pad else 0;
    RepeatIs('0', z);
    RepeatIs('0', y);
    zeros := Repeat('0', z) + Repeat('0', y);
  }

  lemma BodyIs(pad: int, y: int, d: string, f: Flags)
    ensures Body(if f.zeroPad && !f.left then pad else 0, y, d, if f.left then pad else 0)
            == Repeat('0', if f.zeroPad && !f.left then pad else 0) + Repeat('0', y) + Reversed(d)
               + Repeat(' ', if f.left then pad else 0)
  {
  }

  /** The field is as wide as asked, or as wide as what it has to hold. */
  lemma FieldWidth(num: int, base: int, size: int, precision: int, f: Flags)
    requires 0 <= num < TWO64 && 2 <= base <= 16
    ensures |Formatted(num, base, size, precision, f)| == Most(size, ContentWidth(num, base, precision, f))
  {
    hide Formatted, ContentWidth, DigitCount, DigitsOf, Reversed;
    var lead, sign, prefix, zeros, digits, trail := Parts(num, base, size, precision, f);
  }

  /** Every character of the field: blanks below a and from b on, between them the sign, the prefix, zeros and, at
      the end, the digits. */
  lemma FieldChars(num: int, base: int, size: int, precision: int, f: Flags, i: int)
    requires 0 <= num < TWO64 && 2 <= base <= 16 && 0 <= i < |Formatted(num, base, size, precision, f)|
    ensures var r, n := Formatted(num, base, size, precision, f), Magnitude(num, f);
            var content, s, p := ContentWidth(num, base, precision, f), SignWidth(num, f), PrefixWidth(base, f);
            var a, b := if f.left || f.zeroPad then 0 else |r| - content, if f.left then content else |r|;
            n == (if f.sign && num >= TWO63 then TWO64 - num else num)
            && if i < a || b <= i then r[i] == ' '
            else if i < a + s then r[i] == if num >= TWO63 then '-' else if f.plus then '+' else ' '
            else if i < a + s + p then r[i] == if i == a + s then '0' else if f.small then 'x' else 'X'
            else if i < b - DigitCount(n, base) then r[i] == '0'
            else r[i] == (if f.small then LOWER else UPPER)[Place(n, base, b - 1 - i)]
  {
    hide Formatted, DigitCount, DigitsOf, Reversed, Place, SignOf, PrefixOf, SignWidth, PrefixWidth,
      ContentWidth;
    var lead, sign, prefix, zeros, digits, trail := Parts(num, base, size, precision, f);
    SignChars(num, base, f);
    var r, n, content := Formatted(num, base, size, precision, f), Magnitude(num, f),
        ContentWidth(num, base, precision, f);
    var b := if f.left then content else |r|;
    assert b == |r| - |trail|;
    var k := b - 1 - i;
    if 0 <= k < |digits| {
      DigitAt(n, base, f.small, k);
      ReversedAt(DigitsOf(n, base, f.small), |digits| - 1 - k);
    }
  }

  lemma SignChars(num: int, base: int, f: Flags)
    ensures Magnitude(num, f) == if f.sign && num >= TWO63 then TWO64 - num else num
    ensures SignOf(num, f) != "" ==> SignOf(num, f)[0] == if num >= TWO63 then '-' else if f.plus then '+' else ' '
    ensures |SignOf(num, f)| <= 1 && |PrefixOf(base, f)| <= 2
    ensures var p := PrefixOf(base, f);
            p != "" ==> p[0] == '0' && (1 < |p| ==> p[1] == if f.small then 'x' else 'X')
  {
  }

  /** Two hexadecimal digits for every byte, as in the default name of the boot file. */
  lemma ByteField(x: octet, small: bool)
    ensures Formatted(x, 16, 2, -1, Flags(true, false, false, false, false, small, false))
            == var d := if small then LOWER else UPPER; [d[x / 16], d[x % 16]]
  {
    hide Formatted;
    var f := Flags(true, false, false, false, false, small, false);
    var r := Formatted(x, 16, 2, -1, f);
    FieldWidth(x, 16, 2, -1, f);
    assert DigitCount(x, 16) == if x < 16 then 1 else 2;
    assert PowerOf(16, 0) == 1 && PowerOf(16, 1) == 16;
    assert Place(x, 16, 0) == x % 16 && Place(x, 16, 1) == x / 16;
    FieldChars(x, 16, 2, -1, f, 0);
    FieldChars(x, 16, 2, -1, f, 1);
  }
}
