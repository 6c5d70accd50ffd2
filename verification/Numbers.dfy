/**
 number of lib/mylibc/stdio/simple_printf.c, which formats an integer, and strtoul and strtol of
 lib/mylibc/stdlib, which read it back.
 */
module Numbers {
  import opened Common
  import opened Division
  import opened Printf

  datatype Flags = Flags(zeroPad: bool, sign: bool, plus: bool, space: bool, left: bool, small: bool, special: bool)

  // Formatting.

  /** digits[d] | locase */
  function HexDigit(d: int, small: bool): char
    requires 0 <= d < 16
  {
    if d < 10 then '0' + d as char else (if small then 'a' else 'A') + (d - 10) as char
  }

  /** The digits of n, least significant first, without leading zeros. */
  function DigitsOf(n: int, base: int, small: bool): string
    requires 0 <= n && 2 <= base <= 16
    decreases n
  {
    if n < base then [HexDigit(n, small)] else [HexDigit(n % base, small)] + DigitsOf(n / base, base, small)
  }

  lemma {:induction false} DecimalDigits(n: int, small: bool)
    requires 0 <= n
    ensures Decimal(n) == DigitsOf(n, 10, small)
  {
    if n < 10 {
    } else {
      DecimalDigits(n / 10, small);
    }
  }

  function Repeat(c: char, n: int): string {
    if n <= 0 then "" else Repeat(c, n - 1) + [c]
  }

  function Reversed(s: string): string {
    if s == "" then "" else [s[|s| - 1]] + Reversed(s[..|s| - 1])
  }

  /** The sign character, if any. */
  function SignOf(num: int, f: Flags): string {
    if !f.sign then "" else if num >= TWO63 then "-" else if f.plus then "+" else if f.space then " " else ""
  }

  function Magnitude(num: int, f: Flags): int {
    if f.sign && num >= TWO63 then TWO64 - num else num
  }

  function PrefixOf(base: int, f: Flags): string {
    if !f.special || base == 10 then "" else if base == 16 then (if f.small then "0x" else "0X") else "0"
  }

  function Most(a: int, b: int): int {
    if a < b then b else a
  }

  /** How many characters of padding the field needs. */
  function Padding(num: int, base: int, size: int, precision: int, f: Flags): int
    requires 0 <= num < TWO64 && 2 <= base <= 16
  {
    size - |SignOf(num, f)| - |PrefixOf(base, f)| - Most(|DigitsOf(Magnitude(num, f), base, f.small)|, precision)
  }

  /** Zero padding, zeros for the precision, digits, and blanks. */
  function Body(zeroPad: int, zeros: int, digits: string, blanks: int): string {
    Repeat('0', zeroPad) + Repeat('0', zeros) + Reversed(digits) + Repeat(' ', blanks)
  }

  /** The field: padding, sign, prefix, zeros, digits, padding. */
  function Formatted(num: int, base: int, size: int, precision: int, f: Flags): string
    requires 0 <= num < TWO64 && 2 <= base <= 16
  {
    var digits, pad := DigitsOf(Magnitude(num, f), base, f.small), Padding(num, base, size, precision, f);
    Repeat(' ', if f.zeroPad || f.left then 0 else pad) + SignOf(num, f) + PrefixOf(base, f)
    + Body(if f.zeroPad && !f.left then pad else 0, precision - |digits|, digits, if f.left then pad else 0)
  }

  lemma DigitsStep(n: int, base: int, small: bool)
    requires 0 <= n && 2 <= base <= 16
    ensures 0 <= n % base < base && n == n / base * base + n % base && 0 <= n / base && (0 < n ==> n / base < n)
    ensures DigitsOf(n, base,
            small) == [HexDigit(n % base, small)] + (if n / base == 0 then "" else DigitsOf(n / base, base, small))
  {
    var q, r := n / base, n % base;
    assert n == q * base + r;
    SmallQuotient(n, base, q, r);
  }

  lemma SmallQuotient(n: int, b: int, q: int, r: int)
    requires 0 <= n && 2 <= b && n == q * b + r && 0 <= r < b
    ensures 0 <= q && (n < b ==> q == 0 && r == n) && (b <= n ==> 0 < q) && (0 < n ==> q < n)
  {
    if q <= -1 {
      Times(q, -1, b);
    } else if 1 <= q {
      Times(2, b, q);
    }
  }

  // The reversed digits in tmp.
  method FillDigits(num0: int, base: int, small: bool) returns (tmp: string)
    requires 0 <= num0 < TWO64 && (base == 8 || base == 10 || base == 16)
    ensures tmp == DigitsOf(num0, base, small)
  {
    tmp := "";
    if num0 == 0 {
      tmp := tmp + ['0'];
    } else if base != 10 {
      tmp := ShiftDigits(num0, base, small);
    } else {
      DecimalDigits(num0, small);
      tmp := PutDec("", num0);
    }
  }

  // do { ... } while (num), for base 8 or 16
  method ShiftDigits(num0: int, base: int, small: bool) returns (tmp: string)
    requires 0 <= num0 && (base == 8 || base == 16)
    ensures tmp == DigitsOf(num0, base, small)
  {
    hide DigitsOf, HexDigit;
    tmp := "";
    var num := num0;
    ghost var rest := DigitsOf(num, base, small);
    var more := true;
    while more
      invariant 0 <= num && (more ==> rest == DigitsOf(num, base, small)) && (!more ==> rest == "")
      invariant tmp + rest == DigitsOf(num0, base, small)
      decreases more, num
    {
      var d;
      d, num, rest := LowDigit(num, base, small);
      tmp := tmp + [HexDigit(d, small)];
      more := num != 0;
    }
  }

  /** num & mask, of the low byte, and num >> shift. */
  method LowDigit(num: int, base: int, small: bool) returns (d: int, num': int, ghost rest: string)
    requires 0 <= num && (base == 8 || base == 16)
    ensures 0 <= d < 16 && 0 <= num' && (num' != 0 ==> num' < num)
    ensures rest == (if num' == 0 then "" else DigitsOf(num', base, small))
            && DigitsOf(num, base, small) == [HexDigit(d, small)] + rest
  {
    hide DigitsOf, HexDigit;
    DigitsStep(num, base, small);
    ByteMask(num, base);
    d := num % 256 % base;
    num' := num / base;
    rest := if num' == 0 then "" else DigitsOf(num', base, small);
  }

  lemma ByteMask(n: int, base: int)
    requires 0 <= n && (base == 8 || base == 16)
    ensures n % 256 % base == n % base
  {
    if base == 8 {
      ModEight(n % 256, 32 * (n / 256));
    } else {
      ModSixteen(n % 256, 16 * (n / 256));
    }
  }

  // while (--n >= 0) ADDCH(buf, c)
  method AddMany(buf: string, c: char, n: int) returns (r: string, left: int)
    ensures r == buf + Repeat(c, n) && left == (if n >= 0 then -1 else n - 1)
  {
    r, left := buf, n;
    left := left - 1;
    while left >= 0
      invariant left >= -1 || left == n - 1
      invariant n >= 0 ==> left >= -1 && r == buf + Repeat(c, n - 1 - left)
      invariant n < 0 ==> r == buf && left == n - 1
      decreases left
    {
      r := r + [c];
      left := left - 1;
    }
  }

  /** The sign character, and the number and the field size without it. */
  method TakeSign(num0: int, size0: int, f: Flags) returns (num: int, size: int, sign: string)
    requires 0 <= num0 < TWO64
    ensures num == Magnitude(num0, f) && sign == SignOf(num0, f) && size == size0 - |sign| && 0 <= num < TWO64
  {
    num, size, sign := num0, size0, "";
    if f.sign {
      if num >= TWO63 {
        sign := "-";
        num := TWO64 - num;
        size := size - 1;
      } else if f.plus {
        sign := "+";
        size := size - 1;
      } else if f.space {
        sign := " ";
        size := size - 1;
      }
    }
  }

  // "0x" / "0" prefix
  method AddPrefix(buf: string, base: int, f: Flags) returns (r: string)
    requires base == 8 || base == 10 || base == 16
    ensures r == buf + PrefixOf(base, f)
  {
    r := buf;
    if f.special && base != 10 {
      r := r + ['0'];
      if base == 16 {
        r := r + [if f.small then 'x' else 'X'];
      }
    }
  }

  lemma RepeatNone(c: char, n: int)
    requires n <= 0
    ensures Repeat(c, n) == ""
  {
  }

  // number
  method Number(buf: string, num0: int, base: int, size0: int, precision0: int, f: Flags) returns (r: string)
    requires 0 <= num0 < TWO64 && (base == 8 || base == 10 || base == 16)
    ensures r == buf + Formatted(num0, base, size0, precision0, f)
  {
    hide Repeat, Reversed, DigitsOf, SignOf, Magnitude;
    var precision := precision0;
    var zeroPad := f.zeroPad && !f.left;
    var num, size, sign := TakeSign(num0, size0, f);
    if f.special && base != 10 {
      size := size - 1;
      if base == 16 {
        size := size - 1;
      }
    }
    var tmp := FillDigits(num, base, f.small);
    var i := |tmp|;
    if i > precision {
      precision := i;
    }
    size := size - precision;
    ghost var pad := size;
    assert pad == Padding(num0, base, size0, precision0, f);
    r := Assemble(buf, size, precision - i, sign, tmp, base, zeroPad, f);
    RepeatNone(' ', 0);
    RepeatNone('0', 0);
    if precision0 <= i {
      RepeatNone('0', precision - i);
      RepeatNone('0', precision0 - i);
    }
  }

  /** Paddings, sign, prefix, zeros and digits, in their order. */
  method Assemble(buf: string, size0: int, zeros: int, sign: string, tmp: string, base: int, zeroPad: bool, f: Flags)
    returns (r: string)
    requires (base == 8 || base == 10 || base == 16) && zeroPad == (f.zeroPad && !f.left)
    ensures r == buf + (Repeat(' ', if zeroPad || f.left then 0 else size0) + sign + PrefixOf(base, f)
                        + Body(if zeroPad then size0 else 0, zeros, tmp, if f.left then size0 else 0))
  {
    hide Repeat, Reversed, PrefixOf;
    var size, left := size0, 0;
    r := buf;
    ghost var lead, mid := Repeat(' ', if zeroPad || f.left then 0 else size0),
        Repeat('0', if zeroPad then size0 else 0);
    ghost var trail := Repeat(' ', if f.left then size0 else 0);
    RepeatNone(' ', 0);
    RepeatNone('0', 0);
    if !(zeroPad || f.left) {
      r, size := AddMany(r, ' ', size);
    }
    assert r == buf + lead;
    r := r + sign;
    r := AddPrefix(r, base, f);
    if !f.left {
      if size < 0 {
        RepeatNone(if zeroPad then '0' else ' ', size);
        RepeatNone('0', size);
      }
      r, size := AddMany(r, if zeroPad then '0' else ' ', size);
    }
    assert r == buf + lead + sign + PrefixOf(base, f) + mid;
    r, left := AddMany(r, '0', zeros);
    r := AddDigits(r, tmp);
    if !f.left {
      RepeatNone(' ', size);
    }
    r, size := AddMany(r, ' ', size);
    assert r == buf + lead + sign + PrefixOf(base, f) + mid + Repeat('0', zeros) + Reversed(tmp) + trail;
    assert r == buf + (lead + sign + PrefixOf(base, f) + (mid + Repeat('0', zeros) + Reversed(tmp) + trail));
  }

  // while (--i >= 0) ADDCH(buf, tmp[i])
  method AddDigits(buf: string, tmp: string) returns (r: string)
    ensures r == buf + Reversed(tmp)
  {
    r := buf;
    var i := |tmp| - 1;
    assert tmp[..i + 1] == tmp;
    while i >= 0
      invariant -1 <= i < |tmp| && r + Reversed(tmp[..i + 1]) == buf + Reversed(tmp)
    {
      assert tmp[..i + 1][..i] == tmp[..i];
      r := r + [tmp[i]];
      i := i - 1;
    }
  }

  // Parsing. A string stands for its characters up to the terminating NUL.

  function CharAt(s: string, i: int): char {
    if 0 <= i < |s| then s[i] else '\0'
  }

  predicate IsDigit(c: char) {
    '0' <= c <= '9'
  }

  function ToLower(c: char): char {
    if 'A' <= c <= 'Z' then c - 'A' + 'a' else c
  }

  predicate IsXDigit(c: char) {
    IsDigit(c) || 'a' <= ToLower(c) <= 'f'
  }

  predicate IsDigitOf(c: char, base: int) {
    if base > 10 then IsXDigit(c) else IsDigit(c)
  }

  function DigitValue(c: char): int {
    if IsDigit(c) then (c - '0') as int else ToLower(c) as int - 'a' as int + 10
  }

  /** The value of the leading digits of s, after digits worth acc, modulo 2^32. */
  function Parsed(acc: int, s: string, base: int): int
    decreases |s|
  {
    if s == "" || !IsDigitOf(s[0], base) then acc
    else Parsed((acc * base + DigitValue(s[0])) % TWO32, s[1..], base)
  }

  /** The base, and the place of the first digit. */
  function BaseAndStart(s: string, from: int, base: int): (int, int) {
    if base != 0 then (base, from)
    else if CharAt(s, from) == '0' then
      if ToLower(CharAt(s, from + 1)) == 'x' then (16, from + 2) else (10, from + 1)
    else (10, from)
  }

  function Suffix(s: string, i: int): string {
    if 0 <= i <= |s| then s[i..] else ""
  }

  function StrtoulValue(s: string, base: int): int {
    if base != 0 && base != 10 && base != 16 then 0
    else var (b, i) := BaseAndStart(s, 0, base); Parsed(0, Suffix(s, i), b)
  }

  const DIGITS := "0123456789"
  const HEX_DIGITS := "0123456789abcdefABCDEF"

  function DigitSet(base: int): string {
    if base == 16 then HEX_DIGITS else DIGITS
  }

  lemma DigitIn(c: char, base: int)
    requires base == 10 || base == 16
    ensures IsDigitOf(c, base) <==> c in DigitSet(base)
  {
    var d := DigitSet(base);
    if IsDigitOf(c, base) {
      if IsDigit(c) {
        assert d[c as int - '0' as int] == c;
      } else if c < 'a' {
        assert d[c as int - 'A' as int + 16] == c;
      } else {
        assert d[c as int - 'a' as int + 10] == c;
      }
    }
  }

  /** The digits that begin at start end at a. */
  ghost predicate DigitsEnd(s: string, start: int, base: int, a: int) {
    0 <= start <= a <= |s| && (a < |s| ==> s[a] !in DigitSet(base)) && forall i | start <= i < a ::
          s[i] in DigitSet(base)
  }

  /** The number that the digits of s stand for. */
  function ValueOf(s: string, base: int): int {
    if s == "" then 0 else ValueOf(s[..|s| - 1], base) * base + DigitValue(s[|s| - 1])
  }

  /** The value of a digit is its place in either row of digits. */
  lemma DigitWorth(c: char)
    requires c in HEX_DIGITS
    ensures var v := DigitValue(c); 0 <= v < 16 && ("0123456789abcdef"[v] == c || "0123456789ABCDEF"[v] == c)
  {
    DigitIn(c, 16);
  }

  /** A prefix 0x tells base 16, if the base is to be found out. */
  predicate HexPrefix(s: string, from: int, base: int) {
    base == 0 && 0 <= from && from + 1 < |s| && s[from] == '0' && s[from + 1] in "xX"
  }

  /** What is read from place from on: the digits up to end, modulo 2^32, in base 10 or 16. */
  ghost predicate Reads(s: string, from: int, base: int, n: int, end: int) {
    var start := if HexPrefix(s, from, base) then from + 2 else from;
    var radix := if HexPrefix(s, from, base) || base == 16 then 16 else 10;
    DigitsEnd(s, start, radix, end) && n == ValueOf(s[start..end], radix) % TWO32
  }

  // The loops of strtoul and strtol: for (c = *a++; isdigit(c); c = *a++)
  method ParseDigits(s: string, start: int, base: int) returns (n: int, a: int)
    requires 0 <= start <= |s| && (base == 10 || base == 16) && forall i | 0 <= i < |s| :: s[i] != '\0'
    ensures n == Parsed(0, Suffix(s, start), base)
    ensures DigitsEnd(s, start, base, a) && n == ValueOf(s[start..a], base) % TWO32
  {
    hide Parsed, Suffix, IsDigitOf, DigitValue, DigitSet, ValueOf;
    n, a := 0, start;
    var c := CharAt(s, a);
    assert s[start..a] == "";
    NoValue(base);
    ParseStep(s, a, n, base);
    while IsDigitOf(c, base)
      invariant start <= a <= |s| && c == CharAt(s, a)
      invariant Parsed(n, Suffix(s, a), base) == Parsed(0, Suffix(s, start), base)
      invariant n == ValueOf(s[start..a], base) % TWO32 && forall i | start <= i < a :: s[i] in DigitSet(base)
      decreases |s| - a
    {
      ParseStep(s, a, n, base);
      DigitIn(c, base);
      NextDigit(s[start..a], c, base);
      assert s[start..a + 1] == s[start..a] + [c];
      n := NextValue(n, c, base);
      a := a + 1;
      c := CharAt(s, a);
    }
    ParseStep(s, a, n, base);
    DigitIn(c, base);
  }

  lemma NoValue(base: int)
    ensures ValueOf("", base) == 0
  {
  }

  /** Truncating after every digit is truncating once. */
  lemma NextDigit(s: string, c: char, base: int)
    ensures ValueOf(s + [c], base) % TWO32 == (ValueOf(s, base) % TWO32 * base + DigitValue(c)) % TWO32
  {
    hide DigitValue;
    assert (s + [c])[..|s|] == s;
    var v := ValueOf(s, base);
    var q, r := v / TWO32, v % TWO32;
    assert v == TWO32 * q + r;
    assert v * base == TWO32 * (q * base) + r * base;
    Modulo(r * base + DigitValue(c), q * base);
  }

  lemma ParseStep(s: string, a: int, n: int, base: int)
    requires 0 <= a && (base == 10 || base == 16) && forall i | 0 <= i < |s| :: s[i] != '\0'
    ensures var c := CharAt(s, a);
            if IsDigitOf(c, base) then a < |s|
                && Parsed(n, Suffix(s, a), base) == Parsed((n * base + DigitValue(c)) % TWO32, Suffix(s, a + 1), base)
            else Parsed(n, Suffix(s, a), base) == n && (a < |s| ==> s[a] == c)
  {
    hide Parsed;
    var c := CharAt(s, a);
    if IsDigitOf(c, base) {
      assert Suffix(s, a) == [c] + Suffix(s, a + 1);
      OneMore(n, c, Suffix(s, a + 1), base);
    } else {
      ParsedEnd(n, Suffix(s, a), base);
    }
  }

  /** n *= base; n += the digit */
  method NextValue(n0: int, c: char, base: int) returns (n: int)
    ensures n == (n0 * base + DigitValue(c)) % TWO32
  {
    Carry(n0 * base, DigitValue(c));
    n := n0 * base % TWO32;
    if IsDigit(c) {
      n := (n + (c - '0') as int) % TWO32;
    } else {
      n := (n + (ToLower(c) as int - 'a' as int + 10)) % TWO32;
    }
  }

  lemma ParsedEnd(acc: int, s: string, base: int)
    ensures s == "" || !IsDigitOf(s[0], base) ==> Parsed(acc, s, base) == acc
  {
  }

  method Strtoul(s: string, base0: int) returns (n: int, end: int)
    requires forall i | 0 <= i < |s| :: s[i] != '\0'
    ensures n == StrtoulValue(s, base0)
    ensures if base0 == 0 || base0 == 10 || base0 == 16 then Reads(s, 0, base0, n, end) else n == 0
  {
    hide Parsed, DigitSet;
    var base, a := base0, 0;
    if base != 0 && base != 10 && base != 16 {
      return 0, 0;
    }
    if base == 0 {
      if CharAt(s, a) == '0' {
        if ToLower(CharAt(s, a + 1)) == 'x' {
          a := a + 2;
          base := 16;
        } else {
          a := a + 1;
          base := 10;
        }
      } else {
        base := 10;
      }
    }
    n, end := ParseDigits(s, a, base);
    AfterZero(s, 0, base0, n, end);
  }

  /** A leading 0 that the base is not told by makes no difference. */
  lemma AfterZero(s: string, from: int, base: int, n: int, end: int)
    requires (base == 0 || base == 10 || base == 16) && 0 <= from <= |s| && forall i | 0 <= i < |s| :: s[i] != '\0'
    requires var (b, i) := BaseAndStart(s, from, base); DigitsEnd(s, i, b, end) && n == ValueOf(s[i..end], b) % TWO32
    ensures Reads(s, from, base, n, end)
  {
    hide ValueOf;
    var (b, i) := BaseAndStart(s, from, base);
    if b == 10 && i == from + 1 {
      assert s[from..end] == ['0'] + s[i..end];
      ZeroFirst(s[i..end], 10);
    }
  }

  lemma {:induction false} ZeroFirst(s: string, base: int)
    ensures ValueOf(['0'] + s, base) == ValueOf(s, base)
    decreases |s|
  {
    if s == "" {
      assert (['0'] + s)[..0] == "";
    } else {
      assert (['0'] + s)[..|s|] == ['0'] + s[..|s| - 1];
      ZeroFirst(s[..|s| - 1], base);
    }
  }

  /** A 32-bit word as a signed number. */
  function Signed(x: int): int {
    if x % TWO32 < TWO32 / 2 then x % TWO32 else x % TWO32 - TWO32
  }

  function StrtolValue(s: string, base: int): int {
    if base != 0 && base != 10 && base != 16 then 0
    else
      var from := if CharAt(s, 0) == '-' || CharAt(s, 0) == '+' then 1 else 0;
      var (b, i) := BaseAndStart(s, from, base);
      var n := Parsed(0, Suffix(s, i), b);
      Signed(if CharAt(s, 0) == '-' then -n else n)
  }

  method Strtol(s: string, base0: int) returns (n: int, end: int)
    requires forall i | 0 <= i < |s| :: s[i] != '\0'
    ensures n == StrtolValue(s, base0)
    ensures -(TWO32 / 2) <= n < TWO32 / 2
    ensures if base0 == 0 || base0 == 10 || base0 == 16 then
              var minus, from := s != "" && s[0] == '-', if s != "" && (s[0] == '-' || s[0] == '+') then 1 else 0;
              Reads(s, from, base0, (if minus then -n else n) % TWO32, end)
            else n == 0
  {
    hide Parsed, DigitSet, DigitsEnd, ValueOf;
    var base, a, sign := base0, 0, 1;
    if base != 0 && base != 10 && base != 16 {
      return 0, 0;
    }
    if CharAt(s, a) == '-' {
      sign := -1;
      a := a + 1;
    } else if CharAt(s, a) == '+' {
      a := a + 1;
    }
    ghost var from := a;
    if base == 0 {
      if CharAt(s, a) == '0' {
        if ToLower(CharAt(s, a + 1)) == 'x' {
          a := a + 2;
          base := 16;
        } else {
          a := a + 1;
          base := 10;
        }
      } else {
        base := 10;
      }
    }
    n, end := ParseDigits(s, a, base);
    AfterZero(s, from, base0, n, end);
    SignedBack(n, sign);
    n := Signed(n * sign);
  }

  /** The signed number is the same modulo 2^32. */
  lemma SignedBack(n: int, sign: int)
    requires (sign == 1 || sign == -1) && 0 <= n < TWO32
    ensures var r := Signed(n * sign); -(TWO32 / 2) <= r < TWO32 / 2 && r * sign % TWO32 == n
  {
    var x := n * sign;
    var q := x / TWO32;
    assert x == TWO32 * q + x % TWO32;
    if sign == 1 {
    } else {
      assert x == -n;
      Modulo(n, if n == 0 then 0 else 1);
    }
  }

  // Printing and reading back.

  lemma DigitBack(d: int, base: int, small: bool)
    requires 0 <= d < base && (base == 10 || base == 16)
    ensures IsDigitOf(HexDigit(d, small), base) && DigitValue(HexDigit(d, small)) == d
  {
  }

  lemma ReversedCons(c: char, s: string)
    ensures Reversed([c] + s) == Reversed(s) + [c]
    decreases |s|
  {
    if s == "" {
    } else {
      assert ([c] + s)[..|s|] == [c] + s[..|s| - 1];
      ReversedCons(c, s[..|s| - 1]);
    }
  }

  /** Reading the digits of n gives n, whatever follows. */
  lemma {:induction false} DigitsBack(n: int, base: int, small: bool, rest: string)
    requires 0 <= n < TWO32 && (base == 10 || base == 16)
    ensures Parsed(0, Reversed(DigitsOf(n, base, small)) + rest, base) == Parsed(n, rest, base)
    decreases n
  {
    hide DigitsOf, Parsed, HexDigit, DigitValue, Reversed;
    DigitsStep(n, base, small);
    var q, r := n / base, n % base;
    var c := HexDigit(r, small);
    DigitBack(r, base, small);
    OneMore(q, c, rest, base);
    var high := if q == 0 then "" else DigitsOf(q, base, small);
    ReversedCons(c, high);
    assert Reversed(high) + [c] + rest == Reversed(high) + ([c] + rest);
    if q == 0 {
      ReversedNone();
      assert "" + ([c] + rest) == [c] + rest;
    } else {
      DigitsBack(q, base, small, [c] + rest);
    }
    assert q * base + r == n && n % TWO32 == n;
  }

  lemma ReversedNone()
    ensures Reversed("") == ""
  {
  }

  lemma OneMore(acc: int, c: char, rest: string, base: int)
    requires IsDigitOf(c, base)
    ensures Parsed(acc, [c] + rest, base) == Parsed((acc * base + DigitValue(c)) % TWO32, rest, base)
  {
    assert ([c] + rest)[1..] == rest;
  }

  /** Leading zeros count for nothing. */
  lemma {:induction false} ZerosBack(k: int, rest: string, base: int)
    requires base == 10 || base == 16
    ensures Parsed(0, Repeat('0', k) + rest, base) == Parsed(0, rest, base)
    decreases k
  {
    if 0 < k {
      assert Repeat('0', k) + rest == Repeat('0', k - 1) + (['0'] + rest);
      ZerosBack(k - 1, ['0'] + rest, base);
      OneMore(0, '0', rest, base);
    } else {
      assert Repeat('0', k) + rest == rest;
    }
  }

  /** Zeros, digits and trailing blanks read back as the number. */
  lemma BodyBack(n: int, base: int, small: bool, k: int, j: int, t: int)
    requires 0 <= n < TWO32 && (base == 10 || base == 16)
    ensures Parsed(0, Body(k, j, DigitsOf(n, base, small), t), base) == n
  {
    var d, b := Reversed(DigitsOf(n, base, small)), Repeat(' ', t);
    assert Repeat('0', k) + Repeat('0', j) + d + b == Repeat('0', k) + (Repeat('0', j) + (d + b));
    ZerosBack(k, Repeat('0', j) + (d + b), base);
    ZerosBack(j, d + b, base);
    DigitsBack(n, base, small, b);
    BlanksEnd(n, t, base);
  }

  lemma BlanksEnd(n: int, t: int, base: int)
    ensures Parsed(n, Repeat(' ', t), base) == n
  {
    if 0 < t {
      BlankFirst(t);
    }
  }

  lemma {:induction false} BlankFirst(t: int)
    requires 0 < t
    ensures Repeat(' ', t)[0] == ' '
    decreases t
  {
    if t <= 1 {
    } else {
      BlankFirst(t - 1);
    }
  }

  /** The field does not begin with blanks for padding. */
  predicate NoLeadingBlanks(num: int, base: int, size: int, precision: int, f: Flags)
    requires 0 <= num < TWO64 && 2 <= base <= 16
  {
    f.zeroPad || f.left || Padding(num, base, size, precision, f) <= 0
  }

  /** What follows the sign and the prefix. */
  function BodyOf(num: int, base: int, size: int, precision: int, f: Flags): string
    requires 0 <= num < TWO64 && 2 <= base <= 16
  {
    var d, pad := DigitsOf(Magnitude(num, f), base, f.small), Padding(num, base, size, precision, f);
    Body(if f.zeroPad && !f.left then pad else 0, precision - |d|, d, if f.left then pad else 0)
  }

  lemma FieldStarts(num: int, base: int, size: int, precision: int, f: Flags)
    requires 0 <= num < TWO64 && 2 <= base <= 16
    ensures var s := Formatted(num, base, size, precision, f);
            if NoLeadingBlanks(num, base, size, precision, f)
            then s == SignOf(num, f) + PrefixOf(base, f) + BodyOf(num, base, size, precision, f)
            else s != "" && s[0] == ' '
  {
    var pad := Padding(num, base, size, precision, f);
    hide DigitsOf, Padding, Body, SignOf, PrefixOf, Magnitude;
    if NoLeadingBlanks(num, base, size, precision, f) {
      RepeatNone(' ', if f.zeroPad || f.left then 0 else pad);
    } else {
      BlankFirst(pad);
    }
  }

  lemma BodyOfBack(num: int, base: int, size: int, precision: int, f: Flags)
    requires 0 <= num < TWO64 && (base == 10 || base == 16) && Magnitude(num, f) < TWO32
    ensures Parsed(0, BodyOf(num, base, size, precision, f), base) == Magnitude(num, f)
  {
    var n, pad := Magnitude(num, f), Padding(num, base, size, precision, f);
    var d := DigitsOf(n, base, f.small);
    hide DigitsOf, Padding, Body, Parsed;
    BodyBack(n, base, f.small, if f.zeroPad && !f.left then pad else 0, precision - |d|, if f.left then pad else 0);
  }

  lemma BlankIsZero(s: string, base: int)
    requires s != "" && s[0] == ' '
    ensures StrtoulValue(s, base) == 0 && StrtolValue(s, base) == 0
  {
  }

  lemma SignIsZero(s: string, base: int)
    requires s != "" && (s[0] == '-' || s[0] == '+')
    ensures StrtoulValue(s, base) == 0
  {
  }

  /** The base to read with is the one that was printed, or 0 where the number itself tells the base. */
  predicate Suits(radix: int, base: int, f: Flags) {
    (base == 10 || base == 16) && (radix == base || (radix == 0 && (base == 10 || f.special)))
  }

  /** Reading with base 16 does not skip the prefix that was printed: it stops behind the 0. */
  predicate StopsAtPrefix(radix: int, base: int, f: Flags) {
    radix == 16 && base == 16 && f.special
  }

  /** For every 32-bit value and every flag, strtoul reads back what number prints, unless the field begins with a
      blank or a sign, or with a prefix that the base does not allow for. Then it reads 0. */
  lemma UnsignedRoundTrip(num: int, base: int, radix: int, size: int, precision: int, f: Flags)
    requires 0 <= num < TWO64 && Magnitude(num, f) < TWO32 && Suits(radix, base, f)
    ensures StrtoulValue(Formatted(num, base, size, precision, f), radix)
            == if NoLeadingBlanks(num, base, size, precision, f) && SignOf(num, f) == ""
                && !StopsAtPrefix(radix, base, f)
               then num else 0
  {
    var s, sign, body := Formatted(num, base, size, precision, f), SignOf(num, f),
        BodyOf(num, base, size, precision, f);
    FieldStarts(num, base, size, precision, f);
    hide Formatted, NoLeadingBlanks, BodyOf, Parsed, StrtoulValue, PrefixOf, IsDigitOf, Suffix, BaseAndStart;
    if !NoLeadingBlanks(num, base, size, precision, f) || sign == " " {
      BlankIsZero(s, radix);
    } else if sign != "" {
      SignIsZero(s, radix);
    } else {
      BodyOfBack(num, base, size, precision, f);
      BodyOfStart(num, base, size, precision, f);
      assert s[0..] == PrefixOf(base, f) + body;
      ReadFrom(s, 0, body, base, radix, f);
      StrtoulIs(s, radix);
    }
  }

  lemma StrtoulIs(s: string, radix: int)
    requires radix == 0 || radix == 10 || radix == 16
    ensures StrtoulValue(s, radix) == var (b, i) := BaseAndStart(s, 0, radix); Parsed(0, Suffix(s, i), b)
  {
  }

  /** The same for strtol, which does take a sign, and takes the value as a signed 32-bit number. */
  lemma StrtolRoundTrip(num: int, base: int, radix: int, size: int, precision: int, f: Flags)
    requires 0 <= num < TWO64 && Magnitude(num, f) < TWO32 && Suits(radix, base, f)
    ensures StrtolValue(Formatted(num, base, size, precision, f), radix)
            == if NoLeadingBlanks(num, base, size, precision, f) && SignOf(num, f) != " "
                && !StopsAtPrefix(radix, base, f)
               then Signed(if SignOf(num, f) == "-" then -Magnitude(num, f) else Magnitude(num, f)) else 0
  {
    var s, sign := Formatted(num, base, size, precision, f), SignOf(num, f);
    hide Formatted, NoLeadingBlanks, BodyOf, StrtolValue, PrefixOf, Magnitude, Signed, StopsAtPrefix;
    FieldStarts(num, base, size, precision, f);
    if !NoLeadingBlanks(num, base, size, precision, f) || sign == " " {
      BlankIsZero(s, radix);
    } else {
      StrtolReads(num, base, radix, size, precision, f);
    }
  }

  lemma StrtolReads(num: int, base: int, radix: int, size: int, precision: int, f: Flags)
    requires 0 <= num < TWO64 && Magnitude(num, f) < TWO32 && Suits(radix, base, f)
    requires NoLeadingBlanks(num, base, size, precision, f) && SignOf(num, f) != " "
    ensures StrtolValue(Formatted(num, base, size, precision, f), radix)
            == if StopsAtPrefix(radix, base, f) then 0
               else Signed(if SignOf(num, f) == "-" then -Magnitude(num, f) else Magnitude(num, f))
  {
    var s, sign, body := Formatted(num, base, size, precision, f), SignOf(num, f),
        BodyOf(num, base, size, precision, f);
    FieldStarts(num, base, size, precision, f);
    SignKind(num, f);
    hide Formatted, NoLeadingBlanks, BodyOf, Parsed, StrtolValue, PrefixOf, Magnitude, IsDigitOf, Suffix, BaseAndStart,
      SignOf, StopsAtPrefix;
    BodyOfBack(num, base, size, precision, f);
    BodyOfStart(num, base, size, precision, f);
    assert s[|sign|..] == PrefixOf(base, f) + body;
    ReadFrom(s, |sign|, body, base, radix, f);
    StrtolIs(s, sign, PrefixOf(base, f), body, base, radix, f);
  }

  lemma SignKind(num: int, f: Flags)
    ensures var sign := SignOf(num, f); sign == "" || sign == "-" || sign == "+" || sign == " "
  {
  }

  lemma StrtolIs(s: string, sign: string, prefix: string, body: string, base: int, radix: int, f: Flags)
    requires s == sign + prefix + body && (sign == "" || sign == "-" || sign == "+") && Suits(radix, base, f)
    requires body != "" && IsDigitOf(body[0], base) && (prefix == "" || prefix[0] == '0')
    ensures StrtolValue(s, radix)
            == var (b, i) := BaseAndStart(s, |sign|, radix); var n := Parsed(0, Suffix(s, i), b);
                  Signed(if sign == "-" then -n else n)
  {
    hide Parsed, Suffix;
    if sign == "" {
      assert s[0] == (prefix + body)[0];
    } else {
      assert s[0] == sign[0];
    }
  }

  /** What is read behind the sign. */
  lemma ReadFrom(s: string, from: int, body: string, base: int, radix: int, f: Flags)
    requires 0 <= from <= |s| && s[from..] == PrefixOf(base, f) + body && Suits(radix, base, f)
    requires body != "" && IsDigitOf(body[0], base)
             && (base == 10 ==> forall i | 0 <= i < |body| :: IsDigit(body[i]) || body[i] == ' ')
    ensures var (b, i) := BaseAndStart(s, from, radix);
            Parsed(0, Suffix(s, i), b) == if StopsAtPrefix(radix, base, f) then 0 else Parsed(0, body, base)
    ensures PrefixOf(base, f) == "" || PrefixOf(base, f)[0] == '0'
  {
    hide Parsed, IsXDigit;
    var p, t := PrefixOf(base, f), s[from..];
    if p != "" {
      assert s[from] == t[0] == '0' && s[from + 1] == t[1] && ToLower(t[1]) == 'x';
      assert Suffix(s, from + 2) == body;
      Unreadable(t);
    } else {
      assert t == body && s[from] == body[0];
      if radix == 0 && body[0] == '0' {
        assert |body| == 1 || s[from + 1] == body[1];
        assert Suffix(s, from + 1) == body[1..];
        LeadingZero(body);
      }
    }
  }

  lemma LeadingZero(t: string)
    requires t != "" && t[0] == '0'
    ensures Parsed(0, t, 10) == Parsed(0, t[1..], 10)
  {
  }

  lemma Unreadable(t: string)
    requires 2 <= |t| && t[0] == '0' && ToLower(t[1]) == 'x'
    ensures Parsed(0, t, 16) == 0
  {
    assert t[1..][0] == t[1];
    assert Parsed(0, t[1..], 16) == 0;
  }

  /** The 64-bit value that a signed 32-bit argument is passed as. */
  function Extended(v: int): int {
    if v < 0 then v + TWO64 else v
  }

  /** Signed values, in decimal or hexadecimal: strtol reads the value back under the same condition. */
  lemma SignedRoundTrip(v: int, base: int, radix: int, size: int, precision: int, f: Flags)
    requires -(TWO32 / 2) <= v < TWO32 / 2 && f.sign && Suits(radix, base, f)
    ensures var num := Extended(v);
            StrtolValue(Formatted(num, base, size, precision, f), radix)
            == if NoLeadingBlanks(num, base, size, precision, f) && SignOf(num, f) != " "
                && !StopsAtPrefix(radix, base, f) then v else 0
  {
    hide Formatted, NoLeadingBlanks, StrtolValue, StopsAtPrefix;
    StrtolRoundTrip(Extended(v), base, radix, size, precision, f);
  }

  /** The rest of the field begins with a digit; in decimal it has nothing but digits and blanks. */
  lemma BodyOfStart(num: int, base: int, size: int, precision: int, f: Flags)
    requires 0 <= num < TWO64 && (base == 10 || base == 16)
    ensures var body := BodyOf(num, base, size, precision, f);
            body != "" && IsDigitOf(body[0], base)
                && (base == 10 ==> forall i | 0 <= i < |body| :: IsDigit(body[i]) || body[i] == ' ')
  {
    var n, pad := Magnitude(num, f), Padding(num, base, size, precision, f);
    var d := DigitsOf(n, base, f.small);
    hide DigitsOf, Padding, Body;
    BodyStart(n, base, f.small, if f.zeroPad && !f.left then pad else 0, precision - |d|, if f.left then pad else 0);
  }

  lemma BodyStart(n: int, base: int, small: bool, k: int, j: int, t: int)
    requires 0 <= n && (base == 10 || base == 16)
    ensures var body := Body(k, j, DigitsOf(n, base, small), t);
            body != "" && IsDigitOf(body[0], base)
                && (base == 10 ==> forall i | 0 <= i < |body| :: IsDigit(body[i]) || body[i] == ' ')
  {
    var d := Reversed(DigitsOf(n, base, small));
    AllDigits(n, base, small);
    RepeatIs('0', k);
    RepeatIs('0', j);
    RepeatIs(' ', t);
    hide Repeat, DigitsOf, Reversed, IsXDigit;
    assert IsDigitOf('0', base) by {
      DigitBack(0, base, small);
    }
    var z := Repeat('0', k) + Repeat('0', j);
    assert forall i | 0 <= i < |z| :: z[i] == '0';
    assert forall i | 0 <= i < |z + d| :: IsDigitOf((z + d)[i], base);
  }

  lemma {:induction false} RepeatIs(c: char, n: int)
    ensures |Repeat(c, n)| == Most(n, 0) && forall i | 0 <= i < |Repeat(c, n)| :: Repeat(c, n)[i] == c
    decreases n
  {
    if n <= 0 {
    } else {
      RepeatIs(c, n - 1);
    }
  }

  lemma {:induction false} AllDigits(n: int, base: int, small: bool)
    requires 0 <= n && (base == 10 || base == 16)
    ensures var d := Reversed(DigitsOf(n, base, small)); d != "" && forall i | 0 <= i < |d| :: IsDigitOf(d[i], base)
    decreases n
  {
    hide IsDigitOf, HexDigit;
    DigitsStep(n, base, small);
    var c := HexDigit(n % base, small);
    DigitBack(n % base, base, small);
    if n < base {
      assert Reversed([c]) == [c];
    } else {
      AllDigits(n / base, base, small);
      ReversedCons(c, DigitsOf(n / base, base, small));
    }
  }
}
