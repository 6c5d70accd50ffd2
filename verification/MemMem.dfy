/**
 memchr, one word at a time (lib/mylibc/string/memchr.c), and memmem (lib/mylibc/string/memmem.c),
 which narrows the haystack with memchr and then runs one of the two Two-Way searches.
 */
module MemMem {
  import opened Common
  import opened Words
  import opened TwoWay

  const WORD := 4
  const LONG_NEEDLE_THRESHOLD := 32

  /** Four bytes as one little-endian word. */
  function Word(b0: byte, b1: byte, b2: byte, b3: byte): bv32 {
    (b0 as bv32) | (b1 as bv32 << 8) | (b2 as bv32 << 16) | (b3 as bv32 << 24)
  }

  function DetectNull(x: bv32): bv32 {
    (x - 0x01010101) & !x & 0x80808080
  }

  function DetectChar(x: bv32, mask: bv32): bv32 {
    DetectNull(x ^ mask)
  }

  /** The word used to look for the byte d: d in all four places. */
  function Mask(d: byte): bv32 {
    var m := (d as bv32 << 8) | d as bv32;
    (m << 16) | m
  }

  /** The byte of x selected by the mask m is zero. */
  predicate ZeroByte(x: bv32, m: bv32) {
    x & m == 0
  }

  /** DETECTNULL is non-zero exactly when one of the four bytes of the word is zero. */
  lemma DetectNullExact(x: bv32)
    ensures DetectNull(x) != 0 <==>
            ZeroByte(x, 0xff) || ZeroByte(x, 0xff00) || ZeroByte(x, 0xff_0000) || ZeroByte(x, 0xff00_0000)
  {
  }

  lemma WordBytes(b0: byte, b1: byte, b2: byte, b3: byte)
    ensures ZeroByte(Word(b0, b1, b2, b3), 0xff) <==> b0 == 0
    ensures ZeroByte(Word(b0, b1, b2, b3), 0xff00) <==> b1 == 0
    ensures ZeroByte(Word(b0, b1, b2, b3), 0xff_0000) <==> b2 == 0
    ensures ZeroByte(Word(b0, b1, b2, b3), 0xff00_0000) <==> b3 == 0
  {
    hide ZeroByte, Word;
    LowBytes(b0, b1, b2, b3);
    HighBytes(b0, b1, b2, b3);
  }

  lemma LowBytes(b0: byte, b1: byte, b2: byte, b3: byte)
    ensures ZeroByte(Word(b0, b1, b2, b3), 0xff) <==> b0 == 0
    ensures ZeroByte(Word(b0, b1, b2, b3), 0xff00) <==> b1 == 0
  {
  }

  lemma HighBytes(b0: byte, b1: byte, b2: byte, b3: byte)
    ensures ZeroByte(Word(b0, b1, b2, b3), 0xff_0000) <==> b2 == 0
    ensures ZeroByte(Word(b0, b1, b2, b3), 0xff00_0000) <==> b3 == 0
  {
  }

  lemma XorByte0(b0: byte, b1: byte, b2: byte, b3: byte, d: byte)
    ensures ZeroByte(Word(b0, b1, b2, b3) ^ Mask(d), 0xff) <==> b0 == d
  {
  }

  lemma XorByte1(b0: byte, b1: byte, b2: byte, b3: byte, d: byte)
    ensures ZeroByte(Word(b0, b1, b2, b3) ^ Mask(d), 0xff00) <==> b1 == d
  {
  }

  lemma XorByte2(b0: byte, b1: byte, b2: byte, b3: byte, d: byte)
    ensures ZeroByte(Word(b0, b1, b2, b3) ^ Mask(d), 0xff_0000) <==> b2 == d
  {
  }

  lemma XorByte3(b0: byte, b1: byte, b2: byte, b3: byte, d: byte)
    ensures ZeroByte(Word(b0, b1, b2, b3) ^ Mask(d), 0xff00_0000) <==> b3 == d
  {
  }

  /** DETECTNULL, read on the bytes in memory. */
  lemma DetectNullBytes(b0: byte, b1: byte, b2: byte, b3: byte)
    ensures DetectNull(Word(b0, b1, b2, b3)) != 0 <==> b0 == 0 || b1 == 0 || b2 == 0 || b3 == 0
  {
    hide DetectNull, Word, ZeroByte;
    DetectNullExact(Word(b0, b1, b2, b3));
    WordBytes(b0, b1, b2, b3);
  }

  /** DETECTCHAR is non-zero exactly when the word holds the byte used to fill the mask. */
  lemma DetectCharBytes(b0: byte, b1: byte, b2: byte, b3: byte, d: byte)
    ensures DetectChar(Word(b0, b1, b2, b3), Mask(d)) != 0 <==> b0 == d || b1 == d || b2 == d || b3 == d
  {
    hide DetectNull, Word, Mask, ZeroByte;
    DetectNullExact(Word(b0, b1, b2, b3) ^ Mask(d));
    XorByte0(b0, b1, b2, b3, d);
    XorByte1(b0, b1, b2, b3, d);
    XorByte2(b0, b1, b2, b3, d);
    XorByte3(b0, b1, b2, b3, d);
  }

  predicate Unaligned(address: nat) {
    address % WORD != 0
  }

  /** r is the offset of the first d in s, or None. */
  ghost predicate IsFirstByte(s: seq<byte>, d: byte, r: Option<int>) {
    match r
    case Some(k) => 0 <= k < |s| && s[k] == d && d !in s[..k]
    case None => d !in s
  }

  /** memchr on the |s| bytes at the given address. */
  method MemChr(s: seq<byte>, address: nat, d: byte) returns (r: Option<int>)
    ensures IsFirstByte(s, d, r)
  {
    var src, n := 0, |s|;
    while Unaligned(address + src)
      invariant 0 <= src && src + n == |s| && 0 <= n && d !in s[..src]
      decreases n
    {
      if n == 0 {
        return None;
      }
      n := n - 1;
      if s[src] == d {
        return Some(src);
      }
      src := src + 1;
    }
    if !(n < WORD) {
      var mask := Mask(d);
      while n >= WORD
        invariant 0 <= src && src + n == |s| && 0 <= n && d !in s[..src]
        decreases n
      {
        DetectCharBytes(s[src], s[src + 1], s[src + 2], s[src + 3], d);
        if DetectChar(Word(s[src], s[src + 1], s[src + 2], s[src + 3]), mask) != 0 {
          break;
        }
        assert s[..src + WORD] == s[..src] + [s[src], s[src + 1], s[src + 2], s[src + 3]];
        n := n - WORD;
        src := src + WORD;
      }
    }
    while n != 0
      invariant 0 <= src && src + n == |s| && 0 <= n && d !in s[..src]
      decreases n
    {
      n := n - 1;
      if s[src] == d {
        return Some(src);
      }
      src := src + 1;
    }
    assert s[..src] == s;
    r := None;
  }

  /** The haystack before the first occurrence of the needle's first byte can be skipped. */
  lemma SkipToFirstByte(h: seq<byte>, n: seq<byte>, k: int, r: Option<int>)
    requires 0 < |n| && 0 <= k <= |h| && n[0] !in h[..k] && IsFirst(h[k..], n, r)
    ensures IsFirst(h, n, if r.Some? then Some(k + r.value) else None)
  {
    forall j | 0 <= j < |h| + 1
      ensures j < k ==> !Occurs(h, n, j)
      ensures j >= k ==> (Occurs(h, n, j) <==> Occurs(h[k..], n, j - k))
    {
      if j < k {
        assert h[j] == h[..k][j] != n[0];
      }
    }
  }

  /** memmem: the offset of the leftmost occurrence of the needle, or None. */
  method MemMem(haystack: seq<byte>, address: nat, needle: seq<byte>) returns (r: Option<int>)
    requires |haystack| < TWO32
    ensures IsFirst(haystack, needle, r)
  {
    if |needle| == 0 {
      return Some(0);
    }
    if |haystack| < |needle| {
      return None;
    }
    if |needle| < LONG_NEEDLE_THRESHOLD {
      var first := MemChr(haystack, address, needle[0]);
      if first.None? {
        assert haystack[..|haystack|] == haystack;
        SkipToFirstByte(haystack, needle, |haystack|, None);
        return None;
      }
      var k := first.value;
      if |needle| == 1 {
        assert Occurs(haystack[k..], needle, 0);
        SkipToFirstByte(haystack, needle, k, Some(0));
        return first;
      }
      var rest := haystack[k..];
      if |rest| < |needle| {
        SkipToFirstByte(haystack, needle, k, None);
        return None;
      }
      ghost var comps;
      r, comps := TwoWayShortNeedle(rest, needle);
      SkipToFirstByte(haystack, needle, k, r);
      return if r.Some? then Some(k + r.value) else None;
    }
    ghost var comps;
    r, comps := TwoWayLongNeedle(haystack, needle);
  }
}
