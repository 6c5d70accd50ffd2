/**
 strlen, strchr, strncmp, strncpy and memcpy of lib/mylibc/string, which work on aligned words of four bytes.
 A memory is a sequence of bytes whose first one has an aligned address and which ends with a whole word.
 */
module StringWords {
  import opened Common
  import opened Words
  import opened MemMem

  /** The string at p ends at e. */
  ghost predicate EndsAt(m: seq<byte>, p: int, e: int) {
    0 <= p <= e < |m| && |m| % WORD == 0 && m[e] == 0 && forall j | p <= j < e :: m[j] != 0
  }

  function WordAt(m: seq<byte>, a: int): bv32
    requires 0 <= a && a + WORD <= |m|
  {
    Word(m[a], m[a + 1], m[a + 2], m[a + 3])
  }

  /** DETECTNULL(*a) on memory. */
  lemma NullAt(m: seq<byte>, a: int)
    requires 0 <= a && a + WORD <= |m|
    ensures DetectNull(WordAt(m, a)) != 0 <==> exists j :: a <= j < a + WORD && m[j] == 0
  {
    hide DetectNull, Word;
    DetectNullBytes(m[a], m[a + 1], m[a + 2], m[a + 3]);
    assert forall j | a <= j < a + WORD :: m[j] == m[a] || m[j] == m[a + 1] || m[j] == m[a + 2] || m[j] == m[a + 3];
  }

  lemma CharAt(m: seq<byte>, a: int, c: byte)
    requires 0 <= a && a + WORD <= |m|
    ensures DetectChar(WordAt(m, a), Mask(c)) != 0 <==> exists j :: a <= j < a + WORD && m[j] == c
  {
    hide DetectChar, Word, Mask;
    DetectCharBytes(m[a], m[a + 1], m[a + 2], m[a + 3], c);
    assert forall j | a <= j < a + WORD :: m[j] == m[a] || m[j] == m[a + 1] || m[j] == m[a + 2] || m[j] == m[a + 3];
  }

  // strlen
  method Strlen(m: seq<byte>, p: nat, ghost e: int) returns (n: int)
    requires EndsAt(m, p, e)
    ensures n == e - p
  {
    hide DetectNull, WordAt;
    var s: int := p;
    while s % WORD != 0
      invariant p <= s <= e
      decreases e - s
    {
      if m[s] == 0 {
        return s - p;
      }
      s := s + 1;
    }
    NullAt(m, s);
    while DetectNull(WordAt(m, s)) == 0
      invariant p <= s <= e && s % WORD == 0 && s + WORD <= |m|
      invariant DetectNull(WordAt(m, s)) != 0 <==> exists j :: s <= j < s + WORD && m[j] == 0
      decreases e - s
    {
      s := s + WORD;
      NullAt(m, s);
    }
    while m[s] != 0
      invariant p <= s <= e
      decreases e - s
    {
      s := s + 1;
    }
    n := s - p;
  }

  /** r is the place of the first c in the string, whose end counts as a byte of it. */
  ghost predicate FirstChar(m: seq<byte>, p: int, e: int, c: byte, r: Option<int>)
    requires EndsAt(m, p, e)
  {
    match r
    case Some(k) => p <= k <= e && m[k] == c && forall j | p <= j < k :: m[j] != c
    case None => forall j | p <= j <= e :: m[j] != c
  }

  // strchr
  method Strchr(m: seq<byte>, p: nat, c: byte, ghost e: int) returns (r: Option<int>)
    requires EndsAt(m, p, e)
    ensures FirstChar(m, p, e, c, r)
  {
    var s: int := p;
    if c == 0 {
      var n := Strlen(m, p, e);
      return Some(p + n);
    }
    while s % WORD != 0
      invariant p <= s <= e && forall j | p <= j < s :: m[j] != c
      decreases e - s
    {
      if m[s] == 0 {
        return None;
      }
      if m[s] == c {
        return Some(s);
      }
      s := s + 1;
    }
    s := PassWords(m, p, s, c, e);
    while m[s] != 0 && m[s] != c
      invariant p <= s <= e && forall j | p <= j < s :: m[j] != c
      decreases e - s
    {
      s := s + 1;
    }
    r := if m[s] == c then Some(s) else None;
  }

  // while (!DETECTNULL(*aligned_addr) && !DETECTCHAR(*aligned_addr, mask)) aligned_addr++
  method PassWords(m: seq<byte>, ghost p: nat, s0: int, c: byte, ghost e: int) returns (s: int)
    requires EndsAt(m, p, e) && p <= s0 <= e && s0 % WORD == 0 && forall j | p <= j < s0 :: m[j] != c
    ensures p <= s <= e && forall j | p <= j < s :: m[j] != c
  {
    hide DetectNull, DetectChar, WordAt, Mask;
    s := s0;
    var mask := Mask(c);
    InWord(m, p, e, s);
    NullAt(m, s);
    CharAt(m, s, c);
    while DetectNull(WordAt(m, s)) == 0 && DetectChar(WordAt(m, s), mask) == 0
      invariant p <= s <= e && s % WORD == 0 && s + WORD <= |m| && forall j | p <= j < s :: m[j] != c
      invariant DetectNull(WordAt(m, s)) != 0 <==> exists j :: s <= j < s + WORD && m[j] == 0
      invariant DetectChar(WordAt(m, s), mask) != 0 <==> exists j :: s <= j < s + WORD && m[j] == c
      decreases e - s
    {
      s := s + WORD;
      InWord(m, p, e, s);
      NullAt(m, s);
      CharAt(m, s, c);
    }
  }

  /** Below the end of the string there is room for the aligned word. */
  lemma InWord(m: seq<byte>, p: int, e: int, s: int)
    requires EndsAt(m, p, e) && 0 <= s <= e && s % WORD == 0
    ensures s + WORD <= |m| && (s + WORD) % WORD == 0
  {
  }

  // strncmp

  /** The comparison byte by byte: at most n bytes, up to the first difference or the end of the string. */
  function Compared(a: seq<byte>, p: int, b: seq<byte>, q: int, n: nat): int
    requires 0 <= p && 0 <= q
    decreases n
  {
    if n == 0 || p >= |a| || q >= |b| then 0
    else if a[p] != b[q] then a[p] as int - b[q] as int
    else if a[p] == 0 then 0
    else Compared(a, p + 1, b, q + 1, n - 1)
  }

  /** The first k bytes are the same, and none of them is the end. */
  ghost predicate Agree(a: seq<byte>, p: int, b: seq<byte>, q: int, k: nat) {
    0 <= p && p + k <= |a| && 0 <= q && q + k <= |b| && a[p..p + k] == b[q..q + k] && 0 !in a[p..p + k]
  }

  /** The first bytes that differ decide, as unsigned numbers; without any, the strings are equal. */
  lemma {:induction false} FirstDifference(a: seq<byte>, p: nat, b: seq<byte>, q: nat, n: nat, k: nat)
    requires k <= n && Agree(a, p, b, q, k)
    ensures k < n && p + k < |a| && q + k < |b| && (a[p + k] != b[q + k] || a[p + k] == 0) ==>
              Compared(a, p, b, q, n) == a[p + k] as int - b[q + k] as int
    ensures k == n ==> Compared(a, p, b, q, n) == 0
    decreases k
  {
    if k == 0 {
    } else {
      var s, t := a[p..p + k], b[q..q + k];
      assert a[p] == s[0] == t[0] == b[q];
      assert a[p + 1..p + k] == s[1..] && b[q + 1..q + k] == t[1..];
      FirstDifference(a, p + 1, b, q + 1, n - 1, k - 1);
    }
  }

  /** n bytes can be read from p, or the string ends before that. */
  ghost predicate Readable(m: seq<byte>, p: int, n: int) {
    0 <= p && 0 <= n && |m| % WORD == 0 && (p + n <= |m| || exists e :: EndsAt(m, p, e))
  }

  lemma ReadableStep(m: seq<byte>, p: int, n: int)
    requires Readable(m, p, n) && 0 < n
    ensures p < |m| && (m[p] != 0 ==> Readable(m, p + 1, n - 1))
    ensures p % WORD == 0 ==> p + WORD <= |m|
  {
    if p + n > |m| {
      var e :| EndsAt(m, p, e);
      assert m[p] != 0 ==> EndsAt(m, p + 1, e);
    }
    if p % WORD == 0 {
      assert p < |m|;
    }
  }

  lemma WordEqual(a0: byte, a1: byte, a2: byte, a3: byte, b0: byte, b1: byte, b2: byte, b3: byte)
    ensures Word(a0, a1, a2, a3) == Word(b0, b1, b2, b3) <==> a0 == b0 && a1 == b1 && a2 == b2 && a3 == b3
  {
  }

  method Strncmp(a: seq<byte>, p: nat, b: seq<byte>, q: nat, n0: nat) returns (r: int)
    requires Readable(a, p, n0) && Readable(b, q, n0)
    ensures r == Compared(a, p, b, q, n0)
  {
    hide DetectNull, Word, Readable;
    var n: int := n0;
    if n == 0 {
      return 0;
    }
    var s1: int, s2: int := p, q;
    if s1 % WORD == 0 && s2 % WORD == 0 {
      ReadableStep(a, s1, n);
      ReadableStep(b, s2, n);
      while n >= WORD && WordAt(a, s1) == WordAt(b, s2)
        invariant 0 < n <= n0 && 0 <= s1 && 0 <= s2 && s1 % WORD == 0 && s2 % WORD == 0
        invariant Readable(a, s1, n) && Readable(b, s2, n) && s1 + WORD <= |a| && s2 + WORD <= |b|
        invariant Compared(a, s1, b, s2, n) == Compared(a, p, b, q, n0)
        decreases n
      {
        SameWord(a, s1, b, s2, n);
        NullAt(a, s1);
        n := n - WORD;
        if n == 0 || DetectNull(WordAt(a, s1)) != 0 {
          return 0;
        }
        ReadableWord(a, s1, n + WORD);
        ReadableWord(b, s2, n + WORD);
        s1, s2 := s1 + WORD, s2 + WORD;
        ReadableStep(a, s1, n);
        ReadableStep(b, s2, n);
      }
    }
    ReadableStep(a, s1, n);
    ReadableStep(b, s2, n);
    while n > 0 && a[s1] == b[s2]
      invariant 0 < n <= n0 && 0 <= s1 < |a| && 0 <= s2 < |b|
      invariant Readable(a, s1, n) && Readable(b, s2, n)
      invariant Compared(a, s1, b, s2, n) == Compared(a, p, b, q, n0)
      decreases n
    {
      n := n - 1;
      if n == 0 || a[s1] == 0 {
        return 0;
      }
      ReadableStep(a, s1, n + 1);
      ReadableStep(b, s2, n + 1);
      s1, s2 := s1 + 1, s2 + 1;
      ReadableStep(a, s1, n);
      ReadableStep(b, s2, n);
    }
    r := a[s1] as int - b[s2] as int;
  }

  /** The words at p and q are equal: the comparison is settled, or goes on behind them. */
  lemma SameWord(a: seq<byte>, p: int, b: seq<byte>, q: int, n: nat)
    requires 0 <= p && 0 <= q && WORD <= n && p + WORD <= |a| && q + WORD <= |b| && WordAt(a, p) == WordAt(b, q)
    ensures (exists j :: p <= j < p + WORD && a[j] == 0) ==> Compared(a, p, b, q, n) == 0
    ensures (forall j | p <= j < p + WORD :: a[j] != 0) ==>
              Compared(a, p, b, q, n) == Compared(a, p + WORD, b, q + WORD, n - WORD)
    ensures (forall j | p <= j < p + WORD :: a[j] != 0) ==> forall j | q <= j < q + WORD :: b[j] != 0
    ensures n == WORD ==> Compared(a, p, b, q, n) == 0
  {
    hide Word;
    WordEqual(a[p], a[p + 1], a[p + 2], a[p + 3], b[q], b[q + 1], b[q + 2], b[q + 3]);
    assert forall j | q <= j < q + WORD :: b[j] == b[q] || b[j] == b[q + 1] || b[j] == b[q + 2] || b[j] == b[q + 3];
    FourSteps(a, p, b, q, n);
  }

  lemma FourSteps(a: seq<byte>, p: int, b: seq<byte>, q: int, n: nat)
    requires 0 <= p && 0 <= q && WORD <= n && p + WORD <= |a| && q + WORD <= |b|
    requires a[p] == b[q] && a[p + 1] == b[q + 1] && a[p + 2] == b[q + 2] && a[p + 3] == b[q + 3]
    ensures (a[p] == 0 || a[p + 1] == 0 || a[p + 2] == 0 || a[p + 3] == 0) ==> Compared(a, p, b, q, n) == 0
    ensures !(a[p] == 0 || a[p + 1] == 0 || a[p + 2] == 0 || a[p + 3] == 0) ==>
              Compared(a, p, b, q, n) == Compared(a, p + WORD, b, q + WORD, n - WORD)
    ensures n == WORD ==> Compared(a, p, b, q, n) == 0
  {
    OneStep(a, p, b, q, n);
    OneStep(a, p + 1, b, q + 1, n - 1);
    OneStep(a, p + 2, b, q + 2, n - 2);
    OneStep(a, p + 3, b, q + 3, n - 3);
  }

  lemma OneStep(a: seq<byte>, p: int, b: seq<byte>, q: int, n: nat)
    requires 0 <= p < |a| && 0 <= q < |b| && 0 < n && a[p] == b[q]
    ensures Compared(a, p, b, q, n) == if a[p] == 0 then 0 else Compared(a, p + 1, b, q + 1, n - 1)
    ensures n == 1 ==> Compared(a, p, b, q, n) == 0
  {
  }

  lemma ReadableWord(m: seq<byte>, p: int, n: int)
    requires Readable(m, p, n) && WORD <= n && p + WORD <= |m| && forall j | p <= j < p + WORD :: m[j] != 0
    ensures Readable(m, p + WORD, n - WORD)
  {
    if p + n > |m| {
      var e :| EndsAt(m, p, e);
      assert EndsAt(m, p + WORD, e);
    }
  }

  // strncpy

  /** Byte k of the copy: the source up to its end, then zeros. */
  function CopiedByte(m: seq<byte>, p: int, k: int): byte
    requires 0 <= p && 0 <= k
    decreases k
  {
    if p >= |m| || m[p] == 0 then 0 else if k == 0 then m[p] else CopiedByte(m, p + 1, k - 1)
  }

  /** What byte k of the copy is: the source byte while no end has come before, otherwise 0. */
  lemma {:induction false} CopiedByteIs(m: seq<byte>, p: int, k: int)
    requires 0 <= p && 0 <= k && p + k < |m|
    ensures CopiedByte(m, p, k) == if forall j | p <= j < p + k :: m[j] != 0 then m[p + k] else 0
    decreases k
  {
    if k <= 0 || m[p] == 0 {
    } else {
      CopiedByteIs(m, p + 1, k - 1);
    }
  }

  /** Bytes p up to s of m, none of them an end, have been copied; dst is otherwise as in o. */
  ghost predicate CopiedTo(m: seq<byte>, p: int, s: int, o: seq<byte>, dst: seq<byte>, d: int) {
    && 0 <= p <= s <= |m| && |dst| == |o| && (forall j | p <= j < s :: m[j] != 0)
    && forall i | 0 <= i < |dst| :: dst[i] == if d <= i < d + (s - p) then m[i - d + p] else o[i]
  }

  /** strncpy into the memory dst, at offset d. */
  method Strncpy(dst: array<byte>, d: nat, m: seq<byte>, p: nat, count0: nat)
    requires d + count0 <= dst.Length && Readable(m, p, count0) && p <= |m|
    modifies dst
    ensures forall i | 0 <= i < dst.Length ::
              dst[i] == if d <= i < d + count0 then CopiedByte(m, p, i - d) else old(dst[i])
  {
    hide Readable, CopiedTo, CopiedByte;
    ghost var o := dst[..];
    CopiedNone(m, p, o, d);
    var to, src, count := d, p, count0;
    if to % WORD == 0 && src % WORD == 0 && !(count < WORD) {
      to, src, count := CopyWords(dst, d, m, p, count, o);
    }
    CopyBytes(dst, to, m, src, count, d, p, count0, o);
  }

  lemma CopiedNone(m: seq<byte>, p: int, o: seq<byte>, d: int)
    requires 0 <= p <= |m|
    ensures CopiedTo(m, p, p, o, o, d)
  {
  }

  // the word loop
  method CopyWords(dst: array<byte>, d: nat, m: seq<byte>, p: nat, count0: nat, ghost o: seq<byte>)
    returns (to: nat, src: nat, count: nat)
    requires d + count0 <= dst.Length && Readable(m, p, count0) && p % WORD == 0 && WORD <= count0
             && CopiedTo(m, p, p, o, dst[..], d)
    modifies dst
    ensures count <= count0 && to == d + (count0 - count) && src == p + (count0 - count) && Readable(m, src, count)
            && CopiedTo(m, p, src, o, dst[..], d)
  {
    hide Readable, CopiedTo, DetectNull, WordAt;
    to, src, count := d, p, count0;
    ReadableStep(m, src, count);
    while count >= WORD && DetectNull(WordAt(m, src)) == 0
      invariant count <= count0 && to == d + (count0 - count) && src == p + (count0 - count) && src % WORD == 0
                && Readable(m, src, count)
      invariant count >= WORD ==> src + WORD <= |m|
      invariant CopiedTo(m, p, src, o, dst[..], d)
      decreases count
    {
      NullAt(m, src);
      ReadableWord(m, src, count);
      ghost var before := dst[..];
      dst[to], dst[to + 1], dst[to + 2], dst[to + 3] := m[src], m[src + 1], m[src + 2], m[src + 3];
      CopiedWord(m, p, src, o, before, dst[..], d);
      to, src, count := to + WORD, src + WORD, count - WORD;
      if count > 0 {
        ReadableStep(m, src, count);
      }
    }
  }

  lemma CopiedWord(m: seq<byte>, p: int, s: int, o: seq<byte>, b: seq<byte>, b': seq<byte>, d: int)
    requires CopiedTo(m, p, s, o, b, d) && s + WORD <= |m| && (forall j | s <= j < s + WORD :: m[j] != 0)
    requires var t := d + (s - p);
             0 <= t && t + WORD <= |b| && b' == b[t := m[s]][t + 1 := m[s + 1]][t + 2 := m[s + 2]][t + 3 := m[s + 3]]
    ensures CopiedTo(m, p, s + WORD, o, b', d)
  {
  }

  // the byte loop and the zero fill
  method CopyBytes(dst: array<byte>, to0: nat, m: seq<byte>, src0: nat, count0: nat, ghost d: nat, ghost p: nat,
                   ghost total: nat, ghost o: seq<byte>)
    requires count0 <= total && to0 == d + (total - count0) && src0 == p + (total - count0) && d + total <= dst.Length
    requires Readable(m, src0, count0) && CopiedTo(m, p, src0, o, dst[..], d)
    modifies dst
    ensures forall i | 0 <= i < dst.Length :: dst[i] == if d <= i < d + total then CopiedByte(m, p, i - d) else o[i]
  {
    hide Readable, CopiedTo, CopiedByte;
    var to, src, count := to0, src0, count0;
    while count > 0
      invariant 0 <= count <= total && to == d + (total - count) && src == p + (total - count)
                && Readable(m, src, count) && CopiedTo(m, p, src, o, dst[..], d)
      decreases count
    {
      ReadableStep(m, src, count);
      count := count - 1;
      ghost var before := dst[..];
      dst[to] := m[src];
      to, src := to + 1, src + 1;
      if m[src - 1] == 0 {
        ZeroFill(dst, to, count, m, p, src - 1, before, o, d, total);
        return;
      }
      CopiedOne(m, p, src - 1, o, before, dst[..], d);
    }
    AllCopied(m, p, src, o, dst[..], d);
  }

  lemma CopiedOne(m: seq<byte>, p: int, s: int, o: seq<byte>, b: seq<byte>, b': seq<byte>, d: int)
    requires CopiedTo(m, p, s, o, b, d) && s < |m| && m[s] != 0 && 0 <= d + (s - p) < |b|
             && b' == b[d + (s - p) := m[s]]
    ensures CopiedTo(m, p, s + 1, o, b', d)
  {
  }

  lemma AllCopied(m: seq<byte>, p: int, s: int, o: seq<byte>, b: seq<byte>, d: int)
    requires CopiedTo(m, p, s, o, b, d) && 0 <= d
    ensures |o| == |b| && forall i | 0 <= i < |b| ::
              b[i] == if d <= i < d + (s - p) then CopiedByte(m, p, i - d) else o[i]
  {
    forall i | d <= i < d + (s - p) && i < |b|
      ensures b[i] == CopiedByte(m, p, i - d)
    {
      CopiedUpTo(m, p, i - d, s - p, false);
    }
  }

  // while (count-- > 0) *dst++ = 0, after the end of the source at s
  method ZeroFill(dst: array<byte>, to0: nat, count0: nat, m: seq<byte>, ghost p: nat, ghost s: nat,
                  ghost before: seq<byte>, ghost o: seq<byte>, ghost d: nat, ghost total: nat)
    requires CopiedTo(m, p, s, o, before, d) && s < |m| && m[s] == 0 && d + total <= dst.Length
             && to0 == d + (s + 1 - p) && to0 + count0 == d + total
    requires |before| == dst.Length && dst[..] == before[to0 - 1 := 0]
    modifies dst
    ensures forall i | 0 <= i < dst.Length :: dst[i] == if d <= i < d + total then CopiedByte(m, p, i - d) else o[i]
  {
    hide CopiedTo, CopiedByte;
    var to, count := to0, count0;
    while count > 0
      invariant 0 <= count <= count0 && to == to0 + (count0 - count)
      invariant forall i | 0 <= i < dst.Length :: dst[i] == if to0 - 1 <= i < to then 0 else before[i]
      decreases count
    {
      count := count - 1;
      dst[to] := 0;
      to := to + 1;
    }
    Filled(m, p, s, o, before, dst[..], d, total);
  }

  lemma Filled(m: seq<byte>, p: int, s: int, o: seq<byte>, b: seq<byte>, b': seq<byte>, d: int, total: int)
    requires CopiedTo(m, p, s, o, b, d) && s < |m| && m[s] == 0 && 0 <= d && d + total <= |b| && s - p < total
             && |b'| == |b|
    requires forall i | 0 <= i < |b| :: b'[i] == if d + (s - p) <= i < d + total then 0 else b[i]
    ensures forall i | 0 <= i < |b| :: b'[i] == if d <= i < d + total then CopiedByte(m, p, i - d) else o[i]
  {
    hide CopiedByte;
    forall i | d <= i < d + total
      ensures b'[i] == CopiedByte(m, p, i - d)
    {
      CopiedUpTo(m, p, i - d, s + 1 - p, true);
    }
  }

  lemma {:induction false} CopiedUpTo(m: seq<byte>, p: int, k: int, n: int, ended: bool)
    requires 0 <= p && 0 <= k && 0 <= n && p + n <= |m| && (ended ==> 0 < n && m[p + n - 1] == 0) && (!ended ==> k < n)
    requires forall j | p <= j < p + n && (ended ==> j < p + n - 1) :: m[j] != 0
    ensures CopiedByte(m, p, k) == if k < n then m[p + k] else 0
    decreases k
  {
    if k <= 0 || m[p] == 0 || n <= 0 {
    } else {
      CopiedUpTo(m, p + 1, k - 1, n - 1, ended);
    }
  }

  // memcpy

  /** n bytes from src copied to dst one after the other, the lowest first. */
  function Ascending(s: seq<byte>, dst: nat, src: nat, n: nat): (r: seq<byte>)
    requires dst + n <= |s| && src + n <= |s|
    ensures |r| == |s|
  {
    if n == 0 then s
    else
      var t := Ascending(s, dst, src, n - 1);
      t[dst + n - 1 := t[src + n - 1]]
  }

  /** A whole aligned word may be read before it is written, wherever the two regions lie. */
  lemma WordStep(s: seq<byte>, dst: nat, src: nat, n: nat)
    requires dst + n + WORD <= |s| && src + n + WORD <= |s| && (dst - src) % WORD == 0
    ensures var t, d, x := Ascending(s, dst, src, n), dst + n, src + n;
            Ascending(s, dst, src, n + WORD) == t[d := t[x]][d + 1 := t[x + 1]][d + 2 := t[x + 2]][d + 3 := t[x + 3]]
  {
    var t, d, x := Ascending(s, dst, src, n), dst + n, src + n;
    var t1 := t[d := t[x]];
    var t2 := t1[d + 1 := t1[x + 1]];
    var t3 := t2[d + 2 := t2[x + 2]];
    assert Ascending(s, dst, src, n + 1) == t1;
    assert Ascending(s, dst, src, n + 2) == t2;
    assert Ascending(s, dst, src, n + 3) == t3;
    assert Ascending(s, dst, src, n + 4) == t3[d + 3 := t3[x + 3]];
  }

  predicate BothAligned(dst: int, src: int) {
    dst % WORD == 0 && src % WORD == 0
  }

  /** *aligned_dst = *aligned_src */
  method MoveWord(m: array<byte>, ghost s: seq<byte>, dst: nat, src: nat, ghost dst0: nat, ghost src0: nat,
                  ghost done: nat)
    requires |s| == m.Length && dst == dst0 + done && src == src0 + done && BothAligned(dst, src)
    requires dst + WORD <= m.Length && src + WORD <= m.Length && m[..] == Ascending(s, dst0, src0, done)
    modifies m
    ensures m[..] == Ascending(s, dst0, src0, done + WORD) && BothAligned(dst + WORD, src + WORD)
  {
    hide Ascending, BothAligned;
    NextAligned(dst, src, done);
    WordStep(s, dst0, src0, done);
    m[dst], m[dst + 1], m[dst + 2], m[dst + 3] := m[src], m[src + 1], m[src + 2], m[src + 3];
  }

  lemma NextAligned(dst: int, src: int, done: int)
    requires BothAligned(dst, src)
    ensures BothAligned(dst + WORD, src + WORD) && (dst - done - (src - done)) % WORD == 0
  {
  }

  lemma ByteStep(s: seq<byte>, dst: nat, src: nat, n: nat)
    requires dst + n < |s| && src + n < |s|
    ensures var t := Ascending(s, dst, src, n); Ascending(s, dst, src, n + 1) == t[dst + n := t[src + n]]
  {
  }

  method MoveFour(m: array<byte>, ghost s: seq<byte>, dst: nat, src: nat, ghost dst0: nat, ghost src0: nat,
                  ghost done: nat)
    returns (dst': nat, src': nat)
    requires |s| == m.Length && dst == dst0 + done && src == src0 + done && BothAligned(dst, src)
    requires dst + 4 * WORD <= m.Length && src + 4 * WORD <= m.Length && m[..] == Ascending(s, dst0, src0, done)
    modifies m
    ensures dst' == dst + 4 * WORD && src' == src + 4 * WORD && BothAligned(dst', src')
    ensures m[..] == Ascending(s, dst0, src0, done + 4 * WORD)
  {
    hide Ascending, BothAligned;
    MoveWord(m, s, dst, src, dst0, src0, done);
    dst', src' := dst + WORD, src + WORD;
    MoveWord(m, s, dst', src', dst0, src0, done + WORD);
    dst', src' := dst' + WORD, src' + WORD;
    MoveWord(m, s, dst', src', dst0, src0, done + 2 * WORD);
    dst', src' := dst' + WORD, src' + WORD;
    MoveWord(m, s, dst', src', dst0, src0, done + 3 * WORD);
    dst', src' := dst' + WORD, src' + WORD;
  }

  /** The word loops: four words at a time, then one. */
  method MoveWords(m: array<byte>, dst0: nat, src0: nat, len0: nat) returns (dst: nat, src: nat, len: nat)
    requires dst0 + len0 <= m.Length && src0 + len0 <= m.Length && BothAligned(dst0, src0)
    modifies m
    ensures len < WORD && len <= len0 && dst == dst0 + (len0 - len) && src == src0 + (len0 - len)
    ensures m[..] == Ascending(old(m[..]), dst0, src0, len0 - len)
  {
    hide Ascending, BothAligned;
    ghost var s := m[..];
    dst, src, len := dst0, src0, len0;
    NoneCopied(s, dst, src);
    while len >= 4 * WORD
      invariant 0 <= len <= len0 && dst == dst0 + (len0 - len) && src == src0 + (len0 - len)
      invariant BothAligned(dst, src) && m[..] == Ascending(s, dst0, src0, len0 - len)
    {
      dst, src := MoveFour(m, s, dst, src, dst0, src0, len0 - len);
      len := len - 4 * WORD;
    }
    while len >= WORD
      invariant 0 <= len <= len0 && dst == dst0 + (len0 - len) && src == src0 + (len0 - len)
      invariant BothAligned(dst, src) && m[..] == Ascending(s, dst0, src0, len0 - len)
    {
      MoveWord(m, s, dst, src, dst0, src0, len0 - len);
      dst, src, len := dst + WORD, src + WORD, len - WORD;
    }
  }

  lemma NoneCopied(s: seq<byte>, dst: nat, src: nat)
    requires dst <= |s| && src <= |s|
    ensures Ascending(s, dst, src, 0) == s
  {
  }

  /** For every alignment and every overlap, memcpy has the effect of the copy byte by byte. */
  method MemCpy(m: array<byte>, dst0: nat, src0: nat, len0: nat)
    requires dst0 + len0 <= m.Length && src0 + len0 <= m.Length
    modifies m
    ensures m[..] == Ascending(old(m[..]), dst0, src0, len0)
  {
    hide Ascending;
    ghost var s := m[..];
    var dst, src, len := dst0, src0, len0;
    NoneCopied(s, dst, src);
    if len >= 4 * WORD && BothAligned(dst, src) {
      dst, src, len := MoveWords(m, dst, src, len);
    }
    while len > 0
      invariant 0 <= len <= len0 && dst == dst0 + (len0 - len) && src == src0 + (len0 - len)
      invariant m[..] == Ascending(s, dst0, src0, len0 - len)
    {
      ByteStep(s, dst0, src0, len0 - len);
      m[dst] := m[src];
      dst, src, len := dst + 1, src + 1, len - 1;
    }
  }

  /** The bytes arrive unchanged if the destination is not inside the source; and nothing else is written. */
  lemma {:induction false} CopiedIntact(s: seq<byte>, dst: nat, src: nat, n: nat, i: nat)
    requires dst + n <= |s| && src + n <= |s| && i < |s| && (dst <= src || src + n <= dst)
    ensures Ascending(s, dst, src, n)[i] == if dst <= i < dst + n then s[src + (i - dst)] else s[i]
    decreases n
  {
    if n == 0 {
    } else {
      CopiedIntact(s, dst, src, n - 1, i);
      CopiedIntact(s, dst, src, n - 1, src + n - 1);
    }
  }
}
