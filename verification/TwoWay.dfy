/**
 The two search loops of lib/mylibc/string/str-two-way.h. The needle is cut at a critical
 position; each window compares the right half upwards and then the left half downwards, and
 every shift is justified by the repetition it would otherwise create across the cut.
 */
module TwoWay {
  import opened Common
  import opened Words
  import opened Critical

  /** A cut as critical_factorization returns it: critical, with p the period of the right half. */
  ghost predicate Split(n: seq<byte>, s: int, p: int) {
    0 <= s < |n| && 1 <= p && s + p <= |n| && CriticalAt(n, s) && IsLeastPeriod(n[s..], p)
  }

  /** n occurs in h at position j. */
  ghost predicate Occurs(h: seq<byte>, n: seq<byte>, j: int) {
    Matched(h, n, j, 0, |n|)
  }

  /** n[lo..hi] agrees with h when n is laid at position j. */
  ghost predicate Matched(h: seq<byte>, n: seq<byte>, j: int, lo: int, hi: int) {
    0 <= j && j + |n| <= |h| && forall i, k | 0 <= lo <= i < hi <= |n| && k == j + i && k < |h| :: n[i] == h[k]
  }

  /** n does not occur at any of the positions lo..hi. */
  ghost predicate NoneIn(h: seq<byte>, n: seq<byte>, lo: int, hi: int) {
    forall j | lo <= j < hi :: !Occurs(h, n, j)
  }

  /** r is the leftmost occurrence of n in h, or None when there is none. */
  ghost predicate IsFirst(h: seq<byte>, n: seq<byte>, r: Option<int>) {
    match r
    case Some(j) => Occurs(h, n, j) && NoneIn(h, n, 0, j)
    case None => NoneIn(h, n, 0, |h| + 1)
  }

  /** The right half n[s..i] agrees with h; an occurrence q places further repeats across the cut. */
  lemma LaterMatchRepeats(h: seq<byte>, n: seq<byte>, s: int, j: int, i: int, q: int)
    requires CriticalAt(n, s) && Matched(h, n, j, s, i) && 0 <= s <= i <= |n|
    requires 1 <= q && Occurs(h, n, j + q) && (s + q <= i || i == |n|)
    ensures IsPeriod(n, q) && s < q
  {
    forall a, b | 0 <= a < s <= b < |n| && b == a + q
      ensures n[a] == n[b]
    {
      assert n[b] == h[j + b] == n[a];
    }
    assert LocalRep(n, s, q);
  }

  /** Reading the window at j through an occurrence q places further, when q is a period. */
  lemma ReadBack(h: seq<byte>, n: seq<byte>, j: int, i: int, q: int)
    requires 0 <= j && Occurs(h, n, j + q) && 0 <= q <= i < |n| && j + i < |h|
    requires q == 0 || IsPeriod(n, q)
    ensures n[i] == h[j + i]
  {
    assert n[i - q] == h[j + i];
  }

  /** A mismatch in the right half at i rules out every shift up to i - s. */
  lemma RightMismatch(h: seq<byte>, n: seq<byte>, s: int, j: int, i: int)
    requires CriticalAt(n, s) && 0 <= s <= i < |n| && Matched(h, n, j, s, i) && n[i] != h[j + i]
    ensures NoneIn(h, n, j, j + i - s + 1)
  {
    forall k | j <= k < j + i - s + 1
      ensures !Occurs(h, n, k)
    {
      if Occurs(h, n, k) {
        if k != j {
          LaterMatchRepeats(h, n, s, j, i, k - j);
        }
        ReadBack(h, n, j, i, k - j);
        assert false;
      }
    }
  }

  /** A repetition of the whole word bounds the period of the right half. */
  lemma PeriodOfRight(n: seq<byte>, s: int, p: int, q: int)
    requires 0 <= s <= |n| && IsLeastPeriod(n[s..], p) && IsPeriod(n, q)
    ensures p <= q
  {
    var v := n[s..];
    forall i, j | 0 <= i < j < |v| && j == i + q
      ensures v[i] == v[j]
    {
      assert n[s + i] == n[s + j];
    }
    assert IsPeriod(v, q);
  }

  /** Periodic needle: once the right half agrees, the next occurrence is at least a period away. */
  lemma PeriodicShift(h: seq<byte>, n: seq<byte>, s: int, j: int, p: int)
    requires Split(n, s, p) && Matched(h, n, j, s, |n|) && !Occurs(h, n, j)
    ensures NoneIn(h, n, j, j + p)
  {
    forall k | j <= k < j + p
      ensures !Occurs(h, n, k)
    {
      if k != j && Occurs(h, n, k) {
        LaterMatchRepeats(h, n, s, j, |n|, k - j);
        PeriodOfRight(n, s, p, k - j);
        assert false;
      }
    }
  }

  /** What the memory keeps: after a shift by the period the old right half covers a prefix. */
  lemma MemoryHolds(h: seq<byte>, n: seq<byte>, s: int, j: int, p: int)
    requires Split(n, s, p) && IsPeriod(n, p) && Matched(h, n, j, s, |n|) && j + p + |n| <= |h|
    ensures Matched(h, n, j + p, 0, |n| - p)
  {
    forall i, k | 0 <= i < |n| - p && k == j + p + i
      ensures n[i] == h[k]
    {
      assert n[i] == n[i + p] == h[k];
    }
  }

  /** The period of the right half never reaches past the needle. */
  lemma PeriodFits(n: seq<byte>, s: int, p: int)
    requires 0 <= s < |n| && IsLeastPeriod(n[s..], p)
    ensures 1 <= p && s + p <= |n|
  {
    assert IsPeriod(n[s..], |n| - s);
  }

  /** d goes into p at the cut: what is left over, or p itself, is again a repetition. */
  lemma {:induction false} PeriodReduces(n: seq<byte>, s: int, p: int, q: int) returns (r: int)
    requires 0 <= s < |n| && IsPeriod(n, q) && IsPeriod(n[s..], p) && p <= q && s + q <= |n|
    ensures 1 <= r <= p && LocalRep(n, s, r)
    decreases q
  {
    r := Leftover(p, q);
    forall a, b | 0 <= a < s <= b < |n| && b == a + r
      ensures n[a] == n[b]
    {
      assert n[a] == n[a + q];
      RightRepeats(n, s, p, b, a + q);
    }
  }

  /** The remainder of q by p, in 1..p. */
  lemma Leftover(p: int, q: int) returns (r: int)
    requires 1 <= p <= q
    ensures 1 <= r <= p && r <= q && Mult(p, q - r)
    decreases q
  {
    if q == p {
      r := p;
    } else if q < 2 * p {
      r := q - p;
      assert Mult(p, p);
    } else {
      r := Leftover(p, q - p);
      assert q - r - p == q - p - r;
    }
  }

  lemma {:induction false} RightRepeats(n: seq<byte>, s: int, p: int, x: int, y: int)
    requires 0 <= s <= x <= y < |n| && IsPeriod(n[s..], p) && Mult(p, y - x)
    ensures n[x] == n[y]
    decreases y - x
  {
    if x == y {
    } else {
      RightRepeats(n, s, p, x, y - p);
      assert n[s..][y - p - s] == n[s..][y - s];
      assert y - p - x == y - x - p;
    }
  }

  /** Distinct halves: if the left half does not recur p places further, no repetition fits in either half. */
  lemma DistinctHalves(n: seq<byte>, s: int, p: int, q: int)
    requires Split(n, s, p) && n[..s] != n[p..p + s]
    requires IsPeriod(n, q) && s < q
    ensures |n| - s < q
  {
    if q <= |n| - s {
      PeriodOfRight(n, s, p, q);
      var r := PeriodReduces(n, s, p, q);
      PeriodOfRight(n, s, p, r);
      assert r == p && IsPeriod(n, p);
      PeriodCopies(n, s, p);
      assert false;
    }
  }

  lemma PeriodCopies(n: seq<byte>, s: int, p: int)
    requires 0 <= s && 0 <= p && s + p <= |n| && IsPeriod(n, p)
    ensures n[..s] == n[p..p + s]
  {
    var u, v := n[..s], n[p..p + s];
    forall i | 0 <= i < s
      ensures u[i] == v[i]
    {
      assert n[i] == n[i + p];
    }
  }

  /** Distinct halves: once the right half agrees, the window moves past the longer half. */
  lemma DistinctShift(h: seq<byte>, n: seq<byte>, s: int, j: int, p: int, shift: int)
    requires Split(n, s, p) && n[..s] != n[p..p + s]
    requires Matched(h, n, j, s, |n|) && !Occurs(h, n, j)
    requires shift <= s + 1 || shift <= |n| - s + 1
    ensures NoneIn(h, n, j, j + shift)
  {
    forall k | j <= k < j + shift
      ensures !Occurs(h, n, k)
    {
      if k != j && Occurs(h, n, k) {
        LaterMatchRepeats(h, n, s, j, |n|, k - j);
        DistinctHalves(n, s, p, k - j);
        assert false;
      }
    }
  }

  /** The last byte of the window occurs in the needle only shift places or more before its end. */
  lemma TableShift(h: seq<byte>, n: seq<byte>, j: int, shift: int)
    requires 0 < |n| && 0 <= j && j + |n| <= |h| && 0 <= shift <= |n|
    requires forall i | |n| - shift <= i < |n| :: n[i] != h[j + |n| - 1]
    ensures NoneIn(h, n, j, j + shift)
  {
    forall k | j <= k < j + shift
      ensures !Occurs(h, n, k)
    {
      var i := |n| - 1 - (k - j);
      assert n[i] != h[k + i];
    }
  }

  /** A remembered prefix and a wrong last byte: every occurrence starts past the remembered part. */
  lemma MemoryShift(h: seq<byte>, n: seq<byte>, j: int, p: int)
    requires IsPeriod(n, p) && p < |n| && Matched(h, n, j, 0, |n| - p) && h[j + |n| - 1] != n[|n| - 1]
    ensures NoneIn(h, n, j, j + |n| - p)
  {
    var l := |n|;
    forall k | j <= k < j + l - p
      ensures !Occurs(h, n, k)
    {
      if Occurs(h, n, k) {
        ReadLast(h, n, j, p, k - j);
        assert false;
      }
    }
  }

  lemma ReadLast(h: seq<byte>, n: seq<byte>, j: int, p: int, q: int)
    requires IsPeriod(n, p) && p < |n| && Matched(h, n, j, 0, |n| - p) && Occurs(h, n, j + q) && 0 <= q < |n| - p
    ensures h[j + |n| - 1] == n[|n| - 1]
  {
    var l := |n|;
    assert h[j + l - 1] == n[l - 1 - q] == n[l - 1 - p - q] == h[j + l - 1 - p] == n[l - 1 - p] == n[l - 1];
  }

  /** No window is left: the needle does not fit any more. */
  lemma NoRoom(h: seq<byte>, n: seq<byte>, j: int)
    requires NoneIn(h, n, 0, j) && |h| < j + |n|
    ensures IsFirst(h, n, None)
  {
  }

  /** The left half is compared downwards from the cut to the remembered prefix; comparisons are counted. */
  method ScanLeft(h: seq<byte>, n: seq<byte>, suffix: int, memory: int, j: int) returns (found: bool, ghost comps: int)
    requires |h| < TWO32 && 0 <= suffix < |n| && 0 <= memory < |n|
    requires Matched(h, n, j, 0, memory) && Matched(h, n, j, if suffix < memory then memory else suffix, |n|)
    ensures found <==> Occurs(h, n, j)
    ensures 0 <= comps <= suffix
  {
    comps := 0;
    var i := Wrap(suffix - 1);
    while memory < Wrap(i + 1) && n[i] == h[i + j]
      invariant 0 <= i < TWO32 && Wrap(i + 1) <= suffix
      invariant memory < Wrap(i + 1) ==> i < suffix
      invariant Matched(h, n, j, if Wrap(i + 1) < memory then memory else Wrap(i + 1), |n|)
      invariant 0 <= comps <= suffix - Wrap(i + 1)
      decreases Wrap(i + 1)
    {
      comps := comps + 1;
      i := Wrap(i - 1);
    }
    if memory < Wrap(i + 1) {
      comps := comps + 1;
    }
    found := Wrap(i + 1) < memory + 1;
  }

  /** Both halves agree: what remains is to shift. Otherwise the mismatch in the right half says how far. */
  lemma PeriodicStep(h: seq<byte>, n: seq<byte>, s: int, p: int, j: int, i: int)
    requires Split(n, s, p) && IsPeriod(n, p) && NoneIn(h, n, 0, j) && 0 <= j
    requires s <= i <= |n| && Matched(h, n, j, s, i)
    requires if i == |n| then !Occurs(h, n, j) else n[i] != h[j + i]
    ensures i == |n| ==> NoneIn(h, n, 0, j + p) && (j + p + |n| <= |h| ==> Matched(h, n, j + p, 0, |n| - p))
    ensures i < |n| ==> NoneIn(h, n, 0, j + (i - s + 1))
  {
    if i == |n| {
      PeriodicShift(h, n, s, j, p);
      if j + p + |n| <= |h| {
        MemoryHolds(h, n, s, j, p);
      }
    } else {
      RightMismatch(h, n, s, j, i);
    }
  }

  lemma DistinctStep(h: seq<byte>, n: seq<byte>, s: int, p: int, j: int, i: int)
    requires Split(n, s, p) && n[..s] != n[p..p + s] && NoneIn(h, n, 0, j) && 0 <= j
    requires s <= i <= |n| && Matched(h, n, j, s, i)
    requires if i == |n| then !Occurs(h, n, j) else n[i] != h[j + i]
    ensures i == |n| ==> NoneIn(h, n, 0, j + ((if s < |n| - s then |n| - s else s) + 1))
    ensures i < |n| ==> NoneIn(h, n, 0, j + (i - s + 1))
  {
    if i == |n| {
      var shift := (if s < |n| - s then |n| - s else s) + 1;
      DistinctShift(h, n, s, j, p, shift);
    } else {
      RightMismatch(h, n, s, j, i);
    }
  }

  /** The left half is shorter than the period. */
  lemma ShortLeft(n: seq<byte>, s: int, p: int)
    requires Split(n, s, p) && IsPeriod(n, p)
    ensures s < p
  {
    assert LocalRep(n, s, p);
  }

  /** two_way_short_needle, the branch for a needle that is periodic as a whole. */
  method ShortPeriodic(h: seq<byte>, n: seq<byte>, suffix: int, period: int) returns (r: Option<int>, ghost comps: int)
    requires 0 < |n| <= |h| < TWO32 && Split(n, suffix, period) && IsPeriod(n, period)
    ensures IsFirst(h, n, r)
    ensures 0 <= comps <= 2 * |h| - |n|
  {
    hide CriticalAt, IsLeastPeriod, IsPeriod;
    var memory, j := 0, 0;
    comps := 0;
    ShortLeft(n, suffix, period);
    while j <= |h| - |n|
      invariant 0 <= comps <= 2 * j + (if suffix < memory then memory - suffix else 0) && comps <= 2 * |h| - |n|
      invariant 0 <= j && 0 <= memory < |n| && NoneIn(h, n, 0, j)
      invariant j + |n| <= |h| ==> Matched(h, n, j, 0, memory)
      decreases |h| - j
    {
      var i := if suffix < memory then memory else suffix;
      ghost var start, before := i, comps;
      while i < |n| && n[i] == h[i + j]
        invariant suffix <= i <= |n| && memory <= i && Matched(h, n, j, suffix, i)
        invariant start <= i && comps == before + i - start
      {
        comps := comps + 1;
        i := i + 1;
      }
      if i < |n| {
        comps := comps + 1;
      }
      if |n| <= i {
        ghost var left;
        var found;
        found, left := ScanLeft(h, n, suffix, memory, j);
        comps := comps + left;
        if found {
          return Some(j), comps;
        }
        PeriodicStep(h, n, suffix, period, j, i);
        j := j + period;
        memory := |n| - period;
      } else {
        PeriodicStep(h, n, suffix, period, j, i);
        j := j + (i - suffix + 1);
        memory := 0;
      }
    }
    NoRoom(h, n, j);
    r := None;
  }

  /** two_way_short_needle, the branch for a needle whose halves are distinct. */
  method ShortDistinct(h: seq<byte>, n: seq<byte>, suffix: int, period: int) returns (r: Option<int>, ghost comps: int)
    requires 0 < |n| <= |h| < TWO32 && Split(n, suffix, period) && n[..suffix] != n[period..period + suffix]
    ensures IsFirst(h, n, r)
    ensures 0 <= comps <= 2 * |h| - |n|
  {
    hide CriticalAt, IsLeastPeriod, IsPeriod;
    var shift := (if suffix < |n| - suffix then |n| - suffix else suffix) + 1;
    var j := 0;
    comps := 0;
    while j <= |h| - |n|
      invariant 0 <= comps <= 2 * j && comps <= 2 * |h| - |n|
      invariant 0 <= j && NoneIn(h, n, 0, j)
      decreases |h| - j
    {
      var i := suffix;
      ghost var start, before := i, comps;
      while i < |n| && n[i] == h[i + j]
        invariant suffix <= i <= |n| && Matched(h, n, j, suffix, i)
        invariant start <= i && comps == before + i - start
      {
        comps := comps + 1;
        i := i + 1;
      }
      if i < |n| {
        comps := comps + 1;
      }
      if |n| <= i {
        ghost var left;
        var found;
        found, left := ScanLeft(h, n, suffix, 0, j);
        comps := comps + left;
        if found {
          return Some(j), comps;
        }
        DistinctStep(h, n, suffix, period, j, i);
        j := j + shift;
      } else {
        DistinctStep(h, n, suffix, period, j, i);
        j := j + (i - suffix + 1);
      }
    }
    NoRoom(h, n, j);
    r := None;
  }

  /** two_way_short_needle; comps is the number of comparisons that the search makes. */
  method TwoWayShortNeedle(h: seq<byte>, n: seq<byte>) returns (r: Option<int>, ghost comps: int)
    requires 0 < |n| <= |h| < TWO32
    ensures IsFirst(h, n, r)
    ensures 0 <= comps <= 2 * |h| - |n|
  {
    ghost var before;
    var suffix, period;
    suffix, period, before := CriticalFactorization(n);
    PeriodFits(n, suffix, period);
    if n[..suffix] == n[period..period + suffix] {
      r, comps := ShortPeriodic(h, n, suffix, period);
    } else {
      r, comps := ShortDistinct(h, n, suffix, period);
    }
  }

  /** Entry c of the shift table: how far the last c of the needle is from its end. */
  ghost predicate TableEntry(n: seq<byte>, c: byte, d: int) {
    0 <= d <= |n| && (d < |n| ==> n[|n| - 1 - d] == c) && forall i | |n| - d <= i < |n| :: n[i] != c
  }

  ghost predicate EntryOk(n: seq<byte>, table: seq<int>, c: byte) {
    |table| == 256 && TableEntry(n, c, table[c as int])
  }

  /** Entry c after the first k bytes of the needle have been entered. */
  ghost predicate EntryUpTo(n: seq<byte>, k: int, table: seq<int>, c: byte) {
    |table| == 256 && 0 <= k <= |n| &&
    var d := table[c as int];
    |n| - k <= d <= |n| && (d < |n| ==> n[|n| - 1 - d] == c) && forall i | |n| - d <= i < k :: n[i] != c
  }

  lemma EnterByte(n: seq<byte>, k: int, k': int, t: seq<int>, t': seq<int>)
    requires k < |n| && k' == k + 1 && (forall c: byte :: EntryUpTo(n, k, t, c))
    requires |t| == 256 && t' == t[n[k] as int := |n| - k']
    ensures forall c: byte :: EntryUpTo(n, k', t', c)
  {
    assert EntryUpTo(n, k, t, 0);
    forall c: byte
      ensures EntryUpTo(n, k', t', c)
    {
      assert EntryUpTo(n, k, t, c);
    }
  }

  /** The bad-character table of two_way_long_needle. */
  method ShiftTable(n: seq<byte>) returns (table: array<int>)
    ensures fresh(table) && table.Length == 256
    ensures forall c: byte :: EntryOk(n, table[..], c)
  {
    table := new int[256];
    var i := 0;
    while i < 256
      invariant 0 <= i <= 256 && forall c | 0 <= c < i :: table[c] == |n|
    {
      table[i] := |n|;
      i := i + 1;
    }
    i := 0;
    forall c: byte
      ensures EntryUpTo(n, 0, table[..], c)
    {
    }
    while i < |n|
      invariant 0 <= i <= |n|
      invariant forall c: byte :: EntryUpTo(n, i, table[..], c)
    {
      ghost var t := table[..];
      table[n[i] as int] := |n| - i - 1;
      EnterByte(n, i, i + 1, t, table[..]);
      i := i + 1;
    }
    forall c: byte
      ensures EntryOk(n, table[..], c)
    {
      assert EntryUpTo(n, |n|, table[..], c);
    }
  }

  /** The two shifts taken on a wrong last byte, and what a right one means. */
  lemma LastByte(h: seq<byte>, n: seq<byte>, p: int, j: int, memory: int, shift: int)
    requires 0 < |n| && 0 <= j && j + |n| <= |h| && NoneIn(h, n, 0, j) && 1 <= p
    requires TableEntry(n, h[j + |n| - 1], shift)
    requires memory != 0 ==> 0 < memory == |n| - p && IsPeriod(n, p) && Matched(h, n, j, 0, memory)
    ensures 0 <= shift <= |n| && (shift == 0 ==> n[|n| - 1] == h[j + |n| - 1])
    ensures NoneIn(h, n, 0, j + shift)
    ensures 0 < shift && memory != 0 ==> NoneIn(h, n, 0, j + (|n| - p))
  {
    TableShift(h, n, j, shift);
    if 0 < shift && memory != 0 {
      MemoryShift(h, n, j, p);
    }
  }

  lemma Recurs(n: seq<byte>, p: int, k: int)
    requires IsPeriod(n, p) && 0 <= k && k + p < |n|
    ensures n[k] == n[k + p]
  {
  }

  /** A byte of a periodic needle occurs in its last period; other bytes shift by the whole needle. */
  lemma FarShift(n: seq<byte>, c: byte, p: int, d: int)
    requires IsPeriod(n, p) && p <= |n| && TableEntry(n, c, d)
    ensures d < p || d == |n|
  {
    var k := |n| - 1 - d;
    if 0 <= k && k + p < |n| {
      Recurs(n, p, k);
    }
  }

  /** two_way_long_needle, the branch for a needle that is periodic as a whole. */
  method LongPeriodic(h: seq<byte>, n: seq<byte>, suffix: int, period: int, table: array<int>)
    returns (r: Option<int>, ghost comps: int)
    requires 0 < |n| <= |h| < TWO32 && Split(n, suffix, period) && IsPeriod(n, period)
    requires table.Length == 256 && forall c: byte :: EntryOk(n, table[..], c)
    ensures IsFirst(h, n, r)
    ensures 0 <= comps <= 2 * |h| - |n|
  {
    hide CriticalAt, IsLeastPeriod, IsPeriod, TableEntry;
    var memory, j := 0, 0;
    comps := 0;
    ShortLeft(n, suffix, period);
    while j <= |h| - |n|
      invariant 0 <= comps <= 2 * j + (if suffix < memory then memory - suffix else 0) && comps <= 2 * |h| - |n|
      invariant 0 <= j && 0 <= memory < |n| && NoneIn(h, n, 0, j)
      invariant memory != 0 ==> memory == |n| - period
      invariant j + |n| <= |h| ==> Matched(h, n, j, 0, memory)
      decreases |h| - j
    {
      var shift := table[h[j + |n| - 1] as int];
      assert EntryOk(n, table[..], h[j + |n| - 1]);
      LastByte(h, n, period, j, memory, shift);
      if 0 < shift {
        FarShift(n, h[j + |n| - 1], period, shift);
        if memory != 0 && shift < period {
          shift := |n| - period;
        }
        memory := 0;
        j := j + shift;
        continue;
      }
      var i := if suffix < memory then memory else suffix;
      ghost var start, before := i, comps;
      while i < |n| - 1 && n[i] == h[i + j]
        invariant suffix <= i <= |n| - 1 && memory <= i && Matched(h, n, j, suffix, i)
        invariant start <= i && comps == before + i - start
      {
        comps := comps + 1;
        i := i + 1;
      }
      if i < |n| - 1 {
        comps := comps + 1;
      }
      if |n| - 1 <= i {
        assert Matched(h, n, j, suffix, |n|);
        ghost var left;
        var found;
        found, left := ScanLeft(h, n, suffix, memory, j);
        comps := comps + left;
        if found {
          return Some(j), comps;
        }
        PeriodicStep(h, n, suffix, period, j, |n|);
        j := j + period;
        memory := |n| - period;
      } else {
        PeriodicStep(h, n, suffix, period, j, i);
        j := j + (i - suffix + 1);
        memory := 0;
      }
    }
    NoRoom(h, n, j);
    r := None;
  }

  /** two_way_long_needle, the branch for a needle whose halves are distinct. */
  method LongDistinct(h: seq<byte>, n: seq<byte>, suffix: int, period: int, table: array<int>)
    returns (r: Option<int>, ghost comps: int)
    requires 0 < |n| <= |h| < TWO32 && Split(n, suffix, period) && n[..suffix] != n[period..period + suffix]
    requires table.Length == 256 && forall c: byte :: EntryOk(n, table[..], c)
    ensures IsFirst(h, n, r)
    ensures 0 <= comps <= 2 * |h| - |n|
  {
    hide CriticalAt, IsLeastPeriod, IsPeriod, TableEntry;
    var farShift := (if suffix < |n| - suffix then |n| - suffix else suffix) + 1;
    var j := 0;
    comps := 0;
    while j <= |h| - |n|
      invariant 0 <= comps <= 2 * j && comps <= 2 * |h| - |n|
      invariant 0 <= j && NoneIn(h, n, 0, j)
      decreases |h| - j
    {
      var shift := table[h[j + |n| - 1] as int];
      assert EntryOk(n, table[..], h[j + |n| - 1]);
      LastByte(h, n, period, j, 0, shift);
      if 0 < shift {
        j := j + shift;
        continue;
      }
      var i := suffix;
      ghost var start, before := i, comps;
      while i < |n| - 1 && n[i] == h[i + j]
        invariant suffix <= i <= |n| - 1 && Matched(h, n, j, suffix, i)
        invariant start <= i && comps == before + i - start
      {
        comps := comps + 1;
        i := i + 1;
      }
      if i < |n| - 1 {
        comps := comps + 1;
      }
      if |n| - 1 <= i {
        assert Matched(h, n, j, suffix, |n|);
        ghost var left;
        var found;
        found, left := ScanLeft(h, n, suffix, 0, j);
        comps := comps + left;
        if found {
          return Some(j), comps;
        }
        DistinctStep(h, n, suffix, period, j, |n|);
        j := j + farShift;
      } else {
        DistinctStep(h, n, suffix, period, j, i);
        j := j + (i - suffix + 1);
      }
    }
    NoRoom(h, n, j);
    r := None;
  }

  /** two_way_long_needle; comps is the number of comparisons that the search makes. */
  method TwoWayLongNeedle(h: seq<byte>, n: seq<byte>) returns (r: Option<int>, ghost comps: int)
    requires 0 < |n| <= |h| < TWO32
    ensures IsFirst(h, n, r)
    ensures 0 <= comps <= 2 * |h| - |n|
  {
    ghost var before;
    var suffix, period;
    suffix, period, before := CriticalFactorization(n);
    PeriodFits(n, suffix, period);
    var table := ShiftTable(n);
    if n[..suffix] == n[period..period + suffix] {
      r, comps := LongPeriodic(h, n, suffix, period, table);
    } else {
      r, comps := LongDistinct(h, n, suffix, period, table);
    }
  }
}
