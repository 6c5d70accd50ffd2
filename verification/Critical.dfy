/**
 The critical factorization of lib/mylibc/string/str-two-way.h: two maximal-suffix
 searches, and the theorem that the shorter of the two maximal suffixes starts at a
 critical position.
 */
module Critical {
  import opened Common
  import opened Words

  const SIZE_MAX := TWO32 - 1

  /** 32-bit unsigned wrap-around. */
  function Wrap(x: int): (r: int)
    requires -TWO32 <= x < 2 * TWO32
    ensures 0 <= r < TWO32 && (r == x || r == x + TWO32 || r == x - TWO32)
  {
    if x < 0 then x + TWO32 else if x < TWO32 then x else x - TWO32
  }

  /** d is a multiple of p, as a count of whole blocks. */
  ghost predicate Mult(p: int, d: int)
    decreases d
  {
    1 <= p && (d == 0 || (p <= d && Mult(p, d - p)))
  }

  /** The stretch n[s..e] has period p. */
  ghost predicate PeriodIn(n: seq<byte>, s: int, e: int, p: int) {
    1 <= p && forall i, j | 0 <= s <= i < j < e <= |n| && j == i + p :: n[i] == n[j]
  }

  /** Every proper suffix of the block n[s..e] is smaller than the block, inside the block. */
  ghost predicate Dominant(n: seq<byte>, rev: bool, s: int, e: int) {
    forall i | s < i < e :: Below(n, rev, i, s, e)
  }

  lemma Decompose(p: int, x: int) returns (c: int)
    requires 1 <= p && 0 <= x
    ensures 0 <= c < p && c <= x && Mult(p, x - c)
    decreases x
  {
    if x < p {
      c := x;
    } else {
      c := Decompose(p, x - p);
    }
  }

  lemma {:induction false} RepeatBlock(n: seq<byte>, s: int, e: int, p: int, x: int, d: int)
    requires PeriodIn(n, s, e, p) && Mult(p, d)
    requires 0 <= s <= x && 0 <= d && x + d < e <= |n|
    ensures n[x] == n[x + d]
    decreases d
  {
    if d == 0 {
    } else {
      RepeatBlock(n, s, e, p, x, d - p);
      assert n[x + d - p] == n[x + d];
    }
  }

  lemma {:induction false} MultSum(p: int, d: int, f: int)
    requires Mult(p, d) && Mult(p, f) && 0 <= d && 0 <= f
    ensures Mult(p, d + f)
    decreases f
  {
    if f == 0 {
    } else {
      MultSum(p, d, f - p);
      assert d + f - p == d + (f - p);
    }
  }

  /** In the repeated stretch, the suffix at i starts like the one at x when they are whole blocks apart. */
  lemma {:induction false} RepeatAgree(n: seq<byte>, s: int, e: int, p: int, x: int, i: int, len: int)
    requires PeriodIn(n, s, e, p) && 0 <= s <= x <= i && Mult(p, i - x)
    requires 0 <= len && i + len <= e <= |n|
    ensures Agree(n, i, x, len)
    decreases len
  {
    if len == 0 {
    } else {
      RepeatBlock(n, s, e, p, x, i - x);
      RepeatAgree(n, s, e, p, x + 1, i + 1, len - 1);
    }
  }

  /** What the scan knows of the candidate n[s..]: the block n[s..s+p] repeats up to e = m + o,
      dominates its own suffixes, and every earlier suffix is smaller than n[s..]. */
  ghost predicate Scan(n: seq<byte>, rev: bool, s: int, m: int, o: int, p: int) {
    && 0 <= s && s + p <= m && 0 <= o < p && m + o <= |n|
    && Mult(p, m - s)
    && PeriodIn(n, s, m + o, p)
    && Dominant(n, rev, s, s + p)
    && (forall i | 0 <= i < s :: Below(n, rev, i, s, |n|))
  }

  /** The next byte continues the repetition. */
  lemma StepEqual(n: seq<byte>, rev: bool, s: int, m: int, o: int, p: int)
    requires Scan(n, rev, s, m, o, p) && m + o < |n| && n[m + o] == n[s + o]
    ensures if o + 1 < p then Scan(n, rev, s, m, o + 1, p) else Scan(n, rev, s, m + p, 0, p)
  {
    if m - s != p {
      RepeatBlock(n, s, m + o, p, s + o, m - p - s);
    }
    assert n[m + o - p] == n[m + o];
  }

  lemma {:induction false} MultMinus(p: int, d: int, f: int)
    requires Mult(p, d) && Mult(p, f) && 0 <= f <= d
    ensures Mult(p, d - f)
    decreases d
  {
    if f == 0 {
    } else {
      MultMinus(p, d - p, f - p);
      assert d - p - (f - p) == d - f;
    }
  }

  /** Two different multiples of p are at least p apart. */
  lemma {:induction false} MultPast(p: int, d: int, f: int)
    requires Mult(p, d) && Mult(p, f) && 0 <= d && 0 <= f
    ensures f <= d || d + p <= f
    decreases d
  {
    if d == 0 || f == 0 {
    } else {
      MultPast(p, d - p, f - p);
    }
  }

  /** A copy of the block is beaten at the place where the next byte breaks the repetition. */
  lemma CopyBreaks(n: seq<byte>, rev: bool, s: int, m: int, o: int, p: int, i: int)
    requires 0 <= s && 1 <= p && 0 <= o && m + o < |n| && PeriodIn(n, s, m + o, p)
    requires s < i <= m && Mult(p, i - s) && Mult(p, m - s)
    requires Lt(rev, n[m + o], n[s + o])
    ensures Below(n, rev, i, s, m + o + 1)
  {
    var d := m + o - i;
    RepeatAgree(n, s, m + o, p, s, i, d);
    MultMinus(p, m - s, i - s);
    RepeatBlock(n, s, m + o, p, s + o, m - i);
    BelowIntro(n, rev, i, s, d, m + o + 1);
  }

  /** A suffix that starts inside a copy of the block stays smaller than n[s..] when the next byte is smaller. */
  lemma SmallerFromBlock(n: seq<byte>, rev: bool, s: int, m: int, o: int, p: int, r: int, i: int)
    requires Scan(n, rev, s, m, o, p) && m + o < |n| && Lt(rev, n[m + o], n[s + o])
    requires 0 < r < p && s + r <= i <= m + o && Mult(p, i - (s + r))
    ensures Below(n, rev, i, s, m + o + 1)
  {
    var e := m + o;
    var d := BelowElim(n, rev, s + r, s, s + p);
    if i + d < e {
      RepeatAgree(n, s, e, p, s + r, i, d + 1);
      BelowIntro(n, rev, s + r, s, d, s + r + d + 1);
      BelowPrefix(n, rev, s + r, s, d + 1, i);
      BelowMore(n, rev, i, s, i + d + 1, e + 1);
    } else {
      TailOfBlock(n, rev, s, m, o, p, r, i, d);
    }
  }

  /** Such a suffix that ties with n[s..] up to the next byte starts in the unfinished copy. */
  lemma TailOfBlock(n: seq<byte>, rev: bool, s: int, m: int, o: int, p: int, r: int, i: int, d: int)
    requires 0 <= s && s + p <= m && 0 <= o < p && m + o < |n| && Mult(p, m - s) && PeriodIn(n, s, m + o, p)
    requires 0 < r && r + d < p && s + r <= i <= m + o <= i + d && Mult(p, i - (s + r))
    requires Lt(rev, n[m + o], n[s + o])
    requires Agree(n, s + r, s, d) && Lt(rev, n[s + r + d], n[s + d])
    ensures Below(n, rev, i, s, m + o + 1)
  {
    var t, b := m + o - i, i - r;
    assert b - s == i - (s + r);
    MultPast(p, m - s, b - s);
    MultPast(p, b - s, m - s);
    assert r + t == o;
    AgreeLess(n, s + r, s, d, t);
    if t < d {
      AgreeAt(n, s + r, s, d, t);
    }
    assert Lt(rev, n[m + o], n[s + t]);
    RepeatAgree(n, s, m + o, p, s + r, i, t);
    AgreeTrans(n, i, s + r, s, t);
    BelowIntro(n, rev, i, s, t, m + o + 1);
  }

  lemma {:induction false} AgreeTrans(n: seq<byte>, i: int, x: int, m: int, d: int)
    requires Agree(n, i, x, d) && Agree(n, x, m, d)
    ensures Agree(n, i, m, d)
    decreases d
  {
    if d == 0 {
    } else {
      AgreeTrans(n, i + 1, x + 1, m + 1, d - 1);
    }
  }

  lemma BlockStaysDominant(n: seq<byte>, rev: bool, s: int, m: int, o: int, p: int, i: int)
    requires Scan(n, rev, s, m, o, p) && m + o < |n| && Lt(rev, n[m + o], n[s + o])
    requires s < i <= m + o
    ensures Below(n, rev, i, s, m + o + 1)
  {
    var r := Decompose(p, i - s);
    assert i - (s + r) == i - s - r;
    if r == 0 {
      MultPast(p, m - s, i - s);
      CopyBreaks(n, rev, s, m, o, p, i);
    } else {
      SmallerFromBlock(n, rev, s, m, o, p, r, i);
    }
  }

  /** The next byte is smaller: the whole stretch read so far becomes the block. */
  lemma StepSmaller(n: seq<byte>, rev: bool, s: int, m: int, o: int, p: int)
    requires Scan(n, rev, s, m, o, p) && m + o < |n| && Lt(rev, n[m + o], n[s + o])
    ensures Scan(n, rev, s, m + o + 1, 0, m + o + 1 - s)
  {
    var e := m + o + 1;
    forall i | s < i < e
      ensures Below(n, rev, i, s, e)
    {
      BlockStaysDominant(n, rev, s, m, o, p, i);
    }
    var q := e - s;
    assert Mult(q, q);
  }

  /** The next byte is larger: the candidate, and all suffixes before m with it, lose to the suffix at m. */
  lemma StepLarger(n: seq<byte>, rev: bool, s: int, m: int, o: int, p: int)
    requires Scan(n, rev, s, m, o, p) && m + o < |n| && Lt(rev, n[s + o], n[m + o])
    ensures Scan(n, rev, m, m + 1, 0, 1)
  {
    assert Mult(1, 1);
    RepeatAgree(n, s, m + o, p, s, m, o);
    AgreeSym(n, m, s, o);
    BelowIntro(n, rev, s, m, o, s + o + 1);
    forall i | 0 <= i < m
      ensures Below(n, rev, i, m, |n|)
    {
      if i < s {
        BelowTrans(n, rev, i, s, m, s + o + 1);
      } else {
        InBlockLoses(n, rev, s, m, o, p, i);
      }
    }
  }

  lemma {:induction false} AgreeSym(n: seq<byte>, i: int, m: int, d: int)
    requires Agree(n, i, m, d)
    ensures Agree(n, m, i, d)
    decreases d
  {
    if d == 0 {
    } else {
      AgreeSym(n, i + 1, m + 1, d - 1);
    }
  }

  lemma InBlockLoses(n: seq<byte>, rev: bool, s: int, m: int, o: int, p: int, i: int)
    requires Scan(n, rev, s, m, o, p) && m + o < |n| && Below(n, rev, s, m, s + o + 1) && s <= i < m
    ensures Below(n, rev, i, m, |n|)
  {
    var r := Decompose(p, i - s);
    assert i - (s + r) == i - s - r;
    MultPast(p, i - r - s, m - s);
    if r == 0 {
      RepeatAgree(n, s, m + o, p, s, i, o + 1);
      BelowPrefix(n, rev, s, m, o + 1, i);
      BelowMore(n, rev, i, m, i + o + 1, |n|);
    } else {
      InsideCopy(n, rev, s, m, o, p, r, i);
      BelowTrans(n, rev, i, s, m, s + o + 1);
    }
  }

  /** A suffix that starts inside a finished copy of the block is smaller than n[s..]. */
  lemma InsideCopy(n: seq<byte>, rev: bool, s: int, m: int, o: int, p: int, r: int, i: int)
    requires Scan(n, rev, s, m, o, p)
    requires 0 < r < p && s + r <= i && Mult(p, i - (s + r)) && i - r + p <= m + o
    ensures Below(n, rev, i, s, |n|)
  {
    RepeatAgree(n, s, m + o, p, s + r, i, p - r);
    BelowPrefix(n, rev, s + r, s, p - r, i);
    BelowMore(n, rev, i, s, i + p - r, |n|);
  }

  /** At the end of the word the candidate is the largest suffix ... */
  lemma ScanEndsMax(n: seq<byte>, rev: bool, s: int, m: int, o: int, p: int)
    requires Scan(n, rev, s, m, o, p) && m + o == |n|
    ensures IsMaxSuffix(n, rev, s)
  {
    forall i | s < i < |n|
      ensures Below(n, rev, i, s, |n|) || Agree(n, i, s, |n| - i)
    {
      var r := Decompose(p, i - s);
      assert i - (s + r) == i - s - r;
      if r == 0 {
        RepeatAgree(n, s, |n|, p, s, i, |n| - i);
      } else {
        PartialCopy(n, rev, s, m, o, p, r, i);
      }
    }
  }

  lemma PartialCopy(n: seq<byte>, rev: bool, s: int, m: int, o: int, p: int, r: int, i: int)
    requires Scan(n, rev, s, m, o, p) && m + o == |n|
    requires 0 < r < p && s + r <= i < |n| && Mult(p, i - (s + r))
    ensures Below(n, rev, i, s, |n|) || Agree(n, i, s, |n| - i)
  {
    hide PeriodIn, Mult, Agree, Below;
    var d := BelowElim(n, rev, s + r, s, s + p);
    if i + d < |n| {
      RepeatAgree(n, s, |n|, p, s + r, i, d + 1);
      BelowIntro(n, rev, s + r, s, d, s + r + d + 1);
      BelowPrefix(n, rev, s + r, s, d + 1, i);
      BelowMore(n, rev, i, s, i + d + 1, |n|);
    } else {
      RepeatAgree(n, s, |n|, p, s + r, i, |n| - i);
      AgreeLess(n, s + r, s, d, |n| - i);
      AgreeTrans(n, i, s + r, s, |n| - i);
    }
  }

  /** ... and p its smallest period. */
  lemma ScanEndsPeriod(n: seq<byte>, rev: bool, s: int, m: int, o: int, p: int)
    requires Scan(n, rev, s, m, o, p) && m + o == |n|
    ensures IsLeastPeriod(n[s..], p)
  {
    var v := n[s..];
    forall i, j | 0 <= i < j < |v| && j == i + p
      ensures v[i] == v[j]
    {
      assert n[s + i] == n[s + j];
    }
    forall q | 1 <= q < p
      ensures !IsPeriod(v, q)
    {
      var d := BelowElim(n, rev, s + q, s, s + p);
      assert v[q + d] != v[d];
    }
  }

  lemma ScanStart(n: seq<byte>, rev: bool)
    requires 0 < |n|
    ensures Scan(n, rev, 0, 1, 0, 1)
  {
    assert Mult(1, 1);
  }

  /** Comparing the next byte keeps the scan, whichever way the comparison goes. */
  lemma ScanStep(n: seq<byte>, rev: bool, s: int, j: int, k: int, p: int)
    requires Scan(n, rev, s, j + 1, k - 1, p) && j + k < |n|
    ensures var a, b := n[j + k], n[s - 1 + k];
            if Lt(rev, a, b) then Scan(n, rev, s, j + k + 1, 0, j + k + 1 - s)
            else if a != b then Scan(n, rev, j + 1, j + 2, 0, 1)
            else if k != p then Scan(n, rev, s, j + 1, k, p)
            else Scan(n, rev, s, j + p + 1, 0, p)
  {
    var a, b := n[j + k], n[s - 1 + k];
    if Lt(rev, a, b) {
      StepSmaller(n, rev, s, j + 1, k - 1, p);
    } else if a == b {
      StepEqual(n, rev, s, j + 1, k - 1, p);
    } else {
      StepLarger(n, rev, s, j + 1, k - 1, p);
    }
  }

  /** How many pairs of bytes the scan compares from here on, when the largest suffix so far begins at s. */
  function ScanCount(n: seq<byte>, rev: bool, s: int, j: int, k: int, p: int): nat
    requires 0 <= s <= j && 1 <= k <= p
    decreases |n| - s, |n| - (j + k)
  {
    if |n| <= j + k || |n| < s + k then 0
    else
      var a, b := n[j + k], n[s + k - 1];
      1 + if Lt(rev, a, b) then ScanCount(n, rev, s, j + k, 1, j + k + 1 - s)
          else if a != b then ScanCount(n, rev, j + 1, j + 1, 1, 1)
          else if k != p then ScanCount(n, rev, s, j, k + 1, p)
          else ScanCount(n, rev, s, j + p, 1, p)
  }

  lemma CountStep(n: seq<byte>, rev: bool, s: int, j: int, k: int, p: int)
    requires 0 <= s <= j && 1 <= k <= p && j + k <= |n|
    ensures j + k == |n| ==> ScanCount(n, rev, s, j, k, p) == 0
    ensures j + k < |n| ==> s + k <= |n| && var a, b := n[j + k], n[s + k - 1];
              ScanCount(n, rev, s, j, k, p)
              == 1 + if Lt(rev, a, b) then ScanCount(n, rev, s, j + k, 1, j + k + 1 - s)
                     else if a != b then ScanCount(n, rev, j + 1, j + 1, 1, 1)
                     else if k != p then ScanCount(n, rev, s, j, k + 1, p)
                     else ScanCount(n, rev, s, j + p, 1, p)
  {
  }

  function Comparisons(n: seq<byte>, rev: bool): nat {
    ScanCount(n, rev, 0, 0, 1, 1)
  }

  /** Every comparison moves the places that are compared, or the start of the suffix, onwards. */
  lemma {:induction false} ScanBound(n: seq<byte>, rev: bool, s: int, j: int, k: int, p: int)
    requires 0 <= s <= j && 1 <= k <= p <= j + 1 - s && j + k <= |n|
    ensures ScanCount(n, rev, s, j, k, p) <= 2 * |n| - 1 - (s + j + k)
    decreases |n| - s, |n| - (j + k)
  {
    if |n| == j + k {
    } else {
      var a, b := n[j + k], n[s + k - 1];
      if Lt(rev, a, b) {
        ScanBound(n, rev, s, j + k, 1, j + k + 1 - s);
      } else if a != b {
        ScanBound(n, rev, j + 1, j + 1, 1, 1);
      } else if k != p {
        ScanBound(n, rev, s, j, k + 1, p);
      } else {
        ScanBound(n, rev, s, j + p, 1, p);
      }
    }
  }

  /** Both scans together take fewer than 4 * |n| comparisons. */
  lemma FactorizationBound(n: seq<byte>)
    requires 0 < |n|
    ensures Comparisons(n, false) + Comparisons(n, true) <= 4 * |n| - 4
  {
    ScanBound(n, false, 0, 0, 1, 1);
    ScanBound(n, true, 0, 0, 1, 1);
  }

  /** But they may take more than 2 * |n|. */
  lemma MoreThanTwice(n: seq<byte>)
    requires n == [0, 1, 0, 0, 1, 0, 1]
    ensures Comparisons(n, false) + Comparisons(n, true) == 15 > 2 * |n|
  {
    // the order of the bytes, from the last comparison to the first
    assert ScanCount(n, false, 4, 5, 1, 2) == 1;
    assert ScanCount(n, false, 4, 4, 1, 1) == 2;
    assert ScanCount(n, false, 1, 3, 3, 3) == 3;
    assert ScanCount(n, false, 1, 3, 2, 3) == 4;
    assert ScanCount(n, false, 1, 3, 1, 3) == 5;
    assert ScanCount(n, false, 1, 2, 1, 2) == 6;
    assert ScanCount(n, false, 1, 1, 1, 1) == 7;
    assert ScanCount(n, false, 0, 0, 1, 1) == 8;
    // the reverse order, from the last comparison to the first
    assert ScanCount(n, true, 2, 4, 2, 3) == 1;
    assert ScanCount(n, true, 2, 4, 1, 3) == 2;
    assert ScanCount(n, true, 2, 3, 1, 1) == 3;
    assert ScanCount(n, true, 2, 2, 1, 1) == 4;
    assert ScanCount(n, true, 0, 1, 2, 2) == 5;
    assert ScanCount(n, true, 0, 1, 1, 2) == 6;
    assert ScanCount(n, true, 0, 0, 1, 1) == 7;
  }

  /** One of the two scans of critical_factorization: the largest suffix in the chosen order,
      as the index of the last byte before it, and the period of that suffix. */
  method MaximalSuffix(needle: seq<byte>, rev: bool) returns (maxSuffix: int, p: int, ghost comps: int)
    requires 0 < |needle| < TWO32
    ensures 0 <= maxSuffix < TWO32 && 1 <= p
    ensures IsMaxSuffix(needle, rev, Wrap(maxSuffix + 1))
    ensures IsLeastPeriod(needle[Wrap(maxSuffix + 1)..], p)
    ensures comps == Comparisons(needle, rev)
  {
    hide PeriodIn, Mult, Dominant, ScanCount;
    comps := 0;
    maxSuffix := SIZE_MAX;
    var j, k := 0, 1;
    p := 1;
    ghost var s := 0;
    ScanStart(needle, rev);
    while j + k < |needle|
      invariant 0 <= s <= j && 1 <= k <= p && j + k <= |needle| && maxSuffix == Wrap(s - 1)
      invariant Scan(needle, rev, s, j + 1, k - 1, p)
      invariant comps + ScanCount(needle, rev, s, j, k, p) == Comparisons(needle, rev)
      decreases |needle| - s, |needle| - (j + k)
    {
      ScanStep(needle, rev, s, j, k, p);
      CountStep(needle, rev, s, j, k, p);
      var a, b := needle[j + k], needle[Wrap(maxSuffix + k)];
      comps := comps + 1;
      if Lt(rev, a, b) {
        j := j + k;
        k := 1;
        p := Wrap(j - maxSuffix);
      } else if a == b {
        if k != p {
          k := k + 1;
        } else {
          j := j + p;
          k := 1;
        }
      } else {
        maxSuffix := j;
        j := j + 1;
        k, p := 1, 1;
        s := maxSuffix + 1;
      }
    }
    CountStep(needle, rev, s, j, k, p);
    ScanEndsMax(needle, rev, s, j + 1, k - 1, p);
    ScanEndsPeriod(needle, rev, s, j + 1, k - 1, p);
  }

  /** A repetition across the start of the largest suffix is longer than the left half:
      otherwise the suffix q places earlier would be at least as large. */
  lemma RepLongerThanLeft(n: seq<byte>, rev: bool, s: int, q: int)
    requires IsMaxSuffix(n, rev, s) && LocalRep(n, s, q)
    ensures s < q
  {
    if q <= s {
      assert Below(n, rev, s - q, s, |n|);
      SkipRep(n, rev, s, q, 0);
      BelowAsym(n, rev, s, s + q, |n|);
      assert false;
    }
  }

  /** The first difference of the suffixes at s - q and s lies past the repetition, so it also
      separates the suffixes at s and s + q. */
  lemma {:induction false} SkipRep(n: seq<byte>, rev: bool, s: int, q: int, t: int)
    requires LocalRep(n, s, q) && 0 <= t <= q <= s && Below(n, rev, s - q + t, s + t, |n|)
    ensures s + q < |n| && Below(n, rev, s, s + q, |n|)
    decreases q - t
  {
    if q <= t {
    } else {
      assert n[s - q + t] == n[s + t];
      SkipRep(n, rev, s, q, t + 1);
    }
  }

  /** A repetition that stays inside the right half is a period of the right half: the right
      half is maximal in one order, and in the other order the suffix at r <= s is. */
  lemma RepIsRightPeriod(n: seq<byte>, rev: bool, s: int, r: int, q: int)
    requires IsMaxSuffix(n, rev, s) && IsMaxSuffix(n, !rev, r) && r <= s
    requires LocalRep(n, s, q) && s < q && s + q < |n|
    ensures Agree(n, s + q, s, |n| - (s + q))
  {
    if Below(n, rev, s + q, s, |n|) {
      BelowFlip(n, rev, s + q, s, |n|);
      PrependRep(n, !rev, s, q, r);
      BelowAsym(n, !rev, r, r + q, |n|);
      assert false;
    }
  }

  /** Being smaller in one order is being larger in the other. */
  lemma {:induction false} BelowFlip(n: seq<byte>, rev: bool, i: int, m: int, e: int)
    requires Below(n, rev, i, m, e)
    ensures Below(n, !rev, m, i, |n|)
    decreases e - i
  {
    if n[i] != n[m] {
    } else {
      BelowFlip(n, rev, i + 1, m + 1, e);
    }
  }

  /** Prepending the same letters n[r..s] on both sides keeps the first difference. */
  lemma {:induction false} PrependRep(n: seq<byte>, rev: bool, s: int, q: int, r: int)
    requires LocalRep(n, s, q) && 0 <= r <= s < q && Below(n, rev, s, s + q, |n|)
    ensures Below(n, rev, r, r + q, |n|)
    decreases s - r
  {
    if s <= r {
    } else {
      PrependRep(n, rev, s, q, r + 1);
      assert n[r] == n[r + q];
    }
  }

  /** The critical factorization theorem, in the form the search needs: at the later start of the
      two largest suffixes every repetition is a period of the whole word, longer than the left half. */
  lemma LaterMaxSuffixIsCritical(n: seq<byte>, rev: bool, s: int, r: int)
    requires IsMaxSuffix(n, rev, s) && IsMaxSuffix(n, !rev, r) && r <= s
    ensures CriticalAt(n, s)
  {
    forall q | LocalRep(n, s, q)
      ensures IsPeriod(n, q) && s < q
    {
      RepLongerThanLeft(n, rev, s, q);
      if s + q < |n| {
        RepIsRightPeriod(n, rev, s, r, q);
        forall i, j | s <= i < j < |n| && j == i + q
          ensures n[i] == n[j]
        {
          AgreeAt(n, s + q, s, |n| - (s + q), i - s);
        }
      }
    }
  }

  /** At such a cut the local period and the period of the word are the same number, above s. */
  lemma CriticalPeriods(n: seq<byte>, s: int, q: int)
    requires CriticalAt(n, s)
    ensures IsLocalPeriod(n, s, q) <==> IsLeastPeriod(n, q)
    ensures IsLeastPeriod(n, q) ==> s < q
  {
    assert forall r :: IsPeriod(n, r) ==> LocalRep(n, s, r);
  }

  /** comps is the number of comparisons. */
  method CriticalFactorization(needle: seq<byte>) returns (suffix: int, period: int, ghost comps: int)
    requires 0 < |needle| < TWO32
    ensures 0 <= suffix < |needle|
    ensures CriticalAt(needle, suffix)
    ensures forall q :: IsLocalPeriod(needle, suffix, q) <==> IsLeastPeriod(needle, q)
    ensures forall q | IsLeastPeriod(needle, q) :: suffix < q
    ensures IsLeastPeriod(needle[suffix..], period)
    ensures comps == Comparisons(needle, false) + Comparisons(needle, true) <= 4 * |needle| - 4
  {
    hide Comparisons;
    ghost var comps1, comps2;
    var maxSuffix, p, maxSuffixRev, pRev;
    maxSuffix, p, comps1 := MaximalSuffix(needle, false);
    maxSuffixRev, pRev, comps2 := MaximalSuffix(needle, true);
    comps := comps1 + comps2;
    FactorizationBound(needle);
    if Wrap(maxSuffixRev + 1) < Wrap(maxSuffix + 1) {
      suffix, period := Wrap(maxSuffix + 1), p;
      LaterMaxSuffixIsCritical(needle, false, suffix, Wrap(maxSuffixRev + 1));
    } else {
      suffix, period := Wrap(maxSuffixRev + 1), pRev;
      LaterMaxSuffixIsCritical(needle, true, suffix, Wrap(maxSuffix + 1));
    }
    forall q
      ensures IsLocalPeriod(needle, suffix, q) <==> IsLeastPeriod(needle, q)
      ensures IsLeastPeriod(needle, q) ==> suffix < q
    {
      CriticalPeriods(needle, suffix, q);
    }
  }
}
