/**
 Words over bytes: periods, local repetitions and the two lexicographic orders
 on the suffixes of one word. These are the notions in which the Two-Way search
 states its critical factorization.
 */
module Words {
  type byte = bv8

  /** p is a period of n: shifting n by p places leaves the overlap unchanged. */
  ghost predicate IsPeriod(n: seq<byte>, p: int) {
    1 <= p && forall i, j | 0 <= i < j < |n| && j == i + p :: n[i] == n[j]
  }

  /** p is the smallest period of n. */
  ghost predicate IsLeastPeriod(n: seq<byte>, p: int) {
    IsPeriod(n, p) && forall q | IsPeriod(n, q) :: p <= q
  }

  /** A word of length q overlaps the cut at s from both sides: it shares a suffix
      with n[..s] and a prefix with n[s..]. */
  ghost predicate LocalRep(n: seq<byte>, s: int, q: int) {
    1 <= q && forall i, j | 0 <= i < s <= j < |n| && j == i + q :: n[i] == n[j]
  }

  /** q is the local period of n at the cut s. */
  ghost predicate IsLocalPeriod(n: seq<byte>, s: int, q: int) {
    LocalRep(n, s, q) && forall r | LocalRep(n, s, r) :: q <= r
  }

  /** Every repetition across the cut s is a period of the whole word, and is longer than the left half. */
  ghost predicate CriticalAt(n: seq<byte>, s: int) {
    forall q | LocalRep(n, s, q) :: IsPeriod(n, q) && s < q
  }

  /** Alphabet order, or its reverse. */
  predicate Lt(rev: bool, a: byte, b: byte) {
    if rev then b < a else a < b
  }

  /** The stretches of d letters at i and at m are equal. */
  ghost predicate Agree(n: seq<byte>, i: int, m: int, d: int)
    decreases d
  {
    0 <= d && 0 <= i && i + d <= |n| && 0 <= m && m + d <= |n| &&
    (d == 0 || (n[i] == n[m] && Agree(n, i + 1, m + 1, d - 1)))
  }

  /** The suffixes at i and m differ, the first difference is before e on the side of i, and
      the suffix at i is the smaller one there. */
  ghost predicate Below(n: seq<byte>, rev: bool, i: int, m: int, e: int)
    decreases e - i
  {
    0 <= i < e <= |n| && 0 <= m < |n| &&
    (Lt(rev, n[i], n[m]) || (n[i] == n[m] && Below(n, rev, i + 1, m + 1, e)))
  }

  /** The suffix at s is the lexicographically largest one. */
  ghost predicate IsMaxSuffix(n: seq<byte>, rev: bool, s: int) {
    && 0 <= s < |n|
    && (forall i | 0 <= i < s :: Below(n, rev, i, s, |n|))
    && (forall i | s < i < |n| :: Below(n, rev, i, s, |n|) || Agree(n, i, s, |n| - i))
  }

  lemma {:induction false} AgreeAt(n: seq<byte>, i: int, m: int, d: int, t: int)
    requires Agree(n, i, m, d) && 0 <= t < d
    ensures n[i + t] == n[m + t]
    decreases d
  {
    if t == 0 {
    } else {
      AgreeAt(n, i + 1, m + 1, d - 1, t - 1);
    }
  }

  lemma {:induction false} AgreeLess(n: seq<byte>, i: int, m: int, d: int, d': int)
    requires Agree(n, i, m, d) && 0 <= d' <= d
    ensures Agree(n, i, m, d')
    decreases d
  {
    if d' == 0 {
    } else {
      AgreeLess(n, i + 1, m + 1, d - 1, d' - 1);
    }
  }

  /** Below, spelled out: a common stretch of length d and then a smaller letter. */
  lemma {:induction false} BelowIntro(n: seq<byte>, rev: bool, i: int, m: int, d: int, e: int)
    requires Agree(n, i, m, d) && i + d < e <= |n| && m + d < |n| && Lt(rev, n[i + d], n[m + d])
    ensures Below(n, rev, i, m, e)
    decreases d
  {
    if d == 0 {
    } else {
      BelowIntro(n, rev, i + 1, m + 1, d - 1, e);
    }
  }

  lemma {:induction false} BelowElim(n: seq<byte>, rev: bool, i: int, m: int, e: int) returns (d: int)
    requires Below(n, rev, i, m, e)
    ensures Agree(n, i, m, d) && i + d < e && m + d < |n| && Lt(rev, n[i + d], n[m + d])
    decreases e - i
  {
    if n[i] == n[m] {
      d := BelowElim(n, rev, i + 1, m + 1, e);
      d := d + 1;
    } else {
      d := 0;
    }
  }

  lemma {:induction false} BelowTrans(n: seq<byte>, rev: bool, i: int, s: int, m: int, e: int)
    requires Below(n, rev, i, s, |n|) && Below(n, rev, s, m, e)
    ensures Below(n, rev, i, m, |n|)
    decreases e - s
  {
    if n[i] != n[s] || n[s] != n[m] {
    } else {
      BelowTrans(n, rev, i + 1, s + 1, m + 1, e);
    }
  }

  /** The order looks no further than the first difference. */
  lemma {:induction false} BelowPrefix(n: seq<byte>, rev: bool, i: int, m: int, len: int, i': int)
    requires Below(n, rev, i, m, i + len) && Agree(n, i', i, len)
    ensures Below(n, rev, i', m, i' + len)
    decreases len
  {
    if n[i] != n[m] {
    } else {
      BelowPrefix(n, rev, i + 1, m + 1, len - 1, i' + 1);
    }
  }

  lemma {:induction false} BelowMore(n: seq<byte>, rev: bool, i: int, m: int, e: int, e': int)
    requires Below(n, rev, i, m, e) && e <= e' <= |n|
    ensures Below(n, rev, i, m, e')
    decreases e - i
  {
    if n[i] != n[m] {
    } else {
      BelowMore(n, rev, i + 1, m + 1, e, e');
    }
  }

  /** A first difference rules out the opposite order and the prefix relation. */
  lemma {:induction false} BelowAsym(n: seq<byte>, rev: bool, i: int, m: int, e: int)
    requires Below(n, rev, i, m, e)
    ensures !Below(n, rev, m, i, |n|) && !Agree(n, m, i, |n| - m)
    decreases e - i
  {
    if n[i] != n[m] {
    } else {
      BelowAsym(n, rev, i + 1, m + 1, e);
    }
  }
}
