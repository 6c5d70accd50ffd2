/**
 The arena of lib/mylibc/stdlib/malloc.c as a tiling: chunks that cover the memory from the first
 chunk up to the break, each in use, free, or the top chunk. The seven moves below are all the ways
 in which malloc, free, realloc, memalign and malloc_trim change it.
 */
module Chunks {
  const MINSIZE := 16
  const ALIGN := 8

  /** size holds every chunk, top included; prev is the chunk just below, for all but the first. */
  datatype Tiles = Tiles(base: int, top: int, size: map<int, int>, prev: map<int, int>, free: set<int>)
  {
    ghost function End(p: int): int
      requires p in size
    {
      p + size[p]
    }
  }

  ghost predicate Sized(t: Tiles) {
    forall p | p in t.size :: t.base <= p <= t.top && MINSIZE <= t.size[p]
  }

  ghost predicate Aligned(t: Tiles) {
    forall p | p in t.size :: p % ALIGN == 0 && t.size[p] % ALIGN == 0
  }

  /** Where a chunk ends the next one begins. */
  ghost predicate NextLinked(t: Tiles) {
    forall p, n | p in t.size && p != t.top && n == p + t.size[p] :: n in t.prev && t.prev[n] == p
  }

  ghost predicate PrevLinked(t: Tiles) {
    && t.prev.Keys == t.size.Keys - {t.base}
    && forall p | p in t.prev :: t.prev[p] in t.size && t.prev[p] + t.size[t.prev[p]] == p
  }

  ghost predicate Disjoint(t: Tiles) {
    forall p, q | p in t.size && q in t.size && p < q :: p + t.size[p] <= q
  }

  /** The chunks cover base..brk exactly, without overlap. */
  ghost predicate Covers(t: Tiles, brk: int) {
    && t.base in t.size && t.top in t.size && t.End(t.top) == brk
    && Sized(t) && Aligned(t) && NextLinked(t) && PrevLinked(t) && Disjoint(t)
  }

  /** No two free chunks touch, and none touches top. */
  ghost predicate Coalesced(t: Tiles) {
    && t.free <= t.size.Keys && t.top !in t.free
    && forall f | f in t.free :: t.End(f) !in t.free && t.End(f) != t.top
  }

  /** A chunk handed out to the caller. */
  predicate Live(t: Tiles, p: int) {
    p in t.size && p !in t.free && p != t.top
  }

  function Take(t: Tiles, p: int): Tiles {
    t.(free := t.free - {p})
  }

  function Release(t: Tiles, p: int): Tiles {
    t.(free := t.free + {p})
  }

  /** Cut the chunk p in two; the part at p + n has the same use as the rest of p had. */
  function Cut(t: Tiles, p: int, n: int): Tiles
    requires p in t.size && p != t.top
  {
    t.(size := t.size[p := n][p + n := t.size[p] - n], prev := t.prev[p + n := p][p + t.size[p] := p + n])
  }

  function CutTop(t: Tiles, n: int): Tiles
    requires t.top in t.size
  {
    t.(top := t.top + n, size := t.size[t.top := n][t.top + n := t.size[t.top] - n], prev := t.prev[t.top + n := t.top])
  }

  /** Join p with the chunk above it, into one chunk in use. */
  function Absorb(t: Tiles, p: int): Tiles
    requires p in t.size && p + t.size[p] in t.size
  {
    var n := p + t.size[p];
    t.(size := (t.size - {n})[p := t.size[p] + t.size[n]], prev := (t.prev - {n})[n + t.size[n] := p],
        free := t.free - {p, n})
  }

  /** Join p with top. */
  function AbsorbTop(t: Tiles, p: int): Tiles
    requires p in t.size && t.top in t.size
  {
    t.(top := p, size := (t.size - {t.top})[p := t.size[p] + t.size[t.top]], prev := t.prev - {t.top},
        free := t.free - {p})
  }

  function ResizeTop(t: Tiles, n: int): Tiles {
    t.(size := t.size[t.top := n])
  }

  lemma CutCovers(t: Tiles, brk: int, p: int, n: int)
    requires Covers(t, brk) && p in t.size && p != t.top
    requires n % ALIGN == 0 && MINSIZE <= n && n + MINSIZE <= t.size[p]
    ensures Covers(Cut(t, p, n), brk)
  {
    hide NextLinked, PrevLinked, Disjoint, Sized, Aligned;
    CutIsNew(t, p, n);
    CutNext(t, p, n);
    CutPrev(t, p, n);
    CutDisjoint(t, p, n);
    CutSized(t, p, n);
    CutAligned(t, p, n);
    assert t.End(p) > p + n;
  }

  lemma CutSized(t: Tiles, p: int, n: int)
    requires Sized(t) && Disjoint(t) && p in t.size && p != t.top && t.top in t.size
    requires MINSIZE <= n && n + MINSIZE <= t.size[p]
    ensures Sized(Cut(t, p, n))
  {
  }

  lemma CutAligned(t: Tiles, p: int, n: int)
    requires Aligned(t) && p in t.size && p != t.top && n % ALIGN == 0
    ensures Aligned(Cut(t, p, n))
  {
    assert p % ALIGN == 0 && t.size[p] % ALIGN == 0;
  }

  lemma CutIsNew(t: Tiles, p: int, n: int)
    requires p in t.size && Disjoint(t) && Sized(t) && 0 < n < t.size[p]
    ensures p + n !in t.size
    ensures p != t.top && t.top in t.size ==> p + t.size[p] <= t.top
  {
  }

  lemma CutNext(t: Tiles, p: int, n: int)
    requires p in t.size && p != t.top && NextLinked(t) && PrevLinked(t) && 0 < n < t.size[p] && p + n !in t.size
    ensures NextLinked(Cut(t, p, n))
  {
    hide NextLinked, PrevLinked;
    var t' := Cut(t, p, n);
    NextIn(t, p);
    forall x, y | x in t'.size && x != t'.top && y == x + t'.size[x]
      ensures y in t'.prev && t'.prev[y] == x
    {
      if x != p && x != p + n {
        NextIn(t, x);
      }
    }
    NextIntro(t');
  }

  lemma NextIntro(t: Tiles)
    requires forall x, y | x in t.size && x != t.top && y == x + t.size[x] :: y in t.prev && t.prev[y] == x
    ensures NextLinked(t)
  {
  }

  lemma PrevIntro(t: Tiles)
    requires t.prev.Keys == t.size.Keys - {t.base}
    requires forall x | x in t.prev :: t.prev[x] in t.size && t.prev[x] + t.size[t.prev[x]] == x
    ensures PrevLinked(t)
  {
  }

  lemma PrevOf(t: Tiles, x: int)
    requires PrevLinked(t) && x in t.prev
    ensures t.prev[x] in t.size && t.prev[x] + t.size[t.prev[x]] == x && x in t.size && x != t.base
  {
  }

  lemma PrevKeys(t: Tiles)
    requires PrevLinked(t)
    ensures t.prev.Keys == t.size.Keys - {t.base}
  {
  }

  lemma CutPrev(t: Tiles, p: int, n: int)
    requires p in t.size && p != t.top && t.base in t.size
    requires NextLinked(t) && PrevLinked(t) && 0 < n < t.size[p] && p + n !in t.size
    ensures PrevLinked(Cut(t, p, n))
  {
    hide NextLinked, PrevLinked;
    var t' := Cut(t, p, n);
    NextIn(t, p);
    PrevKeys(t);
    forall x | x in t'.prev
      ensures t'.prev[x] in t'.size && t'.prev[x] + t'.size[t'.prev[x]] == x
    {
      if x != p + n && x != p + t.size[p] {
        PrevOf(t, x);
      }
    }
    PrevIntro(t');
  }

  lemma CutDisjoint(t: Tiles, p: int, n: int)
    requires p in t.size && p != t.top && Disjoint(t) && 0 < n < t.size[p] && p + n !in t.size
    ensures Disjoint(Cut(t, p, n))
  {
  }

  lemma CutTopCovers(t: Tiles, brk: int, n: int)
    requires Covers(t, brk)
    requires n % ALIGN == 0 && MINSIZE <= n && n + MINSIZE <= t.size[t.top]
    ensures Covers(CutTop(t, n), brk)
  {
    hide NextLinked, PrevLinked;
    CutIsNew(t, t.top, n);
    CutTopNext(t, n);
    CutTopPrev(t, n);
  }

  lemma CutTopNext(t: Tiles, n: int)
    requires t.top in t.size && NextLinked(t) && PrevLinked(t) && Disjoint(t) && 0 < n < t.size[t.top]
             && t.top + n !in t.size
    ensures NextLinked(CutTop(t, n))
  {
    hide NextLinked, PrevLinked, Disjoint;
    var t' := CutTop(t, n);
    forall x, y | x in t'.size && x != t'.top && y == x + t'.size[x]
      ensures y in t'.prev && t'.prev[y] == x
    {
      if x != t.top {
        NextIn(t, x);
      }
    }
    NextIntro(t');
  }

  lemma CutTopPrev(t: Tiles, n: int)
    requires t.top in t.size && t.base in t.size && PrevLinked(t) && 0 < n < t.size[t.top] && t.top + n !in t.size
    requires Sized(t)
    ensures PrevLinked(CutTop(t, n))
  {
    hide PrevLinked, Sized;
    var t' := CutTop(t, n);
    PrevKeys(t);
    forall x | x in t'.prev
      ensures t'.prev[x] in t'.size && t'.prev[x] + t'.size[t'.prev[x]] == x
    {
      if x != t'.top {
        PrevOf(t, x);
        Below(t, t.prev[x]);
        Below(t, x);
      }
    }
    PrevIntro(t');
  }

  lemma Below(t: Tiles, x: int)
    requires Sized(t) && x in t.size
    ensures t.base <= x <= t.top && MINSIZE <= t.size[x]
  {
  }

  lemma AbsorbCovers(t: Tiles, brk: int, p: int)
    requires Covers(t, brk) && p in t.size && p != t.top && p + t.size[p] != t.top
    ensures p + t.size[p] in t.size
    ensures Covers(Absorb(t, p), brk)
  {
    hide NextLinked, PrevLinked, Disjoint, Sized, Aligned;
    NextIn(t, p);
    AbsorbNext(t, p);
    AbsorbPrev(t, p);
    AbsorbDisjoint(t, p);
    AbsorbSized(t, p);
    AbsorbAligned(t, p);
  }

  lemma AbsorbSized(t: Tiles, p: int)
    requires Sized(t) && p in t.size && p + t.size[p] in t.size
    ensures Sized(Absorb(t, p))
  {
  }

  lemma AbsorbAligned(t: Tiles, p: int)
    requires Aligned(t) && p in t.size && p + t.size[p] in t.size
    ensures Aligned(Absorb(t, p))
  {
    assert t.size[p] % ALIGN == 0 && t.size[p + t.size[p]] % ALIGN == 0;
  }

  lemma NextIn(t: Tiles, p: int)
    requires NextLinked(t) && PrevLinked(t) && p in t.size && p != t.top
    ensures p + t.size[p] in t.prev && p + t.size[p] in t.size && p + t.size[p] != t.base
    ensures t.prev[p + t.size[p]] == p
  {
    assert p + t.size[p] in t.prev;
  }

  lemma AbsorbNext(t: Tiles, p: int)
    requires NextLinked(t) && PrevLinked(t) && Sized(t) && p in t.size && p != t.top && p + t.size[p] in t.size
    requires p + t.size[p] != t.top
    ensures NextLinked(Absorb(t, p))
  {
    hide NextLinked, PrevLinked;
    var t', n := Absorb(t, p), p + t.size[p];
    NextIn(t, p);
    NextIn(t, n);
    forall x, y | x in t'.size && x != t'.top && y == x + t'.size[x]
      ensures y in t'.prev && t'.prev[y] == x
    {
      if x != p {
        NextIn(t, x);
      }
    }
    NextIntro(t');
  }

  lemma AbsorbPrev(t: Tiles, p: int)
    requires NextLinked(t) && PrevLinked(t) && Sized(t) && p in t.size && p != t.top && p + t.size[p] in t.size
    requires p + t.size[p] != t.top && t.base in t.size
    ensures PrevLinked(Absorb(t, p))
  {
    hide NextLinked, PrevLinked;
    var t', n := Absorb(t, p), p + t.size[p];
    NextIn(t, p);
    NextIn(t, n);
    PrevKeys(t);
    forall x | x in t'.prev
      ensures t'.prev[x] in t'.size && t'.prev[x] + t'.size[t'.prev[x]] == x
    {
      if x != n + t.size[n] {
        PrevOf(t, x);
      }
    }
    PrevIntro(t');
  }

  lemma AbsorbDisjoint(t: Tiles, p: int)
    requires Disjoint(t) && Sized(t) && p in t.size && p + t.size[p] in t.size
    ensures Disjoint(Absorb(t, p))
  {
  }

  lemma AbsorbTopCovers(t: Tiles, brk: int, p: int)
    requires Covers(t, brk) && p in t.size && p != t.top && p + t.size[p] == t.top
    ensures Covers(AbsorbTop(t, p), brk)
  {
    hide NextLinked, PrevLinked;
    AbsorbTopNext(t, p);
    AbsorbTopPrev(t, p);
  }

  lemma AbsorbTopNext(t: Tiles, p: int)
    requires NextLinked(t) && PrevLinked(t) && p in t.size && t.top in t.size && p != t.top && p + t.size[p] == t.top
    ensures NextLinked(AbsorbTop(t, p))
  {
    NextIn(t, p);
  }

  lemma AbsorbTopPrev(t: Tiles, p: int)
    requires NextLinked(t) && PrevLinked(t) && p in t.size && t.top in t.size && p != t.top && p + t.size[p] == t.top
    requires t.base in t.size && Sized(t)
    ensures PrevLinked(AbsorbTop(t, p))
  {
    hide NextLinked, PrevLinked, Sized;
    var t' := AbsorbTop(t, p);
    NextIn(t, p);
    PrevKeys(t);
    Below(t, t.top);
    forall x | x in t'.prev
      ensures t'.prev[x] in t'.size && t'.prev[x] + t'.size[t'.prev[x]] == x
    {
      PrevOf(t, x);
      Below(t, x);
      Below(t, t.prev[x]);
    }
    PrevIntro(t');
  }

  lemma ResizeTopCovers(t: Tiles, brk: int, n: int)
    requires Covers(t, brk) && n % ALIGN == 0 && MINSIZE <= n
    ensures Covers(ResizeTop(t, n), t.top + n)
  {
  }

  /** Every address of the arena lies in exactly one chunk. */
  lemma ChunkOf(t: Tiles, brk: int, a: int) returns (p: int)
    requires Covers(t, brk) && t.base <= a < brk
    ensures p in t.size && p <= a < p + t.size[p]
    ensures forall q | q in t.size && q <= a < q + t.size[q] :: q == p
  {
    p := t.base;
    while a >= p + t.size[p]
      invariant p in t.size && p <= a
      decreases a - p
    {
      NextIn(t, p);
      p := p + t.size[p];
    }
  }

  /** When no chunk is in use, everything is in top: nothing stays fragmented. */
  lemma AllFreed(t: Tiles, brk: int)
    requires Covers(t, brk) && Coalesced(t) && forall p :: !Live(t, p)
    ensures t.size == map[t.top := brk - t.top] && t.top == t.base
  {
    forall p | p in t.size
      ensures p == t.top
    {
      if p != t.top {
        assert !Live(t, p) && !Live(t, p + t.size[p]);
        NextIn(t, p);
      }
    }
  }
}
