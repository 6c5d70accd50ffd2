/**
 The boundary tags: the size word at p + 4 of every chunk, whose low bit says that the chunk below
 is in use, and the footer of every free chunk, kept in the first word of the chunk above.
 The memory is one map of words; an address never written reads as 0.
 */
module Headers {
  import opened Chunks

  type Memory = map<int, int>

  function Rd(m: Memory, a: int): int {
    if a in m then m[a] else 0
  }

  const PREV_SIZE := 0
  const SIZE := 4
  const FD := 8
  const BK := 12
  const PREV_INUSE := 1

  /** The size word of the chunk p. */
  ghost function Head(t: Tiles, p: int): int
    requires p in t.size
  {
    t.size[p] + if p in t.prev && t.prev[p] in t.free then 0 else PREV_INUSE
  }

  ghost predicate HeadsOk(m: Memory, t: Tiles, e: set<int>) {
    forall p, a | p in t.size && a == p + SIZE :: a in e || Rd(m, a) == Head(t, p)
  }

  ghost predicate FeetOk(m: Memory, t: Tiles, e: set<int>) {
    forall f, a | f in t.free && f in t.size && a == f + t.size[f] :: a in e || Rd(m, a) == t.size[f]
  }

  /** Size words and footers are right, except at the addresses in e, which are about to be written. */
  ghost predicate Tagged(m: Memory, t: Tiles, e: set<int>) {
    HeadsOk(m, t, e) && FeetOk(m, t, e)
  }

  lemma TagTake(m: Memory, t: Tiles, brk: int, e: set<int>, p: int)
    requires Covers(t, brk) && Tagged(m, t, e) && p in t.size && p != t.top
    ensures Tagged(m, Take(t, p), e + {p + t.size[p] + SIZE})
  {
    hide Aligned, Sized, Disjoint;
  }

  lemma TagRelease(m: Memory, t: Tiles, brk: int, e: set<int>, p: int)
    requires Covers(t, brk) && Tagged(m, t, e) && p in t.size && p != t.top
    ensures Tagged(m, Release(t, p), e + {p + t.size[p] + SIZE, p + t.size[p]})
  {
    hide Aligned, Sized, Disjoint, NextLinked;
  }

  lemma TagCut(m: Memory, t: Tiles, brk: int, e: set<int>, p: int, n: int)
    requires Covers(t, brk) && Tagged(m, t, e) && Live(t, p) && 0 < n < t.size[p] && t.free <= t.size.Keys
    ensures Tagged(m, Cut(t, p, n), e + {p + SIZE, p + n + SIZE})
  {
    CutIsNew(t, p, n);
    hide Aligned, Sized, Disjoint, PrevLinked;
    TagCutHeads(m, t, e, p, n);
  }

  lemma TagCutHeads(m: Memory, t: Tiles, e: set<int>, p: int, n: int)
    requires NextLinked(t) && HeadsOk(m, t, e) && Live(t, p) && 0 < n < t.size[p] && p + n !in t.size
             && t.free <= t.size.Keys
    ensures HeadsOk(m, Cut(t, p, n), e + {p + SIZE, p + n + SIZE})
  {
  }

  lemma TagCutTop(m: Memory, t: Tiles, brk: int, e: set<int>, n: int)
    requires Covers(t, brk) && Tagged(m, t, e) && 0 < n < t.size[t.top] && t.free <= t.size.Keys - {t.top}
    ensures Tagged(m, CutTop(t, n), e + {t.top + SIZE, t.top + n + SIZE})
  {
    CutIsNew(t, t.top, n);
    hide Aligned, Sized, Disjoint, NextLinked;
  }

  lemma TagAbsorb(m: Memory, t: Tiles, brk: int, e: set<int>, p: int)
    requires Covers(t, brk) && Tagged(m, t, e) && p in t.size && p != t.top && p + t.size[p] in t.size
             && p + t.size[p] != t.top
    ensures var n := p + t.size[p]; Tagged(m, Absorb(t, p), e + {p + SIZE, n + t.size[n] + SIZE})
  {
    hide Aligned, Sized, Disjoint;
    NextIn(t, p);
    NextIn(t, p + t.size[p]);
    hide NextLinked;
    TagAbsorbHeads(m, t, e, p);
  }

  lemma TagAbsorbHeads(m: Memory, t: Tiles, e: set<int>, p: int)
    requires PrevLinked(t) && HeadsOk(m, t, e) && p in t.size && p + t.size[p] in t.size
    ensures var n := p + t.size[p]; HeadsOk(m, Absorb(t, p), e + {p + SIZE, n + t.size[n] + SIZE})
  {
    var t', n := Absorb(t, p), p + t.size[p];
    var e' := e + {p + SIZE, n + t.size[n] + SIZE};
    forall x, a | x in t'.size && a == x + SIZE
      ensures a in e' || Rd(m, a) == Head(t', x)
    {
      if x != p && x != n + t.size[n] {
        assert a in e || Rd(m, a) == Head(t, x);
        assert x in t.prev ==> t.prev[x] != p && t.prev[x] != n;
      }
    }
  }

  lemma TagAbsorbTop(m: Memory, t: Tiles, brk: int, e: set<int>, p: int)
    requires Covers(t, brk) && Tagged(m, t, e) && p in t.size && p != t.top && p + t.size[p] == t.top
    ensures Tagged(m, AbsorbTop(t, p), e + {p + SIZE})
  {
    hide Aligned;
    NextIn(t, p);
  }

  lemma TagResizeTop(m: Memory, t: Tiles, brk: int, e: set<int>, n: int)
    requires Covers(t, brk) && Tagged(m, t, e) && t.top !in t.free
    ensures Tagged(m, ResizeTop(t, n), e + {t.top + SIZE})
  {
    hide Aligned;
  }

  lemma WriteHead(m: Memory, t: Tiles, brk: int, e: set<int>, p: int)
    requires Covers(t, brk) && Coalesced(t) && Tagged(m, t, e) && p in t.size
    ensures Tagged(m[p + SIZE := Head(t, p)], t, e - {p + SIZE})
  {
    hide Aligned;
    WriteHeadFeet(m, t, brk, e, p, Head(t, p));
    hide Covers, Coalesced;
  }

  /** A size word is not a footer. */
  lemma WriteHeadFeet(m: Memory, t: Tiles, brk: int, e: set<int>, p: int, v: int)
    requires Covers(t, brk) && Coalesced(t) && FeetOk(m, t, e) && p in t.size
    ensures FeetOk(m[p + SIZE := v], t, e - {p + SIZE})
  {
    hide Aligned;
    forall f | f in t.free
      ensures f + t.size[f] != p + SIZE
    {
      FootIsChunk(t, brk, f);
      hide Coalesced, NextLinked, PrevLinked;
    }
  }

  lemma FootIsChunk(t: Tiles, brk: int, f: int)
    requires Covers(t, brk) && Coalesced(t) && f in t.free
    ensures f in t.size && f + t.size[f] in t.size
  {
    hide Aligned, Sized, Disjoint;
    NextIn(t, f);
  }

  lemma WriteFoot(m: Memory, t: Tiles, brk: int, e: set<int>, f: int)
    requires Covers(t, brk) && Coalesced(t) && Tagged(m, t, e) && f in t.free
    ensures Tagged(m[f + t.size[f] := t.size[f]], t, e - {f + t.size[f]})
  {
    hide Aligned, Coalesced;
    FootIsChunk(t, brk, f);
    hide NextLinked, PrevLinked;
    hide Disjoint, Sized;
  }
}
