/**
 The state of the allocator between two statements, and what each kind of statement does to it.
 A call to malloc or free is a sequence of writes to size words, footers, links, the bit vector
 and the top pointer; the ghost state says which chunks and lists they are working towards.
 */
module Arena {
  import opened Common
  import opened Chunks
  import opened Headers
  import opened BinLists
  import opened Binning

  /** The chunks t up to brk and the lists q; the addresses still to be written; the number of leading
      bytes to be left alone in each chunk of keep, compared with the memory orig; and top. */
  datatype Ghost = Ghost(t: Tiles, q: Bins, brk: int, todo: set<int>, keep: map<int, int>, orig: Memory, top: int)

  /** User words: from p + 8 up to and including the first word of the next chunk. */
  ghost predicate SameData(orig: Memory, m: Memory, keep: map<int, int>) {
    forall p, a | p in keep && p + FD <= a <= p + keep[p] :: Rd(m, a) == Rd(orig, a)
  }

  ghost predicate Kept(t: Tiles, q: Bins, keep: map<int, int>) {
    forall p | p in keep :: Live(t, p) && p !in q.bin && keep[p] <= t.size[p]
  }

  ghost predicate Mid(m: Memory, g: Ghost) {
    && Covers(g.t, g.brk) && Coalesced(g.t) && AV_END <= g.t.base
    && Tagged(m, g.t, g.todo)
    && Rings(m, g.q) && g.q.bin.Keys <= g.t.size.Keys - {g.t.top}
    && Ordered(g.q, g.t.size) && Marked(m, g.q)
    && Kept(g.t, g.q, g.keep) && SameData(g.orig, m, g.keep)
    && Rd(m, TOP_WORD) == g.top
  }

  /** The resting state: nothing is left to write, and exactly the free chunks are linked. */
  ghost predicate Heap(m: Memory, g: Ghost) {
    Mid(m, g) && g.todo == {} && g.q.bin.Keys == g.t.free && g.top == g.t.top
  }

  // Moves of the ghost state: the memory stays, the addresses whose value must change go to todo.

  lemma MidTake(m: Memory, g: Ghost, p: int, size: int)
    requires Mid(m, g) && p in g.t.size && p != g.t.top && size == g.t.size[p]
    ensures Mid(m, g.(t := Take(g.t, p), todo := g.todo + {p + size + SIZE}))
  {
    hide Rings, Ordered, Marked, SameData, Sized, Aligned, NextLinked, PrevLinked, Disjoint, Tagged;
    TagTake(m, g.t, g.brk, g.todo, p);
    TakeCovers(g.t, g.brk, p);
  }

  lemma TakeCovers(t: Tiles, brk: int, p: int)
    requires Covers(t, brk)
    ensures Covers(Take(t, p), brk) && Covers(Release(t, p), brk)
  {
  }

  lemma MidRelease(m: Memory, g: Ghost, p: int)
    requires Mid(m, g) && Live(g.t, p) && p !in g.keep
    requires p + g.t.size[p] != g.t.top && p + g.t.size[p] !in g.t.free
    requires p in g.t.prev ==> g.t.prev[p] !in g.t.free
    ensures Mid(m, g.(t := Release(g.t, p), todo := g.todo + {p + g.t.size[p] + SIZE, p + g.t.size[p]}))
  {
    hide Member, Placed, Distinct, Spaced, AllLinked, Ordered, Marked, SameData, Sized, Aligned, NextLinked, PrevLinked,
        Disjoint, Tagged, Coalesced;
    TagRelease(m, g.t, g.brk, g.todo, p);
    TakeCovers(g.t, g.brk, p);
    ReleaseCoalesced(g.t, g.brk, p);
  }

  lemma ReleaseCoalesced(t: Tiles, brk: int, p: int)
    requires Covers(t, brk) && Coalesced(t) && Live(t, p)
    requires p + t.size[p] != t.top && p + t.size[p] !in t.free
    requires p in t.prev ==> t.prev[p] !in t.free
    ensures Coalesced(Release(t, p))
  {
    hide Aligned, Disjoint;
    var t' := Release(t, p);
    forall f | f in t'.free
      ensures t'.End(f) !in t'.free && t'.End(f) != t'.top
    {
      NextIn(t, f);
    }
  }

  lemma MidCut(m: Memory, g: Ghost, p: int, n: int)
    requires Mid(m, g) && Live(g.t, p) && (p in g.q.bin ==> g.q.bin[p] == 1) && (p in g.keep ==> g.keep[p] <= n)
    requires n % ALIGN == 0 && MINSIZE <= n && n + MINSIZE <= g.t.size[p]
    ensures Mid(m, g.(t := Cut(g.t, p, n), todo := g.todo + {p + SIZE, p + n + SIZE}))
    ensures p + n !in g.t.size
  {
    hide Member, Placed, Distinct, Spaced, AllLinked, Ordered, Marked, SameData, Sized, Aligned, NextLinked, PrevLinked,
        Disjoint, Tagged, Coalesced, Kept;
    CoalescedSub(g.t);
    CutCovers(g.t, g.brk, p, n);
    CutIsNew(g.t, p, n);
    TagCut(m, g.t, g.brk, g.todo, p, n);
    CutCoalesced(g.t, g.brk, p, n);
    CutKept(g.t, g.q, g.keep, p, n);
    LinkedSizes(g.q, g.t.size);
    OrderedFrame(g.q, g.t.size, Cut(g.t, p, n).size);
  }

  lemma CoalescedSub(t: Tiles)
    requires Coalesced(t)
    ensures t.free <= t.size.Keys - {t.top}
  {
  }

  lemma CutCoalesced(t: Tiles, brk: int, p: int, n: int)
    requires Coalesced(t) && Live(t, p) && p + n !in t.size && t.top in t.size
    ensures Coalesced(Cut(t, p, n))
  {
  }

  lemma CutKept(t: Tiles, q: Bins, keep: map<int, int>, p: int, n: int)
    requires Kept(t, q, keep) && Live(t, p) && p + n !in t.size && (p in keep ==> keep[p] <= n)
    ensures Kept(Cut(t, p, n), q, keep)
  {
  }

  /** The order of the lists depends only on the sizes of the chunks linked in bins of their size. */
  lemma OrderedFrame(q: Bins, size: map<int, int>, size': map<int, int>)
    requires Ordered(q, size) && Member(q) && q.bin.Keys <= size.Keys
    requires forall x | x in q.bin :: x in size' && MINSIZE <= size'[x] && (q.bin[x] == 1 || size'[x] == size[x])
    ensures Ordered(q, size')
  {
    forall b, i, j | 2 <= b < NAV && 0 <= i < j < |q.ring[b]| && q.ring[b][i] in size' && q.ring[b][j] in size'
      ensures size'[q.ring[b][j]] <= size'[q.ring[b][i]]
    {
      MemberAt(q, b, i);
      MemberAt(q, b, j);
      var x, y := q.ring[b][i], q.ring[b][j];
      assert x in q.bin.Keys && y in q.bin.Keys;
    }
    forall x | x in q.bin
      ensures q.bin[x] == 1 || q.bin[x] == BinIndex(size'[x])
    {
      assert x in q.bin.Keys;
    }
  }

  lemma LinkedSizes(q: Bins, size: map<int, int>)
    requires Ordered(q, size) && q.bin.Keys <= size.Keys
    ensures forall x | x in q.bin :: x in size && MINSIZE <= size[x]
  {
    forall x | x in q.bin
      ensures x in size && MINSIZE <= size[x]
    {
      assert x in q.bin.Keys;
    }
  }

  lemma MidCutTop(m: Memory, g: Ghost, n: int)
    requires Mid(m, g) && n % ALIGN == 0 && MINSIZE <= n && n + MINSIZE <= g.t.size[g.t.top]
    ensures Mid(m, g.(t := CutTop(g.t, n), todo := g.todo + {g.t.top + SIZE, g.t.top + n + SIZE}))
    ensures g.t.top + n !in g.t.size
  {
    hide Member, Placed, Distinct, Spaced, AllLinked, Ordered, Marked, SameData, Sized, Aligned, NextLinked, PrevLinked,
        Disjoint, Tagged, Coalesced, Kept;
    CoalescedSub(g.t);
    CutTopCovers(g.t, g.brk, n);
    CutIsNew(g.t, g.t.top, n);
    TagCutTop(m, g.t, g.brk, g.todo, n);
    CutTopCoalesced(g.t, g.brk, n);
    CutTopKept(g.t, g.q, g.keep, n);
    LinkedSizes(g.q, g.t.size);
    OrderedFrame(g.q, g.t.size, CutTop(g.t, n).size);
  }

  lemma CutTopCoalesced(t: Tiles, brk: int, n: int)
    requires Covers(t, brk) && Coalesced(t) && t.top + n !in t.size && 0 < n
    ensures Coalesced(CutTop(t, n))
  {
    hide Aligned, Disjoint;
    forall f | f in t.free
      ensures f + t.size[f] in t.size
    {
      NextIn(t, f);
    }
  }

  lemma CutTopKept(t: Tiles, q: Bins, keep: map<int, int>, n: int)
    requires Kept(t, q, keep) && t.top in t.size && t.top + n !in t.size
    ensures Kept(CutTop(t, n), q, keep)
  {
  }

  lemma MidAbsorb(m: Memory, g: Ghost, p: int)
    requires Mid(m, g) && p in g.t.size && p != g.t.top && p + g.t.size[p] != g.t.top
    requires p + g.t.size[p] !in g.q.bin && p + g.t.size[p] !in g.keep && (p in g.q.bin ==> g.q.bin[p] == 1)
    ensures p + g.t.size[p] in g.t.size && p + g.t.size[p] + g.t.size[p + g.t.size[p]] in g.t.size
    ensures var n := p + g.t.size[p];
            Mid(m, g.(t := Absorb(g.t, p), todo := g.todo + {p + SIZE, n + g.t.size[n] + SIZE}))
  {
    hide Member, Placed, Distinct, Spaced, AllLinked, Ordered, Marked, SameData, Sized, Aligned, NextLinked, PrevLinked,
        Disjoint, Tagged, Coalesced, Kept;
    NextIn(g.t, p);
    NextIn(g.t, p + g.t.size[p]);
    AbsorbCovers(g.t, g.brk, p);
    TagAbsorb(m, g.t, g.brk, g.todo, p);
    AbsorbCoalesced(g.t, g.brk, p);
    AbsorbKept(g.t, g.q, g.keep, p);
    SizesPositive(g.t);
    LinkedSizes(g.q, g.t.size);
    OrderedFrame(g.q, g.t.size, Absorb(g.t, p).size);
  }

  lemma SizesPositive(t: Tiles)
    requires Sized(t)
    ensures forall p | p in t.size :: MINSIZE <= t.size[p]
  {
  }

  lemma AbsorbCoalesced(t: Tiles, brk: int, p: int)
    requires Covers(t, brk) && Coalesced(t) && p in t.size && p + t.size[p] in t.size && p + t.size[p] != t.top
    ensures Coalesced(Absorb(t, p))
  {
    hide Aligned, Disjoint, NextLinked, PrevLinked;
  }

  lemma AbsorbKept(t: Tiles, q: Bins, keep: map<int, int>, p: int)
    requires Sized(t) && Kept(t, q, keep) && p in t.size && p + t.size[p] in t.size && p + t.size[p] !in keep
             && p != t.top
    ensures Kept(Absorb(t, p), q, keep)
  {
  }

  lemma MidAbsorbTop(m: Memory, g: Ghost, p: int)
    requires Mid(m, g) && p in g.t.size && p != g.t.top && p + g.t.size[p] == g.t.top && p !in g.q.bin && p !in g.keep
    requires p in g.t.prev ==> g.t.prev[p] !in g.t.free
    ensures Mid(m, g.(t := AbsorbTop(g.t, p), todo := g.todo + {p + SIZE}))
  {
    hide Member, Placed, Distinct, Spaced, AllLinked, Ordered, Marked, SameData, Sized, Aligned, NextLinked, PrevLinked,
        Disjoint, Tagged, Coalesced, Kept;
    AbsorbTopCovers(g.t, g.brk, p);
    TagAbsorbTop(m, g.t, g.brk, g.todo, p);
    AbsorbTopCoalesced(g.t, g.brk, p);
    AbsorbTopKept(g.t, g.q, g.keep, p);
    LinkedSizes(g.q, g.t.size);
    OrderedFrame(g.q, g.t.size, AbsorbTop(g.t, p).size);
  }

  lemma AbsorbTopCoalesced(t: Tiles, brk: int, p: int)
    requires Covers(t, brk) && Coalesced(t) && p in t.size && p != t.top && p + t.size[p] == t.top
    requires p in t.prev ==> t.prev[p] !in t.free
    ensures Coalesced(AbsorbTop(t, p))
  {
    hide Aligned, Disjoint, Sized;
    var t' := AbsorbTop(t, p);
    forall f | f in t'.free
      ensures f in t'.size && t'.End(f) !in t'.free && t'.End(f) != p
    {
      NextIn(t, f);
      hide NextLinked, PrevLinked;
      assert t'.size[f] == t.size[f];
    }
    hide NextLinked, PrevLinked;
  }

  lemma AbsorbTopKept(t: Tiles, q: Bins, keep: map<int, int>, p: int)
    requires Kept(t, q, keep) && p in t.size && t.top in t.size && p !in keep
    ensures Kept(AbsorbTop(t, p), q, keep)
  {
  }

  lemma MidResizeTop(m: Memory, g: Ghost, n: int)
    requires Mid(m, g) && n % ALIGN == 0 && MINSIZE <= n
    ensures Mid(m, g.(t := ResizeTop(g.t, n), brk := g.t.top + n, todo := g.todo + {g.t.top + SIZE}))
  {
    hide Member, Placed, Distinct, Spaced, AllLinked, Ordered, Marked, SameData, Sized, Aligned, NextLinked, PrevLinked,
        Disjoint, Tagged, Coalesced, Kept;
    CoalescedSub(g.t);
    ResizeTopCovers(g.t, g.brk, n);
    TagResizeTop(m, g.t, g.brk, g.todo, n);
    ResizeTopCoalesced(g.t, n);
    ResizeTopKept(g.t, g.q, g.keep, n);
    LinkedSizes(g.q, g.t.size);
    OrderedFrame(g.q, g.t.size, ResizeTop(g.t, n).size);
  }

  lemma ResizeTopCoalesced(t: Tiles, n: int)
    requires Coalesced(t) && t.top in t.size
    ensures Coalesced(ResizeTop(t, n))
  {
  }

  lemma ResizeTopKept(t: Tiles, q: Bins, keep: map<int, int>, n: int)
    requires Kept(t, q, keep) && t.top in t.size
    ensures Kept(ResizeTop(t, n), q, keep)
  {
  }

  /** A free chunk is cut: the lower part is handed out, the rest stays free. */
  function SplitFree(t: Tiles, p: int, n: int): Tiles
    requires p in t.size && p != t.top
  {
    Release(Cut(Take(t, p), p, n), p + n)
  }

  lemma MidSplitFree(m: Memory, g: Ghost, p: int, n: int, r: int)
    requires Mid(m, g) && g.todo == {} && p in g.t.free && p in g.t.size && (p in g.q.bin ==> g.q.bin[p] == 1)
             && p != g.t.top
    requires n % ALIGN == 0 && MINSIZE <= n && MINSIZE <= r && r == g.t.size[p] - n
    ensures p + n !in g.t.size && g.t.size[p] == n + r && p !in g.keep
    ensures Mid(m, g.(t := SplitFree(g.t, p, n), todo := {p + SIZE, p + n + SIZE, p + n + r}))
    ensures var t := SplitFree(g.t, p, n);
            Head(t, p) == n + PREV_INUSE && Head(t, p + n) == r + PREV_INUSE && t.size[p + n] == r && p + n in t.free
    ensures Blocks(SplitFree(g.t, p, n)) == Blocks(g.t)[p := n] && p !in Blocks(g.t)
  {
    hide Mid, Head, Take, Cut, Release;
    FreeFacts(m, g, p);
    var s, e := g.t.size[p], p + g.t.size[p];
    ReadHead(m, g, p);
    ReadHead(m, g, e);
    var g1 := g.(t := Take(g.t, p), todo := g.todo + {p + s + SIZE});
    MidTake(m, g, p, s);
    TakeFacts(g.t, p);
    var g2 := g1.(t := Cut(g1.t, p, n), todo := g1.todo + {p + SIZE, p + n + SIZE});
    MidCut(m, g1, p, n);
    SplitFacts(m, g, p, n, r);
    MidRelease(m, g2, p + n);
    var g3 := g2.(t := Release(g2.t, p + n), todo := g2.todo + {p + n + r + SIZE, p + n + r});
    MidHeadIsRight(m, g3, e);
    assert g3.todo - {e + SIZE} == {p + SIZE, p + n + SIZE, p + n + r};
  }

  lemma TakeFacts(t: Tiles, p: int)
    requires p in t.size && p != t.top
    ensures var t' := Take(t, p); t'.size == t.size && t'.top == t.top && t'.prev == t.prev && Live(t', p)
  {
  }

  lemma FreeFacts(m: Memory, g: Ghost, p: int)
    requires Mid(m, g) && p in g.t.free && p in g.t.size
    ensures var e := p + g.t.size[p]; e !in g.t.free && e != g.t.top && p !in g.keep
    ensures p in g.t.prev ==> g.t.prev[p] !in g.t.free && g.t.prev[p] in g.t.size
    ensures p !in Blocks(g.t)
    ensures g.t.top in g.t.size && g.t.free <= g.t.size.Keys && forall k | k in g.keep :: k in g.t.size
  {
    hide Sized, Aligned, Disjoint, NextLinked, Rings, Ordered, Marked, Tagged, SameData;
    if p in g.t.prev {
      assert g.t.prev[p] + g.t.size[g.t.prev[p]] == p;
      assert g.t.prev[p] in g.t.free ==> g.t.End(g.t.prev[p]) !in g.t.free;
    }
    assert g.t.End(p) !in g.t.free;
  }

  lemma SplitFacts(m: Memory, g: Ghost, p: int, n: int, r: int)
    requires p in g.t.size && p != g.t.top && p in g.t.free && p + n !in g.t.size && 0 < n && 0 < r
             && n + r == g.t.size[p]
    requires var e := p + g.t.size[p];
               e in g.t.size && e != g.t.top && e !in g.t.free && e in g.t.prev && g.t.prev[e] == p
    requires p in g.t.prev ==> g.t.prev[p] !in g.t.free && g.t.prev[p] in g.t.size
    requires g.t.top in g.t.size && g.t.free <= g.t.size.Keys
    ensures var t2 := Cut(Take(g.t, p), p, n);
            Live(t2, p + n) && t2.size[p + n] == r && t2.size[p] == n && p + n in t2.prev && t2.prev[p + n] == p
                && p !in t2.free
            && p + n + r in t2.size && p + n + r != t2.top && p + n + r !in t2.free
    ensures var t := SplitFree(g.t, p, n);
            Head(t, p) == n + PREV_INUSE && Head(t, p + n) == r + PREV_INUSE && t.size[p + n] == r && p + n in t.free
            && p + n + r in t.size && Head(t, p + n + r) == Head(g.t, p + n + r)
    ensures Blocks(SplitFree(g.t, p, n)) == Blocks(g.t)[p := n]
  {
    BlocksTake(g.t, p);
    BlocksCut(Take(g.t, p), p, n);
    BlocksRelease(Cut(Take(g.t, p), p, n), p + n);
  }

  // Writes.

  /** Addresses outside the protected words. */
  ghost predicate NotUser(keep: map<int, int>, a: int) {
    forall p | p in keep :: a < p + FD || p + keep[p] < a
  }

  lemma SameDataWrite(orig: Memory, m: Memory, keep: map<int, int>, a: int, v: int)
    requires SameData(orig, m, keep) && NotUser(keep, a)
    ensures SameData(orig, m[a := v], keep)
  {
  }

  /** Size words and the first words of chunks above free ones are not user words; nor are links of
      chunks that are not in use, nor av_. */
  lemma HeadNotUser(t: Tiles, q: Bins, keep: map<int, int>, p: int)
    requires Disjoint(t) && Sized(t) && Kept(t, q, keep) && p in t.size
    ensures NotUser(keep, p + SIZE)
  {
    forall k | k in keep
      ensures p + SIZE < k + FD || k + keep[k] < p + SIZE
    {
      assert k in t.size;
    }
  }

  lemma FootNotUser(t: Tiles, q: Bins, keep: map<int, int>, f: int)
    requires Disjoint(t) && Sized(t) && Kept(t, q, keep) && f in t.free && f in t.size && f + t.size[f] in t.size
    ensures NotUser(keep, f + t.size[f])
  {
    forall k | k in keep
      ensures f + t.size[f] < k + FD || k + keep[k] < f + t.size[f]
    {
      assert k in t.size && k != f;
    }
  }

  lemma LinkNotUser(t: Tiles, q: Bins, keep: map<int, int>, p: int)
    requires Disjoint(t) && Sized(t) && Kept(t, q, keep) && p in t.size && p !in keep
    ensures NotUser(keep, p + FD) && NotUser(keep, p + BK)
  {
    forall k | k in keep
      ensures p + BK < k + FD || k + keep[k] < p + FD
    {
      assert k in t.size;
    }
  }

  lemma LowNotUser(t: Tiles, q: Bins, keep: map<int, int>, a: int)
    requires Sized(t) && Kept(t, q, keep) && a < t.base
    ensures NotUser(keep, a)
  {
  }

  /** No size word and no first word of a chunk is a link of a linked chunk or of a header. */
  lemma TagNotLink(t: Tiles, q: Bins, p: int)
    requires Disjoint(t) && Sized(t) && q.bin.Keys <= t.size.Keys && AV_END <= t.base && p in t.size
    ensures !LinkAddr(q, p + SIZE) && !LinkAddr(q, p)
  {
    NearNoChunk(t, p, p + SIZE - FD);
    NearNoChunk(t, p, p + SIZE - BK);
    NearNoChunk(t, p, p - FD);
    NearNoChunk(t, p, p - BK);
    NotLinked(t, q, p + SIZE - FD);
    NotLinked(t, q, p + SIZE - BK);
    NotLinked(t, q, p - FD);
    NotLinked(t, q, p - BK);
  }

  lemma NearNoChunk(t: Tiles, p: int, x: int)
    requires Disjoint(t) && Sized(t) && p in t.size && x != p && p - MINSIZE < x < p + MINSIZE
    ensures x !in t.size
  {
  }

  lemma NotLinked(t: Tiles, q: Bins, x: int)
    requires q.bin.Keys <= t.size.Keys && x !in t.size
    ensures x !in q.bin
  {
    assert x !in q.bin.Keys;
  }

  /** Words that are neither size words nor first words of a chunk do not matter to the tags. */
  lemma TaggedFrame(m: Memory, t: Tiles, brk: int, e: set<int>, a: int, v: int)
    requires Covers(t, brk) && Coalesced(t) && Tagged(m, t, e)
    requires a - SIZE !in t.size && a !in t.size
    ensures Tagged(m[a := v], t, e)
  {
    hide Aligned, NextLinked, PrevLinked, Disjoint, Sized, Tagged;
    forall f | f in t.free
      ensures f in t.size && f + t.size[f] in t.size
    {
      assert f in t.size && f != t.top;
      NextIn(t, f);
    }
    TaggedAt(m, t, e, a, v);
  }

  lemma TaggedAt(m: Memory, t: Tiles, e: set<int>, a: int, v: int)
    requires Tagged(m, t, e) && a - SIZE !in t.size && a !in t.size
    requires forall f | f in t.free :: f in t.size && f + t.size[f] in t.size
    ensures Tagged(m[a := v], t, e)
  {
  }

  /** The links of a chunk, and av_, are such words. */
  lemma LinkNotTag(t: Tiles, p: int)
    requires Disjoint(t) && Sized(t) && p in t.size
    ensures p + FD !in t.size && p + BK !in t.size && p + FD - SIZE !in t.size && p + BK - SIZE !in t.size
  {
    NearNoChunk(t, p, p + FD);
    NearNoChunk(t, p, p + BK);
    NearNoChunk(t, p, p + FD - SIZE);
    NearNoChunk(t, p, p + BK - SIZE);
  }

  lemma LowNotTag(t: Tiles, a: int)
    requires Sized(t) && a < t.base
    ensures a !in t.size && a - SIZE !in t.size
  {
  }

  lemma MidHead(m: Memory, g: Ghost, p: int)
    requires Mid(m, g) && p in g.t.size
    ensures Mid(m[p + SIZE := Head(g.t, p)], g.(todo := g.todo - {p + SIZE}))
  {
    hide Ordered, Aligned, NextLinked, PrevLinked, Tagged, Coalesced, Kept, SameData, LinkAddr, NotUser, Member, Placed,
        Distinct, Spaced, AllLinked;
    WriteHead(m, g.t, g.brk, g.todo, p);
    TagNotLink(g.t, g.q, p);
    RingsFrame(m, g.q, p + SIZE, Head(g.t, p));
    HeadNotUser(g.t, g.q, g.keep, p);
    SameDataWrite(g.orig, m, g.keep, p + SIZE, Head(g.t, p));
  }

  lemma MidFoot(m: Memory, g: Ghost, f: int)
    requires Mid(m, g) && f in g.t.free
    ensures f in g.t.size && Mid(m[f + g.t.size[f] := g.t.size[f]], g.(todo := g.todo - {f + g.t.size[f]}))
  {
    hide Ordered, Aligned, NextLinked, PrevLinked, Tagged, Coalesced, Kept, SameData, LinkAddr, NotUser, Member, Placed,
        Distinct, Spaced, AllLinked;
    FootIsChunk(g.t, g.brk, f);
    var a := f + g.t.size[f];
    WriteFoot(m, g.t, g.brk, g.todo, f);
    TagNotLink(g.t, g.q, a);
    RingsFrame(m, g.q, a, g.t.size[f]);
    FootNotUser(g.t, g.q, g.keep, f);
    SameDataWrite(g.orig, m, g.keep, a, g.t.size[f]);
  }

  lemma MidHeadIsRight(m: Memory, g: Ghost, p: int)
    requires Mid(m, g) && p in g.t.size && Rd(m, p + SIZE) == Head(g.t, p)
    ensures Mid(m, g.(todo := g.todo - {p + SIZE}))
  {
  }

  lemma MidFootIsRight(m: Memory, g: Ghost, f: int)
    requires Mid(m, g) && f in g.t.free && f in g.t.size && Rd(m, f + g.t.size[f]) == g.t.size[f]
    ensures Mid(m, g.(todo := g.todo - {f + g.t.size[f]}))
  {
    hide Ordered, Kept, SameData, Rings, Marked, Covers, Coalesced, Tagged;
    FootIsRight(m, g.t, g.brk, g.todo, f);
  }

  lemma FootIsRight(m: Memory, t: Tiles, brk: int, e: set<int>, f: int)
    requires Covers(t, brk) && Coalesced(t) && Tagged(m, t, e) && f in t.free && f in t.size
             && Rd(m, f + t.size[f]) == t.size[f]
    ensures Tagged(m, t, e - {f + t.size[f]})
  {
    hide Aligned, Coalesced;
    FootIsChunk(t, brk, f);
    hide NextLinked, PrevLinked;
    hide Disjoint, Sized;
  }

  /** Words of a chunk in use that is not protected may be written by its owner. */
  lemma MidUser(m: Memory, g: Ghost, x: int, a: int, v: int)
    requires Mid(m, g) && Live(g.t, x) && x !in g.q.bin && x !in g.keep && x + FD <= a <= x + g.t.size[x]
    ensures Mid(m[a := v], g)
  {
    hide Ordered, Aligned, NextLinked, PrevLinked, Coalesced, Kept, SameData, LinkAddr, NotUser, Member, Placed,
        Distinct, Spaced, AllLinked, Tagged, Sized, Disjoint;
    UserNotTag(m, g, x, a, v);
    UserNotLink(g.t, g.q, x, a);
    RingsFrame(m, g.q, a, v);
    UserNotUser(g.t, g.q, g.keep, x, a);
    SameDataWrite(g.orig, m, g.keep, a, v);
    UserLow(g.t, x);
    hide Rings;
  }

  lemma UserLow(t: Tiles, x: int)
    requires Sized(t) && AV_END <= t.base && x in t.size
    ensures AV_END <= x
  {
  }

  lemma UserNotTag(m: Memory, g: Ghost, x: int, a: int, v: int)
    requires Covers(g.t, g.brk) && Coalesced(g.t) && Tagged(m, g.t, g.todo) && Live(g.t, x)
             && x + FD <= a <= x + g.t.size[x]
    ensures Tagged(m[a := v], g.t, g.todo)
  {
    hide Aligned, Coalesced, NextLinked, PrevLinked;
    forall p | p in g.t.size
      ensures p + SIZE != a
    {
    }
    forall f | f in g.t.free && f in g.t.size
      ensures f + g.t.size[f] != a
    {
      assert f < x || x < f;
    }
    hide Disjoint, Sized;
  }

  lemma UserNotLink(t: Tiles, q: Bins, x: int, a: int)
    requires Disjoint(t) && Sized(t) && q.bin.Keys <= t.size.Keys && AV_END <= t.base && x in t.size && x !in q.bin
             && x + FD <= a <= x + t.size[x]
    ensures !LinkAddr(q, a)
  {
    forall y | y in q.bin
      ensures y + FD != a && y + BK != a
    {
      assert y in q.bin.Keys;
    }
    assert a - FD in q.bin ==> false;
    assert a - BK in q.bin ==> false;
  }

  lemma UserNotUser(t: Tiles, q: Bins, keep: map<int, int>, x: int, a: int)
    requires Disjoint(t) && Sized(t) && Kept(t, q, keep) && x in t.size && x !in keep && x + FD <= a <= x + t.size[x]
    ensures NotUser(keep, a)
  {
    forall k | k in keep
      ensures a < k + FD || k + keep[k] < a
    {
      assert k in t.size && k != x;
    }
  }

  /** Less may be protected, and protection may start afresh. */
  lemma KeepLess(m: Memory, g: Ghost, keep: map<int, int>)
    requires Mid(m, g) && forall k | k in keep :: k in g.keep && keep[k] <= g.keep[k]
    ensures Mid(m, g.(keep := keep))
  {
    hide Ordered, Rings, Marked, Covers, Coalesced, Tagged;
  }

  lemma Rebase(m: Memory, g: Ghost, keep: map<int, int>)
    requires Mid(m, g) && Kept(g.t, g.q, keep)
    ensures Mid(m, g.(keep := keep, orig := m))
  {
    hide Ordered, Rings, Marked, Covers, Coalesced, Tagged;
  }

  /** More addresses may be left open. */
  lemma MidTodo(m: Memory, g: Ghost, e: set<int>)
    requires Mid(m, g) && g.todo <= e
    ensures Mid(m, g.(todo := e))
  {
    hide Ordered, Covers, Coalesced, Kept, SameData, Rings, Marked;
  }

  /** Any value may go to a size word that is left open. */
  lemma MidSpoil(m: Memory, g: Ghost, p: int, v: int)
    requires Mid(m, g) && p in g.t.size
    ensures Mid(m[p + SIZE := v], g.(todo := g.todo + {p + SIZE}))
  {
    hide Ordered, Aligned, NextLinked, PrevLinked, Coalesced, Kept, SameData, LinkAddr, NotUser, Member, Placed,
        Distinct, Spaced, AllLinked;
    TagNotLink(g.t, g.q, p);
    RingsFrame(m, g.q, p + SIZE, v);
    HeadNotUser(g.t, g.q, g.keep, p);
    SameDataWrite(g.orig, m, g.keep, p + SIZE, v);
    hide Disjoint, Sized, Rings;
  }

  /** An address that is neither a size word nor the start of a chunk need not be written. */
  lemma MidForget(m: Memory, g: Ghost, a: int)
    requires Mid(m, g) && a !in g.t.size && a - SIZE !in g.t.size
    ensures Mid(m, g.(todo := g.todo - {a}))
  {
    hide Ordered, Kept, SameData, Rings, Marked, Covers, Coalesced, Tagged;
    TagForget(m, g.t, g.brk, g.todo, a);
  }

  lemma TagForget(m: Memory, t: Tiles, brk: int, e: set<int>, a: int)
    requires Covers(t, brk) && Coalesced(t) && Tagged(m, t, e) && a !in t.size && a - SIZE !in t.size
    ensures Tagged(m, t, e - {a})
  {
    hide Covers, Coalesced;
    forall f | f in t.free && f in t.size
      ensures f + t.size[f] in t.size
    {
      FootIsChunk(t, brk, f);
    }
  }

  /** The links of a chunk that is not protected can be written without disturbing tags and user words. */
  lemma LinkedLink(g: Ghost, x: int, a: int)
    requires Covers(g.t, g.brk) && AV_END <= g.t.base && Kept(g.t, g.q, g.keep)
    requires x in g.t.size && x !in g.keep && (a == x + FD || a == x + BK)
    ensures a !in g.t.size && a - SIZE !in g.t.size && NotUser(g.keep, a) && AV_END <= a
  {
    hide Aligned, NextLinked, PrevLinked;
    LinkNotTag(g.t, x);
    LinkNotUser(g.t, g.q, g.keep, x);
    hide Disjoint, Kept, NotUser;
  }

  predicate LinkOfChunk(g: Ghost, a: int) {
    exists x :: x in g.t.size && x !in g.keep && (a == x + FD || a == x + BK)
  }

  lemma LinkFrame(m: Memory, g: Ghost, a: int, v: int)
    requires Covers(g.t, g.brk) && Coalesced(g.t) && AV_END <= g.t.base && g.q.bin.Keys <= g.t.size.Keys
             && Kept(g.t, g.q, g.keep)
    requires Tagged(m, g.t, g.todo) && SameData(g.orig, m, g.keep) && (LinkAddr(g.q, a) || LinkOfChunk(g, a))
    ensures Tagged(m[a := v], g.t, g.todo) && SameData(g.orig, m[a := v], g.keep)
    ensures Rd(m[a := v], TOP_WORD) == Rd(m, TOP_WORD) && Rd(m[a := v], BINBLOCKS) == Rd(m, BINBLOCKS)
  {
    hide Aligned, NextLinked, PrevLinked, Tagged, Coalesced, SameData, NotUser, Disjoint, Sized;
    if a - FD in g.q.bin {
      assert a - FD in g.q.bin.Keys;
      LinkedLink(g, a - FD, a);
    } else if a - BK in g.q.bin {
      assert a - BK in g.q.bin.Keys;
      LinkedLink(g, a - BK, a);
    } else if LinkOfChunk(g, a) {
      var x :| x in g.t.size && x !in g.keep && (a == x + FD || a == x + BK);
      LinkedLink(g, x, a);
    } else {
      LowNotTag(g.t, a);
      LowNotUser(g.t, g.q, g.keep, a);
    }
    TaggedFrame(m, g.t, g.brk, g.todo, a, v);
    SameDataWrite(g.orig, m, g.keep, a, v);
  }

  /** unlink. */
  lemma MidUnlink(m: Memory, g: Ghost, p: int, i: int)
    requires Mid(m, g) && At(g.q, p, i)
    ensures var fd, bk := Rd(m, p + FD), Rd(m, p + BK);
            Mid(m[fd + BK := bk][bk + FD := fd], g.(q := Without(g.q, p, i)))
  {
    hide Ordered, Covers, Tagged, Coalesced, Kept, SameData, LinkAddr, Member, Placed, Distinct, Spaced, AllLinked,
        Marked;
    var fd, bk := Rd(m, p + FD), Rd(m, p + BK);
    RingsUnlink(m, g.q, p, i);
    LinkFrame(m, g, fd + BK, bk);
    LinkFrame(m[fd + BK := bk], g, bk + FD, fd);
    OrderedWithout(g.q, g.t.size, p, i);
    KeptWithout(g.t, g.q, g.keep, p, i);
    MarkedWithout(m, m[fd + BK := bk][bk + FD := fd], g.q, p, i);
  }

  lemma OrderedWithout(q: Bins, size: map<int, int>, p: int, i: int)
    requires Ordered(q, size) && At(q, p, i)
    ensures Ordered(Without(q, p, i), size)
  {
    var q', b := Without(q, p, i), q.bin[p];
    var r, r' := q.ring[b], q'.ring[b];
    forall c, j, k | 2 <= c < NAV && 0 <= j < k < |q'.ring[c]| && q'.ring[c][j] in size && q'.ring[c][k] in size
      ensures size[q'.ring[c][k]] <= size[q'.ring[c][j]]
    {
      if c == b {
        var j', k' := if j < i then j else j + 1, if k < i then k else k + 1;
        assert r[j'] == r'[j] && r[k'] == r'[k];
      } else {
        assert q'.ring[c] == q.ring[c];
      }
    }
  }

  lemma KeptWithout(t: Tiles, q: Bins, keep: map<int, int>, p: int, i: int)
    requires Kept(t, q, keep) && At(q, p, i)
    ensures Kept(t, Without(q, p, i), keep)
  {
  }

  lemma MarkedWithout(m: Memory, m': Memory, q: Bins, p: int, i: int)
    requires Marked(m, q) && At(q, p, i) && Rd(m', BINBLOCKS) == Rd(m, BINBLOCKS)
    ensures Marked(m', Without(q, p, i))
  {
  }

  lemma ChunkOutside(t: Tiles, q: Bins, p: int)
    requires Disjoint(t) && Sized(t) && AV_END <= t.base && p in t.size && q.bin.Keys <= t.size.Keys && p !in q.bin
    ensures Outside(q, p)
  {
    forall x | x in q.bin
      ensures x + 16 <= p || p + 16 <= x
    {
      assert x in q.bin.Keys;
    }
  }

  /** The place for a chunk of size n in list b: everything before it is larger, nothing after it is. */
  ghost predicate Fits(q: Bins, size: map<int, int>, b: int, i: int, n: int) {
    1 <= b < NAV && |q.ring| == NAV && 0 <= i <= |q.ring[b]| &&
    if b == 1 then q.ring[1] == [] else
    0 <= n && b == BinIndex(n) &&
    forall j | 0 <= j < |q.ring[b]| && q.ring[b][j] in size ::
      if j < i then n <= size[q.ring[b][j]] else size[q.ring[b][j]] <= n
  }

  lemma OrderedWith(q: Bins, size: map<int, int>, p: int, b: int, i: int)
    requires Ordered(q, size) && p in size && MINSIZE <= size[p] && Fits(q, size, b, i, size[p])
    ensures Ordered(With(q, p, b, i), size)
  {
    var q' := With(q, p, b, i);
    var r, r' := q.ring[b], q'.ring[b];
    forall c, j, k | 2 <= c < NAV && 0 <= j < k < |q'.ring[c]| && q'.ring[c][j] in size && q'.ring[c][k] in size
      ensures size[q'.ring[c][k]] <= size[q'.ring[c][j]]
    {
      if c == b {
        OrderedPair(q, size, p, b, i, j, k);
      } else {
        assert q'.ring[c] == q.ring[c];
      }
    }
  }

  lemma OrderedPair(q: Bins, size: map<int, int>, p: int, b: int, i: int, j: int, k: int)
    requires Sorted(q, size) && p in size && 2 <= b < NAV && Fits(q, size, b, i, size[p])
    requires var r' := With(q, p, b, i).ring[b]; 0 <= j < k < |r'| && r'[j] in size && r'[k] in size
    ensures var r' := With(q, p, b, i).ring[b]; size[r'[k]] <= size[r'[j]]
  {
    var r, r' := q.ring[b], With(q, p, b, i).ring[b];
    if j != i && k != i {
      var j', k' := if j < i then j else j - 1, if k < i then k else k - 1;
      assert r'[j] == r[j'] && r'[k] == r[k'];
    } else if j == i {
      assert r'[j] == p && r'[k] == r[k - 1];
    } else {
      assert r'[k] == p && r'[j] == r[j];
    }
  }

  lemma KeptWith(t: Tiles, q: Bins, keep: map<int, int>, p: int, b: int, i: int)
    requires Kept(t, q, keep) && p !in keep && 0 <= b < |q.ring| && 0 <= i <= |q.ring[b]|
    ensures Kept(t, With(q, p, b, i), keep)
  {
  }

  lemma MarkedWith(m: Memory, m': Memory, q: Bins, p: int, b: int, i: int)
    requires Marked(m, q) && 1 <= b < NAV && 0 <= i <= |q.ring[b]| && Rd(m', BINBLOCKS) == Rd(m, BINBLOCKS)
    requires b == 1 || BitSet(Rd(m, BINBLOCKS), b / BINBLOCKWIDTH)
    ensures Marked(m', With(q, p, b, i))
  {
  }

  /** The four writes of frontlink and link_last_remainder, once the place is found. */
  lemma MidInsert(m: Memory, g: Ghost, p: int, b: int, i: int)
    requires Mid(m, g) && p in g.t.size && p != g.t.top && p !in g.keep && p !in g.q.bin
    requires Fits(g.q, g.t.size, b, i, g.t.size[p]) && (b == 1 || BitSet(Rd(m, BINBLOCKS), b / BINBLOCKWIDTH))
    ensures var s := Full(b, g.q.ring[b]); Mid(Inserted(m, s[i], s[i + 1], p), g.(q := With(g.q, p, b, i)))
  {
    hide Ordered, NextLinked, PrevLinked, Aligned, Tagged, Coalesced, Kept, SameData, Member, Placed, Distinct, Spaced,
        AllLinked;
    SizesPositive(g.t);
    ChunkOutside(g.t, g.q, p);
    hide Sized, Disjoint, LinkAddr, LinkOfChunk, Marked, Outside;
    assert 1 <= b < NAV && 0 <= i <= |g.q.ring[b]|;
    RingsInsert(m, g.q, p, b, i);
    OrderedWith(g.q, g.t.size, p, b, i);
    hide Fits;
    KeptWith(g.t, g.q, g.keep, p, b, i);
    var s := Full(b, g.q.ring[b]);
    InsertFrame(m, g, p, s[i], s[i + 1]);
    MarkedWith(m, Inserted(m, s[i], s[i + 1], p), g.q, p, b, i);
  }

  lemma InsertFrame(m: Memory, g: Ghost, p: int, bk: int, fd: int)
    requires Mid(m, g) && p in g.t.size && p !in g.keep && LinkAddr(g.q, bk + FD) && LinkAddr(g.q, fd + BK)
    ensures var m' := Inserted(m, bk, fd, p);
            Tagged(m', g.t, g.todo) && SameData(g.orig, m', g.keep)
            && Rd(m', TOP_WORD) == g.top && Rd(m', BINBLOCKS) == Rd(m, BINBLOCKS)
  {
    hide Ordered, Covers, Tagged, Coalesced, Kept, SameData, LinkAddr, Rings, Marked;
    assert LinkOfChunk(g, p + BK) && LinkOfChunk(g, p + FD);
    hide LinkOfChunk;
    LinkFrame(m, g, p + BK, bk);
    LinkFrame(m[p + BK := bk], g, p + FD, fd);
    LinkFrame(m[p + BK := bk][p + FD := fd], g, bk + FD, p);
    LinkFrame(m[p + BK := bk][p + FD := fd][bk + FD := p], g, fd + BK, p);
  }

  /** Writes to the first words of av_: the bit vector and the top pointer. */
  lemma LowWrite(m: Memory, g: Ghost, a: int, v: int)
    requires Mid(m, g) && (a == BINBLOCKS || a == TOP_WORD)
    ensures Tagged(m[a := v], g.t, g.todo) && SameData(g.orig, m[a := v], g.keep) && Rings(m[a := v], g.q)
  {
    hide Ordered, Aligned, NextLinked, PrevLinked, Tagged, SameData, NotUser, Marked, Disjoint, Coalesced, Member,
        Placed, Distinct, AllLinked;
    LowNotTag(g.t, a);
    LowNotUser(g.t, g.q, g.keep, a);
    TaggedFrame(m, g.t, g.brk, g.todo, a, v);
    SameDataWrite(g.orig, m, g.keep, a, v);
    RingsFrame(m, g.q, a, v);
  }

  lemma MidTop(m: Memory, g: Ghost, v: int)
    requires Mid(m, g)
    ensures Mid(m[TOP_WORD := v], g.(top := v))
  {
    hide Ordered, Covers, Tagged, Coalesced, Kept, SameData, Rings;
    LowWrite(m, g, TOP_WORD, v);
  }

  /** mark_binblock. */
  lemma MidMark(m: Memory, g: Ghost, b: int)
    requires Mid(m, g) && 0 <= b < NAV
    ensures 0 <= Rd(m, BINBLOCKS) && BitSet(WithBit(Rd(m, BINBLOCKS), b / BINBLOCKWIDTH), b / BINBLOCKWIDTH)
    ensures Mid(m[BINBLOCKS := WithBit(Rd(m, BINBLOCKS), b / BINBLOCKWIDTH)], g)
  {
    hide Ordered, Covers, Tagged, Coalesced, Kept, SameData, Rings;
    var w, k := Rd(m, BINBLOCKS), b / BINBLOCKWIDTH;
    LowWrite(m, g, BINBLOCKS, WithBit(w, k));
    Power32();
    BitsBelow(w, k, 32);
    forall j: nat
      ensures BitSet(WithBit(w, k), j) == (k == j || BitSet(w, j))
    {
      WithBitSets(w, k, j);
    }
  }

  /** Clearing the bit of a block whose four lists are empty. */
  lemma MidClear(m: Memory, g: Ghost, k: nat)
    requires Mid(m, g) && k < NAV / BINBLOCKWIDTH
    requires forall b | 4 * k <= b < 4 * k + 4 && b < |g.q.ring| && 2 <= b :: g.q.ring[b] == []
    ensures 0 <= Rd(m, BINBLOCKS) && Mid(m[BINBLOCKS := WithoutBit(Rd(m, BINBLOCKS), k)], g)
  {
    hide Ordered, Covers, Tagged, Coalesced, Kept, SameData, Rings;
    var w := Rd(m, BINBLOCKS);
    LowWrite(m, g, BINBLOCKS, WithoutBit(w, k));
    Power32();
    BitsBelow(w, k, 32);
    forall j: nat
      ensures BitSet(WithoutBit(w, k), j) == (k != j && BitSet(w, j))
    {
      WithBitSets(w, k, j);
    }
  }

  // Reading the arena.

  /** chunksize: the size word without its two low bits. */
  function ChunkSize(m: Memory, p: int): int {
    Rd(m, p + SIZE) - Rd(m, p + SIZE) % 4
  }

  /** prev_inuse. */
  predicate PrevInuse(m: Memory, p: int) {
    Rd(m, p + SIZE) % 2 == 1
  }

  lemma ReadHead(m: Memory, g: Ghost, p: int)
    requires Mid(m, g) && p in g.t.size && p + SIZE !in g.todo
    ensures Rd(m, p + SIZE) == Head(g.t, p) && ChunkSize(m, p) == g.t.size[p] && MINSIZE <= g.t.size[p]
    ensures PrevInuse(m, p) <==> (p !in g.t.prev || g.t.prev[p] !in g.t.free)
    ensures g.t.size[p] % ALIGN == 0 && p % ALIGN == 0 && g.t.base <= p && AV_END <= p && p + g.t.size[p] <= g.brk
    ensures p != g.t.top ==> p + g.t.size[p] <= g.t.top && p + g.t.size[p] in g.t.size
                             && p + g.t.size[p] in g.t.prev && g.t.prev[p + g.t.size[p]] == p
  {
    hide Coalesced, Rings, Ordered, Marked, Kept, SameData, FeetOk, Sized, Aligned, Disjoint, NextLinked, PrevLinked,
      HeadsOk, ChunkSize, PrevInuse;
    HeadAt(m, g.t, g.todo, p);
    Placement(g.t, p);
    Placement(g.t, g.t.top);
    ReadTags(m, g.t, p);
    if p != g.t.top {
      NextIn(g.t, p);
      Placement(g.t, p + g.t.size[p]);
    }
  }

  lemma HeadAt(m: Memory, t: Tiles, e: set<int>, p: int)
    requires HeadsOk(m, t, e) && p in t.size && p + SIZE !in e
    ensures Rd(m, p + SIZE) == Head(t, p)
  {
  }

  lemma Placement(t: Tiles, p: int)
    requires Sized(t) && Aligned(t) && p in t.size
    ensures t.base <= p <= t.top && MINSIZE <= t.size[p] && p % ALIGN == 0 && t.size[p] % ALIGN == 0
  {
  }

  /** The size and the low bit of a size word. */
  lemma ReadTags(m: Memory, t: Tiles, p: int)
    requires p in t.size && Rd(m, p + SIZE) == Head(t, p) && t.size[p] % ALIGN == 0
    ensures ChunkSize(m, p) == t.size[p] && (PrevInuse(m, p) <==> (p !in t.prev || t.prev[p] !in t.free))
  {
  }

  /** The footer below p leads to the free chunk there. */
  lemma ReadFoot(m: Memory, g: Ghost, p: int)
    requires Mid(m, g) && p in g.t.size && p in g.t.prev && g.t.prev[p] in g.t.free && p !in g.todo
    ensures var f := g.t.prev[p];
              f in g.t.size && Rd(m, p + PREV_SIZE) == g.t.size[f] && f == p - g.t.size[f] && f != g.t.top
    ensures var f := g.t.prev[p]; f in g.t.prev ==> g.t.prev[f] !in g.t.free
  {
    hide Rings, Ordered, Marked, Kept, SameData, HeadsOk, Sized, Aligned, Disjoint, NextLinked;
    var f := g.t.prev[p];
    assert f + g.t.size[f] == p;
    if f in g.t.prev {
      assert g.t.prev[f] + g.t.size[g.t.prev[f]] == f;
    }
  }

  /** last(b) and first(b). */
  lemma ReadBin(m: Memory, q: Bins, b: int)
    requires Rings(m, q) && 1 <= b < NAV
    ensures |q.ring| == NAV
    ensures var r := q.ring[b]; Rd(m, BinAt(b) + BK) == if r == [] then BinAt(b) else r[|r| - 1]
    ensures var r := q.ring[b]; Rd(m, BinAt(b) + FD) == if r == [] then BinAt(b) else r[0]
    ensures var r := q.ring[b]; forall i | 0 <= i < |r| :: At(q, r[i], i) && q.bin[r[i]] == b && AV_END <= r[i]
  {
    hide Placed, Distinct;
    var s, r := Full(b, q.ring[b]), q.ring[b];
    assert Links(m, s);
    assert s[0] == BinAt(b) && s[|s| - 1] == BinAt(b);
    assert Rd(m, s[0] + FD) == s[1] && Rd(m, s[|s| - 1] + BK) == s[|s| - 2];
    forall i | 0 <= i < |r|
      ensures At(q, r[i], i) && q.bin[r[i]] == b && AV_END <= r[i]
    {
      MemberAt(q, b, i);
    }
  }

  /** victim->bk and FD->fd, along a list. */
  lemma ReadNode(m: Memory, q: Bins, p: int, i: int)
    requires Rings(m, q) && At(q, p, i)
    ensures var r := q.ring[q.bin[p]];
            Rd(m, p + BK) == (if i == 0 then BinAt(q.bin[p]) else r[i - 1])
            && Rd(m, p + FD) == (if i + 1 == |r| then BinAt(q.bin[p]) else r[i + 1])
  {
    hide Placed, Distinct, Spaced, Member;
    var s := Full(q.bin[p], q.ring[q.bin[p]]);
    assert Links(m, s);
    assert s[i + 1] == p;
    assert Rd(m, s[i] + FD) == s[i + 1] && Rd(m, s[i + 2] + BK) == s[i + 1];
  }

  // The chunks in use, with their sizes.

  function Blocks(t: Tiles): map<int, int> {
    map p | p in t.size && Live(t, p) :: t.size[p]
  }

  lemma BlocksTake(t: Tiles, p: int)
    requires p in t.size && p != t.top
    ensures Blocks(Take(t, p)) == Blocks(t)[p := t.size[p]]
  {
  }

  lemma BlocksRelease(t: Tiles, p: int)
    requires p in t.size
    ensures Blocks(Release(t, p)) == Blocks(t) - {p}
  {
  }

  lemma BlocksCut(t: Tiles, p: int, n: int)
    requires Live(t, p) && p + n !in t.size && p + n !in t.free && p + n != t.top
    ensures Blocks(Cut(t, p, n)) == Blocks(t)[p := n][p + n := t.size[p] - n]
  {
  }

  lemma BlocksCutTop(t: Tiles, n: int)
    requires t.top in t.size && t.top !in t.free && t.top + n !in t.size
    ensures Blocks(CutTop(t, n)) == Blocks(t)[t.top := n]
  {
  }

  lemma BlocksAbsorb(t: Tiles, p: int)
    requires p in t.size && p + t.size[p] in t.size && p != t.top && p + t.size[p] != t.top && 0 < t.size[p]
    ensures var n := p + t.size[p]; Blocks(Absorb(t, p)) == (Blocks(t) - {n})[p := t.size[p] + t.size[n]]
  {
  }

  lemma BlocksAbsorbTop(t: Tiles, p: int)
    requires p in t.size && t.top in t.size && p != t.top
    ensures Blocks(AbsorbTop(t, p)) == Blocks(t) - {p}
  {
  }

  lemma BlocksResizeTop(t: Tiles, n: int)
    requires t.top in t.size
    ensures Blocks(ResizeTop(t, n)) == Blocks(t)
  {
  }

  // Before the first extension: no chunk exists, top is the header of bin 0.

  const INITIAL_TOP := AV

  function NoLists(): Bins {
    Bins(map[], seq(NAV, _ => []))
  }

  function NoChunks(): Tiles {
    Tiles(0, 0, map[], map[], {})
  }

  ghost predicate Fresh(m: Memory, g: Ghost) {
    && g.t == NoChunks() && g.q == NoLists() && g.todo == {} && g.keep == map[]
    && Rings(m, g.q) && Rd(m, BINBLOCKS) == 0 && Rd(m, TOP_WORD) == INITIAL_TOP
  }

  /** The first chunk is top itself. */
  lemma FirstTop(m: Memory, g: Ghost, b: int, s: int)
    requires Fresh(m, g) && AV_END <= b && b % ALIGN == 0 && s % ALIGN == 0 && MINSIZE <= s
    ensures var t := Tiles(b, b, map[b := s], map[], {});
            Heap(m[TOP_WORD := b][b + SIZE := s + PREV_INUSE], Ghost(t, NoLists(), b + s, {}, map[], g.orig, b))
  {
    hide Placed, Distinct, Member, AllLinked;
    RingsFrame(m, g.q, TOP_WORD, b);
    RingsFrame(m[TOP_WORD := b], g.q, b + SIZE, s + PREV_INUSE);
  }

  /** A call starts by noting the blocks in use and their contents. */
  lemma Start(m: Memory, g: Ghost)
    requires Heap(m, g)
    ensures Heap(m, g.(keep := Blocks(g.t), orig := m))
  {
    hide Covers, Tagged, Rings, Ordered, Marked, Coalesced;
    var keep := Blocks(g.t);
    forall p | p in keep
      ensures Live(g.t, p) && p !in g.q.bin && keep[p] <= g.t.size[p]
    {
      assert p !in g.q.bin.Keys;
    }
  }

  lemma Restart(m: Memory, g: Ghost, orig: Memory)
    requires Heap(m, g)
    ensures Heap(m, g.(keep := map[], orig := orig))
  {
    hide Covers, Tagged, Rings, Ordered, Marked, Coalesced;
  }
}
