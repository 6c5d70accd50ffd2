/**
 What the statements of malloc do to the ghost state, and why the search finds a best fit.
 These are the facts that the methods of the allocator call on.
 */
module Steps {
  import opened Common
  import opened Chunks
  import opened Headers
  import opened BinLists
  import opened Binning
  import opened Arena
  import opened BestFit

  /** The size word of n is about to get the bit that says that the chunk below is in use. */
  ghost predicate MarkReady(m: Memory, t: Tiles, n: int) {
    n in t.size &&
    var z, hd := t.size[n], Rd(m, n + SIZE);
    z % ALIGN == 0 && (hd == z || hd == z + PREV_INUSE) && Head(t, n) == z + PREV_INUSE
  }

  lemma EvenSize(m: Memory, t: Tiles, n: int)
    requires MarkReady(m, t, n)
    ensures n in t.size
    ensures var hd := Rd(m, n + SIZE); (if hd % 2 == 0 then hd + PREV_INUSE else hd) == Head(t, n)
  {
    SetLowBit(t.size[n], Rd(m, n + SIZE));
  }

  lemma SetLowBit(z: int, hd: int)
    requires z % ALIGN == 0 && (hd == z || hd == z + PREV_INUSE)
    ensures (if hd % 2 == 0 then hd + PREV_INUSE else hd) == z + PREV_INUSE
  {
    assert z == 2 * (4 * (z / ALIGN));
  }

  /** Taking p readies the size word above it. */
  lemma TakeHead(m: Memory, g: Ghost, p: int, size: int)
    requires Mid(m, g) && g.todo == {} && p in g.t.free && p in g.t.size && p != g.t.top
    requires size == ChunkSize(m, p) || size == g.t.size[p]
    ensures size == g.t.size[p] && MarkReady(m, Take(g.t, p), p + size)
  {
    hide Mid;
    ReadHead(m, g, p);
    ReadHead(m, g, p + g.t.size[p]);
  }

  lemma TakenHeap(m0: Memory, m: Memory, g0: Ghost, g: Ghost, p: int, i: int)
    requires Heap(m0, g0) && Mid(m, g) && At(g0.q, p, i) && p in g0.t.size
    requires var a := p + g0.t.size[p] + SIZE;
             g == g0.(t := Take(g0.t, p), q := Without(g0.q, p, i), todo := g0.todo + {a} - {a})
    ensures Heap(m, g) && g == g0.(t := Take(g0.t, p), q := Without(g0.q, p, i))
  {
    hide Mid;
    assert g.todo == {};
    assert g.q.bin.Keys == g0.q.bin.Keys - {p};
  }

  lemma FreeChunk(m: Memory, g: Ghost, p: int)
    requires Heap(m, g) && p in g.q.bin
    ensures p in g.t.free && p in g.t.size && p != g.t.top && p !in g.keep
    ensures Mid(m, g) && g.todo == {}
  {
    hide Covers, Tagged, Rings, Ordered, Marked;
    assert p in g.q.bin.Keys;
  }

  /** Unlinking a chunk and relinking the last remainder leave the size words alone. */
  lemma UnlinkHeads(m: Memory, h: Ghost, p: int, i: int)
    requires Mid(m, h) && At(h.q, p, i)
    ensures var fd, bk := Rd(m, p + FD), Rd(m, p + BK);
            forall x | x in h.t.size :: Rd(m[fd + BK := bk][bk + FD := fd], x + SIZE) == Rd(m, x + SIZE)
  {
    hide Tagged, Coalesced, Ordered, Marked, Kept, SameData, Aligned, NextLinked, PrevLinked, LinkAddr, Member, Placed,
        Distinct, Spaced, AllLinked;
    RingsUnlink(m, h.q, p, i);
    var fd, bk := Rd(m, p + FD), Rd(m, p + BK);
    forall x | x in h.t.size
      ensures Rd(m[fd + BK := bk][bk + FD := fd], x + SIZE) == Rd(m, x + SIZE)
    {
      TagNotLink(h.t, h.q, x);
    }
  }

  lemma RelinkHeads(m: Memory, h: Ghost, p: int)
    requires Mid(m, h) && p in h.t.size
    ensures var lr := BinAt(1);
            forall x | x in h.t.size ::
                  Rd(m[lr + BK := p][lr + FD := p][p + BK := lr][p + FD := lr], x + SIZE) == Rd(m, x + SIZE)
  {
    hide Tagged, Coalesced, Ordered, Marked, Kept, SameData, Aligned, NextLinked, PrevLinked, Rings, Disjoint;
    forall x | x in h.t.size
      ensures x + SIZE != p + FD && x + SIZE != p + BK
    {
      HeadNoLink(m, h, p, x);
    }
  }

  lemma HeadNoLink(m: Memory, h: Ghost, p: int, x: int)
    requires Mid(m, h) && p in h.t.size && x in h.t.size
    ensures x + SIZE != p + FD && x + SIZE != p + BK
  {
    hide Tagged, Coalesced, Ordered, Marked, Kept, SameData, Aligned, NextLinked, PrevLinked, Rings;
    LinkNotTag(h.t, p);
  }

  /** The lists with the last remainder taken off. */
  function NoRemainder(q: Bins): Bins
    requires 1 < |q.ring| && (q.ring[1] != [] ==> At(q, q.ring[1][0], 0))
  {
    if q.ring[1] == [] then q else Without(q, q.ring[1][0], 0)
  }

  lemma RemainderFacts(m: Memory, h: Ghost)
    requires Mid(m, h)
    ensures |h.q.ring| == NAV && |h.q.ring[1]| <= 1
    ensures h.q.ring[1] != [] ==> At(h.q, h.q.ring[1][0], 0) && h.q.bin[h.q.ring[1][0]] == 1
    ensures h.q.ring[1] != [] ==> var x := h.q.ring[1][0];
              Rd(m, x + FD) == BinAt(1) && Rd(m, x + BK) == BinAt(1) && AV_END <= x
    ensures Rd(m, BinAt(1) + FD) == if h.q.ring[1] == [] then BinAt(1) else h.q.ring[1][0]
  {
    hide Placed, Distinct, Spaced, AllLinked, Covers, Tagged, Coalesced, Kept, SameData, Marked, Indexed, Member;
    ReadBin(m, h.q, 1);
    if h.q.ring[1] != [] {
      ReadNode(m, h.q, h.q.ring[1][0], 0);
    }
  }

  /** The four writes of link_last_remainder are those of an unlink and an insertion. */
  lemma MidRelink(m: Memory, h: Ghost, p: int)
    requires Mid(m, h) && p in h.t.size && p != h.t.top && p !in h.keep && p !in h.q.bin
    ensures 1 < |h.q.ring| && |h.q.ring[1]| <= 1 && (h.q.ring[1] != [] ==> At(h.q, h.q.ring[1][0], 0))
    ensures var lr := BinAt(1);
            Mid(m[lr + BK := p][lr + FD := p][p + BK := lr][p + FD := lr], h.(q := With(NoRemainder(h.q), p, 1, 0)))
  {
    hide Mid, Fits;
    RemainderFacts(m, h);
    var lr := BinAt(1);
    var h1 := h.(q := NoRemainder(h.q));
    var m1 := if h.q.ring[1] == [] then m else m[lr + BK := lr][lr + FD := lr];
    if h.q.ring[1] != [] {
      MidUnlink(m, h, h.q.ring[1][0], 0);
    }
    assert Mid(m1, h1) && h1.q.ring[1] == [];
    assert Fits(h1.q, h1.t.size, 1, 0, h1.t.size[p]) by {
      RemainderFits(h1.q, h1.t.size, h1.t.size[p]);
    }
    assert p !in h1.q.bin;
    MidInsert(m1, h1, p, 1, 0);
    assert Full(1, h1.q.ring[1]) == [lr, lr];
    ChunkAbove(m, h, p);
    SameWrites(m, m1, lr, p);
  }

  lemma SameWrites(m: Memory, m1: Memory, lr: int, p: int)
    requires lr + 16 <= p && (m1 == m || m1 == m[lr + BK := lr][lr + FD := lr])
    ensures Inserted(m1, lr, lr, p) == m[lr + BK := p][lr + FD := p][p + BK := lr][p + FD := lr]
  {
  }

  lemma ChunkAbove(m: Memory, h: Ghost, p: int)
    requires Mid(m, h) && p in h.t.size
    ensures AV_END <= p
  {
    hide Rings, Tagged, Ordered, Marked, Kept, SameData, Coalesced, Aligned, NextLinked, PrevLinked, Disjoint;
  }

  lemma RemainderFits(q: Bins, size: map<int, int>, n: int)
    requires |q.ring| == NAV && q.ring[1] == []
    ensures Fits(q, size, 1, 0, n)
  {
  }

  lemma MidBin(m: Memory, h: Ghost, b: int)
    requires Mid(m, h) && 2 <= b < NAV
    ensures |h.q.ring| == NAV
    ensures var r := h.q.ring[b];
            Rd(m, BinAt(b) + FD) == (if r == [] then BinAt(b) else r[0])
            && Rd(m, BinAt(b) + BK) == (if r == [] then BinAt(b) else r[|r| - 1])
            && (r != [] ==> BitSet(Rd(m, BINBLOCKS), b / BINBLOCKWIDTH) && r[0] != BinAt(b))
  {
    hide Member, Placed, Distinct, Spaced, AllLinked, Covers, Tagged, Coalesced, Ordered, Kept, SameData;
    ReadBin(m, h.q, b);
    if h.q.ring[b] != [] {
      assert AV_END <= h.q.ring[b][0];
    }
  }

  lemma MidNode(m: Memory, h: Ghost, b: int, i: int)
    requires Mid(m, h) && h.todo == {} && 2 <= b < NAV && |h.q.ring| == NAV && 0 <= i < |h.q.ring[b]|
    ensures var r := h.q.ring[b];
            r[i] in h.t.size && ChunkSize(m, r[i]) == h.t.size[r[i]] && r[i] != BinAt(b)
            && Rd(m, r[i] + FD) == (if i + 1 == |r| then BinAt(b) else r[i + 1])
            && Rd(m, r[i] + BK) == (if i == 0 then BinAt(b) else r[i - 1])
  {
    var p := h.q.ring[b][i];
    MidLinked(m, h, b, i);
    hide Mid, Rings;
    ReadHead(m, h, p);
    ReadNode(m, h.q, p, i);
  }

  lemma MidLinked(m: Memory, h: Ghost, b: int, i: int)
    requires Mid(m, h) && 1 <= b < NAV && |h.q.ring| == NAV && 0 <= i < |h.q.ring[b]|
    ensures var p := h.q.ring[b][i]; Rings(m, h.q) && At(h.q, p, i) && h.q.bin[p] == b && p in h.t.size && p != h.t.top
  {
    hide Placed, Distinct, Spaced, AllLinked, Covers, Tagged, Coalesced, Ordered, Kept, SameData, Marked;
    MemberAt(h.q, b, i);
    assert h.q.ring[b][i] in h.q.bin.Keys;
  }

  /** In a small bin all chunks are equal, so the front is the right place. */
  lemma SmallFits(m: Memory, h: Ghost, s: int, b: int)
    requires Mid(m, h) && MINSIZE <= s < MAX_SMALLBIN_SIZE && s % ALIGN == 0 && b == s / 8
    ensures Fits(h.q, h.t.size, b, 0, s)
  {
    BinIndexRange(s);
    hide Placed, Distinct, Spaced, AllLinked, Sized, NextLinked, PrevLinked, Disjoint, Tagged, Coalesced, Kept,
        SameData, Marked, BinIndex;
    forall j | 0 <= j < |h.q.ring[b]| && h.q.ring[b][j] in h.t.size
      ensures h.t.size[h.q.ring[b][j]] == s
    {
      MemberAt(h.q, b, j);
      SmallBin(h.q, h.t.size, h.q.ring[b][j]);
    }
  }

  /** Chunks of the same size come behind, to be taken first. */
  ghost predicate BeforeEquals(h: Ghost, b: int, i: int, s: int) {
    0 <= b < |h.q.ring| && i <= |h.q.ring[b]| && forall j | 0 <= j < i :: h.q.ring[b][j] in h.t.size
                                                                         && s < h.t.size[h.q.ring[b][j]]
  }

  lemma LargeFits(m: Memory, h: Ghost, s: int, b: int, i: int)
    requires Mid(m, h) && MINSIZE <= s && b == BinIndex(s) && 2 <= b < NAV && |h.q.ring| == NAV
             && 0 <= i <= |h.q.ring[b]|
    requires forall j | 0 <= j < i :: h.q.ring[b][j] in h.t.size && s <= h.t.size[h.q.ring[b][j]]
    requires i < |h.q.ring[b]| ==> h.q.ring[b][i] in h.t.size && h.t.size[h.q.ring[b][i]] <= s
    ensures Fits(h.q, h.t.size, b, i, s)
  {
    hide Member, Placed, Distinct, Spaced, AllLinked, Covers, Tagged, Coalesced, Kept, SameData, Marked, BinIndex;
  }

  /** The heap at rest, or not yet extended for the first time. */
  ghost predicate Search(m: Memory, h: Ghost) {
    Fresh(m, h) || Heap(m, h)
  }

  /** p has been handed out for a padded request of nb bytes. */
  ghost predicate Handed(h: Ghost, h': Ghost, p: int, nb: int) {
    && p !in Blocks(h.t) && p in h'.t.size && AV_END <= p
    && Blocks(h'.t) == Blocks(h.t)[p := h'.t.size[p]]
    && nb <= h'.t.size[p] < nb + MINSIZE && RestLinked(h, h', p, nb)
    && h'.keep == h.keep && h'.orig == h.orig
  }

  /** What is cut off a linked chunk becomes the last remainder. */
  ghost predicate RestLinked(h: Ghost, h': Ghost, p: int, nb: int) {
    p in h.t.size && p != h.t.top && nb + MINSIZE <= h.t.size[p] ==>
      && p in h'.t.size && h'.t.size[p] == nb && p + nb in h'.t.size && h'.t.size[p + nb] == h.t.size[p] - nb
      && p + nb in h'.q.bin && h'.q.bin[p + nb] == 1
  }

  /** The arena has not been extended. */
  ghost predicate InPlace(h: Ghost, h': Ghost) {
    h'.brk == h.brk && h'.t.base == h.t.base
  }

  lemma SearchBin(m: Memory, h: Ghost, b: int)
    requires Search(m, h) && 1 <= b < NAV
    ensures Rings(m, h.q) && |h.q.ring| == NAV && (h.q.ring[b] != [] ==> Heap(m, h))
    ensures var r := h.q.ring[b]; Rd(m, BinAt(b) + BK) == if r == [] then BinAt(b) else r[|r| - 1]
    ensures var r := h.q.ring[b]; forall i | 0 <= i < |r| ::
              At(h.q, r[i], i) && r[i] in h.q.bin && h.q.bin[r[i]] == b && AV_END <= r[i]
    ensures h.q.ring[b] != [] ==> Rd(m, BinAt(b) + BK) != BinAt(b)
  {
    hide Member, Placed, Distinct, Spaced, AllLinked, Covers, Tagged, Coalesced, Ordered, Marked;
    ReadBin(m, h.q, b);
  }

  /** The last chunk of a small bin is a smallest fit. */
  lemma SmallVictim(m: Memory, h: Ghost, nb: int, b: int)
    requires Heap(m, h) && MINSIZE <= nb < MAX_SMALLBIN_SIZE - 8 && nb % ALIGN == 0
    requires |h.q.ring| == NAV && (b == nb / 8 || (b == nb / 8 + 1 && h.q.ring[nb / 8] == [])) && h.q.ring[b] != []
    ensures var p := h.q.ring[b][|h.q.ring[b]| - 1];
            SmallestFit(h.q, h.t.size, nb, p) && nb <= h.t.size[p] < nb + MINSIZE && p != h.t.top
  {
    hide Distinct, Spaced, AllLinked, Tagged, Coalesced, Marked, Sized, NextLinked, PrevLinked, Disjoint, Kept,
        SameData, Sorted;
    BinIndexRange(nb);
    var p := h.q.ring[b][|h.q.ring[b]| - 1];
    MemberAt(h.q, b, |h.q.ring[b]| - 1);
    assert p in h.q.bin.Keys;
    SmallBin(h.q, h.t.size, p);
    LowAlways(h.q, h.t.size, nb);
    hide Member, Aligned, Indexed;
    FirstIsSmallest(h.q, h.t.size, nb, p, |h.q.ring[b]| - 1);
  }

  lemma SmallScanPoint(m: Memory, h: Ghost, nb: int)
    requires Search(m, h) && MINSIZE <= nb < MAX_SMALLBIN_SIZE - 8 && nb % ALIGN == 0
    requires |h.q.ring| == NAV && h.q.ring[nb / 8] == [] && h.q.ring[nb / 8 + 1] == []
    ensures ScanPoint(h.q, h.t.size, nb, nb / 8 + 2)
  {
    BinIndexRange(nb);
    if Fresh(m, h) {
      hide Heap;
    } else {
      hide Covers, Distinct, Spaced, AllLinked, Tagged, Coalesced, Marked, Kept, SameData, Sorted;
      LowAlways(h.q, h.t.size, nb);
      ScannableAbove(h.q, h.t.size, nb, nb / 8 + 2);
      hide Indexed, Scannable, Member;
    }
  }

  /** Reading the chunk at place i of the bin of nb. */
  lemma LargeVictim(m: Memory, h: Ghost, nb: int, b: int, i: int)
    requires Search(m, h) && |h.q.ring| == NAV && 2 <= b < NAV && 0 <= i < |h.q.ring[b]|
    ensures Heap(m, h) && var r := h.q.ring[b];
            At(h.q, r[i], i) && r[i] in h.q.bin && r[i] in h.t.size && ChunkSize(m, r[i]) == h.t.size[r[i]]
                && r[i] != h.t.top
            && r[i] in h.t.free && AV_END <= r[i] && r[i] != BinAt(b)
            && Rd(m, r[i] + BK) == if i == 0 then BinAt(b) else r[i - 1]
  {
    hide Fresh, Search, Heap, Mid, Rings, ChunkSize;
    var p := h.q.ring[b][i];
    SearchBin(m, h, b);
    FreeChunk(m, h, p);
    ReadHead(m, h, p);
    ReadNode(m, h.q, p, i);
  }

  lemma LargeSmallest(m: Memory, h: Ghost, nb: int, b: int, i: int)
    requires Heap(m, h) && 0 <= nb && 2 <= b < NAV && b == BinIndex(nb) && |h.q.ring| == NAV && 0 <= i < |h.q.ring[b]|
    requires At(h.q, h.q.ring[b][i], i) && h.q.bin[h.q.ring[b][i]] == b
    requires h.q.ring[b][i] in h.t.size && nb <= h.t.size[h.q.ring[b][i]]
    requires forall j | i < j < |h.q.ring[b]| :: h.q.ring[b][j] in h.t.size && h.t.size[h.q.ring[b][j]] < nb
    ensures SmallestFit(h.q, h.t.size, nb, h.q.ring[b][i])
  {
    hide Covers, Distinct, Spaced, AllLinked, Tagged, Coalesced, Marked, Kept, SameData, Sorted, Member, SmallestFit,
        At, BinIndex;
    LowAlways(h.q, h.t.size, nb);
    hide LowBins, Indexed;
    FirstIsSmallest(h.q, h.t.size, nb, h.q.ring[b][i], i);
  }

  /** A chunk that is too big for an exact fit: the scan starts again in this bin. */
  lemma LargeRescan(m: Memory, h: Ghost, nb: int, b: int, i: int)
    requires Heap(m, h) && MINSIZE <= nb && nb % ALIGN == 0 && 4 <= b < NAV && b == BinIndex(nb) && |h.q.ring| == NAV
    requires 0 <= i < |h.q.ring[b]| && h.q.ring[b][i] in h.t.size && nb <= h.t.size[h.q.ring[b][i]]
    ensures ScanPoint(h.q, h.t.size, nb, b)
  {
    hide Covers, Distinct, Spaced, AllLinked, Tagged, Coalesced, Marked, Kept, SameData, BinIndex;
    LowAlways(h.q, h.t.size, nb);
    ScannableAbove(h.q, h.t.size, nb, b + 1);
    hide LowBins, Indexed, Placed;
    MemberAt(h.q, b, 0);
    var p := h.q.ring[b][0];
    assert p in h.q.bin.Keys;
    assert nb <= h.t.size[p];
  }

  /** No chunk of the bin of nb is large enough: the scan starts in the next one. */
  lemma LargePassed(m: Memory, h: Ghost, nb: int, b: int)
    requires Search(m, h) && MINSIZE <= nb && nb % ALIGN == 0 && 4 <= b < NAV - 1 && b == BinIndex(nb)
             && |h.q.ring| == NAV
    requires forall j | 0 <= j < |h.q.ring[b]| :: h.q.ring[b][j] in h.t.size && h.t.size[h.q.ring[b][j]] < nb
    ensures ScanPoint(h.q, h.t.size, nb, b + 1)
  {
    if Fresh(m, h) {
      hide Heap;
    } else {
      hide Covers, Distinct, Spaced, AllLinked, Tagged, Coalesced, Marked, Kept, SameData, Sorted, BinIndex, Indexed,
        Scannable, Member, Placed, LowBins;
      LowAlways(h.q, h.t.size, nb);
      LowPassed(h.q, h.t.size, nb, b);
      ScannableAbove(h.q, h.t.size, nb, b + 1);
    }
  }

  /** A bin without a chunk that fits. */
  lemma LowPassed(q: Bins, size: map<int, int>, nb: int, b: int)
    requires Placed(q) && LowBins(q, size, nb, b) && 2 <= b < NAV && |q.ring| == NAV
    requires forall j | 0 <= j < |q.ring[b]| :: q.ring[b][j] in size && size[q.ring[b][j]] < nb
    ensures LowBins(q, size, nb, b + 1)
  {
    forall f | f in q.bin && f in size && 2 <= q.bin[f] < b + 1
      ensures size[f] < nb
    {
      if q.bin[f] == b {
        var i :| 0 <= i < |q.ring[b]| && q.ring[b][i] == f;
      }
    }
  }

  /** Only chunks that are too small left the bin of the last remainder. */
  ghost predicate NoFitLost(h: Ghost, h': Ghost, nb: int) {
    && (forall f | f in h.q.bin && f in h.t.size && nb <= h.t.size[f] ::
          f in h'.q.bin && h'.q.bin[f] == h.q.bin[f] && h.q.bin[f] != 1)
    && (forall f | f in h'.q.bin :: f in h.q.bin && h'.q.bin[f] != 1)
  }

  lemma SearchRemainder(m: Memory, h: Ghost)
    requires Search(m, h)
    ensures |h.q.ring| == NAV && |h.q.ring[1]| <= 1
    ensures Rd(m, BinAt(1) + FD) == if h.q.ring[1] == [] then BinAt(1) else h.q.ring[1][0]
    ensures h.q.ring[1] != [] ==> Heap(m, h) && Mid(m, h) && var x := h.q.ring[1][0];
              At(h.q, x, 0) && x in h.q.bin && h.q.bin[x] == 1 && Rd(m, x + FD) == BinAt(1) && Rd(m, x + BK) == BinAt(1)
                  && x != BinAt(1)
  {
    SearchBin(m, h, 1);
    hide Rings, Mid;
    if Heap(m, h) {
      hide Fresh;
      RemainderFacts(m, h);
    } else {
      hide Heap;
      FreshRemainder(m, h);
    }
  }

  lemma ScanSize(q: Bins, size: map<int, int>, nb: int, idx: int)
    requires ScanPoint(q, size, nb, idx)
    ensures MINSIZE <= nb && nb % ALIGN == 0 && 4 <= idx < NAV
  {
  }

  lemma FreshRemainder(m: Memory, h: Ghost)
    requires Fresh(m, h)
    ensures h.q.ring[1] == [] && Rd(m, BinAt(1) + FD) == BinAt(1)
  {
    ReadBin(m, h.q, 1);
  }

  lemma NoRemainderLost(m: Memory, h: Ghost, nb: int)
    requires Search(m, h) && |h.q.ring| == NAV && h.q.ring[1] == []
    ensures NoFitLost(h, h, nb)
  {
    hide Member, Distinct, Spaced, AllLinked, Covers, Tagged, Coalesced, Ordered, Marked;
    forall f | f in h.q.bin
      ensures h.q.bin[f] != 1
    {
      assert f in h.q.ring[h.q.bin[f]];
    }
  }

  /** Putting a last remainder that is too small into its bin does not disturb the search. */
  lemma Rebinned(m0: Memory, m: Memory, h: Ghost, h': Ghost, nb: int, idx: int, p: int, i: int)
    requires Heap(m0, h) && Mid(m, h') && At(h.q, p, 0) && h.q.bin[p] == 1 && |h.q.ring[1]| <= 1 && p in h.t.size
    requires MINSIZE <= h.t.size[p] < nb && ScanPoint(h.q, h.t.size, nb, idx)
    requires var b, q1 := BinIndex(h.t.size[p]), Without(h.q, p, 0);
             2 <= b < NAV && Fits(q1, h.t.size, b, i, h.t.size[p]) && h' == h.(q := With(q1, p, b, i))
    ensures Search(m, h') && ScanPoint(h'.q, h'.t.size, nb, idx) && NoFitLost(h, h', nb)
  {
    hide Mid;
    var s := h.t.size[p];
    BinIndexMonotone(s, nb);
    hide Fits, ScanPoint, BinIndex;
    assert h'.q.bin.Keys == h.q.bin.Keys;
    RebinnedLost(m0, h, h', nb, p, i);
  }

  lemma RebinnedLost(m0: Memory, h: Ghost, h': Ghost, nb: int, p: int, i: int)
    requires Heap(m0, h) && At(h.q, p, 0) && h.q.bin[p] == 1 && |h.q.ring[1]| <= 1 && p in h.t.size
    requires MINSIZE <= h.t.size[p] < nb && 2 <= BinIndex(h.t.size[p]) < NAV
    requires var q1 := Without(h.q, p, 0); |q1.ring| == NAV && 0 <= i <= |q1.ring[BinIndex(h.t.size[p])]|
    requires h' == h.(q := With(Without(h.q, p, 0), p, BinIndex(h.t.size[p]), i))
    ensures NoFitLost(h, h', nb)
  {
    hide Member, Distinct, Spaced, AllLinked, Covers, Tagged, Coalesced, Ordered, Marked, BinIndex, Kept, SameData;
    forall f | f in h.q.bin && f != p
      ensures h.q.bin[f] != 1
    {
      assert f in h.q.ring[h.q.bin[f]];
    }
  }

  lemma SplitKeeps(h: Ghost, p: int, n: int, r: int)
    requires p in h.t.size && p != h.t.top && p + n !in h.t.size && h.t.size[p] == n + r
    requires h.q.bin.Keys <= h.t.size.Keys && (forall k | k in h.keep :: k in h.t.size) && h.t.top in h.t.size
    ensures var t := SplitFree(h.t, p, n);
            p in t.size && p + n in t.size && p + n != t.top && p + n !in h.keep && p + n !in h.q.bin && p + n in t.free
  {
    NotLinked(h.t, h.q, p + n);
  }

  lemma HeapFacts(m: Memory, h: Ghost)
    requires Heap(m, h)
    ensures h.q.bin.Keys <= h.t.size.Keys && (forall k | k in h.keep :: k in h.t.size) && h.t.top in h.t.size
    ensures h.q.bin.Keys == h.t.free && h.top == h.t.top
  {
    hide Covers, Rings, Tagged, Ordered, Marked, SameData;
    assert Covers(h.t, h.brk);
    CoversTop(h.t, h.brk);
  }

  lemma CoversTop(t: Tiles, brk: int)
    requires Covers(t, brk)
    ensures t.top in t.size
  {
  }

  lemma ResplitHeap(m0: Memory, m: Memory, h: Ghost, h': Ghost, p: int, n: int, r: int)
    requires Heap(m0, h) && Mid(m, h') && p in h.q.bin && h.q.bin[p] == 1 && p in h.t.size && p != h.t.top
    requires p + n !in h.t.size && h.t.size[p] == n + r && n % ALIGN == 0 && MINSIZE <= n
    requires Blocks(SplitFree(h.t, p, n)) == Blocks(h.t)[p := n] && p !in Blocks(h.t)
    requires 1 < |h.q.ring| && |h.q.ring[1]| <= 1 && (h.q.ring[1] != [] ==> At(h.q, h.q.ring[1][0], 0))
    requires h'.t == SplitFree(h.t, p, n) && h'.q == With(NoRemainder(h.q), p + n, 1, 0) && h'.todo == {}
    requires h'.keep == h.keep && h'.orig == h.orig && h'.brk == h.brk && h'.top == h.top
    ensures Heap(m, h') && Handed(h, h', p, n) && InPlace(h, h')
  {
    hide Mid;
    ChunkAbove(m0, h, p);
    OnlyRemainder(m0, h, p);
  }

  lemma OnlyRemainder(m: Memory, h: Ghost, p: int)
    requires Heap(m, h) && p in h.q.bin && h.q.bin[p] == 1 && 1 < |h.q.ring| && |h.q.ring[1]| <= 1
    ensures h.q.ring[1] == [p]
  {
    hide Member, Distinct, Spaced, AllLinked, Covers, Tagged, Coalesced, Ordered, Marked, Kept, SameData;
    assert p in h.q.ring[h.q.bin[p]];
  }

  lemma HandedWhole(h: Ghost, h': Ghost, p: int, i: int, nb: int)
    requires At(h.q, p, i) && p in h.t.free && p in h.t.size && p != h.t.top && AV_END <= p
             && nb <= h.t.size[p] < nb + MINSIZE
    requires h' == h.(t := Take(h.t, p), q := Without(h.q, p, i))
    ensures Handed(h, h', p, nb) && InPlace(h, h')
  {
    BlocksTake(h.t, p);
  }

  // The scan of the bins, block by block.

  /** All lists from b up to c are empty. */
  ghost predicate Empty(q: Bins, b: int, c: int) {
    |q.ring| == NAV && forall x | 0 <= b <= x < c && x < NAV :: q.ring[x] == []
  }

  /** Nothing below idx fits, and from idx on the first list that is not empty holds a fit. */
  ghost predicate Scan(m: Memory, h: Ghost, nb: int, idx: int) {
    && Heap(m, h) && MINSIZE <= nb && nb % ALIGN == 0 && 4 <= idx <= NAV && BinIndex(nb) <= idx
    && |h.q.ring| == NAV && h.q.ring[1] == []
    && LowBins(h.q, h.t.size, nb, idx) && Scannable(h.q, h.t.size, nb, idx)
  }

  /** No linked chunk is large enough. */
  ghost predicate NoneFits(h: Ghost, nb: int) {
    forall f | f in h.q.bin && f in h.t.size :: h.t.size[f] < nb
  }

  /** No linked chunk is large enough, nor is there top, with a chunk of the least size to be left of it. */
  ghost predicate Unmet(h: Ghost, nb: int) {
    NoneFits(h, nb) && (h.t.top in h.t.size ==> h.t.size[h.t.top] < nb + MINSIZE)
  }

  /** Nor is there room for nb bytes and the rounding to pages up to limit. */
  ghost predicate Exhausted(h: Ghost, limit: int, brk: int, nb: int) {
    Unmet(h, nb) && limit < brk + nb + 3 * PAGE
  }

  /** The break is raised only for what cannot be met otherwise, and only as far as needed. */
  ghost predicate Raised(h: Ghost, nb: int, brk: int, brk': int) {
    brk' == brk || (Unmet(h, nb) && brk <= brk' <= brk + nb + 3 * PAGE)
  }

  lemma SameFits(h: Ghost, h1: Ghost, nb: int)
    requires h1.q == h.q && h1.t == h.t
    ensures Unmet(h, nb) <==> Unmet(h1, nb)
  {
  }

  /** The bit vector says that there may be something to scan. */
  lemma ScanStart(m: Memory, h: Ghost, nb: int, idx: int)
    requires Search(m, h) && ScanPoint(h.q, h.t.size, nb, idx) && |h.q.ring| == NAV && h.q.ring[1] == []
    requires Power(idx / BINBLOCKWIDTH) <= Rd(m, BINBLOCKS)
    ensures Scan(m, h, nb, idx)
  {
    hide Heap, BinIndex;
  }

  lemma ScanRun(m: Memory, h: Ghost, nb: int, idx: int, c: int)
    requires Scan(m, h, nb, idx) && idx <= c <= NAV && Empty(h.q, idx, c)
    ensures Scan(m, h, nb, c)
  {
    hide Member, Distinct, Spaced, AllLinked, Covers, Tagged, Coalesced, Ordered, Marked, Kept, SameData, BinIndex;
    forall f | f in h.q.bin && f in h.t.size && 2 <= h.q.bin[f] < c
      ensures h.t.size[f] < nb
    {
      assert f in h.q.ring[h.q.bin[f]];
    }
  }

  lemma ScanDone(m: Memory, h: Ghost, nb: int)
    requires Scan(m, h, nb, NAV)
    ensures NoneFits(h, nb)
  {
    hide Member, Distinct, Spaced, AllLinked, Covers, Tagged, Coalesced, Ordered, Marked, Kept, SameData, BinIndex,
        Scannable;
    forall f | f in h.q.bin && f in h.t.size
      ensures h.t.size[f] < nb
    {
      assert f in h.q.ring[h.q.bin[f]];
    }
  }

  /** Bins of a block that is not marked are empty. */
  lemma BlockEmpty(m: Memory, h: Ghost, k: nat)
    requires Mid(m, h) && 1 <= k
    ensures |h.q.ring| == NAV && 0 <= Rd(m, BINBLOCKS) < TWO32
    ensures !BitSet(Rd(m, BINBLOCKS), k) ==> Empty(h.q, 4 * k, 4 * k + 4)
  {
    hide Rings, Covers, Tagged, Coalesced, Ordered, Kept, SameData, BitSet;
  }

  /** Nothing is marked from block k on. */
  lemma AboveEmpty(m: Memory, h: Ghost, k: nat)
    requires Mid(m, h) && 1 <= k && Rd(m, BINBLOCKS) < Power(k)
    ensures Empty(h.q, 4 * k, NAV)
  {
    hide Rings, Covers, Tagged, Coalesced, Ordered, Kept, SameData, BitSet, Power;
    var w := Rd(m, BINBLOCKS);
    forall x | 4 * k <= x < NAV
      ensures h.q.ring[x] == []
    {
      NoHighBit(w, k, x / BINBLOCKWIDTH);
    }
  }

  /** Something is marked from block k on. */
  lemma SomeBlock(m: Memory, h: Ghost, k: nat) returns (j: nat)
    requires Mid(m, h) && Power(k) <= Rd(m, BINBLOCKS)
    ensures 0 <= Rd(m, BINBLOCKS) && k <= j < 32 && BitSet(Rd(m, BINBLOCKS), j)
  {
    hide Rings, Covers, Tagged, Coalesced, Ordered, Kept, SameData, BitSet, Power;
    j := SomeHighBit(Rd(m, BINBLOCKS), k);
    Power32();
    if 32 < j {
      PowerGrows(32, j);
    }
  }

  /** A scanned list without a fit is empty. */
  lemma ScannedEmpty(m: Memory, h: Ghost, nb: int, b: int)
    requires Scan(m, h, nb, b) && b < NAV
    requires forall j | 0 <= j < |h.q.ring[b]| :: h.q.ring[b][j] in h.t.size && h.t.size[h.q.ring[b][j]] < nb
    ensures h.q.ring[b] == [] && Scan(m, h, nb, b + 1)
  {
    hide Heap, BinIndex;
    assert Scannable(h.q, h.t.size, nb, b);
    ScanRun(m, h, nb, b, b + 1);
  }

  lemma ScanSmallest(m: Memory, h: Ghost, nb: int, b: int, i: int)
    requires Scan(m, h, nb, b) && b < NAV && 0 <= i < |h.q.ring[b]| && At(h.q, h.q.ring[b][i], i)
             && h.q.bin[h.q.ring[b][i]] == b
    requires h.q.ring[b][i] in h.t.size && nb <= h.t.size[h.q.ring[b][i]]
    requires forall j | i < j < |h.q.ring[b]| :: h.q.ring[b][j] in h.t.size && h.t.size[h.q.ring[b][j]] < nb
    ensures SmallestFit(h.q, h.t.size, nb, h.q.ring[b][i])
  {
    hide Covers, Distinct, Spaced, AllLinked, Tagged, Coalesced, Marked, Kept, SameData, Sorted, Member, SmallestFit,
        At, BinIndex;
    hide LowBins, Indexed, Scannable;
    FirstIsSmallest(h.q, h.t.size, nb, h.q.ring[b][i], i);
  }

  /** set_head before unlink writes the same memory as unlink before set_head. */
  lemma HeadThenUnlink(m: Memory, h: Ghost, p: int, i: int, v: int)
    requires Mid(m, h) && At(h.q, p, i) && p in h.t.size
    ensures var m1, fd, bk := m[p + SIZE := v], Rd(m, p + FD), Rd(m, p + BK);
            Rd(m1, p + FD) == fd && Rd(m1, p + BK) == bk
            && m1[fd + BK := bk][bk + FD := fd] == m[fd + BK := bk][bk + FD := fd][p + SIZE := v]
  {
    hide Tagged, Coalesced, Ordered, Marked, Kept, SameData, Aligned, NextLinked, PrevLinked, LinkAddr, Member, Placed,
        Distinct, Spaced, AllLinked;
    TagNotLink(h.t, h.q, p);
    RingsUnlink(m, h.q, p, i);
  }

  lemma SplitHeap(m: Memory, h: Ghost, h': Ghost, p: int, i: int, n: int, r: int)
    requires Mid(m, h') && At(h.q, p, i) && p in h.t.size && p != h.t.top && AV_END <= p && h.top == h.t.top
    requires h.q.bin.Keys == h.t.free && p + n !in h.t.size && h.t.size[p] == n + r && n % ALIGN == 0 && MINSIZE <= n
    requires Blocks(SplitFree(h.t, p, n)) == Blocks(h.t)[p := n] && p !in Blocks(h.t)
    requires var q1 := Without(h.q, p, i); 1 < |q1.ring| && q1.ring[1] == [] && h'.q == With(q1, p + n, 1, 0)
    requires h'.t == SplitFree(h.t, p, n) && h'.todo == {}
    requires h'.keep == h.keep && h'.orig == h.orig && h'.brk == h.brk && h'.top == h.top
    ensures Heap(m, h') && Handed(h, h', p, n) && InPlace(h, h')
  {
    hide Mid;
    assert h'.q.bin.Keys == h.q.bin.Keys - {p} + {p + n};
  }

  lemma TakeLinked(m0: Memory, m: Memory, h: Ghost, h': Ghost, p: int, i: int)
    requires Heap(m0, h) && Mid(m, h') && At(h.q, p, i) && p in h.t.size
    requires h' == h.(t := Take(h.t, p), q := Without(h.q, p, i))
    ensures Heap(m, h')
  {
    hide Mid;
    assert h'.q.bin.Keys == h.q.bin.Keys - {p};
  }

  lemma WithoutRemainder(q: Bins, p: int, i: int)
    requires At(q, p, i) && q.bin[p] != 1 && q.ring[1] == []
    ensures var q1 := Without(q, p, i); |q1.ring| == |q.ring| && q1.ring[1] == [] && NoRemainder(q1) == q1
  {
  }

  lemma WithoutKeys(q: Bins, p: int, i: int)
    requires At(q, p, i)
    ensures Without(q, p, i).bin == q.bin - {p} && Without(q, p, i).bin.Keys == q.bin.Keys - {p}
  {
  }

  lemma ScanFacts(m: Memory, h: Ghost, nb: int, idx: int)
    requires Scan(m, h, nb, idx)
    ensures Heap(m, h) && Mid(m, h) && h.todo == {} && Search(m, h) && MINSIZE <= nb && nb % ALIGN == 0
            && 4 <= idx <= NAV
    ensures |h.q.ring| == NAV && h.q.ring[1] == []
  {
    hide Mid;
  }

  lemma EmptyUp(q: Bins, b: int, c: int)
    requires Empty(q, b, c) && 0 <= b <= c < NAV && q.ring[c] == []
    ensures Empty(q, b, c + 1)
  {
  }

  lemma EmptyDown(q: Bins, b: int, c: int)
    requires Empty(q, b + 1, c) && 0 <= b < NAV && q.ring[b] == []
    ensures Empty(q, b, c)
  {
  }

  lemma EmptySub(q: Bins, b: int, b': int, c: int)
    requires Empty(q, b, c) && 0 <= b <= b'
    ensures Empty(q, b', c)
  {
  }

  lemma ClearedScan(m: Memory, h: Ghost, nb: int, k: nat)
    requires Scan(m, h, nb, 4 * k + 4) && 1 <= k && Empty(h.q, 4 * k, 4 * k + 4)
    ensures 0 <= Rd(m, BINBLOCKS) && Scan(m[BINBLOCKS := WithoutBit(Rd(m, BINBLOCKS), k)], h, nb, 4 * k + 4)
  {
    hide Mid, BinIndex, WithoutBit, LowBins, Scannable;
    MidClear(m, h, k);
  }

  lemma ScanNothing(m: Memory, h: Ghost, nb: int, idx: int)
    requires Search(m, h) && ScanPoint(h.q, h.t.size, nb, idx) && |h.q.ring| == NAV && h.q.ring[1] == []
    requires Rd(m, BINBLOCKS) < Power(idx / BINBLOCKWIDTH)
    ensures NoneFits(h, nb)
  {
    if Fresh(m, h) {
      hide Heap;
    } else {
      hide Fresh, BinIndex, Mid, Empty, LowBins, Scannable, NoneFits, Power;
      assert Scan(m, h, nb, idx);
      ScanEnd(m, h, nb, idx);
    }
  }

  lemma ScanEnd(m: Memory, h: Ghost, nb: int, idx: int)
    requires Scan(m, h, nb, idx) && (idx == NAV || Rd(m, BINBLOCKS) < Power(idx / BINBLOCKWIDTH))
    ensures NoneFits(h, nb) && Search(m, h)
  {
    hide Heap, Scan, Mid, NoneFits, Power, Empty;
    ScanFacts(m, h, nb, idx);
    if idx < NAV {
      AboveEmpty(m, h, idx / BINBLOCKWIDTH);
      EmptyFrom(h.q, idx);
      ScanRun(m, h, nb, idx, NAV);
    }
    ScanDone(m, h, nb);
  }

  lemma EmptyFrom(q: Bins, b: int)
    requires 0 <= b && Empty(q, 4 * (b / BINBLOCKWIDTH), NAV)
    ensures Empty(q, b, NAV)
  {
  }

  /** If block k is not marked but the vector is at least 1 << k, a higher block is marked. */
  lemma StillMarked(m: Memory, h: Ghost, k: nat)
    requires Mid(m, h) && Power(k) <= Rd(m, BINBLOCKS) && 0 <= Rd(m, BINBLOCKS) && !BitSet(Rd(m, BINBLOCKS), k)
    ensures Power(k + 1) <= Rd(m, BINBLOCKS)
  {
    hide Mid;
    var j := SomeHighBit(Rd(m, BINBLOCKS), k);
    PowerGrows(k, j);
    assert Power(k + 1) == 2 * Power(k);
  }

  lemma EmptyNone(q: Bins, b: int)
    requires |q.ring| == NAV
    ensures Empty(q, b, b)
  {
  }

  // The top chunk.

  const PAGE := 4096

  function RoundToPage(x: int): int {
    x + (PAGE - 1) - (x + (PAGE - 1)) % PAGE
  }

  /** memset(a, 0, b - a), for word addresses. */
  function Cleared(m: Memory, a: int, b: int): Memory {
    map x | x in m && !(a <= x < b) :: m[x]
  }

  /** The same with an address below 0, which is one at the end of the address space. */
  function Wiped(m: Memory, a: int, b: int): Memory {
    if 0 <= a then Cleared(m, a, b) else Cleared(Cleared(m, a + TWO32, TWO32), 0, b)
  }

  lemma WipedAt(m: Memory, a: int, b: int, x: int)
    ensures 0 <= x && a <= x < b ==> Rd(Wiped(m, a, b), x) == 0
    ensures 0 <= a && !(a <= x < b) ==> Rd(Wiped(m, a, b), x) == Rd(m, x)
  {
  }

  lemma WipedTop(m: Memory, a: int, b: int)
    requires 0 <= a
    ensures Wiped(m, a, b) == Cleared(m, a, b)
  {
  }

  /** The top chunk can be cut for a request of nb bytes. */
  ghost predicate Room(m: Memory, nb: int) {
    nb + MINSIZE <= ChunkSize(m, Rd(m, TOP_WORD))
  }

  /** Room is what the tiling says. */
  lemma RoomIs(m: Memory, h: Ghost, nb: int)
    requires Search(m, h) && 0 < nb
    ensures (h.t.top in h.t.size ==> h.t.size[h.t.top] < nb + MINSIZE) <==> !Room(m, nb)
  {
    hide Heap, Fresh;
    SearchKind(m, h);
    ReadTop(m, h);
    if Fresh(m, h) {
      FreshNone(m, h);
    }
  }

  lemma FreshNone(m: Memory, h: Ghost)
    requires Fresh(m, h)
    ensures h.t.size == map[]
  {
  }

  /** Only the top chunk has grown, or come into being. */
  ghost predicate Extended(h: Ghost, h': Ghost) {
    && Blocks(h'.t) == Blocks(h.t) && h'.q == h.q && h'.keep == h.keep && h'.orig == h.orig
    && (h.t.size == map[] || h'.t.top == h.t.top)
  }

  lemma ExtendedNot(h: Ghost)
    ensures Extended(h, h)
  {
  }

  lemma ReadTop(m: Memory, h: Ghost)
    requires Search(m, h)
    ensures Fresh(m, h) ==> Rd(m, TOP_WORD) == INITIAL_TOP && ChunkSize(m, INITIAL_TOP) == 0 && INITIAL_TOP < AV_END
    ensures Heap(m, h) ==>
              Rd(m, TOP_WORD) == h.t.top && h.t.top in h.t.size && ChunkSize(m, h.t.top) == h.t.size[h.t.top]
                           && h.t.top + h.t.size[h.t.top] == h.brk && AV_END <= h.t.top && h.t.top % ALIGN == 0
                           && MINSIZE <= h.t.size[h.t.top] && h.t.size[h.t.top] % ALIGN == 0 && h.t.base <= h.t.top
                               && h.todo == {}
  {
    hide Rings, Covers, Tagged, Coalesced, Ordered, Kept, SameData, Marked;
    if Heap(m, h) {
      TopEnds(h.t, h.brk);
      ReadHead(m, h, h.t.top);
    }
  }

  lemma TopEnds(t: Tiles, brk: int)
    requires Covers(t, brk)
    ensures t.top in t.size && t.top + t.size[t.top] == brk && t.base in t.size && t.base <= t.top
  {
  }

  function Grown(h: Ghost, n: int): Ghost {
    h.(t := ResizeTop(h.t, n), brk := h.t.top + n)
  }

  lemma GrowTop(m: Memory, h: Ghost, p: int, s: int, n: int)
    requires Heap(m, h) && p == h.t.top && p in h.t.size && s == h.t.size[p] && n % ALIGN == 0 && 0 <= n && AV_END <= p
    ensures var m', h' := m[p + SIZE := n + s + PREV_INUSE], Grown(h, s + n);
            Heap(m', h') && Search(m', h') && Extended(h, h') && h'.brk == p + s + n && h'.t.base == h.t.base
                && ChunkSize(m', Rd(m', TOP_WORD)) == s + n
  {
    hide Mid;
    ReadTop(m, h);
    ReadHead(m, h, p);
    TopResize(m, h, n + s);
    ReadTop(m[p + SIZE := n + s + PREV_INUSE], Grown(h, s + n));
    BlocksResizeTop(h.t, n + s);
  }

  lemma TopResize(m: Memory, h: Ghost, n: int)
    requires Heap(m, h) && h.t.top in h.t.size && n % ALIGN == 0 && MINSIZE <= n
    ensures Heap(m[h.t.top + SIZE := n + PREV_INUSE], Grown(h, n))
  {
    hide Mid;
    var p := h.t.top;
    var h1 := Grown(h, n).(todo := h.todo + {p + SIZE});
    MidResizeTop(m, h, n);
    TopAboveUsed(m, h);
    MidHead(m, h1, p);
    assert h1.todo - {p + SIZE} == {};
  }

  /** The chunk below top is in use. */
  lemma TopAboveUsed(m: Memory, h: Ghost)
    requires Mid(m, h)
    ensures h.t.top in h.t.size && (h.t.top in h.t.prev ==> h.t.prev[h.t.top] !in h.t.free)
  {
    hide Rings, Tagged, Ordered, Kept, SameData, Marked, Sized, Aligned, Disjoint, NextLinked;
  }

  lemma FreshSearch(m: Memory, h: Ghost)
    requires Fresh(m, h)
    ensures Search(m, h) && h.t.size == map[]
  {
    hide Heap;
  }

  function First(h: Ghost, p: int, s: int): Ghost {
    Ghost(Tiles(p, p, map[p := s], map[], {}), NoLists(), p + s, {}, map[], h.orig, p)
  }

  lemma FirstHeap(m: Memory, h: Ghost, p: int, s: int)
    requires Fresh(m, h) && AV_END <= p && p % ALIGN == 0 && s % ALIGN == 0 && MINSIZE <= s
    ensures Heap(m[TOP_WORD := p][p + SIZE := s + PREV_INUSE], First(h, p, s)) && Extended(h, First(h, p, s))
    ensures First(h, p, s).brk == p + s && First(h, p, s).t.base == p
    ensures var m' := m[TOP_WORD := p][p + SIZE := s + PREV_INUSE];
              Search(m', First(h, p, s)) && ChunkSize(m', Rd(m', TOP_WORD)) == s
  {
    FirstTop(m, h, p, s);
    hide Heap, Rings;
    ReadTop(m[TOP_WORD := p][p + SIZE := s + PREV_INUSE], First(h, p, s));
    assert Blocks(First(h, p, s).t) == map[];
    assert Blocks(h.t) == map[];
  }

  lemma RoomHeap(m: Memory, h: Ghost, nb: int)
    requires Search(m, h) && MINSIZE <= nb && Room(m, nb)
    ensures Heap(m, h) && h.t.size != map[]
  {
    hide Heap;
    SearchKind(m, h);
  }

  lemma CutTopReady(m: Memory, h: Ghost, nb: int)
    requires Heap(m, h) && nb % ALIGN == 0 && MINSIZE <= nb && Room(m, nb)
    ensures h.t.top in h.t.size && h.t.top !in h.t.free && AV_END <= h.t.top && h.t.top + nb !in h.t.size
            && nb < h.t.size[h.t.top]
    ensures h.q.bin.Keys == h.t.free
    ensures var t, p := CutTop(h.t, nb), h.t.top;
            Mid(m, h.(t := t, todo := {p + SIZE, p + nb + SIZE})) && p in t.size && p + nb in t.size
            && Head(t, p) == nb + PREV_INUSE && Head(t, p + nb) == h.t.size[p] - nb + PREV_INUSE
  {
    hide Mid;
    TopAboveUsed(m, h);
    TopFree(m, h);
    ReadTop(m, h);
    MidCutTop(m, h, nb);
    assert h.todo + {h.t.top + SIZE, h.t.top + nb + SIZE} == {h.t.top + SIZE, h.t.top + nb + SIZE};
  }

  lemma TopFree(m: Memory, h: Ghost)
    requires Mid(m, h)
    ensures h.t.top !in h.t.free
  {
    hide Rings, Tagged, Ordered, Kept, SameData, Marked, Covers;
  }

  lemma CutTopHeap(m: Memory, h: Ghost, h': Ghost, nb: int)
    requires Mid(m, h') && 0 < nb && h.t.top in h.t.size && nb < h.t.size[h.t.top]
    requires h.q.bin.Keys == h.t.free && h.t.top !in h.t.free && AV_END <= h.t.top && h.t.top + nb !in h.t.size
    requires h' == h.(t := CutTop(h.t, nb), todo := h'.todo, top := h.t.top + nb) && h'.todo == {}
    ensures Heap(m, h') && Handed(h, h', h.t.top, nb) && InPlace(h, h')
  {
    hide Mid;
    BlocksCutTop(h.t, nb);
    assert h.t.top !in Blocks(h.t);
    assert h'.t.size[h.t.top] == nb;
  }

  lemma HandedExtended(h: Ghost, h0: Ghost, h': Ghost, p: int, nb: int)
    requires Extended(h, h0) && Handed(h0, h', p, nb) && p == h0.t.top
    ensures Handed(h, h', p, nb) && 0 < p && (h.t.size == map[] || p == h.t.top)
  {
  }

  lemma RoundUp(x: int)
    ensures x <= RoundToPage(x) < x + PAGE && RoundToPage(x) % PAGE == 0 && RoundToPage(x) % ALIGN == 0
  {
  }

  lemma PageSum(a: int, b: int)
    requires a % PAGE == 0 && b % PAGE == 0
    ensures (a + b) % PAGE == 0 && (a - b) % PAGE == 0
  {
    assert a + b == PAGE * (a / PAGE + b / PAGE);
    assert a - b == PAGE * (a / PAGE - b / PAGE);
  }

  lemma PageAligned(b: int)
    requires b % PAGE == 0
    ensures b % ALIGN == 0
  {
    Eight(512 * (b / PAGE));
  }

  /** The first top chunk starts aligned and ends on a page boundary. */
  lemma FirstTopSize(b: int, size: int)
    ensures var fm := (b + FD) % ALIGN;
            var c := if fm > 0 then ALIGN - fm else 0;
            var e := RoundToPage(b + c + size);
            0 <= c < ALIGN && (b + c) % ALIGN == 0 && (e - (b + c)) % ALIGN == 0 && e % PAGE == 0
                && size <= e - (b + c) < size + PAGE
  {
    hide RoundToPage;
    var c := Misaligned(b);
    var e := RoundToPage(b + c + size);
    RoundUp(b + c + size);
    BothAligned(e, b + c);
  }

  /** What is missing to the next aligned chunk. */
  lemma Misaligned(b: int) returns (c: int)
    ensures c == (if (b + FD) % ALIGN > 0 then ALIGN - (b + FD) % ALIGN else 0)
    ensures 0 <= c < ALIGN && (b + c) % ALIGN == 0
  {
    c := if (b + FD) % ALIGN > 0 then ALIGN - (b + FD) % ALIGN else 0;
  }

  lemma BothAligned(x: int, y: int)
    requires x % ALIGN == 0 && y % ALIGN == 0
    ensures (x - y) % ALIGN == 0
  {
  }

  // A whole request.

  /** A chunk whose remainder would be too small to be cut off, in the bins that are tried first. */
  ghost predicate ExactFit(h: Ghost, nb: int, f: int) {
    && f in h.q.bin && h.q.bin[f] != 1 && f in h.t.size && nb <= h.t.size[f] < nb + MINSIZE
    && 0 <= nb && (nb < MAX_SMALLBIN_SIZE - 8 || h.q.bin[f] == BinIndex(nb))
  }

  ghost predicate NoExact(h: Ghost, nb: int) {
    forall f | f in h.q.bin :: !ExactFit(h, nb, f)
  }

  ghost predicate LastFits(h: Ghost, nb: int, f: int) {
    f in h.q.bin && h.q.bin[f] == 1 && f in h.t.size && nb <= h.t.size[f]
  }

  ghost predicate LastTooSmall(h: Ghost, nb: int) {
    forall f | f in h.q.bin :: !LastFits(h, nb, f)
  }

  /** An exact fit, the smallest one, comes first, then the last remainder, then a smallest chunk that is large
      enough, then top. */
  ghost predicate Chosen(h: Ghost, nb: int, p: int) {
    || (ExactFit(h, nb, p) && SmallestFit(h.q, h.t.size, nb, p))
    || (NoExact(h, nb) && LastFits(h, nb, p))
    || (NoExact(h, nb) && LastTooSmall(h, nb) && SmallestFit(h.q, h.t.size, nb, p))
    || (NoneFits(h, nb) && (h.t.size == map[] || p == h.t.top))
  }

  /** What the scan finds once the last remainder is out of the way. */
  lemma ScanChosen(h: Ghost, h1: Ghost, nb: int, p: int)
    requires NoFitLost(h, h1, nb) && h1.t == h.t && NoExact(h, nb) && SmallestFit(h1.q, h1.t.size, nb, p)
    ensures Chosen(h, nb, p)
  {
    hide ExactFit;
  }

  /** All bins that can hold an exact fit have been passed. */
  lemma LowNoExact(m: Memory, h: Ghost, nb: int, idx: int)
    requires Search(m, h) && MINSIZE <= nb && nb % ALIGN == 0 && ScanPoint(h.q, h.t.size, nb, idx)
    requires idx == if nb < MAX_SMALLBIN_SIZE - 8 then nb / 8 + 2 else BinIndex(nb) + 1
    ensures NoExact(h, nb)
  {
    if Fresh(m, h) {
      hide Heap;
    } else {
      hide Covers, Member, Placed, Distinct, Spaced, AllLinked, Tagged, Coalesced, Marked, Kept, SameData, Sorted,
        BinIndex, Scannable;
      forall f | f in h.q.bin && f in h.t.size && h.q.bin[f] != 1
        ensures h.t.size[f] < nb + MINSIZE ==> h.t.size[f] < nb || (MAX_SMALLBIN_SIZE - 8 <= nb && idx <= h.q.bin[f])
      {
        BinIndexRange(h.t.size[f]);
        assert 2 <= h.q.bin[f] < idx ==> h.t.size[f] < nb;
      }
    }
  }

  /** The smallest chunk of the bin that is large enough is too large. */
  lemma RescanNoExact(m: Memory, h: Ghost, nb: int, b: int, i: int)
    requires Heap(m, h) && MAX_SMALLBIN_SIZE - 8 <= nb && b == BinIndex(nb) && 2 <= b < NAV && |h.q.ring| == NAV
    requires 0 <= i < |h.q.ring[b]| && h.q.ring[b][i] in h.t.size && nb + MINSIZE <= h.t.size[h.q.ring[b][i]]
    requires forall j | i < j < |h.q.ring[b]| :: h.q.ring[b][j] in h.t.size && h.t.size[h.q.ring[b][j]] < nb
    ensures NoExact(h, nb)
  {
    hide Covers, Distinct, Spaced, AllLinked, Tagged, Coalesced, Marked, Kept, SameData, BinIndex, Indexed;
    forall f | f in h.q.bin && f in h.t.size && h.q.bin[f] == b
      ensures h.t.size[f] < nb || nb + MINSIZE <= h.t.size[f]
    {
      var j := Position(h.q, f);
      assert h.q.ring[b][j] == f;
      if j < i {
        assert h.t.size[h.q.ring[b][i]] <= h.t.size[h.q.ring[b][j]];
      }
    }
  }

  lemma TopNotInitial(m: Memory, h: Ghost)
    requires Search(m, h)
    ensures Heap(m, h) ==> Rd(m, TOP_WORD) != INITIAL_TOP && ChunkSize(m, Rd(m, TOP_WORD)) == h.brk - Rd(m, TOP_WORD)
    ensures Fresh(m, h) ==> Rd(m, TOP_WORD) == INITIAL_TOP
  {
    hide Heap, Fresh, ChunkSize;
    ReadTop(m, h);
  }

  lemma SearchIs(m: Memory, h: Ghost)
    requires Fresh(m, h) || Search(m, h)
    ensures Search(m, h)
  {
  }

  lemma SearchKind(m: Memory, h: Ghost)
    requires Search(m, h)
    ensures Fresh(m, h) <==> h.t.size == map[]
    ensures Heap(m, h) <==> h.t.size != map[]
  {
    hide Rings, Tagged, Ordered, Marked, Coalesced, Kept, SameData;
  }

  lemma NoneLeft(m: Memory, h: Ghost, h': Ghost, nb: int)
    requires Search(m, h') && NoFitLost(h, h', nb)
    ensures |h'.q.ring| == NAV && h'.q.ring[1] == []
  {
    hide Covers, Tagged, Ordered, Marked, Coalesced, Kept, SameData, Placed, Distinct, Spaced, AllLinked;
    if h'.q.ring[1] != [] {
      var f := h'.q.ring[1][0];
      MemberAt(h'.q, 1, 0);
      assert false;
    }
  }

  lemma NoneFirst(h: Ghost, h': Ghost, nb: int)
    requires NoFitLost(h, h', nb) && h'.t == h.t && NoneFits(h', nb)
    ensures NoneFits(h, nb) && (Unmet(h', nb) ==> Unmet(h, nb))
  {
  }

  lemma HandedOf(h: Ghost, h1: Ghost, h': Ghost, nb: int, p: int)
    requires Handed(h1, h', p, nb) && h1.t == h.t && h1.keep == h.keep && h1.orig == h.orig
    ensures Handed(h, h', p, nb) && 0 < p
  {
  }

  lemma HeapSearch(m: Memory, h: Ghost)
    requires Heap(m, h)
    ensures Search(m, h) && h.t.size != map[]
  {
    hide Fresh;
    SearchKind(m, h);
  }

  lemma WithKeys(q: Bins, p: int, b: int, i: int)
    requires 0 <= b < |q.ring| && 0 <= i <= |q.ring[b]|
    ensures With(q, p, b, i).bin.Keys == q.bin.Keys + {p}
  {
  }
}
