/**
 Giving a chunk back: joining it with its free neighbours, with top, and trimming top.
 */
module Freeing {
  import opened Common
  import opened Chunks
  import opened Headers
  import opened BinLists
  import opened Binning
  import opened Arena
  import opened Steps

  /** The chunk p, which ends where next begins, is on its way to the free chunks. It may hold the place
      of the last remainder already. The blocks in rest are those that stay in use. */
  ghost predicate Joining(m: Memory, h: Ghost, p: int, next: int, islr: bool, rest: map<int, int>) {
    && Live(h.t, p) && p !in h.keep && h.t.size[p] == next - p
    && next in h.t.size && next != h.t.top && Rd(m, next + SIZE) == h.t.size[next]
    && h.todo == {p + SIZE, next + SIZE} && h.top == h.t.top
    && h.q.bin.Keys == (if islr then h.t.free + {p} else h.t.free) && (islr ==> p in h.q.bin && h.q.bin[p] == 1)
    && p !in rest && Blocks(h.t) == rest[p := next - p]
  }

  /** The chunk below p is in use. */
  ghost predicate UsedBelow(t: Tiles, p: int) {
    p in t.prev ==> t.prev[p] !in t.free
  }

  /** The state after the in-use bit of p has been cleared in the chunk above. */
  ghost predicate Unmarked(m: Memory, h: Ghost, p: int, next: int) {
    && Live(h.t, p) && p !in h.keep && h.t.size[p] == next - p
    && next in h.t.size && next != h.t.top && Rd(m, next + SIZE) == h.t.size[next]
    && h.todo == {next + SIZE} && h.top == h.t.top && h.q.bin.Keys == h.t.free
  }

  lemma ClearInuse(m: Memory, h: Ghost, p: int, size: int)
    requires Heap(m, h) && Live(h.t, p) && p !in h.keep && size == h.t.size[p] && p + size != h.t.top
    ensures p + size in h.t.size
    ensures var n := p + size;
              Mid(m[n + SIZE := h.t.size[n]], h.(todo := {n + SIZE}))
              && Unmarked(m[n + SIZE := h.t.size[n]], h.(todo := {n + SIZE}), p, n)
  {
    hide Mid;
    ReadHead(m, h, p);
    MidSpoil(m, h, p + size, h.t.size[p + size]);
    assert h.todo + {p + size + SIZE} == {p + size + SIZE};
  }

  lemma NotLinkedLive(h: Ghost, p: int)
    requires Live(h.t, p) && h.q.bin.Keys == h.t.free
    ensures p !in h.q.bin
  {
    assert p !in h.q.bin.Keys;
  }

  lemma JoinNone(m: Memory, h: Ghost, p: int, next: int)
    requires Mid(m, h) && Unmarked(m, h, p, next) && UsedBelow(h.t, p)
    ensures Mid(m, h.(todo := {p + SIZE, next + SIZE}))
            && Joining(m, h.(todo := {p + SIZE, next + SIZE}), p, next, false, Blocks(h.t) - {p})
  {
    hide Mid;
    MidTodo(m, h, {p + SIZE, next + SIZE});
  }

  /** Below p lies the free chunk f, in place i of its list. */
  lemma BelowFree(m: Memory, h: Ghost, p: int) returns (f: int, i: int)
    requires Mid(m, h) && p in h.t.size && p !in h.todo && h.q.bin.Keys == h.t.free && !UsedBelow(h.t, p)
    ensures f in h.t.size && f in h.t.free && f == p - h.t.size[f] && Rd(m, p + PREV_SIZE) == h.t.size[f]
            && f in h.q.bin
    ensures At(h.q, f, i) && UsedBelow(h.t, f) && f != h.t.top && f !in h.keep && AV_END <= f && f !in Blocks(h.t)
    ensures Rd(m, f + FD) == BinAt(1) <==> h.q.bin[f] == 1
    ensures |h.q.ring| == NAV && 0 < h.t.size[f] && p in h.t.prev && f == h.t.prev[p]
  {
    hide Mid;
    f := h.t.prev[p];
    ReadFoot(m, h, p);
    NextDiffers(m, h, f);
    FreeFacts(m, h, f);
    ChunkAbove(m, h, f);
    assert f in h.q.bin.Keys;
    i := LinkedAt(m, h, f);
  }

  lemma MidNotTodo(m: Memory, h: Ghost, p: int, next: int)
    requires Mid(m, h) && p in h.t.size && next in h.t.size
    ensures p != next + SIZE && 0 < h.t.size[p]
  {
    hide Rings, Tagged, Ordered, Marked, Kept, SameData, Coalesced, NextLinked, PrevLinked, Disjoint;
  }

  lemma LinkedAt(m: Memory, h: Ghost, f: int) returns (i: int)
    requires Mid(m, h) && f in h.q.bin
    ensures At(h.q, f, i) && (Rd(m, f + FD) == BinAt(1) <==> h.q.bin[f] == 1) && |h.q.ring| == NAV
  {
    hide Covers, Tagged, Marked, Kept, SameData, Coalesced, Distinct, AllLinked, Indexed;
    i := Position(h.q, f);
    ReadNode(m, h.q, f, i);
    var r := h.q.ring[h.q.bin[f]];
    if i + 1 < |r| {
      MemberAt(h.q, h.q.bin[f], i + 1);
      assert AV_END <= r[i + 1];
    }
  }

  /** The ghost state in which p has been joined with the chunk above it and ends at e. */
  ghost function Joined(h: Ghost, q: Bins, p: int, e: int): Ghost {
    h.(t := if p in h.t.size && p + h.t.size[p] in h.t.size then Absorb(h.t, p) else h.t,
       q := q, todo := {p + SIZE, e + SIZE})
  }

  // The last remainder stays the last remainder, or becomes part of it.

  ghost predicate LastKept(h: Ghost, h': Ghost) {
    forall x | x in h.q.bin && h.q.bin[x] == 1 && x in h.t.size :: HasLast(h', x, x + h.t.size[x])
  }

  /** The bytes from x up to e lie in the last remainder. */
  ghost predicate HasLast(h: Ghost, x: int, e: int) {
    exists y :: y in h.q.bin && h.q.bin[y] == 1 && y in h.t.size && y <= x && e <= y + h.t.size[y]
  }

  lemma LastSame(h: Ghost, h': Ghost)
    requires h'.q == h.q && h'.t.size == h.t.size
    ensures LastKept(h, h')
  {
    forall x | x in h.q.bin && h.q.bin[x] == 1 && x in h.t.size
      ensures HasLast(h', x, x + h.t.size[x])
    {
      assert x in h'.q.bin;
    }
  }

  lemma LastTrans(h0: Ghost, h1: Ghost, h2: Ghost)
    requires LastKept(h0, h1) && LastKept(h1, h2)
    ensures LastKept(h0, h2)
  {
    forall x | x in h0.q.bin && h0.q.bin[x] == 1 && x in h0.t.size
      ensures HasLast(h2, x, x + h0.t.size[x])
    {
      var y :| y in h1.q.bin && h1.q.bin[y] == 1 && y in h1.t.size && y <= x && x + h0.t.size[x] <= y + h1.t.size[y];
      assert HasLast(h2, y, y + h1.t.size[y]);
      var z :| z in h2.q.bin && h2.q.bin[z] == 1 && z in h2.t.size && z <= y && y + h1.t.size[y] <= z + h2.t.size[z];
    }
  }

  lemma LastTodo(h: Ghost, h1: Ghost, h': Ghost)
    requires LastKept(h1, h') && h1.q == h.q && h1.t == h.t
    ensures LastKept(h, h')
  {
  }

  lemma LastBelow(h: Ghost, q: Bins, p: int, next: int, f: int, islr: bool)
    requires f in h.t.size && p in h.t.size && f + h.t.size[f] == p && 0 <= h.t.size[f] && 0 <= h.t.size[p]
             && p !in h.q.bin && f in h.q.bin
    requires if islr then q == h.q else h.q.bin[f] != 1 && q.bin == h.q.bin - {f}
    ensures LastKept(h, Joined(h, q, f, next))
  {
    var h' := Joined(h, q, f, next);
    forall x | x in h.q.bin && h.q.bin[x] == 1 && x in h.t.size
      ensures HasLast(h', x, x + h.t.size[x])
    {
      assert x in h'.q.bin && h'.q.bin[x] == 1 && x in h'.t.size;
    }
  }

  lemma LastAbove(m: Memory, h: Ghost, q: Bins, p: int, next: int, e: int, islr0: bool, islr: bool, rest: map<int, int>)
    requires Mid(m, h) && Joining(m, h, p, next, islr0, rest) && next in h.t.size && next in h.q.bin
             && next == p + h.t.size[p] && p < next && 0 <= h.t.size[next]
    requires islr == (islr0 || h.q.bin[next] == 1)
    requires if !islr0 && islr then q.bin == (h.q.bin - {next})[p := 1] else q.bin == h.q.bin - {next}
    ensures LastKept(h, Joined(h, q, p, e))
  {
    hide Mid;
    var h' := Joined(h, q, p, e);
    forall x | x in h.q.bin && h.q.bin[x] == 1 && x in h.t.size
      ensures HasLast(h', x, x + h.t.size[x])
    {
      if islr0 {
        OneLast(m, h, x, p);
      }
      var y := if x == next then p else x;
      assert y in h'.q.bin && h'.q.bin[y] == 1 && y in h'.t.size;
    }
  }

  /** There is at most one last remainder. */
  lemma OneLast(m: Memory, h: Ghost, x: int, y: int)
    requires Mid(m, h) && x in h.q.bin && y in h.q.bin && h.q.bin[x] == h.q.bin[y] == 1
    ensures x == y
  {
    RemainderFacts(m, h);
    hide Placed, Distinct, Spaced, AllLinked, Covers, Tagged, Coalesced, Kept, SameData, Marked, Ordered;
    assert x in h.q.ring[h.q.bin[x]] && y in h.q.ring[h.q.bin[y]];
  }

  lemma LastLinked(m: Memory, h: Ghost, h': Ghost, p: int, e: int, b: int, i: int, rest: map<int, int>)
    requires Joining(m, h, p, e, false, rest) && 0 <= b < |h.q.ring| && 0 <= i <= |h.q.ring[b]|
    requires h'.t.size == h.t.size && h'.q == With(h.q, p, b, i) && p !in h.t.free
    ensures LastKept(h, h')
  {
    forall x | x in h.q.bin && h.q.bin[x] == 1 && x in h.t.size
      ensures HasLast(h', x, x + h.t.size[x])
    {
      assert x in h.q.bin.Keys && x != p;
      assert x in h'.q.bin && h'.q.bin[x] == 1;
    }
  }

  /** f, taken off its list unless it is the last remainder, is joined with p. */
  lemma JoinBelow(m: Memory, h: Ghost, q: Bins, p: int, next: int, f: int, islr: bool)
    requires f in h.t.size && p in h.t.size && f + h.t.size[f] == p && Unmarked(m, h, p, next)
    requires f in h.t.free && UsedBelow(h.t, f) && f != h.t.top && f !in h.keep && f !in Blocks(h.t) && 0 < h.t.size[f]
    requires q.bin.Keys == (if islr then h.t.free else h.t.free - {f}) && (islr ==> f in q.bin && q.bin[f] == 1)
    requires Mid(m, h.(q := q))
    ensures var h' := Joined(h, q, f, next);
            Mid(m, h') && Joining(m, h', f, next, islr, Blocks(h.t) - {p}) && UsedBelow(h'.t, f)
  {
    hide Mid;
    var h1 := h.(q := q);
    assert p !in q.bin.Keys;
    assert f in q.bin ==> islr by { assert f in q.bin.Keys <==> islr; }
    MidAbsorb(m, h1, f);
    BlocksAbsorb(h.t, f);
    NextDiffers(m, h1, f);
    assert h1.todo + {f + SIZE, next + SIZE} == {f + SIZE, next + SIZE};
    assert (h.t.free - {f, p}) == h.t.free - {f};
  }

  lemma NextDiffers(m: Memory, h: Ghost, p: int)
    requires Mid(m, h) && p in h.t.size && p != h.t.top
    ensures var n := p + h.t.size[p];
            p + MINSIZE <= n && n in h.t.size && n in h.t.prev && h.t.prev[n] == p
            && (n != h.t.top ==> var e := n + h.t.size[n]; n + MINSIZE <= e && e in h.t.size)
  {
    hide Rings, Tagged, Ordered, Marked, Kept, SameData, Coalesced, Aligned, Disjoint;
    NextIn(h.t, p);
    if p + h.t.size[p] != h.t.top {
      NextIn(h.t, p + h.t.size[p]);
    }
  }

  /** Above lies the free chunk next: it is taken off its list and joined. */
  lemma JoinAbove(m: Memory, h: Ghost, q: Bins, p: int, next: int, e: int, islr0: bool, islr: bool, rest: map<int, int>)
    requires p in h.t.size && p + h.t.size[p] == next && next in h.t.free && next in h.t.size
    requires Joining(m, h, p, next, islr0, rest) && UsedBelow(h.t, p)
    requires next + h.t.size[next] == e && p + MINSIZE <= next && next + MINSIZE <= e && e in h.t.size && e != h.t.top
             && e !in h.t.free
    requires next !in Blocks(h.t) && next !in h.keep && Rd(m, e + SIZE) == h.t.size[e]
    requires q.bin.Keys == (if islr then h.t.free - {next} + {p} else h.t.free - {next})
             && (islr ==> p in q.bin && q.bin[p] == 1)
    requires Mid(m, h.(q := q))
    ensures var h' := Joined(h, q, p, e);
            Mid(m, h') && Joining(m, h', p, e, islr, rest) && UsedBelow(h'.t, p) && e !in h'.t.free
  {
    hide Mid;
    var h1 := h.(q := q);
    assert p in q.bin ==> islr by { assert p in q.bin.Keys <==> islr; }
    assert next !in q.bin.Keys;
    MidAbsorb(m, h1, p);
    BlocksAbsorb(h.t, p);
    var h2 := h1.(t := Absorb(h.t, p), todo := h1.todo + {p + SIZE, e + SIZE});
    InsideGone(m, h2, p, next);
    MidForget(m, h2, next + SIZE);
    assert h2.todo - {next + SIZE} == {p + SIZE, e + SIZE};
  }

  /** Above p lies the free chunk next, in place i of its list; the chunk above has its bit clear. */
  lemma AboveFree(m: Memory, h: Ghost, p: int, next: int, islr: bool, rest: map<int, int>) returns (i: int, e: int)
    requires Mid(m, h) && Joining(m, h, p, next, islr, rest) && next in h.t.free
    ensures At(h.q, next, i) && next in h.q.bin && (Rd(m, next + FD) == BinAt(1) <==> h.q.bin[next] == 1)
            && |h.q.ring| == NAV
    ensures next in h.t.size && e == next + h.t.size[next] && p + MINSIZE <= next && next + MINSIZE <= e
            && e in h.t.size
    ensures p in h.t.size && p + h.t.size[p] == next
    ensures e != h.t.top && e !in h.t.free && next !in Blocks(h.t) && next !in h.keep && Rd(m, e + SIZE) == h.t.size[e]
  {
    hide Mid;
    NextDiffers(m, h, p);
    NextDiffers(m, h, next);
    FreeFacts(m, h, next);
    e := next + h.t.size[next];
    ReadHead(m, h, e);
    assert next in h.q.bin.Keys;
    i := LinkedAt(m, h, next);
  }

  lemma AboveBit(m: Memory, h: Ghost, p: int, next: int, islr: bool, rest: map<int, int>)
    requires Mid(m, h) && Joining(m, h, p, next, islr, rest)
    ensures PrevInuse(m, next + Rd(m, next + SIZE)) <==> next !in h.t.free
    ensures p in h.t.size && next in h.t.size && p != h.t.top && p !in h.keep && Rd(m, next + SIZE) == h.t.size[next]
    ensures if islr then p in h.q.bin && h.q.bin[p] == 1 else p !in h.q.bin
    ensures h.q.bin.Keys == (if islr then h.t.free + {p} else h.t.free) && p !in h.t.free
  {
    hide Mid;
    NextDiffers(m, h, p);
    NextDiffers(m, h, next);
    ReadHead(m, h, next + h.t.size[next]);
    assert p in h.q.bin.Keys ==> islr;
  }

  lemma JoiningFrame(m: Memory, m': Memory, h: Ghost, p: int, next: int, islr: bool, rest: map<int, int>)
    requires Joining(m, h, p, next, islr, rest) && Rd(m', next + SIZE) == Rd(m, next + SIZE)
    ensures Joining(m', h, p, next, islr, rest)
  {
  }

  /** next, the last remainder, gives its place to p. */
  lemma RelinkKeys(m: Memory, h: Ghost, p: int, next: int)
    requires Mid(m, h) && next in h.q.bin && h.q.bin[next] == 1
    ensures |h.q.ring| == NAV && |h.q.ring[1]| <= 1 && (h.q.ring[1] != [] ==> At(h.q, h.q.ring[1][0], 0))
    ensures 1 < |NoRemainder(h.q).ring|
    ensures With(NoRemainder(h.q), p, 1, 0).bin == (h.q.bin - {next})[p := 1]
    ensures With(NoRemainder(h.q), p, 1, 0).bin.Keys == h.q.bin.Keys - {next} + {p}
  {
    hide Mid;
    RemainderFacts(m, h);
    RemainderIs(m, h, next);
  }

  lemma RemainderIs(m: Memory, h: Ghost, p: int)
    requires Mid(m, h) && p in h.q.bin && h.q.bin[p] == 1 && |h.q.ring| == NAV && |h.q.ring[1]| <= 1
    ensures h.q.ring[1] == [p]
  {
    hide Member, Distinct, Spaced, AllLinked, Covers, Tagged, Coalesced, Ordered, Marked, Kept, SameData;
    assert p in h.q.ring[h.q.bin[p]];
  }

  lemma InsideGone(m: Memory, h: Ghost, p: int, a: int)
    requires Mid(m, h) && p in h.t.size && p + MINSIZE <= a && a + MINSIZE <= p + h.t.size[p]
    ensures a !in h.t.size && a + SIZE !in h.t.size
  {
    hide Rings, Tagged, Ordered, Marked, Kept, SameData, Coalesced, Aligned, NextLinked, PrevLinked;
  }

  /** The joined chunk becomes free; only its size word and its footer are still to be written. */
  lemma Freed(m: Memory, h: Ghost, p: int, e: int, islr: bool, rest: map<int, int>)
    requires Mid(m, h) && Joining(m, h, p, e, islr, rest) && UsedBelow(h.t, p) && e !in h.t.free
    ensures var h' := h.(t := Release(h.t, p), todo := {p + SIZE, e});
            Mid(m, h') && p in h'.t.free && p in h'.t.size && h'.t.size[p] == e - p
                && Head(h'.t, p) == e - p + PREV_INUSE
            && p != h'.t.top && MINSIZE <= e - p && h'.t.base == h.t.base
  {
    hide Mid;
    NextDiffers(m, h, p);
    PrevDiffers(m, h, p);
    MidRelease(m, h, p);
    var h1 := h.(t := Release(h.t, p), todo := h.todo + {e + SIZE, e});
    MidHeadIsRight(m, h1, e);
    assert h1.todo - {e + SIZE} == {p + SIZE, e};
  }

  lemma FreedHeap(m: Memory, m': Memory, h: Ghost, h': Ghost, p: int, e: int, islr: bool, rest: map<int, int>)
    requires Joining(m, h, p, e, islr, rest) && Live(h.t, p) && h'.t == Release(h.t, p) && h'.top == h.top
             && h'.todo == {}
    requires h'.q.bin.Keys == h.t.free + {p} && Mid(m', h')
    ensures Heap(m', h') && Blocks(h'.t) == rest
  {
    hide Mid;
    BlocksRelease(h.t, p);
  }

  /** The chunk below top, whose neighbour below is in use, is joined with top. */
  lemma JoinTop(m: Memory, h: Ghost, p: int, s: int)
    requires Mid(m, h) && p in h.t.size && p != h.t.top && p + h.t.size[p] == h.t.top && p !in h.q.bin && p !in h.keep
    requires UsedBelow(h.t, p) && h.todo <= {p + SIZE} && h.t.top in h.t.size && s == h.t.size[p] + h.t.size[h.t.top]
    ensures var h' := h.(t := AbsorbTopOf(h.t, p), todo := {p + SIZE});
            Mid(m, h') && p in h'.t.size && Head(h'.t, p) == s + PREV_INUSE && h'.t.top == p && h'.t.size[p] == s
            && h'.t.free == h.t.free - {p} && Blocks(h'.t) == Blocks(h.t) - {p} && h'.t.base == h.t.base
  {
    hide Mid;
    MidAbsorbTop(m, h, p);
    BlocksAbsorbTop(h.t, p);
    assert h.todo + {p + SIZE} == {p + SIZE};
  }

  /** The free chunk f, already off its list, is joined with the block p, which ends at top. */
  lemma JoinBelowTop(m: Memory, h: Ghost, f: int, p: int)
    requires Mid(m, h) && f in h.t.size && f in h.t.free && f != h.t.top && f !in h.q.bin && f !in h.keep
             && UsedBelow(h.t, f)
    requires p in h.t.size && p == f + h.t.size[f] && p !in h.q.bin && p !in h.keep && p != h.t.top
             && p + h.t.size[p] == h.t.top
    requires f !in Blocks(h.t) && h.todo == {} && p !in h.t.free
    ensures var h' := Joined(h, h.q, f, f).(todo := {f + SIZE});
            Mid(m, h') && f in h'.t.size && f + h'.t.size[f] == h'.t.top && UsedBelow(h'.t, f)
                && h'.t.size[f] == h.t.size[f] + h.t.size[p]
            && h'.t.top == h.t.top && h.t.top in h'.t.size && h'.t.size[h.t.top] == h.t.size[h.t.top]
                && h'.t.base == h.t.base
            && h'.t.free == h.t.free - {f} && Blocks(h'.t) == (Blocks(h.t) - {p})[f := h'.t.size[f]]
            && h' == h.(t := h'.t, todo := {f + SIZE})
  {
    hide Mid;
    NextDiffers(m, h, f);
    ReadHead(m, h, h.t.top);
    ReadHead(m, h, f);
    ReadHead(m, h, p);
    MidAbsorb(m, h, f);
    BlocksAbsorb(h.t, f);
    var h1 := h.(t := Absorb(h.t, f), todo := h.todo + {f + SIZE, h.t.top + SIZE});
    MidHeadIsRight(m, h1, h.t.top);
    assert h1.todo - {h.t.top + SIZE} == {f + SIZE};
  }

  lemma PrevDiffers(m: Memory, h: Ghost, p: int)
    requires Mid(m, h)
    ensures p in h.t.prev ==> h.t.prev[p] != p
  {
    hide Rings, Tagged, Ordered, Marked, Kept, SameData, Coalesced, Aligned, Disjoint, NextLinked;
  }

  // Trimming.

  /** The number of bytes malloc_trim gives back; unsigned arithmetic, read as a signed number. */
  function Extra(topSize: int, pad: int): int {
    Signed((((topSize - pad - MINSIZE + (PAGE - 1)) % TWO32 / PAGE - 1) * PAGE) % TWO32)
  }

  /** Top is left large enough for a chunk. */
  predicate TrimSafe(topSize: int, pad: int) {
    Extra(topSize, pad) < PAGE || Extra(topSize, pad) + MINSIZE <= topSize
  }

  lemma ExtraBounds(topSize: int, pad: int)
    requires 0 <= topSize < SIGN && 0 <= pad <= SIGN - PAGE
    ensures PAGE <= Extra(topSize, pad) ==> pad + MINSIZE <= topSize - Extra(topSize, pad) <= pad + MINSIZE + PAGE
    ensures TrimSafe(topSize, pad) && (PAGE <= Extra(topSize, pad) <==> PAGE < topSize - pad - MINSIZE)
  {
    var x := topSize - pad - MINSIZE + (PAGE - 1);
    if x < 0 {
      assert x % TWO32 == x + TWO32;
      assert SIGN <= (x + TWO32) / PAGE * PAGE - PAGE < TWO32;
    } else if x < PAGE {
      assert x % TWO32 / PAGE - 1 == -1;
    }
  }

  lemma ExtraPages(topSize: int, pad: int)
    ensures Extra(topSize, pad) % PAGE == 0
  {
    var k := (topSize - pad - MINSIZE + (PAGE - 1)) % TWO32 / PAGE - 1;
    var q := k * PAGE / TWO32;
    assert (k * PAGE) % TWO32 == k * PAGE - q * TWO32 == (k - q * (TWO32 / PAGE)) * PAGE;
  }

  lemma ExtraRange(topSize: int, pad: int)
    ensures -SIGN <= Extra(topSize, pad) < SIGN
  {
  }

  /** A pad of 2^32 - 2^20 is too much for every top chunk below 2^31 - 2^21: more than it holds would go back. */
  lemma HugePad(topSize: int)
    requires 0 <= topSize < 0x7fe0_0000
    ensures topSize < Extra(topSize, 0xfff0_0000) && PAGE <= Extra(topSize, 0xfff0_0000)
  {
    var x := topSize + 0x10_0000 - MINSIZE + (PAGE - 1);
    assert (topSize - 0xfff0_0000 - MINSIZE + (PAGE - 1)) % TWO32 == x;
    assert x - PAGE < x / PAGE * PAGE <= x;
  }

  /** If the break comes to lie less than a chunk above top, no heap ends there. */
  lemma UnsafeTrim(m: Memory, g: Ghost, top: int, b: int)
    requires Rd(m, TOP_WORD) == top && AV_END <= top && b < top + MINSIZE
    ensures Search(m, g) ==> g.t.size != map[] && g.brk != b
  {
    hide Heap, Fresh, ChunkSize;
    if Search(m, g) {
      SearchKind(m, g);
      ReadTop(m, g);
    }
  }

  /** When memory below the heap is cleared too, only av_ counts if there is nothing but top. */
  lemma OnlyTop(m: Memory, m': Memory, h: Ghost)
    requires Heap(m, h) && h.t.size.Keys == {h.t.top} && Rd(m', h.t.top + SIZE) == Rd(m, h.t.top + SIZE)
    requires forall x | x < AV_END :: Rd(m', x) == Rd(m, x)
    ensures Heap(m', h)
  {
    hide NextLinked, PrevLinked, Member, Placed, Distinct, Aligned;
    OnlyTopLists(m, m', h);
  }

  lemma OnlyTopLists(m: Memory, m': Memory, h: Ghost)
    requires Heap(m, h) && h.t.size.Keys == {h.t.top} && forall x | x < AV_END :: Rd(m', x) == Rd(m, x)
    ensures Rings(m', h.q)
  {
    hide Ordered, Kept, SameData, Marked, Aligned, PrevLinked, NextLinked, Tagged, Links;
    forall b | 1 <= b < NAV
      ensures Links(m', Full(b, h.q.ring[b]))
    {
      if h.q.ring[b] != [] {
        MemberAt(h.q, b, 0);
      }
      assert Full(b, h.q.ring[b]) == [BinAt(b), BinAt(b)];
      LinksBelow(m, m', Full(b, h.q.ring[b]), AV_END);
    }
  }

  /** Memory from lo up to b has been cleared, and then the word at w has been written. */
  ghost predicate ClearedBelow(m: Memory, lo: int, b: int, w: int) {
    forall x | lo <= x < b && 0 <= x && x != w :: Rd(m, x) == 0
  }

  lemma HeadPositive(m: Memory, g: Ghost, p: int)
    requires Search(m, g) && p in Blocks(g.t)
    ensures Rd(m, p + SIZE) != 0
  {
    hide Rings, Ordered, Marked, Coalesced, Kept, SameData, Aligned, NextLinked, PrevLinked, Disjoint;
  }

  /** A block whose size word is cleared is lost. */
  lemma BlockLost(m: Memory, g: Ghost, p: int, blocks: map<int, int>, lo: int, b: int, w: int)
    requires ClearedBelow(m, lo, b, w) && p in blocks && lo <= p + SIZE < b && 0 <= p && p + SIZE != w
    ensures Search(m, g) ==> Blocks(g.t) != blocks
  {
    hide Heap, Fresh, Search, Blocks;
    assert Rd(m, p + SIZE) == 0;
    if Search(m, g) && p in Blocks(g.t) {
      HeadPositive(m, g, p);
    }
  }

  /** When av_ is cleared, no list is left. */
  lemma BinsLost(m: Memory, g: Ghost, lo: int, b: int, w: int)
    requires ClearedBelow(m, lo, b, w) && lo <= BinAt(NAV - 1) && AV_END <= b && w != BinAt(NAV - 1) + BK
    ensures !Search(m, g)
  {
    hide Ordered, Marked, Coalesced, Kept, SameData, Covers, Tagged, Rings;
    assert Rd(m, BinAt(NAV - 1) + BK) == 0;
    if Search(m, g) {
      ReadBin(m, g.q, NAV - 1);
    }
  }

  /** sbrk refuses after it has cleared memory from lo on; the size of top is written again. */
  lemma RefusedKeeps(m: Memory, h: Ghost, lo: int)
    requires Heap(m, h) && Blocks(h.t) == map[] && AV_END <= lo <= h.t.base
    ensures var m1 := Wiped(m, lo, h.brk);
            h.t.top in h.t.size && Rd(m1, TOP_WORD) == h.t.top
            && Heap(m1[h.t.top + SIZE := h.t.size[h.t.top] + PREV_INUSE], h)
  {
    hide Rings, Ordered, Marked, Kept, SameData, Aligned, Disjoint;
    ReadTop(m, h);
    forall p
      ensures !Live(h.t, p)
    {
      assert Live(h.t, p) ==> p in Blocks(h.t);
    }
    AllFreed(h.t, h.brk);
    var m1 := Wiped(m, lo, h.brk);
    var m' := m1[h.t.top + SIZE := h.t.size[h.t.top] + PREV_INUSE];
    forall x | x < AV_END
      ensures Rd(m', x) == Rd(m, x)
    {
      WipedAt(m, lo, h.brk, x);
    }
    WipedAt(m, lo, h.brk, TOP_WORD);
    ReadHead(m, h, h.t.top);
    OnlyTop(m, m', h);
  }

  /** Otherwise a block or the lists are gone, whatever is written to the size word of what top points to. */
  lemma RefusedBreaks(m: Memory, h: Ghost, lo: int, write: bool, v: int)
    requires Heap(m, h) && lo <= h.t.base && lo % PAGE == 0 && (Blocks(h.t) != map[] || lo < AV_END)
    ensures var m1 := Wiped(m, lo, h.brk); var m' := if write then m1[Rd(m1, TOP_WORD) + SIZE := v] else m1;
            forall g | Search(m', g) :: Blocks(g.t) != Blocks(h.t)
  {
    hide Heap, Search, Wiped;
    HeapSearch(m, h);
    ReadTop(m, h);
    var m1 := Wiped(m, lo, h.brk);
    var w := Rd(m1, TOP_WORD) + SIZE;
    var m' := if write then m1[w := v] else m1;
    WipedAt(m, lo, h.brk, TOP_WORD);
    forall x | lo <= x < h.brk && 0 <= x && x != w
      ensures Rd(m', x) == 0
    {
      WipedAt(m, lo, h.brk, x);
    }
    forall g | Search(m', g)
      ensures Blocks(g.t) != Blocks(h.t)
    {
      if Blocks(h.t) != map[] {
        var p :| p in Blocks(h.t);
        BlockBelow(m, h, p);
        BlockLost(m', g, p, Blocks(h.t), lo, h.brk, w);
      } else {
        BinsLost(m', g, lo, h.brk, w);
        assert false;
      }
    }
  }

  lemma BlockBelow(m: Memory, h: Ghost, p: int)
    requires Heap(m, h) && p in Blocks(h.t)
    ensures AV_END <= h.t.base <= p < h.t.top && p + SIZE < h.brk && p % ALIGN == 0 && h.t.top % ALIGN == 0
  {
    hide Rings, Ordered, Marked, Kept, SameData, Tagged, Coalesced, NextLinked, PrevLinked;
  }

  /** sbrk lowers the break too far. */
  lemma ReleasedBreaks(m: Memory, h: Ghost, lo: int, v: int)
    requires Heap(m, h) && AV_END <= lo && lo < h.t.top + MINSIZE
    ensures var m1 := Wiped(m, lo, h.brk); var m' := m1[Rd(m1, TOP_WORD) + SIZE := v];
            forall g | Search(m', g) :: g.t.size != map[] && g.brk != lo
  {
    hide Heap, Search, Wiped;
    HeapSearch(m, h);
    ReadTop(m, h);
    WipedAt(m, lo, h.brk, TOP_WORD);
    var m1 := Wiped(m, lo, h.brk);
    var m' := m1[Rd(m1, TOP_WORD) + SIZE := v];
    forall g | Search(m', g)
      ensures g.t.size != map[] && g.brk != lo
    {
      UnsafeTrim(m', g, h.t.top, lo);
    }
  }

  /** Words from the second word above the size word of top on do not matter. */
  lemma AboveTop(m: Memory, m': Memory, h: Ghost, a: int)
    requires Heap(m, h) && h.t.top + 8 <= a && forall x | x < a :: Rd(m', x) == Rd(m, x)
    ensures Heap(m', h)
  {
    hide NextLinked, PrevLinked, Coalesced, Member, Placed, Distinct, Ordered, Aligned;
    AboveTopLists(m, m', h, a);
  }

  lemma AboveTopLists(m: Memory, m': Memory, h: Ghost, a: int)
    requires Heap(m, h) && h.t.top + 8 <= a && forall x | x < a :: Rd(m', x) == Rd(m, x)
    ensures Rings(m', h.q)
  {
    hide Ordered, Kept, SameData, Marked, Aligned, PrevLinked, NextLinked, Tagged, Coalesced, Placed, Distinct, Links;
    forall b | 1 <= b < NAV
      ensures Links(m', Full(b, h.q.ring[b]))
    {
      var s := Full(b, h.q.ring[b]);
      forall i | 0 <= i < |s|
        ensures s[i] + BK < a
      {
        FullNodes(h.q, b, i);
        if 1 <= i <= |h.q.ring[b]| {
          assert s[i] in h.q.bin.Keys;
          assert s[i] < h.t.top && s[i] + h.t.size[s[i]] <= h.t.top;
        }
      }
      LinksBelow(m, m', s, a);
    }
  }

  lemma LinksBelow(m: Memory, m': Memory, s: seq<int>, a: int)
    requires Links(m, s) && (forall i | 0 <= i < |s| :: s[i] + BK < a) && forall x | x < a :: Rd(m', x) == Rd(m, x)
    ensures Links(m', s)
  {
  }

  /** The end of the top chunk is cleared and given back. */
  lemma ShrinkTop(m: Memory, h: Ghost, p: int, s: int, n: int, b: int)
    requires Heap(m, h) && p == h.t.top && p in h.t.size && s == h.t.size[p] && b == p + s
    requires n % ALIGN == 0 && MINSIZE <= s - n && 0 <= n
    ensures var m', h' := Cleared(m, b - n, b)[p + SIZE := s - n + PREV_INUSE], Grown(h, s - n);
            Heap(m', h') && Search(m', h') && Extended(h, h') && h'.brk == b - n && h'.t.base == h.t.base
                && h'.t.free == h.t.free
            && h'.t.size.Keys == h.t.size.Keys && ChunkSize(m', Rd(m', TOP_WORD)) == s - n
  {
    hide Mid, Rings;
    ReadTop(m, h);
    AboveTop(m, Cleared(m, b - n, b), h, b - n);
    TopResize(Cleared(m, b - n, b), h, s - n);
    ReadTop(Cleared(m, b - n, b)[p + SIZE := s - n + PREV_INUSE], Grown(h, s - n));
    BlocksResizeTop(h.t, s - n);
  }

  lemma ReleasedKeeps(m: Memory, h: Ghost, s: int, n: int)
    requires Heap(m, h) && h.t.top in h.t.size && s == h.t.size[h.t.top] && n % PAGE == 0 && MINSIZE <= s - n && 0 <= n
             && s < TWO32
    ensures var m1, h', lo := Wiped(m, h.brk - n, h.brk), Grown(h, s - n), h.brk - n;
            var m' := m1[Rd(m1, TOP_WORD) + SIZE := (s - n) % TWO32 + PREV_INUSE];
            Heap(m', h') && Search(m', h') && Extended(h, h') && h'.brk == lo && h'.t.base == h.t.base
            && h'.t.free == h.t.free && h'.t.size.Keys == h.t.size.Keys && ChunkSize(m', Rd(m', TOP_WORD)) == s - n
            && Rd(m', TOP_WORD) == h.t.top
  {
    hide Heap, Search, Extended, Grown, Cleared, Wiped, ChunkSize;
    HeapSearch(m, h);
    ReadTop(m, h);
    PageAligned(n);
    WipedAt(m, h.brk - n, h.brk, TOP_WORD);
    WipedTop(m, h.brk - n, h.brk);
    ShrinkTop(m, h, h.t.top, s, n, h.brk);
  }

  lemma TopHeap(m: Memory, h: Ghost, h': Ghost, p: int, rest: map<int, int>)
    requires Mid(m, h') && h'.todo == {} && h'.top == p && h'.t == AbsorbTopOf(h.t, p) && p in h.t.size
             && h.t.top in h.t.size
    requires Blocks(h'.t) == rest && h'.q.bin.Keys == h.t.free - {p}
    ensures Heap(m, h') && Search(m, h') && Blocks(h'.t) == rest && h'.t.base == h.t.base
  {
    hide Mid;
  }

  ghost function AbsorbTopOf(t: Tiles, p: int): Tiles {
    if p in t.size && t.top in t.size then AbsorbTop(t, p) else t
  }

  /** What the size word of a chunk says. */
  lemma HeadBits(m: Memory, h: Ghost, p: int)
    requires Heap(m, h) && p in h.t.size
    ensures var hd := Rd(m, p + SIZE);
            (hd % 2 == 1 <==> UsedBelow(h.t, p)) && hd - hd % 2 == h.t.size[p] == ChunkSize(m, p)
    ensures Mid(m, h) && h.todo == {} && h.q.bin.Keys == h.t.free && h.top == h.t.top
    ensures p != h.t.top ==> p + h.t.size[p] in h.t.size
  {
    hide Mid;
    ReadHead(m, h, p);
  }

}
