/**
 Changing the size of a block: joining it with its neighbours, moving the boundary to top, shifting
 its contents down, and cutting off what is too much.
 */
module Resizing {
  import opened Common
  import opened Chunks
  import opened Headers
  import opened BinLists
  import opened Binning
  import opened Arena
  import opened Steps
  import opened Freeing

  function Min(a: int, b: int): int {
    if a < b then a else b
  }

  // Copying.

  /** The first bytes of src have arrived at dest; no other word has changed. */
  ghost predicate Copied(m0: Memory, m: Memory, dest: int, src: int, done: int) {
    && (forall a | dest <= a < dest + done && (a - dest) % 4 == 0 :: Rd(m, a) == Rd(m0, a - dest + src))
    && (forall a | a < dest || dest + done <= a :: Rd(m, a) == Rd(m0, a))
  }

  /** One word more, in ascending order: correct as long as the destination lies below the source or apart from it. */
  lemma CopyStep(m0: Memory, m: Memory, dest: int, src: int, done: int, n: int)
    requires Copied(m0, m, dest, src, done) && 0 <= done && done % 4 == 0 && done + 4 <= n
             && (dest < src || src + n <= dest)
    ensures Copied(m0, m[dest + done := Rd(m, src + done)], dest, src, done + 4)
  {
    assert Rd(m, src + done) == Rd(m0, src + done);
    var m' := m[dest + done := Rd(m, src + done)];
    forall a | dest <= a < dest + done + 4 && (a - dest) % 4 == 0
      ensures Rd(m', a) == Rd(m0, a - dest + src)
    {
      assert a != dest + done ==> Rd(m', a) == Rd(m, a);
    }
  }

  /** The words of the block p, up to size n, are now those of the block q. */
  ghost predicate Moved(m0: Memory, p: int, m: Memory, q: int, n: int) {
    forall a | q + FD <= a <= q + n && (a - q) % 4 == 0 :: Rd(m, a) == Rd(m0, a - q + p)
  }

  // Growing.

  /** The low bit of the size word of p is right. */
  ghost predicate LowBit(m: Memory, t: Tiles, p: int) {
    Rd(m, p + SIZE) % 2 == (if UsedBelow(t, p) then 1 else 0)
  }

  /** The block p has been given n bytes; its size word, and the in-use bit above it, may still be as before. */
  ghost predicate Growing(m: Memory, h: Ghost, p: int, n: int) {
    && Live(h.t, p) && h.t.size[p] == n && p !in h.q.bin && p + n in h.t.size && MarkReady(m, h.t, p + n)
    && h.todo <= {p + SIZE, p + n + SIZE} && LowBit(m, h.t, p) && h.top == h.t.top
  }

  lemma GrowNone(m: Memory, h: Ghost, p: int)
    requires Heap(m, h) && Live(h.t, p)
    ensures Growing(m, h, p, h.t.size[p]) && Mid(m, h) && h.q.bin.Keys == h.t.free && MINSIZE <= h.t.size[p]
            && h.t.size[p] % ALIGN == 0
  {
    hide Mid;
    NotLinkedLive(h, p);
    ReadHead(m, h, p);
    ReadHead(m, h, p + h.t.size[p]);
  }

  /** p is joined with the chunk above it, which ends at e; neither is linked any more. */
  lemma GrowUp(m: Memory, h: Ghost, p: int, next: int, e: int)
    requires p in h.t.size && p + h.t.size[p] == next && next in h.t.size && next + h.t.size[next] == e
    requires p != h.t.top && next != h.t.top && p !in h.q.bin && next !in h.q.bin && next !in h.keep
    requires h.todo <= {p + SIZE, next + SIZE} && LowBit(m, h.t, p) && h.top == h.t.top
    requires p in h.t.free ==> p !in Blocks(h.t)
    requires Mid(m, h)
    ensures var h' := Joined(h, h.q, p, e);
            Mid(m, h') && Growing(m, h', p, e - p) && h'.t.base == h.t.base && h'.t.top == h.t.top
            && Blocks(h'.t) == (Blocks(h.t) - {next})[p := e - p] && h'.t.free == h.t.free - {p, next}
            && h' == h.(t := h'.t, todo := {p + SIZE, e + SIZE}) && e in h.t.size && e in h'.t.size
                && h'.t.size[e] == h.t.size[e]
  {
    hide Mid;
    NextDiffers(m, h, p);
    NextDiffers(m, h, next);
    ReadHead(m, h, e);
    GrownFacts(m, h, p);
    MidAbsorb(m, h, p);
    BlocksAbsorb(h.t, p);
    var h1 := h.(t := Absorb(h.t, p), todo := h.todo + {p + SIZE, e + SIZE});
    InsideGone(m, h1, p, next);
    MidForget(m, h1, next + SIZE);
    MidTodo(m, h1.(todo := h1.todo - {next + SIZE}), {p + SIZE, e + SIZE});
  }

  /** p has been cut at nb; both parts are in use, and their size words are still to be written. */
  ghost predicate CutOff(m: Memory, h: Ghost, h': Ghost, p: int, n: int, nb: int) {
    && p in h'.t.size && p + nb in h'.t.size && p + n in h'.t.size
    && Head(h'.t, p) == Rd(m, p + SIZE) % 2 + nb && Head(h'.t, p + nb) == n - nb + PREV_INUSE
        && MarkReady(m, h'.t, p + n)
    && Live(h'.t, p + nb) && p + nb !in h.keep && h'.t.size[p + nb] == n - nb && h'.t.size[p] == nb
    && Blocks(h'.t) == Blocks(h.t)[p := nb][p + nb := n - nb] && p + nb !in Blocks(h.t)
    && h'.t.free == h.t.free && h'.t.top == h.t.top && h'.t.base == h.t.base
    && h' == h.(t := h'.t, todo := {p + SIZE, p + nb + SIZE, p + n + SIZE}) && 0 < p
  }

  /** Cutting the grown block at nb. */
  lemma CutGrown(m: Memory, h: Ghost, p: int, n: int, nb: int)
    requires Mid(m, h) && Growing(m, h, p, n) && nb % ALIGN == 0 && MINSIZE <= nb && nb + MINSIZE <= n
             && (p in h.keep ==> h.keep[p] <= nb)
    ensures Mid(m, Trimmed(h, p, n, nb)) && CutOff(m, h, Trimmed(h, p, n, nb), p, n, nb)
  {
    hide Mid;
    ChunkAbove(m, h, p);
    GrownFacts(m, h, p);
    NextDiffers(m, h, p);
    MidCut(m, h, p, nb);
    BlocksCut(h.t, p, nb);
    var h1 := h.(t := Cut(h.t, p, nb), todo := h.todo + {p + SIZE, p + nb + SIZE});
    MidTodo(m, h1, {p + SIZE, p + nb + SIZE, p + n + SIZE});
  }

  lemma GrownFacts(m: Memory, h: Ghost, p: int)
    requires Mid(m, h)
    ensures h.t.free <= h.t.size.Keys && (forall k | k in h.keep :: k in h.t.size)
            && (p in h.t.prev ==> h.t.prev[p] in h.t.size && h.t.prev[p] < p)
    ensures h.t.top in h.t.size
  {
    hide Rings, Tagged, Ordered, Marked, SameData, Aligned, Disjoint, NextLinked;
  }

  ghost function Trimmed(h: Ghost, p: int, n: int, nb: int): Ghost {
    h.(t := if p in h.t.size
        && p != h.t.top then Cut(h.t, p, nb) else h.t, todo := {p + SIZE, p + nb + SIZE, p + n + SIZE})
  }

  // Moving the boundary between a block and top.

  /** What the moves below have in common: p keeps its place and ends where top now begins. */
  ghost predicate TopMoved(h: Ghost, h': Ghost, p: int, n: int, nb: int) {
    && Live(h'.t, p) && h'.t.size[p] == nb && p !in h'.q.bin && h'.t.top == p + nb && p + nb in h'.t.size
    && Head(h'.t, p + nb) == n - nb + PREV_INUSE && h'.t.base == h.t.base && h'.todo == {p + SIZE, p + nb + SIZE}
    && h'.q == h.q && h'.brk == h.brk && h'.keep == h.keep && h'.orig == h.orig
    && Blocks(h'.t) == Blocks(h.t)[p := nb]
  }

  /** When the chunk below p is in use. */
  lemma MoveTop(m: Memory, h: Ghost, p: int, n: int, nb: int) returns (h': Ghost)
    requires Mid(m, h) && p in h.t.size && p != h.t.top && p + h.t.size[p] == h.t.top && p !in h.q.bin && p !in h.keep
    requires UsedBelow(h.t, p) && h.todo <= {p + SIZE} && h.t.top in h.t.size && n == h.t.size[p] + h.t.size[h.t.top]
    requires nb % ALIGN == 0 && MINSIZE <= nb && nb + MINSIZE <= n
    ensures Mid(m, h') && TopMoved(h, h', p, n, nb) && h'.t.free == h.t.free - {p} && Head(h'.t, p) == nb + PREV_INUSE
    ensures forall x | x in h.t.size && x != p && x != h.t.top :: x in h'.t.size && h'.t.size[x] == h.t.size[x]
    ensures forall x | x in h.t.prev && x != h.t.top :: x in h'.t.prev && h'.t.prev[x] == h.t.prev[x]
    ensures forall x | x in h'.t.prev && x != h'.t.top :: x in h.t.prev
  {
    hide Mid;
    JoinTop(m, h, p, n);
    var h1 := h.(t := AbsorbTopOf(h.t, p), todo := {p + SIZE});
    MidCutTop(m, h1, nb);
    NoPrev(m, h1, p + nb);
    BlocksCutTop(h1.t, nb);
    h' := h1.(t := CutTop(h1.t, nb), todo := h1.todo + {p + SIZE, p + nb + SIZE});
    assert h'.todo == {p + SIZE, p + nb + SIZE};
  }

  lemma NoPrev(m: Memory, h: Ghost, x: int)
    requires Mid(m, h) && x !in h.t.size
    ensures x !in h.t.prev
  {
    hide Rings, Tagged, Ordered, Marked, SameData, Aligned, Disjoint, NextLinked, Coalesced, Kept;
    assert x in h.t.prev.Keys ==> x in h.t.size.Keys;
  }

  /** When the chunk below p, f, is free: f is treated as in use while the boundary moves. */
  lemma MoveTopFree(m: Memory, h: Ghost, p: int, f: int, n: int, nb: int) returns (h': Ghost)
    requires Mid(m, h) && Live(h.t, p) && p + h.t.size[p] == h.t.top && p !in h.q.bin && p !in h.keep
    requires p in h.t.prev && h.t.prev[p] == f && f in h.t.free && f in h.t.size && f != h.t.top
    requires h.todo == {} && h.t.top in h.t.size && n == h.t.size[p] + h.t.size[h.t.top]
    requires nb % ALIGN == 0 && MINSIZE <= nb && nb + MINSIZE <= n
    ensures Mid(m, h') && TopMoved(h, h', p, n, nb) && h'.t.free == h.t.free && Head(h'.t, p) == nb
  {
    hide Mid;
    ReadFoot(m, h, p);
    FreeFacts(m, h, f);
    MidTake(m, h, f, h.t.size[f]);
    BlocksTake(h.t, f);
    var h1 := h.(t := Take(h.t, f), todo := h.todo + {p + SIZE});
    var h2 := MoveTop(m, h1, p, n, nb);
    NextDiffers(m, h2, p);
    MidRelease(m, h2, f);
    BlocksRelease(h2.t, f);
    var h3 := h2.(t := Release(h2.t, f), todo := h2.todo + {p + SIZE, p});
    MidFootIsRight(m, h3, f);
    h' := h3.(todo := h3.todo - {p});
    assert h'.todo == {p + SIZE, p + nb + SIZE};
    assert Blocks(h'.t) == Blocks(h.t)[p := nb];
  }

  // A whole call.

  /** The state in which a call to realloc starts, for the block p. */
  ghost predicate Begun(m: Memory, h: Ghost, p: int) {
    Heap(m, h) && Live(h.t, p) && h.keep == Blocks(h.t) && h.orig == m
  }

  /** How much the block p can grow upwards; a chunk of the least size has to be left of top. */
  ghost function RoomAbove(t: Tiles, p: int): int
    requires p in t.size
  {
    var next := p + t.size[p];
    if next !in t.size then 0
    else if next == t.top then t.size[next] - MINSIZE
    else if next in t.free then t.size[next] else 0
  }

  /** Where the block p can have nb bytes together with the free chunks beside it; its own place comes first. */
  ghost function PlaceFor(t: Tiles, p: int, nb: int): Option<int>
    requires p in t.size
  {
    var room := t.size[p] + RoomAbove(t, p);
    if nb <= room then Some(p)
    else if p in t.prev && t.prev[p] in t.free && t.prev[p] in t.size && nb <= t.size[t.prev[p]] + room then
      Some(t.prev[p])
    else None
  }

  /** realloc takes that place whenever there is one. */
  ghost predicate AtPlace(t: Tiles, p: int, nb: int, newmem: int) {
    p in t.size ==>
      match PlaceFor(t, p, nb)
      case Some(q) => newmem == q + FD && 0 < q
      case None => true
  }

  /** What the program reads of the chunk above. */
  lemma RoomRead(m: Memory, h: Ghost, p: int)
    requires Heap(m, h) && Live(h.t, p)
    ensures var next := p + h.t.size[p];
            RoomAbove(h.t, p) == if next == h.t.top then ChunkSize(m, next) - MINSIZE
                                 else if PrevInuse(m, next + ChunkSize(m, next)) then 0 else ChunkSize(m, next)
    ensures 0 <= RoomAbove(h.t, p)
  {
    hide Mid;
    NextUse(m, h, p);
    ReadHead(m, h, p + h.t.size[p]);
  }

  /** The block p has become the block q, with room for nb bytes: q holds what p held, up to the smaller
      size, and every other block holds what it held. */
  ghost predicate Resized(m0: Memory, t0: Tiles, m: Memory, t: Tiles, p: int, q: int, nb: int) {
    && p in t0.size && q in t.size && q !in Blocks(t0) - {p}
    && Blocks(t) == (Blocks(t0) - {p})[q := t.size[q]] && nb <= t.size[q] < nb + MINSIZE
    && SameData(m0, m, Blocks(t0) - {p}) && Moved(m0, p, m, q, Min(t0.size[p], nb))
  }

  /** The blocks that stay, and the n bytes at q, are what the call protects from now on. */
  ghost function Protected(h: Ghost, p: int, q: int, n: int): map<int, int> {
    (Blocks(h.t) - {p})[q := n]
  }

  lemma Settle(m0: Memory, m1: Memory, m: Memory, h: Ghost, h': Ghost, p: int, q: int, nb: int)
    requires p in h.t.size && q in h'.t.size && q !in Blocks(h.t) - {p} && Mid(m, h') && h'.orig == m1
    requires h'.keep == Protected(h, p, q, Min(h.t.size[p], nb))
    requires Blocks(h'.t) == (Blocks(h.t) - {p})[q := h'.t.size[q]] && nb <= h'.t.size[q] < nb + MINSIZE
    requires SameData(m0, m1, Blocks(h.t) - {p}) && Moved(m0, p, m1, q, Min(h.t.size[p], nb))
    ensures Resized(m0, h.t, m, h'.t, p, q, nb)
  {
    hide Rings, Tagged, Ordered, Marked, Coalesced, Covers, Kept;
    var rest, n := Blocks(h.t) - {p}, Min(h.t.size[p], nb);
    forall k, a | k in rest && k + FD <= a <= k + rest[k]
      ensures Rd(m, a) == Rd(m0, a)
    {
      assert h'.keep[k] == rest[k];
    }
    forall a | q + FD <= a <= q + n && (a - q) % 4 == 0
      ensures Rd(m, a) == Rd(m0, a - q + p)
    {
      assert h'.keep[q] == n;
    }
  }

  lemma SettledAtOnce(m: Memory, p: int, n: int, keep: map<int, int>)
    ensures SameData(m, m, keep) && Moved(m, p, m, p, n)
  {
  }

  /** Protection starts afresh, with n bytes of the block q. */
  lemma Protect(m: Memory, h0: Ghost, h: Ghost, p: int, q: int, n: int)
    requires Mid(m, h) && h.keep == Blocks(h0.t) - {p} && Live(h.t, q) && q !in h.q.bin && n <= h.t.size[q]
    ensures Mid(m, h.(keep := Protected(h0, p, q, n), orig := m)) && q in Protected(h0, p, q, n)
            && Protected(h0, p, q, n)[q] == n
    ensures p != q ==> p !in Protected(h0, p, q, n)
  {
    ProtectKept(h.t, h.q, h.keep, q, n);
    hide Mid;
    Rebase(m, h, Protected(h0, p, q, n));
  }

  lemma ProtectKept(t: Tiles, q: Bins, keep: map<int, int>, x: int, n: int)
    requires Kept(t, q, keep) && Live(t, x) && x !in q.bin && n <= t.size[x]
    ensures Kept(t, q, keep[x := n])
  {
  }

  /** The call lets go of the block p itself. */
  lemma LetGo(m: Memory, h: Ghost, p: int)
    requires Begun(m, h, p)
    ensures Mid(m, h.(keep := Blocks(h.t) - {p})) && Heap(m, h.(keep := Blocks(h.t) - {p})) && h.todo == {}
    ensures SameData(m, m, Blocks(h.t) - {p}) && p in h.t.size && p !in h.q.bin && h.q.bin.Keys == h.t.free
            && h.top == h.t.top
    ensures p in Blocks(h.t) && Blocks(h.t)[p] == h.t.size[p] && MINSIZE <= h.t.size[p] && h.t.size[p] % ALIGN == 0
  {
    hide Mid;
    NotLinkedLive(h, p);
    ReadHead(m, h, p);
    KeepLess(m, h, Blocks(h.t) - {p});
  }

  lemma TopPlaced(m: Memory, h: Ghost, p: int, nb: int)
    requires Mid(m, h) && h.todo == {} && h.top == h.t.top == p + nb && h.q.bin.Keys == h.t.free
    ensures Heap(m, h) && Search(m, h) && h.t.size != map[]
  {
    hide Mid;
    HeapSearch(m, h);
  }

  /** Where a word of a block in use may be copied to. */
  ghost predicate Writable(h: Ghost, x: int, dest: int, n: int) {
    Live(h.t, x) && x !in h.q.bin && x !in h.keep && x + FD <= dest && dest + n - 4 <= x + h.t.size[x]
  }

  lemma CutHeap(m: Memory, h: Ghost, h': Ghost, p: int, n: int, nb: int)
    requires Mid(m, h') && h'.t == Trimmed(h, p, n, nb).t && h'.q == h.q && h'.todo == {} && h'.top == h.top
    requires h.q.bin.Keys == h.t.free && h.top == h.t.top && h'.t.free == h.t.free && h'.t.top == h.t.top
    ensures Heap(m, h') && Search(m, h')
  {
    hide Mid;
    HeapSearch(m, h');
  }

  lemma CutFreed(m: Memory, h: Ghost, h1: Ghost, h': Ghost, p: int, n: int, nb: int)
    requires Blocks(h1.t) == Blocks(h.t)[p := nb][p + nb := n - nb] && p + nb !in Blocks(h.t) && nb != 0
    requires Blocks(h'.t) == Blocks(h1.t) - {p + nb} && p in Blocks(h.t)
    requires Search(m, h')
    ensures p in h'.t.size && h'.t.size[p] == nb && Blocks(h'.t) == Blocks(h.t)[p := nb] && Heap(m, h')
  {
    hide Heap, Fresh;
    assert Blocks(h'.t) == Blocks(h.t)[p := nb];
    assert p in Blocks(h'.t);
    assert Blocks(h'.t)[p] == nb;
    SearchKind(m, h');
  }

  lemma GrownHead(m: Memory, h: Ghost, p: int, n: int)
    requires Growing(m, h, p, n)
    ensures p in h.t.size && Head(h.t, p) == Rd(m, p + SIZE) % 2 + n && p in Blocks(h.t) && Blocks(h.t)[p] == n
  {
  }

  lemma GrownHeap(m: Memory, h: Ghost, h': Ghost, p: int, n: int)
    requires Mid(m, h') && h' == h.(todo := {}) && h.q.bin.Keys == h.t.free && h.top == h.t.top
    ensures Heap(m, h') && Search(m, h')
  {
    hide Mid;
    HeapSearch(m, h');
  }

  lemma CopyStart(m: Memory, dest: int, src: int)
    ensures Copied(m, m, dest, src, 0)
  {
  }

  lemma MovedTop(m: Memory, h: Ghost, p: int, n: int, nb: int) returns (h': Ghost)
    requires Heap(m, h) && Live(h.t, p) && p + h.t.size[p] == h.t.top && h.t.top in h.t.size && p !in h.keep
    requires n == h.t.size[p] + h.t.size[h.t.top] && nb % ALIGN == 0 && MINSIZE <= nb && nb + MINSIZE <= n
    ensures Mid(m, h') && TopMoved(h, h', p, n, nb) && h'.t.free == h.t.free
            && Head(h'.t, p) == Rd(m, p + SIZE) % 2 + nb
  {
    hide Mid, TopMoved, Head;
    NotLinkedLive(h, p);
    HeadBits(m, h, p);
    if UsedBelow(h.t, p) {
      h' := MoveTop(m, h, p, n, nb);
    } else {
      var f, i := BelowFree(m, h, p);
      NextDiffers(m, h, f);
      h' := MoveTopFree(m, h, p, f, n, nb);
    }
  }

  lemma SettleTop(m0: Memory, m1: Memory, m: Memory, h: Ghost, h': Ghost, p: int, q: int, nb: int)
    requires p in h.t.size && q in h'.t.size && h'.t.size[q] == nb && q !in Blocks(h.t) - {p} && Heap(m, h')
             && h'.orig == m1 && h.t.size[p] <= nb
    requires h'.keep == Protected(h, p, q, h.t.size[p]) && Blocks(h'.t) == (Blocks(h.t) - {p})[q := nb]
    requires SameData(m0, m1, Blocks(h.t) - {p}) && Moved(m0, p, m1, q, h.t.size[p])
    ensures Resized(m0, h.t, m, h'.t, p, q, nb)
  {
    hide Mid, Resized, Moved, SameData;
    Settle(m0, m1, m, h, h', p, q, nb);
  }

  lemma HeapMid(m: Memory, h: Ghost)
    requires Heap(m, h)
    ensures Mid(m, h)
  {
    hide Mid;
  }

  /** All that is protected stays protected when the block p is protected up to n bytes only. */
  lemma ProtectLess(m: Memory, h: Ghost, p: int, n: int)
    requires Begun(m, h, p) && n <= h.t.size[p]
    ensures Heap(m, h.(keep := Protected(h, p, p, n))) && Mid(m, h.(keep := Protected(h, p, p, n)))
  {
    hide Mid;
    KeepLess(m, h, Protected(h, p, p, n));
  }

  lemma ProtectSame(h: Ghost, p: int)
    requires p in h.t.size && h.keep == Blocks(h.t) && Live(h.t, p)
    ensures h.keep == Protected(h, p, p, h.t.size[p])
  {
  }

  /** The free chunk next above the block p. */
  lemma NextFree(m: Memory, h: Ghost, p: int) returns (next: int, e: int, i: int)
    requires Heap(m, h) && Live(h.t, p) && p + h.t.size[p] in h.t.free
    ensures next == p + h.t.size[p] && next in h.t.size && e == next + h.t.size[next] && next != h.t.top
            && At(h.q, next, i) && next in h.q.bin
    ensures next !in h.keep && next !in Blocks(h.t) && e in h.t.size && ChunkSize(m, next) == h.t.size[next]
            && MINSIZE <= h.t.size[next]
  {
    hide Mid;
    next := p + h.t.size[p];
    NextDiffers(m, h, p);
    FreeFacts(m, h, next);
    TopFree(m, h);
    ReadHead(m, h, next);
    e := next + h.t.size[next];
    assert next in h.q.bin.Keys;
    i := LinkedAt(m, h, next);
  }

  lemma SettleGrown(m0: Memory, m1: Memory, m: Memory, h: Ghost, h1: Ghost, h': Ghost, p: int, q: int, nb: int)
    requires p in h.t.size && q in h'.t.size && q !in Blocks(h.t) - {p} && Heap(m, h') && h'.orig == m1
             && h.t.size[p] <= nb
    requires h'.keep == Protected(h, p, q, h.t.size[p]) && Blocks(h1.t) - {q} == Blocks(h.t) - {p, q}
    requires Blocks(h'.t) == Blocks(h1.t)[q := h'.t.size[q]] && nb <= h'.t.size[q] < nb + MINSIZE
    requires SameData(m0, m1, Blocks(h.t) - {p}) && Moved(m0, p, m1, q, h.t.size[p])
    ensures Resized(m0, h.t, m, h'.t, p, q, nb)
  {
    hide Mid, Resized, Moved, SameData;
    assert Blocks(h'.t) == (Blocks(h.t) - {p})[q := h'.t.size[q]] by {
      hide Blocks;
      var b, b1, b' := Blocks(h.t), Blocks(h1.t), Blocks(h'.t);
      assert b' == (b1 - {q})[q := h'.t.size[q]];
      assert b - {p, q} == (b - {p}) - {q};
    }
    Settle(m0, m1, m, h, h', p, q, nb);
  }

  // Shifting a block down.

  /** Copying into a block does not touch its own size word, nor that of the chunk above it. */
  lemma CopyKeepsGrowing(m0: Memory, m: Memory, h: Ghost, p: int, n: int, k: int, src: int)
    requires Growing(m0, h, p, n) && Copied(m0, m, p + FD, src, k - 4) && 8 <= k <= n
    ensures Growing(m, h, p, n)
  {
    assert Rd(m, p + SIZE) == Rd(m0, p + SIZE);
    assert Rd(m, p + n + SIZE) == Rd(m0, p + n + SIZE);
  }

  /** What p held when the call began has arrived at q. */
  lemma MovedFrom(m0: Memory, m1: Memory, m: Memory, h: Ghost, p: int, q: int, n: int)
    requires SameData(m0, m1, h.keep) && p in h.keep && h.keep[p] == n && n % 4 == 0
             && Copied(m1, m, q + FD, p + FD, n - 4)
    ensures Moved(m0, p, m, q, n)
  {
    hide Copied, SameData;
    forall a | q + FD <= a <= q + n && (a - q) % 4 == 0
      ensures Rd(m, a) == Rd(m0, a - q + p)
    {
      CopiedAt(m1, m, q, p, n, a);
      SameAt(m0, m1, h.keep, p, a - q + p);
    }
  }

  lemma CopiedAt(m1: Memory, m: Memory, q: int, p: int, n: int, a: int)
    requires Copied(m1, m, q + FD, p + FD, n - 4) && q + FD <= a <= q + n && (a - q) % 4 == 0 && n % 4 == 0
    ensures Rd(m, a) == Rd(m1, a - q + p)
  {
  }

  lemma SameAt(m0: Memory, m1: Memory, keep: map<int, int>, p: int, a: int)
    requires SameData(m0, m1, keep) && p in keep && p + FD <= a <= p + keep[p]
    ensures Rd(m1, a) == Rd(m0, a)
  {
  }

  lemma DataOf(m: Memory, h: Ghost)
    requires Mid(m, h)
    ensures SameData(h.orig, m, h.keep)
  {
  }

  lemma BelowBit(m0: Memory, m: Memory, h: Ghost, f: int)
    requires Heap(m0, h) && f in h.t.size && UsedBelow(h.t, f) && Rd(m, f + SIZE) == Rd(m0, f + SIZE)
    ensures LowBit(m, h.t, f)
  {
    hide Mid;
    HeadBits(m0, h, f);
  }

  lemma GrowingBit(m: Memory, h: Ghost, p: int, n: int)
    requires Growing(m, h, p, n)
    ensures LowBit(m, h.t, p) && Live(h.t, p) && p !in h.q.bin && h.t.size[p] == n && h.top == h.t.top
            && h.todo <= {p + SIZE, p + n + SIZE}
  {
  }

  lemma WritableGrown(h: Ghost, p: int, n: int)
    requires Live(h.t, p) && p !in h.q.bin && p !in h.keep && n <= h.t.size[p]
    ensures Writable(h, p, p + FD, n - 4)
  {
  }

  lemma SameGrowing(m: Memory, h: Ghost, h': Ghost, p: int, n: int)
    requires Growing(m, h, p, n) && h'.t == h.t && h'.q == h.q && h'.todo == h.todo && h'.top == h.top
    ensures Growing(m, h', p, n)
  {
  }

  lemma CopyKeepsHead(m0: Memory, m: Memory, p: int, src: int, n: int)
    requires Copied(m0, m, p + FD, src, n)
    ensures Rd(m, p + SIZE) == Rd(m0, p + SIZE)
  {
  }

  lemma AllocData(m: Memory, h: Ghost)
    requires Search(m, h)
    ensures SameData(h.orig, m, h.keep)
  {
    hide Rings, Tagged, Ordered, Marked, Coalesced, Covers, Kept;
  }

  /** The new block lies apart from p. */
  lemma HandedApart(m: Memory, h: Ghost, h': Ghost, p: int, q: int, nb: int)
    requires Search(m, h') && Handed(h, h', q, nb) && p in Blocks(h.t) && h.keep == Blocks(h.t)
    ensures Heap(m, h') && Mid(m, h') && h'.t.size != map[] && Live(h'.t, p) && Live(h'.t, q)
            && h'.t.size[p] == h.t.size[p] && p != q
    ensures p !in h'.q.bin && q !in h'.q.bin && h'.q.bin.Keys == h'.t.free && h'.top == h'.t.top && h'.todo == {}
    ensures q < p || p + h.t.size[p] <= q
    ensures q !in h'.keep && 0 < p && ChunkSize(m, q) == h'.t.size[q] && LowBit(m, h'.t, p)
            && q + h'.t.size[q] in h'.t.size
    ensures Blocks(h'.t) - {q} == Blocks(h.t) && h'.keep == h.keep && h'.orig == h.orig
            && nb <= h'.t.size[q] < nb + MINSIZE
  {
    hide Mid;
    assert p in Blocks(h'.t) && q in Blocks(h'.t);
    assert Blocks(h'.t)[p] == Blocks(h.t)[p];
    SearchKind(m, h');
    NotLinkedLive(h', p);
    NotLinkedLive(h', q);
    GrowNone(m, h', p);
    HeadBits(m, h', q);
    ChunkAbove(m, h', p);
    if p < q {
      ChunksApart(m, h', p, q);
    }
  }

  lemma ChunksApart(m: Memory, h: Ghost, p: int, q: int)
    requires Mid(m, h) && p in h.t.size && q in h.t.size && p < q
    ensures p + h.t.size[p] <= q
  {
    hide Rings, Tagged, Ordered, Marked, Coalesced, Kept, SameData, Aligned, NextLinked, PrevLinked;
  }

  lemma SettleFreed(m0: Memory, m1: Memory, m: Memory, h: Ghost, h1: Ghost, h': Ghost, p: int, q: int, nb: int)
    requires p in h.t.size && p != q && q !in Blocks(h.t) && Search(m, h') && h'.orig == m1 && h.t.size[p] <= nb
    requires h'.keep == Protected(h, p, q, h.t.size[p]) && Handed(h, h1, q, nb) && Blocks(h'.t) == Blocks(h1.t) - {p}
    requires SameData(m0, m1, Blocks(h.t) - {p}) && Moved(m0, p, m1, q, h.t.size[p])
    ensures Resized(m0, h.t, m, h'.t, p, q, nb)
  {
    hide Mid, Resized, Moved, SameData;
    assert q in Blocks(h'.t);
    assert Blocks(h'.t)[q] == h1.t.size[q];
    assert h'.t.size[q] == h1.t.size[q];
    SearchKind(m, h');
    Settle(m0, m1, m, h, h', p, q, nb);
  }

  // Aligned blocks.

  /** The bit above a block in use is set. */
  lemma EndIsRight(m: Memory, h: Ghost, h': Ghost, p: int, n: int, nb: int)
    requires Heap(m, h) && Live(h.t, p) && h.t.size[p] == n && CutOff(m, h, h', p, n, nb) && Mid(m, h')
    ensures Mid(m, h'.(todo := {p + SIZE, p + nb + SIZE}))
  {
    hide Mid;
    ReadHead(m, h, p);
    ReadHead(m, h, p + n);
    MidHeadIsRight(m, h', p + n);
    assert h'.todo - {p + n + SIZE} <= {p + SIZE, p + nb + SIZE};
    MidTodo(m, h'.(todo := h'.todo - {p + n + SIZE}), {p + SIZE, p + nb + SIZE});
  }

  /** alignment is a power of two. */
  ghost predicate PowerOfTwo(alignment: int) {
    exists k: nat :: alignment == Power(k)
  }

  lemma PowerMultiple(alignment: int)
    requires PowerOfTwo(alignment)
    ensures alignment == 1 || alignment == 2 || alignment == 4 || alignment == 8
            || (MINSIZE <= alignment && alignment % MINSIZE == 0)
  {
    var k: nat :| alignment == Power(k);
    if k < 4 {
      assert Power(0) == 1 && Power(1) == 2 && Power(2) == 4 && Power(3) == 8;
    } else {
      assert Power(k) == 16 * Power(k - 4) by {
        assert Power(k) == 2 * Power(k - 1) && Power(k - 1) == 2 * Power(k - 2) && Power(k - 2) == 2 * Power(k - 3)
            && Power(k - 3) == 2 * Power(k - 4);
      }
    }
  }

  /** The aligned place inside the chunk p: far enough above p for a chunk, and not too far. */
  function AlignedPlace(p: int, alignment: int): int
    requires 0 < alignment
  {
    var x := p + FD + alignment - 1;
    var brk := x - x % alignment - FD;
    if brk - p < MINSIZE then brk + alignment else brk
  }

  lemma AlignedPlaceFits(p: int, alignment: int)
    requires MINSIZE <= alignment && alignment % MINSIZE == 0 && p % ALIGN == 0
    ensures var q := AlignedPlace(p, alignment);
            (q + FD) % alignment == 0 && MINSIZE <= q - p <= alignment + ALIGN && (q - p) % ALIGN == 0
            && q - alignment < p + MINSIZE
  {
    var x := p + FD + alignment - 1;
    var k, r := x / alignment, x % alignment;
    assert x == alignment * k + r && 0 <= r < alignment;
    Quotient(alignment, k);
    Quotient(alignment, k + 1);
    MultipleOf8(alignment, k);
    var a := alignment * k;
    assert alignment * (k + 1) == a + alignment;
    EightApart(a, p, alignment);
  }

  lemma EightApart(a: int, p: int, b: int)
    requires a % ALIGN == 0 && p % ALIGN == 0 && b % MINSIZE == 0
    ensures (a - FD - p) % ALIGN == 0 && (a + b - FD - p) % ALIGN == 0
    ensures a - FD - p < MINSIZE ==> a - FD - p <= ALIGN
  {
    var i, j, k := a / ALIGN, p / ALIGN, b / MINSIZE;
    Eight(i - 1 - j);
    Eight(i + 2 * k - 1 - j);
  }

  lemma Quotient(a: int, k: int)
    requires 0 < a
    ensures (a * k) % a == 0
  {
    var x := a * k;
    var q, r := x / a, x % a;
    assert x == a * q + r;
    assert a * (k - q) == r by {
      assert a * (k - q) == a * k - a * q;
    }
    Smaller(a, k - q);
  }

  lemma Smaller(a: int, d: int)
    requires 0 < a
    ensures (1 <= d ==> a <= a * d) && (d <= -1 ==> a * d <= -a)
  {
  }

  lemma MultipleOf8(a: int, k: int)
    requires a % MINSIZE == 0
    ensures (a * k) % ALIGN == 0 && a % ALIGN == 0
  {
    var b := a / MINSIZE;
    assert a * k == ALIGN * (2 * (b * k));
  }

  lemma SameDataNow(m: Memory, keep: map<int, int>)
    ensures SameData(m, m, keep)
  {
  }

  lemma BegunAbove(m: Memory, h: Ghost, p: int)
    requires Begun(m, h, p)
    ensures 0 < p && Heap(m, h) && p in h.t.size && p != h.t.top && MINSIZE <= h.t.size[p]
  {
    hide Mid;
    ReadHead(m, h, p);
  }

  /** Whether the chunk above p is free, as the bit above it says. */
  lemma NextUse(m: Memory, h: Ghost, p: int)
    requires Heap(m, h) && Live(h.t, p)
    ensures var next := p + h.t.size[p];
            next in h.t.size && (next != h.t.top ==> (PrevInuse(m, next + ChunkSize(m, next)) <==> next !in h.t.free))
  {
    hide Mid;
    var next := p + h.t.size[p];
    NextDiffers(m, h, p);
    ReadHead(m, h, next);
    if next != h.t.top {
      ReadHead(m, h, next + h.t.size[next]);
    }
  }

  lemma PrevFacts(m: Memory, h: Ghost, p: int)
    requires Heap(m, h) && Live(h.t, p) && !PrevInuse(m, p)
    ensures !UsedBelow(h.t, p) && p in h.t.prev && var f := h.t.prev[p];
            f in h.t.size && f == p - Rd(m, p + PREV_SIZE) && 0 < f && MINSIZE <= h.t.size[f] == ChunkSize(m, f)
  {
    hide Mid;
    HeadBits(m, h, p);
    var f, i := BelowFree(m, h, p);
    ReadHead(m, h, f);
  }

  /** Only the block p is new, with room for nb bytes. */
  ghost predicate NewBlock(h: Ghost, h': Ghost, p: int, nb: int) {
    p !in Blocks(h.t) && p in h'.t.size && Blocks(h'.t) == Blocks(h.t)[p := h'.t.size[p]]
        && nb <= h'.t.size[p] < nb + MINSIZE
  }

  lemma KeptBlocks(m: Memory, h: Ghost)
    requires Search(m, h)
    ensures forall k | k in h.keep :: k in Blocks(h.t)
  {
    hide Rings, Tagged, Ordered, Marked, Coalesced, Covers, SameData;
  }

  lemma HandedNew(m: Memory, h: Ghost, h': Ghost, p: int, nb: int)
    requires Search(m, h') && Handed(h, h', p, nb) && forall k | k in h.keep :: k in Blocks(h.t)
    ensures NewBlock(h, h', p, nb) && Heap(m, h') && Live(h'.t, p) && p !in h'.keep && h'.keep == h.keep
            && h'.orig == h.orig && RestLinked(h, h', p, nb)
    ensures ChunkSize(m, p) == h'.t.size[p] && p % ALIGN == 0 && 0 < p
  {
    hide Mid;
    assert p in Blocks(h'.t);
    SearchKind(m, h');
    HeadBits(m, h', p);
    HeapMid(m, h');
    ReadHead(m, h', p);
  }

  lemma DividesToo(x: int, a: int)
    requires x % ALIGN == 0 && (a == 1 || a == 2 || a == 4 || a == 8)
    ensures x % a == 0
  {
    var k := x / ALIGN;
    if a == 2 {
      Quotient(2, 4 * k);
      assert x == 2 * (4 * k);
    } else if a == 4 {
      Quotient(4, 2 * k);
      assert x == 4 * (2 * k);
    }
  }

  lemma BlockWords(n: int)
    requires n % ALIGN == 0
    ensures (n - 4) % ALIGN == 4 && n % 4 == 0
  {
    assert n - 4 == ALIGN * (n / ALIGN - 1) + 4;
    assert n == 4 * (2 * (n / ALIGN));
  }

  /** The part below the aligned place has been freed. */
  lemma LeaderFreed(m: Memory, h: Ghost, h1: Ghost, h2: Ghost, h': Ghost, p: int, q: int, n: int)
    requires p !in Blocks(h.t) && p in h1.t.size && Blocks(h1.t) == Blocks(h.t)[p := h1.t.size[p]] && Search(m, h')
    requires p < q && Blocks(h2.t) == Blocks(h1.t)[p := q - p][q := n] && q !in Blocks(h1.t)
             && Blocks(h'.t) == Blocks(h2.t) - {p}
    ensures q !in Blocks(h.t) && q in h'.t.size && h'.t.size[q] == n && Blocks(h'.t) == Blocks(h.t)[q := n]
            && Live(h'.t, q)
    ensures Heap(m, h') && ChunkSize(m, q) == n
  {
    hide Mid;
    assert Blocks(h'.t) == Blocks(h.t)[q := n];
    assert q in Blocks(h'.t) && Blocks(h'.t)[q] == n;
    SearchKind(m, h');
    HeadBits(m, h', q);
  }

  /** The part above the block has been freed. */
  lemma TailFreed(m: Memory, h: Ghost, h1: Ghost, h2: Ghost, h': Ghost, p: int, nb: int, r: int)
    requires p !in Blocks(h.t) && p in h1.t.size && Blocks(h1.t) == Blocks(h.t)[p := h1.t.size[p]] && Search(m, h')
    requires nb != 0 && Blocks(h2.t) == Blocks(h1.t)[p := nb][p + nb := r] && p + nb !in Blocks(h1.t)
             && Blocks(h'.t) == Blocks(h2.t) - {p + nb}
    ensures NewBlock(h, h', p, nb)
  {
    hide Mid;
    assert Blocks(h'.t) == Blocks(h.t)[p := nb];
    assert p in Blocks(h'.t) && Blocks(h'.t)[p] == nb;
  }

  lemma NewProtected(h: Ghost, p: int, n: int)
    ensures p in Protected(h, p, p, n) && Protected(h, p, p, n)[p] == n
  {
  }

  // The frame of a call.

  /** A call notes the blocks in use and what they hold, ... */
  ghost function Starting(m: Memory, g: Ghost): Ghost {
    g.(keep := Blocks(g.t), orig := m)
  }

  lemma StartSearch(m: Memory, g: Ghost)
    requires Search(m, g) && g.keep == map[]
    ensures Search(m, Starting(m, g)) && (Heap(m, g) ==> Heap(m, Starting(m, g)))
    ensures forall k | k in Starting(m, g).keep :: k in Blocks(g.t)
  {
    if Heap(m, g) {
      hide Fresh;
      Start(m, g);
    } else {
      hide Heap;
      assert Blocks(g.t) == map[];
    }
  }

  /** ... and drops the note at the end. */
  lemma Ending(m: Memory, h: Ghost)
    requires Search(m, h)
    ensures Search(m, h.(keep := map[], orig := map[]))
  {
    if Heap(m, h) {
      hide Fresh;
      Restart(m, h, map[]);
    }
  }

  lemma SameChoice(g: Ghost, h: Ghost, nb: int, p: int)
    requires h.t == g.t && h.q == g.q
    ensures NoneFits(h, nb) == NoneFits(g, nb) && Chosen(h, nb, p) == Chosen(g, nb, p)
  {
  }

  /** av_ as the source initialises it. */
  function InitialMemory(): Memory {
    map a | AV <= a < AV_END && a % 4 == 0 :: if a < TOP_WORD then 0 else AV + 8 * ((a - AV - 8) / 8)
  }

  lemma InitialFresh(g: Ghost)
    requires g.t == NoChunks() && g.q == NoLists() && g.todo == {} && g.keep == map[]
    ensures Fresh(InitialMemory(), g)
  {
    var m := InitialMemory();
    forall b | 1 <= b < NAV
      ensures Links(m, Full(b, g.q.ring[b]))
    {
      assert g.q.ring[b] == [];
      assert Full(b, g.q.ring[b]) == [BinAt(b), BinAt(b)];
      assert Rd(m, BinAt(b) + FD) == BinAt(b) && Rd(m, BinAt(b) + BK) == BinAt(b);
    }
  }

  lemma BlockLive(m: Memory, g: Ghost, p: int)
    requires Search(m, g) && p in Blocks(g.t)
    ensures Heap(m, g) && Mid(m, g) && g.todo == {} && Live(g.t, p) && g.t.size[p] == Blocks(g.t)[p]
            && g.t.size != map[] && !Fresh(m, g)
  {
    hide Mid;
    SearchKind(m, g);
  }

  lemma BlockBegun(m: Memory, g: Ghost, p: int)
    requires Search(m, g) && g.keep == map[] && p in Blocks(g.t)
    ensures var h := Starting(m, g); Begun(m, h, p) && Search(m, h.(keep := Blocks(h.t) - {p})) && p in h.t.size
  {
    hide Mid;
    BlockLive(m, g, p);
    StartSearch(m, g);
    LetGo(m, Starting(m, g), p);
  }

  lemma ResizedInUse(m0: Memory, t0: Tiles, m: Memory, t: Tiles, p: int, q: int, nb: int)
    requires Resized(m0, t0, m, t, p, q, nb) && p in Blocks(t0)
    ensures q !in Blocks(t0) - {p} && q in Blocks(t) && Blocks(t) == (Blocks(t0) - {p})[q := Blocks(t)[q]]
            && nb <= Blocks(t)[q]
    ensures SameData(m0, m, Blocks(t0) - {p}) && Moved(m0, p, m, q, Min(Blocks(t0)[p], nb))
  {
    hide SameData, Moved;
    assert q in Blocks(t) && Blocks(t)[q] == t.size[q];
  }

  lemma UserWrite(m: Memory, g: Ghost, p: int, a: int, v: int)
    requires Heap(m, g) && Live(g.t, p) && g.keep == map[] && p + FD <= a <= p + g.t.size[p]
    ensures Search(m[a := v], g) && SameData(m, m[a := v], Blocks(g.t) - {p})
  {
    hide Mid;
    NotLinkedLive(g, p);
    MidUser(m, g, p, a, v);
    Start(m, g);
    LetGo(m, Starting(m, g), p);
    var h := Starting(m, g).(keep := Blocks(g.t) - {p});
    MidUser(m, h, p, a, v);
    DataOf(m[a := v], h);
  }
}
