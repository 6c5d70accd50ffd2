/**
 The allocator of lib/mylibc/stdlib/malloc.c, statement by statement, over the word memory.
 Each macro that writes is a method; the ghost field g follows the writes.
 */
module Malloc {
  import opened Common
  import opened Chunks
  import opened Headers
  import opened BinLists
  import opened Binning
  import opened Arena
  import opened BestFit
  import opened Steps
  import opened Freeing
  import opened Resizing

  const NULL := 0
  const FAILURE := TWO32 - 1
  const TRIM_THRESHOLD := 128 * 1024
  const TOP_PAD := 0

  class Allocator {
    var mem: Memory
    var memStart: int
    var memEnd: int
    var brk: int
    var sbrkBase: int
    ghost var g: Ghost

    // unlink(P, BK, FD)
    method Unlink(p: int, ghost i: int, ghost h: Ghost)
      requires Mid(mem, h) && At(h.q, p, i)
      modifies `mem
      ensures Mid(mem, h.(q := Without(h.q, p, i)))
      ensures forall x | x in h.t.size :: Rd(mem, x + SIZE) == Rd(old(mem), x + SIZE)
    {
      hide Mid;
      MidUnlink(mem, h, p, i);
      UnlinkHeads(mem, h, p, i);
      var bck := Rd(mem, p + BK);
      var fwd := Rd(mem, p + FD);
      mem := mem[fwd + BK := bck];
      mem := mem[bck + FD := fwd];
    }

    // set_head(p, v), for the value the chunk's size word must have
    method SetHead(p: int, v: int, ghost h: Ghost)
      requires Mid(mem, h) && p in h.t.size && v == Head(h.t, p)
      modifies `mem
      ensures Mid(mem, h.(todo := h.todo - {p + SIZE})) && mem == old(mem)[p + SIZE := v]
    {
      hide Mid;
      MidHead(mem, h, p);
      mem := mem[p + SIZE := v];
    }

    // set_foot(p, s)
    method SetFoot(p: int, s: int, ghost h: Ghost)
      requires Mid(mem, h) && p in h.t.free && p in h.t.size && s == h.t.size[p]
      modifies `mem
      ensures Mid(mem, h.(todo := h.todo - {p + s}))
    {
      hide Mid;
      MidFoot(mem, h, p);
      mem := mem[p + s + PREV_SIZE := s];
    }

    // set_inuse_bit_at_offset, for the chunk at n = p + s
    method SetInuseBit(n: int, ghost h: Ghost)
      requires Mid(mem, h) && MarkReady(mem, h.t, n)
      modifies `mem
      ensures Mid(mem, h.(todo := h.todo - {n + SIZE})) && mem == old(mem)[n + SIZE := Rd(mem, n + SIZE)]
    {
      hide Mid;
      MidHead(mem, h, n);
      EvenSize(mem, h.t, n);
      hide MarkReady;
      var hd := Rd(mem, n + SIZE);
      mem := mem[n + SIZE := if hd % 2 == 0 then hd + PREV_INUSE else hd];
    }

    // top = p
    method SetTop(p: int, ghost h: Ghost)
      requires Mid(mem, h)
      modifies `mem
      ensures Mid(mem, h.(top := p))
    {
      hide Mid;
      MidTop(mem, h, p);
      mem := mem[TOP_WORD := p];
    }

    /** Hand out the free chunk p whole: unlink it and mark it in use above. */
    method TakeWhole(p: int, size: int, ghost i: int, ghost h: Ghost)
      requires Heap(mem, h) && At(h.q, p, i) && p in h.q.bin && size == ChunkSize(mem, p)
      modifies `mem
      ensures p in h.t.free && p in h.t.size && size == h.t.size[p]
      ensures Heap(mem, h.(t := Take(h.t, p), q := Without(h.q, p, i)))
    {
      hide *;
      FreeChunk(mem, h, p);
      TakeHead(mem, h, p, size);
      Unlink(p, i, h);
      ghost var h1 := h.(q := Without(h.q, p, i));
      TakeHead(mem, h1, p, size);
      MidTake(mem, h1, p, size);
      ghost var h2 := h1.(t := Take(h1.t, p), todo := h1.todo + {p + size + SIZE});
      SetInuseBit(p + size, h2);
      TakenHeap(old(mem), mem, h, h2.(todo := h2.todo - {p + size + SIZE}), p, i);
    }

    // P->bk = BK; P->fd = FD; FD->bk = BK->fd = P, between nodes i and i + 1 of list b
    method LinkBetween(p: int, bk: int, fd: int, ghost b: int, ghost i: int, ghost h: Ghost)
      requires Mid(mem, h) && p in h.t.size && p != h.t.top && p !in h.keep && p !in h.q.bin
      requires Fits(h.q, h.t.size, b, i, h.t.size[p]) && (b == 1 || BitSet(Rd(mem, BINBLOCKS), b / BINBLOCKWIDTH))
      requires bk == Full(b, h.q.ring[b])[i] && fd == Full(b, h.q.ring[b])[i + 1]
      modifies `mem
      ensures Mid(mem, h.(q := With(h.q, p, b, i)))
    {
      hide Mid;
      MidInsert(mem, h, p, b, i);
      mem := mem[p + BK := bk];
      mem := mem[p + FD := fd];
      mem := mem[bk + FD := p];
      mem := mem[fd + BK := p];
    }

    // mark_binblock(ii)
    method MarkBinblock(ii: int, ghost h: Ghost)
      requires Mid(mem, h) && 2 <= ii < NAV
      modifies `mem
      ensures Mid(mem, h) && BitSet(Rd(mem, BINBLOCKS), ii / BINBLOCKWIDTH)
    {
      hide Mid;
      MidMark(mem, h, ii);
      mem := mem[BINBLOCKS := WithBit(Rd(mem, BINBLOCKS), ii / BINBLOCKWIDTH)];
    }

    // frontlink(P, S, IDX, BK, FD)
    method Frontlink(p: int, s: int, ghost h: Ghost) returns (ghost i: int)
      requires Mid(mem, h) && h.todo == {} && p in h.t.size && p != h.t.top && p !in h.keep && p !in h.q.bin
      requires s == h.t.size[p]
      modifies `mem
      ensures 0 <= s && Fits(h.q, h.t.size, BinIndex(s), i, s) && BeforeEquals(h, BinIndex(s), i, s)
      ensures 2 <= BinIndex(s) < NAV == |h.q.ring| && 0 <= i <= |h.q.ring[BinIndex(s)]|
      ensures Mid(mem, h.(q := With(h.q, p, BinIndex(s), i)))
    {
      hide Mid, BinIndex, Fits, Rings, Power, BitSet;
      ReadHead(mem, h, p);
      BinIndexRange(s);
      if s < MAX_SMALLBIN_SIZE {
        var idx := s / 8;
        MarkBinblock(idx, h);
        var bk := BinAt(idx);
        MidBin(mem, h, idx);
        var fd := Rd(mem, bk + FD);
        i := 0;
        SmallFits(mem, h, s, idx);
        LinkBetween(p, bk, fd, idx, i, h);
      } else {
        var idx := BinIndex(s);
        var bk := BinAt(idx);
        MidBin(mem, h, idx);
        ghost var r := h.q.ring[idx];
        var fd := Rd(mem, bk + FD);
        i := 0;
        if fd == bk {
          MarkBinblock(idx, h);
        } else {
          while fd != bk && s < ChunkSize(mem, fd)
            invariant mem == old(mem) && 0 <= i <= |r| && fd == (if i == |r| then bk else r[i])
            invariant forall j | 0 <= j < i :: r[j] in h.t.size && s < h.t.size[r[j]]
            decreases |r| - i
          {
            MidNode(mem, h, idx, i);
            fd := Rd(mem, fd + FD);
            i := i + 1;
          }
          if i < |r| {
            MidNode(mem, h, idx, i);
          }
          bk := Rd(mem, fd + BK);
        }
        LargeFits(mem, h, s, idx, i);
        LinkBetween(p, bk, fd, idx, i, h);
      }
    }

    // link_last_remainder(P), whether or not another chunk was the last remainder before
    method LinkLastRemainder(p: int, ghost h: Ghost)
      requires Mid(mem, h) && p in h.t.size && p != h.t.top && p !in h.keep && p !in h.q.bin
      modifies `mem
      ensures 1 < |h.q.ring| && |h.q.ring[1]| <= 1 && (h.q.ring[1] != [] ==> At(h.q, h.q.ring[1][0], 0))
      ensures 1 < |NoRemainder(h.q).ring|
      ensures Mid(mem, h.(q := With(NoRemainder(h.q), p, 1, 0)))
      ensures forall x | x in h.t.size :: Rd(mem, x + SIZE) == Rd(old(mem), x + SIZE)
    {
      hide Mid;
      RelinkHeads(mem, h, p);
      MidRelink(mem, h, p);
      var lr := BinAt(1);
      mem := mem[lr + BK := p];
      mem := mem[lr + FD := p];
      mem := mem[p + BK := lr];
      mem := mem[p + FD := lr];
    }

    /** The bins of nb and the next size up, for a small request. */
    method ExactSmall(nb: int, ghost h: Ghost) returns (victim: int, ghost h': Ghost)
      requires Search(mem, h) && MINSIZE <= nb < MAX_SMALLBIN_SIZE - 8 && nb % ALIGN == 0
      modifies `mem
      ensures victim == NULL ==>
                mem == old(mem) && h' == h && ScanPoint(h.q, h.t.size, nb, nb / 8 + 2) && NoExact(h, nb)
      ensures victim != NULL ==>
                Heap(mem, h') && Handed(h, h', victim, nb) && InPlace(h, h') && SmallestFit(h.q, h.t.size, nb, victim)
                && ExactFit(h, nb, victim)
    {
      hide NoExact, Heap, Fresh, At, Member, Placed, Distinct, Spaced, AllLinked, Handed, InPlace, SmallestFit,
          ScanPoint;
      var idx := nb / 8;
      var q := BinAt(idx);
      SearchBin(mem, h, idx);
      SearchBin(mem, h, idx + 1);
      victim := Rd(mem, q + BK);
      ghost var b := idx;
      if victim == q {
        q := q + 8;
        victim := Rd(mem, q + BK);
        b := idx + 1;
      }
      if victim != q {
        ghost var r := h.q.ring[b];
        SmallVictim(mem, h, nb, b);
        var victimSize := ChunkSize(mem, victim);
        TakeWhole(victim, victimSize, |r| - 1, h);
        h' := h.(t := Take(h.t, victim), q := Without(h.q, victim, |r| - 1));
        HandedWhole(h, h', victim, |r| - 1, nb);
        return;
      }
      SmallScanPoint(mem, h, nb);
      LowNoExact(mem, h, nb, nb / 8 + 2);
      victim, h' := NULL, h;
    }

    /** The bin of a large request, from its smallest chunk up; idx is where the scan goes on. */
    method ExactLarge(nb: int, ghost h: Ghost) returns (victim: int, idx: int, ghost h': Ghost)
      requires Search(mem, h) && MAX_SMALLBIN_SIZE - 8 <= nb && nb % ALIGN == 0
      modifies `mem
      ensures victim == NULL ==>
                mem == old(mem) && h' == h && ScanPoint(h.q, h.t.size, nb, idx) && NoExact(h, nb)
      ensures victim != NULL ==>
                Heap(mem, h') && Handed(h, h', victim, nb) && InPlace(h, h') && SmallestFit(h.q, h.t.size, nb, victim)
                && ExactFit(h, nb, victim)
    {
      hide NoExact, Heap, Fresh, At, Member, Placed, Distinct, Spaced, AllLinked, Handed, InPlace, SmallestFit,
          ScanPoint,
          BinIndex, Rings, Search;
      idx := BinIndex(nb);
      BinIndexRange(nb);
      var bin := BinAt(idx);
      SearchBin(mem, h, idx);
      ghost var r := h.q.ring[idx];
      ghost var i := |r|;
      victim := Rd(mem, bin + BK);
      h' := h;
      while victim != bin
        invariant mem == old(mem) && 0 <= i <= |r|
        invariant victim == (if i == 0 then bin else r[i - 1])
        invariant forall j | i <= j < |r| :: r[j] in h.t.size && h.t.size[r[j]] < nb
        decreases i
      {
        LargeVictim(mem, h, nb, idx, i - 1);
        var victimSize := ChunkSize(mem, victim);
        var remainderSize := victimSize - nb;
        if remainderSize >= MINSIZE {
          LargeRescan(mem, h, nb, idx, i - 1);
          RescanNoExact(mem, h, nb, idx, i - 1);
          idx := idx - 1;
          break;
        } else if remainderSize >= 0 {
          TakeWhole(victim, victimSize, i - 1, h);
          h' := h.(t := Take(h.t, victim), q := Without(h.q, victim, i - 1));
          LargeSmallest(old(mem), h, nb, idx, i - 1);
          HandedWhole(h, h', victim, i - 1, nb);
          return;
        }
        victim := Rd(mem, victim + BK);
        i := i - 1;
      }
      if victim == bin {
        LargePassed(mem, h, nb, idx);
        LowNoExact(mem, h, nb, idx + 1);
      }
      idx := idx + 1;
      victim := NULL;
    }

    /** The last remainder: cut again, used up, or put into its bin. */
    method FromLastRemainder(nb: int, ghost idx: int, ghost h: Ghost) returns (victim: int, ghost h': Ghost)
      requires Search(mem, h) && ScanPoint(h.q, h.t.size, nb, idx)
      modifies `mem
      ensures victim != NULL ==> Heap(mem, h') && Handed(h, h', victim, nb) && InPlace(h, h')
      ensures victim != NULL ==> LastFits(h, nb, victim)
      ensures victim == NULL ==>
                Search(mem, h') && h'.t == h.t && h'.keep == h.keep && h'.orig == h.orig && h'.brk == h.brk
      ensures victim == NULL ==> ScanPoint(h'.q, h'.t.size, nb, idx) && NoFitLost(h, h', nb)
    {
      hide Heap, Mid, Fresh, Search, ScanPoint, Handed, InPlace, NoFitLost, At, Rings, Fits, BinIndex, SplitFree, Take,
          MarkReady;
      SearchRemainder(mem, h);
      victim := Rd(mem, BinAt(1) + FD);
      if victim != BinAt(1) {
        FreeChunk(mem, h, victim);
        ReadHead(mem, h, victim);
        var victimSize := ChunkSize(mem, victim);
        var remainderSize := victimSize - nb;
        ScanSize(h.q, h.t.size, nb, idx);
        if remainderSize >= MINSIZE {
          h' := Resplit(victim, nb, remainderSize, h);
          return;
        }
        // clear_last_remainder
        MidUnlink(mem, h, victim, 0);
        mem := mem[BinAt(1) + BK := BinAt(1)];
        mem := mem[BinAt(1) + FD := BinAt(1)];
        ghost var h1 := h.(q := Without(h.q, victim, 0));
        if remainderSize >= 0 {
          TakeHead(mem, h1, victim, victimSize);
          MidTake(mem, h1, victim, victimSize);
          ghost var h2 := h1.(t := Take(h1.t, victim), todo := h1.todo + {victim + victimSize + SIZE});
          SetInuseBit(victim + victimSize, h2);
          h' := h.(t := Take(h.t, victim), q := Without(h.q, victim, 0));
          TakenHeap(old(mem), mem, h, h2.(todo := h2.todo - {victim + victimSize + SIZE}), victim, 0);
          HandedWhole(h, h', victim, 0, nb);
          return;
        }
        ghost var i := Frontlink(victim, victimSize, h1);
        h' := h1.(q := With(h1.q, victim, BinIndex(victimSize), i));
        Rebinned(old(mem), mem, h, h', nb, idx, victim, i);
        victim := NULL;
      } else {
        NoRemainderLost(mem, h, nb);
        victim, h' := NULL, h;
      }
    }

    method Resplit(victim: int, nb: int, remainderSize: int, ghost h: Ghost) returns (ghost h': Ghost)
      requires Heap(mem, h) && victim in h.q.bin && h.q.bin[victim] == 1 && victim in h.t.size
      requires nb % ALIGN == 0 && MINSIZE <= nb && MINSIZE <= remainderSize && remainderSize == h.t.size[victim] - nb
      modifies `mem
      ensures Heap(mem, h') && Handed(h, h', victim, nb) && InPlace(h, h')
    {
      hide Heap, Mid, Handed, InPlace, At, Rings, SplitFree, Head;
      FreeChunk(mem, h, victim);
      HeapFacts(mem, h);
      MidSplitFree(mem, h, victim, nb, remainderSize);
      ghost var h1 := h.(t := SplitFree(h.t, victim, nb),
          todo := {victim + SIZE, victim + nb + SIZE, victim + nb + remainderSize});
      var remainder := victim + nb;
      SplitKeeps(h, victim, nb, remainderSize);
      SetHead(victim, nb + PREV_INUSE, h1);
      ghost var h2 := h1.(todo := h1.todo - {victim + SIZE});
      LinkLastRemainder(remainder, h2);
      ghost var h3 := h2.(q := With(NoRemainder(h2.q), remainder, 1, 0));
      SetHead(remainder, remainderSize + PREV_INUSE, h3);
      ghost var h4 := h3.(todo := h3.todo - {remainder + SIZE});
      SetFoot(remainder, remainderSize, h4);
      h' := h4.(todo := h4.todo - {remainder + remainderSize});
      ResplitHeap(old(mem), mem, h, h', victim, nb, remainderSize);
    }

    /** Cut the linked chunk victim; the rest becomes the last remainder. */
    method SplitBinned(victim: int, nb: int, remainderSize: int, ghost i: int, ghost h: Ghost) returns (ghost h': Ghost)
      requires Heap(mem, h) && At(h.q, victim, i) && victim in h.q.bin && h.q.bin[victim] != 1 && h.q.ring[1] == []
               && victim in h.t.size
      requires nb % ALIGN == 0 && MINSIZE <= nb && MINSIZE <= remainderSize && remainderSize == h.t.size[victim] - nb
      modifies `mem
      ensures Heap(mem, h') && Handed(h, h', victim, nb) && InPlace(h, h')
    {
      hide Heap, Mid, Handed, InPlace, At, Rings, SplitFree, Head, Without, NoRemainder;
      FreeChunk(mem, h, victim);
      HeapFacts(mem, h);
      ReadHead(mem, h, victim);
      var remainder := victim + nb;
      HeadThenUnlink(mem, h, victim, i, nb + PREV_INUSE);
      MidUnlink(mem, h, victim, i);
      ghost var h1 := h.(q := Without(h.q, victim, i));
      ghost var m1 := mem[Rd(mem, victim + FD) + BK := Rd(mem, victim + BK)][Rd(mem, victim + BK) + FD := Rd(mem,
          victim + FD)];
      WithoutRemainder(h.q, victim, i);
      WithoutKeys(h.q, victim, i);
      MidSplitFree(m1, h1, victim, nb, remainderSize);
      ghost var h2 := h1.(t := SplitFree(h.t, victim, nb),
          todo := {victim + SIZE, victim + nb + SIZE, victim + nb + remainderSize});
      SplitKeeps(h1, victim, nb, remainderSize);
      MidHead(m1, h2, victim);
      ghost var h3 := h2.(todo := h2.todo - {victim + SIZE});
      // set_head, then unlink
      mem := mem[victim + SIZE := nb + PREV_INUSE];
      var bck := Rd(mem, victim + BK);
      var fwd := Rd(mem, victim + FD);
      mem := mem[fwd + BK := bck];
      mem := mem[bck + FD := fwd];
      LinkLastRemainder(remainder, h3);
      ghost var h4 := h3.(q := With(NoRemainder(h3.q), remainder, 1, 0));
      SetHead(remainder, remainderSize + PREV_INUSE, h4);
      ghost var h5 := h4.(todo := h4.todo - {remainder + SIZE});
      SetFoot(remainder, remainderSize, h5);
      h' := h5.(todo := h5.todo - {remainder + remainderSize});
      SplitHeap(mem, h, h', victim, i, nb, remainderSize);
    }

    /** Mark the linked chunk victim in use, then take it off its list. */
    method TakeBinned(victim: int, size: int, ghost i: int, ghost h: Ghost)
      requires Heap(mem, h) && At(h.q, victim, i) && victim in h.q.bin && size == ChunkSize(mem, victim)
      modifies `mem
      ensures victim in h.t.free && victim in h.t.size && size == h.t.size[victim]
      ensures Heap(mem, h.(t := Take(h.t, victim), q := Without(h.q, victim, i)))
    {
      hide *;
      FreeChunk(mem, h, victim);
      TakeHead(mem, h, victim, size);
      MidTake(mem, h, victim, size);
      ghost var h1 := h.(t := Take(h.t, victim), todo := h.todo + {victim + size + SIZE});
      SetInuseBit(victim + size, h1);
      ghost var h2 := h1.(todo := h1.todo - {victim + size + SIZE});
      assert h2.todo == {};
      Unlink(victim, i, h2);
      TakeLinked(old(mem), mem, h, h2.(q := Without(h2.q, victim, i)), victim, i);
    }

    /** One bin of the scan, from its smallest chunk up. */
    method ScanBin(nb: int, b: int, ghost h: Ghost) returns (victim: int, ghost h': Ghost)
      requires Scan(mem, h, nb, b) && b < NAV
      modifies `mem
      ensures victim == NULL ==> mem == old(mem) && h.q.ring[b] == [] && Scan(mem, h, nb, b + 1)
      ensures victim != NULL ==>
                Heap(mem, h') && Handed(h, h', victim, nb) && InPlace(h, h') && SmallestFit(h.q, h.t.size, nb, victim)
    {
      hide Heap, Scan, At, Handed, InPlace, SmallestFit, BinIndex, Rings, Search, Take, Without, Mid, ChunkSize, Fresh,
          LowBins, Scannable;
      ScanFacts(mem, h, nb, b);
      var bin := BinAt(b);
      SearchBin(mem, h, b);
      ghost var r := h.q.ring[b];
      ghost var i := |r|;
      victim := Rd(mem, bin + BK);
      h' := h;
      while victim != bin
        invariant mem == old(mem) && 0 <= i <= |r|
        invariant victim == (if i == 0 then bin else r[i - 1])
        invariant forall j | i <= j < |r| :: r[j] in h.t.size && h.t.size[r[j]] < nb
        decreases i
      {
        LargeVictim(mem, h, nb, b, i - 1);
        var victimSize := ChunkSize(mem, victim);
        var remainderSize := victimSize - nb;
        if remainderSize >= MINSIZE {
          ScanSmallest(mem, h, nb, b, i - 1);
          h' := SplitBinned(victim, nb, remainderSize, i - 1, h);
          return;
        } else if remainderSize >= 0 {
          ScanSmallest(mem, h, nb, b, i - 1);
          TakeBinned(victim, victimSize, i - 1, h);
          h' := h.(t := Take(h.t, victim), q := Without(h.q, victim, i - 1));
          HandedWhole(h, h', victim, i - 1, nb);
          return;
        }
        victim := Rd(mem, victim + BK);
        i := i - 1;
      }
      ScannedEmpty(mem, h, nb, b);
      victim := NULL;
    }

    /** while ((block & binblocks_r) == 0), with block = 1 << k: on to the next marked block. */
    method NextBlock(nb: int, i: int, k: nat, ghost h: Ghost) returns (idx: int, block: nat)
      requires Scan(mem, h, nb, i) && i == 4 * k && Power(k) <= Rd(mem, BINBLOCKS)
      ensures Scan(mem, h, nb, idx) && idx == 4 * block && k <= block < 32
    {
      hide Heap, Mid, Scan, BitSet, Power;
      ScanFacts(mem, h, nb, i);
      ghost var j := SomeBlock(mem, h, k);
      idx, block := i, k;
      while !BitSet(Rd(mem, BINBLOCKS), block)
        invariant Scan(mem, h, nb, idx) && idx == 4 * block && k <= block <= j
        decreases j - block
      {
        BlockEmpty(mem, h, block);
        ScanRun(mem, h, nb, idx, idx + BINBLOCKWIDTH);
        idx := idx + BINBLOCKWIDTH;
        block := block + 1;
      }
    }

    /** Clear the bit of a scanned block, if the bins before the start of the scan are empty as well. */
    method ClearBlock(start: int, block: nat, ghost nb: int, ghost h: Ghost)
      requires Scan(mem, h, nb, 4 * block + 4) && start / BINBLOCKWIDTH == block && 1 <= block
               && Empty(h.q, start, 4 * block + 4)
      modifies `mem
      ensures Scan(mem, h, nb, 4 * block + 4)
    {
      hide Heap, Mid, Scan, BitSet, WithoutBit, Empty;
      ScanFacts(mem, h, nb, 4 * block + 4);
      var startidx := start;
      var q := BinAt(start);
      var more := true;
      while more
        invariant mem == old(mem) && q == BinAt(startidx) && 4 * block <= startidx <= start
        invariant more ==> Empty(h.q, startidx, 4 * block + 4)
        decreases startidx, more
      {
        if startidx % BINBLOCKWIDTH == 0 {
          ClearedScan(mem, h, nb, block);
          mem := mem[BINBLOCKS := WithoutBit(Rd(mem, BINBLOCKS), block)];
          break;
        }
        startidx := startidx - 1;
        q := q - 8;
        MidBin(mem, h, startidx);
        more := Rd(mem, q + FD) == q;
        if more {
          EmptyDown(h.q, startidx, 4 * block + 4);
        }
      }
    }

    /** The scan of the bins from idx on. */
    method ScanBins(nb: int, from: int, ghost h: Ghost) returns (victim: int, ghost h': Ghost)
      requires Search(mem, h) && ScanPoint(h.q, h.t.size, nb, from) && |h.q.ring| == NAV && h.q.ring[1] == []
      modifies `mem
      ensures victim == NULL ==> Search(mem, h) && NoneFits(h, nb)
      ensures victim != NULL ==>
                Heap(mem, h') && Handed(h, h', victim, nb) && InPlace(h, h') && SmallestFit(h.q, h.t.size, nb, victim)
    {
      hide Heap, Mid, Scan, Search, BitSet, Power, Empty, ScanPoint, Handed, InPlace, SmallestFit, NoneFits;
      ScanSize(h.q, h.t.size, nb, from);
      var idx := from;
      var block := idx / BINBLOCKWIDTH;
      victim, h' := NULL, h;
      if Power(block) > Rd(mem, BINBLOCKS) {
        ScanNothing(mem, h, nb, idx);
        return;
      }
      ScanStart(mem, h, nb, idx);
      if !BitSet(Rd(mem, BINBLOCKS), block) {
        ScanFacts(mem, h, nb, idx);
        BlockEmpty(mem, h, block);
        EmptySub(h.q, 4 * block, idx, 4 * block + 4);
        ScanRun(mem, h, nb, idx, 4 * block + 4);
        StillMarked(mem, h, block);
        idx, block := NextBlock(nb, 4 * block + 4, block + 1, h);
      }
      while true
        invariant Scan(mem, h, nb, idx) && block == idx / BINBLOCKWIDTH && block < 32
        decreases 32 - block
      {
        var startidx := idx;
        ghost var m := mem;
        ScanFacts(mem, h, nb, idx);
        EmptyNone(h.q, idx);
        while true
          invariant mem == m && |h.q.ring| == NAV && Scan(mem, h, nb, idx) && startidx <= idx < 4 * block + 4
                    && Empty(h.q, startidx, idx)
          decreases 4 * block + 4 - idx
        {
          victim, h' := ScanBin(nb, idx, h);
          if victim != NULL {
            return;
          }
          EmptyUp(h.q, startidx, idx);
          idx := idx + 1;
          if idx % BINBLOCKWIDTH == 0 {
            break;
          }
        }
        ClearBlock(startidx, block, nb, h);
        block := block + 1;
        if block == 32 || Power(block) > Rd(mem, BINBLOCKS) {
          break;
        }
        idx, block := NextBlock(nb, idx, block, h);
      }
      ScanEnd(mem, h, nb, idx);
    }

    /** mem_malloc_init has run, the heap fits into half the address space, and lies above av_. */
    ghost predicate Config()
      reads this
    {
      AV_END <= memStart <= brk <= memEnd < TWO32 - 1 && memEnd - memStart < SIGN
    }

    ghost predicate Rooted(h: Ghost)
      reads `brk, `memStart, `sbrkBase
    {
      h.t.size != map[] ==> h.brk == brk && brk % PAGE == 0 && memStart <= h.t.base && sbrkBase != FAILURE
    }

    /** The state between calls, as the ghost state h describes it. */
    ghost predicate Ready(h: Ghost)
      reads this
    {
      Config() && Search(mem, h) && Rooted(h)
    }

    // sbrk
    method Sbrk(increment: int) returns (r: int)
      requires -SIGN <= increment < SIGN && (Config() || (increment == 0 && memStart == memEnd == brk == 0))
      modifies `mem, `brk
      ensures old(Config()) ==> Config()
      ensures 0 <= increment ==> mem == old(mem) && (r == FAILURE <==> memEnd < old(brk) + increment)
      ensures increment < 0 ==> mem == Wiped(old(mem), old(brk) + increment, old(brk))
      ensures increment < 0 ==> (r == FAILURE <==> old(brk) + increment < memStart)
      ensures r == FAILURE ==> brk == old(brk)
      ensures r != FAILURE ==> r == old(brk) && brk == old(brk) + increment
    {
      var was := brk;
      var new_ := (was + increment) % TWO32;
      if increment < 0 {
        mem := Wiped(mem, if new_ <= was then new_ else new_ - TWO32, was);
      }
      if new_ < memStart || memEnd < new_ {
        return FAILURE;
      }
      brk := new_;
      return was;
    }

    // malloc_extend_top
    method ExtendTop(nb: int, ghost h: Ghost) returns (ghost h': Ghost)
      requires Ready(h) && MINSIZE <= nb && nb % ALIGN == 0 && nb + MINSIZE + PAGE <= SIGN
      modifies `mem, `brk, `sbrkBase
      ensures Ready(h') && Extended(h, h')
      ensures Room(mem, nb) || memEnd < old(brk) + nb + 3 * PAGE
      ensures old(brk) <= brk <= old(brk) + nb + 3 * PAGE
    {
      hide Heap, Fresh, Search, Extended, ChunkSize, RoundToPage, Grown;
      SearchKind(mem, h);
      RoundUp(nb + MINSIZE);
      var oldTop := Rd(mem, TOP_WORD);
      var oldTopSize := ChunkSize(mem, oldTop);
      var oldEnd := oldTop + oldTopSize;
      ReadTop(mem, h);
      var sbrkSize := nb + MINSIZE;
      if sbrkBase != FAILURE {
        sbrkSize := RoundToPage(sbrkSize);
      }
      h' := h;
      ExtendedNot(h);
      var newBrk := Sbrk(sbrkSize);
      if newBrk == FAILURE || (newBrk < oldEnd && oldTop != INITIAL_TOP) {
        return;
      }
      if newBrk == oldEnd {
        h' := GrowOldTop(oldTop, oldTopSize, sbrkSize, h);
      } else {
        h' := NewTop(newBrk, sbrkSize, h);
      }
    }

    /** The space from sbrk continues the top chunk. */
    method GrowOldTop(oldTop: int, oldTopSize: int, n: int, ghost h: Ghost) returns (ghost h': Ghost)
      requires Config() && Heap(mem, h) && oldTop == h.t.top && oldTop in h.t.size && oldTopSize == h.t.size[oldTop]
      requires 0 <= n && n % PAGE == 0 && h.brk + n == brk && h.brk % PAGE == 0 && memStart <= h.t.base
               && sbrkBase != FAILURE
      modifies `mem
      ensures Ready(h') && Extended(h, h') && Room(mem, n - MINSIZE)
    {
      hide Heap, Fresh, Search, Extended, ChunkSize, Grown;
      HeapSearch(mem, h);
      ReadTop(mem, h);
      PageSum(h.brk, n);
      PageAligned(n);
      GrowTop(mem, h, oldTop, oldTopSize, n);
      mem := mem[oldTop + SIZE := n + oldTopSize + PREV_INUSE];
      h' := Grown(h, oldTopSize + n);
    }

    /** The first extension: the space from sbrk is aligned and rounded to a page boundary. */
    method NewTop(firstBrk: int, sbrkSize: int, ghost h: Ghost) returns (ghost h': Ghost)
      requires Config() && Fresh(mem, h) && MINSIZE <= sbrkSize && AV_END <= firstBrk && brk == firstBrk + sbrkSize
               && sbrkSize % ALIGN == 0 && memStart <= firstBrk
      requires firstBrk != FAILURE
      modifies `mem, `brk, `sbrkBase
      ensures Ready(h') && Extended(h, h')
      ensures Room(mem, sbrkSize - MINSIZE) || memEnd < old(brk) + PAGE + ALIGN
      ensures old(brk) <= brk <= old(brk) + PAGE + ALIGN
    {
      hide Heap, Fresh, Search, Extended, ChunkSize, RoundToPage, First;
      h' := h;
      ExtendedNot(h);
      if sbrkBase == FAILURE {
        sbrkBase := firstBrk;
      }
      FirstTopSize(firstBrk, sbrkSize);
      FreshSearch(mem, h);
      var start := firstBrk;
      var misalign := (firstBrk + FD) % ALIGN;
      var correction := 0;
      if misalign > 0 {
        correction := ALIGN - misalign;
        start := start + correction;
      }
      correction := correction + RoundToPage(start + sbrkSize) - (start + sbrkSize);
      var newBrk := Sbrk(correction);
      if newBrk == FAILURE {
        return;
      }
      var topSize := newBrk - start + correction;
      FirstHeap(mem, h, start, topSize);
      mem := mem[TOP_WORD := start];
      mem := mem[start + SIZE := topSize + PREV_INUSE];
      h' := First(h, start, topSize);
    }

    /** Cut the top chunk, which is large enough. */
    method CarveTop(nb: int, ghost h: Ghost) returns (victim: int, ghost h': Ghost)
      requires Heap(mem, h) && MINSIZE <= nb && nb % ALIGN == 0 && Room(mem, nb)
      modifies `mem
      ensures Heap(mem, h') && Handed(h, h', victim, nb) && InPlace(h, h') && victim == h.t.top
    {
      hide Heap, Mid, Room, Head, CutTop, ChunkSize, Handed, InPlace;
      CutTopReady(mem, h, nb);
      ReadTop(mem, h);
      victim := Rd(mem, TOP_WORD);
      var remainderSize := ChunkSize(mem, victim) - nb;
      ghost var h1 := h.(t := CutTop(h.t, nb), todo := {victim + SIZE, victim + nb + SIZE});
      SetHead(victim, nb + PREV_INUSE, h1);
      ghost var h2 := h1.(todo := h1.todo - {victim + SIZE});
      SetTop(victim + nb, h2);
      ghost var h3 := h2.(top := victim + nb);
      SetHead(victim + nb, remainderSize + PREV_INUSE, h3);
      h' := h3.(todo := h3.todo - {victim + nb + SIZE});
      CutTopHeap(mem, h, h', nb);
    }

    /** The top chunk, extended if it is too small to leave a remainder. */
    method FromTop(nb: int, ghost h: Ghost) returns (victim: int, ghost h': Ghost)
      requires Ready(h) && MINSIZE <= nb && nb % ALIGN == 0 && nb + MINSIZE + PAGE <= SIGN
      modifies `mem, `brk, `sbrkBase
      ensures Ready(h')
      ensures victim == NULL ==> Extended(h, h') && memEnd < old(brk) + nb + 3 * PAGE && !old(Room(mem, nb))
      ensures brk == old(brk) || (!old(Room(mem, nb)) && old(brk) <= brk <= old(brk) + nb + 3 * PAGE)
      ensures victim != NULL ==> Handed(h, h', victim, nb) && 0 < victim && (h.t.size == map[] || victim == h.t.top)
    {
      hide Heap, Fresh, Extended, Handed;
      var remainderSize := ChunkSize(mem, Rd(mem, TOP_WORD)) - nb;
      h' := h;
      ExtendedNot(h);
      if remainderSize < MINSIZE {
        h' := ExtendTop(nb, h);
        remainderSize := ChunkSize(mem, Rd(mem, TOP_WORD)) - nb;
        if remainderSize < MINSIZE {
          return NULL, h';
        }
      }
      ghost var h0 := h';
      RoomHeap(mem, h', nb);
      victim, h' := CarveTop(nb, h');
      HandedExtended(h, h0, h', victim, nb);
    }

    lemma Served(h: Ghost, h': Ghost, p: int, nb: int)
      requires Config() && Rooted(h) && Heap(mem, h') && InPlace(h, h') && Handed(h, h', p, nb)
      requires SmallestFit(h.q, h.t.size, nb, p) || LastFits(h, nb, p)
      ensures Ready(h') && 0 < p
    {
      hide Heap, Fresh;
    }

    // mALLOc, on a heap that mem_malloc_init has set up
    method Alloc(bytes: int, ghost h: Ghost) returns (r: int, ghost h': Ghost)
      requires Ready(h) && Servable(bytes)
      modifies `mem, `brk, `sbrkBase
      ensures Ready(h')
      ensures r == NULL ==> Blocks(h'.t) == Blocks(h.t) && h'.keep == h.keep && h'.orig == h.orig
      ensures r == NULL && bytes < SIGN ==> Exhausted(h, memEnd, old(brk), Request2Size(bytes))
      ensures if bytes < SIGN then Raised(h, Request2Size(bytes), old(brk), brk) else brk == old(brk)
      ensures r != NULL ==>
                bytes < SIGN && Handed(h, h', r - FD, Request2Size(bytes)) && Chosen(h, Request2Size(bytes), r - FD)
    {
      hide Heap, Fresh, Search, Handed, InPlace, ScanPoint, SmallestFit, NoneFits, NoFitLost, ExactFit, NoExact,
        LastFits, LastTooSmall;
      h' := h;
      if SIGN <= bytes {
        return NULL, h;
      }
      var nb := Request2Size(bytes);
      Request2SizeFits(bytes);
      var victim, idx;
      if nb < MAX_SMALLBIN_SIZE - 8 {
        victim, h' := ExactSmall(nb, h);
        idx := nb / 8 + 2;
      } else {
        victim, idx, h' := ExactLarge(nb, h);
      }
      if victim != NULL {
        Served(h, h', victim, nb);
        return victim + FD, h';
      }
      victim, h' := FromLastRemainder(nb, idx, h);
      if victim != NULL {
        Served(h, h', victim, nb);
        return victim + FD, h';
      }
      ghost var h1 := h';
      NoneLeft(mem, h, h1, nb);
      victim, h' := ScanBins(nb, idx, h1);
      if victim != NULL {
        Served(h1, h', victim, nb);
        ScanChosen(h, h1, nb, victim);
        HandedOf(h, h1, h', nb, victim);
        return victim + FD, h';
      }
      RoomIs(mem, h1, nb);
      NoneFirst(h, h1, nb);
      victim, h' := FromTop(nb, h1);
      if victim != NULL {
        HandedOf(h, h1, h', nb, victim);
        return victim + FD, h';
      }
      r := NULL;
    }

    /** malloc_trim(pad) leaves a heap with the same blocks: there is no heap yet, nothing is to be given back, or
        giving it back does no harm. */
    ghost predicate TrimKeeps(pad: int, blocks: map<int, int>)
      reads this
    {
      var s := ChunkSize(mem, Rd(mem, TOP_WORD));
      Rd(mem, TOP_WORD) == INITIAL_TOP || Extra(s, pad) < PAGE || GiveBackKeeps(s, Extra(s, pad), blocks)
    }

    /** Top can spare it; or sbrk refuses, and what it has cleared is neither a block nor av_. */
    ghost predicate GiveBackKeeps(topSize: int, extra: int, blocks: map<int, int>)
      reads `brk, `memStart
    {
      extra + MINSIZE <= topSize || (AV_END <= brk - extra < memStart && blocks == map[])
    }

    lemma SmallPadIsSafe(pad: int, h: Ghost)
      requires Search(mem, h) && (Ready(h) || Fresh(mem, h)) && 0 <= pad <= SIGN - PAGE
      ensures TrimSafe(ChunkSize(mem, Rd(mem, TOP_WORD)), pad)
    {
      hide Heap, Fresh, Search, ChunkSize, TrimSafe;
      SearchKind(mem, h);
      ReadTop(mem, h);
      ExtraBounds(ChunkSize(mem, Rd(mem, TOP_WORD)), pad);
    }

    // malloc_trim
    method Trim(pad: int, ghost h: Ghost) returns (released: bool, ghost h': Ghost)
      requires Search(mem, h) && (Ready(h) || (Fresh(mem, h) && memStart == memEnd == brk == 0)) && 0 <= pad < TWO32
      modifies `mem, `brk
      ensures old(TrimKeeps(pad, Blocks(h.t))) ==>
                Extended(h, h') && h'.t.free == h.t.free && h'.t.size.Keys == h.t.size.Keys
                && Search(mem, h') && (old(Ready(h)) ==> Ready(h')) && (released <==> brk < old(brk))
      ensures !old(TrimKeeps(pad, Blocks(h.t))) ==> forall g' :: Ready(g') ==> Blocks(g'.t) != Blocks(h.t)
      ensures !released ==> brk == old(brk) && h' == h
      ensures !released && old(TrimSafe(ChunkSize(mem, Rd(mem, TOP_WORD)), pad)) ==> mem == old(mem)
      ensures Fresh(old(mem), h) ==> !released && mem == old(mem)
      ensures old(Rd(mem, TOP_WORD)) != INITIAL_TOP && pad <= SIGN - PAGE ==>
                (released <==> PAGE < old(ChunkSize(mem, Rd(mem, TOP_WORD))) - pad - MINSIZE)
      ensures released && pad <= SIGN - PAGE ==>
                pad + MINSIZE <= ChunkSize(mem, Rd(mem, TOP_WORD)) <= pad + MINSIZE + PAGE
      ensures pad <= SIGN - PAGE ==>
                Rd(mem, TOP_WORD) == old(Rd(mem, TOP_WORD))
                && old(ChunkSize(mem, Rd(mem, TOP_WORD))) - ChunkSize(mem, Rd(mem, TOP_WORD)) == old(brk) - brk
      ensures released ==> brk == old(brk) - old(Extra(ChunkSize(mem, Rd(mem, TOP_WORD)), pad))
    {
      hide Heap, Fresh, Search, Extended, ChunkSize, Extra, Grown, Cleared, Wiped, Blocks;
      SearchKind(mem, h);
      ReadTop(mem, h);
      ExtendedNot(h);
      h' := h;
      var topSize := ChunkSize(mem, Rd(mem, TOP_WORD));
      var extra := Extra(topSize, pad);
      TopNotInitial(mem, h);
      if pad <= SIGN - PAGE {
        ExtraBounds(topSize, pad);
      }
      if extra < PAGE {
        return false, h;
      }
      ExtraPages(topSize, pad);
      ExtraRange(topSize, pad);
      var currentBrk := Sbrk(0);
      if currentBrk != Rd(mem, TOP_WORD) + topSize {
        return false, h;
      }
      released, h' := GiveBack(topSize, extra, h);
    }

    /** The second half of malloc_trim: extra bytes are given back, unless sbrk refuses. */
    method GiveBack(topSize0: int, extra: int, ghost h: Ghost) returns (released: bool, ghost h': Ghost)
      requires Ready(h) && Heap(mem, h) && PAGE <= extra < SIGN && extra % PAGE == 0
      requires topSize0 == ChunkSize(mem, Rd(mem, TOP_WORD))
      modifies `mem, `brk
      ensures old(GiveBackKeeps(topSize0, extra, Blocks(h.t))) ==>
                Extended(h, h') && h'.t.free == h.t.free && h'.t.size.Keys == h.t.size.Keys && Ready(h')
      ensures !old(GiveBackKeeps(topSize0, extra, Blocks(h.t))) ==> forall g' :: Ready(g') ==>
                Blocks(g'.t) != Blocks(h.t)
      ensures if released then brk == old(brk) - extra else brk == old(brk) && h' == h
      ensures released <==> memStart <= old(brk) - extra
      ensures extra + MINSIZE <= topSize0 ==>
                ChunkSize(mem, Rd(mem, TOP_WORD)) == topSize0 - extra && Rd(mem, TOP_WORD) == old(Rd(mem, TOP_WORD))
      ensures extra + MINSIZE <= topSize0 ==> released
    {
      hide Heap, Fresh, Search, Extended, ChunkSize, Grown, Cleared, Wiped, Blocks;
      SearchKind(mem, h);
      ReadTop(mem, h);
      ExtendedNot(h);
      var topSize := topSize0;
      ghost var m, keeps := mem, GiveBackKeeps(topSize, extra, Blocks(h.t));
      PageSum(brk, extra);
      var newBrk := Sbrk(-extra);
      if newBrk == FAILURE {
        var currentBrk := Sbrk(0);
        topSize := Signed((currentBrk - Rd(mem, TOP_WORD)) % TWO32);
        if keeps {
          RefusedKeeps(m, h, brk - extra);
          HeapSearch(mem[h.t.top + SIZE := topSize + PREV_INUSE], h);
        } else {
          RefusedBreaks(m, h, brk - extra, topSize >= MINSIZE, topSize + PREV_INUSE);
        }
        if topSize >= MINSIZE {
          mem := mem[Rd(mem, TOP_WORD) + SIZE := topSize + PREV_INUSE];
        }
        return false, h;
      }
      if keeps {
        ReleasedKeeps(m, h, topSize, extra);
      } else {
        ReleasedBreaks(m, h, brk, (topSize - extra) % TWO32 + PREV_INUSE);
      }
      mem := mem[Rd(mem, TOP_WORD) + SIZE := (topSize - extra) % TWO32 + PREV_INUSE];
      h' := Grown(h, topSize - extra);
      released := true;
    }

    /** Consolidate backward; islr says that the joined chunk stays the last remainder. */
    method JoinBackward(p: int, hd: int, sz: int, next: int, ghost h: Ghost)
      returns (p': int, sz': int, islr: bool, ghost h': Ghost)
      requires Mid(mem, h) && Unmarked(mem, h, p, next) && sz == next - p && (hd % 2 == 1 <==> UsedBelow(h.t, p))
      modifies `mem
      ensures Mid(mem, h') && Joining(mem, h', p', next, islr, Blocks(h.t) - {p}) && UsedBelow(h'.t, p')
              && sz' == next - p'
      ensures Rd(mem, next + SIZE) == Rd(old(mem), next + SIZE) && LastKept(h, h')
      ensures h'.keep == h.keep && h'.orig == h.orig && h'.brk == h.brk && h'.t.base == h.t.base
    {
      hide Mid, Joining, UsedBelow, Without, LastKept;
      p', sz', islr := p, sz, false;
      if hd % 2 == 1 {
        JoinNone(mem, h, p, next);
        LastSame(h, h.(todo := {p + SIZE, next + SIZE}));
        h' := h.(todo := {p + SIZE, next + SIZE});
      } else {
        MidNotTodo(mem, h, p, next);
        ghost var f, i := BelowFree(mem, h, p);
        var prevsz := Rd(mem, p + PREV_SIZE);
        p' := p - prevsz;
        sz' := sz + prevsz;
        ghost var q := h.q;
        if Rd(mem, p' + FD) == BinAt(1) {
          islr := true;
        } else {
          WithoutKeys(h.q, f, i);
          q := Without(h.q, f, i);
          Unlink(p', i, h);
        }
        JoinBelow(mem, h, q, p, next, f, islr);
        LastBelow(h, q, p, next, f, islr);
        h' := Joined(h, q, f, next);
      }
    }

    /** Consolidate forward. */
    method JoinForward(p: int, sz: int, next: int, nextsz: int, islr: bool, ghost rest: map<int, int>, ghost h: Ghost)
      returns (sz': int, islr': bool, ghost e: int, ghost h': Ghost)
      requires Mid(mem, h) && Joining(mem, h, p, next, islr, rest) && UsedBelow(h.t, p) && sz == next - p
               && nextsz == Rd(mem, next + SIZE)
      modifies `mem
      ensures Mid(mem, h') && Joining(mem, h', p, e, islr', rest) && UsedBelow(h'.t, p) && e !in h'.t.free
              && sz' == e - p && LastKept(h, h')
      ensures h'.keep == h.keep && h'.orig == h.orig && h'.brk == h.brk && h'.t.base == h.t.base
    {
      hide Mid, Joining, UsedBelow, Without, NoRemainder, With, LastKept;
      sz', islr', e, h' := sz, islr, next, h;
      LastSame(h, h);
      AboveBit(mem, h, p, next, islr, rest);
      if !PrevInuse(mem, next + nextsz) {
        ghost var i, end := AboveFree(mem, h, p, next, islr, rest);
        e := end;
        sz' := sz + nextsz;
        ghost var q;
        if !islr && Rd(mem, next + FD) == BinAt(1) {
          islr' := true;
          RelinkKeys(mem, h, p, next);
          LinkLastRemainder(p, h);
          q := With(NoRemainder(h.q), p, 1, 0);
        } else {
          WithoutKeys(h.q, next, i);
          q := Without(h.q, next, i);
          Unlink(next, i, h);
        }
        LastAbove(old(mem), h, q, p, next, e, islr, islr', rest);
        JoiningFrame(old(mem), mem, h, p, next, islr, rest);
        JoinAbove(mem, h, q, p, next, e, islr, islr', rest);
        h' := Joined(h, q, p, e);
      }
    }

    /** Join the chunk p, which has no neighbour in top, with its free neighbours and link it. */
    method FreeToBin(p: int, hd: int, sz: int, next: int, nextsz: int, ghost h: Ghost) returns (ghost h': Ghost)
      requires Heap(mem, h) && Live(h.t, p) && p !in h.keep && hd == Rd(mem, p + SIZE) && sz == h.t.size[p]
               && next == p + sz
      requires next != h.t.top && nextsz == ChunkSize(mem, next)
      modifies `mem
      ensures Heap(mem, h') && Blocks(h'.t) == Blocks(h.t) - {p} && LastKept(h, h')
      ensures h'.keep == h.keep && h'.orig == h.orig && h'.brk == h.brk && h'.t.base == h.t.base
    {
      hide LastKept, Heap, Mid, Joining, Unmarked, UsedBelow, Without, Fits, With, Head;
      HeadBits(mem, h, p);
      HeadBits(mem, h, next);
      ClearInuse(mem, h, p, sz);
      mem := mem[next + SIZE := nextsz];
      ghost var rest := Blocks(h.t) - {p};
      ghost var h1 := h.(todo := {next + SIZE});
      var p', sz', islr, h2 := JoinBackward(p, hd, sz, next, h1);
      ghost var e, h1' := 0, h2;
      sz', islr, e, h2 := JoinForward(p', sz', next, nextsz, islr, rest, h2);
      LastTrans(h1, h1', h2);
      AboveBit(mem, h2, p', e, islr, rest);
      Freed(mem, h2, p', e, islr, rest);
      ghost var m2 := mem;
      ghost var h3 := h2.(t := Release(h2.t, p'), todo := {p' + SIZE, e});
      SetHead(p', sz' + PREV_INUSE, h3);
      SetFoot(p', sz', h3.(todo := h3.todo - {p' + SIZE}));
      h' := h3.(todo := {});
      assert h3.todo - {p' + SIZE} - {p' + sz'} == {};
      if !islr {
        ghost var i := Frontlink(p', sz', h');
        h' := h'.(q := With(h'.q, p', BinIndex(sz'), i));
        WithKeys(h2.q, p', BinIndex(sz'), i);
        LastLinked(m2, h2, h', p', e, BinIndex(sz'), i, rest);
      } else {
        LastSame(h2, h');
      }
      LastTrans(h1, h2, h');
      LastTodo(h, h1, h');
      FreedHeap(m2, mem, h2, h', p', e, islr, rest);
    }

    /** Join the chunk p, which lies just below top, with top, and trim top if it has become large. */
    method FreeToTop(p: int, hd: int, sz: int, ghost h: Ghost) returns (ghost h': Ghost)
      requires Ready(h) && Heap(mem, h) && Live(h.t, p) && p !in h.keep && hd == Rd(mem, p + SIZE)
               && p + h.t.size[p] == h.t.top
      requires h.t.top in h.t.size && sz == h.t.size[p] + h.t.size[h.t.top]
      modifies `mem, `brk
      ensures Ready(h') && Blocks(h'.t) == Blocks(h.t) - {p} && h'.keep == h.keep && h'.orig == h.orig
      ensures Rd(mem, TOP_WORD) <= p && TopBounded(mem, brk, old(brk))
    {
      hide Heap, Mid, UsedBelow, Without, Head, Fresh, Search, AbsorbTopOf, Joined, Blocks;
      HeadBits(mem, h, p);
      NotLinkedLive(h, p);
      var p', sz' := p, sz;
      ghost var h1 := h;
      if hd % 2 == 0 {
        ghost var f, i := BelowFree(mem, h, p);
        var prevsz := Rd(mem, p + PREV_SIZE);
        p' := p - prevsz;
        sz' := sz + prevsz;
        WithoutKeys(h.q, f, i);
        Unlink(p', i, h);
        h1 := h.(q := Without(h.q, f, i));
        JoinBelowTop(mem, h1, f, p);
        h1 := Joined(h1, h1.q, f, f).(todo := {f + SIZE});
      }
      JoinTop(mem, h1, p', sz');
      ghost var h2 := h1.(t := AbsorbTopOf(h1.t, p'), todo := {p' + SIZE});
      SetHead(p', sz' + PREV_INUSE, h2);
      SetTop(p', h2.(todo := h2.todo - {p' + SIZE}));
      assert h2.todo - {p' + SIZE} == {};
      h' := h2.(todo := {}, top := p');
      TopHeap(mem, h1, h', p', Blocks(h.t) - {p});
      HeapSearch(mem, h');
      ReadTop(mem, h');
      h' := TrimLarge(sz', h');
    }

    /** Trim top, whose size is sz, if it has become large. */
    method TrimLarge(sz: int, ghost h: Ghost) returns (ghost h': Ghost)
      requires Ready(h) && Heap(mem, h) && h.t.top in h.t.size && sz == h.t.size[h.t.top]
      modifies `mem, `brk
      ensures Ready(h') && Blocks(h'.t) == Blocks(h.t) && h'.keep == h.keep && h'.orig == h.orig
      ensures Rd(mem, TOP_WORD) == old(Rd(mem, TOP_WORD)) && TopBounded(mem, brk, old(brk))
    {
      hide Heap, Fresh, Search, Blocks;
      h' := h;
      ReadTop(mem, h);
      TopNotInitial(mem, h);
      if sz >= TRIM_THRESHOLD {
        var released;
        SmallPadIsSafe(TOP_PAD, h);
        released, h' := Trim(TOP_PAD, h);
      }
    }

    // fREe, of the chunk at p
    method Free(a: int, ghost h: Ghost) returns (ghost h': Ghost)
      requires Ready(h) && (a == NULL || (Live(h.t, a - FD) && a - FD !in h.keep))
      modifies `mem, `brk
      ensures Ready(h') && h'.keep == h.keep && h'.orig == h.orig
      ensures Blocks(h'.t) == if a == NULL then Blocks(h.t) else Blocks(h.t) - {a - FD}
      ensures a == NULL ==> h' == h && mem == old(mem) && brk == old(brk)
      ensures a != NULL && a - FD + h.t.size[a - FD] == old(Rd(mem, TOP_WORD)) ==>
                Rd(mem, TOP_WORD) <= a - FD && TopBounded(mem, brk, old(brk))
      ensures a != NULL && a - FD + h.t.size[a - FD] != old(Rd(mem, TOP_WORD)) ==>
                brk == old(brk) && LastKept(h, h')
    {
      hide Heap, Fresh, Search, Blocks, LastKept;
      h' := h;
      if a == NULL {
        return;
      }
      SearchKind(mem, h);
      var p := a - FD;
      var hd := Rd(mem, p + SIZE);
      HeadBits(mem, h, p);
      var sz := hd - hd % 2;
      var next := p + sz;
      var nextsz := ChunkSize(mem, next);
      ReadTop(mem, h);
      if next == Rd(mem, TOP_WORD) {
        h' := FreeToTop(p, hd, sz + nextsz, h);
      } else {
        h' := FreeToBin(p, hd, sz, next, nextsz, h);
        HeapSearch(mem, h');
      }
    }

    // set_head_size(p, s)
    method SetHeadSize(p: int, s: int, ghost h: Ghost)
      requires Mid(mem, h) && p in h.t.size && Head(h.t, p) == Rd(mem, p + SIZE) % 2 + s
      modifies `mem
      ensures Mid(mem, h.(todo := h.todo - {p + SIZE}))
      ensures mem == old(mem)[p + SIZE := Head(h.t, p)]
    {
      hide Mid;
      MidHead(mem, h, p);
      mem := mem[p + SIZE := Rd(mem, p + SIZE) % 2 + s];
    }

    /** The end of realloc: cut off what is too much and free it. */
    method Split(p: int, n: int, nb: int, ghost h: Ghost) returns (ghost h': Ghost)
      requires Config() && Rooted(h) && Mid(mem, h) && Growing(mem, h, p, n) && (p in h.keep ==> h.keep[p] <= nb)
      requires nb % ALIGN == 0 && MINSIZE <= nb <= n && h.q.bin.Keys == h.t.free
      modifies `mem, `brk
      ensures Ready(h') && Heap(mem, h') && h'.keep == h.keep && h'.orig == h.orig
      ensures p in h'.t.size && Blocks(h'.t) == Blocks(h.t)[p := h'.t.size[p]] && nb <= h'.t.size[p] < nb + MINSIZE
    {
      hide Mid, Heap, Fresh, Search, UsedBelow, Head, Trimmed;
      if n - nb >= MINSIZE {
        h' := SplitOff(p, n, nb, h);
      } else {
        GrownHead(mem, h, p, n);
        SetHeadSize(p, n, h);
        ghost var h1 := h.(todo := h.todo - {p + SIZE});
        SetInuseBit(p + n, h1);
        h' := h1.(todo := h1.todo - {p + n + SIZE});
        GrownHeap(mem, h, h', p, n);
      }
    }

    /** The remainder of the chunk p, of size n, is freed. */
    method SplitOff(p: int, n: int, nb: int, ghost h: Ghost) returns (ghost h': Ghost)
      requires Config() && Rooted(h) && Mid(mem, h) && Growing(mem, h, p, n) && (p in h.keep ==> h.keep[p] <= nb)
      requires nb % ALIGN == 0 && MINSIZE <= nb && nb + MINSIZE <= n && h.q.bin.Keys == h.t.free
      modifies `mem, `brk
      ensures Ready(h') && Heap(mem, h') && h'.keep == h.keep && h'.orig == h.orig
      ensures p in h'.t.size && Blocks(h'.t) == Blocks(h.t)[p := h'.t.size[p]] && h'.t.size[p] == nb
    {
      hide Mid, Heap, Fresh, Search, UsedBelow, Head, Trimmed;
      CutGrown(mem, h, p, n, nb);
      var remainder := p + nb;
      ghost var h1 := Trimmed(h, p, n, nb);
      SetHeadSize(p, nb, h1);
      ghost var h2 := h1.(todo := h1.todo - {p + SIZE});
      MidHead(mem, h2, remainder);
      mem := mem[remainder + SIZE := n - nb + PREV_INUSE];
      ghost var h3 := h2.(todo := h2.todo - {remainder + SIZE});
      SetInuseBit(p + n, h3);
      ghost var h4 := h3.(todo := h3.todo - {p + n + SIZE});
      assert h4.todo == {};
      CutHeap(mem, h, h4, p, n, nb);
      h' := Free(remainder + FD, h4);
      CutFreed(mem, h, h4, h', p, n, nb);
    }

    /** One word of a copy into the block x. */
    method CopyWord(dest: int, src: int, ghost done: int, ghost n: int, ghost d: int, ghost s: int, ghost m0: Memory,
                    ghost x: int, ghost h: Ghost)
      requires Mid(mem, h) && Writable(h, x, d, n) && Copied(m0, mem, d, s, done) && (d < s || s + n <= d)
      requires dest == d + done && src == s + done && 0 <= done && done % 4 == 0 && done + 4 <= n
      modifies `mem
      ensures Mid(mem, h) && Copied(m0, mem, d, s, done + 4)
    {
      hide Mid, Copied;
      CopyStep(m0, mem, d, s, done, n);
      MidUser(mem, h, x, dest, Rd(mem, src));
      mem := mem[dest := Rd(mem, src)];
    }

    // memcpy, for word-aligned pointers and a number of bytes that is a multiple of 4
    method MemCpy(dest0: int, src0: int, n: int, ghost x: int, ghost h: Ghost)
      requires Mid(mem, h) && Writable(h, x, dest0, n) && (dest0 < src0 || src0 + n <= dest0) && 0 <= n && n % 4 == 0
      modifies `mem
      ensures Mid(mem, h) && Copied(old(mem), mem, dest0, src0, n)
    {
      hide Mid, Copied, Writable;
      var dest, src, len := dest0, src0, n;
      CopyStart(mem, dest0, src0);
      while len >= 16
        invariant Mid(mem, h) && 0 <= len <= n && len % 4 == 0 && dest == dest0 + (n - len) && src == src0 + (n - len)
        invariant Copied(old(mem), mem, dest0, src0, n - len)
      {
        CopyWord(dest, src, n - len, n, dest0, src0, old(mem), x, h);
        CopyWord(dest + 4, src + 4, n - len + 4, n, dest0, src0, old(mem), x, h);
        CopyWord(dest + 8, src + 8, n - len + 8, n, dest0, src0, old(mem), x, h);
        CopyWord(dest + 12, src + 12, n - len + 12, n, dest0, src0, old(mem), x, h);
        dest, src, len := dest + 16, src + 16, len - 16;
      }
      while len >= 4
        invariant Mid(mem, h) && 0 <= len <= n && len % 4 == 0 && dest == dest0 + (n - len) && src == src0 + (n - len)
        invariant Copied(old(mem), mem, dest0, src0, n - len)
      {
        CopyWord(dest, src, n - len, n, dest0, src0, old(mem), x, h);
        dest, src, len := dest + 4, src + 4, len - 4;
      }
    }

    // MALLOC_COPY: up to nine words in line, otherwise memcpy
    method MallocCopy(dest0: int, src0: int, n: int, ghost x: int, ghost h: Ghost)
      requires Mid(mem, h) && Writable(h, x, dest0, n) && (dest0 < src0 || src0 + n <= dest0) && 12 <= n
               && n % ALIGN == 4
      modifies `mem
      ensures Mid(mem, h) && Copied(old(mem), mem, dest0, src0, n)
    {
      hide Mid, Copied, Writable;
      if n <= 36 {
        var dest, src := dest0, src0;
        CopyStart(mem, dest0, src0);
        if n >= 20 {
          CopyWord(dest, src, dest - dest0, n, dest0, src0, old(mem), x, h);
          CopyWord(dest + 4, src + 4, dest - dest0 + 4, n, dest0, src0, old(mem), x, h);
          dest, src := dest + 8, src + 8;
          if n >= 28 {
            CopyWord(dest, src, dest - dest0, n, dest0, src0, old(mem), x, h);
            CopyWord(dest + 4, src + 4, dest - dest0 + 4, n, dest0, src0, old(mem), x, h);
            dest, src := dest + 8, src + 8;
            if n >= 36 {
              CopyWord(dest, src, dest - dest0, n, dest0, src0, old(mem), x, h);
              CopyWord(dest + 4, src + 4, dest - dest0 + 4, n, dest0, src0, old(mem), x, h);
              dest, src := dest + 8, src + 8;
            }
          }
        }
        CopyWord(dest, src, dest - dest0, n, dest0, src0, old(mem), x, h);
        CopyWord(dest + 4, src + 4, dest - dest0 + 4, n, dest0, src0, old(mem), x, h);
        CopyWord(dest + 8, src + 8, dest - dest0 + 8, n, dest0, src0, old(mem), x, h);
      } else {
        MemCpy(dest0, src0, n, x, h);
      }
    }

    /** The block p now ends at p + nb, and top begins there. */
    method PlaceTop(p: int, n: int, nb: int, ghost h: Ghost)
      requires Mid(mem, h) && p in h.t.size && p + nb in h.t.size && h.t.top == p + nb
               && h.todo == {p + SIZE, p + nb + SIZE}
      requires Head(h.t, p) == Rd(mem, p + SIZE) % 2 + nb && Head(h.t, p + nb) == n - nb + PREV_INUSE
      requires h.q.bin.Keys == h.t.free && nb != 0
      modifies `mem
      ensures Heap(mem, h.(todo := {}, top := p + nb)) && Search(mem, h.(todo := {}, top := p + nb))
              && h.t.size != map[]
    {
      hide Mid, Head, Heap, Search;
      ChunkAbove(mem, h, p);
      MidTop(mem, h, p + nb);
      mem := mem[TOP_WORD := p + nb];
      ghost var h1 := h.(top := p + nb);
      MidHead(mem, h1, p + nb);
      mem := mem[p + nb + SIZE := n - nb + PREV_INUSE];
      ghost var h2 := h1.(todo := h1.todo - {p + nb + SIZE});
      SetHeadSize(p, nb, h2);
      ghost var h3 := h2.(todo := h2.todo - {p + SIZE});
      assert h3.todo == {};
      TopPlaced(mem, h3, p, nb);
    }

    /** realloc into top, without moving the block. */
    method ReallocTop(p: int, n: int, nb: int, ghost h: Ghost) returns (ghost h': Ghost)
      requires Ready(h) && Begun(mem, h, p) && p + h.t.size[p] == h.t.top && h.t.top in h.t.size
               && n == h.t.size[p] + h.t.size[h.t.top]
      requires nb % ALIGN == 0 && h.t.size[p] < nb && nb + MINSIZE <= n
      modifies `mem
      ensures Ready(h') && Resized(old(mem), h.t, mem, h'.t, p, p, nb)
    {
      hide Mid, Heap, Search, Fresh, Resized, Head, Moved, SameData, UsedBelow;
      LetGo(mem, h, p);
      ghost var rest := Blocks(h.t) - {p};
      ghost var h1 := h.(keep := rest);
      HeadBits(mem, h, p);
      ghost var h2 := MovedTop(mem, h1, p, n, nb);
      Protect(mem, h, h2, p, p, h.t.size[p]);
      ghost var h3 := h2.(keep := Protected(h, p, p, h.t.size[p]), orig := mem);
      SettledAtOnce(mem, p, h.t.size[p], rest);
      PlaceTop(p, n, nb, h3);
      h' := h3.(todo := {}, top := p + nb);
      SettleTop(old(mem), old(mem), mem, h, h', p, p, nb);
    }

    /** realloc to a size that fits already. */
    method ReallocHere(p: int, n: int, nb: int, ghost h: Ghost) returns (ghost h': Ghost)
      requires Ready(h) && Begun(mem, h, p) && n == h.t.size[p] && nb % ALIGN == 0 && MINSIZE <= nb <= n
      modifies `mem, `brk
      ensures Ready(h') && Resized(old(mem), h.t, mem, h'.t, p, p, nb)
    {
      hide Mid, Heap, Search, Fresh, Resized, Moved, SameData, Growing;
      SearchKind(mem, h);
      ProtectLess(mem, h, p, nb);
      ghost var h1 := h.(keep := Protected(h, p, p, nb));
      GrowNone(mem, h1, p);
      h' := Split(p, n, nb, h1);
      SettledAtOnce(old(mem), p, nb, Blocks(h.t) - {p});
      HeapMid(mem, h');
      Settle(old(mem), old(mem), mem, h, h', p, p, nb);
    }

    /** realloc into the free chunk above. */
    method ReallocForward(p: int, n: int, next: int, nextsize: int, nb: int, ghost h: Ghost) returns (ghost h': Ghost)
      requires Ready(h) && Begun(mem, h, p) && n == h.t.size[p] && next == p + n && next in h.t.free
               && nextsize == ChunkSize(mem, next)
      requires nb % ALIGN == 0 && n < nb <= n + nextsize
      modifies `mem, `brk
      ensures Ready(h') && Resized(old(mem), h.t, mem, h'.t, p, p, nb)
    {
      hide Mid, Heap, Search, Fresh, Resized, Moved, SameData, Growing, Joined, Without, UsedBelow;
      SearchKind(mem, h);
      GrowNone(mem, h, p);
      HeadBits(mem, h, p);
      ghost var x, e, i := NextFree(mem, h, p);
      ProtectSame(h, p);
      WithoutKeys(h.q, next, i);
      Unlink(next, i, h);
      ghost var h1 := h.(q := Without(h.q, next, i));
      NotLinkedLive(h, p);
      GrowUp(mem, h1, p, next, e);
      ghost var h2 := Joined(h1, h1.q, p, e);
      assert h.t.free - {next} == h2.t.free;
      h' := Split(p, n + nextsize, nb, h2);
      SettledAtOnce(old(mem), p, n, Blocks(h.t) - {p});
      SettleGrown(old(mem), old(mem), mem, h, h2, h', p, p, nb);
    }

    /** Join the block p, of size n, with the free chunk f below, and with the chunk above if withNext says so. */
    method JoinDown(p: int, n: int, f: int, prevsize: int, next: int, nextsize: int, withNext: bool, ghost h: Ghost)
      returns (newsize: int, ghost h': Ghost)
      requires Ready(h) && Begun(mem, h, p) && n == h.t.size[p] && next == p + n && next != h.t.top
      requires !UsedBelow(h.t, p) && p in h.t.prev && f == h.t.prev[p] && prevsize == ChunkSize(mem, f)
      requires withNext ==> next in h.t.free && nextsize == ChunkSize(mem, next)
      modifies `mem
      ensures Mid(mem, h') && Growing(mem, h', f, newsize) && SameData(old(mem), mem, h.keep)
      ensures newsize == n + prevsize + (if withNext then nextsize else 0) && n <= newsize && h'.q.bin.Keys == h'.t.free
              && f < p
      ensures h'.keep == Blocks(h.t) - {p} && h'.orig == h.orig && h'.brk == h.brk && h'.t.base == h.t.base
      ensures f !in Blocks(h.t) && Blocks(h'.t) - {f} == Blocks(h.t) - {p, f}
    {
      hide Mid, Heap, Search, Fresh, SameData, Growing, Joined, Without, UsedBelow, LowBit, Blocks, At, MarkReady;
      GrowNone(mem, h, p);
      HeadBits(mem, h, p);
      NotLinkedLive(h, p);
      LetGo(mem, h, p);
      ghost var x, i := BelowFree(mem, h, p);
      HeadBits(mem, h, f);
      ghost var h1 := h;
      ghost var e := next;
      if withNext {
        ghost var y, e0, j := NextFree(mem, h, p);
        e := e0;
        WithoutKeys(h.q, next, j);
        Unlink(next, j, h1);
        h1 := h.(q := Without(h.q, next, j));
        i := LinkedAt(mem, h1, f);
      }
      WithoutKeys(h1.q, f, i);
      Unlink(f, i, h1);
      h1 := h1.(q := Without(h1.q, f, i));
      DataOf(mem, h1);
      KeepLess(mem, h1, Blocks(h.t) - {p});
      h1 := h1.(keep := Blocks(h.t) - {p});
      newsize := n + prevsize;
      BelowBit(old(mem), mem, h, f);
      GrowUp(mem, h1, f, p, next);
      h' := Joined(h1, h1.q, f, next);
      if withNext {
        newsize := newsize + nextsize;
        GrowingBit(mem, h', f, newsize - nextsize);
        GrowUp(mem, h', f, next, e);
        h' := Joined(h', h'.q, f, e);
      }
    }

    /** realloc by shifting the block p, of size n, down into the free chunk f, and up into the chunk above if that is
        free. */
    method ShiftDown(p: int, n: int, f: int, prevsize: int, next: int, nextsize: int, withNext: bool, nb: int,
                     ghost h: Ghost) returns (ghost h': Ghost)
      requires Ready(h) && Begun(mem, h, p) && n == h.t.size[p] && next == p + n && next != h.t.top
      requires !UsedBelow(h.t, p) && p in h.t.prev && f == h.t.prev[p] && prevsize == ChunkSize(mem, f)
      requires withNext ==> next in h.t.free && nextsize == ChunkSize(mem, next)
      requires nb % ALIGN == 0 && n < nb <= n + prevsize + (if withNext then nextsize else 0)
      modifies `mem, `brk
      ensures Ready(h') && Resized(old(mem), h.t, mem, h'.t, p, f, nb)
    {
      hide Mid, Heap, Search, Fresh, Resized, Moved, SameData, Growing, UsedBelow, Copied, Writable, LowBit, Blocks,
          Protected;
      SearchKind(mem, h);
      LetGo(mem, h, p);
      var newsize;
      ghost var h2;
      newsize, h2 := JoinDown(p, n, f, prevsize, next, nextsize, withNext, h);
      GrowingBit(mem, h2, f, newsize);
      ghost var m1 := mem;
      WritableGrown(h2, f, n);
      BlockWords(n);
      MallocCopy(f + FD, p + FD, n - 4, f, h2);
      CopyKeepsGrowing(m1, mem, h2, f, newsize, n, p + FD);
      MovedFrom(old(mem), m1, mem, h, p, f, n);
      DataOf(mem, h2);
      Protect(mem, h, h2, p, f, n);
      ghost var h3 := h2.(keep := Protected(h, p, f, n), orig := mem);
      ghost var m2 := mem;
      SameGrowing(mem, h2, h3, f, newsize);
      h' := Split(f, newsize, nb, h3);
      SettleGrown(old(mem), m2, mem, h, h2, h', p, f, nb);
    }

    /** realloc by shifting the block p down into the free chunk f, and top after it. */
    method ShiftTop(p: int, n: int, f: int, prevsize: int, nextsize: int, nb: int, ghost h: Ghost)
      returns (ghost h': Ghost)
      requires Ready(h) && Begun(mem, h, p) && n == h.t.size[p] && p + n == h.t.top && h.t.top in h.t.size
               && nextsize == h.t.size[h.t.top]
      requires !UsedBelow(h.t, p) && p in h.t.prev && f == h.t.prev[p] && prevsize == ChunkSize(mem, f)
      requires nb % ALIGN == 0 && n < nb && nb + MINSIZE <= n + prevsize + nextsize
      modifies `mem
      ensures Ready(h') && Resized(old(mem), h.t, mem, h'.t, p, f, nb)
    {
      hide Mid, Heap, Search, Fresh, Resized, Moved, SameData, Joined, Without, UsedBelow, Copied, Writable, Head,
          Growing, Blocks, At, Protected;
      SearchKind(mem, h);
      GrowNone(mem, h, p);
      NotLinkedLive(h, p);
      LetGo(mem, h, p);
      HeadBits(mem, h, p);
      ghost var x, i := BelowFree(mem, h, p);
      HeadBits(mem, h, f);
      ghost var rest := Blocks(h.t) - {p};
      var newsize := n + prevsize + nextsize;
      WithoutKeys(h.q, f, i);
      Unlink(f, i, h);
      ghost var h1 := h.(q := Without(h.q, f, i));
      DataOf(mem, h1);
      KeepLess(mem, h1, rest);
      h1 := h1.(keep := rest);
      JoinBelowTop(mem, h1, f, p);
      ghost var h2 := Joined(h1, h1.q, f, f).(todo := {f + SIZE});
      ghost var m1 := mem;
      WritableGrown(h2, f, n);
      BlockWords(n);
      MallocCopy(f + FD, p + FD, n - 4, f, h2);
      CopyKeepsHead(m1, mem, f, p + FD, n - 4);
      MovedFrom(old(mem), m1, mem, h, p, f, n);
      DataOf(mem, h2);
      ghost var h3 := MoveTop(mem, h2, f, newsize, nb);
      Protect(mem, h, h3, p, f, n);
      ghost var h4 := h3.(keep := Protected(h, p, f, n), orig := mem);
      ghost var m2 := mem;
      PlaceTop(f, newsize, nb, h4);
      h' := h4.(todo := {}, top := f + nb);
      SettleGrown(old(mem), m2, mem, h, h3, h', p, f, nb);
    }

    /** The block p, of size n, takes in the chunk above, which malloc has just handed out. */
    method TakeInNew(p: int, n: int, newp: int, nb: int, ghost h: Ghost, ghost h1: Ghost, ghost m0: Memory)
      returns (ghost h': Ghost)
      requires Ready(h1) && Handed(h, h1, newp, nb) && p in Blocks(h.t) && h.keep == Blocks(h.t) && h.orig == m0
               && newp == p + n
      requires Live(h.t, p) && n == h.t.size[p] && nb % ALIGN == 0 && MINSIZE <= n && n < nb
      modifies `mem, `brk
      ensures Ready(h') && Resized(m0, h.t, mem, h'.t, p, p, nb)
    {
      hide Mid, Heap, Search, Fresh, Resized, Moved, SameData, Growing, Joined, UsedBelow, Handed, Protected, Blocks;
      HandedApart(mem, h, h1, p, newp, nb);
      var newsize := n + ChunkSize(mem, newp);
      ProtectSame(h, p);
      NewProtected(h, p, n);
      GrowUp(mem, h1, p, newp, p + newsize);
      ghost var h2 := Joined(h1, h1.q, p, p + newsize);
      h' := Split(p, newsize, nb, h2);
      SettledAtOnce(m0, p, n, Blocks(h.t) - {p});
      SettleGrown(m0, m0, mem, h, h2, h', p, p, nb);
    }

    /** The contents of the block p go to the new block, and p is freed. */
    method CopyAway(p: int, n: int, newp: int, nb: int, ghost h: Ghost, ghost h1: Ghost, ghost m0: Memory)
      returns (ghost h': Ghost)
      requires Ready(h1) && Handed(h, h1, newp, nb) && p in Blocks(h.t) && Blocks(h.t)[p] == n && h.keep == Blocks(h.t)
               && h.orig == m0
      requires Live(h.t, p) && n == h.t.size[p] && n % ALIGN == 0 && MINSIZE <= n && n < nb
      modifies `mem, `brk
      ensures Ready(h') && Resized(m0, h.t, mem, h'.t, p, newp, nb)
    {
      hide Mid, Heap, Search, Fresh, Resized, Moved, SameData, UsedBelow, Copied, Writable, Handed, Protected, Blocks;
      HandedApart(mem, h, h1, p, newp, nb);
      AllocData(mem, h1);
      ghost var m1, rest := mem, Blocks(h.t) - {p};
      KeepLess(mem, h1, rest);
      ghost var h2 := h1.(keep := rest);
      WritableGrown(h2, newp, n);
      BlockWords(n);
      MallocCopy(newp + FD, p + FD, n - 4, newp, h2);
      MovedFrom(m0, m1, mem, h, p, newp, n);
      DataOf(mem, h2);
      Protect(mem, h, h2, p, newp, n);
      ghost var h3 := h2.(keep := Protected(h, p, newp, n), orig := mem);
      ghost var m2 := mem;
      GrownHeap(mem, h3, h3, newp, n);
      h' := Free(p + FD, h3);
      SettleFreed(m0, m2, mem, h, h1, h', p, newp, nb);
    }

    /** realloc by way of malloc. */
    method MoveAway(p: int, n: int, bytes: int, nb: int, ghost h: Ghost) returns (newmem: int, ghost h': Ghost)
      requires Ready(h) && Begun(mem, h, p) && n == h.t.size[p] && 0 <= bytes < SIGN && Servable(bytes)
               && nb == Request2Size(bytes) && n < nb
      modifies `mem, `brk, `sbrkBase
      ensures Ready(h')
      ensures newmem == NULL ==> Blocks(h'.t) == Blocks(h.t) && SameData(old(mem), mem, Blocks(h.t))
      ensures newmem == NULL ==> Exhausted(h, memEnd, old(brk), nb)
      ensures newmem != NULL ==> Resized(old(mem), h.t, mem, h'.t, p, newmem - FD, nb)
    {
      hide Mid, Heap, Search, Fresh, Resized, Moved, SameData, Growing, UsedBelow, Exhausted, Raised, Chosen,
          Request2Size,
          Handed, Protected, Blocks;
      GrowNone(mem, h, p);
      LetGo(mem, h, p);
      newmem, h' := Alloc(bytes, h);
      AllocData(mem, h');
      if newmem == NULL {
        return;
      }
      var newp := newmem - FD;
      Request2SizeFits(bytes);
      if newp == p + n {
        HandedApart(mem, h, h', p, newp, nb);
        h' := TakeInNew(p, n, newp, nb, h, h', old(mem));
        newmem := p + FD;
      } else {
        h' := CopyAway(p, n, newp, nb, h, h', old(mem));
      }
    }

    // rEALLOc, of the block oldmem
    method Realloc(oldmem: int, bytes: int, ghost h: Ghost) returns (newmem: int, ghost h': Ghost)
      requires Ready(h) && Begun(mem, h, oldmem - FD) && Servable(bytes)
      modifies `mem, `brk, `sbrkBase
      ensures Ready(h')
      ensures newmem == NULL ==> Blocks(h'.t) == Blocks(h.t) && SameData(old(mem), mem, Blocks(h.t))
      ensures newmem == NULL && bytes < SIGN ==> Exhausted(h, memEnd, old(brk), Request2Size(bytes))
      ensures newmem != NULL ==>
                bytes < SIGN && Resized(old(mem), h.t, mem, h'.t, oldmem - FD, newmem - FD, Request2Size(bytes))
      ensures bytes < SIGN ==> AtPlace(h.t, oldmem - FD, Request2Size(bytes), newmem)
    {
      hide Mid, Heap, Search, Fresh, Resized, SameData, Growing, Exhausted, Request2Size, Blocks, RoomAbove;
      SameDataNow(mem, Blocks(h.t));
      h' := h;
      if SIGN <= bytes {
        return NULL, h;
      }
      var nb := Request2Size(bytes);
      Request2SizeFits(bytes);
      var p := oldmem - FD;
      HeadBits(mem, h, p);
      BegunAbove(mem, h, p);
      ReadTop(mem, h);
      RoomRead(mem, h, p);
      newmem := oldmem;
      var oldsize := ChunkSize(mem, p);
      if oldsize >= nb {
        h' := ReallocHere(p, oldsize, nb, h);
        return;
      }
      var next := p + oldsize;
      var atTop := next == Rd(mem, TOP_WORD);
      var nextsize := 0;
      var joinable := atTop || !PrevInuse(mem, next + ChunkSize(mem, next));
      NextUse(mem, h, p);
      if joinable {
        nextsize := ChunkSize(mem, next);
        if atTop {
          if nextsize + oldsize >= nb + MINSIZE {
            h' := ReallocTop(p, oldsize + nextsize, nb, h);
            return;
          }
        } else if nextsize + oldsize >= nb {
          h' := ReallocForward(p, oldsize, next, nextsize, nb, h);
          return;
        }
      }
      if !PrevInuse(mem, p) {
        var prev := p - Rd(mem, p + PREV_SIZE);
        var prevsize := ChunkSize(mem, prev);
        PrevFacts(mem, h, p);
        if joinable {
          if atTop {
            if nextsize + prevsize + oldsize >= nb + MINSIZE {
              h' := ShiftTop(p, oldsize, prev, prevsize, nextsize, nb, h);
              newmem := prev + FD;
              return;
            }
          } else if nextsize + prevsize + oldsize >= nb {
            h' := ShiftDown(p, oldsize, prev, prevsize, next, nextsize, true, nb, h);
            newmem := prev + FD;
            return;
          }
        }
        if prevsize + oldsize >= nb {
          h' := ShiftDown(p, oldsize, prev, prevsize, next, nextsize, false, nb, h);
          newmem := prev + FD;
          return;
        }
      }
      newmem, h' := MoveAway(p, oldsize, bytes, nb, h);
    }

    /** Cut the block p, of size n, at k: both parts stay in use. */
    method CutInUse(p: int, n: int, k: int, lower: bool, ghost h: Ghost) returns (ghost h': Ghost)
      requires Ready(h) && Heap(mem, h) && Live(h.t, p) && p !in h.keep && n == h.t.size[p]
      requires k % ALIGN == 0 && MINSIZE <= k && k + MINSIZE <= n
      modifies `mem
      ensures Ready(h') && Heap(mem, h') && h'.keep == h.keep && h'.orig == h.orig && Live(h'.t, p) && Live(h'.t, p + k)
      ensures h'.t.size[p] == k && h'.t.size[p + k] == n - k && 0 < p && p + k !in h.keep
      ensures Blocks(h'.t) == Blocks(h.t)[p := k][p + k := n - k] && p + k !in Blocks(h.t)
    {
      hide Mid, Heap, Search, Fresh, Trimmed, Growing, Head, Blocks;
      SearchKind(mem, h);
      GrowNone(mem, h, p);
      CutGrown(mem, h, p, n, k);
      ghost var h1 := Trimmed(h, p, n, k);
      HeadBits(mem, h, p);
      if lower {
        // set_head(newp), set_inuse_bit_at_offset(newp, newsize), set_head_size(p)
        SetHead(p + k, n - k + PREV_INUSE, h1);
        ghost var h2 := h1.(todo := h1.todo - {p + k + SIZE});
        SetInuseBit(p + n, h2);
        ghost var h3 := h2.(todo := h2.todo - {p + n + SIZE});
        SetHeadSize(p, k, h3);
        h' := h3.(todo := h3.todo - {p + SIZE});
      } else {
        // set_head(remainder), set_head_size(p)
        EndIsRight(mem, h, h1, p, n, k);
        ghost var h2 := h1.(todo := {p + SIZE, p + k + SIZE});
        SetHead(p + k, n - k + PREV_INUSE, h2);
        ghost var h3 := h2.(todo := h2.todo - {p + k + SIZE});
        SetHeadSize(p, k, h3);
        h' := h3.(todo := h3.todo - {p + SIZE});
      }
      assert h'.todo == {};
      CutHeap(mem, h, h', p, n, k);
      HeapSearch(mem, h');
    }

    // mEMALIGn
    method MemAlign(alignment0: int, bytes: int, ghost h: Ghost) returns (r: int, ghost h': Ghost)
      requires Ready(h) && PowerOfTwo(alignment0) && Servable(bytes)
      requires bytes < SIGN ==> bytes + alignment0 + 64 + PAGE <= SIGN
      modifies `mem, `brk, `sbrkBase
      ensures Ready(h') && h'.keep == h.keep && h'.orig == h.orig
      ensures r == NULL ==> Blocks(h'.t) == Blocks(h.t)
      ensures r == NULL && bytes < SIGN ==> Exhausted(h, memEnd, old(brk), AlignedSize(alignment0, bytes))
      ensures r != NULL ==> r % alignment0 == 0 && bytes < SIGN && NewBlock(h, h', r - FD, Request2Size(bytes))
    {
      hide Mid, Heap, Search, Fresh, Request2Size, Blocks, NoneFits;
      h' := h;
      if SIGN <= bytes {
        return NULL, h;
      }
      PowerMultiple(alignment0);
      KeptBlocks(mem, h);
      var nb := Request2Size(bytes);
      Request2SizeFits(bytes);
      if alignment0 <= ALIGN {
        r, h' := Alloc(bytes, h);
        if r != NULL {
          HandedNew(mem, h, h', r - FD, nb);
          DividesToo(r, alignment0);
        }
        return;
      }
      var alignment := if alignment0 < MINSIZE then MINSIZE else alignment0;
      var request := nb + alignment + MINSIZE;
      Request2SizeFits(request);
      r, h' := Alloc(request, h);
      if r == NULL {
        return;
      }
      var p := r - FD;
      HandedNew(mem, h, h', p, Request2Size(request));
      if r % alignment != 0 {
        p, h' := DropLeader(p, alignment, h, h');
      }
      h' := DropTail(p, nb, h, h');
      r := p + FD;
    }

    /** Free the part of the new chunk p that lies below the aligned place. */
    method DropLeader(p: int, alignment: int, ghost h: Ghost, ghost h1: Ghost) returns (newp: int, ghost h': Ghost)
      requires Ready(h1) && Heap(mem, h1) && Live(h1.t, p) && p !in h1.keep && p !in Blocks(h.t)
               && Blocks(h1.t) == Blocks(h.t)[p := h1.t.size[p]]
      requires MINSIZE <= alignment && alignment % MINSIZE == 0 && (p + FD) % alignment != 0
               && alignment + ALIGN + MINSIZE <= h1.t.size[p]
      modifies `mem, `brk
      ensures Ready(h') && h'.keep == h1.keep && h'.orig == h1.orig && (newp + FD) % alignment == 0 && 0 < newp
              && newp !in h'.keep
      ensures Heap(mem, h') && Live(h'.t, newp) && newp !in Blocks(h.t)
              && Blocks(h'.t) == Blocks(h.t)[newp := h'.t.size[newp]]
      ensures h1.t.size[p] - alignment - ALIGN <= h'.t.size[newp]
    {
      hide Mid, Heap, Search, Fresh, Blocks, AlignedPlace;
      HeadBits(mem, h1, p);
      HeapMid(mem, h1);
      ReadHead(mem, h1, p);
      AlignedPlaceFits(p, alignment);
      newp := AlignedPlace(p, alignment);
      var leadsize := newp - p;
      var newsize := ChunkSize(mem, p) - leadsize;
      h' := CutInUse(p, newsize + leadsize, leadsize, true, h1);
      ghost var h2 := h';
      h' := Free(p + FD, h');
      LeaderFreed(mem, h, h1, h2, h', p, newp, newsize);
    }

    /** Free what the new chunk p has too much. */
    method DropTail(p: int, nb: int, ghost h: Ghost, ghost h1: Ghost) returns (ghost h': Ghost)
      requires Ready(h1) && Heap(mem, h1) && Live(h1.t, p) && p !in h1.keep && p !in Blocks(h.t)
               && Blocks(h1.t) == Blocks(h.t)[p := h1.t.size[p]]
      requires nb % ALIGN == 0 && MINSIZE <= nb <= h1.t.size[p] && 0 < p
      modifies `mem, `brk
      ensures Ready(h') && h'.keep == h1.keep && h'.orig == h1.orig && NewBlock(h, h', p, nb)
    {
      hide Mid, Heap, Search, Fresh, Blocks;
      HeadBits(mem, h1, p);
      h' := h1;
      var remainderSize := ChunkSize(mem, p) - nb;
      if remainderSize >= MINSIZE {
        h' := CutInUse(p, nb + remainderSize, nb, false, h');
        ghost var h2 := h';
        h' := Free(p + nb + FD, h');
        TailFreed(mem, h, h1, h2, h', p, nb, remainderSize);
      }
    }

    // What callers see.

    /** The chunks in use, with their sizes; the caller's pointer to a chunk is 8 above it. */
    ghost function InUse(): map<int, int>
      reads this
    {
      Blocks(g.t)
    }

    /** mem_malloc_init has not run yet. */
    ghost predicate Unset()
      reads this
    {
      memStart == 0 && memEnd == 0 && brk == 0 && Fresh(mem, g)
    }

    ghost predicate Valid()
      reads this
    {
      (Unset() || Ready(g)) && g.keep == map[]
    }

    constructor ()
      ensures Valid() && Unset() && InUse() == map[]
    {
      // av_ as initialised: every bin points at itself, and so does top
      mem := InitialMemory();
      memStart, memEnd, brk, sbrkBase := 0, 0, 0, FAILURE;
      g := Ghost(NoChunks(), NoLists(), 0, {}, map[], map[], INITIAL_TOP);
      new;
      InitialFresh(g);
      assert Blocks(g.t) == map[];
    }

    // mem_malloc_init
    method Initialize(heap: int, stackEnd: int)
      requires Valid() && Unset() && AV_END <= heap <= stackEnd < TWO32 - 1 && stackEnd - heap < SIGN
      modifies `memStart, `memEnd, `brk
      ensures Valid() && Ready(g) && InUse() == old(InUse())
      ensures memStart == brk == heap && memEnd == stackEnd
    {
      hide Fresh, Heap;
      FreshSearch(mem, g);
      memStart := heap;
      memEnd := stackEnd;
      brk := memStart;
    }

    // mALLOc
    method Malloc(bytes: int) returns (r: int)
      requires Valid() && Servable(bytes)
      modifies this
      ensures memStart == old(memStart) && memEnd == old(memEnd)
      ensures Valid() && SameData(old(mem), mem, old(InUse()))
      ensures r == NULL ==> InUse() == old(InUse())
      ensures old(Unset()) ==> r == NULL && mem == old(mem) && g == old(g)
      ensures r == NULL && bytes < SIGN && !old(Unset()) ==> Exhausted(old(g), memEnd, old(brk), Request2Size(bytes))
      ensures if bytes < SIGN then Raised(old(g), Request2Size(bytes), old(brk), brk) else brk == old(brk)
      ensures r != NULL ==> bytes < SIGN
      ensures r != NULL ==> var p := r - FD;
                r % ALIGN == 0 && p !in old(InUse()) && p in InUse() && InUse() == old(InUse())[p := InUse()[p]]
                && bytes + 4 <= InUse()[p] && Chosen(old(g), Request2Size(bytes), p)
                && RestLinked(old(g), g, p, Request2Size(bytes))
    {
      hide Heap, Fresh, SameData, Chosen, NoneFits, Request2Size, Blocks, Handed;
      SameDataNow(mem, Blocks(g.t));
      if memStart == 0 && memEnd == 0 {
        return NULL;
      }
      ghost var h := Starting(mem, g);
      StartSearch(mem, g);
      ghost var h';
      r, h' := Alloc(bytes, h);
      SameChoice(g, h, Request2Size(bytes), r - FD);
      SameFits(g, h, Request2Size(bytes));
      AllocData(mem, h');
      if r != NULL {
        Request2SizeFits(bytes);
        HandedNew(mem, h, h', r - FD, Request2Size(bytes));
      }
      Ending(mem, h');
      g := h'.(keep := map[], orig := map[]);
    }

    // fREe
    method FreeBlock(a: int)
      requires Valid() && (a == NULL || a - FD in InUse())
      modifies this
      ensures memStart == old(memStart) && memEnd == old(memEnd)
      ensures Valid() && InUse() == (if a == NULL then old(InUse()) else old(InUse()) - {a - FD})
      ensures SameData(old(mem), mem, InUse())
      ensures a == NULL ==> mem == old(mem) && brk == old(brk) && g == old(g)
      ensures a != NULL && a - FD + old(InUse())[a - FD] == old(Rd(mem, TOP_WORD)) ==>
                Rd(mem, TOP_WORD) <= a - FD && TopBounded(mem, brk, old(brk))
      ensures a != NULL && a - FD + old(InUse())[a - FD] != old(Rd(mem, TOP_WORD)) ==>
                brk == old(brk) && LastKept(old(g), g)
    {
      hide Heap, Fresh, SameData, Blocks;
      SameDataNow(mem, Blocks(g.t));
      if a == NULL {
        return;
      }
      BlockLive(mem, g, a - FD);
      ghost var h := Starting(mem, g);
      StartSearch(mem, g);
      BlockBegun(mem, g, a - FD);
      ghost var h1 := h.(keep := Blocks(h.t) - {a - FD});
      ghost var h' := Free(a, h1);
      AllocData(mem, h');
      Ending(mem, h');
      g := h'.(keep := map[], orig := map[]);
    }

    // rEALLOc
    method ReallocBlock(a: int, bytes: int) returns (r: int)
      requires Valid() && Servable(bytes) && (a == NULL || a - FD in InUse())
      modifies this
      ensures memStart == old(memStart) && memEnd == old(memEnd)
      ensures Valid()
      ensures r == NULL ==> InUse() == old(InUse()) && SameData(old(mem), mem, old(InUse()))
      ensures r == NULL && bytes < SIGN && !old(Unset()) ==> Exhausted(old(g), memEnd, old(brk), Request2Size(bytes))
      ensures r != NULL ==> bytes < SIGN
      ensures a != NULL && bytes < SIGN ==> AtPlace(old(g.t), a - FD, Request2Size(bytes), r)
      ensures a == NULL && r != NULL ==> var q := r - FD;
                q !in old(InUse()) && q in InUse() && InUse() == old(InUse())[q := InUse()[q]]
                    && bytes + 4 <= InUse()[q]
                && SameData(old(mem), mem, old(InUse()))
      ensures a != NULL && r != NULL ==> var p, q, rest := a - FD, r - FD, old(InUse()) - {a - FD};
                q !in rest && q in InUse() && InUse() == rest[q := InUse()[q]]
                    && bytes + 4 <= Request2Size(bytes) <= InUse()[q]
                && SameData(old(mem), mem, rest)
                    && Moved(old(mem), p, mem, q, Min(old(InUse())[p], Request2Size(bytes)))
    {
      hide Heap, Fresh, SameData, Blocks, Request2Size, Resized, Moved, NoneFits, Handed, Chosen;
      if a == NULL {
        r := Malloc(bytes);
        return;
      }
      BlockLive(mem, g, a - FD);
      ghost var h := Starting(mem, g);
      StartSearch(mem, g);
      BlockBegun(mem, g, a - FD);
      ghost var h';
      r, h' := Realloc(a, bytes, h);
      SameFits(g, h, Request2Size(bytes));
      if r != NULL {
        Request2SizeFits(bytes);
        ResizedInUse(old(mem), h.t, mem, h'.t, a - FD, r - FD, Request2Size(bytes));
      }
      Ending(mem, h');
      g := h'.(keep := map[], orig := map[]);
    }

    // mEMALIGn
    method AlignedAlloc(alignment: int, bytes: int) returns (r: int)
      requires Valid() && PowerOfTwo(alignment) && Servable(bytes)
      requires bytes < SIGN ==> bytes + alignment + 64 + PAGE <= SIGN
      modifies this
      ensures memStart == old(memStart) && memEnd == old(memEnd)
      ensures Valid() && SameData(old(mem), mem, old(InUse()))
      ensures r == NULL ==> InUse() == old(InUse())
      ensures r == NULL && bytes < SIGN && !old(Unset()) ==>
                Exhausted(old(g), memEnd, old(brk), AlignedSize(alignment, bytes))
      ensures r != NULL ==> var p := r - FD;
                r % alignment == 0 && p !in old(InUse()) && p in InUse() && InUse() == old(InUse())[p := InUse()[p]]
                    && bytes + 4 <= InUse()[p]
    {
      hide Heap, Fresh, SameData, Blocks, Request2Size, PowerOfTwo, AlignedSize, NoneFits;
      SameDataNow(mem, Blocks(g.t));
      if memStart == 0 && memEnd == 0 {
        // both branches end in mALLOc
        return NULL;
      }
      ghost var h := Starting(mem, g);
      StartSearch(mem, g);
      ghost var h';
      r, h' := MemAlign(alignment, bytes, h);
      if bytes < SIGN {
        PowerMultiple(alignment);
        SameFits(g, h, AlignedSize(alignment, bytes));
      }
      AllocData(mem, h');
      if r != NULL {
        Request2SizeFits(bytes);
      }
      Ending(mem, h');
      g := h'.(keep := map[], orig := map[]);
    }

    /** A pad that leaves the signed range alone never trims too much. */
    lemma SmallPad(pad: int)
      requires Valid() && 0 <= pad <= SIGN - PAGE
      ensures TrimSafe(ChunkSize(mem, Rd(mem, TOP_WORD)), pad)
    {
      hide Heap, Fresh, ChunkSize, TrimSafe;
      SearchIs(mem, g);
      SmallPadIsSafe(pad, g);
    }

    // malloc_trim
    method TrimTop(pad: int) returns (released: bool)
      requires Valid() && 0 <= pad < TWO32
      modifies this
      ensures memStart == old(memStart) && memEnd == old(memEnd)
      ensures old(TrimKeeps(pad, InUse())) ==> Valid() && InUse() == old(InUse())
      ensures !old(TrimKeeps(pad, InUse())) ==> !Valid() && forall h :: Ready(h) ==> Blocks(h.t) != old(InUse())
      ensures old(TrimKeeps(pad, InUse())) ==> SameData(old(mem), mem, InUse()) && (released <==> brk < old(brk))
      ensures old(Rd(mem, TOP_WORD)) != INITIAL_TOP && pad <= SIGN - PAGE ==>
                (released <==> PAGE < old(ChunkSize(mem, Rd(mem, TOP_WORD))) - pad - MINSIZE)
      ensures released && pad <= SIGN - PAGE ==>
                pad + MINSIZE <= ChunkSize(mem, Rd(mem, TOP_WORD)) <= pad + MINSIZE + PAGE
                && old(ChunkSize(mem, Rd(mem, TOP_WORD))) - ChunkSize(mem, Rd(mem, TOP_WORD)) == old(brk) - brk
      ensures old(Unset()) ==> !released && mem == old(mem)
    {
      hide Heap, Fresh, SameData, Blocks, ChunkSize, TrimSafe, Extra;
      SearchIs(mem, g);
      SearchKind(mem, g);
      ReadTop(mem, g);
      ghost var h, keeps := Starting(mem, g), TrimKeeps(pad, InUse());
      StartSearch(mem, g);
      SearchKind(mem, h);
      ghost var h';
      released, h' := Trim(pad, h);
      if keeps {
        AllocData(mem, h');
        Ending(mem, h');
        g := h'.(keep := map[], orig := map[]);
        SearchKind(mem, g);
      }
    }

    /** A pad of 2^32 - 2^20 destroys every heap with a block in use. */
    lemma HugePadBreaks()
      requires Valid() && InUse() != map[] && memEnd - memStart < 0x7fe0_0000
      ensures !TrimKeeps(0xfff0_0000, InUse())
    {
      hide Heap, Fresh, ChunkSize, Extra;
      SearchIs(mem, g);
      SearchKind(mem, g);
      ReadTop(mem, g);
      HugePad(ChunkSize(mem, Rd(mem, TOP_WORD)));
    }

    /** The owner of a block writes one of its words. */
    method WriteWord(p: int, a: int, v: int)
      requires Valid() && p in InUse() && p + FD <= a <= p + InUse()[p]
      modifies `mem
      ensures Valid() && mem == old(mem)[a := v] && SameData(old(mem), mem, InUse() - {p})
    {
      hide Heap, Fresh, SameData, Mid;
      BlockLive(mem, g, p);
      UserWrite(mem, g, p, a, v);
      mem := mem[a := v];
    }

    lemma BlockInHeap(p: int)
      requires Valid() && p in InUse()
      ensures 0 < memStart <= p
    {
      hide Heap, Fresh, Mid;
      BlockLive(mem, g, p);
      ReadHead(mem, g, p);
    }

    /** Blocks are 8-aligned, lie inside the heap, hold at least MINSIZE bytes, and do not overlap. */
    lemma BlocksApart(p: int, q: int)
      requires Valid() && p in InUse() && q in InUse() && p < q
      ensures p % ALIGN == 0 && memStart <= p && MINSIZE <= InUse()[p] && p + InUse()[p] <= q
              && q + InUse()[q] <= brk <= memEnd
    {
      hide Heap, Fresh, Mid;
      BlockLive(mem, g, p);
      BlockLive(mem, g, q);
      ReadHead(mem, g, p);
      ReadHead(mem, g, q);
      ChunksApart(mem, g, p, q);
    }
  }

  /** A top chunk that reaches up to the old break was too large exactly if memory has been given back; then at
      most a page more than the smallest chunk is left. */
  ghost predicate TopBounded(m: Memory, brk: int, oldBrk: int) {
    var top := Rd(m, TOP_WORD);
    ChunkSize(m, top) == brk - top
    && if oldBrk - top < TRIM_THRESHOLD then brk == oldBrk
       else brk < oldBrk && MINSIZE <= brk - top <= MINSIZE + PAGE
  }

  /** After one block has been handed out, malloc_trim(2^32 - 2^20) leaves no heap that has it. */
  method TrimDestroys() returns (a: Allocator, r: int, released: bool, ghost blocks: map<int, int>)
    ensures fresh(a) && r != NULL && r - FD in blocks && !a.Valid()
    ensures forall h :: a.Ready(h) ==> Blocks(h.t) != blocks
  {
    hide Chosen, NoneFits, Extra, ChunkSize, Heap, Fresh, SameData, Blocks;
    a := new Allocator();
    a.Initialize(0x10_0000, 0x20_0000);
    assert Request2Size(100) == 104;
    r := a.Malloc(100);
    blocks := a.InUse();
    a.HugePadBreaks();
    released := a.TrimTop(0xfff0_0000);
  }

  /** What memalign asks malloc for: room to move the block up to the alignment, and no more. */
  function AlignedSize(alignment: int, bytes: int): (r: int)
    requires 0 <= bytes && 0 < alignment && bytes + alignment + 64 < SIGN
    ensures bytes + 4 <= r <= bytes + (if alignment <= ALIGN then 16 else alignment + 51)
  {
    var room := (if alignment < MINSIZE then MINSIZE else alignment) + MINSIZE;
    Request2SizeFits(bytes);
    Request2SizeFits(Request2Size(bytes) + room);
    if alignment <= ALIGN then Request2Size(bytes) else Request2Size(Request2Size(bytes) + room)
  }

  /** Requests that the padding and the rounding to pages keep below 2^31, or that are refused outright. */
  predicate Servable(bytes: int) {
    0 <= bytes < TWO32 && (bytes < SIGN ==> bytes + 11 + MINSIZE + PAGE <= SIGN)
  }
}
