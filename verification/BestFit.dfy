/**
 What the search through the bins relies on: the bins are ordered by size, each list is ordered,
 so the first chunk that fits is the smallest one that does.
 */
module BestFit {
  import opened Chunks
  import opened BinLists
  import opened Binning

  /** No chunk in a bin of sizes below b is large enough. */
  ghost predicate LowBins(q: Bins, size: map<int, int>, nb: int, b: int) {
    forall f | f in q.bin && f in size && 2 <= q.bin[f] < b :: size[f] < nb
  }

  /** From bin idx on, a list that is not empty holds a chunk that is large enough. */
  ghost predicate Scannable(q: Bins, size: map<int, int>, nb: int, idx: int) {
    |q.ring| == NAV && forall b | 0 <= idx <= b < NAV && q.ring[b] != [] ::
          q.ring[b][0] in size && nb <= size[q.ring[b][0]]
  }

  /** The state in which the scan of the larger bins starts. */
  ghost predicate ScanPoint(q: Bins, size: map<int, int>, nb: int, idx: int) {
    && 4 <= idx < NAV && MINSIZE <= nb && nb % ALIGN == 0
    && BinIndex(nb) <= idx && LowBins(q, size, nb, idx) && Scannable(q, size, nb, idx)
    && (idx == BinIndex(nb) ==> q.ring[idx] != [])
  }

  /** p is a smallest binned chunk that is large enough. */
  ghost predicate SmallestFit(q: Bins, size: map<int, int>, nb: int, p: int) {
    && p in q.bin && q.bin[p] != 1 && p in size && nb <= size[p]
    && forall f | f in q.bin && q.bin[f] != 1 && f in size && nb <= size[f] :: size[p] <= size[f]
  }

  lemma LowAlways(q: Bins, size: map<int, int>, nb: int)
    requires Indexed(q, size) && 0 <= nb
    ensures LowBins(q, size, nb, BinIndex(nb))
  {
    forall f | f in q.bin && f in size && 2 <= q.bin[f] < BinIndex(nb)
      ensures size[f] < nb
    {
      if nb <= size[f] {
        BinIndexMonotone(nb, size[f]);
        assert false;
      }
    }
  }

  /** Above the bin of nb every chunk is large enough. */
  lemma ScannableAbove(q: Bins, size: map<int, int>, nb: int, idx: int)
    requires Member(q) && Indexed(q, size) && q.bin.Keys <= size.Keys && 2 <= idx && 0 <= nb && BinIndex(nb) < idx
    ensures Scannable(q, size, nb, idx)
  {
    forall b | idx <= b < NAV && q.ring[b] != []
      ensures q.ring[b][0] in size && nb <= size[q.ring[b][0]]
    {
      MemberAt(q, b, 0);
      var p := q.ring[b][0];
      assert p in q.bin.Keys;
      if size[p] < nb {
        BinIndexMonotone(size[p], nb);
        assert false;
      }
    }
  }

  /** The last fitting chunk of the first bin that has one is a smallest fit. */
  lemma FirstIsSmallest(q: Bins, size: map<int, int>, nb: int, p: int, i: int)
    requires Placed(q) && Ordered(q, size) && q.bin.Keys <= size.Keys && At(q, p, i) && 2 <= q.bin[p] && nb <= size[p]
    requires LowBins(q, size, nb, q.bin[p])
    requires var r := q.ring[q.bin[p]]; forall j | i < j < |r| :: r[j] in size && size[r[j]] < nb
    ensures SmallestFit(q, size, nb, p)
  {
    var b := q.bin[p];
    var r := q.ring[b];
    forall f | f in q.bin && q.bin[f] != 1 && f in size && nb <= size[f]
      ensures size[p] <= size[f]
    {
      if q.bin[f] == b {
        var j := Position(q, f);
        assert j <= i;
        assert size[r[i]] <= size[r[j]];
      }
    }
  }

  /** In a small bin all chunks have the size of the bin. */
  lemma SmallBin(q: Bins, size: map<int, int>, p: int)
    requires Indexed(q, size) && p in q.bin && p in size && size[p] % ALIGN == 0 && 2 <= q.bin[p] < 64
    ensures size[p] == 8 * q.bin[p]
  {
    BinIndexRange(size[p]);
  }
}
