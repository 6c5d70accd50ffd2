/**
 Arithmetic of malloc.c: padded request sizes, the bin of a size, and the block bit vector.
 Sizes are 32-bit; the words are kept as integers and the wrap-around is written out.
 */
module Binning {
  import opened Common
  import opened Chunks
  import opened Headers
  import opened BinLists

  const SIGN := 0x8000_0000

  /** A 32-bit word read as a signed long. */
  function Signed(x: int): int
    requires 0 <= x < TWO32
  {
    if x < SIGN then x else x - TWO32
  }

  /** request2size: room for the size word, rounded up to 8, at least MINSIZE. The comparison is signed. */
  function Request2Size(req: int): int
    requires 0 <= req < TWO32
  {
    var padded := (req + 11) % TWO32;
    if Signed(padded) < MINSIZE + 7 then MINSIZE else padded - padded % ALIGN
  }

  /** The padded size holds the request exactly when the padding does not leave the signed range. */
  lemma Request2SizeFits(req: int)
    requires 0 <= req < SIGN
    ensures Request2Size(req) % ALIGN == 0 && MINSIZE <= Request2Size(req)
    ensures req + 4 <= Request2Size(req) <==> req + 11 < SIGN
    ensures req + 11 < SIGN ==> Request2Size(req) <= req + 11 || Request2Size(req) == MINSIZE
  {
  }

  /** A request for 2^31 - 1 bytes is rounded to the smallest chunk. */
  lemma Request2SizeWraps()
    ensures Request2Size(SIGN - 1) == MINSIZE
  {
  }

  const MAX_SMALLBIN_SIZE := 512

  function BinIndex(sz: int): int
    requires 0 <= sz
  {
    if sz / 512 == 0 then sz / 8
    else if sz / 512 <= 4 then 56 + sz / 64
    else if sz / 512 <= 20 then 91 + sz / 512
    else if sz / 512 <= 84 then 110 + sz / 4096
    else if sz / 512 <= 340 then 119 + sz / 32768
    else if sz / 512 <= 1364 then 124 + sz / 262144
    else 126
  }

  lemma BinIndexMonotone(x: int, y: int)
    requires 0 <= x <= y
    ensures BinIndex(x) <= BinIndex(y)
  {
  }

  lemma BinIndexRange(x: int)
    requires MINSIZE <= x
    ensures 2 <= BinIndex(x) <= 126
    ensures x < MAX_SMALLBIN_SIZE <==> BinIndex(x) < 64
    ensures x < MAX_SMALLBIN_SIZE ==> BinIndex(x) == x / 8
  {
  }

  /** The layout of the bins: 64 bins of size 8, 32 of 64, 16 of 512, 8 of 4096, 4 of 32768, 2 of 262144 and one of
      what is left, with some slop where the groups meet. */
  function BinStart(b: int): int
    requires 0 <= b <= 126
  {
    if b < 64 then 8 * b
    else if b < 96 then 512 + 64 * (b - 64)
    else if b < 112 then 2560 + 512 * (b - 96)
    else if b == 112 then 10752
    else if b < 121 then 12288 + 4096 * (b - 113)
    else if b < 125 then 65536 + 32768 * (b - 121)
    else 262144 * (b - 124)
  }

  /** Bin b holds the sizes from its start up to the start of the next bin. */
  lemma BinBounds(sz: int, b: int)
    requires 0 <= sz && 0 <= b <= 126
    ensures BinIndex(sz) == b <==> BinStart(b) <= sz && (b < 126 ==> sz < BinStart(b + 1))
  {
  }

  /** The chunks of one list, largest first, are all in the bin of their size; the list of the last
      remainder (bin 1) holds at most one chunk, of any size. */
  ghost predicate Sorted(q: Bins, size: map<int, int>) {
    |q.ring| == NAV && |q.ring[1]| <= 1 &&
    forall b, i, j | 2 <= b < NAV && 0 <= i < j < |q.ring[b]| && q.ring[b][i] in size && q.ring[b][j] in size ::
      size[q.ring[b][j]] <= size[q.ring[b][i]]
  }

  ghost predicate Indexed(q: Bins, size: map<int, int>) {
    forall p | p in q.bin && p in size :: MINSIZE <= size[p] && (q.bin[p] == 1 || q.bin[p] == BinIndex(size[p]))
  }

  ghost predicate Ordered(q: Bins, size: map<int, int>) {
    Sorted(q, size) && Indexed(q, size)
  }

  const BINBLOCKS := AV + 4
  const TOP_WORD := AV + 8
  const BINBLOCKWIDTH := 4

  /** Bit k of w. */
  function BitSet(w: int, k: nat): bool
    requires 0 <= w
  {
    if k == 0 then w % 2 == 1 else BitSet(w / 2, k - 1)
  }

  /** w | (1 << k) and w & ~(1 << k). */
  function WithBit(w: int, k: nat): (r: int)
    requires 0 <= w
    ensures 0 <= r
  {
    if k == 0 then w - w % 2 + 1 else w % 2 + 2 * WithBit(w / 2, k - 1)
  }

  function WithoutBit(w: int, k: nat): (r: int)
    requires 0 <= w
    ensures 0 <= r
  {
    if k == 0 then w - w % 2 else w % 2 + 2 * WithoutBit(w / 2, k - 1)
  }

  lemma {:induction false} WithBitSets(w: int, k: nat, j: nat)
    requires 0 <= w
    ensures BitSet(WithBit(w, k), j) == (k == j || BitSet(w, j))
    ensures BitSet(WithoutBit(w, k), j) == (k != j && BitSet(w, j))
  {
    hide WithBit, WithoutBit;
    BitParts(w, k);
    if j == 0 {
    } else if k == 0 {
      assert BitSet(WithBit(w, k), j) == BitSet(w / 2, j - 1);
    } else {
      WithBitSets(w / 2, k - 1, j - 1);
    }
  }

  /** The lowest bit, and the other bits. */
  lemma BitParts(w: int, k: nat)
    requires 0 <= w
    ensures WithBit(w, k) % 2 == (if k == 0 then 1 else w % 2) && WithoutBit(w, k) % 2 == (if k == 0 then 0 else w % 2)
    ensures WithBit(w, k) / 2 == if k == 0 then w / 2 else WithBit(w / 2, k - 1)
    ensures WithoutBit(w, k) / 2 == if k == 0 then w / 2 else WithoutBit(w / 2, k - 1)
  {
  }

  lemma {:induction false} BitsBelow(w: int, k: nat, n: nat)
    requires 0 <= w < Power(n) && k < n
    ensures 0 <= WithBit(w, k) < Power(n) && 0 <= WithoutBit(w, k) < Power(n)
  {
    if k == 0 {
    } else {
      BitsBelow(w / 2, k - 1, n - 1);
    }
  }

  /** The block test of the bin scan: if no marked block is at or above 1 << k, no bit from k on is set. */
  lemma {:induction false} NoHighBit(w: int, k: nat, j: nat)
    requires 0 <= w < Power(k) && k <= j
    ensures !BitSet(w, j)
    decreases j
  {
    if j == 0 {
    } else {
      if k == 0 {
        assert w == 0;
        NoHighBit(w / 2, 0, j - 1);
      } else {
        NoHighBit(w / 2, k - 1, j - 1);
      }
    }
  }

  /** And if one is, some bit from k on is. */
  lemma {:induction false} SomeHighBit(w: int, k: nat) returns (j: nat)
    requires Power(k) <= w
    ensures k <= j && BitSet(w, j) && Power(j) <= w
    decreases w
  {
    if k == 0 {
      if w == 1 {
        j := 0;
      } else {
        j := SomeHighBit(w / 2, 0);
        j := j + 1;
      }
    } else {
      j := SomeHighBit(w / 2, k - 1);
      j := j + 1;
    }
  }

  /** A list that is not empty has its block marked. */
  ghost predicate Marked(m: Memory, q: Bins) {
    |q.ring| == NAV && 0 <= Rd(m, BINBLOCKS) < TWO32 &&
    forall b | 2 <= b < NAV && q.ring[b] != [] :: BitSet(Rd(m, BINBLOCKS), b / BINBLOCKWIDTH)
  }
}
