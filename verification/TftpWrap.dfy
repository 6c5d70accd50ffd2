/**
 Long transfers: block numbers have 16 bits, and a block numbered 0 tells the client that they have wrapped.
 The blocks arrive in order; the latest one may be repeated.
 */
module TftpWrap {
  import opened Common
  import opened Tftp

  datatype Event = NextBlock | Again

  /** The client, the number of blocks so far, and how often a block numbered 0 has been repeated. */
  datatype Progress = Progress(client: Client, n: nat, zeros: nat)

  function Number(n: nat): int {
    n % SEQUENCE_SIZE
  }

  /** The run of events; load(n) is the payload of block n. The first block starts the transfer. */
  function Play(c: Client, load: int -> seq<octet>, events: seq<Event>): Progress {
    if events == [] then Progress(AfterData(c, 1, load(1)).0, 1, 0)
    else
      var p := Play(c, load, events[..|events| - 1]);
      match events[|events| - 1]
      case NextBlock => Progress(AfterData(p.client, Number(p.n + 1), load(p.n + 1)).0, p.n + 1, p.zeros)
      case Again => Progress(AfterData(p.client, Number(p.n), load(p.n)).0, p.n,
          if Number(p.n) == 0 then p.zeros + 1 else p.zeros)
  }

  /** What the globals say about the blocks so far. */
  ghost predicate InStep(p: Progress, size: int) {
    && 1 <= p.n && p.client.state == Receiving && p.client.blkSize == size && p.client.lastBlock == Number(p.n)
    && p.client.wrapOffset == (size * SEQUENCE_SIZE * (p.n / SEQUENCE_SIZE + p.zeros)) % TWO32
  }

  lemma {:induction false} PlayInStep(c: Client, load: int -> seq<octet>, events: seq<Event>)
    requires c.state != Receiving
    ensures InStep(Play(c, load, events), c.blkSize)
  {
    if events == [] {
      assert c.blkSize * SEQUENCE_SIZE * 0 == 0;
    } else {
      var before := events[..|events| - 1];
      PlayInStep(c, load, before);
      var p := Play(c, load, before);
      match events[|events| - 1]
      case NextBlock => TakesNext(p, c.blkSize, load(p.n + 1));
      case Again => TakesAgain(p, c.blkSize, load(p.n));
    }
  }

  /** The next block goes to its place, shifted by one wrap for every repeated block 0. */
  lemma TakesNext(p: Progress, size: int, src: seq<octet>)
    requires InStep(p, size)
    ensures var c' := AfterData(p.client, Number(p.n + 1), src).0;
            InStep(Progress(c', p.n + 1, p.zeros), size)
            && c'.memory == Written(p.client.memory, (p.n * size + size * SEQUENCE_SIZE * p.zeros) % TWO32, src)
  {
    hide Written;
    NextWraps(p, size);
    NextOffset(p, size);
  }

  lemma NextOffset(p: Progress, size: int)
    requires InStep(p, size)
    ensures var m, c := Number(p.n + 1), BlockTaken(p.client, Number(p.n + 1));
            m != p.client.lastBlock && c.lastBlock == p.client.lastBlock && c.state == Receiving
            && OffsetOf(c, m - 1) == (p.n * size + size * SEQUENCE_SIZE * p.zeros) % TWO32
            && c.blkSize == size && c.xferSize == p.client.xferSize && c.done == p.client.done
  {
    var m, q := Number(p.n + 1), (p.n + 1) / SEQUENCE_SIZE;
    NextWraps(p, size);
    Carry(size * SEQUENCE_SIZE * (q + p.zeros), (m - 1) * size);
    OffsetSum(p.n, q, m, size, p.zeros);
  }

  /** The offset counts the wraps. */
  lemma NextWraps(p: Progress, size: int)
    requires InStep(p, size)
    ensures var m, q := Number(p.n + 1), (p.n + 1) / SEQUENCE_SIZE;
            BlockTaken(p.client, m).wrapOffset == (size * SEQUENCE_SIZE * (q + p.zeros)) % TWO32
  {
    var m, q := Number(p.n + 1), p.n / SEQUENCE_SIZE;
    var w := size * SEQUENCE_SIZE;
    if m == 0 {
      assert w * (q + p.zeros) + w == w * (q + 1 + p.zeros);
      Carry(w * (q + p.zeros), w);
    }
  }

  lemma OffsetSum(n: int, q: int, m: int, size: int, z: int)
    requires n + 1 == q * SEQUENCE_SIZE + m
    ensures size * SEQUENCE_SIZE * (q + z) + (m - 1) * size == n * size + size * SEQUENCE_SIZE * z
  {
    assert size * SEQUENCE_SIZE * (q + z) == size * (q * SEQUENCE_SIZE) + size * SEQUENCE_SIZE * z;
    assert n == q * SEQUENCE_SIZE + (m - 1);
    assert n * size == size * (q * SEQUENCE_SIZE) + (m - 1) * size;
  }

  /** A repeated block is not stored again; only a repeated block 0 moves the offset. */
  lemma TakesAgain(p: Progress, size: int, src: seq<octet>)
    requires InStep(p, size)
    ensures var c' := AfterData(p.client, Number(p.n), src).0;
              var z := if Number(p.n) == 0 then p.zeros + 1 else p.zeros;
            InStep(Progress(c', p.n, z), size) && c'.memory == p.client.memory
  {
    if Number(p.n) == 0 {
      var w, q := size * SEQUENCE_SIZE, p.n / SEQUENCE_SIZE;
      assert w * (q + p.zeros) + w == w * (q + (p.zeros + 1));
      Carry(w * (q + p.zeros), w);
    }
  }

  /** Where the block after the first n goes. */
  function PlaceOf(p: Progress, size: int): int {
    (p.n * size + size * SEQUENCE_SIZE * p.zeros) % TWO32
  }

  /** Block n + 1 is stored at n * size, for any number of wraps, exactly if the repeated blocks 0 have shifted it
      by a multiple of 2^32: that is so if there were none, and otherwise if their number times the block size is a
      multiple of the number of block numbers. */
  lemma StoredInPlace(c: Client, load: int -> seq<octet>, events: seq<Event>, src: seq<octet>)
    requires c.state != Receiving && 0 < c.blkSize <= 1468
    requires Play(c, load, events).n * c.blkSize < TWO32
    ensures var p := Play(c, load, events);
            AfterData(p.client, Number(p.n + 1), src).0.memory == Written(p.client.memory, PlaceOf(p, c.blkSize), src)
            && (PlaceOf(p, c.blkSize) == p.n * c.blkSize <==> (c.blkSize * p.zeros) % SEQUENCE_SIZE == 0)
  {
    hide Play, AfterData, InStep, Written, Number;
    PlayInStep(c, load, events);
    var p := Play(c, load, events);
    TakesNext(p, c.blkSize, src);
    PlaceShifted(p.n, p.zeros, c.blkSize);
  }

  lemma PlaceShifted(n: nat, z: nat, size: int)
    requires 0 < size && n * size < TWO32
    ensures (n * size + size * SEQUENCE_SIZE * z) % TWO32 == n * size <==> (size * z) % SEQUENCE_SIZE == 0
  {
    Times(0, n, size);
    assert size * SEQUENCE_SIZE * z == (size * z) * SEQUENCE_SIZE;
    Shifted(n * size, size * z);
  }

  lemma Shifted(a: int, k: int)
    requires 0 <= a < TWO32
    ensures (a + k * SEQUENCE_SIZE) % TWO32 == a <==> k % SEQUENCE_SIZE == 0
  {
    var q, r := k / SEQUENCE_SIZE, k % SEQUENCE_SIZE;
    Modulo(a + r * SEQUENCE_SIZE, q);
    assert a + k * SEQUENCE_SIZE == a + r * SEQUENCE_SIZE + TWO32 * q;
  }

  /** With fewer than 45 repeated blocks 0, so with blocks of at most 1468 bytes, each of them does harm. */
  lemma FewZeros(size: int, z: nat)
    requires 0 < size <= 1468 && z < 45
    ensures (size * z) % SEQUENCE_SIZE == 0 <==> z == 0
  {
    assert size * z <= 1468 * z;
    assert 0 < z ==> 0 < size * z;
  }

  ghost predicate BlockAt(memory: map<int, octet>, at: int, src: seq<octet>) {
    forall x | 0 <= x < |src| :: Byte(memory, at + x, src[x])
  }

  /** The first n blocks are in their places. */
  ghost predicate InPlace(memory: map<int, octet>, load: int -> seq<octet>, size: int, n: int) {
    forall i | 1 <= i <= n :: BlockAt(memory, (i - 1) * size, load(i))
  }

  /** As long as no block 0 is repeated, all blocks are stored in their places, across any number of wraps. */
  lemma {:induction false} AllInPlace(c: Client, load: int -> seq<octet>, events: seq<Event>)
    requires c.state != Receiving && 0 < c.blkSize
    requires var p := Play(c, load, events); p.zeros == 0 && (p.n - 1) * c.blkSize < TWO32
    requires forall i | 1 <= i <= Play(c, load, events).n :: |load(i)| <= c.blkSize
    ensures var p := Play(c, load, events); InPlace(p.client.memory, load, c.blkSize, p.n)
  {
    hide InPlace, Written, AfterData;
    if events == [] {
      FirstStored(c, load(1));
      NoneInPlace(c.memory, load, c.blkSize);
      StoreNext(c.memory, load, c.blkSize, 0);
    } else {
      var before, size := events[..|events| - 1], c.blkSize;
      var p := Play(c, load, before);
      PlayInStep(c, load, before);
      Times(p.n - 1, Play(c, load, events).n - 1, size);
      AllInPlace(c, load, before);
      match events[|events| - 1]
      case NextBlock =>
        TakesNext(p, size, load(p.n + 1));
        Times(0, p.n, size);
        assert (p.n * size + size * SEQUENCE_SIZE * 0) % TWO32 == p.n * size;
        StoreNext(p.client.memory, load, size, p.n);
      case Again =>
        TakesAgain(p, size, load(p.n));
    }
  }

  /** The transfer size is where the last block ends, across any number of wraps, and the transfer is complete
      exactly when a block has come that is not full. */
  lemma {:induction false} SizeInStep(c: Client, load: int -> seq<octet>, events: seq<Event>)
    requires c.state != Receiving && 0 < c.blkSize && c.xferSize == 0 && !c.done
    requires var p := Play(c, load, events);
             p.zeros == 0 && p.n * c.blkSize < TWO32 && |load(p.n)| <= c.blkSize
             && forall i | 1 <= i < p.n :: |load(i)| == c.blkSize
    ensures var p := Play(c, load, events);
            p.client.xferSize == (p.n - 1) * c.blkSize + |load(p.n)|
            && (p.client.done <==> |load(p.n)| < c.blkSize)
  {
    hide Written, AfterData;
    if events == [] {
      FirstSize(c, load(1));
    } else {
      var before, size := events[..|events| - 1], c.blkSize;
      var p := Play(c, load, before);
      PlayInStep(c, load, before);
      assert (p.n + 1) * size == p.n * size + size && p.n * size == (p.n - 1) * size + size;
      SizeInStep(c, load, before);
      match events[|events| - 1]
      case NextBlock => NextSize(p, size, load(p.n + 1));
      case Again => AgainSize(p, size, load(p.n));
    }
  }

  lemma FirstSize(c: Client, src: seq<octet>)
    requires c.state != Receiving && c.xferSize == 0 && !c.done && |src| <= c.blkSize < TWO32
    ensures var c' := AfterData(c, 1, src).0; c'.xferSize == |src| && (c'.done <==> |src| < c.blkSize)
  {
    hide Written;
  }

  lemma NextSize(p: Progress, size: int, src: seq<octet>)
    requires InStep(p, size) && p.zeros == 0 && 0 < size && (p.n + 1) * size < TWO32 && |src| <= size
    requires p.client.xferSize == p.n * size && !p.client.done
    ensures var c' := AfterData(p.client, Number(p.n + 1), src).0;
            c'.xferSize == p.n * size + |src| && (c'.done <==> |src| < size)
  {
    hide Written, Number, OffsetOf;
    var m := Number(p.n + 1);
    NextOffset(p, size);
    Times(0, p.n, size);
    assert (p.n + 1) * size == p.n * size + size;
    assert size * SEQUENCE_SIZE * 0 == 0;
    var c1 := BlockTaken(p.client, m);
    assert OffsetOf(c1.(lastBlock := m), m - 1) == OffsetOf(c1, m - 1) by {
      SameOffset(c1, m);
    }
    SizeStored(c1.(lastBlock := m), m - 1, src, p.n * size);
  }

  lemma SameOffset(c: Client, m: int)
    ensures OffsetOf(c.(lastBlock := m), m - 1) == OffsetOf(c, m - 1)
  {
  }

  lemma SizeStored(c: Client, block: int, src: seq<octet>, at: int)
    requires OffsetOf(c, block) == at && 0 <= at && at + |src| < TWO32
    ensures var c' := StoredBlock(c, block, src);
            c'.xferSize == (if c.xferSize < at + |src| then at + |src| else c.xferSize) && c'.done == c.done
            && c'.blkSize == c.blkSize
  {
    hide Written;
  }

  lemma AgainSize(p: Progress, size: int, src: seq<octet>)
    requires InStep(p, size)
    ensures var c' := AfterData(p.client, Number(p.n), src).0;
            c'.xferSize == p.client.xferSize && (c'.done <==> p.client.done)
  {
    hide Written;
  }

  lemma FirstStored(c: Client, src: seq<octet>)
    requires c.state != Receiving
    ensures AfterData(c, 1, src).0.memory == Written(c.memory, 0, src)
  {
    hide Written;
  }

  lemma NoneInPlace(memory: map<int, octet>, load: int -> seq<octet>, size: int)
    ensures InPlace(memory, load, size, 0)
  {
  }

  lemma StoreNext(memory: map<int, octet>, load: int -> seq<octet>, size: int, n: nat)
    requires InPlace(memory, load, size, n) && 0 < size && forall i | 1 <= i <= n + 1 :: |load(i)| <= size
    ensures InPlace(Written(memory, n * size, load(n + 1)), load, size, n + 1)
  {
    hide Written, BlockAt;
    forall i | 1 <= i <= n + 1
      ensures BlockAt(Written(memory, n * size, load(n + 1)), (i - 1) * size, load(i))
    {
      if i <= n {
        Times(i, n, size);
        assert (i - 1) * size + size == i * size;
      }
      BlockStays(memory, n * size, load(n + 1), (i - 1) * size, load(i));
    }
  }

  lemma BlockStays(memory: map<int, octet>, at': int, src': seq<octet>, at: int, src: seq<octet>)
    requires if at == at' then src == src' else BlockAt(memory, at, src) && at + |src| <= at'
    ensures BlockAt(Written(memory, at', src'), at, src)
  {
    hide Written;
    forall x | 0 <= x < |src|
      ensures Byte(Written(memory, at', src'), at + x, src[x])
    {
      WrittenAt(memory, at', src', at + x);
      if at != at' {
        ByteAt(memory, at, src, x);
      }
    }
  }

  predicate Byte(memory: map<int, octet>, a: int, v: octet) {
    a in memory && memory[a] == v
  }

  lemma ByteAt(memory: map<int, octet>, at: int, src: seq<octet>, x: int)
    requires BlockAt(memory, at, src) && 0 <= x < |src|
    ensures Byte(memory, at + x, src[x])
  {
  }
}
