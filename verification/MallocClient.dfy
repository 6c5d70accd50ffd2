/**
 Any program over the allocator: what it has written into its blocks it finds there again, whatever
 it allocates, frees and resizes in between.
 */
module MallocClient {
  import opened Common
  import opened Headers
  import opened Binning
  import opened Arena
  import opened Steps
  import opened Resizing
  import opened Malloc

  /** One call, or one store to word off of block k of the program's table. */
  datatype Op =
    | Alloc(bytes: int)
    | Free(k: int)
    | Resize(k: int, bytes: int)
    | Align(log: nat, bytes: int)
    | Trim(pad: int)
    | Store(k: int, off: int, v: int)

  /** What the program knows of a block: the chunk (its own pointer is 8 above), the size it has asked for,
      and the words it has written. */
  datatype Entry = Entry(chunk: int, bytes: int, words: map<int, int>)

  ghost predicate WordsIn(e: Entry) {
    forall off | off in e.words :: 0 <= off && off + 4 <= e.bytes && off % 4 == 0
  }

  ghost predicate WordsAre(m: Memory, chunk: int, words: map<int, int>) {
    forall off, a | off in words && a == chunk + FD + off :: Rd(m, a) == words[off]
  }

  /** The block is in use, is large enough, and holds what has been written. */
  ghost predicate Holds(e: Entry, blocks: map<int, int>, m: Memory) {
    e.chunk in blocks && e.bytes + 4 <= blocks[e.chunk] && WordsIn(e) && WordsAre(m, e.chunk, e.words)
  }

  ghost predicate AllHold(table: seq<Entry>, blocks: map<int, int>, m: Memory) {
    forall i | 0 <= i < |table| :: Holds(table[i], blocks, m)
  }

  function ChunksOf(table: seq<Entry>): seq<int> {
    seq(|table|, i requires 0 <= i < |table| => table[i].chunk)
  }

  /** No block is in the table twice, and all blocks in use are in it. */
  ghost predicate Owned(chunks: seq<int>, blocks: map<int, int>) {
    && (forall i, j | 0 <= i < j < |chunks| :: chunks[i] != chunks[j])
    && (forall p | p in blocks :: p in chunks)
  }

  /** The program's table is what the allocator has handed out. */
  ghost predicate Agrees(table: seq<Entry>, blocks: map<int, int>, m: Memory) {
    AllHold(table, blocks, m) && Owned(ChunksOf(table), blocks)
  }

  function Dropped<T>(s: seq<T>, k: int): seq<T>
    requires 0 <= k < |s|
  {
    s[..k] + s[k + 1..]
  }

  /** The words of a block that are still in it when it has been resized. */
  function Within(words: map<int, int>, bytes: int): map<int, int> {
    map off | off in words && off + 4 <= bytes :: words[off]
  }

  /** Blocks that are not touched keep what they hold. */
  lemma HoldsStill(e: Entry, blocks: map<int, int>, m: Memory, blocks': map<int, int>, m': Memory, keep: map<int, int>)
    requires Holds(e, blocks, m) && SameData(m, m', keep) && e.chunk in keep && keep[e.chunk] == blocks[e.chunk]
    requires e.chunk in blocks' && blocks'[e.chunk] == blocks[e.chunk]
    ensures Holds(e, blocks', m')
  {
  }

  lemma DroppedAt<T>(s: seq<T>, k: int, i: int)
    requires 0 <= k < |s| && 0 <= i < |s| - 1
    ensures |Dropped(s, k)| == |s| - 1 && Dropped(s, k)[i] == s[if i < k then i else i + 1]
  {
  }

  lemma OwnedChunk(table: seq<Entry>, blocks: map<int, int>, i: int, j: int)
    requires Owned(ChunksOf(table), blocks) && 0 <= i < |table| && 0 <= j < |table| && i != j
    ensures table[i].chunk != table[j].chunk
  {
    assert ChunksOf(table)[i] == table[i].chunk && ChunksOf(table)[j] == table[j].chunk;
  }

  lemma OwnedPlus(chunks: seq<int>, blocks: map<int, int>, p: int, size: int)
    requires Owned(chunks, blocks) && p !in chunks
    ensures Owned(chunks + [p], blocks[p := size])
  {
  }

  lemma OwnedMinus(chunks: seq<int>, blocks: map<int, int>, k: int)
    requires Owned(chunks, blocks) && 0 <= k < |chunks|
    ensures Owned(Dropped(chunks, k), blocks - {chunks[k]})
  {
    var c := Dropped(chunks, k);
    forall p | p in blocks - {chunks[k]}
      ensures p in c
    {
      var i :| 0 <= i < |chunks| && chunks[i] == p;
      DroppedAt(chunks, k, if i < k then i else i - 1);
    }
  }

  /** Nothing but the bookkeeping has changed. */
  lemma Unchanged(table: seq<Entry>, blocks: map<int, int>, m: Memory, m': Memory)
    requires Agrees(table, blocks, m) && SameData(m, m', blocks)
    ensures Agrees(table, blocks, m')
  {
    hide SameData, Owned, Holds;
    forall i | 0 <= i < |table|
      ensures Holds(table[i], blocks, m')
    {
      InBlocks(table[i], blocks, m);
      HoldsStill(table[i], blocks, m, blocks, m', blocks);
    }
  }

  lemma InBlocks(e: Entry, blocks: map<int, int>, m: Memory)
    requires Holds(e, blocks, m)
    ensures e.chunk in blocks && e.bytes + 4 <= blocks[e.chunk]
  {
  }

  /** A block that was not in the table joins it. */
  lemma Added(table: seq<Entry>, blocks: map<int, int>, m: Memory, e: Entry, size: int)
    requires Agrees(table, blocks, m) && e.chunk !in blocks && e.bytes + 4 <= size && WordsIn(e)
             && WordsAre(m, e.chunk, e.words)
    ensures Agrees(table + [e], blocks[e.chunk := size], m)
  {
    hide Owned, WordsAre, WordsIn;
    var t', b' := table + [e], blocks[e.chunk := size];
    OwnedPlus(ChunksOf(table), blocks, e.chunk, size);
    assert ChunksOf(t') == ChunksOf(table) + [e.chunk];
    forall i | 0 <= i < |t'|
      ensures Holds(t'[i], b', m)
    {
      if i < |table| {
        InBlocks(table[i], blocks, m);
      }
    }
  }

  /** A block leaves the table. */
  lemma Removed(table: seq<Entry>, blocks: map<int, int>, m: Memory, m': Memory, k: int)
    requires Agrees(table, blocks, m) && 0 <= k < |table| && SameData(m, m', blocks - {table[k].chunk})
    ensures Agrees(Dropped(table, k), blocks - {table[k].chunk}, m')
  {
    hide SameData, Owned, Holds, Dropped;
    var t', b' := Dropped(table, k), blocks - {table[k].chunk};
    DroppedChunks(table, k);
    OwnedMinus(ChunksOf(table), blocks, k);
    DroppedLength(table, k);
    forall i | 0 <= i < |t'|
      ensures Holds(t'[i], b', m')
    {
      DroppedAt(table, k, i);
      var j := if i < k then i else i + 1;
      InBlocks(table[j], blocks, m);
      OwnedChunk(table, blocks, j, k);
      HoldsStill(table[j], blocks, m, b', m', b');
    }
  }

  lemma DroppedLength<T>(s: seq<T>, k: int)
    requires 0 <= k < |s|
    ensures |Dropped(s, k)| == |s| - 1
  {
  }

  lemma DroppedChunks(table: seq<Entry>, k: int)
    requires 0 <= k < |table|
    ensures ChunksOf(Dropped(table, k)) == Dropped(ChunksOf(table), k) && ChunksOf(table)[k] == table[k].chunk
            && |ChunksOf(table)| == |table|
  {
  }

  /** The resized block holds what still fits. */
  lemma ResizedHolds(e: Entry, blocks: map<int, int>, m: Memory, m': Memory, q: int, bytes: int, nb: int)
    requires Holds(e, blocks, m) && bytes + 4 <= nb
    requires Moved(m, e.chunk, m', q, Min(blocks[e.chunk], nb))
    ensures WordsAre(m', q, Within(e.words, bytes)) && WordsIn(Entry(q, bytes, Within(e.words, bytes)))
  {
    forall off, a | off in Within(e.words, bytes) && a == q + FD + off
      ensures Rd(m', a) == e.words[off]
    {
      assert Rd(m', a) == Rd(m, a - q + e.chunk);
    }
  }

  lemma Replaced(table: seq<Entry>, blocks: map<int, int>, m: Memory, m': Memory, k: int, q: int, bytes: int, size: int,
                 nb: int)
    requires Agrees(table, blocks, m) && 0 <= k < |table| && bytes + 4 <= nb <= size
    requires table[k].chunk in blocks && SameData(m, m', blocks - {table[k].chunk}) && q !in blocks - {table[k].chunk}
    requires Moved(m, table[k].chunk, m', q, Min(blocks[table[k].chunk], nb))
    ensures Agrees(Dropped(table, k) + [Entry(q, bytes, Within(table[k].words, bytes))],
            (blocks - {table[k].chunk})[q := size], m')
  {
    hide SameData, Moved, Agrees, Holds, WordsAre, WordsIn;
    EntryIn(table, blocks, m, k);
    ResizedHolds(table[k], blocks, m, m', q, bytes, nb);
    Removed(table, blocks, m, m', k);
    Added(Dropped(table, k), blocks - {table[k].chunk}, m', Entry(q, bytes, Within(table[k].words, bytes)), size);
  }

  /** A store changes one word of one block. */
  lemma Stored(table: seq<Entry>, blocks: map<int, int>, m: Memory, m': Memory, k: int, off: int, v: int)
    requires Agrees(table, blocks, m) && 0 <= k < |table| && 0 <= off && off + 4 <= table[k].bytes && off % 4 == 0
    requires m' == m[table[k].chunk + FD + off := v] && SameData(m, m', blocks - {table[k].chunk})
    ensures Agrees(table[k := table[k].(words := table[k].words[off := v])], blocks, m')
  {
    hide SameData, Owned, Holds;
    var e' := table[k].(words := table[k].words[off := v]);
    var t' := table[k := e'];
    assert ChunksOf(t') == ChunksOf(table);
    StoredHolds(table[k], blocks, m, m', off, v);
    forall i | 0 <= i < |t'|
      ensures Holds(t'[i], blocks, m')
    {
      if i != k {
        InBlocks(table[i], blocks, m);
        OwnedChunk(table, blocks, i, k);
        HoldsStill(table[i], blocks, m, blocks, m', blocks - {table[k].chunk});
      }
    }
  }

  lemma StoredHolds(e: Entry, blocks: map<int, int>, m: Memory, m': Memory, off: int, v: int)
    requires Holds(e, blocks, m) && 0 <= off && off + 4 <= e.bytes && off % 4 == 0 && m' == m[e.chunk + FD + off := v]
    ensures Holds(e.(words := e.words[off := v]), blocks, m')
  {
    var w := e.words[off := v];
    forall o, a | o in w && a == e.chunk + FD + o
      ensures Rd(m', a) == w[o]
    {
      assert o != off ==> Rd(m', a) == Rd(m, a);
    }
  }

  lemma EntryIn(table: seq<Entry>, blocks: map<int, int>, m: Memory, k: int)
    requires Agrees(table, blocks, m) && 0 <= k < |table|
    ensures table[k].chunk in blocks && table[k].bytes + 4 <= blocks[table[k].chunk] && Holds(table[k], blocks, m)
  {
    hide Owned;
    assert Holds(table[k], blocks, m);
  }

  lemma NewEntry(table: seq<Entry>, blocks: map<int, int>, m: Memory, m': Memory, p: int, bytes: int, size: int)
    requires Agrees(table, blocks, m) && SameData(m, m', blocks) && p !in blocks && bytes + 4 <= size
    ensures Agrees(table + [Entry(p, bytes, map[])], blocks[p := size], m')
  {
    hide Agrees, SameData;
    Unchanged(table, blocks, m, m');
    Added(table, blocks, m', Entry(p, bytes, map[]), size);
  }

  /** The program keeps to the rules of the interface. */
  predicate Legal(op: Op, blocks: int) {
    match op
    case Alloc(bytes) => Servable(bytes)
    case Free(k) => 0 <= k < blocks
    case Resize(k, bytes) => 0 <= k < blocks && Servable(bytes)
    case Align(log, bytes) => log < 31 && Servable(bytes) && (bytes < SIGN ==> bytes + Power(log) + 64 + PAGE <= SIGN)
    case Trim(pad) => 0 <= pad <= SIGN - PAGE
    case Store(k, off, v) => 0 <= k < blocks && 0 <= off && off % 4 == 0
  }

  ghost predicate OneMore(table: seq<Entry>, table': seq<Entry>, bytes: int, words: map<int, int>) {
    |table'| == |table| + 1 && table' == table + [Entry(table'[|table|].chunk, bytes, words)]
  }

  /** What the program has in its table, and how things stood in the allocator. */
  datatype View = View(table: seq<Entry>, heap: Ghost, brk: int)

  ghost function Seen(a: Allocator, table: seq<Entry>): View
    reads a
  {
    View(table, a.g, a.brk)
  }

  /** A request is refused only if it is negative as a signed number, or nothing fits and memory is exhausted. */
  ghost predicate Refused(v: View, limit: int, bytes: int, nb: int) {
    SIGN <= bytes || Exhausted(v.heap, limit, v.brk, nb)
  }

  /** What a call does to the program's table; if a request is refused, nothing changes. */
  ghost predicate Outcome(op: Op, limit: int, v: View, table': seq<Entry>) {
    var table := v.table;
    if !Legal(op, |table|) then table' == table
    else match op
      case Alloc(bytes) =>
        (table' == table && Refused(v, limit, bytes, Request2Size(bytes))) || OneMore(table, table', bytes, map[])
      case Free(k) => table' == Dropped(table, k)
      case Resize(k, bytes) =>
        (table' == table && Refused(v, limit, bytes, Request2Size(bytes)))
        || OneMore(Dropped(table, k), table', bytes, Within(table[k].words, bytes))
      case Align(log, bytes) =>
        (table' == table && (SIGN <= bytes || Refused(v, limit, bytes, AlignedSize(Power(log), bytes))))
        || (OneMore(table, table', bytes, map[]) && (table'[|table|].chunk + FD) % Power(log) == 0)
      case Trim(pad) => table' == table
      case Store(k, off, v) =>
        table' == if off + 4 <= table[k].bytes then table[k := table[k].(words := table[k].words[off := v])] else table
  }

  /** One step of the program; a step that would break the rules of the interface is left out. */
  method Step(a: Allocator, op: Op, table: seq<Entry>) returns (table': seq<Entry>)
    requires a.Valid() && a.memStart != 0 && Agrees(table, a.InUse(), a.mem)
    modifies a
    ensures a.Valid() && a.memStart != 0 && Agrees(table', a.InUse(), a.mem) && a.memEnd == old(a.memEnd)
    ensures Outcome(op, a.memEnd, old(Seen(a, table)), table')
  {
    hide Agrees, Outcome, Legal;
    if !Legal(op, |table|) {
      LeftOut(op, a.memEnd, Seen(a, table));
      return table;
    }
    match op
    case Alloc(bytes) => table' := AllocStep(a, bytes, table);
    case Free(k) => table' := FreeStep(a, k, table);
    case Resize(k, bytes) => table' := ResizeStep(a, k, bytes, table);
    case Align(log, bytes) => table' := AlignStep(a, log, bytes, table);
    case Trim(pad) => table' := TrimStep(a, pad, table);
    case Store(k, off, v) => table' := StoreStep(a, k, off, v, table);
  }

  lemma LeftOut(op: Op, limit: int, v: View)
    requires !Legal(op, |v.table|)
    ensures Outcome(op, limit, v, v.table)
  {
  }

  method FreeStep(a: Allocator, k: int, table: seq<Entry>) returns (table': seq<Entry>)
    requires a.Valid() && a.memStart != 0 && Agrees(table, a.InUse(), a.mem) && Legal(Free(k), |table|)
    modifies a
    ensures a.Valid() && a.memStart != 0 && Agrees(table', a.InUse(), a.mem) && a.memEnd == old(a.memEnd)
    ensures Outcome(Free(k), a.memEnd, old(Seen(a, table)), table')
  {
    hide Agrees, SameData, Dropped;
    ghost var m, b := a.mem, a.InUse();
    EntryIn(table, b, m, k);
    a.BlockInHeap(table[k].chunk);
    a.FreeBlock(table[k].chunk + FD);
    Removed(table, b, m, a.mem, k);
    table' := Dropped(table, k);
  }

  method StoreStep(a: Allocator, k: int, off: int, v: int, table: seq<Entry>) returns (table': seq<Entry>)
    requires a.Valid() && a.memStart != 0 && Agrees(table, a.InUse(), a.mem) && Legal(Store(k, off, v), |table|)
    modifies a
    ensures a.Valid() && a.memStart != 0 && Agrees(table', a.InUse(), a.mem) && a.memEnd == old(a.memEnd)
    ensures Outcome(Store(k, off, v), a.memEnd, old(Seen(a, table)), table')
  {
    hide Agrees, SameData, Blocks, Fresh, Heap;
    if table[k].bytes < off + 4 {
      return table;
    }
    ghost var m, b := a.mem, a.InUse();
    EntryIn(table, b, m, k);
    a.WriteWord(table[k].chunk, table[k].chunk + FD + off, v);
    Stored(table, b, m, a.mem, k, off, v);
    table' := table[k := table[k].(words := table[k].words[off := v])];
  }

  method TrimStep(a: Allocator, pad: int, table: seq<Entry>) returns (table': seq<Entry>)
    requires a.Valid() && a.memStart != 0 && Agrees(table, a.InUse(), a.mem) && Legal(Trim(pad), |table|)
    modifies a
    ensures a.Valid() && a.memStart != 0 && Agrees(table', a.InUse(), a.mem) && a.memEnd == old(a.memEnd)
    ensures Outcome(Trim(pad), a.memEnd, old(Seen(a, table)), table')
  {
    hide Agrees, SameData;
    ghost var m, b := a.mem, a.InUse();
    a.SmallPad(pad);
    var released := a.TrimTop(pad);
    Unchanged(table, b, m, a.mem);
    table' := table;
  }

  method AllocStep(a: Allocator, bytes: int, table: seq<Entry>) returns (table': seq<Entry>)
    requires a.Valid() && a.memStart != 0 && Agrees(table, a.InUse(), a.mem) && Legal(Alloc(bytes), |table|)
    modifies a
    ensures a.Valid() && a.memStart != 0 && Agrees(table', a.InUse(), a.mem) && a.memEnd == old(a.memEnd)
    ensures Outcome(Alloc(bytes), a.memEnd, old(Seen(a, table)), table')
  {
    hide Agrees, SameData, Chosen, Exhausted, Request2Size, Blocks, Fresh, Heap, Servable;
    table' := table;
    ghost var m, b := a.mem, a.InUse();
    var r := a.Malloc(bytes);
    if r == NULL {
      Unchanged(table, b, m, a.mem);
    } else {
      NewEntry(table, b, m, a.mem, r - FD, bytes, a.InUse()[r - FD]);
      table' := table + [Entry(r - FD, bytes, map[])];
    }
  }

  method ResizeStep(a: Allocator, k: int, bytes: int, table: seq<Entry>) returns (table': seq<Entry>)
    requires a.Valid() && a.memStart != 0 && Agrees(table, a.InUse(), a.mem) && Legal(Resize(k, bytes), |table|)
    modifies a
    ensures a.Valid() && a.memStart != 0 && Agrees(table', a.InUse(), a.mem) && a.memEnd == old(a.memEnd)
    ensures Outcome(Resize(k, bytes), a.memEnd, old(Seen(a, table)), table')
  {
    hide Agrees, SameData, Chosen, Exhausted, Moved, Dropped, Request2Size, Within, Min, Blocks, Fresh, Heap;
    table' := table;
    ghost var m, b := a.mem, a.InUse();
    EntryIn(table, b, m, k);
    a.BlockInHeap(table[k].chunk);
    var r := a.ReallocBlock(table[k].chunk + FD, bytes);
    if r == NULL {
      Unchanged(table, b, m, a.mem);
    } else {
      Request2SizeFits(bytes);
      Replaced(table, b, m, a.mem, k, r - FD, bytes, a.InUse()[r - FD], Request2Size(bytes));
      table' := Dropped(table, k) + [Entry(r - FD, bytes, Within(table[k].words, bytes))];
    }
  }

  method AlignStep(a: Allocator, log: nat, bytes: int, table: seq<Entry>) returns (table': seq<Entry>)
    requires a.Valid() && a.memStart != 0 && Agrees(table, a.InUse(), a.mem) && Legal(Align(log, bytes), |table|)
    modifies a
    ensures a.Valid() && a.memStart != 0 && Agrees(table', a.InUse(), a.mem) && a.memEnd == old(a.memEnd)
    ensures Outcome(Align(log, bytes), a.memEnd, old(Seen(a, table)), table')
  {
    hide Agrees, SameData, Power, Exhausted, AlignedSize, PowerOfTwo, Servable, Blocks;
    table' := table;
    ghost var m, b := a.mem, a.InUse();
    var alignment := Power(log);
    IsPower(log);
    var r := a.AlignedAlloc(alignment, bytes);
    if r == NULL {
      Unchanged(table, b, m, a.mem);
    } else {
      NewEntry(table, b, m, a.mem, r - FD, bytes, a.InUse()[r - FD]);
      table' := table + [Entry(r - FD, bytes, map[])];
      assert table'[|table|].chunk + FD == r;
    }
  }

  lemma IsPower(log: nat)
    ensures PowerOfTwo(Power(log))
  {
  }

  /** Every program: at any time every word of every block is what was last written there. */
  method Run(a: Allocator, program: seq<Op>) returns (table: seq<Entry>, ghost views: seq<View>)
    requires a.Valid() && a.memStart != 0 && a.InUse() == map[]
    modifies a
    ensures a.Valid() && Agrees(table, a.InUse(), a.mem) && a.memEnd == old(a.memEnd)
    ensures |views| == |program| + 1 && views[0] == old(Seen(a, [])) && views[|program|] == Seen(a, table)
    ensures forall i | 0 <= i < |program| :: Outcome(program[i], a.memEnd, views[i], views[i + 1].table)
  {
    hide Agrees, Outcome;
    table, views := [], [Seen(a, [])];
    NoneYet(a.mem);
    for n := 0 to |program|
      invariant a.Valid() && a.memStart != 0 && Agrees(table, a.InUse(), a.mem) && a.memEnd == old(a.memEnd)
      invariant |views| == n + 1 && views[0] == old(Seen(a, [])) && views[n] == Seen(a, table)
      invariant forall i | 0 <= i < n :: Outcome(program[i], a.memEnd, views[i], views[i + 1].table)
    {
      table := Step(a, program[n], table);
      views := views + [Seen(a, table)];
    }
  }

  lemma NoneYet(m: Memory)
    ensures Agrees([], map[], m)
  {
  }
}
