/**
 A whole transfer: the client against a lock-step server (sections 2 and 5 of RFC 1350) over a network
 that may lose, repeat and reorder packets. What has ever been sent may arrive at any time, any number of times.
 */
module TftpTransfer {
  import opened Common
  import opened Tftp

  /** The file to be sent, the block size, and whether the server answers with an OACK first that names the
      block size. */
  datatype Config = Config(file: seq<octet>, blkSize: int, oack: bool, named: bool, max: int)

  /** The block size is negotiated (RFC 2348), or it is the one of RFC 1350. */
  ghost predicate Sensible(f: Config) {
    && 8 <= f.blkSize <= 1468 && (!f.oack || !f.named ==> f.blkSize == DEFAULT_BLOCK_SIZE)
    && Blocks(f) <= 65535
  }

  /** An OACK may acknowledge other options alone. */
  function Answer(f: Config): Message {
    Oack(if f.named then Some(f.blkSize) else None)
  }

  /** The last block is the first one that is not full; it may be empty. */
  function Blocks(f: Config): int
    requires 8 <= f.blkSize
  {
    |f.file| / f.blkSize + 1
  }

  /** The payload of block n. */
  function Payload(f: Config, n: int): seq<octet>
    requires 8 <= f.blkSize && 1 <= n <= Blocks(f)
  {
    BlockEnds(f, n);
    f.file[(n - 1) * f.blkSize..EndOf(f, n)]
  }

  function EndOf(f: Config, n: int): int
    requires 8 <= f.blkSize
  {
    if n < Blocks(f) then n * f.blkSize else |f.file|
  }

  lemma BlockEnds(f: Config, n: int)
    requires 8 <= f.blkSize && 1 <= n <= Blocks(f)
    ensures 0 <= (n - 1) * f.blkSize <= EndOf(f, n) <= |f.file|
    ensures EndOf(f, n) - (n - 1) * f.blkSize < f.blkSize <==> n == Blocks(f)
    ensures n < Blocks(f) ==> EndOf(f, n) == (n - 1) * f.blkSize + f.blkSize
  {
    var q := |f.file| / f.blkSize;
    assert |f.file| == q * f.blkSize + |f.file| % f.blkSize;
    Times(n - 1, q, f.blkSize);
    if n < Blocks(f) {
      Times(n, q, f.blkSize);
      assert n * f.blkSize == (n - 1) * f.blkSize + f.blkSize;
    }
  }

  /** The client, the acknowledgements and requests it has sent, and the packets the server has sent. */
  datatype System = System(client: Client, asked: bool, acks: set<int>, oackSent: bool, blocks: set<int>)

  ghost predicate Init(s: System) {
    && (exists m, l, o :: s.client == Started(m, l, o)) && s.asked && s.acks == {} && !s.oackSent && s.blocks == {}
  }

  function Noted(s: System, c: Client, r: Option<Request>): System {
    match r
    case None => s.(client := c)
    case Some(Rrq) => s.(client := c, asked := true)
    case Some(Ack(n)) => s.(client := c, acks := s.acks + {n})
  }

  /** The steps of a transfer. The server sends a block only if the one before has been acknowledged. */
  datatype Step = ServerOack | ServerData(n: int) | GetOack | GetData(k: int) | TimesOut

  predicate Enabled(f: Config, s: System, e: Step)
    requires Sensible(f)
  {
    match e
    case ServerOack => f.oack && s.asked
    case ServerData(n) => 1 <= n <= Blocks(f) && if n == 1 && !f.oack then s.asked else n - 1 in s.acks
    case GetOack => s.oackSent && !s.client.done
    case GetData(k) => k in s.blocks && 1 <= k <= Blocks(f) && !s.client.done
    case TimesOut => !s.client.done
  }

  function Move(f: Config, s: System, e: Step): System
    requires Sensible(f) && Enabled(f, s, e)
  {
    match e
    case ServerOack => s.(oackSent := true)
    case ServerData(n) => s.(blocks := s.blocks + {n})
    case GetOack => var (c, r) := After(s.client, Answer(f)); Noted(s, c, r)
    case GetData(k) => var (c, r) := After(s.client, Data(k, Payload(f, k))); Noted(s, c, r)
    case TimesOut => var (c, r) := AfterTimeout(s.client, f.max); Noted(s, c, r)
  }

  /** An OACK that comes after the first DATA. */
  predicate LateOack(s: System, e: Step) {
    e == GetOack && s.client.state == Receiving
  }

  ghost predicate AnyNext(f: Config, s: System, s': System, e: Step)
    requires Sensible(f)
  {
    Enabled(f, s, e) && s' == Move(f, s, e)
  }

  ghost predicate Next(f: Config, s: System, s': System, e: Step)
    requires Sensible(f)
  {
    AnyNext(f, s, s', e) && !LateOack(s, e)
  }

  ghost predicate IsRun(f: Config, run: seq<System>, steps: seq<Step>)
    requires Sensible(f)
  {
    && |run| == |steps| + 1 && Init(run[0])
    && forall i | 0 <= i < |steps| :: AnyNext(f, run[i], run[i + 1], steps[i])
  }

  /** When the client reports success, the memory holds the file, and its length is right. */
  ghost predicate Correct(f: Config, c: Client) {
    c.done ==> c.xferSize == |f.file| && forall i | 0 <= i < |f.file| :: i in c.memory && c.memory[i] == f.file[i]
  }

  /** Block n of the file is where it belongs. */
  ghost predicate Stored(f: Config, memory: map<int, octet>, n: int)
    requires 8 <= f.blkSize
  {
    1 <= n <= Blocks(f) && forall i | (n - 1) * f.blkSize <= i < EndOf(f, n) && 0 <= i < |f.file| ::
          i in memory && memory[i] == f.file[i]
  }

  /** Only stored blocks are ever acknowledged. */
  ghost predicate Inv(f: Config, s: System)
    requires Sensible(f)
  {
    && (forall k | k in s.acks :: k == 0 || (k in s.blocks && Stored(f, s.client.memory, k)))
    && (forall k | k in s.blocks :: 1 <= k <= Blocks(f)) && Answered(f, s)
    && ClientInv(f, s)
  }

  /** A block is sent only after the one before has been acknowledged. */
  ghost predicate Answered(f: Config, s: System) {
    forall k, j | k in s.blocks && j == k - 1 :: (k == 1 && !f.oack) || j in s.acks
  }

  lemma AnsweredAt(f: Config, s: System, k: int)
    requires Answered(f, s) && k in s.blocks
    ensures (k == 1 && !f.oack) || k - 1 in s.acks
  {
    var j := k - 1;
    assert (k == 1 && !f.oack) || j in s.acks;
  }

  ghost predicate ClientInv(f: Config, s: System)
    requires Sensible(f)
  {
    var c := s.client;
    && 0 <= c.xferSize <= |f.file| && (s.oackSent ==> f.oack)
    && match c.state
       case SendRrq => c.block == 0 && c.xferSize == 0 && s.acks == {} && !c.done && c.blkSize == DEFAULT_BLOCK_SIZE
       case OptionsAcked => c.block == 0 && c.xferSize == 0 && s.acks <= {0} && !c.done && c.blkSize == f.blkSize
           && f.oack
       case Receiving =>
         c.wrapOffset == 0 && c.blkSize == f.blkSize && c.lastBlock == c.block && c.block in s.blocks
         && Stored(f, c.memory, c.block)
             && (c.done ==> Stored(f, c.memory, Blocks(f)) && c.xferSize == |f.file| && Blocks(f) in s.blocks)
  }

  lemma InitInv(f: Config, s: System)
    requires Sensible(f) && Init(s)
    ensures Inv(f, s)
  {
  }

  lemma NextInv(f: Config, s: System, s': System, e: Step)
    requires Sensible(f) && Inv(f, s) && Next(f, s, s', e)
    ensures Inv(f, s')
  {
    match e
    case ServerOack => ServerInv(f, s, s', e);
    case ServerData(n) => ServerInv(f, s, s', e);
    case GetOack => OackInv(f, s, s');
    case GetData(k) => DataInv(f, s, s', k);
    case TimesOut => TimeoutInv(f, s, s');
  }

  lemma ServerInv(f: Config, s: System, s': System, e: Step)
    requires Sensible(f) && Inv(f, s) && Next(f, s, s', e) && (e.ServerOack? || e.ServerData?)
    ensures Inv(f, s')
  {
    hide Stored;
  }

  lemma OackInv(f: Config, s: System, s': System)
    requires Sensible(f) && Inv(f, s) && Next(f, s, s', GetOack)
    ensures Inv(f, s')
  {
    hide Stored, AfterData;
  }

  lemma TimeoutInv(f: Config, s: System, s': System)
    requires Sensible(f) && Inv(f, s) && Next(f, s, s', TimesOut)
    ensures Inv(f, s')
  {
    hide Stored;
  }

  lemma DataInv(f: Config, s: System, s': System, k: int)
    requires Sensible(f) && Inv(f, s) && Next(f, s, s', GetData(k))
    ensures Inv(f, s')
  {
    hide Stored, After, AfterData, Payload, Taken, EndOf, Blocks;
    var c := s.client;
    FirstIsOne(f, s, k);
    DataResult(f, c, k);
    BlockEnds(f, k);
    LastEnds(f);
    if Repeated(c, k) {
      assert s' == s;
    } else {
      var c' := Taken(f, c, k);
      TakenFacts(f, c, k);
      assert s' == s.(client := c', acks := s.acks + {k});
      forall j | 1 <= j <= Blocks(f) && (j == k || Stored(f, c.memory, j))
        ensures Stored(f, c'.memory, j)
      {
        StoredWrite(f, c.memory, k, j);
      }
    }
  }

  /** A first block is block 1, and by then the client knows the block size. */
  lemma FirstIsOne(f: Config, s: System, k: int)
    requires Sensible(f) && Inv(f, s) && k in s.blocks && !s.client.done
    ensures 1 <= k <= Blocks(f) && s.client.blkSize == f.blkSize
    ensures s.client.state != Receiving ==> k == 1
    ensures s.client.state == Receiving ==> s.client.wrapOffset == 0
  {
    hide Stored, Blocks;
    AnsweredAt(f, s, k);
  }

  ghost predicate Repeated(c: Client, k: int) {
    c.state == Receiving && k == c.lastBlock
  }

  /** The client after it has taken block k. */
  ghost function Taken(f: Config, c: Client, k: int): Client
    requires 8 <= f.blkSize && 1 <= k <= Blocks(f)
  {
    c.(state := Receiving, block := k, lastBlock := k, wrapOffset := 0,
        memory := Written(c.memory, (k - 1) * f.blkSize, Payload(f, k)),
       xferSize := if c.xferSize < EndOf(f, k) then EndOf(f, k) else c.xferSize, done := k == Blocks(f) || c.done)
  }

  lemma TakenFacts(f: Config, c: Client, k: int)
    requires Sensible(f) && 1 <= k <= Blocks(f)
    ensures var c' := Taken(f, c, k);
            c'.state == Receiving && c'.block == c'.lastBlock == k && c'.wrapOffset == 0 && c'.blkSize == c.blkSize
            && c'.memory == Written(c.memory, (k - 1) * f.blkSize, Payload(f, k))
            && c'.xferSize == (if c.xferSize < EndOf(f, k) then EndOf(f, k) else c.xferSize)
                && (c'.done <==> k == Blocks(f) || c.done)
  {
  }

  lemma LastEnds(f: Config)
    requires Sensible(f)
    ensures EndOf(f, Blocks(f)) == |f.file|
  {
  }

  lemma DataResult(f: Config, c: Client, k: int)
    requires Sensible(f) && 1 <= k <= Blocks(f) && c.blkSize == f.blkSize && !c.done
    requires (c.state != Receiving ==> k == 1) && (c.state == Receiving ==> c.wrapOffset == 0)
    ensures After(c, Data(k, Payload(f, k)))
            == if Repeated(c, k) then (c.(block := k), None) else (Taken(f, c, k), Some(Ack(k)))
  {
    BlockEnds(f, k);
    OffsetFits(f, k);
    PayloadSize(f, k);
    hide Payload, Blocks, EndOf, StoredBlock;
    var c1 := BlockTaken(c, k);
    if !Repeated(c, k) {
      StoredAt(c1.(lastBlock := k), k - 1, Payload(f, k), (k - 1) * f.blkSize, EndOf(f, k));
    }
  }

  lemma PayloadSize(f: Config, k: int)
    requires 8 <= f.blkSize && 1 <= k <= Blocks(f)
    ensures |Payload(f, k)| == EndOf(f, k) - (k - 1) * f.blkSize
  {
    hide EndOf, Blocks;
    BlockEnds(f, k);
  }

  /** Without a wrap the block goes to its place. */
  lemma StoredAt(c: Client, block: int, src: seq<octet>, at: int, end: int)
    requires c.wrapOffset == 0 && at == block * c.blkSize && 0 <= at && end == at + |src| < TWO32
    ensures StoredBlock(c, block, src)
            == c.(memory := Written(c.memory, at, src), xferSize := if c.xferSize < end then end else c.xferSize)
  {
  }

  /** Offsets stay below 2^32. */
  lemma OffsetFits(f: Config, k: int)
    requires Sensible(f) && 1 <= k <= Blocks(f)
    ensures 0 <= (k - 1) * f.blkSize <= EndOf(f, k) < TWO32
  {
    BlockEnds(f, k);
    Times(Blocks(f), 65535, f.blkSize);
    var q := |f.file| / f.blkSize;
    assert |f.file| < Blocks(f) * f.blkSize by {
      assert |f.file| == q * f.blkSize + |f.file| % f.blkSize;
      assert Blocks(f) * f.blkSize == q * f.blkSize + f.blkSize;
    }
    assert 65535 * f.blkSize <= 65535 * 1468;
  }

  /** Storing block k puts it in its place and leaves the other blocks in theirs. */
  lemma StoredWrite(f: Config, memory: map<int, octet>, k: int, j: int)
    requires Sensible(f) && 1 <= k <= Blocks(f) && 1 <= j <= Blocks(f) && (j == k || Stored(f, memory, j))
    ensures Stored(f, Written(memory, (k - 1) * f.blkSize, Payload(f, k)), j)
  {
    BlockEnds(f, k);
    BlockEnds(f, j);
    hide Blocks, EndOf, Written;
    var at, src := (k - 1) * f.blkSize, Payload(f, k);
    forall i | (j - 1) * f.blkSize <= i < EndOf(f, j) && 0 <= i < |f.file|
      ensures i in Written(memory, at, src) && Written(memory, at, src)[i] == f.file[i]
    {
      WrittenAt(memory, at, src, i);
      if j == k {
        assert src[i - at] == f.file[i];
      } else if at <= i < at + |src| {
        assert src[i - at] == f.file[i];
      }
    }
  }

  /** Safety: in a state that satisfies the invariant, success means that the file is there. */
  lemma Safe(f: Config, s: System)
    requires Sensible(f) && Inv(f, s)
    ensures Correct(f, s.client)
  {
    hide EndOf, Blocks, Stored, Answered;
    if s.client.done {
      forall n | 1 <= n <= Blocks(f)
        ensures Stored(f, s.client.memory, n)
      {
        BlocksStored(f, s, n, Blocks(f));
      }
      FileHere(f, s.client.memory);
    }
  }

  lemma FileHere(f: Config, memory: map<int, octet>)
    requires Sensible(f) && forall n | 1 <= n <= Blocks(f) :: Stored(f, memory, n)
    ensures forall i | 0 <= i < |f.file| :: i in memory && memory[i] == f.file[i]
  {
    hide EndOf, Blocks, Stored;
    forall i | 0 <= i < |f.file|
      ensures i in memory && memory[i] == f.file[i]
    {
      BlockOf(f, i);
      StoredByte(f, memory, i / f.blkSize + 1, i);
    }
  }

  lemma StoredByte(f: Config, memory: map<int, octet>, n: int, i: int)
    requires 8 <= f.blkSize && Stored(f, memory, n) && 0 <= i < |f.file| && (n - 1) * f.blkSize <= i < EndOf(f, n)
    ensures i in memory && memory[i] == f.file[i]
  {
  }

  lemma BlockOf(f: Config, i: int)
    requires Sensible(f) && 0 <= i < |f.file|
    ensures var n := i / f.blkSize + 1; 1 <= n <= Blocks(f) && (n - 1) * f.blkSize <= i < EndOf(f, n)
  {
    QuotientBelow(i, |f.file|, f.blkSize);
  }

  lemma QuotientBelow(i: int, n: int, b: int)
    requires 0 <= i < n && 0 < b
    ensures 0 <= i / b <= n / b && i / b * b <= i < (i / b + 1) * b
  {
    var p, q, r, s := i / b, n / b, i % b, n % b;
    assert i == p * b + r && n == q * b + s;
    InOrder(i, n, b, p, q, r, s);
  }

  lemma InOrder(i: int, n: int, b: int, p: int, q: int, r: int, s: int)
    requires 0 <= i < n && 0 < b && i == p * b + r && n == q * b + s && 0 <= r < b && 0 <= s < b
    ensures 0 <= p <= q && p * b <= i < (p + 1) * b
  {
    assert (p + 1) * b == p * b + b;
    assert (-p - 1) * b == -((p + 1) * b);
    assert (p - q - 1) * b == p * b - q * b - b;
    if p < 0 {
      Times(0, -p - 1, b);
    }
    if q < p {
      Times(0, p - q - 1, b);
    }
  }

  /** If block k has been sent, all blocks before it have been stored. */
  lemma {:induction false} BlocksStored(f: Config, s: System, n: int, k: int)
    requires Sensible(f) && Inv(f, s) && k in s.blocks && 1 <= n <= k && (n == k ==> Stored(f, s.client.memory, k))
    ensures Stored(f, s.client.memory, n)
    decreases k
  {
    hide Stored, Blocks, EndOf;
    if k <= n {
    } else {
      AnsweredAt(f, s, k);
      BlocksStored(f, s, n, k - 1);
    }
  }

  /** All runs: whatever is lost, repeated or reordered, a success is a correct copy. */
  lemma {:induction false} EveryRun(f: Config, run: seq<System>, steps: seq<Step>)
    requires Sensible(f) && |run| == |steps| + 1 && Init(run[0])
    requires forall i | 0 <= i < |steps| :: Next(f, run[i], run[i + 1], steps[i])
    ensures Inv(f, run[|steps|]) && Correct(f, run[|steps|].client)
  {
    RunInv(f, run, steps, |steps|);
    Safe(f, run[|steps|]);
  }

  lemma {:induction false} RunInv(f: Config, run: seq<System>, steps: seq<Step>, n: nat)
    requires Sensible(f) && |run| == |steps| + 1 && Init(run[0]) && n <= |steps|
    requires forall i | 0 <= i < |steps| :: Next(f, run[i], run[i + 1], steps[i])
    ensures Inv(f, run[n])
  {
    hide Inv, Next;
    if n == 0 {
      InitInv(f, run[0]);
    } else {
      RunInv(f, run, steps, n - 1);
      NextInv(f, run[n - 1], run[n], steps[n - 1]);
    }
  }

  /** The same for the handler itself: it is driven through any list of steps; those that cannot happen are left out. */
  method Transfer(f: Config, steps: seq<Step>, memory: map<int, octet>, last: int, offset: int) returns (h: Handler)
    requires Sensible(f)
    ensures fresh(h) && Correct(f, h.Abs())
  {
    hide Inv, Started, After, AfterTimeout, Payload, Blocks;
    h := new Handler(memory, last, offset);
    var s := System(h.Abs(), true, {}, false, {});
    InitInv(f, s);
    for i := 0 to |steps|
      invariant fresh(h) && s.client == h.Abs() && Inv(f, s)
    {
      if Enabled(f, s, steps[i]) && !LateOack(s, steps[i]) {
        ghost var s0 := s;
        match steps[i] {
          case ServerOack =>
            s := s.(oackSent := true);
          case ServerData(n) =>
            s := s.(blocks := s.blocks + {n});
          case GetOack =>
            var r := h.Receive(Answer(f));
            s := Noted(s, h.Abs(), r);
          case GetData(k) =>
            var r := h.Receive(Data(k, Payload(f, k)));
            s := Noted(s, h.Abs(), r);
          case TimesOut =>
            var r := h.Timeout(f.max);
            s := Noted(s, h.Abs(), r);
        }
        NextInv(f, s0, s, steps[i]);
      }
    }
    Safe(f, s);
  }

  // An OACK after the first DATA.

  /** The client then drops the next block, but the next timeout acknowledges it, although it is not stored. */
  lemma LateOackLosesBlock(c: Client, b: int, n: int, p: seq<octet>, max: int)
    requires 1 < n < SEQUENCE_SIZE && c.timeouts < max
    ensures var c1 := After(c, Oack(Some(b))).0;
            var (c2, r) := After(c1, Data(n, p));
            r == None && c2.memory == c.memory && AfterTimeout(c2, max).1 == Some(Ack(n))
  {
  }

  /** With at most two blocks no unsafe acknowledgement matters: nothing is sent after the second block. */
  ghost predicate TwoInv(f: Config, s: System)
    requires Sensible(f)
  {
    var c := s.client;
    && (1 in s.acks || c.block != 0 ==> Stored(f, c.memory, 1))
    && (forall k | k in s.blocks :: 1 <= k <= Blocks(f)) && Answered(f, s) && 0 <= c.xferSize <= |f.file|
    && match c.state
       case SendRrq => s.acks == {} && !c.done && c.block == 0 && c.blkSize == DEFAULT_BLOCK_SIZE
       case OptionsAcked => !c.done && c.blkSize == f.blkSize
       case Receiving =>
         c.wrapOffset == 0 && c.blkSize == f.blkSize && c.block != 0
         && (c.done ==> Stored(f, c.memory, Blocks(f)) && c.xferSize == |f.file|)
  }

  lemma TwoNext(f: Config, s: System, s': System, e: Step)
    requires Sensible(f) && f.oack && Blocks(f) <= 2 && TwoInv(f, s) && AnyNext(f, s, s', e)
    ensures TwoInv(f, s')
  {
    hide Stored, Payload, Blocks, EndOf;
    if e.GetData? {
      TwoData(f, s, s', e.k);
    } else {
      hide AfterData;
    }
  }

  lemma TwoData(f: Config, s: System, s': System, k: int)
    requires Sensible(f) && f.oack && Blocks(f) <= 2 && TwoInv(f, s) && AnyNext(f, s, s', GetData(k))
    ensures TwoInv(f, s')
  {
    hide Stored, Payload, Taken, EndOf, Blocks, After, AfterData;
    var c := s.client;
    AnsweredAt(f, s, k);
    BlockEnds(f, k);
    LastEnds(f);
    if c.state != Receiving && k != 1 {
      Dropped(c, k, Payload(f, k));
    } else {
      DataResult(f, c, k);
      if !Repeated(c, k) {
        var c' := Taken(f, c, k);
        TakenFacts(f, c, k);
        forall j | 1 <= j <= Blocks(f) && (j == k || Stored(f, c.memory, j))
          ensures Stored(f, c'.memory, j)
        {
          StoredWrite(f, c.memory, k, j);
        }
      }
    }
  }

  /** A first block that is not block 1 is dropped, but the client remembers its number. */
  lemma Dropped(c: Client, k: int, p: seq<octet>)
    requires c.state != Receiving && 1 < k
    ensures After(c, Data(k, p)) == (c.(state := Receiving, block := k, lastBlock := 0, wrapOffset := 0), None)
  {
  }

  lemma {:induction false} TwoRun(f: Config, run: seq<System>, steps: seq<Step>, n: nat)
    requires Sensible(f) && f.oack && Blocks(f) <= 2 && IsRun(f, run, steps) && n <= |steps|
    ensures TwoInv(f, run[n])
  {
    hide TwoInv, AnyNext, Blocks;
    if n == 0 {
      TwoInit(f, run[0]);
    } else {
      TwoRun(f, run, steps, n - 1);
      TwoNext(f, run[n - 1], run[n], steps[n - 1]);
    }
  }

  lemma TwoInit(f: Config, s: System)
    requires Sensible(f) && Init(s)
    ensures TwoInv(f, s)
  {
  }

  lemma TwoSafe(f: Config, s: System)
    requires Sensible(f) && Blocks(f) <= 2 && TwoInv(f, s)
    ensures Correct(f, s.client)
  {
    hide Stored, Blocks, EndOf, Answered;
    if s.client.done {
      FileHere(f, s.client.memory);
    }
  }

  /** Block k has just been stored. */
  ghost predicate Going(f: Config, s: System, k: int)
    requires Sensible(f)
  {
    var c := s.client;
    && 1 <= k <= Blocks(f) && k in s.acks && (c.done <==> k == Blocks(f))
    && c.state == Receiving && c.block == c.lastBlock == k && c.wrapOffset == 0 && c.blkSize == f.blkSize
  }

  /** A run so far, and its last state; without late, no OACK has come after the first DATA. */
  ghost predicate Reaches(f: Config, run: seq<System>, steps: seq<Step>, s: System, late: bool)
    requires Sensible(f)
  {
    IsRun(f, run, steps) && run[|steps|] == s && (late || forall i | 0 <= i < |steps| :: !LateOack(run[i], steps[i]))
  }

  lemma Extend(f: Config, run: seq<System>, steps: seq<Step>, s: System, e: Step, late: bool)
    returns (run': seq<System>, steps': seq<Step>, s': System)
    requires Sensible(f) && Reaches(f, run, steps, s, late) && Enabled(f, s, e) && (late || !LateOack(s, e))
    ensures s' == Move(f, s, e) && Reaches(f, run', steps', s', late)
  {
    hide Enabled, Move, Sensible, Init, LateOack;
    s' := Move(f, s, e);
    run', steps' := run + [s'], steps + [e];
    forall i | 0 <= i < |steps'|
      ensures AnyNext(f, run'[i], run'[i + 1], steps'[i]) && (late || !LateOack(run'[i], steps'[i]))
    {
      if i < |steps| {
        assert AnyNext(f, run[i], run[i + 1], steps[i]);
        assert run'[i] == run[i] && steps'[i] == steps[i];
      }
    }
  }

  lemma TakesBlock(f: Config, s: System, k: int)
    requires Sensible(f) && Enabled(f, s, GetData(k)) && s.client.blkSize == f.blkSize
    requires if s.client.state == Receiving then s.client.wrapOffset == 0 && s.client.lastBlock != k else k == 1
    ensures Move(f, s, GetData(k)) == s.(client := Taken(f, s.client, k), acks := s.acks + {k})
  {
    hide EndOf, Blocks, After, AfterData;
    DataResult(f, s.client, k);
  }

  /** No other block touches the first byte of block 2. */
  lemma Untouched(f: Config, c: Client, k: int)
    requires Sensible(f) && 1 <= k <= Blocks(f) && k != 2 && f.blkSize !in c.memory
    ensures f.blkSize !in Taken(f, c, k).memory
  {
    hide EndOf, Blocks;
    BlockEnds(f, k);
    WrittenAt(c.memory, (k - 1) * f.blkSize, Payload(f, k), f.blkSize);
    if 3 <= k {
      Times(2, k - 1, f.blkSize);
    }
  }

  lemma OackMove(f: Config, s: System)
    requires Sensible(f) && Enabled(f, s, GetOack) && (f.named || s.client.blkSize == f.blkSize)
    ensures Move(f, s, GetOack)
            == s.(client := s.client.(state := OptionsAcked, blkSize := f.blkSize), acks := s.acks + {s.client.block})
  {
  }

  lemma DropMove(f: Config, s: System, k: int)
    requires Sensible(f) && Enabled(f, s, GetData(k)) && s.client.state != Receiving && 1 < k
    ensures Move(f, s, GetData(k))
            == s.(client := s.client.(state := Receiving, block := k, lastBlock := 0, wrapOffset := 0))
  {
    hide After, AfterData;
    Dropped(s.client, k, Payload(f, k));
  }

  lemma ServerMoves(f: Config, s: System, e: Step)
    requires Sensible(f) && Enabled(f, s, e) && (e.ServerOack? || e.ServerData?)
    ensures Move(f, s, e) == if e.ServerOack? then s.(oackSent := true) else s.(blocks := s.blocks + {e.n})
  {
  }

  /** The first block arrives as it should. */
  lemma FirstBlock(f: Config, late: bool) returns (run: seq<System>, steps: seq<Step>, s: System)
    requires Sensible(f)
    ensures Reaches(f, run, steps, s, late) && Going(f, s, 1) && s.oackSent == f.oack
    ensures 1 < Blocks(f) ==> f.blkSize !in s.client.memory
  {
    hide Payload, EndOf, Blocks, After, AfterData, Taken, Reaches, Move;
    s := System(Started(map[], 0, 0), true, {}, false, {});
    run, steps := [s], [];
    Begins(f, s, late);
    if f.oack {
      ServerMoves(f, s, ServerOack);
      run, steps, s := Extend(f, run, steps, s, ServerOack, late);
      OackMove(f, s);
      run, steps, s := Extend(f, run, steps, s, GetOack, late);
    }
    OneBlock(f);
    ServerMoves(f, s, ServerData(1));
    run, steps, s := Extend(f, run, steps, s, ServerData(1), late);
    TakesBlock(f, s, 1);
    Untouched(f, s.client, 1);
    TakenFacts(f, s.client, 1);
    run, steps, s := Extend(f, run, steps, s, GetData(1), late);
  }

  /** Then one block after the other. */
  lemma {:induction false} GoOn(f: Config, run0: seq<System>, steps0: seq<Step>, s0: System, k: int, late: bool,
                                lost: bool)
    returns (run: seq<System>, steps: seq<Step>, s: System)
    requires Sensible(f) && Reaches(f, run0, steps0, s0, late) && Going(f, s0, k)
    requires lost ==> 2 < k && f.blkSize !in s0.client.memory
    ensures Reaches(f, run, steps, s, late) && Going(f, s, Blocks(f)) && (lost ==> f.blkSize !in s.client.memory)
    decreases Blocks(f) - k
  {
    hide Payload, EndOf, Blocks, After, AfterData, Taken, Reaches, Move;
    if k == Blocks(f) {
      run, steps, s := run0, steps0, s0;
    } else {
      ServerMoves(f, s0, ServerData(k + 1));
      run, steps, s := Extend(f, run0, steps0, s0, ServerData(k + 1), late);
      TakesBlock(f, s, k + 1);
      TakenFacts(f, s.client, k + 1);
      if lost {
        Untouched(f, s.client, k + 1);
      }
      run, steps, s := Extend(f, run, steps, s, GetData(k + 1), late);
      run, steps, s := GoOn(f, run, steps, s, k + 1, late, lost);
    }
  }

  /** Every transfer can succeed, so that its safety is not for want of success. */
  lemma Completes(f: Config) returns (run: seq<System>, steps: seq<Step>)
    requires Sensible(f)
    ensures |run| == |steps| + 1 && Init(run[0]) && forall i | 0 <= i < |steps| :: Next(f, run[i], run[i + 1], steps[i])
    ensures run[|steps|].client.done && Correct(f, run[|steps|].client)
  {
    hide AnyNext, Correct, Blocks, EndOf;
    var s;
    run, steps, s := FirstBlock(f, false);
    run, steps, s := GoOn(f, run, steps, s, 1, false, false);
    EveryRun(f, run, steps);
  }

  lemma Begins(f: Config, s: System, late: bool)
    requires Sensible(f) && Init(s)
    ensures Reaches(f, [s], [], s, late)
  {
  }

  lemma OneBlock(f: Config)
    requires Sensible(f)
    ensures 1 <= Blocks(f)
  {
    Quotient(|f.file|, f.blkSize);
  }

  /** Two late OACKs make the client acknowledge block 2 without storing it. */
  lemma SkipSecond(f: Config) returns (run: seq<System>, steps: seq<Step>, s: System)
    requires Sensible(f) && f.oack && 3 <= Blocks(f)
    ensures Reaches(f, run, steps, s, true) && Going(f, s, 3) && f.blkSize !in s.client.memory
  {
    hide Payload, EndOf, Blocks, After, AfterData, Taken, Reaches, Move;
    run, steps, s := FirstBlock(f, true);
    ServerMoves(f, s, ServerData(2));
    run, steps, s := Extend(f, run, steps, s, ServerData(2), true);
    OackMove(f, s);
    run, steps, s := Extend(f, run, steps, s, GetOack, true);
    DropMove(f, s, 2);
    run, steps, s := Extend(f, run, steps, s, GetData(2), true);
    OackMove(f, s);
    run, steps, s := Extend(f, run, steps, s, GetOack, true);
    run, steps, s := SkipThird(f, run, steps, s);
  }

  /** Block 3 is dropped, and stored when it is repeated. */
  lemma SkipThird(f: Config, run0: seq<System>, steps0: seq<Step>, s0: System)
    returns (run: seq<System>, steps: seq<Step>, s: System)
    requires Sensible(f) && 3 <= Blocks(f) && Reaches(f, run0, steps0, s0, true) && f.blkSize !in s0.client.memory
    requires s0.client.state == OptionsAcked && !s0.client.done && 2 in s0.acks && s0.client.blkSize == f.blkSize
    ensures Reaches(f, run, steps, s, true) && Going(f, s, 3) && f.blkSize !in s.client.memory
  {
    hide Payload, EndOf, Blocks, After, AfterData, Taken, Reaches, Move;
    ServerMoves(f, s0, ServerData(3));
    run, steps, s := Extend(f, run0, steps0, s0, ServerData(3), true);
    DropMove(f, s, 3);
    run, steps, s := Extend(f, run, steps, s, GetData(3), true);
    TakesBlock(f, s, 3);
    TakenFacts(f, s.client, 3);
    Untouched(f, s.client, 3);
    run, steps, s := Extend(f, run, steps, s, GetData(3), true);
  }

  /** Every file of three or more blocks can be reported as complete without its second block. */
  lemma LateOackIsUnsafe(f: Config) returns (run: seq<System>, steps: seq<Step>)
    requires Sensible(f) && f.oack && 3 <= Blocks(f)
    ensures IsRun(f, run, steps)
    ensures var c := run[|steps|].client; c.done && f.blkSize < |f.file| && f.blkSize !in c.memory && !Correct(f, c)
  {
    hide EndOf, IsRun;
    var s;
    run, steps, s := SkipSecond(f);
    run, steps, s := GoOn(f, run, steps, s, 3, true, true);
    SecondBegins(f);
  }

  lemma SecondBegins(f: Config)
    requires 8 <= f.blkSize && 3 <= Blocks(f)
    ensures f.blkSize < |f.file|
  {
    BlockEnds(f, 2);
    BlockEnds(f, 3);
  }

  /** Late OACKs are harmless exactly if the server sends none, or the file has at most two blocks. */
  lemma LateOackExact(f: Config)
    requires Sensible(f)
    ensures (forall run: seq<System>, steps: seq<Step> | IsRun(f, run, steps) :: Correct(f, run[|steps|].client)) <==>
              !f.oack || Blocks(f) <= 2
  {
    hide Correct, Blocks, Init;
    if !f.oack || Blocks(f) <= 2 {
      forall run: seq<System>, steps: seq<Step> | IsRun(f, run, steps)
        ensures Correct(f, run[|steps|].client)
      {
        if f.oack {
          TwoRun(f, run, steps, |steps|);
          TwoSafe(f, run[|steps|]);
        } else {
          PlainRun(f, run, steps, |steps|);
          Safe(f, run[|steps|]);
        }
      }
    } else {
      var run, steps := LateOackIsUnsafe(f);
    }
  }

  /** A server that does not negotiate sends no OACK at all. */
  lemma {:induction false} PlainRun(f: Config, run: seq<System>, steps: seq<Step>, n: nat)
    requires Sensible(f) && !f.oack && IsRun(f, run, steps) && n <= |steps|
    ensures Inv(f, run[n])
  {
    hide AnyNext, Blocks, Answered, Stored, Init;
    if n == 0 {
      InitInv(f, run[0]);
    } else {
      PlainRun(f, run, steps, n - 1);
      NoOack(f, run[n - 1], steps[n - 1], run[n]);
      NextInv(f, run[n - 1], run[n], steps[n - 1]);
    }
  }

  lemma NoOack(f: Config, s: System, e: Step, s': System)
    requires Sensible(f) && !f.oack && Inv(f, s) && AnyNext(f, s, s', e)
    ensures Next(f, s, s', e)
  {
    hide Blocks, Stored, Move, Answered;
  }
}
