/**
 The TFTP client of net/tftp.c, for read requests: what a packet or a timeout does to its globals and
 to the memory at load_addr, and what it sends.
 */
module Tftp {
  import opened Common

  const SEQUENCE_SIZE := 0x1_0000
  const DEFAULT_BLOCK_SIZE := 512

  /** STATE_SEND_RRQ, STATE_OACK and STATE_DATA. */
  datatype State = SendRrq | OptionsAcked | Receiving

  /** What the server sends; an OACK may leave out the block size. */
  datatype Message = Oack(blkSize: Option<int>) | Data(block: int, payload: seq<octet>)

  datatype Request = Rrq | Ack(block: int)

  /** The globals, and the memory as a map from offsets to bytes. */
  datatype Client = Client(state: State, block: int, lastBlock: int, wrapOffset: int, blkSize: int,
                           memory: map<int, octet>, xferSize: int, timeouts: int, done: bool)

  /** TftpStart; NetLoop has set the transfer size to 0. */
  function Started(memory: map<int, octet>, last: int, offset: int): Client {
    Client(SendRrq, 0, last, offset, DEFAULT_BLOCK_SIZE, memory, 0, 0, false)
  }

  /** update_block_number: a block numbered 0 means that the 16-bit number has wrapped. */
  function UpdatedBlockNumber(c: Client): Client {
    if c.block == 0 then c.(wrapOffset := (c.wrapOffset + c.blkSize * SEQUENCE_SIZE) % TWO32, timeouts := 0) else c
  }

  /** memcpy to offset at. */
  function Written(memory: map<int, octet>, at: int, src: seq<octet>): map<int, octet> {
    if src == [] then memory
    else Written(memory, at, src[..|src| - 1])[at + |src| - 1 := src[|src| - 1]]
  }

  lemma {:induction false} WrittenAt(memory: map<int, octet>, at: int, src: seq<octet>, a: int)
    ensures var m := Written(memory, at, src);
            if at <= a < at + |src| then a in m && m[a] == src[a - at]
            else (a in m <==> a in memory) && (a in m ==> m[a] == memory[a])
  {
    if src == [] {
    } else {
      WrittenAt(memory, at, src[..|src| - 1], a);
    }
  }

  function OffsetOf(c: Client, block: int): int {
    (block * c.blkSize + c.wrapOffset) % TWO32
  }

  /** store_block */
  function StoredBlock(c: Client, block: int, src: seq<octet>): Client {
    var offset := OffsetOf(c, block);
    var newsize := (offset + |src|) % TWO32;
    c.(memory := Written(c.memory, offset, src), xferSize := if c.xferSize < newsize then newsize else c.xferSize)
  }

  /** TftpSend */
  function ToSend(c: Client): Request {
    if c.state == SendRrq then Rrq else Ack(c.block)
  }

  function AfterOack(c: Client, blkSize: Option<int>): Client {
    c.(state := OptionsAcked, blkSize := if blkSize.Some? then blkSize.value else c.blkSize)
  }

  /** The DATA branch, up to the check for a repeated block. */
  function BlockTaken(c: Client, block: int): Client {
    var c1 := UpdatedBlockNumber(c.(block := block));
    if c1.state != Receiving then c1.(state := Receiving, lastBlock := 0, wrapOffset := 0) else c1
  }

  function AfterData(c: Client, block: int, payload: seq<octet>): (Client, Option<Request>) {
    var c1 := BlockTaken(c, block);
    if (c.state != Receiving && block != 1) || block == c1.lastBlock then (c1, None)
    else
      var c2 := StoredBlock(c1.(lastBlock := block), block - 1, payload);
      (c2.(done := |payload| < c2.blkSize || c2.done), Some(ToSend(c2)))
  }

  function After(c: Client, m: Message): (Client, Option<Request>) {
    match m
    case Oack(b) => (AfterOack(c, b), Some(ToSend(AfterOack(c, b))))
    case Data(n, p) => AfterData(c, n, p)
  }

  /** The count of timeouts starts afresh only when the block numbers wrap. */
  lemma CountKept(c: Client, m: Message)
    ensures After(c, m).0.timeouts == match m case Data(n, _) => if n == 0 then 0
            else c.timeouts case Oack(_) => c.timeouts
  {
  }

  /** TftpTimeout: after too many timeouts nothing is sent any more. */
  function AfterTimeout(c: Client, max: int): (Client, Option<Request>) {
    var c1 := c.(timeouts := c.timeouts + 1);
    (c1, if c1.timeouts > max then None else Some(ToSend(c1)))
  }

  /** The client after n timeouts in a row, and how many requests they have sent. */
  function TimedOut(c: Client, max: int, n: nat): (Client, int) {
    if n == 0 then (c, 0)
    else
      var (c1, sent) := TimedOut(c, max, n - 1);
      var (c2, r) := AfterTimeout(c1, max);
      (c2, if r.Some? then sent + 1 else sent)
  }

  /** Every timeout repeats the request until the count has reached its limit; then the client is silent. */
  lemma {:induction false} GivesUp(c: Client, max: int, n: nat)
    ensures var (c1, sent) := TimedOut(c, max, n);
            c1 == c.(timeouts := c.timeouts + n)
            && sent == if c.timeouts + n <= max then n else if c.timeouts <= max then max - c.timeouts else 0
  {
    if n == 0 {
    } else {
      GivesUp(c, max, n - 1);
    }
  }

  class Handler {
    var state: State
    var block: int
    var lastBlock: int
    var wrapOffset: int
    var blkSize: int
    var memory: map<int, octet>
    var xferSize: int
    var timeouts: int
    var done: bool

    function Abs(): Client
      reads this
    {
      Client(state, block, lastBlock, wrapOffset, blkSize, memory, xferSize, timeouts, done)
    }

    // TftpStart
    constructor (mem: map<int, octet>, last: int, offset: int)
      ensures Abs() == Started(mem, last, offset)
    {
      state, block, lastBlock, wrapOffset, blkSize := SendRrq, 0, last, offset, DEFAULT_BLOCK_SIZE;
      memory, xferSize, timeouts, done := mem, 0, 0, false;
    }

    method UpdateBlockNumber()
      modifies this
      ensures Abs() == UpdatedBlockNumber(old(Abs()))
    {
      if block == 0 {
        wrapOffset := (wrapOffset + blkSize * SEQUENCE_SIZE) % TWO32;
        timeouts := 0;
      }
    }

    method NewTransfer()
      modifies this
      ensures Abs() == old(Abs()).(lastBlock := 0, wrapOffset := 0)
    {
      lastBlock := 0;
      wrapOffset := 0;
    }

    method StoreBlock(number: int, src: seq<octet>)
      modifies this
      ensures Abs() == StoredBlock(old(Abs()), number, src)
    {
      var offset := (number * blkSize + wrapOffset) % TWO32;
      var newsize := (offset + |src|) % TWO32;
      // memcpy
      var i := 0;
      while i < |src|
        invariant 0 <= i <= |src| && memory == Written(old(memory), offset, src[..i])
        invariant Abs() == old(Abs()).(memory := memory)
      {
        assert src[..i + 1][..i] == src[..i];
        memory := memory[offset + i := src[i]];
        i := i + 1;
      }
      assert src[..i] == src;
      if xferSize < newsize {
        xferSize := newsize;
      }
    }

    method Send() returns (r: Request)
      ensures r == ToSend(Abs())
    {
      if state == SendRrq {
        return Rrq;
      }
      r := Ack(block);
    }

    // TftpHandler
    method Receive(m: Message) returns (r: Option<Request>)
      modifies this
      ensures (Abs(), r) == After(old(Abs()), m)
    {
      r := None;
      match m
      case Oack(b) =>
        state := OptionsAcked;
        if b.Some? {
          blkSize := b.value;
        }
        var s := Send();
        r := Some(s);
      case Data(n, payload) =>
        block := n;
        UpdateBlockNumber();
        if state == SendRrq || state == OptionsAcked {
          // first block received
          state := Receiving;
          NewTransfer();
          if block != 1 {
            return;
          }
        }
        if block == lastBlock {
          return;
        }
        lastBlock := block;
        StoreBlock(block - 1, payload);
        var s := Send();
        r := Some(s);
        if |payload| < blkSize {
          done := true;
        }
    }

    // TftpTimeout
    method Timeout(max: int) returns (r: Option<Request>)
      modifies this
      ensures (Abs(), r) == AfterTimeout(old(Abs()), max) && (r == None <==> max <= old(timeouts))
    {
      timeouts := timeouts + 1;
      r := None;
      if timeouts <= max {
        var s := Send();
        r := Some(s);
      }
    }
  }
}
