/**
 The Internet checksum of net/net_core.c, and the headers that net_core.c and ping.c finish with it.
 A packet is an array of 16-bit words in memory order; header fields are in network byte order.
 */
module Checksum {
  import opened Common

  type word = x: int | 0 <= x < 0x1_0000

  // The sum.

  function Sum(w: seq<word>): int {
    if w == [] then 0 else Sum(w[..|w| - 1]) + w[|w| - 1]
  }

  /** (x & 0xffff) + (x >> 16) */
  function Fold(x: int): int {
    x % 0x1_0000 + x / 0x1_0000
  }

  /** One's complement addition, section 1 of RFC 1071: the carry comes around. */
  function OnesAdd(a: int, b: int): int {
    if a + b > 0xffff then a + b - 0xffff else a + b
  }

  function OnesSum(w: seq<word>): int {
    if w == [] then 0 else OnesAdd(OnesSum(w[..|w| - 1]), w[|w| - 1])
  }

  lemma {:induction false} SumBounds(w: seq<word>)
    ensures 0 <= Sum(w) <= 0xffff * |w|
  {
    if w == [] {
    } else {
      SumBounds(w[..|w| - 1]);
    }
  }

  /** The one's complement sum is the sum modulo 0xffff, and it is 0 only if all words are. */
  lemma {:induction false} OnesModulo(w: seq<word>) returns (k: int)
    ensures 0 <= OnesSum(w) <= 0xffff && Sum(w) == OnesSum(w) + 0xffff * k && (Sum(w) == 0 <==> OnesSum(w) == 0)
  {
    if w == [] {
      k := 0;
    } else {
      k := OnesModulo(w[..|w| - 1]);
      SumBounds(w[..|w| - 1]);
      if OnesSum(w[..|w| - 1]) + w[|w| - 1] > 0xffff {
        k := k + 1;
      }
    }
  }

  /** Two folds bring any 32-bit sum down to 16 bits. */
  lemma TwoFolds(x: int) returns (k: int)
    requires 0 <= x < TWO32
    ensures 0 <= Fold(Fold(x)) <= 0xffff && x == Fold(Fold(x)) + 0xffff * k && (x == 0 <==> Fold(Fold(x)) == 0)
  {
    var y := Fold(x);
    assert x == 0x1_0000 * (x / 0x1_0000) + x % 0x1_0000;
    assert 0 <= y <= 0x1_fffe;
    assert y == 0x1_0000 * (y / 0x1_0000) + y % 0x1_0000;
    k := x / 0x1_0000 + y / 0x1_0000;
  }

  lemma SameResidue(a: int, b: int, k: int)
    requires 0 <= a <= 0xffff && 0 <= b <= 0xffff && a == b + 0xffff * k && (a == 0 <==> b == 0)
    ensures a == b
  {
  }

  function Cksum(w: seq<word>): int {
    Fold(Fold(Sum(w) % TWO32)) % 0x1_0000
  }

  /** For up to 65537 words the checksum is the one's complement sum. */
  lemma CksumIsOnesSum(w: seq<word>)
    requires |w| <= 65537
    ensures Cksum(w) == OnesSum(w)
  {
    hide Fold, Sum, OnesSum;
    SumBounds(w);
    SmallSum(Sum(w), |w|);
    var k := OnesModulo(w);
    var j := TwoFolds(Sum(w));
    SameResidue(Fold(Fold(Sum(w))), OnesSum(w), k - j);
    SmallWord(Fold(Fold(Sum(w))));
  }

  lemma SmallWord(x: int)
    requires 0 <= x <= 0xffff
    ensures x % 0x1_0000 == x
  {
  }

  lemma SmallSum(x: int, n: int)
    requires 0 <= x <= 0xffff * n && n <= 65537
    ensures x % TWO32 == x
  {
  }

  // NetCksum
  method NetCksum(p: array<word>, from: int, len0: int) returns (r: int)
    requires 0 <= from && from + len0 <= p.Length
    ensures r == Cksum(if len0 > 0 then p[from..from + len0] else [])
  {
    var xsum, i, len := 0, from, len0;
    while len > 0
      invariant len0 > 0 ==> 0 <= len <= len0 && i == from + (len0 - len) && xsum == Sum(p[from..i]) % TWO32
      invariant len0 <= 0 ==> len == len0 && xsum == 0
    {
      assert p[from..i + 1][..i - from] == p[from..i];
      Carry(Sum(p[from..i]), p[i]);
      xsum := (xsum + p[i]) % TWO32;
      i := i + 1;
      len := len - 1;
    }
    xsum := xsum % 0x1_0000 + xsum / 0x1_0000;
    xsum := xsum % 0x1_0000 + xsum / 0x1_0000;
    r := xsum % 0x1_0000;
  }

  /** !((NetCksum(ptr, len) + 1) & 0xfffe): the sum is 0 or all ones. */
  predicate CksumOk(w: seq<word>) {
    (Cksum(w) + 1) % 0x1_0000 / 2 == 0
  }

  // Finishing a header.

  lemma {:induction false} SumUpdate(w: seq<word>, i: int, v: word)
    requires 0 <= i < |w|
    ensures Sum(w[i := v]) == Sum(w) - w[i] + v
  {
    var n := |w| - 1;
    if i == n {
      assert w[i := v][..n] == w[..n];
    } else {
      assert w[i := v][..n] == w[..n][i := v];
      SumUpdate(w[..n], i, v);
    }
  }

  /** Storing the complement of the checksum in a field that was 0 makes the checksum come out right. */
  lemma Finished(w: seq<word>, i: int, c: int)
    requires 0 <= i < |w| <= 65537 && w[i] == 0 && c == 0xffff - Cksum(w)
    ensures 0 <= c <= 0xffff && Cksum(w[i := c]) == 0xffff && CksumOk(w[i := c])
  {
    hide Cksum, Sum, OnesSum;
    CksumIsOnesSum(w);
    var k := OnesModulo(w);
    var w' := w[i := c];
    SumUpdate(w, i, c);
    CksumIsOnesSum(w');
    var j := OnesModulo(w');
    SumBounds(w);
    assert OnesSum(w') + 0xffff * j == 0xffff * (k + 1);
    assert Sum(w') > 0;
    AllOnes(OnesSum(w'), k + 1 - j);
  }

  lemma AllOnes(a: int, k: int)
    requires 0 < a <= 0xffff && a == 0xffff * k
    ensures a == 0xffff
  {
  }

  /** A last byte outside the checksum, padded with a zero byte, spoils it unless it is 0 itself. */
  lemma OddByte(w: seq<word>, c: word)
    requires Cksum(w) == 0xffff && |w| <= 65536 && c < 256
    ensures CksumOk(w + [c]) <==> c == 0
  {
    hide Cksum;
    CksumIsOnesSum(w);
    CksumIsOnesSum(w + [c]);
    assert (w + [c])[..|w|] == w;
  }

  /** The n bytes from word i on, with a zero byte behind them if n is odd. */
  function Padded(p: seq<word>, i: nat, n: nat): seq<word>
    requires i + (n + 1) / 2 <= |p|
  {
    p[i..i + n / 2] + if n % 2 == 0 then [] else [p[i + n / 2] % 256]
  }

  const IP_HDR_WORDS := 10
  const IP_SUM := 5
  const IPPROTO_ICMP := 1
  const IPPROTO_UDP := 17
  const IP_FLAGS_DFRAG := 0x4000

  /** What a 16-bit field says in network byte order: the byte at the lower address is the higher one. */
  function FieldOf(w: word): int {
    256 * (w % 256) + w / 256
  }

  /** The little-endian word whose bytes, in network byte order, are the low 16 bits of x. */
  function Htons(x: int): (w: word)
    ensures FieldOf(w) == x % 0x1_0000
  {
    TwoBytes(x);
    x / 256 % 256 + 256 * (x % 256)
  }

  lemma TwoBytes(x: int)
    ensures x % 0x1_0000 == 256 * (x / 256 % 256) + x % 256
    ensures (x / 256 % 256 + 256 * (x % 256)) / 256 == x % 256
    ensures (x / 256 % 256 + 256 * (x % 256)) % 256 == x / 256 % 256
  {
    var q := x / 256;
    assert x == 0x1_0000 * (q / 256) + (256 * (q % 256) + x % 256);
  }

  /** The word with its first byte replaced. */
  function WithLow(w: word, b: octet): (r: word)
    ensures r % 256 == b && r / 256 == w / 256
  {
    b + w / 256 * 256
  }

  function Complement(x: int): word {
    (0xffff - x % 0x1_0000) % 0x1_0000
  }

  class Net {
    var netIPID: int
    var pingSeqNo: int
    var ourIP: (word, word)

    constructor (ip: (word, word))
    {
      netIPID, pingSeqNo, ourIP := 0, 0, ip;
    }

    // net_set_ip_header
    method SetIpHeader(ip: array<word>, dest: (word, word), source: (word, word))
      requires IP_HDR_WORDS <= ip.Length
      modifies ip, `netIPID
      ensures ip[IP_SUM] == 0 && FieldOf(ip[1]) == 20 && ip[0] == 0x45 && netIPID == old(netIPID) + 1
      ensures FieldOf(ip[2]) == old(netIPID) % 0x1_0000 && FieldOf(ip[3]) == IP_FLAGS_DFRAG
      ensures ip[4] % 256 == 255 && ip[4] / 256 == old(ip[4]) / 256
      ensures ip[6] == source.0 && ip[7] == source.1 && ip[8] == dest.0 && ip[9] == dest.1
      ensures forall i | IP_HDR_WORDS <= i < ip.Length :: ip[i] == old(ip[i])
    {
      hide Htons, FieldOf, WithLow;
      // version and header length, type of service
      ip[0] := 0x45;
      ip[1] := Htons(2 * IP_HDR_WORDS);
      ip[2] := Htons(netIPID);
      netIPID := netIPID + 1;
      ip[3] := Htons(IP_FLAGS_DFRAG);
      // ip_ttl; ip_p keeps its value
      ip[4] := WithLow(ip[4], 255);
      ip[IP_SUM] := 0;
      ip[6], ip[7] := source.0, source.1;
      ip[8], ip[9] := dest.0, dest.1;
    }

    /** ip->ip_p and ip->ip_len are set, and the checksum is stored. */
    method FinishIp(ip: array<word>, len: int, proto: int)
      requires IP_HDR_WORDS <= ip.Length && ip[IP_SUM] == 0 && 0 <= proto < 256
      modifies ip
      ensures CksumOk(ip[..IP_HDR_WORDS]) && FieldOf(ip[1]) == len % 0x1_0000 && ip[4] / 256 == proto
              && ip[4] % 256 == old(ip[4]) % 256
      ensures forall i | 0 <= i < ip.Length && i != 1 && i != 4 && i != IP_SUM :: ip[i] == old(ip[i])
    {
      hide Cksum, CksumOk, Htons, FieldOf;
      ip[1] := Htons(len);
      ip[4] := ip[4] % 256 + 256 * proto;
      var sum := NetCksum(ip, 0, IP_HDR_WORDS);
      ghost var w := ip[..IP_HDR_WORDS];
      CksumRange(w);
      Finished(w, IP_SUM, 0xffff - sum);
      ip[IP_SUM] := Complement(sum);
      assert ip[..IP_HDR_WORDS] == w[IP_SUM := Complement(sum)];
    }

    // net_set_udp_header
    method SetUdpHeader(pkt: array<word>, dest: (word, word), dport: int, sport: int, len: int)
      requires 0 <= len && 14 + (len + 1) / 2 <= pkt.Length
      modifies pkt, `netIPID
      ensures CksumOk(pkt[..IP_HDR_WORDS]) && pkt[0] == 0x45 && pkt[4] == 255 + 256 * IPPROTO_UDP
      ensures FieldOf(pkt[1]) == (28 + len) % 0x1_0000 && FieldOf(pkt[2]) == old(netIPID) % 0x1_0000
              && FieldOf(pkt[3]) == IP_FLAGS_DFRAG && netIPID == old(netIPID) + 1
      ensures pkt[6] == ourIP.0 && pkt[7] == ourIP.1 && pkt[8] == dest.0 && pkt[9] == dest.1
      ensures FieldOf(pkt[10]) == sport % 0x1_0000 && FieldOf(pkt[11]) == dport % 0x1_0000
      ensures FieldOf(pkt[12]) == (8 + len) % 0x1_0000 && pkt[13] == 0
      ensures forall i | 14 <= i < pkt.Length && (i != 14 + len / 2 || len % 2 == 0) :: pkt[i] == old(pkt[i])
      ensures len % 2 == 1 ==> pkt[14 + len / 2] == old(pkt[14 + len / 2]) % 256
    {
      hide Cksum, CksumOk, Htons, FieldOf;
      if len % 2 == 1 {
        // pkt[IP_UDP_HDR_SIZE + len] = 0
        pkt[14 + len / 2] := pkt[14 + len / 2] % 256;
      }
      SetIpHeader(pkt, dest, ourIP);
      FinishIp(pkt, 28 + len, IPPROTO_UDP);
      ghost var w := pkt[..IP_HDR_WORDS];
      pkt[10] := Htons(sport);
      pkt[11] := Htons(dport);
      pkt[12] := Htons(8 + len);
      pkt[13] := 0;
      assert pkt[..IP_HDR_WORDS] == w;
    }

    // set_icmp_header: an echo request
    method SetIcmpHeader(pkt: array<word>, dest: (word, word))
      requires 14 <= pkt.Length
      modifies pkt, `netIPID, `pingSeqNo
      ensures CksumOk(pkt[..IP_HDR_WORDS]) && CksumOk(pkt[IP_HDR_WORDS..14])
      ensures pkt[0] == 0x45 && FieldOf(pkt[1]) == 28 && FieldOf(pkt[2]) == old(netIPID) % 0x1_0000
              && FieldOf(pkt[3]) == IP_FLAGS_DFRAG && pkt[4] == 255 + 256 * IPPROTO_ICMP
      ensures pkt[6] == ourIP.0 && pkt[7] == ourIP.1 && pkt[8] == dest.0 && pkt[9] == dest.1
      ensures pkt[10] == 8 && pkt[12] == 0 && FieldOf(pkt[13]) == old(pingSeqNo) % 0x1_0000
      ensures netIPID == old(netIPID) + 1 && pingSeqNo == old(pingSeqNo) + 1
      ensures forall i | 14 <= i < pkt.Length :: pkt[i] == old(pkt[i])
    {
      hide Cksum, CksumOk, Htons, FieldOf;
      SetIpHeader(pkt, dest, ourIP);
      FinishIp(pkt, 28, IPPROTO_ICMP);
      ghost var w := pkt[..IP_HDR_WORDS];
      // type and code, checksum, id, sequence
      pkt[10] := 8;
      pkt[11] := 0;
      pkt[12] := 0;
      pkt[13] := Htons(pingSeqNo);
      pingSeqNo := pingSeqNo + 1;
      assert pkt[..IP_HDR_WORDS] == w;
      FinishIcmp(pkt, 4);
    }

    /** The checksum of the ICMP message of n words is stored. */
    method FinishIcmp(pkt: array<word>, n: int)
      requires 2 <= n <= 65537 && IP_HDR_WORDS + n <= pkt.Length && pkt[11] == 0
      modifies pkt
      ensures CksumOk(pkt[IP_HDR_WORDS..IP_HDR_WORDS + n]) && Cksum(pkt[IP_HDR_WORDS..IP_HDR_WORDS + n]) == 0xffff
      ensures forall i | 0 <= i < pkt.Length && i != 11 :: pkt[i] == old(pkt[i])
      ensures pkt[..IP_HDR_WORDS] == old(pkt[..IP_HDR_WORDS])
    {
      hide Cksum, CksumOk, Htons;
      var sum := NetCksum(pkt, IP_HDR_WORDS, n);
      ghost var w := pkt[IP_HDR_WORDS..IP_HDR_WORDS + n];
      CksumRange(w);
      Finished(w, 1, 0xffff - sum);
      pkt[11] := Complement(sum);
      assert pkt[IP_HDR_WORDS..IP_HDR_WORDS + n] == w[1 := Complement(sum)];
    }

    /** The IP header of the reply. */
    method AnswerIp(pkt: array<word>)
      requires IP_HDR_WORDS <= pkt.Length
      modifies pkt
      ensures CksumOk(pkt[..IP_HDR_WORDS])
      ensures pkt[3] == 0 && forall i | i == 0 || i == 1 || i == 2 || i == 4 :: pkt[i] == old(pkt[i])
      ensures pkt[8] == old(pkt[6]) && pkt[9] == old(pkt[7]) && pkt[6] == ourIP.0 && pkt[7] == ourIP.1
      ensures forall i | IP_HDR_WORDS <= i < pkt.Length :: pkt[i] == old(pkt[i])
    {
      hide Cksum, CksumOk;
      pkt[IP_SUM] := 0;
      pkt[3] := 0;
      pkt[8], pkt[9] := pkt[6], pkt[7];
      pkt[6], pkt[7] := ourIP.0, ourIP.1;
      var sum := NetCksum(pkt, 0, IP_HDR_WORDS);
      ghost var w := pkt[..IP_HDR_WORDS];
      CksumRange(w);
      Finished(w, IP_SUM, 0xffff - sum);
      pkt[IP_SUM] := Complement(sum);
      assert pkt[..IP_HDR_WORDS] == w[IP_SUM := Complement(sum)];
    }

    // ping_receive, for an echo request: it is turned into the reply, in place
    method EchoReply(pkt: array<word>, len: int)
      requires 24 <= len && (len + 1) / 2 <= pkt.Length && len <= 0xffff
      modifies pkt
      ensures CksumOk(pkt[..IP_HDR_WORDS]) && CksumOk(pkt[IP_HDR_WORDS..IP_HDR_WORDS + (len - 20) / 2])
      ensures CksumOk(Padded(pkt[..], IP_HDR_WORDS, len - 20)) <==> len % 2 == 0 || pkt[len / 2] % 256 == 0
      ensures pkt[3] == 0 && forall i | i == 0 || i == 1 || i == 2 || i == 4 :: pkt[i] == old(pkt[i])
      ensures pkt[8] == old(pkt[6]) && pkt[9] == old(pkt[7]) && pkt[6] == ourIP.0 && pkt[7] == ourIP.1
      ensures pkt[10] % 256 == 0 && pkt[10] / 256 == old(pkt[10]) / 256 && forall i | 12 <= i < pkt.Length ::
                pkt[i] == old(pkt[i])
    {
      hide Cksum, CksumOk, Complement, WithLow;
      AnswerIp(pkt);
      ghost var w := pkt[..IP_HDR_WORDS];
      // icmph->type = ICMP_ECHO_REPLY
      pkt[10] := WithLow(pkt[10], 0);
      pkt[11] := 0;
      assert pkt[..IP_HDR_WORDS] == w;
      FinishIcmp(pkt, (len - 20) / 2);
      w := pkt[IP_HDR_WORDS..IP_HDR_WORDS + (len - 20) / 2];
      assert Padded(pkt[..], IP_HDR_WORDS, len - 20) == if len % 2 == 0 then w else w + [pkt[len / 2] % 256];
      if len % 2 == 1 {
        OddByte(w, pkt[len / 2] % 256);
      }
    }
  }

  lemma CksumRange(w: seq<word>)
    ensures 0 <= Cksum(w) <= 0xffff
  {
  }
}
