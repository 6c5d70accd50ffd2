/**
 __NetDefragment of net/net_core.c: fragments of an IP datagram are collected in one static buffer,
 whose missing parts hold the list of holes.
 */
module Reassembly {
  import opened Common
  import opened Holes

  const IP_OFFS := 0x1fff
  const IP_FLAGS_MFRAG := 0x2000
  const NONE := -1

  /** Header fields are in network byte order. */
  function Be16(p: seq<octet>, i: int): int
    requires 0 <= i && i + 1 < |p|
  {
    256 * (p[i] as int) + (p[i + 1] as int)
  }

  function IpLen(p: seq<octet>): int
    requires IP_HDR_SIZE <= |p|
  {
    Be16(p, 2)
  }

  function IpId(p: seq<octet>): int
    requires IP_HDR_SIZE <= |p|
  {
    Be16(p, 4)
  }

  /** Where the payload of the fragment begins in the datagram. */
  function StartOf(p: seq<octet>): int
    requires IP_HDR_SIZE <= |p|
  {
    8 * (Be16(p, 6) % (IP_OFFS + 1))
  }

  function EndOf(p: seq<octet>): int
    requires IP_HDR_SIZE <= |p|
  {
    StartOf(p) + IpLen(p) - IP_HDR_SIZE
  }

  predicate MoreFragments(p: seq<octet>)
    requires IP_HDR_SIZE <= |p|
  {
    Be16(p, 6) / IP_FLAGS_MFRAG % 2 == 1
  }

  function Header(p: seq<octet>): seq<octet>
    requires IP_HDR_SIZE <= |p|
  {
    p[..IP_HDR_SIZE]
  }

  /** The packet in b has the header h, apart from the length, which is len. */
  ghost predicate Stamped(b: seq<octet>, h: seq<octet>, len: int) {
    && |h| == IP_HDR_SIZE <= |b| && Be16(b, 2) == len
    && forall i | 0 <= i < IP_HDR_SIZE && i != 2 && i != 3 :: b[i] == h[i]
  }

  /** p carries a part of the payload data: only the last part may have a length that is not a multiple of 8. */
  ghost predicate FragmentOf(p: seq<octet>, data: seq<octet>) {
    && IP_HDR_SIZE <= |p| && IpLen(p) <= |p| && StartOf(p) < EndOf(p) <= |data|
    && (forall x | StartOf(p) <= x < EndOf(p) :: p[IP_HDR_SIZE + x - StartOf(p)] == data[x])
    && (MoreFragments(p) <==> EndOf(p) < |data|) && (EndOf(p) < |data| ==> EndOf(p) % 8 == 0)
  }

  /** The IP packet that carries data[s..e]: an IP header with its length, its offset and the flag for more. */
  function Fragment(header: seq<octet>, data: seq<octet>, s: int, e: int): seq<octet>
    requires |header| == IP_HDR_SIZE && 0 <= s < e <= |data| <= 0xffff - IP_HDR_SIZE
  {
    var len, off := IP_HDR_SIZE + e - s, s / 8;
    header[..2] + [len / 256, len % 256] + header[4..6] + [off / 256 + (if e < |data| then 0x20 else 0), off % 256]
    + header[8..] + data[s..e]
  }

  /** What a sender splits off at a multiple of 8 is read back as that part of the data. */
  lemma FragmentRead(header: seq<octet>, data: seq<octet>, s: int, e: int)
    requires |header| == IP_HDR_SIZE && 0 <= s < e <= |data| <= 0xffff - IP_HDR_SIZE
             && s % 8 == 0 && (e < |data| ==> e % 8 == 0)
    ensures var p := Fragment(header, data, s, e);
            FragmentOf(p, data) && StartOf(p) == s && EndOf(p) == e && IpId(p) == 256 * (header[4] as int) + header[5]
  {
    var p := Fragment(header, data, s, e);
    assert p[2] == (IP_HDR_SIZE + e - s) / 256 && p[3] == (IP_HDR_SIZE + e - s) % 256;
    assert p[4] == header[4] && p[5] == header[5];
    var off := s / 8;
    assert p[6] == off / 256 + (if e < |data| then 0x20 else 0) && p[7] == off % 256;
    assert p[IP_HDR_SIZE..] == data[s..e];
    FlagAndOffset(off, if e < |data| then 1 else 0);
  }

  lemma FlagAndOffset(off: int, flag: int)
    requires 0 <= off <= IP_OFFS && 0 <= flag <= 1
    ensures var w := 256 * (off / 256 + 0x20 * flag) + off % 256;
            w % (IP_OFFS + 1) == off && w / IP_FLAGS_MFRAG % 2 == flag
  {
  }

  /** The holes left when only bytes that satisfy Missing are to come, for a datagram of t bytes. */
  ghost predicate HolesOk(hs: seq<Hole>, t: int) {
    && Separated(hs)
    && (forall k | 0 <= k < |hs| :: 8 * hs[k].at < t)
    && (forall k | 0 <= k < |hs| :: (hs[k].last % 8 == 0 && hs[k].last <= t) || (hs[k].last == 0xffff && k == |hs| - 1))
    && (Missing(hs, t - 1) ==> hs != [] && hs[|hs| - 1].last == 0xffff)
  }

  /** The list between the truncation of the last hole and the update: only hole k may end anywhere. */
  function Truncated(hs: seq<Hole>, k: int, e: int, more: bool): seq<Hole>
    requires 0 <= k < |hs|
  {
    if more then hs else hs[k := Hole(hs[k].at, e)]
  }

  /** The bytes below low are not asked for any more: the end of the hole at 0 is all that is there. */
  ghost predicate Buried(b: seq<octet>, low: int, t: int) {
    low == 0 || (8 <= low < t && InBuffer(b, 0) && Field(b, 0, LAST) == low)
  }

  /** Every byte from low on that is not missing is in its place. */
  ghost predicate Carries(b: seq<octet>, data: seq<octet>, hs: seq<Hole>, low: int) {
    IP_HDR_SIZE + |data| <= |b| && Buried(b, low, |data|)
    && forall x | low <= x < |data| && !Missing(hs, x) :: b[IP_HDR_SIZE + x] == data[x]
  }

  class Reassembler {
    const buf: array<octet>
    var firstHole: int
    var totalLen: int
    ghost var holes: seq<Hole>
    ghost var low: int

    constructor (size: nat)
      ensures fresh(buf) && buf.Length == size && totalLen == 0
    {
      buf := new octet[size](_ => 0);
      firstHole, totalLen := 0, 0;
      holes, low := [], 0;
    }

    method SetField(at: int, f: int, v: int)
      requires InBuffer(buf[..], at) && 0 <= f <= 6 && 0 <= v < 65536
      modifies buf
      ensures buf[..] == PutField(old(buf[..]), at, f, v)
    {
      var i := IP_HDR_SIZE + 8 * at + f;
      buf[i] := v % 256;
      buf[i + 1] := v / 256;
    }

    method GetField(at: int, f: int) returns (v: int)
      requires InBuffer(buf[..], at) && 0 <= f <= 6
      ensures v == Field(buf[..], at, f) && 0 <= v < 65536
    {
      var i := IP_HDR_SIZE + 8 * at + f;
      v := (buf[i] as int) + 256 * (buf[i + 1] as int);
    }

    // *newh = *h
    method CopyHole(to: int, at: int)
      requires InBuffer(buf[..], to) && InBuffer(buf[..], at) && to != at
      modifies buf
      ensures buf[..] == CopyMem(old(buf[..]), to, at)
    {
      hide PutField, Field;
      CopyMemFields(buf[..], to, at);
      var last := GetField(at, LAST);
      var next := GetField(at, NEXT);
      var prev := GetField(at, PREV);
      var unused := GetField(at, UNUSED);
      SetField(to, LAST, last);
      SetField(to, NEXT, next);
      SetField(to, PREV, prev);
      SetField(to, UNUSED, unused);
    }

    /** The first hole that does not end before start. */
    method FindHole(start: int, ghost hs: seq<Hole>) returns (h: int, ghost k: int)
      requires Stored(buf[..], hs) && Separated(hs) && hs != [] && firstHole == hs[0].at
      ensures h == NONE ==> forall j | 0 <= j < |hs| :: hs[j].last < start
      ensures h != NONE ==> 0 <= k < |hs| && h == hs[k].at && start <= hs[k].last && forall j | 0 <= j < k ::
                hs[j].last < start
    {
      hide Stored, Field, Separated;
      h, k := firstHole, 0;
      DescFacts(buf[..], hs, k);
      var last := GetField(h, LAST);
      while last < start
        invariant 0 <= k < |hs| && h == hs[k].at && last == hs[k].last
        invariant forall j | 0 <= j < k :: hs[j].last < start
        decreases |hs| - k
      {
        DescFacts(buf[..], hs, k);
        Neighbours(buf[..], hs, k);
        var next := GetField(h, NEXT);
        if next == 0 {
          return NONE, k;
        }
        h, k := next, k + 1;
        DescFacts(buf[..], hs, k);
        last := GetField(h, LAST);
      }
      HoleIndex(buf[..], hs, k);
    }

    /** The hole h is gone. */
    method RemoveHole(h: int, ghost hs: seq<Hole>, ghost k: int) returns (done: bool)
      requires Stored(buf[..], hs) && Separated(hs) && Linked(hs, k) && h == hs[k].at
               && (0 < k ==> firstHole == hs[0].at)
      modifies buf, `firstHole
      ensures var hs' := hs[..k] + hs[k + 1..];
              Stored(buf[..], hs') && (done <==> hs' == []) && (!done ==> firstHole == hs'[0].at)
      ensures var n, p := NextOf(hs, k), PrevOf(hs, k);
              0 <= n < 65536 && 0 <= p < 65536 && InBuffer(old(buf[..]), n) && InBuffer(old(buf[..]), p)
              && buf[..] == RemoveMem(old(buf[..]), n, p)
    {
      hide Stored, Field, Separated, PutField;
      DescFacts(buf[..], hs, k);
      Neighbours(buf[..], hs, k);
      StoredRemove(buf[..], hs, k);
      done := false;
      var prev := GetField(h, PREV);
      var next := GetField(h, NEXT);
      if prev == 0 && next == 0 {
        done := true;
      } else if prev == 0 {
        firstHole := next;
        SetField(next, PREV, 0);
      } else if next == 0 {
        SetField(prev, NEXT, 0);
      } else {
        SetField(next, PREV, prev);
        SetField(prev, NEXT, next);
      }
    }

    /** The hole h begins at to now. */
    method MoveHole(h: int, to: int, ghost hs: seq<Hole>, ghost k: int)
      requires Stored(buf[..], hs) && Separated(hs) && Linked(hs, k) && Inside(hs, k, to) && h == hs[k].at
               && (0 < k ==> firstHole == hs[0].at)
      requires InBuffer(buf[..], to) && 0 <= to < 65536
      modifies buf, `firstHole
      ensures var hs' := hs[k := Hole(to, hs[k].last)]; Stored(buf[..], hs') && firstHole == hs'[0].at
      ensures var n, p := NextOf(hs, k), PrevOf(hs, k);
              InBuffer(old(buf[..]), n) && InBuffer(old(buf[..]), p) && InBuffer(old(buf[..]), h)
              && buf[..] == MoveMem(old(buf[..]), h, to, n, p)
    {
      hide Stored, Field, Separated, PutField, CopyMem;
      DescFacts(buf[..], hs, k);
      Neighbours(buf[..], hs, k);
      StoredMove(buf[..], hs, k, to);
      CopyMemFields(buf[..], to, h);
      CopyHole(to, h);
      var next := GetField(to, NEXT);
      if next != 0 {
        InsideNew(hs, k, to, k + 1);
        PutFieldOnly(buf[..], next, PREV, to);
        SetField(next, PREV, to);
      }
      var prev := GetField(to, PREV);
      if prev != 0 {
        SetField(prev, NEXT, to);
      } else {
        firstHole := to;
      }
    }

    /** The hole h ends at s, and a second part of it begins at to. */
    method SplitHole(h: int, s: int, to: int, ghost hs: seq<Hole>, ghost k: int, ghost hs': seq<Hole>)
      requires Stored(buf[..], hs) && Separated(hs) && Inside(hs, k, to) && h == hs[k].at && firstHole == hs[0].at
      requires InBuffer(buf[..], to) && 0 <= to < 65536 && 0 <= s < 65536 && 0 <= h < 65536
               && Divided(hs, k, s, to, hs')
      modifies buf
      ensures Stored(buf[..], hs') && firstHole == hs'[0].at
      ensures var n := NextOf(hs, k);
              InBuffer(old(buf[..]), n) && InBuffer(old(buf[..]), h) && buf[..] == SplitMem(old(buf[..]), h, to, n, s)
    {
      hide Stored, Field, Separated, PutField, CopyMem;
      DescFacts(buf[..], hs, k);
      Neighbours(buf[..], hs, k);
      StoredSplit(buf[..], hs, k, s, to, hs');
      CopyMemFields(buf[..], to, h);
      CopyHole(to, h);
      PutFieldOnly(buf[..], h, LAST, s);
      SetField(h, LAST, s);
      PutFieldOnly(buf[..], h, NEXT, to);
      SetField(h, NEXT, to);
      PutFieldOnly(buf[..], to, PREV, h);
      SetField(to, PREV, h);
      var next := GetField(to, NEXT);
      if next != 0 {
        SetField(next, PREV, to);
      }
    }

    /** Fix the hole list for the bytes start up to start + len, which lie in the hole h. */
    method Update(offset8: int, start: int, len: int, h: int, ghost hs: seq<Hole>, ghost k: int, ghost hs0: seq<Hole>)
      returns (done: bool)
      requires Stored(buf[..], hs) && Separated(hs) && 0 <= k < |hs| && h == hs[k].at && (h < offset8 || Linked(hs, k))
      requires firstHole == hs[0].at || (k == 0 && offset8 <= h)
      requires InHole(hs, k, start, start + len) || (h < offset8 && hs[k].last == start)
      requires start == 8 * offset8 && 0 < len && Gaps(buf.Length, hs, k, start + len, hs0)
      modifies buf, `firstHole
      ensures var hs' := Filled(hs, k, start, start + len);
              Stored(buf[..], hs') && (done <==> hs' == []) && (!done ==> firstHole == hs'[0].at)
      ensures Kept(old(buf[..]), buf[..], hs0)
    {
      hide Stored, Field, Separated, Linked, PutField, CopyMem, RemoveMem, MoveMem, SplitMem, Kept, Gap, Missing,
          Filled;
      DescFacts(buf[..], hs, k);
      Neighbours(buf[..], hs, k);
      UpdateCases(hs, k, start, start + len, offset8, len);
      done := false;
      var last := GetField(h, LAST);
      if h >= offset8 && last <= start + len {
        RemoveKept(buf[..], NextOf(hs, k), PrevOf(hs, k), hs0);
        done := RemoveHole(h, hs, k);
      } else if last <= start + len {
        StoredShorten(buf[..], hs, k, start);
        PutKept(buf[..], h, LAST, start, hs0);
        SetField(h, LAST, start);
      } else if h >= offset8 {
        MoveKept(buf[..], h, offset8 + len / 8, NextOf(hs, k), PrevOf(hs, k), hs0);
        MoveHole(h, offset8 + len / 8, hs, k);
      } else {
        SplitKept(buf[..], h, offset8 + len / 8, NextOf(hs, k), start, hs0);
        SplitHole(h, start, offset8 + len / 8, hs, k, Filled(hs, k, start, start + len));
      }
    }

    // memcpy of the payload
    method CopyPayload(packet: seq<octet>, start: int, len: int)
      requires 0 <= start && 0 <= len && IP_HDR_SIZE + len <= |packet| && IP_HDR_SIZE + start + len <= buf.Length
      modifies buf
      ensures forall i | 0 <= i < buf.Length ::
                buf[i] == if IP_HDR_SIZE + start <= i < IP_HDR_SIZE + start + len then packet[i - start]
                    else old(buf[i])
    {
      var n := 0;
      while n < len
        invariant 0 <= n <= len
        invariant forall i | 0 <= i < buf.Length ::
                    buf[i] == if IP_HDR_SIZE + start <= i < IP_HDR_SIZE + start + n then packet[i - start]
                        else old(buf[i])
      {
        buf[IP_HDR_SIZE + start + n] := packet[IP_HDR_SIZE + n];
        n := n + 1;
      }
    }

    /** The buffer holds every byte from low on that is not missing, and the list of those that are. If low is
        not 0, the bytes below it will never be asked for: the descriptor at 0, which is off the list, covers them. */
    ghost predicate Sound(data: seq<octet>)
      reads this, buf
    {
      && |data| + 8 + IP_HDR_SIZE <= buf.Length < 0xffff && 0 < |data|
      && Stored(buf[..], holes) && HolesOk(holes, |data|) && holes != []
      && totalLen == (if Missing(holes, |data| - 1) then 0xffff else |data|)
      && Carries(buf[..], data, holes, low) && forall k | 0 <= k < |holes| :: low <= 8 * holes[k].at
    }

    ghost predicate Valid(data: seq<octet>)
      reads this, buf
    {
      Sound(data) && firstHole == holes[0].at
    }

    /** The fragment belongs to another datagram than the one in the buffer. */
    predicate Other(packet: seq<octet>)
      requires IP_HDR_SIZE <= |packet| && IP_HDR_SIZE <= buf.Length
      reads this, buf
    {
      totalLen == 0 || IpId(buf[..]) != IpId(packet)
    }

    // memcpy(localip, ip, IP_HDR_SIZE)
    method CopyHeader(packet: seq<octet>)
      requires IP_HDR_SIZE <= |packet| && IP_HDR_SIZE <= buf.Length
      modifies buf
      ensures forall i | 0 <= i < buf.Length :: buf[i] == if i < IP_HDR_SIZE then packet[i] else old(buf[i])
    {
      var n := 0;
      while n < IP_HDR_SIZE
        invariant 0 <= n <= IP_HDR_SIZE
        invariant forall i | 0 <= i < buf.Length :: buf[i] == if i < n then packet[i] else old(buf[i])
      {
        buf[n] := packet[n];
        n := n + 1;
      }
    }

    /** The hole list is set up afresh: everything is missing. */
    method Reset(packet: seq<octet>, ghost data: seq<octet>)
      requires IP_HDR_SIZE <= |packet| && |data| + 8 + IP_HDR_SIZE <= buf.Length < 0xffff && 0 < |data|
      modifies this, buf
      ensures Valid(data) && holes == [Hole(0, 0xffff)] && low == 0 && Header(buf[..]) == Header(packet)
    {
      totalLen := 0xffff;
      PutFieldOnly(buf[..], 0, LAST, 0xffff);
      SetField(0, LAST, 0xffff);
      PutFieldOnly(buf[..], 0, NEXT, 0);
      SetField(0, NEXT, 0);
      PutFieldOnly(buf[..], 0, PREV, 0);
      SetField(0, PREV, 0);
      firstHole := 0;
      ghost var b := buf[..];
      CopyHeader(packet);
      holes, low := [Hole(0, 0xffff)], 0;
      AllMissing(b, buf[..], |data|);
    }

    /** The fragment is in the hole h, or has arrived before and begins where h ends. */
    method Merge(packet: seq<octet>, offset8: int, start: int, len: int, h: int, ghost k: int, ghost data: seq<octet>)
      returns (lenp: int)
      requires FragmentOf(packet, data) && Sound(data)
      requires start == StartOf(packet) && start == 8 * offset8 && len == IpLen(packet) - IP_HDR_SIZE
      requires 0 <= k < |holes| && h == holes[k].at && (h < offset8 || Linked(holes, k))
      requires NewOrSeen(holes, k, start, start + len, offset8)
               && (firstHole == holes[0].at || (k == 0 && offset8 <= h))
      modifies this, buf
      ensures low == old(low) && Buried(buf[..], low, |data|)
      ensures forall x | 0 <= x < |data| :: Missing(holes, x) <==> Missing(old(holes), x) && !(start <= x < start + len)
      ensures lenp == NONE ==> Valid(data) && Header(buf[..]) == old(Header(buf[..])) && totalLen != 0
      ensures lenp == NONE <==> exists x :: 0 <= x < |data| && Missing(holes, x)
      ensures lenp != NONE ==> Stamped(buf[..], old(Header(buf[..])), |data|)
      ensures lenp != NONE ==> lenp == |data| + IP_HDR_SIZE && buf[IP_HDR_SIZE + low..lenp] == data[low..]
    {
      hide Missing, FragmentOf, Stored, HolesOk, Field, PutField, Filled, MoreFragments, Separated, Kept, NewOrSeen,
        Linked, Buried, Truncated, Carries;
      FragmentFacts(packet, data);
      ListFacts(holes, |data|);
      ghost var e, t, hs, b0 := start + len, |data|, holes, buf[..];
      Plan(hs, k, start, e, offset8, t);
      var done := FixHoles(packet, offset8, start, len, h, k, data);
      holes := Filled(Truncated(hs, k, e, e < t), k, start, e);
      Above(hs, holes, k, low, start, e, offset8, t);
      CopyFragment(packet, start, len, data, b0, hs);
      CarriesFacts(buf[..], data, holes, low);
      StillMissing(holes, t);
      if !done {
        return NONE;
      }
      lenp := Finish(data);
    }

    /** The length is stored in the header, and the packet is returned. */
    method Finish(ghost data: seq<octet>) returns (lenp: int)
      requires Carries(buf[..], data, holes, low) && totalLen == |data| < 65536
      requires forall x | 0 <= x < |data| :: !Missing(holes, x)
      modifies buf
      ensures Buried(buf[..], low, |data|) && lenp == |data| + IP_HDR_SIZE
      ensures 0 <= low <= |data| && lenp <= buf.Length && buf[IP_HDR_SIZE + low..lenp] == data[low..]
      ensures Stamped(buf[..], old(Header(buf[..])), |data|)
    {
      hide Missing, Carries, Buried;
      ghost var b := buf[..];
      RoomFor(b, data, holes, low);
      // localip->ip_len = htons(total_len)
      buf[2], buf[3] := totalLen / 256, totalLen % 256;
      AllCarried(b, buf[..], data, holes, low);
      lenp := totalLen + IP_HDR_SIZE;
    }

    /** The bytes of the fragment, which are not missing any more, come to their places. */
    method CopyFragment(packet: seq<octet>, start: int, len: int, ghost data: seq<octet>, ghost b0: seq<octet>,
                        ghost hs: seq<Hole>)
      requires FragmentOf(packet, data) && start == StartOf(packet) && start + len == EndOf(packet) && low <= start
      requires Kept(b0, buf[..], hs) && Carries(b0, data, hs, low) && (forall x | 0 <= x < low :: !Missing(hs, x))
      requires Stored(buf[..], holes) && HolesOk(holes, |data|)
      requires forall x | 0 <= x < |data| :: Missing(holes, x) <==> Missing(hs, x) && !(start <= x < start + len)
      modifies buf
      ensures Stored(buf[..], holes) && Carries(buf[..], data, holes, low) && Header(buf[..]) == Header(b0)
    {
      hide Missing, FragmentOf, Stored, HolesOk, Field, Separated, Kept, Carries;
      FragmentFacts(packet, data);
      ListFacts(holes, |data|);
      RoomFor(b0, data, hs, low);
      ghost var b := buf[..];
      KeptLength(b0, b, hs);
      CopyPayload(packet, start, len);
      StoredCopy(b, buf[..], holes, start, start + len);
      Arrived(b0, b, buf[..], hs, holes, packet, data, start, start + len, low);
    }

    /** The last fragment sets the length and cuts the hole; then the hole list is brought up to date. */
    method FixHoles(packet: seq<octet>, offset8: int, start: int, len: int, h: int, ghost k: int,
                    ghost data: seq<octet>)
      returns (done: bool)
      requires FragmentOf(packet, data) && Sound(data)
      requires start == StartOf(packet) && start == 8 * offset8 && len == IpLen(packet) - IP_HDR_SIZE
      requires 0 <= k < |holes| && h == holes[k].at && (h < offset8 || Linked(holes, k))
      requires NewOrSeen(holes, k, start, start + len, offset8)
               && (firstHole == holes[0].at || (k == 0 && offset8 <= h))
      modifies `totalLen, `firstHole, buf
      ensures totalLen == if MoreFragments(packet) then old(totalLen) else |data|
      ensures var hs' := Filled(Truncated(holes, k, start + len, start + len < |data|), k, start, start + len);
              Stored(buf[..], hs') && (done <==> hs' == []) && (!done ==> firstHole == hs'[0].at)
      ensures Kept(old(buf[..]), buf[..], holes)
    {
      hide Missing, FragmentOf, Stored, HolesOk, Field, PutField, Filled, MoreFragments, Separated, Kept, Gap, Gaps,
        NewOrSeen, InHole, Linked, Buried, Carries;
      FragmentFacts(packet, data);
      ListFacts(holes, |data|);
      ghost var e, t, b0 := start + len, |data|, buf[..];
      Plan(holes, k, start, e, offset8, t);
      PlanGaps(buf.Length, holes, k, e, t);
      PlanLinked(holes, k, e, t);
      DescFacts(buf[..], holes, k);
      KeptNot(b0, holes);
      if !MoreFragments(packet) {
        totalLen := start + len;
        StoredShorten(buf[..], holes, k, start + len);
        PutKept(buf[..], h, LAST, start + len, holes);
        SetField(h, LAST, start + len);
      }
      ghost var b1 := buf[..];
      done := Update(offset8, start, len, h, Truncated(holes, k, e, e < t), k, holes);
      KeptTrans(b0, b1, buf[..], holes);
    }

    /** The rest of the function, once the buffer is set up for the datagram. A fragment at the beginning of the
        hole above one at 0 makes the program forget the hole at 0: it has index 0, which stands for no hole. */
    method Accept(packet: seq<octet>, offset8: int, start: int, len: int, ghost data: seq<octet>) returns (lenp: int)
      requires FragmentOf(packet, data) && Valid(data) && offset8 == Be16(packet, 6) % (IP_OFFS + 1)
               && start == 8 * offset8
      requires len == IpLen(packet) - IP_HDR_SIZE && AllOrNone(holes, start, start + len)
      modifies this, buf
      ensures low == LowAfter(old(holes), old(low), start) && Buried(buf[..], low, |data|)
      ensures forall x | 0 <= x < |data| ::
                Missing(holes, x) <==> Missing(old(holes), x) && !(start <= x < start + len) && low <= x
      ensures lenp == NONE ==> Valid(data) && Header(buf[..]) == old(Header(buf[..])) && totalLen != 0
      ensures lenp == NONE <==> exists x :: 0 <= x < |data| && Missing(holes, x)
      ensures lenp != NONE ==> Stamped(buf[..], old(Header(buf[..])), |data|)
      ensures lenp != NONE ==> lenp == |data| + IP_HDR_SIZE && buf[IP_HDR_SIZE + low..lenp] == data[low..]
    {
      hide Missing, FragmentOf, AllOrNone, Stored, HolesOk, Field, PutField, Fill, Truncated, MoreFragments, Separated,
        Kept, Gap, Buried, NewOrSeen, Linked, Carries;
      FragmentFacts(packet, data);
      ListFacts(holes, |data|);
      ghost var e := start + len;
      ghost var hs := holes;
      NoneBelow(hs, low);
      CarriesFacts(buf[..], data, hs, low);
      var h, k := FindHole(start, hs);
      if h == NONE {
        Duplicate(hs, start, e);
        Dropped(hs, start, e, |data|);
        return NONE;
      }
      if offset8 + (len + 7) / 8 <= h {
        PassedBy(hs, k, start, e, offset8, len);
        Dropped(hs, start, e, |data|);
        return NONE;
      }
      FoundCases(hs, k, start, e, offset8, len);
      FoundHiding(hs, k, start, e, offset8);
      if Hides(hs, start) {
        Bury(buf[..], hs, data, low, start, e, offset8);
        holes, low, k := hs[1..], hs[0].last, 0;
      }
      lenp := Merge(packet, offset8, start, len, h, k, data);
    }

    /** The fragment does not reach beyond the buffer. */
    predicate Fits(packet: seq<octet>)
      requires IP_HDR_SIZE <= |packet|
    {
      EndOf(packet) <= buf.Length - IP_HDR_SIZE
    }

    /** __NetDefragment. The result is *lenp, or NONE if NULL is returned; the packet is then in buf. */
    method Defragment(packet: seq<octet>, ghost data: seq<octet>) returns (lenp: int)
      requires IP_HDR_SIZE <= |packet|
      requires Fits(packet) ==> FragmentOf(packet, data) && |data| + 8 + IP_HDR_SIZE <= buf.Length < 0xffff
      requires Fits(packet) ==> Other(packet) || (Valid(data) && AllOrNone(holes, StartOf(packet), EndOf(packet)))
      modifies this, buf
      ensures !Fits(packet) ==> lenp == NONE && unchanged(this, buf)
      ensures Fits(packet) ==>
                low == (if old(Other(packet)) then 0 else LowAfter(old(holes), old(low), StartOf(packet)))
                && Buried(buf[..], low, |data|)
      ensures Fits(packet) ==>
                var first, s, e := old(Other(packet)), StartOf(packet), EndOf(packet);
                forall x | 0 <= x < |data| ::
                  Missing(holes, x) <==> (first || Missing(old(holes), x)) && !(s <= x < e) && low <= x
      ensures Fits(packet) ==>
                var header := if old(Other(packet)) then Header(packet) else old(Header(buf[..]));
                if lenp == NONE then Valid(data) && Header(buf[..]) == header && totalLen != 0
                else Stamped(buf[..], header, |data|)
      ensures Fits(packet) ==> (lenp == NONE <==> exists x :: 0 <= x < |data| && Missing(holes, x))
      ensures Fits(packet) && lenp != NONE ==>
                lenp == |data| + IP_HDR_SIZE && buf[IP_HDR_SIZE + low..lenp] == data[low..]
    {
      hide Valid, Sound, Missing, FragmentOf, AllOrNone, Buried, Stamped;
      var offset8 := Be16(packet, 6) % (IP_OFFS + 1);
      var start := offset8 * 8;
      var len := IpLen(packet) - IP_HDR_SIZE;
      if start + len > buf.Length - IP_HDR_SIZE {
        return NONE;
      }
      FragmentFacts(packet, data);
      if totalLen == 0 || IpId(buf[..]) != IpId(packet) {
        Reset(packet, data);
        FreshHoles(|data|);
        FreshAll(start, start + len);
      }
      lenp := Accept(packet, offset8, start, len, data);
    }

    /** The fragments of one datagram arrive in any order, any of them any number of times. Unless a packet buries
        the fragments below lost, the datagram is complete exactly when all of them have arrived. If one does, it
        is complete when all those from lost on have arrived; it then begins with the end of the hole at 0. */
    method Deliver(frags: seq<seq<octet>>, order: seq<nat>, ghost cut: seq<int>, ghost data: seq<octet>)
      returns (lenp: int, count: nat, ghost lost: nat)
      requires Partition(frags, cut, data) && |data| + 8 + IP_HDR_SIZE <= buf.Length < 0xffff && Other(frags[0])
      requires |order| > 0 && forall j | 0 <= j < |order| :: order[j] < |frags|
      modifies this, buf
      ensures 0 < count <= |order| && lost < |frags|
      ensures lost == 0 <==> NoneBuries(order, |order|)
      ensures lost != 0 ==> exists c :: 0 <= c < count && Buries(order, c, lost)
      ensures lenp == NONE ==> count == |order| && !AllIn(lost, |frags|, order)
      ensures lenp != NONE ==> AllIn(lost, |frags|, order[..count]) && !AllIn(lost, |frags|, order[..count - 1])
      ensures lenp != NONE ==> lenp == |data| + IP_HDR_SIZE && buf[IP_HDR_SIZE + cut[lost]..lenp] == data[cut[lost]..]
      ensures lenp != NONE ==> Stamped(buf[..], Header(frags[order[0]]), |data|)
      ensures lenp != NONE && lost != 0 ==> Le16(buf[..], IP_HDR_SIZE) == cut[lost] && 8 <= cut[lost] < |data|
      ensures lenp != NONE && lost != 0 && Le16(data, 0) != cut[lost] ==> buf[IP_HDR_SIZE..lenp] != data
    {
      hide Valid, Missing, FragmentOf, AllOrNone, Partition, Agree, Buries, HolesOk, LowAfter, Buried, NoneBuries,
        Stamped;
      count, lenp, lost := 0, NONE, 0;
      ghost var seen: set<int> := {};
      PartitionFacts(frags, cut, data, order[0]);
      ghost var header := Header(frags[order[0]]);
      CutRange(frags, cut, data, lost);
      NoneBuriesYet(order);
      while count < |order| && lenp == NONE
        invariant 0 <= count <= |order| && seen == Seen(order, count) && lost < |frags| && 0 <= cut[lost] <= |data|
        invariant count == 0 ==> lost == 0 && Other(frags[0])
        invariant 0 < count && lenp == NONE ==> Valid(data) && Header(buf[..]) == header && totalLen != 0
        invariant 0 < count && lenp == NONE ==> Agree(holes, cut, seen, lost) && low == cut[lost]
        invariant 0 < count && lenp == NONE ==> !AllSeen(lost, |frags|, seen)
        invariant lost == 0 <==> NoneBuries(order, count)
        invariant lost != 0 ==> exists c :: 0 <= c < count && Buries(order, c, lost)
        invariant lenp != NONE ==> lenp == |data| + IP_HDR_SIZE && 0 < count && Stamped(buf[..], header, |data|)
        invariant lenp != NONE ==> AllSeen(lost, |frags|, seen) && !AllSeen(lost, |frags|, Seen(order, count - 1))
        invariant lenp != NONE ==> buf[IP_HDR_SIZE + cut[lost]..lenp] == data[cut[lost]..]
        invariant lenp != NONE ==> Buried(buf[..], cut[lost], |data|)
        decreases |order| - count
      {
        ghost var i := order[count];
        PartitionFacts(frags, cut, data, i);
        FragmentFacts(frags[i], data);
        ghost var lost' := 0;
        if count > 0 && lenp == NONE {
          SameId(buf[..], frags[order[0]]);
        }
        if count > 0 {
          PieceStatus(holes, cut, seen, i, lost);
          ValidFacts(data);
          lost' := BuryStep(frags, holes, cut, data, order, count, lost);
        } else {
          FirstStep(order);
        }
        ghost var first, hs := count == 0, holes;
        lenp := Defragment(frags[order[count]], data);
        AgreeStep(frags, hs, holes, cut, data, seen, i, first, lost, lost');
        CoverStatus(frags, holes, cut, data, seen + {i}, lost');
        BuryWaits(order, count, |frags|, lost, lost');
        NoneBuriesStep(order, count);
        CutRange(frags, cut, data, lost');
        seen, lost := seen + {i}, lost';
        count := count + 1;
      }
      SeenAll(order, count);
      SeenAll(order, count - 1);
      assert lenp != NONE && lost == 0 ==> 0 in seen;
      LaterSteps(order, count, |frags|);
      if lenp != NONE && lost != 0 {
        CutOrder(frags, cut, data, 0, lost);
        BuriedEnd(buf[..], cut[lost], |data|);
        assert buf[IP_HDR_SIZE..lenp] == data ==> buf[IP_HDR_SIZE] == data[0] && buf[IP_HDR_SIZE + 1] == data[1];
      }
    }

    /** Three fragments in the order 1, 2, 0: the second packet completes the datagram without its first block. */
    method FirstBlockLost(frags: seq<seq<octet>>, ghost cut: seq<int>, ghost data: seq<octet>)
      returns (lenp: int, count: nat)
      requires Partition(frags, cut, data) && |frags| == 3 && |data| + 8 + IP_HDR_SIZE <= buf.Length < 0xffff
               && Other(frags[0])
      modifies this, buf
      ensures count == 2 && lenp == |data| + IP_HDR_SIZE && Le16(buf[..], IP_HDR_SIZE) == cut[1]
      ensures 1 < |data| && (Le16(data, 0) != cut[1] ==> buf[IP_HDR_SIZE..lenp] != data)
    {
      hide Partition, NoneBuries;
      ghost var lost;
      OneTwoBuries([1, 2, 0]);
      lenp, count, lost := Deliver(frags, [1, 2, 0], cut, data);
    }

    lemma ValidFacts(data: seq<octet>)
      requires Valid(data)
      ensures HolesOk(holes, |data|) && forall k | 0 <= k < |holes| :: low <= 8 * holes[k].at
    {
    }
  }

  lemma HoleIndex(b: seq<octet>, hs: seq<Hole>, k: int)
    requires Stored(b, hs) && 0 <= k < |hs|
    ensures 0 <= hs[k].at
  {
    DescFacts(b, hs, k);
  }

  /** Every descriptor, and the place for a new one at e, lies in bytes that were missing in hs0. */
  ghost predicate Gaps(n: int, hs: seq<Hole>, k: int, e: int, hs0: seq<Hole>) {
    && (forall j | 0 <= j < |hs| :: Gap(hs0, hs[j].at))
    && (0 <= k < |hs| && e < hs[k].last ==> 0 <= e / 8 && IP_HDR_SIZE + 8 * (e / 8) + 8 <= n && Gap(hs0, e / 8))
  }

  /** The four cases of the update, as the program distinguishes them. */
  lemma FillCases(hs: seq<Hole>, k: int, s: int, e: int, o: int, len: int)
    requires InHole(hs, k, s, e) && s == 8 * o && e == s + len
    ensures var h, hs' := hs[k], Fill(hs, k, s, e);
            if h.at >= o && h.last <= e then hs' == hs[..k] + hs[k + 1..]
            else if h.last <= e then hs' == hs[k := Hole(h.at, s)]
            else (o + len / 8) == e / 8 && Inside(hs, k, e / 8)
                 && if h.at >= o then hs' == hs[k := Hole(e / 8, h.last)] else Divided(hs, k, s, e / 8, hs')
  {
    var h, hs' := hs[k], Fill(hs, k, s, e);
    if h.last <= e {
      if h.at < o {
        assert Rest(h, s, e) == [Hole(h.at, s)];
        assert hs' == hs[k := Hole(h.at, s)];
      }
    } else {
      assert e / 8 == o + len / 8;
      assert 8 * (e / 8) == e;
      if h.at >= o {
        assert Rest(h, s, e) == [Hole(e / 8, h.last)];
        assert hs' == hs[k := Hole(e / 8, h.last)];
      } else {
        assert Rest(h, s, e) == [Hole(h.at, s), Hole(e / 8, h.last)];
      }
    }
  }

  /** What the update makes of the list: a duplicate changes nothing. */
  ghost function Filled(hs: seq<Hole>, k: int, s: int, e: int): seq<Hole>
    requires 0 <= k < |hs|
  {
    if InHole(hs, k, s, e) then Fill(hs, k, s, e) else hs
  }

  lemma UpdateCases(hs: seq<Hole>, k: int, s: int, e: int, o: int, len: int)
    requires 0 <= k < |hs| && s == 8 * o && e == s + len && 0 < len
             && (InHole(hs, k, s, e) || (hs[k].at < o && hs[k].last == s))
    ensures var h, hs' := hs[k], Filled(hs, k, s, e);
            if h.at >= o && h.last <= e then hs' == hs[..k] + hs[k + 1..]
            else if h.last <= e then hs' == hs[k := Hole(h.at, s)]
            else (o + len / 8) == e / 8 && Inside(hs, k, e / 8)
                 && if h.at >= o then hs' == hs[k := Hole(e / 8, h.last)] else Divided(hs, k, s, e / 8, hs')
  {
    if InHole(hs, k, s, e) {
      FillCases(hs, k, s, e, o, len);
    } else {
      assert hs[k := Hole(hs[k].at, s)] == hs;
    }
  }

  lemma AllMissing(b: seq<octet>, b': seq<octet>, t: int)
    requires InBuffer(b, 0) && |b'| == |b| && (forall i | IP_HDR_SIZE <= i < |b| :: b'[i] == b[i]) && 0 < t < 0xffff
    requires Field(b, 0, LAST) == 0xffff && Field(b, 0, NEXT) == 0 && Field(b, 0, PREV) == 0
    ensures var hs := [Hole(0, 0xffff)];
            Stored(b', hs) && HolesOk(hs, t) && forall x | 0 <= x < t :: Missing(hs, x)
  {
    var hs := [Hole(0, 0xffff)];
    assert Desc(b', hs, 0);
    forall x | 0 <= x < t
      ensures Missing(hs, x)
    {
      assert 8 * hs[0].at <= x < hs[0].last;
    }
  }

  /** Missing bytes lie in the hole that the search finds. */
  lemma Found(hs: seq<Hole>, k: int, s: int, e: int)
    requires Separated(hs) && 0 <= k < |hs| && s <= hs[k].last && (forall j | 0 <= j < k :: hs[j].last < s)
    requires s < e && forall x | s <= x < e :: Missing(hs, x)
    ensures 8 * hs[k].at <= s && e <= hs[k].last
  {
    assert Missing(hs, s);
    var j :| 0 <= j < |hs| && 8 * hs[j].at <= s < hs[j].last;
    OneHole(hs, j, s, e);
  }

  /** A fragment that has arrived before either lies below the hole found, or the hole ends where it begins. */
  lemma FoundDuplicate(hs: seq<Hole>, k: int, s: int, e: int, o: int, len: int)
    requires Separated(hs) && 0 <= k < |hs| && s <= hs[k].last && s == 8 * o && e == s + len && 0 < len
    requires forall x | s <= x < e :: !Missing(hs, x)
    ensures o + (len + 7) / 8 <= hs[k].at || (hs[k].at < o && hs[k].last == s)
  {
    var a := hs[k].at;
    if o <= a < o + (len + 7) / 8 {
      NotIn(hs, k, 8 * a);
    }
    if a < o {
      NotIn(hs, k, s);
    }
  }

  /** Only the last hole is cut down, and only for the last fragment. */
  lemma TruncatedOk(hs: seq<Hole>, k: int, s: int, e: int, t: int)
    requires HolesOk(hs, t) && 0 <= k < |hs| && 8 * hs[k].at <= s < e <= hs[k].last && s % 8 == 0 && e <= t
             && (e < t ==> e % 8 == 0)
    requires forall x | s <= x < e :: Missing(hs, x)
    ensures var hs1 := Truncated(hs, k, e, e < t);
            Separated(hs1) && InHole(hs1, k, s, e) && |hs1| == |hs|
                && (forall j | 0 <= j < |hs| :: hs1[j].at == hs[j].at)
            && (e == t ==> k == |hs| - 1 && hs[k].last == 0xffff)
            && (forall x | 0 <= x < t :: Missing(hs1, x) <==> Missing(hs, x))
  {
    var hs1 := Truncated(hs, k, e, e < t);
    if e == t {
      assert Missing(hs, t - 1);
      assert k == |hs| - 1;
      forall x | 0 <= x < t
        ensures Missing(hs1, x) <==> Missing(hs, x)
      {
        TruncatedSame(hs, k, e, x);
      }
    }
  }

  lemma TruncatedSame(hs: seq<Hole>, k: int, e: int, x: int)
    requires 0 <= k < |hs| && x < e <= hs[k].last
    ensures Missing(hs[k := Hole(hs[k].at, e)], x) <==> Missing(hs, x)
  {
    var hs1 := hs[k := Hole(hs[k].at, e)];
    if Missing(hs, x) {
      var j :| 0 <= j < |hs| && 8 * hs[j].at <= x < hs[j].last;
      assert 8 * hs1[j].at <= x < hs1[j].last;
    }
    if Missing(hs1, x) {
      var j :| 0 <= j < |hs1| && 8 * hs1[j].at <= x < hs1[j].last;
      assert 8 * hs[j].at <= x < hs[j].last;
    }
  }

  /** The list stays in order when a fragment has filled its part of a hole. */
  lemma FilledOk(hs: seq<Hole>, k: int, s: int, e: int, t: int)
    requires HolesOk(hs, t) && 0 <= k < |hs| && 8 * hs[k].at <= s < e <= hs[k].last && s % 8 == 0 && e <= t
             && (e < t ==> e % 8 == 0)
    requires forall x | s <= x < e :: Missing(hs, x)
    ensures var hs' := Fill(Truncated(hs, k, e, e < t), k, s, e);
            HolesOk(hs', t) && forall x | 0 <= x < t :: Missing(hs', x) <==> Missing(hs, x) && !(s <= x < e)
  {
    var hs1 := Truncated(hs, k, e, e < t);
    var hs' := Fill(hs1, k, s, e);
    TruncatedOk(hs, k, s, e, t);
    FillSeparated(hs1, k, s, e);
    forall x | 0 <= x < t
      ensures Missing(hs', x) <==> Missing(hs, x) && !(s <= x < e)
    {
      FillMissing(hs1, k, s, e, x);
    }
    FilledEnds(hs, k, s, e, t);
  }

  lemma NotIn(hs: seq<Hole>, i: int, x: int)
    requires 0 <= i < |hs| && !Missing(hs, x)
    ensures x < 8 * hs[i].at || hs[i].last <= x
  {
  }

  lemma FilledEnds(hs: seq<Hole>, k: int, s: int, e: int, t: int)
    requires HolesOk(hs, t) && 0 <= k < |hs| && 8 * hs[k].at <= s < e <= hs[k].last && e <= t && (e < t ==> e % 8 == 0)
             && s % 8 == 0
    requires forall x | s <= x < e :: Missing(hs, x)
    requires var hs' := Fill(Truncated(hs, k, e, e < t), k, s, e); Missing(hs', t - 1) ==> Missing(hs, t - 1) && e < t
    ensures var hs' := Fill(Truncated(hs, k, e, e < t), k, s, e);
            (forall j | 0 <= j < |hs'| ::
                  (hs'[j].last % 8 == 0 && hs'[j].last <= t) || (hs'[j].last == 0xffff && j == |hs'| - 1))
            && (Missing(hs', t - 1) ==> hs' != [] && hs'[|hs'| - 1].last == 0xffff)
  {
    var hs1 := Truncated(hs, k, e, e < t);
    var hs' := Fill(hs1, k, s, e);
    TruncatedOk(hs, k, s, e, t);
    LastEnd(hs, t);
    hide Separated, Missing, Fill, HolesOk;
    forall j | 0 <= j < |hs'|
      ensures (hs'[j].last % 8 == 0 && hs'[j].last <= t) || (hs'[j].last == 0xffff && j == |hs'| - 1)
    {
      var i := FilledLast(hs1, k, s, e, j);
      EndAt(hs, i, t);
    }
    if Missing(hs', t - 1) {
      LastKept(hs1, k, s, e);
    }
  }

  lemma EndAt(hs: seq<Hole>, i: int, t: int)
    requires HolesOk(hs, t) && 0 <= i < |hs|
    ensures (hs[i].last % 8 == 0 && hs[i].last <= t) || (hs[i].last == 0xffff && i == |hs| - 1)
  {
  }

  lemma LastEnd(hs: seq<Hole>, t: int)
    requires HolesOk(hs, t)
    ensures Missing(hs, t - 1) ==> hs != [] && hs[|hs| - 1].last == 0xffff
  {
  }

  /** A hole ends where the fragment begins, or where a hole has ended before. */
  lemma FilledLast(hs: seq<Hole>, k: int, s: int, e: int, j: int) returns (i: int)
    requires 0 <= k < |hs| && 8 * hs[k].at <= s < e <= hs[k].last && 0 <= j < |Fill(hs, k, s, e)|
    ensures var hs' := Fill(hs, k, s, e);
            0 <= i < |hs|
            && (hs'[j].last == s || (hs'[j].last == hs[i].last && (i == |hs| - 1 ==> j == |hs'| - 1)
                                     && (i == k ==> e < hs[k].last)))
  {
    var r := Rest(hs[k], s, e);
    FillAt(hs, k, s, e, j);
    i := if j < k then j else if j < k + |r| then k else j - |r| + 1;
  }

  lemma LastKept(hs: seq<Hole>, k: int, s: int, e: int)
    requires 0 <= k < |hs| && (k == |hs| - 1 ==> e < hs[k].last)
    ensures var hs' := Fill(hs, k, s, e); hs' != [] && hs'[|hs'| - 1].last == hs[|hs| - 1].last
  {
  }

  /** The fragments of one datagram do not overlap in part: a fragment is new, or has arrived before. */
  ghost predicate AllOrNone(hs: seq<Hole>, s: int, e: int) {
    (forall x | s <= x < e :: Missing(hs, x)) || (forall x | s <= x < e :: !Missing(hs, x))
  }

  lemma FragmentFacts(p: seq<octet>, data: seq<octet>)
    requires FragmentOf(p, data)
    ensures IP_HDR_SIZE <= |p| && IpLen(p) <= |p| && StartOf(p) < EndOf(p) <= |data| && IP_HDR_SIZE < IpLen(p)
            && 0 <= StartOf(p)
    ensures MoreFragments(p) <==> EndOf(p) < |data|
    ensures EndOf(p) < |data| ==> EndOf(p) % 8 == 0
  {
  }

  lemma FreshAll(s: int, e: int)
    requires 0 <= s < e < 0xffff
    ensures AllOrNone([Hole(0, 0xffff)], s, e)
  {
    FreshHoles(e);
  }

  lemma FreshHoles(t: int)
    requires 0 < t < 0xffff
    ensures forall x | 0 <= x < t :: Missing([Hole(0, 0xffff)], x)
  {
    var hs := [Hole(0, 0xffff)];
    forall x | 0 <= x < t
      ensures Missing(hs, x)
    {
      assert 8 * hs[0].at <= x < hs[0].last;
    }
  }

  lemma ListFacts(hs: seq<Hole>, t: int)
    requires HolesOk(hs, t)
    ensures Separated(hs) && forall k | 0 <= k < |hs| :: 8 * hs[k].at < t
  {
  }

  /** As long as there is a hole, a byte is missing. */
  lemma StillMissing(hs: seq<Hole>, t: int)
    requires HolesOk(hs, t)
    ensures hs != [] <==> exists x :: 0 <= x < t && Missing(hs, x)
  {
    if hs != [] {
      assert 8 * hs[0].at <= 8 * hs[0].at < hs[0].last;
      assert Missing(hs, 8 * hs[0].at);
    }
  }

  lemma Duplicate(hs: seq<Hole>, s: int, e: int)
    requires AllOrNone(hs, s, e) && s < e && forall j | 0 <= j < |hs| :: hs[j].last < s
    ensures forall x | s <= x < e :: !Missing(hs, x)
  {
  }

  lemma PassedBy(hs: seq<Hole>, k: int, s: int, e: int, o: int, len: int)
    requires AllOrNone(hs, s, e) && s < e && Separated(hs) && 0 <= k < |hs| && s <= hs[k].last
             && forall j | 0 <= j < k :: hs[j].last < s
    requires s == 8 * o && e == s + len && o + (len + 7) / 8 <= hs[k].at
    ensures forall x | s <= x < e :: !Missing(hs, x)
  {
    if forall x | s <= x < e :: Missing(hs, x) {
      Found(hs, k, s, e);
    }
  }

  /** The bytes are all missing and lie in hole k, or have all arrived and begin where hole k ends. */
  ghost predicate NewOrSeen(hs: seq<Hole>, k: int, s: int, e: int, o: int) {
    0 <= k < |hs| &&
    (((forall x | s <= x < e :: Missing(hs, x)) && 8 * hs[k].at <= s && e <= hs[k].last)
     || ((forall x | s <= x < e :: !Missing(hs, x)) && hs[k].at < o && hs[k].last == s))
  }

  lemma FoundCases(hs: seq<Hole>, k: int, s: int, e: int, o: int, len: int)
    requires AllOrNone(hs, s, e) && s < e && Separated(hs) && 0 <= k < |hs| && s <= hs[k].last
             && forall j | 0 <= j < k :: hs[j].last < s
    requires s == 8 * o && e == s + len && hs[k].at < o + (len + 7) / 8
    ensures NewOrSeen(hs, k, s, e, o)
  {
    if forall x | s <= x < e :: Missing(hs, x) {
      Found(hs, k, s, e);
    } else {
      FoundDuplicate(hs, k, s, e, o, len);
    }
  }

  /** What truncation and update make of the list. */
  lemma Plan(hs: seq<Hole>, k: int, s: int, e: int, o: int, t: int)
    requires HolesOk(hs, t) && NewOrSeen(hs, k, s, e, o) && 0 <= s < e <= t < 0xffff && s == 8 * o
             && (e < t ==> e % 8 == 0)
    ensures var hs1 := Truncated(hs, k, e, e < t); var hs' := Filled(hs1, k, s, e);
            Separated(hs1) && |hs1| == |hs| && hs1[k].at == hs[k].at && hs1[0].at == hs[0].at && 8 * hs[k].at < e
            && (InHole(hs1, k, s, e) || (hs1[k].at < o && hs1[k].last == s))
            && HolesOk(hs', t) && (forall x | 0 <= x < t :: Missing(hs', x) <==> Missing(hs, x) && !(s <= x < e))
    ensures e == t ==> Truncated(hs, k, e, e < t) == hs[k := Hole(hs[k].at, e)]
  {
    if forall x | s <= x < e :: Missing(hs, x) {
      hide Separated, Fill;
      assert Missing(hs, s);
      TruncatedOk(hs, k, s, e, t);
      FilledOk(hs, k, s, e, t);
    } else if t <= e {
      SeenLast(hs, k, s, e, t);
    }
  }

  /** The last fragment again: the hole before it is stretched to the end and cut back. */
  lemma SeenLast(hs: seq<Hole>, k: int, s: int, e: int, t: int)
    requires HolesOk(hs, t) && 0 <= k < |hs| && hs[k].last == s && 0 <= s < e == t < 65536 && s % 8 == 0
             && 8 * hs[k].at < s
    requires forall x | s <= x < e :: !Missing(hs, x)
    ensures var hs1 := hs[k := Hole(hs[k].at, e)]; Separated(hs1) && InHole(hs1, k, s, e) && Filled(hs1, k, s, e) == hs
  {
    var hs1 := hs[k := Hole(hs[k].at, e)];
    LastHole(hs, k, t);
    assert Rest(hs1[k], s, e) == [Hole(hs[k].at, s)];
    assert Fill(hs1, k, s, e) == hs;
  }

  lemma LastHole(hs: seq<Hole>, k: int, t: int)
    requires HolesOk(hs, t) && 0 <= k < |hs|
    ensures k < |hs| - 1 ==> exists x :: hs[k].last <= x < t && Missing(hs, x)
  {
    if k < |hs| - 1 {
      var x := 8 * hs[k + 1].at;
      assert 8 * hs[k + 1].at <= x < hs[k + 1].last;
      assert Missing(hs, x);
    }
  }

  lemma PlanGaps(n: int, hs: seq<Hole>, k: int, e: int, t: int)
    requires HolesOk(hs, t) && 0 <= k < |hs| && 0 < e <= t && t + 8 + IP_HDR_SIZE <= n < 0xffff
             && (e < t ==> e % 8 == 0) && 8 * hs[k].at < e
    ensures Gaps(n, Truncated(hs, k, e, e < t), k, e, hs) && Gap(hs, hs[k].at)
  {
    hide Missing, Gap;
    forall j | 0 <= j < |hs|
      ensures Gap(hs, hs[j].at)
    {
      RoomyGap(hs, j, hs[j].at);
    }
    if e < t && e < hs[k].last {
      RoomyGap(hs, k, e / 8);
    }
  }

  lemma KeptNot(b: seq<octet>, hs: seq<Hole>)
    ensures Kept(b, b, hs)
  {
  }

  /** All bytes from low on that are not missing are in the buffer. */
  lemma Arrived(b0: seq<octet>, b1: seq<octet>, b2: seq<octet>, hs: seq<Hole>, hs': seq<Hole>, p: seq<octet>,
                data: seq<octet>, s: int, e: int, low: int)
    requires FragmentOf(p, data) && s == StartOf(p) && e == EndOf(p) && Kept(b0, b1, hs) && |b2| == |b1|
    requires Carries(b0, data, hs, low) && low <= s
    requires forall i | 0 <= i < |b1| :: b2[i] == if IP_HDR_SIZE + s <= i < IP_HDR_SIZE + e then p[i - s] else b1[i]
    requires forall x | 0 <= x < |data| :: Missing(hs', x) <==> Missing(hs, x) && !(s <= x < e)
    requires forall x | 0 <= x < low :: !Missing(hs, x)
    ensures Carries(b2, data, hs', low) && Header(b2) == Header(b0)
  {
    hide Missing;
    forall x | low <= x < |data| && !Missing(hs', x)
      ensures b2[IP_HDR_SIZE + x] == data[x]
    {
      if s <= x < e {
        assert p[IP_HDR_SIZE + x - s] == data[x];
      } else {
        assert b1[IP_HDR_SIZE + x] == b0[IP_HDR_SIZE + x];
      }
    }
    if low != 0 {
      assert b1[IP_HDR_SIZE + 0] == b0[IP_HDR_SIZE + 0] && b1[IP_HDR_SIZE + 1] == b0[IP_HDR_SIZE + 1];
    }
  }

  /** The identification is part of the header. */
  lemma SameId(b: seq<octet>, p: seq<octet>)
    requires IP_HDR_SIZE <= |b| && IP_HDR_SIZE <= |p| && Header(b) == Header(p)
    ensures IpId(b) == IpId(p)
  {
    assert Header(b)[4] == Header(p)[4] && Header(b)[5] == Header(p)[5];
  }

  lemma RoomFor(b: seq<octet>, data: seq<octet>, hs: seq<Hole>, low: int)
    requires Carries(b, data, hs, low)
    ensures IP_HDR_SIZE + |data| <= |b|
  {
  }

  lemma KeptLength(b: seq<octet>, b': seq<octet>, hs: seq<Hole>)
    requires Kept(b, b', hs)
    ensures |b'| == |b|
  {
  }

  /** When nothing is missing any more, the bytes from low on are those of the datagram. */
  lemma AllCarried(b: seq<octet>, b': seq<octet>, data: seq<octet>, hs: seq<Hole>, low: int)
    requires Carries(b, data, hs, low) && (forall x | 0 <= x < |data| :: !Missing(hs, x))
    requires |b'| == |b| && forall i | IP_HDR_SIZE <= i < |b| :: b'[i] == b[i]
    ensures 0 <= low <= |data| && Buried(b', low, |data|) && b'[IP_HDR_SIZE + low..IP_HDR_SIZE + |data|] == data[low..]
  {
  }

  // The hole that begins at byte 0, while there are others.

  /** A fragment that begins at s fills the beginning of the hole above the one at 0. */
  ghost predicate Hides(hs: seq<Hole>, s: int) {
    2 <= |hs| && hs[0].at == 0 && s == 8 * hs[1].at
  }

  ghost function LowAfter(hs: seq<Hole>, low: int, s: int): int {
    if Hides(hs, s) then hs[0].last else low
  }

  lemma NotHiding(hs: seq<Hole>, s: int, e: int)
    requires Separated(hs) && s < e && forall x | s <= x < e :: !Missing(hs, x)
    ensures !Hides(hs, s)
  {
    if Hides(hs, s) {
      NotIn(hs, 1, s);
    }
  }

  /** In all other cases the links of hole k are what they should be, or the program does not follow them. */
  lemma FoundHiding(hs: seq<Hole>, k: int, s: int, e: int, o: int)
    requires Separated(hs) && NewOrSeen(hs, k, s, e, o) && s == 8 * o && s < e
    ensures Hides(hs, s) ==> k == 1 && hs[k].at == o
    ensures !Hides(hs, s) ==> hs[k].at < o || Linked(hs, k)
  {
    if Hides(hs, s) {
      assert 8 * hs[1].at <= s < hs[1].last;
      assert Missing(hs, s);
    }
  }

  /** The rest of the list is a list by itself. */
  lemma BuryOk(b: seq<octet>, hs: seq<Hole>, t: int)
    requires Stored(b, hs) && HolesOk(hs, t) && 2 <= |hs| && hs[0].at == 0
    ensures var r, low := hs[1..], hs[0].last;
            Stored(b, r) && HolesOk(r, t) && Buried(b, low, t) && 0 < low
                && (forall k | 0 <= k < |r| :: low <= 8 * r[k].at)
            && forall x | 0 <= x < t :: Missing(r, x) <==> Missing(hs, x) && low <= x
  {
    var r, low := hs[1..], hs[0].last;
    DescFacts(b, hs, 0);
    forall k | 0 <= k < |r|
      ensures Desc(b, r, k)
    {
      assert Desc(b, hs, k + 1);
    }
    forall x | 0 <= x < t
      ensures Missing(r, x) <==> Missing(hs, x) && low <= x
    {
      TailMissing(hs, x);
    }
    assert hs[0].last < 8 * hs[1].at < t;
  }

  lemma CarriesFacts(b: seq<octet>, data: seq<octet>, hs: seq<Hole>, low: int)
    requires Carries(b, data, hs, low)
    ensures Buried(b, low, |data|) && 0 <= low
  {
  }

  lemma BuryCarries(b: seq<octet>, hs: seq<Hole>, data: seq<octet>)
    requires Carries(b, data, hs, 0) && 2 <= |hs| && Buried(b, hs[0].last, |data|) && 0 < hs[0].last
    requires forall x | 0 <= x < |data| :: Missing(hs[1..], x) <==> Missing(hs, x) && hs[0].last <= x
    ensures Carries(b, data, hs[1..], hs[0].last)
  {
    hide Missing;
  }

  lemma TailMissing(hs: seq<Hole>, x: int)
    requires Separated(hs) && hs != []
    ensures Missing(hs[1..], x) <==> Missing(hs, x) && (x < 8 * hs[0].at || hs[0].last <= x)
  {
    var r := hs[1..];
    if Missing(r, x) {
      var k :| 0 <= k < |r| && 8 * r[k].at <= x < r[k].last;
      assert hs[k + 1] == r[k];
    }
    if Missing(hs, x) && (x < 8 * hs[0].at || hs[0].last <= x) {
      var k :| 0 <= k < |hs| && 8 * hs[k].at <= x < hs[k].last;
      assert r[k - 1] == hs[k];
    }
  }

  /** The view of the program from then on. */
  lemma Bury(b: seq<octet>, hs: seq<Hole>, data: seq<octet>, low0: int, s: int, e: int, o: int)
    requires Stored(b, hs) && HolesOk(hs, |data|) && Carries(b, data, hs, low0) && Hides(hs, s) && s == 8 * o && s < e
    requires NewOrSeen(hs, 1, s, e, o) && forall k | 0 <= k < |hs| :: low0 <= 8 * hs[k].at
    ensures var r, low := hs[1..], hs[0].last;
            r != [] && Stored(b, r) && HolesOk(r, |data|) && Carries(b, data, r, low)
            && (forall k | 0 <= k < |r| :: low <= 8 * r[k].at) && low < |data|
            && NewOrSeen(r, 0, s, e, o) && Linked(r, 0) && r[0] == hs[1]
    ensures forall x | 0 <= x < |data| :: Missing(hs[1..], x) <==> Missing(hs, x) && hs[0].last <= x
  {
    hide Stored, HolesOk, Carries, Missing, NewOrSeen, Linked, Separated;
    ListFacts(hs, |data|);
    CarriesFacts(b, data, hs, low0);
    BuryOk(b, hs, |data|);
    BuryCarries(b, hs, data);
    NewAbove(hs, s, e, o);
  }

  lemma Dropped(hs: seq<Hole>, s: int, e: int, t: int)
    requires HolesOk(hs, t) && hs != [] && s < e && forall x | s <= x < e :: !Missing(hs, x)
    ensures !Hides(hs, s) && exists x :: 0 <= x < t && Missing(hs, x)
  {
    hide Missing, HolesOk, Separated;
    ListFacts(hs, t);
    NotHiding(hs, s, e);
    StillMissing(hs, t);
  }

  lemma NewAbove(hs: seq<Hole>, s: int, e: int, o: int)
    requires Separated(hs) && 2 <= |hs| && NewOrSeen(hs, 1, s, e, o) && s == 8 * hs[1].at == 8 * o && s < e
    ensures NewOrSeen(hs[1..], 0, s, e, o) && Linked(hs[1..], 0)
  {
    assert 8 * hs[1].at <= s < hs[1].last;
    assert Missing(hs, s);
    forall x | s <= x < e
      ensures Missing(hs[1..], x)
    {
      TailMissing(hs, x);
    }
  }

  lemma NoneBelow(hs: seq<Hole>, low: int)
    requires forall k | 0 <= k < |hs| :: low <= 8 * hs[k].at
    ensures forall x | x < low :: !Missing(hs, x)
  {
  }

  /** The fragment and the holes that are left lie above low. */
  lemma Above(hs: seq<Hole>, hs': seq<Hole>, k: int, low: int, s: int, e: int, o: int, t: int)
    requires HolesOk(hs, t) && HolesOk(hs', t) && NewOrSeen(hs, k, s, e, o) && s == 8 * o
    requires forall j | 0 <= j < |hs| :: low <= 8 * hs[j].at
    requires forall x | 0 <= x < t :: Missing(hs', x) <==> Missing(hs, x) && !(s <= x < e)
    ensures low <= s && (forall x | x < low :: !Missing(hs, x)) && forall j | 0 <= j < |hs'| :: low <= 8 * hs'[j].at
  {
    NoneBelow(hs, low);
    forall j | 0 <= j < |hs'|
      ensures low <= 8 * hs'[j].at
    {
      assert 8 * hs'[j].at <= 8 * hs'[j].at < hs'[j].last;
      assert Missing(hs', 8 * hs'[j].at);
    }
  }

  lemma PlanLinked(hs: seq<Hole>, k: int, e: int, t: int)
    requires 0 <= k < |hs|
    ensures Linked(hs, k) ==> Linked(Truncated(hs, k, e, e < t), k)
  {
  }

  // A whole datagram.

  /** frags[i] carries bytes cut[i] up to cut[i + 1] of the payload; there is more than one fragment. */
  ghost predicate Partition(frags: seq<seq<octet>>, cut: seq<int>, data: seq<octet>) {
    && 2 <= |frags| && |cut| == |frags| + 1 && cut[0] == 0 && cut[|frags|] == |data|
    && (forall i, j | 0 <= i < j < |cut| :: cut[i] < cut[j]) && IP_HDR_SIZE <= |frags[0]|
    && forall i | 0 <= i < |frags| ::
         FragmentOf(frags[i], data) && StartOf(frags[i]) == cut[i] && EndOf(frags[i]) == cut[i + 1]
             && IpId(frags[i]) == IpId(frags[0])
  }

  ghost predicate Carried(p: seq<octet>, header: seq<octet>, data: seq<octet>, s: int, e: int) {
    |header| == IP_HDR_SIZE && 0 <= s < e <= |data| <= 0xffff - IP_HDR_SIZE && s % 8 == 0
    && p == Fragment(header, data, s, e)
  }

  /** So any cut at multiples of 8 makes fragments of the datagram. */
  lemma Fragmented(header: seq<octet>, frags: seq<seq<octet>>, cut: seq<int>, data: seq<octet>)
    requires 2 <= |frags| && |cut| == |frags| + 1
    requires cut[0] == 0 && cut[|frags|] == |data| && forall i, j | 0 <= i < j < |cut| :: cut[i] < cut[j]
    requires forall i | 0 <= i < |frags| :: Carried(frags[i], header, data, cut[i], cut[i + 1])
    ensures Partition(frags, cut, data)
  {
    hide FragmentOf, Fragment;
    assert Carried(frags[0], header, data, cut[0], cut[1]);
    forall i | 0 <= i < |frags|
      ensures FragmentOf(frags[i], data) && IP_HDR_SIZE <= |frags[i]| && StartOf(frags[i]) == cut[i]
              && EndOf(frags[i]) == cut[i + 1] && IpId(frags[i]) == 256 * (header[4] as int) + header[5]
    {
      assert Carried(frags[i], header, data, cut[i], cut[i + 1]);
      assert i + 1 < |frags| ==> Carried(frags[i + 1], header, data, cut[i + 1], cut[i + 2]);
      FragmentRead(header, data, cut[i], cut[i + 1]);
      FragmentFacts(frags[i], data);
    }
  }

  lemma PartitionFacts(frags: seq<seq<octet>>, cut: seq<int>, data: seq<octet>, i: int)
    requires Partition(frags, cut, data) && 0 <= i < |frags|
    ensures |cut| == |frags| + 1 && FragmentOf(frags[i], data) && IP_HDR_SIZE <= |frags[i]| && IP_HDR_SIZE <= |frags[0]|
    ensures StartOf(frags[i]) == cut[i] && EndOf(frags[i]) == cut[i + 1] && IpId(frags[i]) == IpId(frags[0])
            && cut[i] < cut[i + 1]
    ensures cut[0] == 0 && (i == 0 ==> MoreFragments(frags[i])) && 0 < cut[1]
  {
    assert FragmentOf(frags[0], data);
    assert cut[0] < cut[1] && cut[i] < cut[i + 1];
    assert cut[1] < cut[|frags|];
  }

  /** The fragments that have arrived when count packets have been processed. */
  ghost function Seen(order: seq<nat>, count: int): set<int> {
    set j | 0 <= j < count && j < |order| :: order[j]
  }

  /** The fragments from lost on have all arrived. */
  ghost predicate AllSeen(lost: int, n: int, seen: set<int>) {
    forall i | lost <= i < n :: i in seen
  }

  ghost predicate AllIn(lost: int, n: int, order: seq<nat>) {
    forall i | lost <= i < n :: i in order
  }

  /** Packet c is the first to carry its fragment, and all fragments between it and the lowest one that has
      arrived are there, but not those below l, the lowest one. The program then forgets the fragments below l. */
  ghost predicate Buries(order: seq<nat>, c: int, l: int) {
    && 0 <= c < |order| && 0 < l < order[c] && order[c] !in Seen(order, c)
    && forall i | 0 <= i < order[c] :: i in Seen(order, c) <==> l <= i
  }

  ghost predicate NoneBuries(order: seq<nat>, count: int) {
    forall c, l | 0 <= c < count :: !Buries(order, c, l)
  }

  lemma OneTwoBuries(order: seq<nat>)
    requires order == [1, 2, 0]
    ensures Buries(order, 1, 1) && !NoneBuries(order, 3) && (forall c, l | Buries(order, c, l) :: c == 1 && l == 1)
    ensures 1 in order[..2] && 2 in order[..2] && !(2 in order[..1])
  {
    assert order[0] == 1 && order[1] == 2;
    assert order[..2] == [1, 2] && order[..1] == [1];
    assert Seen(order, 1) == {order[0]};
    forall c, l | Buries(order, c, l)
      ensures c == 1 && l == 1
    {
      assert c == 0 ==> l !in Seen(order, c);
    }
  }

  lemma NoneBuriesYet(order: seq<nat>)
    ensures NoneBuries(order, 0)
  {
  }

  lemma NoneBuriesStep(order: seq<nat>, count: int)
    requires 0 <= count
    ensures NoneBuries(order, count + 1) <==> NoneBuries(order, count) && forall l :: !Buries(order, count, l)
  {
    hide Buries;
  }

  lemma FirstStep(order: seq<nat>)
    ensures forall l :: !Buries(order, 0, l)
  {
    forall l
      ensures !Buries(order, 0, l)
    {
      assert l !in Seen(order, 0);
    }
  }

  /** Once fragment 0 is there, nothing can be buried. */
  lemma LaterSteps(order: seq<nat>, count: int, n: int)
    requires 0 <= count <= |order| && 0 < n
    ensures 0 in Seen(order, count) || count == |order| ==> (NoneBuries(order, |order|) <==> NoneBuries(order, count))
    ensures NoneBuries(order, |order|) ==> NoneBuries(order, count)
  {
    if 0 in Seen(order, count) && NoneBuries(order, count) {
      forall c, l | 0 <= c < |order|
        ensures !Buries(order, c, l)
      {
        assert count <= c ==> 0 in Seen(order, c);
      }
    }
  }

  /** Nothing is buried if fragment 0 comes first or second, or if no fragment follows a lower one. */
  lemma ZeroFirst(order: seq<nat>)
    requires 0 in order[..if |order| < 2 then |order| else 2] || forall i, j | 0 <= i < j < |order| ::
               order[j] <= order[i]
    ensures NoneBuries(order, |order|)
  {
    forall c, l | 0 <= c < |order|
      ensures !Buries(order, c, l)
    {
      assert c == 0 ==> l !in Seen(order, c);
      if 0 in order[..if |order| < 2 then |order| else 2] {
        assert order[c] == 0 || c == 0 || 0 in Seen(order, c);
      } else {
        assert l < order[c] ==> l !in Seen(order, c);
      }
    }
  }

  /** The packet that buries fragments is itself one of those that are still to come. */
  lemma BuryWaits(order: seq<nat>, count: int, n: int, lost: int, lost': int)
    requires 0 <= count < |order| && order[count] < n
    requires lost' == lost || Buries(order, count, lost')
    ensures lost' == lost || !AllSeen(lost', n, Seen(order, count))
  {
    if lost' != lost {
      assert lost' <= order[count];
    }
  }

  lemma SeenAll(order: seq<nat>, count: int)
    requires 0 <= count <= |order|
    ensures forall i :: i in Seen(order, count) <==> i in order[..count]
    ensures count == |order| ==> forall i :: i in Seen(order, count) <==> i in order
  {
    assert order[..|order|] == order;
    forall i
      ensures i in Seen(order, count) <==> i in order[..count]
    {
      if i in order[..count] {
        var j :| 0 <= j < count && order[..count][j] == i;
        assert order[j] == i;
      }
      if i in Seen(order, count) {
        var j :| 0 <= j < count && j < |order| && order[j] == i;
        assert order[..count][j] == i;
      }
    }
  }

  /** A byte is missing exactly if the fragment that carries it has not arrived and is not lost. */
  ghost predicate Agree(hs: seq<Hole>, cut: seq<int>, seen: set<int>, lost: int) {
    forall i, x | 0 <= i < |cut| - 1 && cut[i] <= x < cut[i + 1] :: Missing(hs, x) <==> i !in seen && lost <= i
  }

  lemma PieceStatus(hs: seq<Hole>, cut: seq<int>, seen: set<int>, i: int, lost: int)
    requires Agree(hs, cut, seen, lost) && 0 <= i < |cut| - 1
    ensures AllOrNone(hs, cut[i], cut[i + 1])
  {
    hide Missing;
    if i in seen || i < lost {
      assert forall x | cut[i] <= x < cut[i + 1] :: !Missing(hs, x);
    } else {
      assert forall x | cut[i] <= x < cut[i + 1] :: Missing(hs, x);
    }
  }

  lemma AgreeStep(frags: seq<seq<octet>>, hs: seq<Hole>, hs': seq<Hole>, cut: seq<int>, data: seq<octet>,
                  seen: set<int>,
                  i: int, first: bool, lost: int, lost': int)
    requires Partition(frags, cut, data) && 0 <= i < |frags| && 0 <= lost <= lost' < |frags|
    requires (first ==> seen == {} && lost == 0) && (!first ==> Agree(hs, cut, seen, lost))
    requires forall x | 0 <= x < |data| ::
               Missing(hs', x) <==>
                     (first || Missing(hs, x)) && !(StartOf(frags[i]) <= x < EndOf(frags[i])) && cut[lost'] <= x
    ensures Agree(hs', cut, seen + {i}, lost')
  {
    hide Missing;
    forall j, x | 0 <= j < |cut| - 1 && cut[j] <= x < cut[j + 1]
      ensures Missing(hs', x) <==> j !in seen + {i} && lost' <= j
    {
      PartitionFacts(frags, cut, data, i);
      Within(frags, cut, data, j, x, i);
      CutBelow(frags, cut, data, j, x, lost');
    }
  }

  lemma CutBelow(frags: seq<seq<octet>>, cut: seq<int>, data: seq<octet>, j: int, x: int, i: int)
    requires Partition(frags, cut, data) && 0 <= j < |frags| && cut[j] <= x < cut[j + 1] && 0 <= i <= |frags|
    ensures cut[i] <= x <==> i <= j
  {
    hide FragmentOf;
    if i < j {
      assert cut[i] < cut[j];
    }
    if j + 1 < i {
      assert cut[j + 1] < cut[i];
    }
  }

  // Burying, told by the hole list and by the order of the packets.

  lemma BuryStep(frags: seq<seq<octet>>, hs: seq<Hole>, cut: seq<int>, data: seq<octet>, order: seq<nat>, c: int,
                 lost: int)
    returns (lost': int)
    requires Partition(frags, cut, data) && HolesOk(hs, |data|) && 0 <= c < |order| && order[c] < |frags|
    requires Agree(hs, cut, Seen(order, c), lost) && 0 <= lost < |frags|
    requires forall k | 0 <= k < |hs| :: cut[lost] <= 8 * hs[k].at
    ensures lost <= lost' < |frags| && cut[lost'] == LowAfter(hs, cut[lost], cut[order[c]])
    ensures lost' == lost || Buries(order, c, lost')
    ensures lost == 0 ==> (lost' == 0 <==> forall l :: !Buries(order, c, l))
  {
    hide Missing, HolesOk, FragmentOf, Buries, Agree;
    lost' := lost;
    PartitionFacts(frags, cut, data, order[c]);
    if 0 < lost {
      assert cut[0] < cut[lost];
    } else {
      if Hides(hs, cut[order[c]]) {
        lost' := HidesThen(frags, hs, cut, data, order, c);
      }
      forall l
        ensures lost' == 0 ==> !Buries(order, c, l)
      {
        if Buries(order, c, l) {
          BuriesThen(frags, hs, cut, data, order, c, l);
        }
      }
    }
  }

  /** The hole at 0 ends where the lowest fragment that has arrived begins. */
  lemma HidesThen(frags: seq<seq<octet>>, hs: seq<Hole>, cut: seq<int>, data: seq<octet>, order: seq<nat>, c: int)
    returns (l: int)
    requires Partition(frags, cut, data) && HolesOk(hs, |data|) && 0 <= c < |order| && order[c] < |frags|
    requires Agree(hs, cut, Seen(order, c), 0) && Hides(hs, cut[order[c]])
    ensures 0 < l < |frags| && cut[l] == hs[0].last && Buries(order, c, l)
  {
    var n, y := order[c], hs[0].last;
    PartitionFacts(frags, cut, data, n);
    CutOrder(frags, cut, data, n, |frags|);
    FirstHoles(hs, |data|);
    hide FragmentOf, HolesOk, Missing, Agree, Seen, Partition;
    l := PieceAt(frags, hs, cut, data, Seen(order, c), y, n);
    CutOrder(frags, cut, data, l, n);
    CutOrder(frags, cut, data, 0, l);
    forall i | 0 <= i < n
      ensures i in Seen(order, c) <==> l <= i
    {
      CutOrder(frags, cut, data, i, n);
      CutOrder(frags, cut, data, i, l);
      SeenAt(frags, hs, cut, data, Seen(order, c), i);
    }
    SeenAt(frags, hs, cut, data, Seen(order, c), n);
  }

  lemma SeenAt(frags: seq<seq<octet>>, hs: seq<Hole>, cut: seq<int>, data: seq<octet>, seen: set<int>, i: int)
    requires Partition(frags, cut, data) && Agree(hs, cut, seen, 0) && 0 <= i < |frags|
    ensures 0 <= cut[i] <= cut[|frags|] && (Missing(hs, cut[i]) <==> i !in seen)
  {
    hide FragmentOf, Missing;
    CutOrder(frags, cut, data, 0, i);
    CutOrder(frags, cut, data, i, |frags|);
    CutOrder(frags, cut, data, i, i + 1);
  }

  /** The first byte that is there begins a fragment. */
  lemma PieceAt(frags: seq<seq<octet>>, hs: seq<Hole>, cut: seq<int>, data: seq<octet>, seen: set<int>, y: int, n: int)
    returns (l: int)
    requires Partition(frags, cut, data) && Agree(hs, cut, seen, 0) && 0 <= n < |frags| && 0 < y < cut[n]
    requires !Missing(hs, y) && forall x | 0 <= x < y :: Missing(hs, x)
    ensures 0 <= l < |frags| && cut[l] == y
  {
    hide FragmentOf, Missing;
    CutOrder(frags, cut, data, n, |frags|);
    l := PieceOf(frags, cut, data, y, |frags|);
    SeenAt(frags, hs, cut, data, seen, l);
  }

  /** Below the first hole's end all is missing, up to the next hole nothing is. */
  lemma FirstHoles(hs: seq<Hole>, t: int)
    requires HolesOk(hs, t) && 2 <= |hs| && hs[0].at == 0
    ensures 0 < hs[0].last < 8 * hs[1].at < t && forall x | 0 <= x <= 8 * hs[1].at :: Missing(hs, x) <==>
              x < hs[0].last || x == 8 * hs[1].at
  {
    forall x | 0 <= x <= 8 * hs[1].at
      ensures Missing(hs, x) <==> x < hs[0].last || x == 8 * hs[1].at
    {
      if x < hs[0].last {
        assert 8 * hs[0].at <= x < hs[0].last;
      } else if x == 8 * hs[1].at {
        assert 8 * hs[1].at <= x < hs[1].last;
      } else if Missing(hs, x) {
        var k :| 0 <= k < |hs| && 8 * hs[k].at <= x < hs[k].last;
      }
    }
  }

  lemma CutRange(frags: seq<seq<octet>>, cut: seq<int>, data: seq<octet>, i: int)
    requires Partition(frags, cut, data) && 0 <= i < |frags|
    ensures |cut| == |frags| + 1 && 0 == cut[0] <= cut[i] <= |data|
  {
    CutOrder(frags, cut, data, 0, i);
    CutOrder(frags, cut, data, i, |frags|);
  }

  lemma BuriedEnd(b: seq<octet>, low: int, t: int)
    requires Buried(b, low, t) && low != 0
    ensures IP_HDR_SIZE + 1 < |b| && Le16(b, IP_HDR_SIZE) == low && 8 <= low < t
  {
  }

  lemma CutOrder(frags: seq<seq<octet>>, cut: seq<int>, data: seq<octet>, i: int, j: int)
    requires Partition(frags, cut, data) && 0 <= i < |cut| && 0 <= j < |cut|
    ensures i < j <==> cut[i] < cut[j]
    ensures i == j <==> cut[i] == cut[j]
  {
    if i < j {
      assert cut[i] < cut[j];
    } else if j < i {
      assert cut[j] < cut[i];
    }
  }

  lemma BuriesThen(frags: seq<seq<octet>>, hs: seq<Hole>, cut: seq<int>, data: seq<octet>, order: seq<nat>, c: int,
                   l: int)
    requires Partition(frags, cut, data) && HolesOk(hs, |data|) && 0 <= c < |order| && order[c] < |frags|
    requires Agree(hs, cut, Seen(order, c), 0) && Buries(order, c, l)
    ensures Hides(hs, cut[order[c]])
  {
    hide FragmentOf;
    var n := order[c];
    forall x | 0 <= x <= cut[n]
      ensures Missing(hs, x) <==> x < cut[l] || x == cut[n]
    {
      hide HolesOk, Missing;
      PartitionFacts(frags, cut, data, n);
      CutOrder(frags, cut, data, n, |frags|);
      var i := PieceOf(frags, cut, data, x, |frags|);
      CutBelow(frags, cut, data, i, x, l);
      CutBelow(frags, cut, data, i, x, n);
    }
    PartitionFacts(frags, cut, data, n);
    CutOrder(frags, cut, data, 0, l);
    CutOrder(frags, cut, data, l, n);
    TwoHoles(hs, cut[l], cut[n]);
  }

  lemma TwoHoles(hs: seq<Hole>, y: int, z: int)
    requires Separated(hs) && 0 < y < z && forall x | 0 <= x <= z :: Missing(hs, x) <==> x < y || x == z
    ensures Hides(hs, z)
  {
    assert Missing(hs, 0) && Missing(hs, z) && !Missing(hs, y) && !Missing(hs, z - 1);
    var i :| 0 <= i < |hs| && 8 * hs[i].at <= 0 < hs[i].last;
    var j :| 0 <= j < |hs| && 8 * hs[j].at <= z < hs[j].last;
    NotIn(hs, i, y);
    NotIn(hs, j, z - 1);
    AfterHole(hs, i);
    assert i == 0 && hs[0].last == y && 1 <= j && 8 * hs[j].at == z;
    var w := 8 * hs[1].at;
    assert 8 * hs[1].at <= w < hs[1].last;
    assert Missing(hs, w) && y < w;
  }

  lemma Within(frags: seq<seq<octet>>, cut: seq<int>, data: seq<octet>, j: int, x: int, i: int)
    requires Partition(frags, cut, data) && 0 <= j < |frags| && cut[j] <= x < cut[j + 1] && 0 <= i < |frags|
    ensures 0 <= x < |data| && (cut[i] <= x < cut[i + 1] <==> i == j)
  {
    hide FragmentOf;
    if j + 1 < |frags| {
      assert cut[j + 1] < cut[|frags|];
    }
    if 0 < j {
      assert cut[0] < cut[j];
    }
    if i < j && i + 1 < j {
      assert cut[i + 1] < cut[j];
    }
    if j < i && j + 1 < i {
      assert cut[j + 1] < cut[i];
    }
  }

  /** Every byte is carried by some fragment. */
  lemma {:induction false} PieceOf(frags: seq<seq<octet>>, cut: seq<int>, data: seq<octet>, x: int, n: int)
    returns (i: int)
    requires Partition(frags, cut, data) && 0 <= n < |cut| && 0 <= x < cut[n]
    ensures 0 <= i < n && cut[i] <= x < cut[i + 1]
    decreases n
  {
    if cut[n - 1] <= x {
      i := n - 1;
    } else {
      i := PieceOf(frags, cut, data, x, n - 1);
    }
  }

  lemma CoverStatus(frags: seq<seq<octet>>, hs: seq<Hole>, cut: seq<int>, data: seq<octet>, seen: set<int>, lost: int)
    requires Partition(frags, cut, data) && Agree(hs, cut, seen, lost) && 0 <= lost
    ensures (exists x :: 0 <= x < |data| && Missing(hs, x)) <==> !AllSeen(lost, |frags|, seen)
  {
    hide Missing, FragmentOf;
    if x :| 0 <= x < |data| && Missing(hs, x) {
      var i := PieceOf(frags, cut, data, x, |frags|);
      assert i !in seen && lost <= i;
    }
    if i :| lost <= i < |frags| && i !in seen {
      assert cut[i] < cut[i + 1];
      Within(frags, cut, data, i, cut[i], i);
      assert Missing(hs, cut[i]);
    }
  }
}
