/**
 The bins of malloc.c: circular doubly linked lists threaded through the free chunks. The bin headers
 live in the array av_, laid out so that a header can be treated as a chunk.
 */
module BinLists {
  import opened Headers

  const NAV := 128
  const AV := 4096
  const AV_END := AV + 8 * NAV + 16

  function BinAt(i: int): int {
    AV + 8 * i
  }

  /** bin says in which list a linked chunk is; ring[b] is list b from first (fd) to last (bk). */
  datatype Bins = Bins(bin: map<int, int>, ring: seq<seq<int>>)

  /** A list with its header at both ends. */
  function Full(b: int, r: seq<int>): seq<int> {
    [BinAt(b)] + r + [BinAt(b)]
  }

  /** Neighbours in s point at each other. */
  ghost predicate Links(m: Memory, s: seq<int>) {
    forall i, j | 0 <= i < j < |s| && j == i + 1 :: Rd(m, s[i] + FD) == s[j] && Rd(m, s[j] + BK) == s[i]
  }

  /** s closes on itself and its nodes do not overlap. */
  ghost predicate Closed(s: seq<int>) {
    && 2 <= |s| && s[0] == s[|s| - 1]
    && forall i, j | 0 <= i < j < |s| - 1 :: s[i] + 8 <= s[j] || s[j] + 8 <= s[i]
  }

  /** unlink, on one list. */
  lemma LinksRemove(m: Memory, s: seq<int>, i: int)
    requires Links(m, s) && Closed(s) && 0 < i < |s| - 1
    ensures Links(m[s[i + 1] + BK := s[i - 1]][s[i - 1] + FD := s[i + 1]], s[..i] + s[i + 1..])
  {
    var m' := m[s[i + 1] + BK := s[i - 1]][s[i - 1] + FD := s[i + 1]];
    var s' := s[..i] + s[i + 1..];
    forall j, k | 0 <= j < k < |s'| && k == j + 1
      ensures Rd(m', s'[j] + FD) == s'[k] && Rd(m', s'[k] + BK) == s'[j]
    {
      if k < i {
        assert s'[j] == s[j] && s'[k] == s[k];
      } else if j >= i {
        assert s'[j] == s[j + 1] && s'[k] == s[k + 1];
      }
    }
  }

  /** The writes of a list insertion, between positions i - 1 and i. */
  function Inserted(m: Memory, bk: int, fd: int, p: int): Memory {
    m[p + BK := bk][p + FD := fd][bk + FD := p][fd + BK := p]
  }

  lemma LinksInsert(m: Memory, s: seq<int>, i: int, p: int)
    requires Links(m, s) && Closed(s) && 0 < i < |s|
    requires forall j | 0 <= j < |s| :: s[j] + 8 <= p || p + 8 <= s[j]
    ensures Links(Inserted(m, s[i - 1], s[i], p), s[..i] + [p] + s[i..])
  {
    hide Links;
    var m' := Inserted(m, s[i - 1], s[i], p);
    var s' := s[..i] + [p] + s[i..];
    forall j, k | 0 <= j < k < |s'| && k == j + 1
      ensures Rd(m', s'[j] + FD) == s'[k] && Rd(m', s'[k] + BK) == s'[j]
    {
      if k < i {
        assert s'[j] == s[j] && s'[k] == s[k];
        KeptPair(m, s, i, p, j);
      } else if j > i {
        assert s'[j] == s[j - 1] && s'[k] == s[k - 1];
        KeptPair(m, s, i, p, j - 1);
      } else if k == i {
        assert s'[j] == s[i - 1] && s'[k] == p;
      } else {
        assert s'[j] == p && s'[k] == s[i];
      }
    }
    LinksIntro(m', s');
  }

  lemma LinksIntro(m: Memory, s: seq<int>)
    requires forall i, j | 0 <= i < j < |s| && j == i + 1 :: Rd(m, s[i] + FD) == s[j] && Rd(m, s[j] + BK) == s[i]
    ensures Links(m, s)
  {
  }

  lemma KeptPair(m: Memory, s: seq<int>, i: int, p: int, j: int)
    requires Links(m, s) && Closed(s) && 0 < i < |s| && 0 <= j < |s| - 1 && j != i - 1
    requires forall j | 0 <= j < |s| :: s[j] + 8 <= p || p + 8 <= s[j]
    ensures var m' := Inserted(m, s[i - 1], s[i], p);
            Rd(m', s[j] + FD) == s[j + 1] && Rd(m', s[j + 1] + BK) == s[j]
  {
  }

  /** Writing one word that belongs to no node of a list leaves the list alone. */
  lemma LinksFrame(m: Memory, s: seq<int>, a: int, v: int)
    requires Links(m, s) && forall j | 0 <= j < |s| :: a != s[j] + FD && a != s[j] + BK
    ensures Links(m[a := v], s)
  {
  }

  ghost predicate Member(q: Bins) {
    |q.ring| == NAV && forall b, p | 1 <= b < NAV && p in q.ring[b] :: p in q.bin && q.bin[p] == b
  }

  ghost predicate Placed(q: Bins) {
    |q.ring| == NAV && forall p | p in q.bin :: 1 <= q.bin[p] < NAV && p in q.ring[q.bin[p]]
  }

  ghost predicate Distinct(q: Bins) {
    |q.ring| == NAV && forall b, i, j | 1 <= b < NAV && 0 <= i < j < |q.ring[b]| :: q.ring[b][i] != q.ring[b][j]
  }

  /** Linked chunks lie above av_ and do not overlap. */
  ghost predicate Spaced(q: Bins) {
    && (forall x | x in q.bin :: AV_END <= x)
    && (forall x, y | x in q.bin && y in q.bin && x < y :: x + 16 <= y)
  }

  ghost predicate AllLinked(m: Memory, q: Bins) {
    |q.ring| == NAV && forall b | 1 <= b < NAV :: Links(m, Full(b, q.ring[b]))
  }

  /** Every linked chunk is on exactly one list, exactly once, and the links in memory say so. */
  ghost predicate Rings(m: Memory, q: Bins) {
    Member(q) && Placed(q) && Distinct(q) && Spaced(q) && AllLinked(m, q)
  }

  /** A word of a link pair: of a linked chunk, or of a bin header. */
  predicate LinkAddr(q: Bins, a: int) {
    a - FD in q.bin || a - BK in q.bin || AV + FD < a < AV_END
  }

  lemma MemberAt(q: Bins, b: int, i: int)
    requires Member(q) && 1 <= b < NAV && 0 <= i < |q.ring[b]|
    ensures q.ring[b][i] in q.bin && q.bin[q.ring[b][i]] == b
  {
    var x := q.ring[b][i];
    assert x in q.ring[b];
  }

  lemma FullNodes(q: Bins, b: int, j: int)
    requires Member(q) && 1 <= b < NAV && 0 <= j < |q.ring[b]| + 2
    ensures var x := Full(b, q.ring[b])[j];
            if 1 <= j <= |q.ring[b]| then x == q.ring[b][j - 1] && x in q.bin && q.bin[x] == b else x == BinAt(b)
  {
    if 1 <= j <= |q.ring[b]| {
      assert q.ring[b][j - 1] in q.ring[b];
    }
  }

  lemma FullClosed(q: Bins, b: int)
    requires Member(q) && Distinct(q) && Spaced(q) && 1 <= b < NAV
    ensures Closed(Full(b, q.ring[b]))
  {
    var s := Full(b, q.ring[b]);
    forall i, j | 0 <= i < j < |s| - 1
      ensures s[i] + 8 <= s[j] || s[j] + 8 <= s[i]
    {
      FullNodes(q, b, i);
      FullNodes(q, b, j);
      if i > 0 {
        assert q.ring[b][i - 1] != q.ring[b][j - 1];
      }
    }
  }

  /** x is apart from every node of the list s. */
  ghost predicate Foreign(s: seq<int>, x: int) {
    forall j | 0 <= j < |s| :: x + 8 <= s[j] || s[j] + 8 <= x
  }

  /** Writing a link of a foreign node leaves the list alone. */
  lemma ForeignWrite(m: Memory, s: seq<int>, x: int, f: int, v: int)
    requires Links(m, s) && Foreign(s, x) && (f == FD || f == BK)
    ensures Links(m[x + f := v], s)
  {
    LinksFrame(m, s, x + f, v);
  }

  /** The nodes of list b are foreign to list c. */
  lemma ForeignNode(q: Bins, b: int, c: int, x: int)
    requires Member(q) && Spaced(q) && 1 <= b < NAV && 1 <= c < NAV && b != c
    requires x == BinAt(b) || (x in q.bin && q.bin[x] == b)
    ensures Foreign(Full(c, q.ring[c]), x)
  {
    var s := Full(c, q.ring[c]);
    forall j | 0 <= j < |s|
      ensures x + 8 <= s[j] || s[j] + 8 <= x
    {
      FullNodes(q, c, j);
    }
  }

  /** A chunk that is not linked and lies apart from those that are is foreign to every list. */
  lemma ForeignNew(q: Bins, c: int, p: int)
    requires Member(q) && 1 <= c < NAV && Outside(q, p)
    ensures Foreign(Full(c, q.ring[c]), p)
  {
    var s := Full(c, q.ring[c]);
    forall j | 0 <= j < |s|
      ensures p + 8 <= s[j] || s[j] + 8 <= p
    {
      FullNodes(q, c, j);
    }
  }

  /** The chunk p lies above av_ and apart from all linked chunks. */
  ghost predicate Outside(q: Bins, p: int) {
    AV_END <= p && forall x | x in q.bin :: x + 16 <= p || p + 16 <= x
  }

  /** Writes outside the link words keep all lists. */
  lemma RingsFrame(m: Memory, q: Bins, a: int, v: int)
    requires Rings(m, q) && !LinkAddr(q, a)
    ensures Rings(m[a := v], q)
  {
    hide Placed, Distinct, Spaced, Links;
    forall b | 1 <= b < NAV
      ensures Links(m[a := v], Full(b, q.ring[b]))
    {
      var s := Full(b, q.ring[b]);
      forall j | 0 <= j < |s|
        ensures a != s[j] + FD && a != s[j] + BK
      {
        FullNodes(q, b, j);
      }
      LinksFrame(m, s, a, v);
    }
  }

  /** The chunk p is node i of its list. */
  predicate At(q: Bins, p: int, i: int) {
    |q.ring| == NAV && p in q.bin && 1 <= q.bin[p] < NAV && 0 <= i < |q.ring[q.bin[p]]| && q.ring[q.bin[p]][i] == p
  }

  lemma Position(q: Bins, p: int) returns (i: int)
    requires Placed(q) && p in q.bin
    ensures At(q, p, i)
  {
    i :| 0 <= i < |q.ring[q.bin[p]]| && q.ring[q.bin[p]][i] == p;
  }

  function Without(q: Bins, p: int, i: int): Bins
    requires At(q, p, i)
  {
    var b := q.bin[p];
    Bins(q.bin - {p}, q.ring[b := q.ring[b][..i] + q.ring[b][i + 1..]])
  }

  function With(q: Bins, p: int, b: int, i: int): Bins
    requires 0 <= b < |q.ring| && 0 <= i <= |q.ring[b]|
  {
    Bins(q.bin[p := b], q.ring[b := q.ring[b][..i] + [p] + q.ring[b][i..]])
  }

  lemma WithoutOk(q: Bins, p: int, i: int)
    requires Member(q) && Placed(q) && Distinct(q) && Spaced(q)
    requires At(q, p, i)
    ensures var q' := Without(q, p, i); Member(q') && Placed(q') && Distinct(q') && Spaced(q')
  {
  }

  /** unlink: the neighbours are read from the chunk, and pointing them at each other takes it off its list. */
  lemma RingsUnlink(m: Memory, q: Bins, p: int, i: int)
    requires Rings(m, q) && At(q, p, i)
    ensures var fd, bk := Rd(m, p + FD), Rd(m, p + BK);
            LinkAddr(q, fd + BK) && LinkAddr(q, bk + FD) && Rings(m[fd + BK := bk][bk + FD := fd], Without(q, p, i))
  {
    hide Placed, Spaced, Distinct, Closed, Links, Member;
    var b := q.bin[p];
    var fd, bk := UnlinkNeighbours(m, q, p, i);
    WithoutOk(q, p, i);
    var q', m1 := Without(q, p, i), m[fd + BK := bk];
    var m' := m1[bk + FD := fd];
    forall c | 1 <= c < NAV
      ensures Links(m', Full(c, q'.ring[c]))
    {
      if c == b {
        UnlinkOwn(m, q, p, i);
      } else {
        ForeignNode(q, b, c, fd);
        ForeignNode(q, b, c, bk);
        ForeignWrite(m, Full(c, q.ring[c]), fd, BK, bk);
        ForeignWrite(m1, Full(c, q.ring[c]), bk, FD, fd);
      }
    }
  }

  lemma UnlinkNeighbours(m: Memory, q: Bins, p: int, i: int) returns (fd: int, bk: int)
    requires Rings(m, q) && At(q, p, i)
    ensures fd == Rd(m, p + FD) && bk == Rd(m, p + BK)
    ensures var s := Full(q.bin[p], q.ring[q.bin[p]]); s[i] == bk && s[i + 2] == fd
    ensures forall x | x == fd || x == bk :: x == BinAt(q.bin[p]) || (x in q.bin && q.bin[x] == q.bin[p])
    ensures LinkAddr(q, fd + BK) && LinkAddr(q, bk + FD)
  {
    hide Spaced, Distinct;
    var b := q.bin[p];
    var s := Full(b, q.ring[b]);
    assert Links(m, s) && s[i + 1] == p;
    fd, bk := s[i + 2], s[i];
    FullNodes(q, b, i);
    FullNodes(q, b, i + 2);
  }

  lemma UnlinkOwn(m: Memory, q: Bins, p: int, i: int)
    requires Rings(m, q) && At(q, p, i)
    ensures var fd, bk, b := Rd(m, p + FD), Rd(m, p + BK), q.bin[p];
            Links(m[fd + BK := bk][bk + FD := fd], Full(b, Without(q, p, i).ring[b]))
  {
    hide Spaced, Distinct, Links, Closed, Placed, Member;
    var b := q.bin[p];
    var fd, bk := UnlinkNeighbours(m, q, p, i);
    var s := Full(b, q.ring[b]);
    FullClosed(q, b);
    LinksRemove(m, s, i + 1);
    assert s[..i + 1] + s[i + 2..] == Full(b, q.ring[b][..i] + q.ring[b][i + 1..]);
  }

  lemma WithOk(q: Bins, p: int, b: int, i: int)
    requires Member(q) && Placed(q) && Distinct(q) && Spaced(q)
    requires 1 <= b < NAV && 0 <= i <= |q.ring[b]| && p !in q.bin && Outside(q, p)
    ensures var q' := With(q, p, b, i); Member(q') && Placed(q') && Distinct(q') && Spaced(q')
  {
    WithDistinct(q, p, b, i);
  }

  lemma WithDistinct(q: Bins, p: int, b: int, i: int)
    requires Member(q) && Distinct(q) && 1 <= b < NAV && 0 <= i <= |q.ring[b]| && p !in q.bin
    ensures Distinct(With(q, p, b, i))
  {
    var q' := With(q, p, b, i);
    var r, r' := q.ring[b], q'.ring[b];
    assert p !in r;
    forall c, j, k | 1 <= c < NAV && 0 <= j < k < |q'.ring[c]|
      ensures q'.ring[c][j] != q'.ring[c][k]
    {
      if c == b {
        if j != i && k != i {
          var j', k' := if j < i then j else j - 1, if k < i then k else k - 1;
          assert r[j'] != r[k'] && r'[j] == r[j'] && r'[k] == r[k'];
        } else {
          var o := if j == i then k else j;
          assert r'[o] in r;
        }
      }
    }
  }

  /** frontlink, once the place is found: p goes between nodes i - 1 and i of list b. */
  lemma RingsInsert(m: Memory, q: Bins, p: int, b: int, i: int)
    requires Rings(m, q) && 1 <= b < NAV && 0 <= i <= |q.ring[b]| && p !in q.bin && Outside(q, p)
    ensures var s := Full(b, q.ring[b]);
            LinkAddr(q, s[i] + FD) && LinkAddr(q, s[i + 1] + BK)
                && Rings(Inserted(m, s[i], s[i + 1], p), With(q, p, b, i))
  {
    hide Placed, Spaced, Distinct, Links, Member, Outside;
    var q', s := With(q, p, b, i), Full(b, q.ring[b]);
    WithOk(q, p, b, i);
    FullNodes(q, b, i);
    FullNodes(q, b, i + 1);
    var m' := Inserted(m, s[i], s[i + 1], p);
    forall c | 1 <= c < NAV
      ensures Links(m', Full(c, q'.ring[c]))
    {
      if c == b {
        InsertOwn(m, q, p, b, i);
      } else {
        InsertOther(m, q, p, b, c, s[i], s[i + 1]);
      }
    }
  }

  lemma InsertOwn(m: Memory, q: Bins, p: int, b: int, i: int)
    requires Rings(m, q) && 1 <= b < NAV && 0 <= i <= |q.ring[b]| && Outside(q, p)
    ensures var s := Full(b, q.ring[b]); Links(Inserted(m, s[i], s[i + 1], p), Full(b, With(q, p, b, i).ring[b]))
  {
    hide Placed, Spaced, Distinct, Links, Outside, Closed;
    var s := Full(b, q.ring[b]);
    FullClosed(q, b);
    ForeignNew(q, b, p);
    LinksInsert(m, s, i + 1, p);
    assert s[..i + 1] + [p] + s[i + 1..] == Full(b, q.ring[b][..i] + [p] + q.ring[b][i..]);
  }

  lemma InsertOther(m: Memory, q: Bins, p: int, b: int, c: int, bk: int, fd: int)
    requires Rings(m, q) && 1 <= b < NAV && 1 <= c < NAV && b != c && Outside(q, p)
    requires forall x | x == bk || x == fd :: x == BinAt(b) || (x in q.bin && q.bin[x] == b)
    ensures Links(Inserted(m, bk, fd, p), Full(c, q.ring[c]))
  {
    hide Placed, Spaced, Distinct, Links, Outside, Foreign, Member;
    var s := Full(c, q.ring[c]);
    ForeignNew(q, c, p);
    ForeignNode(q, b, c, bk);
    ForeignNode(q, b, c, fd);
    ForeignWrite(m, s, p, BK, bk);
    ForeignWrite(m[p + BK := bk], s, p, FD, fd);
    ForeignWrite(m[p + BK := bk][p + FD := fd], s, bk, FD, p);
    ForeignWrite(m[p + BK := bk][p + FD := fd][bk + FD := p], s, fd, BK, p);
  }
}
