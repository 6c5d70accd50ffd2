/**
 The hole list of IP reassembly, section 3 of RFC 815: the bytes still missing, as a doubly linked
 list of descriptors that are stored in the missing parts of the buffer itself.
 */
module Holes {
  import opened Common

  const IP_HDR_SIZE := 20

  /** A 16-bit field of the descriptors. */
  function Le16(b: seq<octet>, i: int): int
    requires 0 <= i && i + 1 < |b|
  {
    (b[i] as int) + 256 * (b[i + 1] as int)
  }

  function Put16(b: seq<octet>, i: int, v: int): seq<octet>
    requires 0 <= i && i + 1 < |b| && 0 <= v < 65536
  {
    b[i := v % 256][i + 1 := v / 256]
  }

  const LAST := 0
  const NEXT := 2
  const PREV := 4
  const UNUSED := 6

  /** The descriptor of a hole that begins in 8-byte block at lies inside the buffer. */
  predicate InBuffer(b: seq<octet>, at: int) {
    0 <= at && IP_HDR_SIZE + 8 * at + 8 <= |b|
  }

  function Field(b: seq<octet>, at: int, f: int): int
    requires InBuffer(b, at) && 0 <= f <= 6
  {
    Le16(b, IP_HDR_SIZE + 8 * at + f)
  }

  function PutField(b: seq<octet>, at: int, f: int, v: int): (r: seq<octet>)
    requires InBuffer(b, at) && 0 <= f <= 6 && 0 <= v < 65536
    ensures |r| == |b|
  {
    Put16(b, IP_HDR_SIZE + 8 * at + f, v)
  }

  /** Writing a field changes that field only. */
  lemma PutFieldOnly(b: seq<octet>, at: int, f: int, v: int)
    requires InBuffer(b, at) && (f == LAST || f == NEXT || f == PREV || f == UNUSED) && 0 <= v < 65536
    ensures var b' := PutField(b, at, f, v);
            Field(b', at, f) == v
            && (forall at', g | InBuffer(b', at') && (g == LAST || g == NEXT || g == PREV || g == UNUSED)
                && (at' != at || g != f) ::
                  Field(b', at', g) == Field(b, at', g))
  {
  }

  /** A hole: it begins at byte 8 * at of the payload and ends before byte last. */
  datatype Hole = Hole(at: int, last: int)

  function NextOf(hs: seq<Hole>, k: int): int
    requires 0 <= k < |hs|
  {
    if k + 1 < |hs| then hs[k + 1].at else 0
  }

  function PrevOf(hs: seq<Hole>, k: int): int
    requires 0 <= k < |hs|
  {
    if k > 0 then hs[k - 1].at else 0
  }

  ghost predicate Desc(b: seq<octet>, hs: seq<Hole>, k: int)
    requires 0 <= k < |hs|
  {
    InBuffer(b, hs[k].at) && Field(b, hs[k].at, LAST) == hs[k].last && Field(b, hs[k].at, NEXT) == NextOf(hs, k)
    && Field(b, hs[k].at, PREV) == PrevOf(hs, k)
  }

  /** The descriptors in the buffer form the doubly linked list hs. */
  ghost predicate Stored(b: seq<octet>, hs: seq<Hole>) {
    forall k | 0 <= k < |hs| :: Desc(b, hs, k)
  }

  /** Holes are not empty, are in order, and do not touch. */
  ghost predicate Separated(hs: seq<Hole>) {
    && (forall k | 0 <= k < |hs| :: 0 <= hs[k].at && 8 * hs[k].at < hs[k].last < 65536)
    && (forall j, k | 0 <= j < k < |hs| :: hs[j].last < 8 * hs[k].at)
  }

  /** Index 0 stands for no hole, so the hole above one that begins at byte 0 looks like the first one. */
  ghost predicate Linked(hs: seq<Hole>, k: int) {
    0 <= k < |hs| && (k == 1 ==> 1 <= hs[0].at)
  }

  /** Byte x of the payload is missing. */
  ghost predicate Missing(hs: seq<Hole>, x: int) {
    exists k :: 0 <= k < |hs| && 8 * hs[k].at <= x < hs[k].last
  }

  /** What is left of the hole h when bytes s up to e arrive. */
  function Rest(h: Hole, s: int, e: int): seq<Hole> {
    (if 8 * h.at < s then [Hole(h.at, s)] else []) + (if e < h.last then [Hole(e / 8, h.last)] else [])
  }

  /** The list after bytes s up to e, which lie in hole k, have arrived. */
  function Fill(hs: seq<Hole>, k: int, s: int, e: int): seq<Hole>
    requires 0 <= k < |hs|
  {
    hs[..k] + Rest(hs[k], s, e) + hs[k + 1..]
  }

  ghost predicate InHole(hs: seq<Hole>, k: int, s: int, e: int) {
    0 <= k < |hs| && 8 * hs[k].at <= s < e <= hs[k].last && s % 8 == 0 && (e == hs[k].last || e % 8 == 0)
  }

  /** Where the holes of the new list come from. */
  lemma FillAt(hs: seq<Hole>, k: int, s: int, e: int, j: int)
    requires 0 <= k < |hs| && 0 <= j < |Fill(hs, k, s, e)|
    ensures var r := Rest(hs[k], s, e);
            |Fill(hs, k, s, e)| == |hs| - 1 + |r|
            && Fill(hs, k, s, e)[j] == if j < k then hs[j] else if j < k + |r| then r[j - k] else hs[j - |r| + 1]
  {
  }

  lemma FillSeparated(hs: seq<Hole>, k: int, s: int, e: int)
    requires Separated(hs) && InHole(hs, k, s, e)
    ensures Separated(Fill(hs, k, s, e))
  {
    var hs' := Fill(hs, k, s, e);
    forall j | 0 <= j < |hs'|
      ensures 0 <= hs'[j].at && 8 * hs'[j].at < hs'[j].last < 65536
    {
      FillAt(hs, k, s, e, j);
    }
    forall i, j | 0 <= i < j < |hs'|
      ensures hs'[i].last < 8 * hs'[j].at
    {
      FillAt(hs, k, s, e, i);
      FillAt(hs, k, s, e, j);
      hide Fill, Rest;
    }
  }

  /** Filling removes exactly the bytes that have arrived. */
  lemma FillMissing(hs: seq<Hole>, k: int, s: int, e: int, x: int)
    requires Separated(hs) && InHole(hs, k, s, e)
    ensures Missing(Fill(hs, k, s, e), x) <==> Missing(hs, x) && !(s <= x < e)
  {
    if Missing(hs, x) && !(s <= x < e) {
      FillKeeps(hs, k, s, e, x);
    }
  }

  lemma FillKeeps(hs: seq<Hole>, k: int, s: int, e: int, x: int)
    requires Separated(hs) && InHole(hs, k, s, e) && Missing(hs, x) && !(s <= x < e)
    ensures Missing(Fill(hs, k, s, e), x)
  {
    hide Separated;
    var hs', r := Fill(hs, k, s, e), Rest(hs[k], s, e);
    var j :| 0 <= j < |hs| && 8 * hs[j].at <= x < hs[j].last;
    var i := if j < k then j else if j > k then j + |r| - 1 else if x < s then k else k + |r| - 1;
    assert 8 * (e / 8) <= e;
    assert j == k ==> 1 <= |r|;
    FillAt(hs, k, s, e, i);
    assert 8 * hs'[i].at <= x < hs'[i].last;
  }

  /** The byte after a hole has arrived. */
  lemma AfterHole(hs: seq<Hole>, k: int)
    requires Separated(hs) && 0 <= k < |hs|
    ensures !Missing(hs, hs[k].last)
  {
  }

  /** Bytes that are all missing lie in one hole. */
  lemma OneHole(hs: seq<Hole>, k: int, s: int, e: int)
    requires Separated(hs) && 0 <= k < |hs| && 8 * hs[k].at <= s < hs[k].last && s < e
    requires forall x | s <= x < e :: Missing(hs, x)
    ensures e <= hs[k].last
  {
    AfterHole(hs, k);
  }

  // The same steps on the descriptors in the buffer.

  /** h is taken off the list: its neighbours are linked to each other. */
  function RemoveMem(b: seq<octet>, next: int, prev: int): seq<octet>
    requires 0 <= next < 65536 && 0 <= prev < 65536 && InBuffer(b, next) && InBuffer(b, prev)
  {
    var b1 := if next != 0 then PutField(b, next, PREV, prev) else b;
    if prev != 0 then PutField(b1, prev, NEXT, next) else b1
  }

  function FieldOf(b: seq<octet>, at: int, f: int): (v: int)
    requires InBuffer(b, at) && 0 <= f <= 6
    ensures v == Field(b, at, f) && 0 <= v < 65536
  {
    Field(b, at, f)
  }

  /** *newh = *h, member by member. */
  function CopyMem(b: seq<octet>, to: int, at: int): (r: seq<octet>)
    requires InBuffer(b, to) && InBuffer(b, at)
    ensures |r| == |b|
  {
    var b1 := PutField(b, to, LAST, FieldOf(b, at, LAST));
    var b2 := PutField(b1, to, NEXT, FieldOf(b, at, NEXT));
    var b3 := PutField(b2, to, PREV, FieldOf(b, at, PREV));
    PutField(b3, to, UNUSED, FieldOf(b, at, UNUSED))
  }

  lemma CopyMemFields(b: seq<octet>, to: int, at: int)
    requires InBuffer(b, to) && InBuffer(b, at) && to != at
    ensures var b' := CopyMem(b, to, at);
            (forall g | g == LAST || g == NEXT || g == PREV :: Field(b', to, g) == Field(b, at, g))
            && (forall x, g | InBuffer(b', x) && (g == LAST || g == NEXT || g == PREV) && x != to ::
                  Field(b', x, g) == Field(b, x, g))
  {
    hide PutField, Field;
    var b1 := PutField(b, to, LAST, FieldOf(b, at, LAST));
    var b2 := PutField(b1, to, NEXT, FieldOf(b, at, NEXT));
    var b3 := PutField(b2, to, PREV, FieldOf(b, at, PREV));
    PutFieldOnly(b, to, LAST, FieldOf(b, at, LAST));
    PutFieldOnly(b1, to, NEXT, FieldOf(b, at, NEXT));
    PutFieldOnly(b2, to, PREV, FieldOf(b, at, PREV));
    PutFieldOnly(b3, to, UNUSED, FieldOf(b, at, UNUSED));
  }

  lemma DescFacts(b: seq<octet>, hs: seq<Hole>, k: int)
    requires Stored(b, hs) && 0 <= k < |hs|
    ensures InBuffer(b, hs[k].at) && Field(b, hs[k].at, LAST) == hs[k].last && Field(b, hs[k].at, NEXT) == NextOf(hs, k)
    ensures Field(b, hs[k].at, PREV) == PrevOf(hs, k)
  {
    assert Desc(b, hs, k);
  }

  lemma InOrder(hs: seq<Hole>, j: int, k: int)
    requires Separated(hs) && 0 <= j < k < |hs|
    ensures hs[j].at < hs[k].at
  {
  }

  /** Neighbours have descriptors too. */
  lemma Neighbours(b: seq<octet>, hs: seq<Hole>, k: int)
    requires Stored(b, hs) && Separated(hs) && 0 <= k < |hs|
    ensures InBuffer(b, NextOf(hs, k)) && InBuffer(b, PrevOf(hs, k)) && 0 <= NextOf(hs, k) < 65536
            && 0 <= PrevOf(hs, k) < 65536
    ensures NextOf(hs, k) != 0 <==> k + 1 < |hs|
    ensures Linked(hs, k) ==> (PrevOf(hs, k) != 0 <==> 0 < k)
  {
    DescFacts(b, hs, k);
    if k + 1 < |hs| {
      DescFacts(b, hs, k + 1);
    }
    if 0 < k {
      DescFacts(b, hs, k - 1);
    }
  }

  lemma StoredRemove(b: seq<octet>, hs: seq<Hole>, k: int)
    requires Stored(b, hs) && Separated(hs) && Linked(hs, k)
    requires InBuffer(b, NextOf(hs, k)) && InBuffer(b, PrevOf(hs, k)) && 0 <= NextOf(hs, k) < 65536
             && 0 <= PrevOf(hs, k) < 65536
    ensures Stored(RemoveMem(b, NextOf(hs, k), PrevOf(hs, k)), hs[..k] + hs[k + 1..])
  {
    hide PutField, Field, Separated, Stored;
    var n, p := NextOf(hs, k), PrevOf(hs, k);
    Neighbours(b, hs, k);
    var hs' := hs[..k] + hs[k + 1..];
    var b1 := if n != 0 then PutField(b, n, PREV, p) else b;
    var b' := RemoveMem(b, n, p);
    if n != 0 {
      PutFieldOnly(b, n, PREV, p);
    }
    if p != 0 {
      PutFieldOnly(b1, p, NEXT, n);
    }
    forall j | 0 <= j < |hs'|
      ensures Desc(b', hs', j)
    {
      RemoveDesc(b, b', hs, k, hs', j);
    }
    StoredIntro(b', hs');
  }

  lemma StoredIntro(b: seq<octet>, hs: seq<Hole>)
    requires forall k | 0 <= k < |hs| :: Desc(b, hs, k)
    ensures Stored(b, hs)
  {
  }

  /** hs' is hs without hole k. */
  ghost predicate Without(hs: seq<Hole>, k: int, hs': seq<Hole>) {
    |hs'| == |hs| - 1 && forall j | 0 <= j < |hs'| :: hs'[j] == hs[if j < k then j else j + 1]
  }

  lemma RemoveDesc(b: seq<octet>, b': seq<octet>, hs: seq<Hole>, k: int, hs': seq<Hole>, j: int)
    requires Stored(b, hs) && Separated(hs) && Linked(hs, k) && Without(hs, k, hs') && 0 <= j < |hs'| && |b'| == |b|
    requires forall x, g | InBuffer(b', x) && (g == LAST || g == NEXT || g == PREV)
             && !(k + 1 < |hs| && x == NextOf(hs, k) && g == PREV) && !(0 < k && x == PrevOf(hs, k) && g == NEXT) ::
               Field(b', x, g) == Field(b, x, g)
    requires k + 1 < |hs| ==> InBuffer(b', NextOf(hs, k)) && Field(b', NextOf(hs, k), PREV) == PrevOf(hs, k)
    requires 0 < k ==> InBuffer(b', PrevOf(hs, k)) && Field(b', PrevOf(hs, k), NEXT) == NextOf(hs, k)
    ensures Desc(b', hs', j)
  {
    hide Field, Stored, Separated;
    var i := if j < k then j else j + 1;
    assert hs'[j] == hs[i];
    DescFacts(b, hs, i);
    if i < k - 1 {
      InOrder(hs, i, k - 1);
    }
    if k + 1 < i {
      InOrder(hs, k + 1, i);
    }
    if k + 1 < |hs| && i < k {
      InOrder(hs, i, k + 1);
    }
    if 0 < k < i {
      InOrder(hs, k - 1, i);
    }
    var a := hs[i].at;
    assert Field(b', a, LAST) == Field(b, a, LAST);
    assert Field(b', a, NEXT) == NextOf(hs', j);
    assert Field(b', a, PREV) == PrevOf(hs', j);
  }

  lemma StoredShorten(b: seq<octet>, hs: seq<Hole>, k: int, s: int)
    requires Stored(b, hs) && Separated(hs) && 0 <= k < |hs| && InBuffer(b, hs[k].at) && 0 <= s < 65536
    ensures Stored(PutField(b, hs[k].at, LAST, s), hs[k := Hole(hs[k].at, s)])
  {
    hide PutField, Field, Separated, Stored;
    var hs', b' := hs[k := Hole(hs[k].at, s)], PutField(b, hs[k].at, LAST, s);
    PutFieldOnly(b, hs[k].at, LAST, s);
    forall j | 0 <= j < |hs'|
      ensures Desc(b', hs', j)
    {
      DescFacts(b, hs, j);
      if j < k {
        InOrder(hs, j, k);
      } else if k < j {
        InOrder(hs, k, j);
      }
      var a := hs[j].at;
      assert Field(b', a, NEXT) == NextOf(hs', j);
      assert Field(b', a, PREV) == PrevOf(hs', j);
    }
    StoredIntro(b', hs');
  }

  /** The hole at at now begins at to. */
  function MoveMem(b: seq<octet>, at: int, to: int, next: int, prev: int): seq<octet>
    requires InBuffer(b, at) && InBuffer(b, to) && InBuffer(b, next) && InBuffer(b, prev) && 0 <= to < 65536
  {
    var b1 := CopyMem(b, to, at);
    var b2 := if next != 0 then PutField(b1, next, PREV, to) else b1;
    if prev != 0 then PutField(b2, prev, NEXT, to) else b2
  }

  /** The place to lies inside hole k, above its descriptor. */
  ghost predicate Inside(hs: seq<Hole>, k: int, to: int) {
    0 <= k < |hs| && hs[k].at < to && 8 * to < hs[k].last
  }

  lemma InsideNew(hs: seq<Hole>, k: int, to: int, j: int)
    requires Separated(hs) && Inside(hs, k, to) && 0 <= j < |hs|
    ensures hs[j].at != to && 0 < to < 65536 && (j < k ==> hs[j].at < hs[k].at) && (k < j ==> to < hs[j].at)
  {
    if j < k {
      InOrder(hs, j, k);
    } else if k < j {
      assert hs[k].last < 8 * hs[j].at;
    }
  }

  lemma StoredMove(b: seq<octet>, hs: seq<Hole>, k: int, to: int)
    requires Stored(b, hs) && Separated(hs) && Linked(hs, k) && Inside(hs, k, to) && InBuffer(b, to) && 0 <= to < 65536
    requires InBuffer(b, NextOf(hs, k)) && InBuffer(b, PrevOf(hs, k)) && InBuffer(b, hs[k].at)
    ensures Stored(MoveMem(b, hs[k].at, to, NextOf(hs, k), PrevOf(hs, k)), hs[k := Hole(to, hs[k].last)])
  {
    hide PutField, Field, Separated, Stored, CopyMem;
    var n, p := NextOf(hs, k), PrevOf(hs, k);
    var hs', b' := hs[k := Hole(to, hs[k].last)], MoveMem(b, hs[k].at, to, n, p);
    Neighbours(b, hs, k);
    InsideNew(hs, k, to, k);
    CopyMemFields(b, to, hs[k].at);
    DescFacts(b, hs, k);
    var b1 := CopyMem(b, to, hs[k].at);
    var b2 := if n != 0 then PutField(b1, n, PREV, to) else b1;
    if n != 0 {
      PutFieldOnly(b1, n, PREV, to);
      InsideNew(hs, k, to, k + 1);
    }
    if p != 0 {
      PutFieldOnly(b2, p, NEXT, to);
      InsideNew(hs, k, to, k - 1);
    }
    hide MoveMem;
    assert Desc(b', hs', k);
    forall j | 0 <= j < |hs'| && j != k
      ensures Desc(b', hs', j)
    {
      MoveDesc(b, b', hs, k, to, hs', j);
    }
    StoredIntro(b', hs');
  }

  lemma MoveDesc(b: seq<octet>, b': seq<octet>, hs: seq<Hole>, k: int, to: int, hs': seq<Hole>, j: int)
    requires Stored(b, hs) && Separated(hs) && Linked(hs, k) && Inside(hs, k, to) && |b'| == |b|
    requires 0 <= j < |hs| && j != k && hs' == hs[k := Hole(to, hs[k].last)]
    requires forall x, g | InBuffer(b', x) && (g == LAST || g == NEXT || g == PREV) && x != to
             && !(k + 1 < |hs| && x == NextOf(hs, k) && g == PREV) && !(0 < k && x == PrevOf(hs, k) && g == NEXT) ::
               Field(b', x, g) == Field(b, x, g)
    requires k + 1 < |hs| ==> InBuffer(b', NextOf(hs, k)) && Field(b', NextOf(hs, k), PREV) == to
    requires 0 < k ==> InBuffer(b', PrevOf(hs, k)) && Field(b', PrevOf(hs, k), NEXT) == to
    ensures Desc(b', hs', j)
  {
    hide Field, Stored, Separated;
    DescFacts(b, hs, j);
    InsideNew(hs, k, to, j);
    if j < k - 1 {
      InOrder(hs, j, k - 1);
    }
    if k + 1 < j {
      InOrder(hs, k + 1, j);
    }
    if k + 1 < |hs| && j < k {
      InOrder(hs, j, k + 1);
    }
    if 0 < k < j {
      InOrder(hs, k - 1, j);
    }
    var a := hs[j].at;
    assert Field(b', a, LAST) == Field(b, a, LAST);
    assert Field(b', a, NEXT) == NextOf(hs', j);
    assert Field(b', a, PREV) == PrevOf(hs', j);
  }

  /** The hole at at ends at s, and a second part begins at to. */
  function SplitMem(b: seq<octet>, at: int, to: int, next: int, s: int): seq<octet>
    requires InBuffer(b, at) && InBuffer(b, to) && InBuffer(b, next) && 0 <= to < 65536 && 0 <= at < 65536
             && 0 <= s < 65536
  {
    var b1 := CopyMem(b, to, at);
    var b2 := PutField(PutField(PutField(b1, at, LAST, s), at, NEXT, to), to, PREV, at);
    if next != 0 then PutField(b2, next, PREV, to) else b2
  }

  /** hs' is hs with hole k cut into two. */
  ghost predicate Divided(hs: seq<Hole>, k: int, s: int, to: int, hs': seq<Hole>) {
    0 <= k < |hs| && |hs'| == |hs| + 1 && hs'[k] == Hole(hs[k].at, s) && hs'[k + 1] == Hole(to, hs[k].last)
    && (forall j | 0 <= j < k :: hs'[j] == hs[j]) && (forall j | k + 1 < j < |hs'| :: hs'[j] == hs[j - 1])
  }

  lemma StoredSplit(b: seq<octet>, hs: seq<Hole>, k: int, s: int, to: int, hs': seq<Hole>)
    requires Stored(b, hs) && Separated(hs) && Inside(hs, k, to) && InBuffer(b, to) && 0 <= to < 65536 && 0 <= s < 65536
    requires InBuffer(b, NextOf(hs, k)) && InBuffer(b, hs[k].at) && 0 <= hs[k].at < 65536 && Divided(hs, k, s, to, hs')
    ensures Stored(SplitMem(b, hs[k].at, to, NextOf(hs, k), s), hs')
  {
    hide PutField, Field, Separated, Stored, CopyMem;
    var n, at := NextOf(hs, k), hs[k].at;
    var b' := SplitMem(b, at, to, n, s);
    Neighbours(b, hs, k);
    InsideNew(hs, k, to, k);
    CopyMemFields(b, to, at);
    DescFacts(b, hs, k);
    var b1 := CopyMem(b, to, at);
    var b2 := PutField(b1, at, LAST, s);
    var b3 := PutField(b2, at, NEXT, to);
    var b4 := PutField(b3, to, PREV, at);
    PutFieldOnly(b1, at, LAST, s);
    PutFieldOnly(b2, at, NEXT, to);
    PutFieldOnly(b3, to, PREV, at);
    if n != 0 {
      PutFieldOnly(b4, n, PREV, to);
      InsideNew(hs, k, to, k + 1);
      InOrder(hs, k, k + 1);
    }
    hide SplitMem;
    SplitOwn(b, b', hs, k, s, to, hs');
    forall j | 0 <= j < |hs'| && j != k && j != k + 1
      ensures Desc(b', hs', j)
    {
      SplitDesc(b, b', hs, k, s, to, hs', j);
    }
    StoredIntro(b', hs');
  }

  lemma SplitOwn(b: seq<octet>, b': seq<octet>, hs: seq<Hole>, k: int, s: int, to: int, hs': seq<Hole>)
    requires Divided(hs, k, s, to, hs') && |b'| == |b| && InBuffer(b, hs[k].at) && InBuffer(b, to) && Stored(b, hs)
    requires Field(b', hs[k].at, LAST) == s && Field(b', hs[k].at, NEXT) == to
             && Field(b', hs[k].at, PREV) == Field(b, hs[k].at, PREV)
    requires Field(b', to, LAST) == Field(b, hs[k].at, LAST) && Field(b', to, NEXT) == Field(b, hs[k].at, NEXT)
             && Field(b', to, PREV) == hs[k].at
    ensures Desc(b', hs', k) && Desc(b', hs', k + 1)
  {
    hide Field, Stored;
    DescFacts(b, hs, k);
  }

  lemma SplitDesc(b: seq<octet>, b': seq<octet>, hs: seq<Hole>, k: int, s: int, to: int, hs': seq<Hole>, j: int)
    requires Stored(b, hs) && Separated(hs) && Inside(hs, k, to) && |b'| == |b| && Divided(hs, k, s, to, hs')
    requires 0 <= j < |hs'| && j != k && j != k + 1
    requires forall x, g | InBuffer(b', x) && (g == LAST || g == NEXT || g == PREV) && x != to && x != hs[k].at
             && !(k + 1 < |hs| && x == NextOf(hs, k) && g == PREV) ::
               Field(b', x, g) == Field(b, x, g)
    requires k + 1 < |hs| ==> InBuffer(b', NextOf(hs, k)) && Field(b', NextOf(hs, k), PREV) == to
    ensures Desc(b', hs', j)
  {
    hide Field, Stored, Separated;
    var i := if j < k then j else j - 1;
    assert hs'[j] == hs[i];
    DescFacts(b, hs, i);
    InsideNew(hs, k, to, i);
    if i < k {
      InOrder(hs, i, k);
    } else {
      InOrder(hs, k, i);
    }
    if k + 1 < |hs| && i < k {
      InOrder(hs, i, k + 1);
    }
    if k + 1 < i {
      InOrder(hs, k + 1, i);
    }
    var a := hs[i].at;
    assert Field(b', a, LAST) == Field(b, a, LAST);
    assert Field(b', a, NEXT) == NextOf(hs', j);
    assert Field(b', a, PREV) == PrevOf(hs', j);
  }

  // What the steps leave alone.

  /** The header and everything that is not missing is as before. */
  ghost predicate Kept(b: seq<octet>, b': seq<octet>, hs: seq<Hole>) {
    |b'| == |b| && forall i | 0 <= i < |b| && (i < IP_HDR_SIZE || !Missing(hs, i - IP_HDR_SIZE)) :: b'[i] == b[i]
  }

  /** The 8 bytes of a descriptor at at are missing bytes. */
  ghost predicate Gap(hs: seq<Hole>, at: int) {
    0 <= at && forall x | 8 * at <= x < 8 * at + 8 :: Missing(hs, x)
  }

  lemma PutKept(b: seq<octet>, at: int, f: int, v: int, hs: seq<Hole>)
    requires InBuffer(b, at) && 0 <= f <= 6 && 0 <= v < 65536 && Gap(hs, at)
    ensures Kept(b, PutField(b, at, f, v), hs)
  {
    hide Missing;
  }

  lemma KeptTrans(b: seq<octet>, b1: seq<octet>, b2: seq<octet>, hs: seq<Hole>)
    requires Kept(b, b1, hs) && Kept(b1, b2, hs)
    ensures Kept(b, b2, hs)
  {
    hide Missing;
  }

  lemma CopyKept(b: seq<octet>, to: int, at: int, hs: seq<Hole>)
    requires InBuffer(b, to) && InBuffer(b, at) && Gap(hs, to)
    ensures Kept(b, CopyMem(b, to, at), hs)
  {
    hide PutField, Field, Gap, Missing, Kept;
    var b1 := PutField(b, to, LAST, FieldOf(b, at, LAST));
    var b2 := PutField(b1, to, NEXT, FieldOf(b, at, NEXT));
    var b3 := PutField(b2, to, PREV, FieldOf(b, at, PREV));
    PutKept(b, to, LAST, FieldOf(b, at, LAST), hs);
    PutKept(b1, to, NEXT, FieldOf(b, at, NEXT), hs);
    PutKept(b2, to, PREV, FieldOf(b, at, PREV), hs);
    PutKept(b3, to, UNUSED, FieldOf(b, at, UNUSED), hs);
    KeptTrans(b, b1, b2, hs);
    KeptTrans(b, b2, b3, hs);
    KeptTrans(b, b3, CopyMem(b, to, at), hs);
  }

  lemma RemoveKept(b: seq<octet>, next: int, prev: int, hs: seq<Hole>)
    requires 0 <= next < 65536 && 0 <= prev < 65536 && InBuffer(b, next) && InBuffer(b, prev)
    requires (next != 0 ==> Gap(hs, next)) && (prev != 0 ==> Gap(hs, prev))
    ensures Kept(b, RemoveMem(b, next, prev), hs)
  {
    hide PutField, Gap, Missing;
    var b1 := if next != 0 then PutField(b, next, PREV, prev) else b;
    if next != 0 {
      PutKept(b, next, PREV, prev, hs);
    }
    if prev != 0 {
      PutKept(b1, prev, NEXT, next, hs);
    }
    KeptTrans(b, b1, RemoveMem(b, next, prev), hs);
  }

  lemma MoveKept(b: seq<octet>, at: int, to: int, next: int, prev: int, hs: seq<Hole>)
    requires InBuffer(b, at) && InBuffer(b, to) && InBuffer(b, next) && InBuffer(b, prev) && 0 <= to < 65536
             && Gap(hs, to)
    requires (next != 0 ==> Gap(hs, next)) && (prev != 0 ==> Gap(hs, prev))
    ensures Kept(b, MoveMem(b, at, to, next, prev), hs)
  {
    hide PutField, Gap, Missing, CopyMem;
    CopyKept(b, to, at, hs);
    var b1 := CopyMem(b, to, at);
    var b2 := if next != 0 then PutField(b1, next, PREV, to) else b1;
    if next != 0 {
      PutKept(b1, next, PREV, to, hs);
      KeptTrans(b, b1, b2, hs);
    }
    if prev != 0 {
      PutKept(b2, prev, NEXT, to, hs);
    }
    KeptTrans(b, b2, MoveMem(b, at, to, next, prev), hs);
  }

  lemma SplitKept(b: seq<octet>, at: int, to: int, next: int, s: int, hs: seq<Hole>)
    requires InBuffer(b, at) && InBuffer(b, to) && InBuffer(b, next) && 0 <= to < 65536 && 0 <= at < 65536
             && 0 <= s < 65536
    requires Gap(hs, at) && Gap(hs, to) && (next != 0 ==> Gap(hs, next))
    ensures Kept(b, SplitMem(b, at, to, next, s), hs)
  {
    hide PutField, Gap, Missing, CopyMem;
    CopyKept(b, to, at, hs);
    var b1 := CopyMem(b, to, at);
    var b2 := PutField(b1, at, LAST, s);
    var b3 := PutField(b2, at, NEXT, to);
    var b4 := PutField(b3, to, PREV, at);
    PutKept(b1, at, LAST, s, hs);
    PutKept(b2, at, NEXT, to, hs);
    PutKept(b3, to, PREV, at, hs);
    KeptTrans(b, b1, b2, hs);
    KeptTrans(b, b2, b3, hs);
    KeptTrans(b, b3, b4, hs);
    if next != 0 {
      PutKept(b4, next, PREV, to, hs);
      KeptTrans(b, b4, SplitMem(b, at, to, next, s), hs);
    }
  }

  /** There is room for a descriptor in every hole. */
  ghost predicate Roomy(hs: seq<Hole>) {
    forall k | 0 <= k < |hs| :: hs[k].last % 8 == 0 || (hs[k].last == 0xffff && 8 * hs[k].at + 8 < 0xffff)
  }

  lemma RoomyGap(hs: seq<Hole>, k: int, at: int)
    requires Separated(hs) && Roomy(hs) && 0 <= k < |hs| && hs[k].at <= at && 8 * at < hs[k].last
             && (hs[k].last == 0xffff ==> 8 * at + 8 < 0xffff)
    ensures Gap(hs, at)
  {
    forall x | 8 * at <= x < 8 * at + 8
      ensures Missing(hs, x)
    {
      assert x < hs[k].last;
    }
  }

  /** Bytes s up to e of the payload, which are not missing any more, are written. */
  lemma StoredCopy(b: seq<octet>, b': seq<octet>, hs: seq<Hole>, s: int, e: int)
    requires Stored(b, hs) && Separated(hs) && |b'| == |b| && 0 <= s < e && s % 8 == 0
    requires forall x | s <= x < e :: !Missing(hs, x)
    requires forall i | 0 <= i < |b| && !(IP_HDR_SIZE + s <= i < IP_HDR_SIZE + e) :: b'[i] == b[i]
    ensures Stored(b', hs)
  {
    hide Missing;
    forall k | 0 <= k < |hs|
      ensures Desc(b', hs, k)
    {
      DescFacts(b, hs, k);
      OutsideCopy(hs, k, s, e);
    }
  }

  lemma OutsideCopy(hs: seq<Hole>, k: int, s: int, e: int)
    requires Separated(hs) && 0 <= k < |hs| && 0 <= s < e && s % 8 == 0 && forall x | s <= x < e :: !Missing(hs, x)
    ensures 8 * hs[k].at + 8 <= s || e <= 8 * hs[k].at
  {
    var a := hs[k].at;
    assert Missing(hs, 8 * a);
    if 8 * a < s {
      assert 8 * a + 8 <= s;
    }
  }
}
