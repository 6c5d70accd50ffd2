/**
 The sort loop of HSORT in app/heapsort.c: heap sort of base[1..size], with its step counters.
 */
module HeapSort {
  import opened Common

  /** From node k on, every node up to l is at least as large as its children. */
  ghost predicate Heap(a: seq<int>, k: int, l: int)
    requires 0 <= l < |a|
  {
    forall p, c | 1 <= k <= p && c <= l && (c == 2 * p || c == 2 * p + 1) :: a[c] <= a[p]
  }

  /** The same, except for node i. */
  ghost predicate HeapBut(a: seq<int>, k: int, l: int, i: int)
    requires 0 <= l < |a|
  {
    forall p, c | 1 <= k <= p && p != i && c <= l && (c == 2 * p || c == 2 * p + 1) :: a[c] <= a[p]
  }

  ghost predicate Sorted(a: seq<int>, from: int) {
    forall p, q | 1 <= from <= p <= q < |a| :: a[p] <= a[q]
  }

  ghost predicate AtMost(a: seq<int>, l: int, b: int) {
    forall p | 1 <= p <= l && p < |a| :: a[p] <= b
  }

  /** The root of a heap is its maximum. */
  lemma {:induction false} RootIsMax(a: seq<int>, l: int, p: int)
    requires 1 <= p <= l < |a| && Heap(a, 1, l)
    ensures a[p] <= a[1]
    decreases p
  {
    if p <= 1 {
    } else {
      RootIsMax(a, l, p / 2);
      assert p == 2 * (p / 2) || p == 2 * (p / 2) + 1;
    }
  }

  lemma Exchange(a: seq<int>, i: int, j: int, x: int)
    requires 0 <= i < |a| && 0 <= j < |a| && i != j
    ensures multiset(a[i := a[j]][j := x]) == multiset(a[i := x])
  {
    assert a[i := a[j]][j := x] == a[i := x][i := a[j]][j := x];
  }

  ghost predicate SameAbove(a: seq<int>, a': seq<int>, l: int) {
    |a'| == |a| && forall p | 0 <= p < |a| && (p == 0 || l < p) :: a'[p] == a[p]
  }

  /** How many levels there are below the root of a heap of l nodes. */
  function Depth(l: int): nat {
    if l <= 1 then 0 else 1 + Depth(l / 2)
  }

  lemma {:induction false} DepthIs(c: nat, l: int)
    requires Power(c) <= l
    ensures c <= Depth(l)
    decreases c
  {
    if c == 0 {
    } else {
      DepthIs(c - 1, l / 2);
    }
  }

  lemma {:induction false} DepthGrows(l: int, m: int)
    requires l <= m
    ensures Depth(l) <= Depth(m)
    decreases m
  {
    if l <= 1 {
    } else {
      DepthGrows(l / 2, m / 2);
    }
  }

  /** Node i lies c levels below node k. */
  ghost predicate Below(k: int, i: int, c: nat) {
    k * Power(c) <= i < (k + 1) * Power(c)
  }

  /** ir has sunk ce levels, to node i; there it was compared once more exactly if i has a child. */
  ghost predicate Sunk(k: int, l: int, i: int, cd: nat, ce: nat, cf: nat) {
    Below(k, i, ce) && i <= l && cf == (if 2 * i <= l then 1 else 0) && cd == ce + cf
  }

  /** One level deeper. */
  lemma Deeper(k: int, i: int, c: nat, j: int)
    requires Below(k, i, c) && (j == 2 * i || j == 2 * i + 1)
    ensures Below(k, j, c + 1)
  {
    assert k * Power(c + 1) == 2 * (k * Power(c)) && (k + 1) * Power(c + 1) == 2 * ((k + 1) * Power(c));
  }

  /** ir sinks from node k to its place i among the nodes up to l. */
  method Sift(base: array<int>, k: int, l: int, ir: int, ghost bound: int)
    returns (cd: nat, ce: nat, cf: nat, ghost i': int)
    requires 1 <= k <= l < base.Length && HeapBut(base[..], k, l, k) && AtMost(base[..], l, bound) && ir <= bound
    modifies base
    ensures Heap(base[..], k, l) && AtMost(base[..], l, bound) && SameAbove(old(base[..]), base[..], l)
    ensures multiset(base[..]) == multiset(old(base[..])[k := ir])
    ensures Sunk(k, l, i', cd, ce, cf) && k <= i' && base[i'] == ir
  {
    hide Heap, HeapBut, AtMost, SameAbove, Largest, Sifting;
    cd, ce, cf := 0, 0, 0;
    var i, j := k, 2 * k;
    ghost var a0, a := base[..], base[..];
    ghost var found := false;
    Starts(a, k, l, ir, bound);
    while j <= l
      invariant a == base[..] && k <= i <= l && i < j && Sifting(a0, a, k, l, i, ir, bound, ce) && cd == ce + cf
      invariant if found then j == l + 1 && 2 * i <= l && cf == 1 && Largest(a, l, i, ir) else j == 2 * i && cf == 0
      decreases l - i, l + 1 - j
    {
      cd := cd + 1;
      if j < l && base[j] < base[j + 1] {
        j := j + 1;
      }
      LargerChild(a, l, i, j);
      if ir < base[j] {
        Sinks(a0, a, k, l, i, j, ir, bound, ce);
        ce := ce + 1;
        base[i] := base[j];
        a := a[i := a[j]];
        i := j;
        j := j + i;
      } else {
        cf := cf + 1;
        LargestBelow(a, l, i, a[j], ir);
        j := l + 1;
        found := true;
      }
    }
    if !found {
      NoChild(a, l, i, ir);
    }
    Settles(a0, a, k, l, i, ir, bound, ce);
    base[i] := ir;
    i' := i;
    assert base[..] == a[i := ir];
  }

  /** What holds while ir sinks: it is at node i now, ce levels below node k. */
  ghost predicate Sifting(a0: seq<int>, a: seq<int>, k: int, l: int, i: int, ir: int, bound: int, ce: nat) {
    && 1 <= k <= i <= l < |a| && Open(a, k, l, i, ir) && AtMost(a, l, bound) && SameAbove(a0, a, l)
    && Same(a0, k, a, i, ir) && Below(k, i, ce)
  }

  lemma Sinks(a0: seq<int>, a: seq<int>, k: int, l: int, i: int, j: int, ir: int, bound: int, ce: nat)
    requires Sifting(a0, a, k, l, i, ir, bound, ce) && i < j <= l && (j == 2 * i || j == 2 * i + 1)
             && Largest(a, l, i, a[j]) && ir < a[j]
    ensures Sifting(a0, a[i := a[j]], k, l, j, ir, bound, ce + 1)
  {
    hide Heap, HeapBut, AtMost, SameAbove, Below, Open, Largest, Same;
    Deeper(k, i, ce, j);
    SameMoved(a0, k, a, i, j, ir);
    Moved(a, k, l, i, j, ir);
    MovedBound(a, l, i, j, bound);
    MovedSame(a0, a, l, i, a[j]);
  }

  lemma Settles(a0: seq<int>, a: seq<int>, k: int, l: int, i: int, ir: int, bound: int, ce: nat)
    requires Sifting(a0, a, k, l, i, ir, bound, ce) && ir <= bound && Largest(a, l, i, ir)
    ensures Heap(a[i := ir], k, l) && AtMost(a[i := ir], l, bound) && SameAbove(a0, a[i := ir], l) && Below(k, i, ce)
    ensures 0 <= k < |a0| && multiset(a[i := ir]) == multiset(a0[k := ir])
  {
    hide Heap, HeapBut, AtMost, SameAbove, Below, Open, Largest;
    Placed(a, k, l, i, ir);
    MovedSame(a0, a, l, i, ir);
    PlacedBound(a, l, i, ir, bound);
  }

  lemma Starts(a: seq<int>, k: int, l: int, ir: int, bound: int)
    requires 1 <= k <= l < |a| && HeapBut(a, k, l, k) && AtMost(a, l, bound)
    ensures Sifting(a, a, k, l, k, ir, bound, 0)
  {
    hide HeapBut, AtMost;
  }

  /** ir at i in place of the element there makes the same elements as ir at k did before. */
  ghost predicate Same(a0: seq<int>, k: int, a: seq<int>, i: int, ir: int) {
    0 <= k < |a0| && 0 <= i < |a| && multiset(a[i := ir]) == multiset(a0[k := ir])
  }

  lemma SameMoved(a0: seq<int>, k: int, a: seq<int>, i: int, j: int, ir: int)
    requires Same(a0, k, a, i, ir) && 0 <= j < |a| && i != j
    ensures Same(a0, k, a[i := a[j]], j, ir)
  {
    Exchange(a, i, j, ir);
  }

  lemma LargerChild(a: seq<int>, l: int, i: int, j: int)
    requires 1 <= i && 0 <= l < |a| && j <= l && (j == 2 * i || j == 2 * i + 1)
    requires if j == 2 * i then j < l ==> a[j + 1] <= a[j] else a[j - 1] <= a[j]
    ensures Largest(a, l, i, a[j])
  {
  }

  lemma LargestBelow(a: seq<int>, l: int, i: int, x: int, y: int)
    requires 1 <= i && 0 <= l < |a| && Largest(a, l, i, x) && x <= y
    ensures Largest(a, l, i, y)
  {
  }

  lemma NoChild(a: seq<int>, l: int, i: int, x: int)
    requires 1 <= i && 0 <= l < |a| && l < 2 * i
    ensures Largest(a, l, i, x)
  {
  }

  /** The state of the sift: the place i is open for ir. */
  ghost predicate Open(a: seq<int>, k: int, l: int, i: int, ir: int)
    requires 0 <= l < |a| && 0 <= i
  {
    HeapBut(a, k, l, i) && (i > k && i < |a| ==> ir < a[i] && Heap(a, k, l))
  }

  /** No child of i is larger than x. */
  ghost predicate Largest(a: seq<int>, l: int, i: int, x: int)
    requires 0 <= l < |a| && 1 <= i
  {
    forall c | c <= l && (c == 2 * i || c == 2 * i + 1) :: a[c] <= x
  }

  lemma MovedBound(a: seq<int>, l: int, i: int, j: int, b: int)
    requires 1 <= i <= l < |a| && 1 <= j <= l && AtMost(a, l, b)
    ensures AtMost(a[i := a[j]], l, b)
  {
  }

  lemma PlacedBound(a: seq<int>, l: int, i: int, x: int, b: int)
    requires 1 <= i <= l < |a| && AtMost(a, l, b) && x <= b
    ensures AtMost(a[i := x], l, b)
  {
  }

  lemma MovedSame(a0: seq<int>, a: seq<int>, l: int, i: int, x: int)
    requires SameAbove(a0, a, l) && 1 <= i <= l < |a|
    ensures SameAbove(a0, a[i := x], l)
  {
  }

  /** The larger child has moved up. */
  lemma Moved(a: seq<int>, k: int, l: int, i: int, j: int, ir: int)
    requires 1 <= k <= i < j <= l < |a| && Open(a, k, l, i, ir) && (j == 2 * i || j == 2 * i + 1)
             && Largest(a, l, i, a[j]) && ir < a[j]
    ensures Open(a[i := a[j]], k, l, j, ir)
  {
    var a' := a[i := a[j]];
    forall p, c | k <= p && c <= l && (c == 2 * p || c == 2 * p + 1)
      ensures a'[c] <= a'[p]
    {
      if p == i {
      } else if c == i {
        assert a[i] <= a[p];
        assert a[j] <= a[i];
      } else {
        assert a[c] <= a[p];
      }
    }
  }

  lemma Placed(a: seq<int>, k: int, l: int, i: int, ir: int)
    requires 1 <= k <= i <= l < |a| && Open(a, k, l, i, ir) && Largest(a, l, i, ir)
    ensures Heap(a[i := ir], k, l)
  {
    var a' := a[i := ir];
    forall p, c | k <= p && c <= l && (c == 2 * p || c == 2 * p + 1)
      ensures a'[c] <= a'[p]
    {
      if p != i {
        assert a[c] <= a[p];
      }
    }
  }

  /** In sifts rounds ce levels have been sunk, never more at once than the heap has. */
  ghost predicate Levels(ce: int, sifts: int, size: int) {
    0 <= ce <= sifts * Depth(size)
  }

  lemma NoSift(size: int)
    ensures Levels(0, 0, size)
  {
  }

  lemma SiftOnce(ce: int, sifts: int, size: int, e: int, l: int)
    requires Levels(ce, sifts, size) && 0 <= e <= Depth(l) && l <= size
    ensures Levels(ce + e, sifts + 1, size)
  {
    DepthGrows(l, size);
    assert (sifts + 1) * Depth(size) == sifts * Depth(size) + Depth(size);
  }

  /** The sort loop. The counters are those of the source. */
  method Sort(base: array<int>, size: int) returns (ca: nat, cb: nat, cc: nat, cd: nat, ce: nat, cf: nat)
    requires 2 <= size && base.Length == size + 1
    modifies base
    ensures Sorted(base[..], 1) && multiset(base[..]) == multiset(old(base[..])) && base[0] == old(base[0])
    ensures ca == cb + cc && cb == size / 2 && cc == size - 1
    ensures cd == ce + cf && cf <= ca - 1 && Levels(ce, ca - 1, size)
  {
    hide Phase, ToSift, Sorted, Levels, Heap, HeapBut, AtMost, Ceiling, Depth, Power;
    NoSift(size);
    var k, l := size / 2 + 1, size;
    ca, cb, cc, cd, ce, cf := 0, 0, 0, 0, 0, 0;
    ghost var bound := Bound(base[..]);
    ghost var half := size / 2;
    Leaves(base[..], size, bound);
    while true
      invariant 1 <= k <= half + 1 && 2 <= l <= size && (k > 1 ==> l == size) && Phase(base[..], k, l, bound)
      invariant ca == cb + cc && cb == half + 1 - k && cc == size - l
      invariant cd == ce + cf && cf <= ca && Levels(ce, ca, size)
      invariant multiset(base[..]) == multiset(old(base[..])) && base[0] == old(base[0])
      decreases k, l
    {
      ca := ca + 1;
      var ir;
      if k > 1 {
        cb := cb + 1;
        k := k - 1;
        ir := base[k];
        NextNode(base[..], k, l, bound);
      } else {
        cc := cc + 1;
        ir := Pop(base, l, bound);
        l := l - 1;
        if l == 1 {
          base[1] := ir;
          return;
        }
      }
      var d, e, f := SiftNode(base, k, l, ir, bound);
      SiftOnce(ce, ca - 1, size, e, l);
      cd, ce, cf := cd + d, ce + e, cf + f;
    }
  }

  /** The state at the head of the loop: a heap from k on, and behind it what is already in order. */
  ghost predicate Phase(a: seq<int>, k: int, l: int, bound: int) {
    1 <= k && 1 <= l < |a| && Heap(a, k, l) && Sorted(a, l + 1) && AtMost(a, l, Ceiling(a, l, bound))
  }

  /** Before ir sinks from node k. */
  ghost predicate ToSift(a: seq<int>, k: int, l: int, ir: int, bound: int) {
    1 <= k <= l < |a| && HeapBut(a, k, l, k) && Sorted(a, l + 1) && AtMost(a, l, Ceiling(a, l, bound))
    && ir <= Ceiling(a, l, bound)
  }

  method SiftNode(base: array<int>, k: int, l: int, ir: int, ghost bound: int) returns (cd: nat, ce: nat, cf: nat)
    requires ToSift(base[..], k, l, ir, bound)
    modifies base
    ensures Phase(base[..], k, l, bound) && multiset(base[..]) == multiset(old(base[..])[k := ir])
    ensures base[0] == old(base[0]) && cd == ce + cf && cf <= 1 && ce <= Depth(l)
  {
    hide Heap, HeapBut, AtMost, Sorted, SameAbove, Ceiling;
    ghost var a := base[..];
    ghost var i;
    cd, ce, cf, i := Sift(base, k, l, ir, Ceiling(a, l, bound));
    Times(1, k, Power(ce));
    DepthIs(ce, l);
    Above(a, base[..], l, bound);
  }

  /** The root moves behind the heap, and the last node is taken out. */
  method Pop(base: array<int>, l: int, ghost bound: int) returns (ir: int)
    requires 2 <= l < base.Length && Phase(base[..], 1, l, bound)
    modifies base
    ensures ToSift(base[..], 1, l - 1, ir, bound) && base[0] == old(base[0])
    ensures multiset(base[..][1 := ir]) == multiset(old(base[..]))
    ensures l == 2 ==> Sorted(base[..][1 := ir], 1)
  {
    hide Heap, HeapBut, AtMost, Sorted;
    ghost var a := base[..];
    PopRoot(a, l, bound);
    if l == 2 {
      LastTwo(a, bound);
    }
    ir := base[l];
    base[l] := base[1];
    assert base[..] == a[l := a[1]];
  }

  /** What nothing up to l exceeds: the first sorted element, once there is one. */
  ghost function Ceiling(a: seq<int>, l: int, bound: int): int
    requires 0 <= l < |a|
  {
    if l + 1 < |a| then a[l + 1] else bound
  }

  lemma Leaves(a: seq<int>, size: int, bound: int)
    requires 2 <= size == |a| - 1 && forall p | 0 <= p < |a| :: a[p] <= bound
    ensures Phase(a, size / 2 + 1, size, bound)
  {
  }

  lemma NextNode(a: seq<int>, k: int, l: int, bound: int)
    requires 1 <= k < l < |a| && Phase(a, k + 1, l, bound)
    ensures ToSift(a, k, l, a[k], bound) && a[k := a[k]] == a
  {
  }

  /** The root, a largest element, goes behind the heap. */
  lemma PopRoot(a: seq<int>, l: int, bound: int)
    requires 2 <= l < |a| && Heap(a, 1, l) && Sorted(a, l + 1) && AtMost(a, l, Ceiling(a, l, bound))
    ensures var a' := a[l := a[1]];
            HeapBut(a', 1, l - 1, 1) && Sorted(a', l) && AtMost(a', l - 1, a[1]) && a[l] <= a[1]
                && multiset(a'[1 := a[l]]) == multiset(a)
  {
    var a' := a[l := a[1]];
    MaxBound(a, l);
    PopHeap(a, l);
    PopSorted(a, l, bound);
    assert a'[1 := a[l]] == a[1 := a[l]][l := a[1]];
    assert a[1 := a[1]] == a;
    Exchange(a, 1, l, a[1]);
  }

  lemma PopHeap(a: seq<int>, l: int)
    requires 2 <= l < |a| && Heap(a, 1, l) && AtMost(a, l, a[1])
    ensures HeapBut(a[l := a[1]], 1, l - 1, 1) && AtMost(a[l := a[1]], l - 1, a[1])
  {
  }

  lemma PopSorted(a: seq<int>, l: int, bound: int)
    requires 2 <= l < |a| && Sorted(a, l + 1) && AtMost(a, l, Ceiling(a, l, bound))
    ensures Sorted(a[l := a[1]], l)
  {
    var a' := a[l := a[1]];
    forall p, q | l <= p <= q < |a|
      ensures a'[p] <= a'[q]
    {
      if p == l < q {
        assert a[1] <= a[l + 1] <= a[q];
      }
    }
  }

  lemma LastTwo(a: seq<int>, bound: int)
    requires 3 <= |a| && Heap(a, 1, 2) && Sorted(a, 3) && AtMost(a, 2, Ceiling(a, 2, bound))
    ensures Sorted(a[2 := a[1]][1 := a[2]], 1)
  {
    PopSorted(a, 2, bound);
    var a', b := a[2 := a[1]], a[2 := a[1]][1 := a[2]];
    MaxBound(a, 2);
    assert a[2] <= a[1];
    forall p, q | 1 <= p <= q < |b|
      ensures b[p] <= b[q]
    {
      if p == 1 < q {
        assert a[2] <= a'[2] <= a'[q];
      }
    }
  }

  lemma Above(a: seq<int>, a': seq<int>, l: int, bound: int)
    requires 1 <= l < |a| && SameAbove(a, a', l) && Sorted(a, l + 1)
    ensures Sorted(a', l + 1) && Ceiling(a', l, bound) == Ceiling(a, l, bound) && a'[0] == a[0]
  {
  }

  lemma MaxBound(a: seq<int>, l: int)
    requires 1 <= l < |a| && Heap(a, 1, l)
    ensures AtMost(a, l, a[1])
  {
    forall p | 1 <= p <= l
      ensures a[p] <= a[1]
    {
      RootIsMax(a, l, p);
    }
  }

  lemma {:induction false} Bound(a: seq<int>) returns (b: int)
    ensures forall p | 0 <= p < |a| :: a[p] <= b
  {
    if a == [] {
      b := 0;
    } else {
      b := Bound(a[..|a| - 1]);
      if b < a[|a| - 1] {
        b := a[|a| - 1];
      }
    }
  }
}
