/**
 qsort and bsearch of lib/mylibc/stdlib: a shell sort that moves elements byte by byte, and binary search.
 */
module QuickSort {
  import opened Common

  type Element = seq<octet>

  /** Element k of an array of elements of w bytes. */
  function El(a: seq<octet>, w: nat, k: int): Element {
    if 0 <= k * w && k * w + w <= |a| then a[k * w..k * w + w] else []
  }

  function Elements(a: seq<octet>, w: nat, n: nat): seq<Element> {
    seq(n, k => El(a, w, k))
  }

  /** The comparison is a total preorder. */
  ghost predicate TotalPreorder(comp: (Element, Element) -> int) {
    && (forall x, y :: comp(x, y) <= 0 || comp(y, x) <= 0)
    && (forall x, y, z | comp(x, y) <= 0 && comp(y, z) <= 0 :: comp(x, z) <= 0)
  }

  /** The first m elements are in order. */
  ghost predicate SortedTo(s: seq<Element>, m: int, comp: (Element, Element) -> int) {
    forall p, q | 0 <= p <= q < m && q < |s| :: comp(s[p], s[q]) <= 0
  }

  ghost predicate Sorted(s: seq<Element>, comp: (Element, Element) -> int) {
    SortedTo(s, |s|, comp)
  }

  lemma Products(a: int, b: int, w: nat)
    ensures (a + b) * w == a * w + b * w && (a - b) * w == a * w - b * w
    ensures a <= b ==> a * w <= b * w
    ensures 0 <= a ==> 0 <= a * w
    ensures a < b ==> a * w + w <= b * w
  {
    if a < b {
      TimesUp(b - a - 1, w);
      assert b * w == a * w + w + (b - a - 1) * w;
    }
  }

  lemma TimesUp(d: nat, w: nat)
    ensures 0 <= d * w
  {
  }

  /** The w bytes at a and those at b have changed places. */
  ghost predicate BytesSwapped(s: seq<octet>, s': seq<octet>, a: int, b: int, w: nat) {
    |s'| == |s| && 0 <= a && a + w <= b && b + w <= |s|
    && (forall x | 0 <= x < |s| && !(a <= x < a + w) && !(b <= x < b + w) :: s'[x] == s[x])
    && (forall x, y | a <= x < a + w && y == x - a + b :: s'[x] == s[y] && s'[y] == s[x])
  }

  method SwapBytes(base: array<octet>, a0: int, b0: int, width: nat)
    requires 0 < width && 0 <= a0 && a0 + width <= b0 && b0 + width <= base.Length
    modifies base
    ensures BytesSwapped(old(base[..]), base[..], a0, b0, width)
  {
    var a, b, k := a0, b0, width;
    ghost var s := base[..];
    while k > 0
      invariant 0 <= k <= width && a == a0 + (width - k) && b == b0 + (width - k)
      invariant forall x | 0 <= x < base.Length && !(a0 <= x < a) && !(b0 <= x < b) :: base[x] == s[x]
      invariant forall x, y | a0 <= x < a && y == x - a0 + b0 :: base[x] == s[y] && base[y] == s[x]
    {
      var tmp := base[a];
      base[a] := base[b];
      base[b] := tmp;
      a, b, k := a + 1, b + 1, k - 1;
    }
  }

  /** Swapping the bytes of two elements swaps the elements and splits none. */
  lemma Swapped(s: seq<octet>, s': seq<octet>, w: nat, p: int, q: int, n: nat)
    requires 0 < w && 0 <= p < q < n && |s| == n * w && BytesSwapped(s, s', p * w, q * w, w)
    ensures var e := Elements(s, w, n); Elements(s', w, n) == e[p := e[q]][q := e[p]]
  {
    hide BytesSwapped;
    var e, e' := Elements(s, w, n), Elements(s', w, n);
    forall k | 0 <= k < n
      ensures e'[k] == e[p := e[q]][q := e[p]][k]
    {
      SwappedAt(s, s', w, p, q, n, k);
    }
  }

  lemma SwappedAt(s: seq<octet>, s': seq<octet>, w: nat, p: int, q: int, n: nat, k: int)
    requires 0 < w && 0 <= p < q < n && |s| == n * w && BytesSwapped(s, s', p * w, q * w, w) && 0 <= k < n
    ensures El(s', w, k) == if k == p then El(s, w, q) else if k == q then El(s, w, p) else El(s, w, k)
  {
    Products(p, n, w);
    Products(q, n, w);
    Products(k, n, w);
    Products(k, p, w);
    Products(p, k, w);
    Products(k, q, w);
    Products(q, k, w);
    SwappedOne(s, s', p * w, q * w, k * w, w);
  }

  lemma SwappedOne(s: seq<octet>, s': seq<octet>, a: int, b: int, c: int, w: nat)
    requires BytesSwapped(s, s', a, b, w) && 0 <= c && c + w <= |s|
    requires (c == a || c + w <= a || a + w <= c) && (c == b || c + w <= b || b + w <= c)
    ensures s'[c..c + w] == if c == a then s[b..b + w] else if c == b then s[a..a + w] else s[c..c + w]
  {
    var t := if c == a then s[b..b + w] else if c == b then s[a..a + w] else s[c..c + w];
    forall i | 0 <= i < w
      ensures s'[c..c + w][i] == t[i]
    {
      assert s'[c..c + w][i] == s'[c + i];
      if c == a {
        assert t[i] == s[b + i];
      } else if c == b {
        assert t[i] == s[a + i];
      } else {
        assert t[i] == s[c + i];
      }
    }
  }

  // The sort.

  /** Elements 0 to i are in order, but for the one at pos, which is not larger than those after it. */
  ghost predicate Sinking(s: seq<Element>, pos: int, i: int, comp: (Element, Element) -> int)
    requires 0 <= pos <= i < |s|
  {
    && (forall p, q | 0 <= p < q <= i && p != pos && q != pos :: comp(s[p], s[q]) <= 0)
    && (forall q | pos < q <= i :: comp(s[pos], s[q]) <= 0)
  }

  lemma SinkStart(s: seq<Element>, i: int, comp: (Element, Element) -> int)
    requires 0 < i < |s| && SortedTo(s, i, comp)
    ensures Sinking(s, i, i, comp)
  {
  }

  lemma SinkStep(s: seq<Element>, pos: int, i: int, comp: (Element, Element) -> int)
    requires TotalPreorder(comp) && 0 < pos <= i < |s| && Sinking(s, pos, i, comp) && comp(s[pos - 1], s[pos]) > 0
    ensures Sinking(s[pos - 1 := s[pos]][pos := s[pos - 1]], pos - 1, i, comp)
  {
    assert comp(s[pos], s[pos - 1]) <= 0;
  }

  lemma SinkEnd(s: seq<Element>, pos: int, i: int, comp: (Element, Element) -> int)
    requires TotalPreorder(comp) && 0 <= pos <= i < |s| && Sinking(s, pos, i, comp)
             && (pos == 0 || comp(s[pos - 1], s[pos]) <= 0)
    ensures SortedTo(s, i + 1, comp)
  {
    forall p, q | 0 <= p <= q <= i
      ensures comp(s[p], s[q]) <= 0
    {
      if p < q == pos && p < pos - 1 {
        assert comp(s[p], s[pos - 1]) <= 0;
      }
    }
  }

  lemma ExchangeSame(s: seq<Element>, p: int, q: int)
    requires 0 <= p < |s| && 0 <= q < |s| && p != q
    ensures multiset(s[p := s[q]][q := s[p]]) == multiset(s)
  {
    assert s[p := s[q]][q := s[p]] == s[q := s[p]][p := s[q]];
    assert s[p := s[p]] == s;
  }

  lemma ElementsAt(a: seq<octet>, w: nat, n: nat, k: int)
    requires |a| == n * w && 0 <= k < n
    ensures 0 <= k * w && k * w + w <= |a| && Elements(a, w, n)[k] == a[k * w..k * w + w]
  {
    Products(k, n, w);
  }

  method SwapElements(base: array<octet>, a: int, b: int, width: nat, ghost p: int, ghost q: int, ghost n: nat)
    requires 0 < width && a == p * width && b == q * width && 0 <= p < q < n && base.Length == n * width
    modifies base
    ensures var e := Elements(old(base[..]), width, n);
            |e| == n && Elements(base[..], width, n) == e[p := e[q]][q := e[p]]
                && multiset(Elements(base[..], width, n)) == multiset(e)
  {
    hide Elements, El, BytesSwapped;
    ElementsLength(base[..], width, n);
    Products(p, q, width);
    Products(q, n, width);
    Products(0, p, width);
    ghost var s := base[..];
    SwapBytes(base, a, b, width);
    Swapped(s, base[..], width, p, q, n);
    ExchangeSame(Elements(s, width, n), p, q);
  }

  /** The element at offset i goes down in steps of wgap until the one below is not larger. */
  method Sink(base: array<octet>, i: int, wgap: int, width: nat, comp: (Element, Element) -> int, ghost n: nat,
              ghost e: int, ghost g: int)
    requires 0 < width && base.Length == n * width && TotalPreorder(comp)
    requires 0 < g <= e < n && i == e * width && wgap == g * width
    modifies base
    ensures multiset(Elements(base[..], width, n)) == multiset(Elements(old(base[..]), width, n))
    ensures g == 1 && SortedTo(Elements(old(base[..]), width, n), e, comp) ==>
              SortedTo(Elements(base[..], width, n), e + 1, comp)
  {
    hide TotalPreorder, SortedTo, Sinking, Elements, El;
    var j := i;
    ghost var s0 := Elements(base[..], width, n);
    ghost var s, pos := s0, e;
    ElementsLength(base[..], width, n);
    ghost var single := g == 1 && SortedTo(s0, e, comp);
    if single {
      SinkStart(s, e, comp);
    }
    var more := true;
    while more
      invariant s == Elements(base[..], width, n) && |s| == n && multiset(s) == multiset(s0)
      invariant 0 <= pos <= e && j == pos * width && (more ==> g <= pos)
      invariant single ==> if more then Sinking(s, pos, e, comp) else SortedTo(s, e + 1, comp)
      decreases pos, more
    {
      j := j - wgap;
      Products(pos, g, width);
      var larger := SwapIfLarger(base, j, j + wgap, width, comp, pos - g, pos, n);
      if !larger {
        SinkStops(s, pos, e, comp, single);
        j := j + wgap;
        break;
      }
      SinkGoesOn(s, pos, e, comp, single);
      s := Elements(base[..], width, n);
      pos := pos - g;
      Compare(pos, g, width);
      more := j >= wgap;
      if !more {
        SinkStops(s, pos, e, comp, single);
      }
    }
  }

  /** One comparison: the elements change places if the lower one is larger. */
  method SwapIfLarger(base: array<octet>, a: int, b: int, width: nat, comp: (Element, Element) -> int, ghost p: int,
                      ghost q: int, ghost n: nat)
    returns (larger: bool)
    requires 0 < width && a == p * width && b == q * width && 0 <= p < q < n && base.Length == n * width
    modifies base
    ensures var e, e' := Elements(old(base[..]), width, n), Elements(base[..], width, n);
            |e| == n && (larger <==> comp(e[p], e[q]) > 0) && multiset(e') == multiset(e)
            && e' == if larger then e[p := e[q]][q := e[p]] else e
  {
    hide Elements, El;
    ElementsLength(base[..], width, n);
    ElementsAt(base[..], width, n, p);
    ElementsAt(base[..], width, n, q);
    larger := comp(base[a..a + width], base[b..b + width]) > 0;
    if larger {
      SwapElements(base, a, b, width, p, q, n);
    }
  }

  lemma SinkStops(s: seq<Element>, pos: int, i: int, comp: (Element, Element) -> int, single: bool)
    requires TotalPreorder(comp) && 0 <= pos <= i < |s| && (pos == 0 || !single || comp(s[pos - 1], s[pos]) <= 0)
    requires single ==> Sinking(s, pos, i, comp)
    ensures single ==> SortedTo(s, i + 1, comp)
  {
    if single {
      SinkEnd(s, pos, i, comp);
    }
  }

  lemma SinkGoesOn(s: seq<Element>, pos: int, i: int, comp: (Element, Element) -> int, single: bool)
    requires TotalPreorder(comp) && 0 < pos <= i < |s| && (single ==> comp(s[pos - 1], s[pos]) > 0)
    requires single ==> Sinking(s, pos, i, comp)
    ensures single ==> Sinking(s[pos - 1 := s[pos]][pos := s[pos - 1]], pos - 1, i, comp)
  {
    if single {
      SinkStep(s, pos, i, comp);
    }
  }

  lemma ElementsLength(a: seq<octet>, w: nat, n: nat)
    ensures |Elements(a, w, n)| == n
  {
  }

  lemma Compare(a: int, b: int, w: nat)
    requires 0 < w
    ensures a * w >= b * w <==> a >= b
  {
    Products(a, b, w);
    Products(b, a, w);
  }

  /** The gaps 1, 4, 13, ...: each is three times the one before, plus one. */
  ghost predicate GapOk(g: int)
    decreases g
  {
    g == 1 || (4 <= g && g % 3 == 1 && GapOk((g - 1) / 3))
  }

  /** The next gap, in bytes, is again a whole number of elements. */
  lemma NextGap(g: int, h: int, w: nat)
    requires GapOk(g) && 0 < g && h == (g - 1) / 3 && 0 < w
    ensures (g * w - w) / 3 == h * w && 0 <= h < g && (h > 0 ==> GapOk(h)) && (h == 0 <==> g == 1)
    ensures h * w > 0 <==> h > 0
  {
    assert g == 3 * h + 1;
    NextGapBytes(g, h, w);
  }

  lemma NextGapBytes(g: int, h: int, w: nat)
    requires g == 3 * h + 1 && 0 <= h && 0 < w
    ensures (g * w - w) / 3 == h * w && (h * w > 0 <==> h > 0)
  {
    GapBytes(g, h, w);
    Third(h * w);
    Positive(h, w);
  }

  lemma Positive(h: nat, w: nat)
    requires 0 < w
    ensures h * w > 0 <==> h > 0
  {
    if h > 0 {
      Products(0, h, w);
    }
  }

  lemma GapBytes(g: int, h: int, w: nat)
    requires g == 3 * h + 1
    ensures g * w - w == 3 * (h * w)
  {
    Products(3 * h, 1, w);
    Products(h, h, w);
    Products(2 * h, h, w);
  }

  lemma Third(x: int)
    ensures (3 * x) / 3 == x
  {
  }

  /** One pass: every element from the gap on sinks. */
  method Pass(base: array<octet>, wgap: int, wnel: int, width: nat, comp: (Element, Element) -> int, ghost n: nat,
              ghost g: int)
    requires 0 < width && base.Length == n * width && TotalPreorder(comp)
    requires 0 < g < n && wgap == g * width && wnel == n * width
    modifies base
    ensures multiset(Elements(base[..], width, n)) == multiset(Elements(old(base[..]), width, n))
    ensures g == 1 ==> Sorted(Elements(base[..], width, n), comp)
  {
    hide SortedTo, Elements, El;
    var i := wgap;
    ghost var e := g;
    ElementsLength(base[..], width, n);
    FirstSorted(Elements(base[..], width, n), comp);
    Compare(e, n, width);
    while i < wnel
      invariant g <= e <= n && i == e * width
      invariant multiset(Elements(base[..], width, n)) == multiset(Elements(old(base[..]), width, n))
      invariant |Elements(base[..], width, n)| == n && (g == 1 ==> SortedTo(Elements(base[..], width, n), e, comp))
      decreases n - e
    {
      Compare(e, n, width);
      Sink(base, i, wgap, width, comp, n, e, g);
      ElementsLength(base[..], width, n);
      Products(e, 1, width);
      i := i + width;
      e := e + 1;
    }
    Compare(e, n, width);
  }

  lemma FirstSorted(s: seq<Element>, comp: (Element, Element) -> int)
    requires TotalPreorder(comp) && 1 <= |s|
    ensures SortedTo(s, 1, comp)
  {
  }

  method QSort(base: array<octet>, nel: nat, width: nat, comp: (Element, Element) -> int)
    requires base.Length == nel * width && TotalPreorder(comp)
    modifies base
    ensures multiset(Elements(base[..], width, nel)) == multiset(Elements(old(base[..]), width, nel))
    ensures 0 < width ==> Sorted(Elements(base[..], width, nel), comp)
  {
    hide Elements, El, GapOk;
    ElementsLength(base[..], width, nel);
    AtMostOne(Elements(base[..], width, nel), comp);
    hide Sorted, TotalPreorder;
    if nel > 1 && width > 0 {
      var wgap := FirstGap(nel);
      ghost var g := wgap;
      wgap := wgap * width;
      Compare(g, 0, width);
      Compare(0, g, width);
      var wnel := nel * width;
      while wgap > 0
        invariant 0 <= g < nel && wgap == g * width && (wgap > 0 <==> g > 0) && (g > 0 ==> GapOk(g))
        invariant multiset(Elements(base[..], width, nel)) == multiset(Elements(old(base[..]), width, nel))
        invariant g == 0 ==> Sorted(Elements(base[..], width, nel), comp)
        decreases g
      {
        Pass(base, wgap, wnel, width, comp, nel, g);
        ghost var h := (g - 1) / 3;
        NextGap(g, h, width);
        wgap := (wgap - width) / 3;
        g := h;
      }
    }
  }

  // do wgap = 3 * wgap + 1 while (wgap < (nel-1)/3), from wgap == 0
  method FirstGap(nel: nat) returns (wgap: int)
    requires nel > 1
    ensures GapOk(wgap) && 0 < wgap < nel
  {
    hide GapOk;
    wgap := 1;
    GapOne();
    while wgap < (nel - 1) / 3
      invariant GapOk(wgap) && 0 < wgap < nel
      decreases nel - wgap
    {
      GapUp(wgap);
      wgap := 3 * wgap + 1;
    }
  }

  lemma AtMostOne(s: seq<Element>, comp: (Element, Element) -> int)
    requires TotalPreorder(comp)
    ensures |s| <= 1 ==> Sorted(s, comp)
  {
  }

  lemma GapOne()
    ensures GapOk(1)
  {
  }

  lemma GapUp(g: int)
    requires GapOk(g) && 0 < g
    ensures GapOk(3 * g + 1)
  {
  }

  // bsearch

  /** The key compares equal to an element. */
  ghost predicate Present(s: seq<Element>, key: Element, comp: (Element, Element) -> int) {
    exists k :: 0 <= k < |s| && comp(key, s[k]) == 0
  }

  /** comp agrees with itself when its arguments change places. */
  ghost predicate Antisymmetric(comp: (Element, Element) -> int) {
    forall x, y :: (comp(x, y) < 0 <==> comp(y, x) > 0) && (comp(x, y) == 0 <==> comp(y, x) == 0)
  }

  /** The offset of an element equal to the key, or -1 for NULL. */
  method BSearch(key: Element, base: array<octet>, nmemb: nat, size: nat, comp: (Element, Element) -> int)
    returns (p: int)
    requires base.Length == nmemb * size && TotalPreorder(comp) && Antisymmetric(comp)
    requires Sorted(Elements(base[..], size, nmemb), comp)
    ensures p == -1 <==> size == 0 || !Present(Elements(base[..], size, nmemb), key, comp)
    ensures p != -1 ==> exists k :: 0 <= k < nmemb && p == k * size && comp(key, El(base[..], size, k)) == 0
  {
    hide TotalPreorder, Antisymmetric, Sorted, Present;
    p := -1;
    if size == 0 {
      return;
    }
    var low, high := 0, nmemb;
    ghost var s := Elements(base[..], size, nmemb);
    while low < high
      invariant 0 <= low <= high <= nmemb
      invariant forall k | 0 <= k < nmemb && !(low <= k < high) :: comp(key, s[k]) != 0
    {
      var mid := low + (high - low) / 2;
      p := mid * size;
      ElementsAt(base[..], size, nmemb, mid);
      var r := comp(key, base[p..p + size]);
      Narrow(s, key, comp, mid);
      if r > 0 {
        low := mid + 1;
      } else if r < 0 {
        high := mid;
      } else {
        Found(s, key, comp, mid);
        return;
      }
    }
    NotPresent(s, key, comp);
    p := -1;
  }

  lemma Narrow(s: seq<Element>, key: Element, comp: (Element, Element) -> int, mid: int)
    requires TotalPreorder(comp) && Antisymmetric(comp) && Sorted(s, comp) && 0 <= mid < |s|
    ensures comp(key, s[mid]) > 0 ==> forall k | 0 <= k <= mid :: comp(key, s[k]) != 0
    ensures comp(key, s[mid]) < 0 ==> forall k | mid <= k < |s| :: comp(key, s[k]) != 0
  {
  }

  lemma Found(s: seq<Element>, key: Element, comp: (Element, Element) -> int, k: int)
    requires 0 <= k < |s| && comp(key, s[k]) == 0
    ensures Present(s, key, comp)
  {
  }

  lemma NotPresent(s: seq<Element>, key: Element, comp: (Element, Element) -> int)
    requires forall k | 0 <= k < |s| :: comp(key, s[k]) != 0
    ensures !Present(s, key, comp)
  {
  }

  /** Sorting does not change which keys can be found. */
  lemma PresentAfterSort(s: seq<Element>, s': seq<Element>, key: Element, comp: (Element, Element) -> int)
    requires multiset(s') == multiset(s)
    ensures Present(s', key, comp) <==> Present(s, key, comp)
  {
    if k :| 0 <= k < |s| && comp(key, s[k]) == 0 {
      assert s[k] in multiset(s');
    }
    if k :| 0 <= k < |s'| && comp(key, s'[k]) == 0 {
      assert s'[k] in multiset(s);
    }
  }
}
