/**
 permute of app/spi_test.c: all permutations of a string, by swapping characters in place.
 */
module Permutations {
  function Swapped(s: string, i: int, j: int): string
    requires 0 <= i < |s| && 0 <= j < |s|
  {
    s[i := s[j]][j := s[i]]
  }

  /** What is printed for the string s when its first k characters are permuted. */
  function Printed(s: string, k: int): seq<string>
    requires 0 <= k <= |s|
    decreases k, 1, 0
  {
    if k == 1 then [s] else PrintedFrom(s, k, 0)
  }

  function PrintedFrom(s: string, k: int, c: int): seq<string>
    requires 0 <= c <= k <= |s|
    decreases k, 0, k - c
  {
    if c == k then [] else Printed(Swapped(s, c, k - 1), k - 1) + PrintedFrom(s, k, c + 1)
  }

  class Enumerator {
    const str: array<char>
    var printed: seq<string>

    constructor (s: array<char>)
      ensures str == s && printed == []
    {
      str, printed := s, [];
    }

    method Swap(x: int, y: int)
      requires 0 <= x < str.Length && 0 <= y < str.Length
      modifies str
      ensures str[..] == Swapped(old(str[..]), x, y)
    {
      var tmp := str[x];
      str[x] := str[y];
      str[y] := tmp;
    }

    /** permute(str, str + end); an empty string has end == -1. */
    method Permute(end: int)
      requires -1 <= end < str.Length
      modifies str, `printed
      ensures str[..] == old(str[..]) && printed == old(printed) + Printed(old(str[..]), end + 1)
      decreases end
    {
      hide Printed, PrintedFrom, Swapped;
      ghost var s, k := str[..], end + 1;
      Unfold(s, k);
      if end == 0 {
        printed := printed + [str[..]];
      } else {
        var cp := 0;
        while cp <= end
          invariant 0 <= cp <= end + 1 && str[..] == s
          invariant printed + PrintedFrom(s, k, cp) == old(printed) + PrintedFrom(s, k, 0)
          decreases end - cp
        {
          UnfoldFrom(s, k, cp);
          SwapTwice(s, cp, end);
          Swap(cp, end);
          Permute(end - 1);
          Swap(cp, end);
          cp := cp + 1;
        }
        UnfoldFrom(s, k, cp);
      }
    }
  }

  lemma Unfold(s: string, k: int)
    requires 0 <= k <= |s|
    ensures Printed(s, k) == if k == 1 then [s] else PrintedFrom(s, k, 0)
  {
  }

  lemma UnfoldFrom(s: string, k: int, c: int)
    requires 0 <= c <= k <= |s|
    ensures PrintedFrom(s, k, c) == if c == k then []
            else Printed(Swapped(s, c, k - 1), k - 1) + PrintedFrom(s, k, c + 1)
  {
  }

  lemma SwapTwice(s: string, i: int, j: int)
    requires 0 <= i < |s| && 0 <= j < |s|
    ensures Swapped(Swapped(s, i, j), i, j) == s
  {
  }

  // What the list contains.

  ghost predicate Distinct(s: string) {
    forall i, j | 0 <= i < j < |s| :: s[i] != s[j]
  }

  /** t has the characters of s, and agrees with it from k on. */
  ghost predicate Rearranged(s: string, t: string, k: int) {
    |t| == |s| && multiset(t) == multiset(s) && forall i | 0 <= i && k <= i < |s| :: t[i] == s[i]
  }

  function Factorial(n: int): int {
    if n <= 1 then 1 else n * Factorial(n - 1)
  }

  lemma SwappedSame(s: string, i: int, j: int)
    requires 0 <= i < |s| && 0 <= j < |s|
    ensures var s' := Swapped(s, i, j);
              |s'| == |s| && multiset(s') == multiset(s) && (Distinct(s) ==> Distinct(s')) && s'[j] == s[i]
    ensures var s' := Swapped(s, i, j); forall x | 0 <= x < |s| && x != i && x != j :: s'[x] == s[x]
  {
    hide Distinct;
    var s' := Swapped(s, i, j);
    if i == j {
      assert s' == s;
    } else {
      assert s' == s[j := s[i]][i := s[j]];
      assert s[i := s[i]] == s;
    }
    if Distinct(s) {
      SwappedDistinct(s, i, j);
    }
  }

  lemma SwappedDistinct(s: string, i: int, j: int)
    requires 0 <= i < |s| && 0 <= j < |s| && Distinct(s)
    ensures Distinct(Swapped(s, i, j))
  {
    var s' := Swapped(s, i, j);
    forall x, y | 0 <= x < y < |s|
      ensures s'[x] != s'[y]
    {
      var x', y' := Old(i, j, x), Old(i, j, y);
      assert s'[x] == s[x'] && s'[y] == s[y'];
      if x' < y' {
        assert s[x'] != s[y'];
      } else {
        assert s[y'] != s[x'];
      }
    }
  }

  function Old(i: int, j: int, x: int): int {
    if x == i then j else if x == j then i else x
  }

  /** Everything printed is a permutation. */
  lemma {:induction false} PrintedAre(s: string, k: int, t: string)
    requires 0 <= k <= |s| && t in Printed(s, k)
    ensures Rearranged(s, t, k)
    decreases k, 1, 0
  {
    if k != 1 {
      PrintedFromAre(s, k, 0, t);
    }
  }

  lemma {:induction false} PrintedFromAre(s: string, k: int, c: int, t: string)
    requires 0 <= c <= k <= |s| && t in PrintedFrom(s, k, c)
    ensures exists x :: c <= x < k && Rearranged(s, t, k) && t[k - 1] == s[x]
    decreases k, 0, k - c
  {
    SwappedSame(s, c, k - 1);
    var s' := Swapped(s, c, k - 1);
    if t in Printed(s', k - 1) {
      PrintedAre(s', k - 1, t);
      assert t[k - 1] == s[c];
    } else {
      PrintedFromAre(s, k, c + 1, t);
    }
  }

  /** The last permuted character of t is one of the first k of s. */
  lemma Origin(s: string, t: string, k: int) returns (c: int)
    requires 1 <= k <= |s| && Rearranged(s, t, k)
    ensures 0 <= c < k && s[c] == t[k - 1]
  {
    Halves(s, k);
    Halves(t, k);
    assert s[k..] == t[k..];
    var x := t[k - 1];
    assert t[..k][k - 1] == x && x in multiset(t[..k]);
    assert multiset(t)[x] == multiset(t[..k])[x] + multiset(t[k..])[x];
    assert multiset(s)[x] == multiset(s[..k])[x] + multiset(s[k..])[x];
    assert x in multiset(s[..k]);
    c :| 0 <= c < k && s[..k][c] == t[k - 1];
  }

  lemma Halves(s: string, k: int)
    requires 0 <= k <= |s|
    ensures multiset(s) == multiset(s[..k]) + multiset(s[k..])
  {
    assert s == s[..k] + s[k..];
  }

  /** Every permutation is printed. */
  lemma {:induction false} AllPrinted(s: string, k: int, t: string)
    requires 1 <= k <= |s| && Rearranged(s, t, k)
    ensures t in Printed(s, k)
    decreases k
  {
    hide Printed, PrintedFrom, Swapped;
    Unfold(s, k);
    var c := Origin(s, t, k);
    if k == 1 {
      assert t == s;
    } else {
      SwappedSame(s, c, k - 1);
      AllPrinted(Swapped(s, c, k - 1), k - 1, t);
      BlockIn(s, k, 0, c, t);
    }
  }

  lemma {:induction false} BlockIn(s: string, k: int, c: int, x: int, t: string)
    requires 0 <= c <= x < k <= |s| && t in Printed(Swapped(s, x, k - 1), k - 1)
    ensures t in PrintedFrom(s, k, c)
    decreases x - c
  {
    UnfoldFrom(s, k, c);
    if x <= c {
    } else {
      BlockIn(s, k, c + 1, x, t);
    }
  }

  ghost predicate NoRepeats(l: seq<string>) {
    forall i, j | 0 <= i < j < |l| :: l[i] != l[j]
  }

  /** If the characters are distinct, nothing is printed twice, and there are k! lines. */
  lemma {:induction false} EachOnce(s: string, k: int)
    requires 1 <= k <= |s| && Distinct(s)
    ensures NoRepeats(Printed(s, k)) && |Printed(s, k)| == Factorial(k)
    decreases k, 1, 0
  {
    hide Printed, PrintedFrom;
    Unfold(s, k);
    if k > 1 {
      EachOnceFrom(s, k, 0);
    }
  }

  lemma {:induction false} EachOnceFrom(s: string, k: int, c: int)
    requires 2 <= k <= |s| && 0 <= c <= k && Distinct(s)
    ensures NoRepeats(PrintedFrom(s, k, c)) && |PrintedFrom(s, k, c)| == (k - c) * Factorial(k - 1)
    decreases k, 0, k - c
  {
    hide Printed, PrintedFrom, Swapped, NoRepeats, Factorial;
    UnfoldFrom(s, k, c);
    Product(k - c, Factorial(k - 1));
    if c < k {
      SwappedSame(s, c, k - 1);
      var s' := Swapped(s, c, k - 1);
      EachOnce(s', k - 1);
      EachOnceFrom(s, k, c + 1);
      BlocksDiffer(s, k, c);
      Joined(Printed(s', k - 1), PrintedFrom(s, k, c + 1));
    } else {
      NoneRepeated();
    }
  }

  lemma Product(a: int, b: int)
    ensures a * b == b + (a - 1) * b && (a == 0 ==> a * b == 0)
  {
  }

  lemma NoneRepeated()
    ensures NoRepeats([])
  {
  }

  /** The blocks of the loop differ in the last permuted character. */
  lemma BlocksDiffer(s: string, k: int, c: int)
    requires 2 <= k <= |s| && 0 <= c < k && Distinct(s)
    ensures Apart(Printed(Swapped(s, c, k - 1), k - 1), PrintedFrom(s, k, c + 1))
  {
    hide Printed, PrintedFrom, Swapped;
    SwappedSame(s, c, k - 1);
    var s' := Swapped(s, c, k - 1);
    var l := Printed(s', k - 1);
    forall t | t in l
      ensures t !in PrintedFrom(s, k, c + 1)
    {
      PrintedAre(s', k - 1, t);
      assert t[k - 1] == s[c];
      if t in PrintedFrom(s, k, c + 1) {
        PrintedFromAre(s, k, c + 1, t);
      }
    }
  }

  ghost predicate Apart(l: seq<string>, r: seq<string>) {
    forall t | t in l :: t !in r
  }

  lemma Joined(l: seq<string>, r: seq<string>)
    requires NoRepeats(l) && NoRepeats(r) && Apart(l, r)
    ensures NoRepeats(l + r)
  {
    forall i, j | 0 <= i < j < |l + r|
      ensures (l + r)[i] != (l + r)[j]
    {
      if i < |l| <= j {
        assert (l + r)[i] in l && (l + r)[j] in r;
      }
    }
  }
}
