/**
 The matrix multiplications of app/mm.c, over exact arithmetic: unrolled, transposed, interchanged and
 blocked loops all compute the product that the plain loop computes.
 */
module MatrixMultiply {
  type Matrix = seq<seq<real>>

  ghost predicate Square(m: Matrix, n: nat) {
    |m| == n && forall i | 0 <= i < n :: |m[i]| == n
  }

  /** The first k terms of row i times column j. */
  function Dot(a: Matrix, b: Matrix, n: nat, i: int, j: int, k: int): real
    requires Square(a, n) && Square(b, n) && 0 <= i < n && 0 <= j < n && 0 <= k <= n
    decreases k
  {
    if k == 0 then 0.0 else Dot(a, b, n, i, j, k - 1) + a[i][k - 1] * b[k - 1][j]
  }

  ghost predicate Sized(c: array2<real>, n: nat) {
    c.Length0 == n && c.Length1 == n
  }

  /** c is the product of a and b. */
  ghost predicate Product(c: array2<real>, a: Matrix, b: Matrix, n: nat)
    requires Square(a, n) && Square(b, n)
    reads c
  {
    Sized(c, n) && forall x, y | 0 <= x < n && 0 <= y < n :: c[x, y] == Dot(a, b, n, x, y, n)
  }

  // normal
  method Normal(a: Matrix, b: Matrix, c: array2<real>, n: nat)
    requires Square(a, n) && Square(b, n) && Sized(c, n)
    modifies c
    ensures Product(c, a, b, n)
  {
    hide Square;
    var i := 0;
    while i < n
      invariant 0 <= i <= n
      invariant forall x, y | 0 <= x < i && 0 <= y < n :: c[x, y] == Dot(a, b, n, x, y, n)
    {
      var j := 0;
      while j < n
        invariant 0 <= j <= n
        invariant forall x, y | 0 <= x < n && 0 <= y < n && (x < i || (x == i && y < j)) ::
                    c[x, y] == Dot(a, b, n, x, y, n)
      {
        c[i, j] := 0.0;
        var k := 0;
        while k < n
          invariant 0 <= k <= n && c[i, j] == Dot(a, b, n, i, j, k)
          invariant forall x, y | 0 <= x < n && 0 <= y < n && (x < i || (x == i && y < j)) ::
                      c[x, y] == Dot(a, b, n, x, y, n)
        {
          Entries(a, b, n, i, j, k);
          c[i, j] := c[i, j] + a[i][k] * b[k][j];
          k := k + 1;
        }
        j := j + 1;
      }
      i := i + 1;
    }
  }

  lemma Entries(a: Matrix, b: Matrix, n: nat, i: int, j: int, k: int)
    requires Square(a, n) && Square(b, n) && 0 <= i < n && 0 <= j < n && 0 <= k < n
    ensures |a| == n && |b| == n && |a[i]| == n && |b[k]| == n
    ensures Dot(a, b, n, i, j, k + 1) == Dot(a, b, n, i, j, k) + a[i][k] * b[k][j]
  {
  }

  // The inner loop of unroll4, unroll8 and unroll16: several terms an iteration, then the rest.
  method Unrolled(a: Matrix, b: Matrix, n: nat, i: nat, j: nat, factor: int) returns (temp: real)
    requires Square(a, n) && Square(b, n) && i < n && j < n && (factor == 4 || factor == 8 || factor == 16)
    ensures temp == Dot(a, b, n, i, j, n)
  {
    hide Square, Dot;
    DotNone(a, b, n, i, j);
    temp := 0.0;
    var k := 0;
    while k < n - (factor - 1)
      invariant 0 <= k <= n && temp == Dot(a, b, n, i, j, k)
    {
      temp := Terms4(a, b, n, i, j, k, temp);
      if factor >= 8 {
        temp := Terms4(a, b, n, i, j, k + 4, temp);
      }
      if factor >= 16 {
        temp := Terms4(a, b, n, i, j, k + 8, temp);
        temp := Terms4(a, b, n, i, j, k + 12, temp);
      }
      k := k + factor;
    }
    while k < n
      invariant 0 <= k <= n && temp == Dot(a, b, n, i, j, k)
    {
      Entries(a, b, n, i, j, k);
      temp := temp + a[i][k] * b[k][j];
      k := k + 1;
    }
  }

  lemma DotNone(a: Matrix, b: Matrix, n: nat, i: int, j: int)
    requires Square(a, n) && Square(b, n) && 0 <= i < n && 0 <= j < n
    ensures Dot(a, b, n, i, j, 0) == 0.0
  {
  }

  method Terms4(a: Matrix, b: Matrix, n: nat, i: nat, j: nat, k: nat, temp0: real) returns (temp: real)
    requires Square(a, n) && Square(b, n) && i < n && j < n && k + 4 <= n && temp0 == Dot(a, b, n, i, j, k)
    ensures temp == Dot(a, b, n, i, j, k + 4)
  {
    hide Square, Dot;
    Entries(a, b, n, i, j, k);
    Entries(a, b, n, i, j, k + 1);
    Entries(a, b, n, i, j, k + 2);
    Entries(a, b, n, i, j, k + 3);
    temp := temp0 + a[i][k] * b[k][j];
    temp := temp + a[i][k + 1] * b[k + 1][j];
    temp := temp + a[i][k + 2] * b[k + 2][j];
    temp := temp + a[i][k + 3] * b[k + 3][j];
  }

  method Unroll(a: Matrix, b: Matrix, c: array2<real>, n: nat, factor: int)
    requires Square(a, n) && Square(b, n) && Sized(c, n) && (factor == 4 || factor == 8 || factor == 16)
    modifies c
    ensures Product(c, a, b, n)
  {
    hide Square;
    for i := 0 to n
      invariant forall x, y | 0 <= x < i && 0 <= y < n :: c[x, y] == Dot(a, b, n, x, y, n)
    {
      for j := 0 to n
        invariant forall x, y | 0 <= x < n && 0 <= y < n && (x < i || (x == i && y < j)) ::
                    c[x, y] == Dot(a, b, n, x, y, n)
      {
        var temp := Unrolled(a, b, n, i, j, factor);
        c[i, j] := temp;
      }
    }
  }

  // transpose

  ghost predicate Transposed(bt: array2<real>, b: Matrix, n: nat)
    requires Square(b, n)
    reads bt
  {
    Sized(bt, n) && forall x, y | 0 <= x < n && 0 <= y < n :: bt[y, x] == b[x][y]
  }

  method TransposeInto(b: Matrix, bt: array2<real>, n: nat)
    requires Square(b, n) && Sized(bt, n)
    modifies bt
    ensures Transposed(bt, b, n)
  {
    for i := 0 to n
      invariant forall x, y | 0 <= x < i && 0 <= y < n :: bt[y, x] == b[x][y]
    {
      for j := 0 to n
        invariant forall x, y | 0 <= x < n && 0 <= y < n && (x < i || (x == i && y < j)) :: bt[y, x] == b[x][y]
      {
        bt[j, i] := b[i][j];
      }
    }
  }

  method RowTimesRow(a: Matrix, bt: array2<real>, ghost b: Matrix, n: nat, i: nat, j: nat) returns (temp: real)
    requires Square(a, n) && Square(b, n) && Transposed(bt, b, n) && i < n && j < n
    ensures temp == Dot(a, b, n, i, j, n)
  {
    DotNone(a, b, n, i, j);
    Entries(a, b, n, i, j, 0);
    hide Square, Dot;
    temp := a[i][0] * bt[j, 0];
    for k := 1 to n
      invariant temp == Dot(a, b, n, i, j, k)
    {
      Entries(a, b, n, i, j, k);
      assert bt[j, k] == b[k][j];
      temp := temp + a[i][k] * bt[j, k];
    }
  }

  method Transpose(a: Matrix, b: Matrix, bt: array2<real>, c: array2<real>, n: nat)
    requires Square(a, n) && Square(b, n) && Sized(c, n) && Sized(bt, n) && bt != c
    modifies c, bt
    ensures Product(c, a, b, n)
  {
    TransposeInto(b, bt, n);
    TimesTransposed(a, b, bt, c, n);
  }

  method TimesTransposed(a: Matrix, ghost b: Matrix, bt: array2<real>, c: array2<real>, n: nat)
    requires Square(a, n) && Square(b, n) && Sized(c, n) && Transposed(bt, b, n) && bt != c
    modifies c
    ensures Product(c, a, b, n)
  {
    hide Square;
    for i := 0 to n
      invariant Transposed(bt, b, n)
      invariant forall x, y | 0 <= x < i && 0 <= y < n :: c[x, y] == Dot(a, b, n, x, y, n)
    {
      for j := 0 to n
        invariant Transposed(bt, b, n)
        invariant forall x, y | 0 <= x < n && 0 <= y < n && (x < i || (x == i && y < j)) ::
                    c[x, y] == Dot(a, b, n, x, y, n)
      {
        var temp := RowTimesRow(a, bt, b, n, i, j);
        c[i, j] := temp;
      }
    }
  }

  // Interchanged and blocked loops: every element has collected its terms up to some level.

  /** A level of -1 says nothing about the element. */
  ghost predicate Collected(c: array2<real>, a: Matrix, b: Matrix, n: nat, level: (int, int) -> int)
    requires Square(a, n) && Square(b, n)
    reads c
  {
    Sized(c, n) && forall x, y | 0 <= x < n && 0 <= y < n ::
      -1 <= level(x, y) <= n && (level(x, y) >= 0 ==> c[x, y] == Dot(a, b, n, x, y, level(x, y)))
  }

  lemma CollectedSame(c: array2<real>, a: Matrix, b: Matrix, n: nat, level: (int, int) -> int,
                      level': (int, int) -> int)
    requires Square(a, n) && Square(b, n) && Collected(c, a, b, n, level)
    requires forall x, y | 0 <= x < n && 0 <= y < n :: level'(x, y) == level(x, y)
    ensures Collected(c, a, b, n, level')
  {
    hide Square, Dot;
  }

  lemma CollectedAll(c: array2<real>, a: Matrix, b: Matrix, n: nat, level: (int, int) -> int)
    requires Square(a, n) && Square(b, n) && Collected(c, a, b, n, level) && forall x, y | 0 <= x < n && 0 <= y < n ::
               level(x, y) == n
    ensures Product(c, a, b, n)
  {
    hide Square, Dot;
  }

  method Clear(a: Matrix, b: Matrix, c: array2<real>, n: nat)
    requires Square(a, n) && Square(b, n) && Sized(c, n)
    modifies c
    ensures Collected(c, a, b, n, (x, y) => 0)
  {
    for i := 0 to n
      invariant forall x, y | 0 <= x < i && 0 <= y < n :: c[x, y] == 0.0
    {
      for j := 0 to n
        invariant forall x, y | 0 <= x < n && 0 <= y < n && (x < i || (x == i && y < j)) :: c[x, y] == 0.0
      {
        c[i, j] := 0.0;
      }
    }
  }

  function Least(a: int, b: int): int {
    if a <= b then a else b
  }

  /** In the tile with rows k from kk to kn and columns from jj to jn, row i is at term k and column j. */
  function TileLevel(x: int, y: int, kk: int, kn: int, jj: int, jn: int, i: int, k: int, j: int): int {
    if y < jj then kn else if jn <= y then kk
    else if x < i then kn else if i < x then kk
    else if y < j then k + 1 else k
  }

  /** for (j = jj; j < min(jj + step, N); j++) c[i][j] += a_entry * b[k][j] */
  method TileLine(a: Matrix, b: Matrix, c: array2<real>, n: nat, kk: nat, kn: nat, jj: nat, jn: nat, i: nat, k: nat)
    requires Square(a, n) && Square(b, n) && kk <= k < kn <= n && jj <= jn <= n && i < n
    requires Collected(c, a, b, n, (x, y) => TileLevel(x, y, kk, kn, jj, jn, i, k, jj))
    modifies c
    ensures Collected(c, a, b, n, (x, y) => TileLevel(x, y, kk, kn, jj, jn, i, k + 1, jj))
  {
    hide Square, Dot, Collected;
    EntryShape(a, b, n, i, k);
    var entry := a[i][k];
    for j := jj to jn
      invariant Collected(c, a, b, n, (x, y) => TileLevel(x, y, kk, kn, jj, jn, i, k, j))
    {
      ghost var level := (x, y) => TileLevel(x, y, kk, kn, jj, jn, i, k, j);
      EntryShape(a, b, n, i, k);
      AddTerm(a, b, c, n, i, j, k, entry * b[k][j], level);
      CollectedSame(c, a, b, n, Raised(level, i, j, k + 1), (x, y) => TileLevel(x, y, kk, kn, jj, jn, i, k, j + 1));
    }
    CollectedSame(c, a, b, n, (x, y) => TileLevel(x, y, kk, kn, jj, jn, i, k, jn),
        (x, y) => TileLevel(x, y, kk, kn, jj, jn, i, k + 1, jj));
  }

  /** c[x][y] += v, the term of level k */
  method AddTerm(a: Matrix, b: Matrix, c: array2<real>, n: nat, x0: nat, y0: nat, k: nat, v: real,
                 ghost level: (int, int) -> int)
    requires Square(a, n) && Square(b, n) && Collected(c, a, b, n, level) && x0 < n && y0 < n && k < n
             && level(x0, y0) == k
    requires |a| == n && |a[x0]| == n && |b| == n && |b[k]| == n && v == a[x0][k] * b[k][y0]
    modifies c
    ensures Collected(c, a, b, n, Raised(level, x0, y0, k + 1))
  {
    hide Square, Dot;
    Entries(a, b, n, x0, y0, k);
    c[x0, y0] := c[x0, y0] + v;
  }

  lemma EntryShape(a: Matrix, b: Matrix, n: nat, i: int, k: int)
    requires Square(a, n) && Square(b, n) && 0 <= i < n && 0 <= k < n
    ensures |a| == n && |a[i]| == n && |b| == n && |b[k]| == n
  {
  }

  /** One tile: for all rows, all its terms. */
  method Tile(a: Matrix, b: Matrix, c: array2<real>, n: nat, kk: nat, kn: nat, jj: nat, jn: nat)
    requires Square(a, n) && Square(b, n) && kk <= kn <= n && jj <= jn <= n
    requires Collected(c, a, b, n, (x, y) => if y < jj then kn else kk)
    modifies c
    ensures Collected(c, a, b, n, (x, y) => if y < jn then kn else kk)
  {
    hide Square, Dot, Collected;
    CollectedSame(c, a, b, n, (x, y) => if y < jj then kn else kk,
        (x, y) => TileLevel(x, y, kk, kn, jj, jn, 0, kk, jj));
    for i := 0 to n
      invariant Collected(c, a, b, n, (x, y) => TileLevel(x, y, kk, kn, jj, jn, i, kk, jj))
    {
      for k := kk to kn
        invariant Collected(c, a, b, n, (x, y) => TileLevel(x, y, kk, kn, jj, jn, i, k, jj))
      {
        TileLine(a, b, c, n, kk, kn, jj, jn, i, k);
      }
      CollectedSame(c, a, b, n, (x, y) => TileLevel(x, y, kk, kn, jj, jn, i, kn, jj),
          (x, y) => TileLevel(x, y, kk, kn, jj, jn, i + 1, kk, jj));
    }
    CollectedSame(c, a, b, n, (x, y) => TileLevel(x, y, kk, kn, jj, jn, n, kk, jj),
        (x, y) => if y < jn then kn else kk);
  }

  // tiling; reg_loops is the case of one tile
  method Tiling(a: Matrix, b: Matrix, c: array2<real>, n: nat, step: int)
    requires Square(a, n) && Square(b, n) && Sized(c, n) && 0 < step
    modifies c
    ensures Product(c, a, b, n)
  {
    hide Square, Dot, Collected, Product;
    Clear(a, b, c, n);
    var kk := 0;
    CollectedSame(c, a, b, n, (x, y) => 0, (x, y) => Least(kk, n));
    while kk < n
      invariant 0 <= kk && Collected(c, a, b, n, (x, y) => Least(kk, n))
      decreases n - kk
    {
      var kn := Least(kk + step, n);
      var jj := 0;
      CollectedSame(c, a, b, n, (x, y) => Least(kk, n), (x, y) => if y < Least(jj, n) then kn else kk);
      while jj < n
        invariant 0 <= jj && Collected(c, a, b, n, (x, y) => if y < Least(jj, n) then kn else kk)
        decreases n - jj
      {
        CollectedSame(c, a, b, n, (x, y) => if y < Least(jj, n) then kn else kk, (x, y) => if y < jj then kn else kk);
        var jn := Least(jj + step, n);
        Tile(a, b, c, n, kk, kn, jj, jn);
        jj := jj + step;
        CollectedSame(c, a, b, n, (x, y) => if y < jn then kn else kk, (x, y) => if y < Least(jj, n) then kn else kk);
      }
      CollectedSame(c, a, b, n, (x, y) => if y < Least(jj, n) then kn else kk, (x, y) => Least(kk + step, n));
      kk := kk + step;
      CollectedSame(c, a, b, n, (x, y) => Least(kk, n), (x, y) => Least(kk, n));
    }
    CollectedAll(c, a, b, n, (x, y) => Least(kk, n));
  }

  // reg_loops
  method RegLoops(a: Matrix, b: Matrix, c: array2<real>, n: nat)
    requires Square(a, n) && Square(b, n) && Sized(c, n)
    modifies c
    ensures Product(c, a, b, n)
  {
    hide Square, Dot, Collected, Product;
    Clear(a, b, c, n);
    CollectedSame(c, a, b, n, (x, y) => 0, (x, y) => if y < 0 then n else 0);
    // for i, for k, for j
    Tile(a, b, c, n, 0, n, 0, n);
    CollectedAll(c, a, b, n, (x, y) => if y < n then n else 0);
  }

  /** A multiple of p below another one leaves room for p. */
  lemma NextMultiple(p: int, u: int, q: int)
    requires 0 < p && u < q
    ensures p * u + p <= p * q && p * (u + 1) == p * u + p
  {
    assert p * (q - u - 1) >= 0;
  }

  /** In the rows i2 up to it, terms kk up to kt are being added: columns before j are done, and in columns j to j + 3
      the rows before i. */
  function MaenoLevel(n: int, x: int, y: int, i2: int, it: int, kk: int, kt: int, j: int, i: int): int {
    if x < i2 then n else if it <= x then 0
    else if y < j then kt else if j + 4 <= y then kk
    else if x < i then kt else kk
  }

  /** Terms kk up to kt of an element, added up in a temporary. */
  ghost predicate Partial(t: real, a: Matrix, b: Matrix, n: nat, i: int, j: int, kk: int, k: int) {
    Square(a, n) && Square(b, n) && 0 <= i < n && 0 <= j < n && 0 <= kk <= k <= n
        && Dot(a, b, n, i, j, kk) + t == Dot(a, b, n, i, j, k)
  }

  lemma PartialStart(a: Matrix, b: Matrix, n: nat, i: int, j: int, kk: int)
    requires Square(a, n) && Square(b, n) && 0 <= i < n && 0 <= j < n && 0 <= kk <= n
    ensures Partial(0.0, a, b, n, i, j, kk, kk)
  {
  }

  lemma PartialStep(t: real, v: real, a: Matrix, b: Matrix, n: nat, i: int, j: int, kk: int, k: int)
    requires Partial(t, a, b, n, i, j, kk, k) && k < n && |a| == n && |a[i]| == n && |b| == n && |b[k]| == n
             && v == a[i][k] * b[k][j]
    ensures Partial(t + v, a, b, n, i, j, kk, k + 1)
  {
    Entries(a, b, n, i, j, k);
  }

  /** Four elements of one row. */
  method MaenoRow(a: Matrix, b: Matrix, n: nat, i: nat, j: nat, kk: nat, kt: nat)
    returns (t0: real, t1: real, t2: real, t3: real)
    requires Square(a, n) && Square(b, n) && i < n && j + 4 <= n && kk <= kt <= n
    ensures Partial(t0, a, b, n, i, j, kk, kt) && Partial(t1, a, b, n, i, j + 1, kk, kt)
    ensures Partial(t2, a, b, n, i, j + 2, kk, kt) && Partial(t3, a, b, n, i, j + 3, kk, kt)
  {
    hide Square, Partial;
    t0, t1, t2, t3 := 0.0, 0.0, 0.0, 0.0;
    PartialStart(a, b, n, i, j, kk);
    PartialStart(a, b, n, i, j + 1, kk);
    PartialStart(a, b, n, i, j + 2, kk);
    PartialStart(a, b, n, i, j + 3, kk);
    for k := kk to kt
      invariant Partial(t0, a, b, n, i, j, kk, k) && Partial(t1, a, b, n, i, j + 1, kk, k)
      invariant Partial(t2, a, b, n, i, j + 2, kk, k) && Partial(t3, a, b, n, i, j + 3, kk, k)
    {
      EntryShape(a, b, n, i, k);
      var s := a[i][k];
      var v0, v1, v2, v3 := s * b[k][j], s * b[k][j + 1], s * b[k][j + 2], s * b[k][j + 3];
      PartialStep(t0, v0, a, b, n, i, j, kk, k);
      PartialStep(t1, v1, a, b, n, i, j + 1, kk, k);
      PartialStep(t2, v2, a, b, n, i, j + 2, kk, k);
      PartialStep(t3, v3, a, b, n, i, j + 3, kk, k);
      t0, t1, t2, t3 := t0 + v0, t1 + v1, t2 + v2, t3 + v3;
    }
  }

  /** Two rows of four elements. */
  method MaenoCell(a: Matrix, b: Matrix, c: array2<real>, n: nat, i2: nat, it: nat, kk: nat, kt: nat, j: nat, i: nat)
    requires Square(a, n) && Square(b, n) && i2 <= i && i + 2 <= it <= n && kk <= kt <= n && j + 4 <= n
    requires Collected(c, a, b, n, (x, y) => MaenoLevel(n, x, y, i2, it, kk, kt, j, i))
    modifies c
    ensures Collected(c, a, b, n, (x, y) => MaenoLevel(n, x, y, i2, it, kk, kt, j, i + 2))
  {
    hide Square, Dot, Collected, Partial;
    var t0, t1, t2, t3 := MaenoRow(a, b, n, i, j, kk, kt);
    var t4, t5, t6, t7 := MaenoRow(a, b, n, i + 1, j, kk, kt);
    ghost var level := (x, y) => MaenoLevel(n, x, y, i2, it, kk, kt, j, i);
    level := AddFour(a, b, c, n, i, j, kk, kt, t0, t1, t2, t3, level);
    level := AddFour(a, b, c, n, i + 1, j, kk, kt, t4, t5, t6, t7, level);
    CollectedSame(c, a, b, n, level, (x, y) => MaenoLevel(n, x, y, i2, it, kk, kt, j, i + 2));
  }

  ghost function Raised(level: (int, int) -> int, x0: int, y0: int, v: int): (int, int) -> int {
    (x, y) => if x == x0 && y == y0 then v else level(x, y)
  }

  /** c[x][y] += t */
  method Add(a: Matrix, b: Matrix, c: array2<real>, n: nat, x0: nat, y0: nat, kk: nat, kt: nat, t: real,
             ghost level: (int, int) -> int)
    requires Square(a, n) && Square(b, n) && Collected(c, a, b, n, level) && Partial(t, a, b, n, x0, y0, kk, kt)
             && level(x0, y0) == kk
    requires x0 < n && y0 < n && Sized(c, n)
    modifies c
    ensures Collected(c, a, b, n, Raised(level, x0, y0, kt)) && Sized(c, n)
  {
    hide Square, Dot;
    c[x0, y0] := c[x0, y0] + t;
  }

  method AddFour(a: Matrix, b: Matrix, c: array2<real>, n: nat, i: nat, j: nat, kk: nat, kt: nat, t0: real, t1: real,
                 t2: real, t3: real, ghost level: (int, int) -> int)
    returns (ghost level': (int, int) -> int)
    requires Square(a, n) && Square(b, n) && Collected(c, a, b, n, level) && i < n && j + 4 <= n
    requires Partial(t0, a, b, n, i, j, kk, kt) && Partial(t1, a, b, n, i, j + 1, kk, kt)
    requires Partial(t2, a, b, n, i, j + 2, kk, kt) && Partial(t3, a, b, n, i, j + 3, kk, kt)
    requires level(i, j) == kk && level(i, j + 1) == kk && level(i, j + 2) == kk && level(i, j + 3) == kk
    modifies c
    ensures Collected(c, a, b, n, level') && forall x, y ::
              level'(x, y) == if x == i && j <= y < j + 4 then kt else level(x, y)
  {
    CollectedSized(c, a, b, n, level);
    hide Square, Dot, Collected, Partial;
    Add(a, b, c, n, i, j, kk, kt, t0, level);
    level' := Raised(level, i, j, kt);
    Add(a, b, c, n, i, j + 1, kk, kt, t1, level');
    level' := Raised(level', i, j + 1, kt);
    Add(a, b, c, n, i, j + 2, kk, kt, t2, level');
    level' := Raised(level', i, j + 2, kt);
    Add(a, b, c, n, i, j + 3, kk, kt, t3, level');
    level' := Raised(level', i, j + 3, kt);
  }

  lemma CollectedSized(c: array2<real>, a: Matrix, b: Matrix, n: nat, level: (int, int) -> int)
    requires Square(a, n) && Square(b, n) && Collected(c, a, b, n, level)
    ensures Sized(c, n)
  {
  }

  /** The rows of one block, for the terms kk up to kt. */
  method MaenoBlock(a: Matrix, b: Matrix, c: array2<real>, n: nat, i2: nat, it: nat, kk: nat, kt: nat, ghost h: nat)
    requires Square(a, n) && Square(b, n) && it == i2 + 2 * h && it <= n && kk <= kt <= n && n % 4 == 0
    requires Collected(c, a, b, n, (x, y) => MaenoLevel(n, x, y, i2, it, kk, kt, 0, i2))
    modifies c
    ensures Collected(c, a, b, n, (x, y) => MaenoLevel(n, x, y, i2, it, kk, kt, n, i2))
  {
    hide Square, Dot, Collected;
    var j := 0;
    while j < n
      invariant 0 <= j <= n && j % 4 == 0 && Collected(c, a, b, n, (x, y) => MaenoLevel(n, x, y, i2, it, kk, kt, j, i2))
      decreases n - j
    {
      var i := i2;
      ghost var u := 0;
      while i < it
        invariant i == i2 + 2 * u && i <= it
                  && Collected(c, a, b, n, (x, y) => MaenoLevel(n, x, y, i2, it, kk, kt, j, i))
        decreases it - i
      {
        MaenoCell(a, b, c, n, i2, it, kk, kt, j, i);
        i := i + 2;
        u := u + 1;
      }
      CollectedSame(c, a, b, n, (x, y) => MaenoLevel(n, x, y, i2, it, kk, kt, j, it),
          (x, y) => MaenoLevel(n, x, y, i2, it, kk, kt, j + 4, i2));
      j := j + 4;
    }
  }

  // maeno: n is a multiple of 4 and of the block size, and the block size of 4
  method Maeno(a: Matrix, b: Matrix, c: array2<real>, n: nat, lparm: int)
    requires Square(a, n) && Square(b, n) && Sized(c, n)
    requires 0 < lparm && n % lparm == 0 && n % 4 == 0 && lparm % 4 == 0
    modifies c
    ensures Product(c, a, b, n)
  {
    hide Square, Dot, Collected, Product;
    ghost var q, h := n / lparm, lparm / 4;
    WholeBlocks(n, lparm, q);
    Clear(a, b, c, n);
    var i2 := 0;
    ghost var u := 0;
    CollectedSame(c, a, b, n, (x, y) => 0, (x, y) => if x < 0 then n else 0);
    while i2 < n
      invariant i2 == lparm * u && 0 <= u && 0 <= i2 <= n && Collected(c, a, b, n, (x, y) => if x < i2 then n else 0)
      decreases n - i2
    {
      Below(lparm, u, q);
      NextMultiple(lparm, u, q);
      var it := i2 + lparm;
      var kk := 0;
      ghost var v := 0;
      CollectedSame(c, a, b, n, (x, y) => if x < i2 then n else 0,
          (x, y) => if x < i2 then n else if x < it then kk else 0);
      while kk < n
        invariant kk == lparm * v && 0 <= v && 0 <= kk <= n
        invariant Collected(c, a, b, n, (x, y) => if x < i2 then n else if x < it then kk else 0)
        decreases n - kk
      {
        Below(lparm, v, q);
        NextMultiple(lparm, v, q);
        var kt := kk + lparm;
        CollectedSame(c, a, b, n, (x, y) => if x < i2 then n else if x < it then kk else 0,
            (x, y) => MaenoLevel(n, x, y, i2, it, kk, kt, 0, i2));
        MaenoBlock(a, b, c, n, i2, it, kk, kt, 2 * h);
        CollectedSame(c, a, b, n, (x, y) => MaenoLevel(n, x, y, i2, it, kk, kt, n, i2),
            (x, y) => if x < i2 then n else if x < it then kt else 0);
        kk := kt;
        v := v + 1;
      }
      CollectedSame(c, a, b, n, (x, y) => if x < i2 then n else if x < it then n else 0,
          (x, y) => if x < it then n else 0);
      i2 := it;
      u := u + 1;
    }
    CollectedAll(c, a, b, n, (x, y) => if x < n then n else 0);
  }

  lemma WholeBlocks(n: nat, p: int, q: int)
    requires 0 < p && n % p == 0 && q == n / p
    ensures n == p * q
  {
  }

  lemma Below(p: int, u: int, q: int)
    requires 0 < p && p * u < p * q
    ensures u < q
  {
    assert p * (u - q) == p * u - p * q;
  }

  /** In the block at (ii, jj), terms kk up to kt are being added: rows before i are done, and in rows i and i + 1 the
      columns before j. */
  function WarnerLevel(n: int, x: int, y: int, ii: int, jj: int, nb: int, kk: int, kt: int, i: int, j: int): int {
    if x < ii then n else if ii + nb <= x then -1
    else if y < jj then n else if jj + nb <= y then -1
    else if x < i then kt else if i + 2 <= x then kk
    else if y < j then kt else kk
  }

  /** The accumulation of one element, from where it stands. */
  ghost predicate At(s: real, a: Matrix, b: Matrix, n: nat, i: int, j: int, k: int) {
    Square(a, n) && Square(b, n) && 0 <= i < n && 0 <= j < n && 0 <= k <= n && s == Dot(a, b, n, i, j, k)
  }

  lemma AtStep(s: real, v: real, a: Matrix, b: Matrix, n: nat, i: int, j: int, k: int)
    requires At(s, a, b, n, i, j, k) && k < n && |a| == n && |a[i]| == n && |b| == n && |b[k]| == n
             && v == a[i][k] * b[k][j]
    ensures At(s + v, a, b, n, i, j, k + 1)
  {
    Entries(a, b, n, i, j, k);
  }

  lemma AtShape(s: real, a: Matrix, b: Matrix, n: nat, i: int, j: int, k: int, kk: int)
    requires At(s, a, b, n, i, j, k) && i + 2 <= n && 0 <= kk < n
    ensures |a| == n && |a[i]| == n && |a[i + 1]| == n && |b| == n && |b[kk]| == n
  {
  }

  method WarnerSums(a: Matrix, b: Matrix, n: nat, i: nat, j: nat, kk: nat, kt: nat, c00: real, c01: real, c10: real,
                    c11: real)
    returns (s00: real, s01: real, s10: real, s11: real)
    requires kk <= kt <= n && i + 2 <= n && j + 2 <= n
    requires At(c00, a, b, n, i, j, kk) && At(c01, a, b, n, i, j + 1, kk) && At(c10, a, b, n, i + 1, j, kk)
             && At(c11, a, b, n, i + 1, j + 1, kk)
    ensures At(s00, a, b, n, i, j, kt) && At(s01, a, b, n, i, j + 1, kt) && At(s10, a, b, n, i + 1, j, kt)
            && At(s11, a, b, n, i + 1, j + 1, kt)
  {
    hide At;
    s00, s01, s10, s11 := c00, c01, c10, c11;
    for k := kk to kt
      invariant At(s00, a, b, n, i, j, k) && At(s01, a, b, n, i, j + 1, k)
      invariant At(s10, a, b, n, i + 1, j, k) && At(s11, a, b, n, i + 1, j + 1, k)
    {
      AtShape(s00, a, b, n, i, j, k, k);
      var v00, v01 := a[i][k] * b[k][j], a[i][k] * b[k][j + 1];
      var v10, v11 := a[i + 1][k] * b[k][j], a[i + 1][k] * b[k][j + 1];
      AtStep(s00, v00, a, b, n, i, j, k);
      AtStep(s01, v01, a, b, n, i, j + 1, k);
      AtStep(s10, v10, a, b, n, i + 1, j, k);
      AtStep(s11, v11, a, b, n, i + 1, j + 1, k);
      s00, s01, s10, s11 := s00 + v00, s01 + v01, s10 + v10, s11 + v11;
    }
  }

  /** c[x][y] = s */
  method Put(a: Matrix, b: Matrix, c: array2<real>, n: nat, x0: nat, y0: nat, kt: nat, s: real,
             ghost level: (int, int) -> int)
    requires Square(a, n) && Square(b, n) && Collected(c, a, b, n, level) && At(s, a, b, n, x0, y0, kt) && x0 < n
             && y0 < n && Sized(c, n)
    modifies c
    ensures Collected(c, a, b, n, Raised(level, x0, y0, kt)) && Sized(c, n)
  {
    hide Square, Dot;
    c[x0, y0] := s;
  }

  lemma Reached(c: array2<real>, a: Matrix, b: Matrix, n: nat, level: (int, int) -> int, x0: int, y0: int)
    requires Square(a, n) && Square(b, n) && Collected(c, a, b, n, level) && 0 <= x0 < n && 0 <= y0 < n
             && 0 <= level(x0, y0)
    ensures Sized(c, n) && At(c[x0, y0], a, b, n, x0, y0, level(x0, y0))
  {
    hide Square, Dot;
  }

  method WarnerCell(a: Matrix, b: Matrix, c: array2<real>, n: nat, ii: nat, jj: nat, nb: nat, kk: nat, kt: nat, i: nat,
                    j: nat)
    requires Square(a, n) && Square(b, n) && ii + nb <= n && jj + nb <= n && kk <= kt <= n
    requires ii <= i && i + 2 <= ii + nb && jj <= j && j + 2 <= jj + nb
    requires Collected(c, a, b, n, (x, y) => WarnerLevel(n, x, y, ii, jj, nb, kk, kt, i, j))
    modifies c
    ensures Collected(c, a, b, n, (x, y) => WarnerLevel(n, x, y, ii, jj, nb, kk, kt, i, j + 2))
  {
    hide Square, Dot, Collected, At;
    ghost var level := (x, y) => WarnerLevel(n, x, y, ii, jj, nb, kk, kt, i, j);
    Reached(c, a, b, n, level, i, j);
    Reached(c, a, b, n, level, i, j + 1);
    Reached(c, a, b, n, level, i + 1, j);
    Reached(c, a, b, n, level, i + 1, j + 1);
    var s00, s01, s10, s11 := WarnerSums(a, b, n, i, j, kk, kt, c[i, j], c[i, j + 1], c[i + 1, j], c[i + 1, j + 1]);
    Put(a, b, c, n, i, j, kt, s00, level);
    level := Raised(level, i, j, kt);
    Put(a, b, c, n, i, j + 1, kt, s01, level);
    level := Raised(level, i, j + 1, kt);
    Put(a, b, c, n, i + 1, j, kt, s10, level);
    level := Raised(level, i + 1, j, kt);
    Put(a, b, c, n, i + 1, j + 1, kt, s11, level);
    level := Raised(level, i + 1, j + 1, kt);
    CollectedSame(c, a, b, n, level, (x, y) => WarnerLevel(n, x, y, ii, jj, nb, kk, kt, i, j + 2));
  }

  method WarnerTerms(a: Matrix, b: Matrix, c: array2<real>, n: nat, ii: nat, jj: nat, nb: nat, kk: nat, kt: nat,
                     ghost h: nat)
    requires Square(a, n) && Square(b, n) && ii + nb <= n && jj + nb <= n && kk <= kt <= n && nb == 2 * h
    requires Collected(c, a, b, n, (x, y) => WarnerLevel(n, x, y, ii, jj, nb, kk, kt, ii, jj))
    modifies c
    ensures Collected(c, a, b, n, (x, y) => WarnerLevel(n, x, y, ii, jj, nb, kk, kt, ii + nb, jj))
  {
    hide Square, Dot, Collected;
    var i := ii;
    ghost var u := 0;
    while i < ii + nb
      invariant i == ii + 2 * u && i <= ii + nb
                && Collected(c, a, b, n, (x, y) => WarnerLevel(n, x, y, ii, jj, nb, kk, kt, i, jj))
      decreases ii + nb - i
    {
      var j := jj;
      ghost var v := 0;
      while j < jj + nb
        invariant j == jj + 2 * v && j <= jj + nb
                  && Collected(c, a, b, n, (x, y) => WarnerLevel(n, x, y, ii, jj, nb, kk, kt, i, j))
        decreases jj + nb - j
      {
        WarnerCell(a, b, c, n, ii, jj, nb, kk, kt, i, j);
        j := j + 2;
        v := v + 1;
      }
      CollectedSame(c, a, b, n, (x, y) => WarnerLevel(n, x, y, ii, jj, nb, kk, kt, i, jj + nb),
                    (x, y) => WarnerLevel(n, x, y, ii, jj, nb, kk, kt, i + 2, jj));
      i := i + 2;
      u := u + 1;
    }
  }

  method ClearBlock(a: Matrix, b: Matrix, c: array2<real>, n: nat, ii: nat, jj: nat, nb: nat)
    requires Square(a, n) && Square(b, n) && ii + nb <= n && jj + nb <= n
    requires Collected(c, a, b, n, (x, y) => if x < ii || (x < ii + nb && y < jj) then n else -1)
    modifies c
    ensures Collected(c, a, b, n,
            (x, y) => if x < ii then n else if ii + nb <= x then -1 else if y < jj then n else if jj + nb <= y then -1
            else 0)
  {
    for i := ii to ii + nb
      invariant Collected(c, a, b, n, (x, y) => if x < ii || (x < ii + nb && y < jj) then n else -1)
      invariant forall x, y | ii <= x < i && jj <= y < jj + nb :: c[x, y] == 0.0
    {
      for j := jj to jj + nb
        invariant Collected(c, a, b, n, (x, y) => if x < ii || (x < ii + nb && y < jj) then n else -1)
        invariant forall x, y | ii <= x < ii + nb && jj <= y < jj + nb && (x < i || (x == i && y < j)) :: c[x, y] == 0.0
      {
        c[i, j] := 0.0;
      }
    }
  }

  /** One block of the product, from scratch. */
  method WarnerBlock(a: Matrix, b: Matrix, c: array2<real>, n: nat, ii: nat, jj: nat, nb: nat, ghost q: nat,
                     ghost h: nat)
    requires Square(a, n) && Square(b, n) && ii + nb <= n && jj + nb <= n && 0 < nb && nb == 2 * h && n == nb * q
    requires Collected(c, a, b, n, (x, y) => if x < ii || (x < ii + nb && y < jj) then n else -1)
    modifies c
    ensures Collected(c, a, b, n, (x, y) => if x < ii || (x < ii + nb && y < jj + nb) then n else -1)
  {
    hide Square, Dot, Collected;
    ClearBlock(a, b, c, n, ii, jj, nb);
    var kk := 0;
    ghost var v := 0;
    CollectedSame(c, a, b, n,
        (x, y) => if x < ii then n else if ii + nb <= x then -1 else if y < jj then n else if jj + nb <= y then -1
        else 0,
                  (x, y) => WarnerLevel(n, x, y, ii, jj, nb, kk, kk, ii, jj));
    while kk < n
      invariant kk == nb * v && 0 <= v && 0 <= kk <= n
                && Collected(c, a, b, n, (x, y) => WarnerLevel(n, x, y, ii, jj, nb, kk, kk, ii, jj))
      decreases n - kk
    {
      Below(nb, v, q);
      NextMultiple(nb, v, q);
      CollectedSame(c, a, b, n, (x, y) => WarnerLevel(n, x, y, ii, jj, nb, kk, kk, ii, jj),
                    (x, y) => WarnerLevel(n, x, y, ii, jj, nb, kk, kk + nb, ii, jj));
      WarnerTerms(a, b, c, n, ii, jj, nb, kk, kk + nb, h);
      CollectedSame(c, a, b, n, (x, y) => WarnerLevel(n, x, y, ii, jj, nb, kk, kk + nb, ii + nb, jj),
                    (x, y) => WarnerLevel(n, x, y, ii, jj, nb, kk + nb, kk + nb, ii, jj));
      kk := kk + nb;
      v := v + 1;
    }
    CollectedSame(c, a, b, n, (x, y) => WarnerLevel(n, x, y, ii, jj, nb, n, n, ii, jj),
                  (x, y) => if x < ii || (x < ii + nb && y < jj + nb) then n else -1);
  }

  // warner: n is a multiple of the block size, and the block size is even
  method Warner(a: Matrix, b: Matrix, c: array2<real>, n: nat, nb: int)
    requires Square(a, n) && Square(b, n) && Sized(c, n) && 0 < nb && n % nb == 0 && nb % 2 == 0
    modifies c
    ensures Product(c, a, b, n)
  {
    hide Square, Dot, Collected, Product;
    ghost var q, h := n / nb, nb / 2;
    WholeBlocks(n, nb, q);
    var ii := 0;
    ghost var u := 0;
    Unspecified(a, b, c, n);
    CollectedSame(c, a, b, n, (x, y) => -1, (x, y) => if x < 0 then n else -1);
    while ii < n
      invariant ii == nb * u && 0 <= u && 0 <= ii <= n && Collected(c, a, b, n, (x, y) => if x < ii then n else -1)
      decreases n - ii
    {
      Below(nb, u, q);
      NextMultiple(nb, u, q);
      var jj := 0;
      ghost var v := 0;
      CollectedSame(c, a, b, n, (x, y) => if x < ii then n else -1, (x, y) => if x < ii
          || (x < ii + nb && y < jj) then n else -1);
      while jj < n
        invariant jj == nb * v && 0 <= v && 0 <= jj <= n
        invariant Collected(c, a, b, n, (x, y) => if x < ii || (x < ii + nb && y < jj) then n else -1)
        decreases n - jj
      {
        Below(nb, v, q);
        NextMultiple(nb, v, q);
        WarnerBlock(a, b, c, n, ii, jj, nb, q, h);
        jj := jj + nb;
        v := v + 1;
      }
      CollectedSame(c, a, b, n, (x, y) => if x < ii
          || (x < ii + nb && y < n) then n else -1, (x, y) => if x < ii + nb then n else -1);
      ii := ii + nb;
      u := u + 1;
    }
    CollectedAll(c, a, b, n, (x, y) => if x < n then n else -1);
  }

  lemma Unspecified(a: Matrix, b: Matrix, c: array2<real>, n: nat)
    requires Square(a, n) && Square(b, n) && Sized(c, n)
    ensures Collected(c, a, b, n, (x, y) => -1)
  {
  }
}
