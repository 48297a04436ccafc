/** mod2sparse_forward_sub and mod2sparse_backward_sub. */
module Substitution {
  import opened BitStrings
  import opened Gf2
  import opened SparseMatrix

  /** `exit` for a matrix of the wrong shape, return 0 and return 1. */
  datatype Outcome = NotTriangular | NoSolution | Solved

  /** The order argument, which may be null. */
  datatype Reorder = Identity | By(index: seq<int>) {
    function At(i: int): int
      requires Covers(i + 1) && i >= 0
    {
      match this
      case Identity => i
      case By(index) => index[i]
    }

    predicate Covers(k: int) {
      By? ==> k <= |index|
    }
  }

  // ----- the loop over one row -----

  /** The inner product of row r with z, leaving out column skip. */
  ghost function DotExcept(s: set<Place>, n: int, z: Bits, r: int, skip: int): bool
    requires 0 <= n <= |z|
  {
    Sum(n, j => (r, j) in s && j != skip && 0 <= j < |z| && z[j])
  }

  /** d: is there a one in column skip; b: the parity of z over the other ones of the row. */
  method RowParity(m: Mod2Sparse, r: int, z: array<bool>, skip: int) returns (d: bool, b: bool)
    requires m.Valid() && 0 <= r < m.nRows && z.Length == m.nCols
    ensures d == ((r, skip) in m.ones && 0 <= skip < m.nCols) && b == DotExcept(m.ones, m.nCols, z[..], r, skip)
  {
    hide Placed, Headed, Within, RowsLinked, ColsLinked, DotExcept;
    d, b := false, false;
    m.RowHeaderStep(r);
    var e := m.rows[r].right;
    m.CursorPlace(e, r);
    DotTail(m.ones, z[..], r, skip, 0, m.RowPos(e));
    while !e.AtEnd()
      invariant m.RowCursor(e, r) && 0 <= m.RowPos(e) <= m.nCols
      invariant d == ((r, skip) in m.ones && 0 <= skip < m.RowPos(e))
      invariant b == DotExcept(m.ones, m.RowPos(e), z[..], r, skip)
      decreases m.nCols - m.RowPos(e)
    {
      m.CursorPlace(e, r);
      var j := e.col;
      DotNext(m.ones, z[..], r, skip, j);
      if j == skip {
        d := true;
      } else {
        b := b != z[j];
      }
      m.RowStep(e, r);
      DotTail(m.ones, z[..], r, skip, j + 1, m.RowPos(e.right));
      e := e.right;
    }
  }

  lemma {:induction false} DotTail(s: set<Place>, z: Bits, r: int, skip: int, lo: int, hi: int)
    requires 0 <= lo <= hi <= |z| && forall j :: lo <= j < hi ==> (r, j) !in s
    ensures DotExcept(s, hi, z, r, skip) == DotExcept(s, lo, z, r, skip)
    ensures lo == 0 ==> !DotExcept(s, hi, z, r, skip)
  {
    SumTail(hi, lo, j => (r, j) in s && j != skip && 0 <= j < |z| && z[j]);
  }

  lemma {:induction false} DotNext(s: set<Place>, z: Bits, r: int, skip: int, j: int)
    requires 0 <= j < |z| && (r, j) in s
    ensures DotExcept(s, j + 1, z, r, skip) == (DotExcept(s, j, z, r, skip) != (j != skip && z[j]))
  {
  }

  // ----- forward substitution -----

  /** No one to the right of the diagonal, after row reordering. */
  ghost predicate LowerTriangular(l: set<Place>, order: Reorder, k: int)
    requires order.Covers(k)
  {
    forall i, j :: 0 <= i < k && i < j < k ==> (order.At(i), j) !in l
  }

  /** y solves the k equations, and its places without a pivot are zero. */
  ghost predicate ForwardSolves(l: set<Place>, order: Reorder, k: int, x: Bits, y: Bits, upTo: int)
    requires order.Covers(k) && 0 <= upTo <= k == |y| && forall i :: 0 <= i < k ==> 0 <= order.At(i) < |x|
  {
    forall i {:trigger order.At(i)} :: 0 <= i < upTo ==>
      RowDot(l, k, y, order.At(i)) == x[order.At(i)] && ((order.At(i), i) !in l ==> !y[i])
  }

  /** Column skip apart: vectors that agree on the other ones of a row have the same remaining sum. */
  lemma {:induction false} RowApart(s: set<Place>, n: int, r: int, skip: int, y: Bits, w: Bits)
    requires 0 <= skip < n == |y| == |w|
    requires forall j :: 0 <= j < n && j != skip && (r, j) in s ==> y[j] == w[j]
    ensures DotExcept(s, n, y, r, skip) == DotExcept(s, n, w, r, skip)
    ensures RowDot(s, n, y, r) == (DotExcept(s, n, y, r, skip) != ((r, skip) in s && y[skip]))
    ensures RowDot(s, n, w, r) == (DotExcept(s, n, w, r, skip) != ((r, skip) in s && w[skip]))
  {
    var f := (j: int) => (r, j) in s && j != skip && 0 <= j < |y| && y[j];
    var g := (j: int) => (r, j) in s && j != skip && 0 <= j < |w| && w[j];
    SumCong(n, f, g);
    SumApart(n, skip, j => (r, j) in s && 0 <= j < n && y[j], f);
    SumApart(n, skip, j => (r, j) in s && 0 <= j < n && w[j], g);
  }

  /** In a lower triangular row only y[..i] and y[i] matter. */
  lemma {:induction false} RowOfTriangular(l: set<Place>, k: int, r: int, i: int, y: Bits, w: Bits)
    requires 0 <= i < k == |y| == |w| && y[..i] == w[..i]
    requires forall j :: i < j < k ==> (r, j) !in l
    ensures DotExcept(l, k, y, r, i) == DotExcept(l, k, w, r, i)
    ensures RowDot(l, k, y, r) == (DotExcept(l, k, y, r, i) != ((r, i) in l && y[i]))
    ensures RowDot(l, k, w, r) == (DotExcept(l, k, w, r, i) != ((r, i) in l && w[i]))
  {
    forall j | 0 <= j < k && j != i && (r, j) in l
      ensures y[j] == w[j]
    {
      assert y[..i][j] == w[..i][j];
    }
    RowApart(l, k, r, i, y, w);
  }

  /** The checking loop. */
  method CheckLower(l: Mod2Sparse, order: Reorder) returns (ok: bool)
    requires l.Valid() && order.Covers(l.nCols) && forall i :: 0 <= i < l.nCols ==> 0 <= order.At(i) < l.nRows
    ensures ok == LowerTriangular(l.ones, order, l.nCols)
  {
    hide Placed, Headed, Within, RowsLinked, ColsLinked;
    for i := 0 to l.nCols
      invariant forall a, j :: 0 <= a < i && a < j < l.nCols ==> (order.At(a), j) !in l.ones
    {
      var ii := order.At(i);
      l.RowHeaderStep(ii);
      l.LastInRow(ii);
      var e := l.rows[ii].left;
      l.CursorPlace(e, ii);
      if !e.AtEnd() && e.col > i { return false; }
    }
    ok := true;
  }

  /** mod2sparse_forward_sub: Solved exactly when the system has a solution whose free places are
      zero, and then y is that solution. */
  method ForwardSub(l: Mod2Sparse, order: Reorder, x: Bits, y: array<bool>) returns (r: Outcome)
    requires l.Valid() && y.Length == l.nCols && y !in l.Repr
    requires order.Covers(l.nCols) && forall i :: 0 <= i < l.nCols ==> 0 <= order.At(i) < l.nRows
    requires |x| == l.nRows
    modifies y
    ensures r.NotTriangular? <==> !LowerTriangular(l.ones, order, l.nCols)
    ensures r.Solved? ==> ForwardSolves(l.ones, order, l.nCols, x, y[..], l.nCols)
    ensures r.NoSolution? ==> forall w: Bits :: |w| == l.nCols ==> !ForwardSolves(l.ones, order, l.nCols, x, w, l.nCols)
    ensures r.NoSolution? ==> exists i :: 0 <= i < l.nCols && (order.At(i), i) !in l.ones
  {
    hide Placed, Headed, Within, RowsLinked, ColsLinked, DotExcept, RowDot;
    var k := l.nCols;
    var triangular := CheckLower(l, order);
    if !triangular { return NotTriangular; }
    for i := 0 to k
      invariant l.Valid()
      invariant ForwardSolves(l.ones, order, k, x, y[..], i)
      invariant forall w: Bits :: |w| == k && ForwardSolves(l.ones, order, k, x, w, k) ==> w[..i] == y[..i]
    {
      var ii := order.At(i);
      var d, b := RowParity(l, ii, y, i);
      ghost var before := y[..];
      if !d && b != x[ii] {
        forall w: Bits | |w| == k
          ensures !ForwardSolves(l.ones, order, k, x, w, k)
        {
          if ForwardSolves(l.ones, order, k, x, w, k) {
            RowOfTriangular(l.ones, k, ii, i, before, w);
          }
        }
        return NoSolution;
      }
      y[i] := b != x[ii];
      ForwardStep(l.ones, order, k, x, before, y[..], i);
    }
    r := Solved;
  }

  /** Setting y[i] solves row i and disturbs no earlier row; no other value would do. */
  lemma {:induction false} ForwardStep(l: set<Place>, order: Reorder, k: int, x: Bits, before: Bits, after: Bits, i: int)
    requires 0 <= i < k == |before| && order.Covers(k) && forall a :: 0 <= a < k ==> 0 <= order.At(a) < |x|
    requires LowerTriangular(l, order, k) && ForwardSolves(l, order, k, x, before, i)
    requires forall w: Bits :: |w| == k && ForwardSolves(l, order, k, x, w, k) ==> w[..i] == before[..i]
    requires after == before[i := DotExcept(l, k, before, order.At(i), i) != x[order.At(i)]]
    requires (order.At(i), i) in l || DotExcept(l, k, before, order.At(i), i) == x[order.At(i)]
    ensures ForwardSolves(l, order, k, x, after, i + 1)
    ensures forall w: Bits :: |w| == k && ForwardSolves(l, order, k, x, w, k) ==> w[..i + 1] == after[..i + 1]
  {
    hide DotExcept, RowDot;
    forall a {:trigger order.At(a)} | 0 <= a < i + 1
      ensures RowDot(l, k, after, order.At(a)) == x[order.At(a)] && ((order.At(a), a) !in l ==> !after[a])
    {
      RowOfTriangular(l, k, order.At(a), a, before, after);
      assert a < i ==> before[a] == after[a];
    }
    forall w: Bits | |w| == k && ForwardSolves(l, order, k, x, w, k)
      ensures w[..i + 1] == after[..i + 1]
    {
      RowOfTriangular(l, k, order.At(i), i, before, w);
      assert w[i] == after[i];
      assert w[..i + 1] == w[..i] + [w[i]] && after[..i + 1] == before[..i] + [after[i]];
    }
  }

  // ----- backward substitution -----

  /** No one below the diagonal, after column reordering. */
  ghost predicate UpperTriangular(u: set<Place>, order: Reorder, k: int)
    requires order.Covers(k)
  {
    forall i, t :: 0 <= i < k && i < t < k ==> (t, order.At(i)) !in u
  }

  /** The first k places of the order name columns; a column may be named more than once. */
  ghost predicate NamesColumns(order: Reorder, k: int, n: int)
    requires order.Covers(k)
  {
    forall i :: 0 <= i < k ==> 0 <= order.At(i) < n
  }

  /** z and w agree on the columns that the order does not name before position k, and on those at
      position i and later. */
  ghost predicate AgreeFrom(order: Reorder, k: int, n: int, z: Bits, w: Bits, i: int)
    requires order.Covers(k) && |z| == |w| == n
  {
    forall c :: 0 <= c < n && (forall t {:trigger order.At(t)} :: 0 <= t < k && t < i ==> order.At(t) != c) ==> z[c] == w[c]
  }

  /** No position from `from` on has its pivot in column c. */
  ghost predicate FreeFrom(u: set<Place>, order: Reorder, k: int, from: int, c: int)
    requires order.Covers(k)
  {
    forall t {:trigger order.At(t)} :: 0 <= from <= t < k && order.At(t) == c ==> (t, c) !in u
  }

  /** z solves equation a, and its place there is zero when the column has no pivot from `from` on. */
  ghost predicate RowSolved(u: set<Place>, order: Reorder, k: int, n: int, y: Bits, z: Bits, from: int, a: int)
    requires order.Covers(k) && |y| == k && |z| == n && 0 <= a < k && 0 <= order.At(a) < n
  {
    RowDot(u, n, z, a) == y[a] && (FreeFrom(u, order, k, from, order.At(a)) ==> !z[order.At(a)])
  }

  /** z solves the equations from position `from` on, and its places in columns without a pivot there are zero. */
  ghost predicate BackwardSolves(u: set<Place>, order: Reorder, k: int, n: int, y: Bits, z: Bits, from: int)
    requires order.Covers(k) && |y| == k && |z| == n && forall i :: 0 <= i < k ==> 0 <= order.At(i) < n
  {
    forall i {:trigger order.At(i)} {:trigger RowSolved(u, order, k, n, y, z, from, i)} :: 0 <= from <= i < k ==> RowSolved(u, order, k, n, y, z, from, i)
  }

  method CheckUpper(u: Mod2Sparse, order: Reorder) returns (ok: bool)
    requires u.Valid() && order.Covers(u.nRows) && forall i :: 0 <= i < u.nRows ==> 0 <= order.At(i) < u.nCols
    ensures ok == UpperTriangular(u.ones, order, u.nRows)
  {
    hide Placed, Headed, Within, RowsLinked, ColsLinked;
    for i := 0 to u.nRows
      invariant forall a, t :: 0 <= a < i && a < t < u.nRows ==> (t, order.At(a)) !in u.ones
    {
      var ii := order.At(i);
      u.ColHeaderStep(ii);
      u.LastInCol(ii);
      var e := u.cols[ii].up;
      u.ColCursorPlace(e, ii);
      if !e.AtEnd() && e.row > i { return false; }
    }
    ok := true;
  }

  /** An upper triangular row sees only columns on which vectors that agree from i + 1 agree. */
  lemma {:induction false} RowOfUpper(u: set<Place>, order: Reorder, k: int, n: int, i: int, z: Bits, w: Bits)
    requires 0 <= i < k && order.Covers(k) && |z| == |w| == n && NamesColumns(order, k, n) && UpperTriangular(u, order, k)
    requires AgreeFrom(order, k, n, z, w, i + 1)
    ensures var ii := order.At(i);
      && DotExcept(u, n, z, i, ii) == DotExcept(u, n, w, i, ii)
      && RowDot(u, n, z, i) == (DotExcept(u, n, z, i, ii) != ((i, ii) in u && z[ii]))
      && RowDot(u, n, w, i) == (DotExcept(u, n, w, i, ii) != ((i, ii) in u && w[ii]))
  {
    hide DotExcept, RowDot;
    RowApart(u, n, i, order.At(i), z, w);
  }

  /** mod2sparse_backward_sub: columns outside the order keep the values they came with. */
  method BackwardSub(u: Mod2Sparse, order: Reorder, y: Bits, z: array<bool>) returns (r: Outcome)
    requires u.Valid() && z.Length == u.nCols && z !in u.Repr && |y| == u.nRows
    requires order.Covers(u.nRows) && NamesColumns(order, u.nRows, u.nCols)
    modifies z
    ensures r.NotTriangular? <==> !UpperTriangular(u.ones, order, u.nRows)
    ensures AgreeFrom(order, u.nRows, u.nCols, z[..], old(z[..]), u.nRows)
    ensures r.Solved? ==> BackwardSolves(u.ones, order, u.nRows, u.nCols, y, z[..], 0)
    ensures r.NoSolution? ==> forall w: Bits :: |w| == u.nCols && AgreeFrom(order, u.nRows, u.nCols, old(z[..]), w, u.nRows) ==>
      !BackwardSolves(u.ones, order, u.nRows, u.nCols, y, w, 0)
    ensures r.NoSolution? ==> exists i :: 0 <= i < u.nRows && (i, order.At(i)) !in u.ones
  {
    hide Placed, Headed, Within, RowsLinked, ColsLinked, DotExcept, RowDot;
    var k, n := u.nRows, u.nCols;
    ghost var z0 := z[..];
    var triangular := CheckUpper(u, order);
    if !triangular { return NotTriangular; }
    for i := k downto 0
      invariant u.Valid()
      invariant AgreeFrom(order, k, n, z[..], z0, k) && BackwardSolves(u.ones, order, k, n, y, z[..], i)
      invariant Forced(u.ones, order, k, n, y, z0, z[..], i)
    {
      var ii := order.At(i);
      var d, b := RowParity(u, i, z, ii);
      ghost var before := z[..];
      if !d && b != y[i] {
        forall w: Bits | |w| == n && AgreeFrom(order, k, n, z0, w, k)
          ensures !BackwardSolves(u.ones, order, k, n, y, w, 0)
        {
          if BackwardSolves(u.ones, order, k, n, y, w, 0) {
            RowOfUpper(u.ones, order, k, n, i, before, w);
          }
        }
        return NoSolution;
      }
      z[ii] := b != y[i];
      BackwardStep(u.ones, order, k, n, y, z0, before, z[..], i);
    }
    r := Solved;
  }

  /** Every solution with zero free places and the given outside values agrees with z from i on. */
  ghost predicate Forced(u: set<Place>, order: Reorder, k: int, n: int, y: Bits, z0: Bits, z: Bits, i: int)
    requires order.Covers(k) && |y| == k && |z| == |z0| == n && forall a :: 0 <= a < k ==> 0 <= order.At(a) < n
  {
    forall w: Bits :: |w| == n && AgreeFrom(order, k, n, z0, w, k) && BackwardSolves(u, order, k, n, y, w, 0) ==>
      AgreeFrom(order, k, n, z, w, i)
  }

  lemma {:induction false} BackwardStep(u: set<Place>, order: Reorder, k: int, n: int, y: Bits, z0: Bits, before: Bits, after: Bits, i: int)
    requires 0 <= i < k == |y| && |before| == |z0| == n && order.Covers(k) && NamesColumns(order, k, n) && UpperTriangular(u, order, k)
    requires AgreeFrom(order, k, n, before, z0, k) && BackwardSolves(u, order, k, n, y, before, i + 1)
    requires Forced(u, order, k, n, y, z0, before, i + 1)
    requires after == before[order.At(i) := DotExcept(u, n, before, i, order.At(i)) != y[i]]
    requires (i, order.At(i)) in u || DotExcept(u, n, before, i, order.At(i)) == y[i]
    ensures AgreeFrom(order, k, n, after, z0, k) && BackwardSolves(u, order, k, n, y, after, i)
    ensures Forced(u, order, k, n, y, z0, after, i)
  {
    hide DotExcept, RowDot, AgreeFrom, BackwardSolves, Forced, UpperTriangular;
    RowsAfterStep(u, order, k, n, y, z0, before, after, i);
    ForcedAfterStep(u, order, k, n, y, z0, before, after, i);
  }

  lemma {:induction false} RowAfterStep(u: set<Place>, order: Reorder, k: int, n: int, y: Bits, z0: Bits, before: Bits, after: Bits, i: int, a: int)
    requires 0 <= i < k == |y| && |before| == |z0| == n && order.Covers(k) && NamesColumns(order, k, n) && UpperTriangular(u, order, k)
    requires BackwardSolves(u, order, k, n, y, before, i + 1)
    requires after == before[order.At(i) := DotExcept(u, n, before, i, order.At(i)) != y[i]]
    requires (i, order.At(i)) in u || DotExcept(u, n, before, i, order.At(i)) == y[i]
    requires i <= a < k
    ensures RowSolved(u, order, k, n, y, after, i, a)
  {
    hide DotExcept, RowDot, UpperTriangular, FreeFrom;
    RowOfUpper(u, order, k, n, a, before, after);
    BelowPivot(u, order, k, i, a);
  }

  /** A row past i has no one in the column of position i, and fewer positions leave more columns free. */
  lemma {:induction false} BelowPivot(u: set<Place>, order: Reorder, k: int, i: int, a: int)
    requires 0 <= i <= a < k && order.Covers(k) && UpperTriangular(u, order, k)
    ensures i < a ==> (a, order.At(i)) !in u
    ensures FreeFrom(u, order, k, i, order.At(a)) ==> FreeFrom(u, order, k, i + 1, order.At(a)) && (order.At(a) == order.At(i) ==> (i, order.At(i)) !in u)
  {
  }

  lemma {:induction false} AgreeAfterStep(order: Reorder, k: int, n: int, z0: Bits, before: Bits, i: int, v: bool)
    requires 0 <= i < k && |before| == |z0| == n && order.Covers(k) && NamesColumns(order, k, n) && AgreeFrom(order, k, n, before, z0, k)
    ensures AgreeFrom(order, k, n, before[order.At(i) := v], z0, k)
  {
  }

  lemma {:induction false} RowsAfterStep(u: set<Place>, order: Reorder, k: int, n: int, y: Bits, z0: Bits, before: Bits, after: Bits, i: int)
    requires 0 <= i < k == |y| && |before| == |z0| == n && order.Covers(k) && NamesColumns(order, k, n) && UpperTriangular(u, order, k)
    requires BackwardSolves(u, order, k, n, y, before, i + 1)
    requires after == before[order.At(i) := DotExcept(u, n, before, i, order.At(i)) != y[i]]
    requires (i, order.At(i)) in u || DotExcept(u, n, before, i, order.At(i)) == y[i]
    requires AgreeFrom(order, k, n, before, z0, k)
    ensures AgreeFrom(order, k, n, after, z0, k) && BackwardSolves(u, order, k, n, y, after, i)
  {
    hide DotExcept, RowSolved, UpperTriangular, AgreeFrom;
    AgreeAfterStep(order, k, n, z0, before, i, DotExcept(u, n, before, i, order.At(i)) != y[i]);
    forall a | i <= a < k
      ensures RowSolved(u, order, k, n, y, after, i, a)
    {
      RowAfterStep(u, order, k, n, y, z0, before, after, i, a);
    }
  }

  lemma {:induction false} ForcedAfterStep(u: set<Place>, order: Reorder, k: int, n: int, y: Bits, z0: Bits, before: Bits, after: Bits, i: int)
    requires 0 <= i < k == |y| && |before| == |z0| == n && order.Covers(k) && NamesColumns(order, k, n) && UpperTriangular(u, order, k)
    requires Forced(u, order, k, n, y, z0, before, i + 1)
    requires after == before[order.At(i) := DotExcept(u, n, before, i, order.At(i)) != y[i]]
    requires (i, order.At(i)) in u || DotExcept(u, n, before, i, order.At(i)) == y[i]
    ensures Forced(u, order, k, n, y, z0, after, i)
  {
    hide DotExcept, RowDot, AgreeFrom, UpperTriangular, NamesColumns, BackwardSolves;
    ColumnsInRange(order, k, n);
    forall w: Bits | |w| == n && AgreeFrom(order, k, n, z0, w, k) && BackwardSolves(u, order, k, n, y, w, 0)
      ensures AgreeFrom(order, k, n, after, w, i)
    {
      RowOfUpper(u, order, k, n, i, before, w);
      SolvedRow(u, order, k, n, y, w, i);
      if forall t {:trigger order.At(t)} :: 0 <= t < i ==> order.At(t) != order.At(i) {
        FirstNamed(u, order, k, i);
        AgreeExtends(order, k, n, before, w, i);
      } else {
        NamedEarlier(order, k, n, before, w, i, after[order.At(i)]);
      }
    }
  }

  lemma {:induction false} ColumnsInRange(order: Reorder, k: int, n: int)
    requires order.Covers(k) && NamesColumns(order, k, n)
    ensures forall a :: 0 <= a < k ==> 0 <= order.At(a) < n
  {
  }

  lemma {:induction false} SolvedRow(u: set<Place>, order: Reorder, k: int, n: int, y: Bits, w: Bits, i: int)
    requires order.Covers(k) && |y| == k && |w| == n && (forall a :: 0 <= a < k ==> 0 <= order.At(a) < n) && 0 <= i < k
    requires BackwardSolves(u, order, k, n, y, w, 0)
    ensures RowSolved(u, order, k, n, y, w, 0, i)
  {
    hide RowSolved;
  }

  /** A column that position i names first has its pivot at i or nowhere. */
  lemma {:induction false} FirstNamed(u: set<Place>, order: Reorder, k: int, i: int)
    requires 0 <= i < k && order.Covers(k) && UpperTriangular(u, order, k)
    requires forall t {:trigger order.At(t)} :: 0 <= t < i ==> order.At(t) != order.At(i)
    ensures (i, order.At(i)) !in u ==> FreeFrom(u, order, k, 0, order.At(i))
  {
  }

  /** A column that an earlier position names again does not matter yet. */
  lemma {:induction false} NamedEarlier(order: Reorder, k: int, n: int, z: Bits, w: Bits, i: int, v: bool)
    requires order.Covers(k) && |z| == |w| == n && 0 <= i < k && 0 <= order.At(i) < n && AgreeFrom(order, k, n, z, w, i + 1)
    requires !forall t {:trigger order.At(t)} :: 0 <= t < i ==> order.At(t) != order.At(i)
    ensures AgreeFrom(order, k, n, z[order.At(i) := v], w, i)
  {
  }

  /** Two vectors that agree past position i agree from i on when one takes the other's value there. */
  lemma {:induction false} AgreeExtends(order: Reorder, k: int, n: int, z: Bits, w: Bits, i: int)
    requires order.Covers(k) && |z| == |w| == n && 0 <= i < k && 0 <= order.At(i) < n && AgreeFrom(order, k, n, z, w, i + 1)
    ensures AgreeFrom(order, k, n, z[order.At(i) := w[order.At(i)]], w, i)
  {
  }

  /** Zeroing free places can miss a solution: here y = (1, 0) solves both equations, yet no
      solution has its free place 0 at zero, so the routine reports that there is none. */
  lemma {:induction false} FreePlacesCanMissSolution()
    ensures var l: set<Place>, x := {(1, 0)}, [false, true];
      && LowerTriangular(l, Identity, 2)
      && RowDot(l, 2, [true, false], 0) == x[0] && RowDot(l, 2, [true, false], 1) == x[1]
      && forall w: Bits :: |w| == 2 ==> !ForwardSolves(l, Identity, 2, x, w, 2)
  {
    var l: set<Place>, x := {(1, 0)}, [false, true];
    forall w: Bits | |w| == 2
      ensures !RowDot(l, 2, w, 0) && RowDot(l, 2, w, 1) == w[0]
    {
      SumZero(2, j => (0, j) in l && 0 <= j < 2 && w[j]);
      SumSingle(2, 0, j => (1, j) in l && 0 <= j < 2 && w[j]);
    }
    forall w: Bits | |w| == 2
      ensures !ForwardSolves(l, Identity, 2, x, w, 2)
    {
      assert Identity.At(0) == 0 && Identity.At(1) == 1;
    }
  }
}
