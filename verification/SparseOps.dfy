/** The operations of mod2sparse.c that walk the lists: each is proved against the abstract matrix. */
module SparseOps {
  import opened BitStrings
  import opened Gf2
  import opened SparseMatrix

  // ----- mod2sparse_mulvec -----

  /** The inner product of row i with the first k components of u. */
  ghost function PartialDot(s: set<Place>, u: Bits, i: int, k: int): bool
    requires 0 <= k <= |u|
  {
    Sum(k, j => (i, j) in s && 0 <= j < |u| && u[j])
  }

  /** The inner loop: toggle the components where column j has a one. */
  method ScatterColumn(m: Mod2Sparse, j: int, out: array<bool>)
    requires m.Valid() && 0 <= j < m.nCols && out.Length == m.nRows && out !in m.Repr
    modifies out
    ensures forall i :: 0 <= i < m.nRows ==> out[i] == (old(out[i]) != ((i, j) in m.ones))
  {
    m.ColHeader(j);
    m.ColStep(m.cols[j], j);
    var e := m.cols[j].down;
    while !e.AtEnd()
      invariant m.Valid() && m.ColCursor(e, j)
      invariant !e.AtEnd() ==> e.place == (e.row, j) && (e.row, j) in m.ones && 0 <= e.row
      invariant 0 <= m.ColPos(e) <= m.nRows
      invariant forall i :: 0 <= i < m.ColPos(e) ==> out[i] == (old(out[i]) != ((i, j) in m.ones))
      invariant forall i :: m.ColPos(e) <= i < m.nRows ==> out[i] == old(out[i])
      decreases m.nRows - m.ColPos(e)
    {
      out[e.row] := !out[e.row];
      m.ColStep(e, j);
      e := e.down;
    }
  }

  /** mod2sparse_mulvec: column scatter computes the row inner products. */
  method MulVec(m: Mod2Sparse, u: Bits) returns (v: Bits)
    requires m.Valid() && |u| == m.nCols
    ensures v == Times(m.ones, m.nRows, m.nCols, u)
  {
    var out := new bool[m.nRows](_ => false);
    for j := 0 to m.nCols
      invariant m.Valid() && out !in m.Repr
      invariant forall i :: 0 <= i < m.nRows ==> out[i] == PartialDot(m.ones, u, i, j)
    {
      if u[j] {
        ScatterColumn(m, j, out);
      }
    }
    v := out[..];
  }

  // ----- mod2sparse_add_row -----

  /** s with row r1 replaced by its sum with row r2 of t, in the columns below k. */
  ghost predicate RowAdded(now: set<Place>, s: set<Place>, r1: int, t: set<Place>, r2: int, k: int) {
    forall r, c :: (r, c) in now <==>
      if r == r1 && c < k then ((r1, c) in s) != ((r2, c) in t) else (r, c) in s
  }

  /** Nodes outside row r, and its header, are where they were. */
  ghost predicate KeptOutside(now: Nodes, before: Nodes, r: int) {
    forall p :: p in before && (p.0 != r || p.1 == -1) ==> p in now && now[p] == before[p]
  }

  /** Two cursors in step: the columns left of f2 are done, and row1 is empty from there up to f1. */
  ghost predicate InStep(m1: Mod2Sparse, row1: int, m2: Mod2Sparse, row2: int, f1: Entry, f2: Entry,
      s: set<Place>, t: set<Place>)
    reads m1, m1.Repr, m2, m2.Repr
  {
    && m1.Valid() && m2.Valid() && m2.nCols <= m1.nCols && 0 <= row1 < m1.nRows && 0 <= row2 < m2.nRows
    && (if m1 == m2 then s == t else m1.Repr !! m2.Repr && m2.ones == t)
    && m1.RowCursor(f1, row1) && m2.RowCursor(f2, row2)
    && 0 <= m1.RowPos(f1) <= m1.nCols && 0 <= m2.RowPos(f2) <= m2.nCols
    && (m1 == m2 && row1 == row2 ==> f1 == f2)
    && RowAdded(m1.ones, s, row1, t, row2, m2.RowPos(f2))
    && m1.ClearInRow(row1, m2.RowPos(f2), m1.RowPos(f1))
  }

  /** f1 is past f2: the sum has a one where f2 stands. */
  method InsertStep(m1: Mod2Sparse, row1: int, m2: Mod2Sparse, row2: int, f1: Entry, f2: Entry,
      ghost s: set<Place>, ghost t: set<Place>) returns (g2: Entry)
    requires InStep(m1, row1, m2, row2, f1, f2, s, t) && !f2.AtEnd() && m1.RowPos(f1) > f2.col
    modifies m1.Repr
    ensures InStep(m1, row1, m2, row2, f1, g2, s, t) && m2.RowPos(g2) > m2.RowPos(f2)
    ensures fresh(m1.Repr - old(m1.Repr)) && KeptOutside(m1.nodes, old(m1.nodes), row1)
  {
    hide Placed, Headed, Within, RowsLinked, ColsLinked;
    m2.CursorPlace(f2, row2);
    var ne := m1.Insert(row1, f2.col);
    m2.RowStep(f2, row2);
    g2 := f2.right;
  }

  /** Both rows have a one here: the sum has none. */
  method DeleteStep(m1: Mod2Sparse, row1: int, m2: Mod2Sparse, row2: int, f1: Entry, f2: Entry,
      ghost s: set<Place>, ghost t: set<Place>) returns (g1: Entry, g2: Entry)
    requires InStep(m1, row1, m2, row2, f1, f2, s, t) && !f1.AtEnd() && !f2.AtEnd() && f1.col == f2.col
    modifies m1.Repr
    ensures InStep(m1, row1, m2, row2, g1, g2, s, t)
    ensures m1.RowPos(g1) > m1.RowPos(f1) && m2.RowPos(g2) > m2.RowPos(f2)
    ensures fresh(m1.Repr - old(m1.Repr)) && KeptOutside(m1.nodes, old(m1.nodes), row1)
  {
    hide Placed, Headed, Within, RowsLinked, ColsLinked;
    m1.RowStep(f1, row1);
    m1.CursorPlace(f1, row1);
    m2.CursorPlace(f2, row2);
    g1 := f1.right;
    m1.Delete(f1);
    if !(m1 == m2 && row1 == row2) {
      m2.RowStep(f2, row2);
    }
    g2 := f2.right;
  }

  /** f1 is behind f2: row1 keeps its one. */
  lemma {:induction false} SkipStep(m1: Mod2Sparse, row1: int, m2: Mod2Sparse, row2: int, f1: Entry, f2: Entry,
      s: set<Place>, t: set<Place>)
    requires InStep(m1, row1, m2, row2, f1, f2, s, t) && !f1.AtEnd() && f1.col < m2.RowPos(f2)
    ensures InStep(m1, row1, m2, row2, f1.right, f2, s, t) && m1.RowPos(f1.right) > m1.RowPos(f1)
  {
    hide Placed, Headed, Within, RowsLinked, ColsLinked;
    m1.RowStep(f1, row1);
    m1.CursorPlace(f1, row1);
  }

  lemma {:induction false} AddRowStart(m1: Mod2Sparse, row1: int, m2: Mod2Sparse, row2: int)
    requires m1.Valid() && m2.Valid() && (m1 == m2 || m1.Repr !! m2.Repr)
    requires m2.nCols <= m1.nCols && 0 <= row1 < m1.nRows && 0 <= row2 < m2.nRows
    ensures |m1.rows| == m1.nRows && |m2.rows| == m2.nRows
    ensures InStep(m1, row1, m2, row2, m1.rows[row1].right, m2.rows[row2].right, m1.ones, m2.ones)
  {
    hide RowsLinked, ColsLinked;
    m1.RowHeader(row1);
    m2.RowHeader(row2);
    m1.RowStep(m1.rows[row1], row1);
    m2.RowStep(m2.rows[row2], row2);
  }

  /** mod2sparse_add_row, for two matrices or two rows of one, or a row and itself. */
  method AddRow(m1: Mod2Sparse, row1: int, m2: Mod2Sparse, row2: int)
    requires m1.Valid() && m2.Valid() && (m1 == m2 || m1.Repr !! m2.Repr)
    requires m2.nCols <= m1.nCols && 0 <= row1 < m1.nRows && 0 <= row2 < m2.nRows
    modifies m1.Repr
    ensures m1.Valid() && fresh(m1.Repr - old(m1.Repr))
    ensures RowAdded(m1.ones, old(m1.ones), row1, old(m2.ones), row2, m2.nCols)
    ensures KeptOutside(m1.nodes, old(m1.nodes), row1)
  {
    hide Placed, Headed, Within, RowsLinked, ColsLinked, RowAdded;
    ghost var s, t := m1.ones, m2.ones;
    AddRowStart(m1, row1, m2, row2);
    var f1, f2 := m1.rows[row1].right, m2.rows[row2].right;
    while !f1.AtEnd() && !f2.AtEnd()
      invariant InStep(m1, row1, m2, row2, f1, f2, s, t)
      invariant fresh(m1.Repr - old(m1.Repr)) && KeptOutside(m1.nodes, old(m1.nodes), row1)
      decreases m1.nCols + m2.nCols - m1.RowPos(f1) - m2.RowPos(f2)
    {
      if f1.col > f2.col {
        f2 := InsertStep(m1, row1, m2, row2, f1, f2, s, t);
      } else if f1.col == f2.col {
        f1, f2 := DeleteStep(m1, row1, m2, row2, f1, f2, s, t);
      } else {
        SkipStep(m1, row1, m2, row2, f1, f2, s, t);
        f1 := f1.right;
      }
    }
    while !f2.AtEnd()
      invariant InStep(m1, row1, m2, row2, f1, f2, s, t) && (f1.AtEnd() || f2.AtEnd())
      invariant fresh(m1.Repr - old(m1.Repr)) && KeptOutside(m1.nodes, old(m1.nodes), row1)
      decreases m2.nCols - m2.RowPos(f2)
    {
      m2.CursorPlace(f2, row2);
      f2 := InsertStep(m1, row1, m2, row2, f1, f2, s, t);
    }
  }

  // ----- mod2sparse_multiply -----

  /** Products left of both cursors have been added up; up to each cursor its line is empty. */
  ghost predicate Merged(m1: Mod2Sparse, i: int, m2: Mod2Sparse, j: int, e1: Entry, e2: Entry, b: bool)
    reads m1, m1.Repr, m2, m2.Repr
  {
    && m1.Valid() && m2.Valid() && m1.nCols == m2.nRows && 0 <= i < m1.nRows && 0 <= j < m2.nCols
    && m1.RowCursor(e1, i) && m2.ColCursor(e2, j)
    && 0 <= m1.RowPos(e1) <= m1.nCols && 0 <= m2.ColPos(e2) <= m2.nRows
    && var lo := Least(m1.RowPos(e1), m2.ColPos(e2));
      && m1.ClearInRow(i, lo, m1.RowPos(e1)) && m2.ClearInCol(j, lo, m2.ColPos(e2))
      && b == ProductEntry(m1.ones, m2.ones, lo, i, j)
  }

  /** Moving the sum's bound over indices where one of the two factors is zero. */
  lemma {:induction false} EntryTail(s: set<Place>, t: set<Place>, lo: int, hi: int, i: int, j: int)
    requires 0 <= lo <= hi && forall x :: lo <= x < hi ==> (i, x) !in s || (x, j) !in t
    ensures ProductEntry(s, t, hi, i, j) == ProductEntry(s, t, lo, i, j)
  {
    SumTail(hi, lo, x => (i, x) in s && (x, j) in t);
  }

  lemma {:induction false} MergeSkipRow(m1: Mod2Sparse, i: int, m2: Mod2Sparse, j: int, e1: Entry, e2: Entry, b: bool)
    requires Merged(m1, i, m2, j, e1, e2, b) && !e1.AtEnd() && e1.col < m2.ColPos(e2)
    ensures Merged(m1, i, m2, j, e1.right, e2, b) && m1.RowPos(e1.right) > m1.RowPos(e1)
  {
    hide Placed, Headed, Within, RowsLinked, ColsLinked, ProductEntry;
    m1.CursorPlace(e1, i);
    m1.RowStep(e1, i);
    EntryTail(m1.ones, m2.ones, e1.col, Least(m1.RowPos(e1.right), m2.ColPos(e2)), i, j);
  }

  lemma {:induction false} MergeSkipCol(m1: Mod2Sparse, i: int, m2: Mod2Sparse, j: int, e1: Entry, e2: Entry, b: bool)
    requires Merged(m1, i, m2, j, e1, e2, b) && !e2.AtEnd() && e2.row < m1.RowPos(e1)
    ensures Merged(m1, i, m2, j, e1, e2.down, b) && m2.ColPos(e2.down) > m2.ColPos(e2)
  {
    hide Placed, Headed, Within, RowsLinked, ColsLinked, ProductEntry;
    m2.ColCursorPlace(e2, j);
    m2.ColStep(e2, j);
    EntryTail(m1.ones, m2.ones, e2.row, Least(m1.RowPos(e1), m2.ColPos(e2.down)), i, j);
  }

  lemma {:induction false} MergeMeet(m1: Mod2Sparse, i: int, m2: Mod2Sparse, j: int, e1: Entry, e2: Entry, b: bool)
    requires Merged(m1, i, m2, j, e1, e2, b) && !e1.AtEnd() && !e2.AtEnd() && e1.col == e2.row
    ensures Merged(m1, i, m2, j, e1.right, e2.down, !b) && m1.RowPos(e1.right) > m1.RowPos(e1)
    ensures m2.ColPos(e2.down) > m2.ColPos(e2)
  {
    hide Placed, Headed, Within, RowsLinked, ColsLinked;
    m1.CursorPlace(e1, i);
    m2.ColCursorPlace(e2, j);
    m1.RowStep(e1, i);
    m2.ColStep(e2, j);
    EntryTail(m1.ones, m2.ones, e1.col + 1, Least(m1.RowPos(e1.right), m2.ColPos(e2.down)), i, j);
  }

  lemma {:induction false} MergeStart(m1: Mod2Sparse, i: int, m2: Mod2Sparse, j: int)
    requires m1.Valid() && m2.Valid() && m1.nCols == m2.nRows && 0 <= i < m1.nRows && 0 <= j < m2.nCols
    ensures |m1.rows| == m1.nRows && |m2.cols| == m2.nCols
    ensures Merged(m1, i, m2, j, m1.rows[i].right, m2.cols[j].down, false)
  {
    hide RowsLinked, ColsLinked, ProductEntry;
    m1.RowHeader(i);
    m2.ColHeader(j);
    m1.RowStep(m1.rows[i], i);
    m2.ColStep(m2.cols[j], j);
    EntryTail(m1.ones, m2.ones, 0, Least(m1.RowPos(m1.rows[i].right), m2.ColPos(m2.cols[j].down)), i, j);
    EntryOfNothing(m1.ones, m2.ones, i, j);
  }

  lemma {:induction false} EntryOfNothing(s: set<Place>, t: set<Place>, i: int, j: int)
    ensures !ProductEntry(s, t, 0, i, j)
  {
  }

  /** The inner loop of mod2sparse_multiply: the parity of the common indices of two sorted lists. */
  method MergeDot(m1: Mod2Sparse, i: int, m2: Mod2Sparse, j: int) returns (b: bool)
    requires m1.Valid() && m2.Valid() && m1.nCols == m2.nRows && 0 <= i < m1.nRows && 0 <= j < m2.nCols
    ensures b == ProductEntry(m1.ones, m2.ones, m1.nCols, i, j)
  {
    hide Placed, Headed, Within, RowsLinked, ColsLinked, ProductEntry;
    b := false;
    MergeStart(m1, i, m2, j);
    var e1, e2 := m1.rows[i].right, m2.cols[j].down;
    while !e1.AtEnd() && !e2.AtEnd()
      invariant Merged(m1, i, m2, j, e1, e2, b)
      decreases m1.nCols + m2.nRows - m1.RowPos(e1) - m2.ColPos(e2)
    {
      if e1.col == e2.row {
        MergeMeet(m1, i, m2, j, e1, e2, b);
        b := !b;
        e1, e2 := e1.right, e2.down;
      } else if e1.col < e2.row {
        MergeSkipRow(m1, i, m2, j, e1, e2, b);
        e1 := e1.right;
      } else {
        MergeSkipCol(m1, i, m2, j, e1, e2, b);
        e2 := e2.down;
      }
    }
    EntryTail(m1.ones, m2.ones, Least(m1.RowPos(e1), m2.ColPos(e2)), m1.nCols, i, j);
  }

  /** mod2sparse_multiply */
  method Multiply(m1: Mod2Sparse, m2: Mod2Sparse, r: Mod2Sparse)
    requires m1.Valid() && m2.Valid() && r.Valid() && r.Repr !! m1.Repr && r.Repr !! m2.Repr
    requires m1.nCols == m2.nRows && m1.nRows == r.nRows && m2.nCols == r.nCols && r.free == 0
    modifies r.Repr
    ensures r.Valid() && fresh(r.Repr - old(r.Repr))
    ensures r.ones == MatMul(m1.ones, m2.ones, m1.nRows, m1.nCols, m2.nCols)
  {
    hide Placed, Headed, Within, RowsLinked, ColsLinked, ProductEntry;
    r.Clear();
    for i := 0 to m1.nRows
      invariant m1.Valid() && m2.Valid() && r.Valid() && fresh(r.Repr - old(r.Repr)) && r.Repr !! m1.Repr && r.Repr !! m2.Repr
      invariant r.ones == Filled(m1.ones, m2.ones, m1.nCols, m2.nCols, i, 0)
    {
      FilledRow(m1.ones, m2.ones, m1.nCols, m2.nCols, i);
      m1.RowHeaderStep(i);
      if m1.rows[i].right.AtEnd() {
        EmptyRowEntries(m1.ones, m2.ones, m1.nCols, m2.nCols, i);
        continue;
      }
      for j := 0 to m2.nCols
        invariant m1.Valid() && m2.Valid() && r.Valid() && fresh(r.Repr - old(r.Repr)) && r.Repr !! m1.Repr && r.Repr !! m2.Repr
        invariant r.ones == Filled(m1.ones, m2.ones, m1.nCols, m2.nCols, i, j)
      {
        var b := MergeDot(m1, i, m2, j);
        FilledNext(m1.ones, m2.ones, m1.nCols, m2.nCols, i, j);
        if b {
          var ne := r.Insert(i, j);
        }
      }
    }
  }

  /** The product entries in the rows before i, and in row i before column j. */
  ghost function Filled(s: set<Place>, t: set<Place>, k: int, n: int, i: int, j: int): set<Place>
    requires k >= 0
  {
    set x, y | 0 <= x <= i && 0 <= y < n && (x < i || y < j) && ProductEntry(s, t, k, x, y) :: (x, y)
  }

  lemma {:induction false} FilledRow(s: set<Place>, t: set<Place>, k: int, n: int, i: int)
    requires k >= 0 && i >= 0 && n >= 0
    ensures Filled(s, t, k, n, i, n) == Filled(s, t, k, n, i + 1, 0)
    ensures Filled(s, t, k, n, i, 0) == MatMul(s, t, i, k, n)
    ensures Filled(s, t, k, n, i + 1, 0) == MatMul(s, t, i + 1, k, n)
  {
    hide ProductEntry;
  }

  lemma {:induction false} FilledNext(s: set<Place>, t: set<Place>, k: int, n: int, i: int, j: int)
    requires k >= 0 && i >= 0 && 0 <= j < n
    ensures Filled(s, t, k, n, i, j + 1) == Filled(s, t, k, n, i, j) + if ProductEntry(s, t, k, i, j) then {(i, j)} else {}
  {
    hide ProductEntry;
  }

  lemma {:induction false} EmptyRowEntries(s: set<Place>, t: set<Place>, k: int, n: int, i: int)
    requires k >= 0 && i >= 0 && n >= 0 && forall x :: 0 <= x < k ==> (i, x) !in s
    ensures Filled(s, t, k, n, i, n) == Filled(s, t, k, n, i, 0)
  {
    forall y | 0 <= y < n
      ensures !ProductEntry(s, t, k, i, y)
    {
      SumZero(k, x => (i, x) in s && (x, y) in t);
    }
  }
}
