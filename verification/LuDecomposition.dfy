/** mod2sparse_decomp on the linked structure, without the abandon options. */
module LuDecomposition {
  import opened Gf2
  import opened SparseMatrix
  import opened SparseOps
  import opened LuAlgebra

  /** mod2sparse_strategy */
  datatype Strategy = First | MinCol | MinProd

  // ----- mod2sparse_copy and the counting loops -----

  /** mod2sparse_copy into a matrix that is large enough. */
  method Copy(m: Mod2Sparse, r: Mod2Sparse)
    requires m.Valid() && r.Valid() && m.Repr !! r.Repr && m.nRows <= r.nRows && m.nCols <= r.nCols && r.free == 0
    modifies r.Repr
    ensures r.Valid() && fresh(r.Repr - old(r.Repr)) && r.ones == m.ones
  {
    hide Placed, Headed, Within, RowsLinked, ColsLinked;
    r.Clear();
    m.OnesInRange();
    for i := 0 to m.nRows
      invariant m.Valid() && r.Valid() && fresh(r.Repr - old(r.Repr)) && m.Repr !! r.Repr
      invariant forall x, y :: (x, y) in r.ones <==> (x, y) in m.ones && x < i
    {
      CopyRow(m, r, i);
    }
    SameOnes(r.ones, m.ones);
  }

  method CopyRow(m: Mod2Sparse, r: Mod2Sparse, i: int)
    requires m.Valid() && r.Valid() && m.Repr !! r.Repr && m.nRows <= r.nRows && m.nCols <= r.nCols && 0 <= i < m.nRows
    requires forall x, y :: (x, y) in r.ones <==> (x, y) in m.ones && x < i
    modifies r.Repr
    ensures r.Valid() && fresh(r.Repr - old(r.Repr))
    ensures forall x, y :: (x, y) in r.ones <==> (x, y) in m.ones && x < i + 1
  {
    hide Placed, Headed, Within, RowsLinked, ColsLinked;
    m.OnesInRange();
    m.RowHeaderStep(i);
    var e := m.rows[i].right;
    while !e.AtEnd()
      invariant m.Valid() && r.Valid() && fresh(r.Repr - old(r.Repr)) && m.Repr !! r.Repr
      invariant m.RowCursor(e, i)
      invariant forall x, y :: (x, y) in r.ones <==> (x, y) in m.ones && (x < i || (x == i && y < m.RowPos(e)))
      decreases m.nCols - m.RowPos(e)
    {
      m.CursorPlace(e, i);
      var ne := r.Insert(e.row, e.col);
      m.RowStep(e, i);
      e := e.right;
    }
  }

  /** How many rows above k have a one in column c. */
  ghost function ColCount(s: set<Place>, c: int, k: int): int
    requires k >= 0
    decreases k
  {
    if k == 0 then 0 else ColCount(s, c, k - 1) + if (k - 1, c) in s then 1 else 0
  }

  ghost function RowCount(s: set<Place>, r: int, k: int): int
    requires k >= 0
    decreases k
  {
    if k == 0 then 0 else RowCount(s, r, k - 1) + if (r, k - 1) in s then 1 else 0
  }

  lemma {:induction false} ColCountGap(s: set<Place>, c: int, lo: int, hi: int)
    requires 0 <= lo <= hi && forall i :: lo <= i < hi ==> (i, c) !in s
    ensures ColCount(s, c, hi) == ColCount(s, c, lo)
    decreases hi
  {
    if lo < hi {
      ColCountGap(s, c, lo, hi - 1);
    }
  }

  lemma {:induction false} RowCountGap(s: set<Place>, r: int, lo: int, hi: int)
    requires 0 <= lo <= hi && forall j :: lo <= j < hi ==> (r, j) !in s
    ensures RowCount(s, r, hi) == RowCount(s, r, lo)
    decreases hi
  {
    if lo < hi {
      RowCountGap(s, r, lo, hi - 1);
    }
  }

  /** mod2sparse_count_col */
  method CountCol(m: Mod2Sparse, c: int) returns (count: int)
    requires m.Valid() && 0 <= c < m.nCols
    ensures count == ColCount(m.ones, c, m.nRows)
  {
    hide Placed, Headed, Within, RowsLinked, ColsLinked;
    count := 0;
    m.ColHeaderStep(c);
    var e := m.cols[c].down;
    m.ColCursorPlace(e, c);
    ColCountGap(m.ones, c, 0, m.ColPos(e));
    while !e.AtEnd()
      invariant m.ColCursor(e, c) && 0 <= m.ColPos(e) <= m.nRows
      invariant count == ColCount(m.ones, c, m.ColPos(e))
      decreases m.nRows - m.ColPos(e)
    {
      m.ColCursorPlace(e, c);
      m.ColStep(e, c);
      ColCountGap(m.ones, c, e.row + 1, m.ColPos(e.down));
      count := count + 1;
      e := e.down;
    }
  }

  /** mod2sparse_count_row */
  method CountRow(m: Mod2Sparse, r: int) returns (count: int)
    requires m.Valid() && 0 <= r < m.nRows
    ensures count == RowCount(m.ones, r, m.nCols)
  {
    hide Placed, Headed, Within, RowsLinked, ColsLinked;
    count := 0;
    m.RowHeaderStep(r);
    var e := m.rows[r].right;
    m.CursorPlace(e, r);
    RowCountGap(m.ones, r, 0, m.RowPos(e));
    while !e.AtEnd()
      invariant m.RowCursor(e, r) && 0 <= m.RowPos(e) <= m.nCols
      invariant count == RowCount(m.ones, r, m.RowPos(e))
      decreases m.nCols - m.RowPos(e)
    {
      m.CursorPlace(e, r);
      m.RowStep(e, r);
      RowCountGap(m.ones, r, e.col + 1, m.RowPos(e.right));
      count := count + 1;
      e := e.right;
    }
  }

  // ----- choosing the pivot -----

  /** Column c has a one in a row that is not a pivot row yet. */
  ghost predicate Eligible(b: set<Place>, rinv: seq<int>, i: int, r: int, c: int) {
    (r, c) in b && 0 <= r < |rinv| && rinv[r] >= i
  }

  ghost predicate NoneEligible(b: set<Place>, rinv: seq<int>, i: int, c: int) {
    forall r :: !Eligible(b, rinv, i, r, c)
  }

  /** The first entry of column c in a row that is not a pivot row yet. */
  method FirstEligible(b: Mod2Sparse, rinv: seq<int>, i: int, c: int) returns (e: Entry?)
    requires b.Valid() && 0 <= c < b.nCols && |rinv| == b.nRows
    ensures e == null ==> NoneEligible(b.ones, rinv, i, c)
    ensures e != null ==> Eligible(b.ones, rinv, i, e.row, c) && e.col == c && (e.row, c) in b.nodes && e == b.nodes[(e.row, c)]
    ensures e != null ==> forall r :: 0 <= r < e.row ==> !Eligible(b.ones, rinv, i, r, c)
  {
    hide Headed, Within, RowsLinked, ColsLinked;
    b.OnesInRange();
    b.ColHeaderStep(c);
    var f := b.cols[c].down;
    while !f.AtEnd()
      invariant b.ColCursor(f, c)
      invariant forall r :: 0 <= r < b.ColPos(f) ==> !Eligible(b.ones, rinv, i, r, c)
      decreases b.nRows - b.ColPos(f)
    {
      b.ColCursorPlace(f, c);
      if rinv[f.row] >= i { return f; }
      b.ColStep(f, c);
      f := f.down;
    }
    e := null;
  }

  /** What the search promises: an eligible entry e of column cols[k], or that there is none. */
  ghost predicate Chosen(b: Mod2Sparse, cols: seq<int>, rinv: seq<int>, i: int, e: Entry?, k: int)
    requires |cols| == b.nCols
    reads b
  {
    if e == null then forall j {:trigger cols[j]} :: 0 <= i <= j < b.nCols ==> NoneEligible(b.ones, rinv, i, cols[j])
    else 0 <= i <= k < b.nCols && e.col == cols[k] && Eligible(b.ones, rinv, i, e.row, e.col)
  }

  /** Mod2sparse_first: the first column that has an eligible entry. */
  method FirstPivot(b: Mod2Sparse, cols: seq<int>, rinv: seq<int>, i: int) returns (e: Entry?, k: int)
    requires b.Valid() && |cols| == b.nCols && |rinv| == b.nRows && 0 <= i <= b.nCols
    requires forall j :: 0 <= j < b.nCols ==> 0 <= cols[j] < b.nCols
    ensures Chosen(b, cols, rinv, i, e, k)
    ensures e != null ==> forall j :: i <= j < k ==> NoneEligible(b.ones, rinv, i, cols[j])
  {
    hide Placed, Headed, Within, RowsLinked, ColsLinked, Eligible, NoneEligible;
    e := null;
    k := i;
    while k < b.nCols
      invariant i <= k <= b.nCols && e == null
      invariant forall j :: i <= j < k ==> NoneEligible(b.ones, rinv, i, cols[j])
    {
      e := FirstEligible(b, rinv, i, cols[k]);
      if e != null { return; }
      k := k + 1;
    }
  }

  /** Mod2sparse_mincol: a shortest column among those that have an eligible entry. */
  method MinColPivot(b: Mod2Sparse, cols: seq<int>, rinv: seq<int>, i: int) returns (e: Entry?, k: int)
    requires b.Valid() && |cols| == b.nCols && |rinv| == b.nRows && 0 <= i <= b.nCols
    requires forall j :: 0 <= j < b.nCols ==> 0 <= cols[j] < b.nCols
    ensures Chosen(b, cols, rinv, i, e, k)
    ensures e != null ==> forall j :: i <= j < b.nCols ==>
      NoneEligible(b.ones, rinv, i, cols[j]) || ColCount(b.ones, cols[k], b.nRows) <= ColCount(b.ones, cols[j], b.nRows)
  {
    hide Placed, Headed, Within, RowsLinked, ColsLinked, Eligible, NoneEligible, ColCount;
    e := null;
    k := i;
    var cc := 0;
    for j := i to b.nCols
      invariant e == null ==> forall x :: i <= x < j ==> NoneEligible(b.ones, rinv, i, cols[x])
      invariant e != null ==> i <= k < j && e.col == cols[k] && Eligible(b.ones, rinv, i, e.row, e.col) && cc == ColCount(b.ones, cols[k], b.nRows)
      invariant e != null ==> forall x :: i <= x < j ==> NoneEligible(b.ones, rinv, i, cols[x]) || cc <= ColCount(b.ones, cols[x], b.nRows)
    {
      var cc2 := CountCol(b, cols[j]);
      if e == null || cc2 < cc {
        var e2 := FirstEligible(b, rinv, i, cols[j]);
        if e2 != null {
          cc, e, k := cc2, e2, j;
        }
      }
    }
  }

  /** The product that Mod2sparse_minprod makes small. */
  function Cost(colCount: int, rowCount: int): int {
    if colCount == 1 then 0 else (colCount - 1) * (rowCount - 1)
  }

  /** The other ones of column c within k rows. */
  ghost function OthersInCol(s: set<Place>, r: int, c: int, k: int): set<int> {
    set i | 0 <= i < k && i != r && (i, c) in s
  }

  ghost function OthersInRow(s: set<Place>, r: int, c: int, k: int): set<int> {
    set j | 0 <= j < k && j != c && (r, j) in s
  }

  lemma {:induction false} ColCountIsSize(s: set<Place>, r: int, c: int, k: int)
    requires k >= 0
    ensures ColCount(s, c, k) == |OthersInCol(s, r, c, k)| + if 0 <= r < k && (r, c) in s then 1 else 0
    decreases k
  {
    if k > 0 {
      ColCountIsSize(s, r, c, k - 1);
      var before := OthersInCol(s, r, c, k - 1);
      if (k - 1, c) in s && k - 1 != r {
        assert OthersInCol(s, r, c, k) == before + {k - 1};
      } else {
        assert OthersInCol(s, r, c, k) == before;
      }
    }
  }

  lemma {:induction false} RowCountIsSize(s: set<Place>, r: int, c: int, k: int)
    requires k >= 0
    ensures RowCount(s, r, k) == |OthersInRow(s, r, c, k)| + if 0 <= c < k && (r, c) in s then 1 else 0
    decreases k
  {
    if k > 0 {
      RowCountIsSize(s, r, c, k - 1);
      var before := OthersInRow(s, r, c, k - 1);
      if (r, k - 1) in s && k - 1 != c {
        assert OthersInRow(s, r, c, k) == before + {k - 1};
      } else {
        assert OthersInRow(s, r, c, k) == before;
      }
    }
  }

  /** The cost of a pivot bounds the fill-in: the other ones of its column times the other ones of its row. */
  lemma {:induction false} CostIsFillIn(s: set<Place>, r: int, c: int, nRows: int, nCols: int)
    requires 0 <= r < nRows && 0 <= c < nCols && (r, c) in s
    ensures Cost(ColCount(s, c, nRows), RowCount(s, r, nCols)) == |OthersInCol(s, r, c, nRows)| * |OthersInRow(s, r, c, nCols)|
  {
    hide ColCount, RowCount, OthersInCol, OthersInRow;
    ColCountIsSize(s, r, c, nRows);
    RowCountIsSize(s, r, c, nCols);
  }

  /** e costs pr, and no eligible entry of the columns before j, or above row q of column j, costs less. */
  ghost predicate Cheapest(b: Mod2Sparse, cols: seq<int>, rinv: seq<int>, rcnt: seq<int>, i: int, e: Entry?, k: int, pr: int, j: int, q: int)
    requires |cols| == b.nCols && |rinv| == |rcnt| == b.nRows > 0
    reads b
  {
    && (e != null ==> (
      && 0 <= i <= k < b.nCols && e.col == cols[k] && Eligible(b.ones, rinv, i, e.row, e.col)
      && pr == Cost(ColCount(b.ones, e.col, b.nRows), rcnt[e.row])))
    && (forall x, r {:trigger Eligible(b.ones, rinv, i, r, cols[x])} :: 0 <= i <= x < b.nCols && (x < j || (x == j && r < q)) && Eligible(b.ones, rinv, i, r, cols[x]) ==>
        e != null && pr <= Cost(ColCount(b.ones, cols[x], b.nRows), rcnt[r]))
  }

  ghost predicate CountsPositive(b: set<Place>, rinv: seq<int>, rcnt: seq<int>, i: int) {
    && |rcnt| == |rinv|
    && forall r, c :: Eligible(b, rinv, i, r, c) ==> rcnt[r] >= 1
  }

  lemma {:induction false} CostBounds(cc: int, cr: int)
    requires cr >= 1 && cc >= 1
    ensures Cost(cc, cr) >= 0
  {
  }

  lemma {:induction false} ColCountPositive(s: set<Place>, c: int, r: int, k: int)
    requires 0 <= r < k && (r, c) in s
    ensures ColCount(s, c, k) >= 1
    decreases k
  {
    ColCountNonNegative(s, c, k - 1);
    if r < k - 1 {
      ColCountPositive(s, c, r, k - 1);
    }
  }

  lemma {:induction false} ColCountNonNegative(s: set<Place>, c: int, k: int)
    requires k >= 0
    ensures ColCount(s, c, k) >= 0
    decreases k
  {
    if k > 0 {
      ColCountNonNegative(s, c, k - 1);
    }
  }

  /** One entry of the scan. */
  lemma {:induction false} CheapestStep(b: Mod2Sparse, cols: seq<int>, rinv: seq<int>, rcnt: seq<int>, i: int, e: Entry?, k: int, pr: int, j: int, f: Entry, q: int)
    requires |cols| == b.nCols && |rinv| == |rcnt| == b.nRows > 0 && 0 <= i <= j < b.nCols
    requires CountsPositive(b.ones, rinv, rcnt, i) && (forall r, c :: (r, c) in b.ones ==> 0 <= r < b.nRows)
    requires (forall x, y :: 0 <= x < y < b.nCols ==> cols[x] != cols[y])
    requires Cheapest(b, cols, rinv, rcnt, i, e, k, pr, j, f.row) && (f.row, cols[j]) in b.ones && f.col == cols[j]
    requires f.row < q && forall r :: f.row < r < q ==> (r, cols[j]) !in b.ones
    ensures var cc2, cr2 := ColCount(b.ones, cols[j], b.nRows), rcnt[f.row];
      if rinv[f.row] >= i && (e == null || cc2 == 1 || (cc2 - 1) * (cr2 - 1) < pr)
      then Cheapest(b, cols, rinv, rcnt, i, f, j, if cc2 == 1 then 0 else (cc2 - 1) * (cr2 - 1), j, q)
      else Cheapest(b, cols, rinv, rcnt, i, e, k, pr, j, q)
  {
    hide ColCount;
    var cc2, cr2 := ColCount(b.ones, cols[j], b.nRows), rcnt[f.row];
    ColCountPositive(b.ones, cols[j], f.row, b.nRows);
    if rinv[f.row] >= i && (e == null || cc2 == 1 || (cc2 - 1) * (cr2 - 1) < pr) {
      forall x, r | 0 <= i <= x < b.nCols && (x < j || (x == j && r < q)) && Eligible(b.ones, rinv, i, r, cols[x])
        ensures Cost(cc2, cr2) <= Cost(ColCount(b.ones, cols[x], b.nRows), rcnt[r])
      {
        ColCountPositive(b.ones, cols[x], r, b.nRows);
        CostBounds(ColCount(b.ones, cols[x], b.nRows), rcnt[r]);
      }
    }
  }

  /** The loop of Mod2sparse_minprod over one column. */
  method ScanColumn(b: Mod2Sparse, cols: seq<int>, rinv: seq<int>, rcnt: seq<int>, i: int, e0: Entry?, k0: int, pr0: int, j: int)
      returns (e: Entry?, k: int, pr: int)
    requires b.Valid() && |cols| == b.nCols && |rinv| == |rcnt| == b.nRows && 0 <= i <= j < b.nCols && 0 <= cols[j] < b.nCols
    requires forall x, y :: 0 <= x < y < b.nCols ==> cols[x] != cols[y]
    requires b.nRows > 0 && CountsPositive(b.ones, rinv, rcnt, i) && Cheapest(b, cols, rinv, rcnt, i, e0, k0, pr0, j, 0)
    ensures Cheapest(b, cols, rinv, rcnt, i, e, k, pr, j, b.nRows)
  {
    hide Placed, Headed, Within, RowsLinked, ColsLinked, ColCount, Eligible, CountsPositive, Cheapest;
    e, k, pr := e0, k0, pr0;
    var cc2 := CountCol(b, cols[j]);
    b.OnesInRange();
    b.ColHeaderStep(cols[j]);
    var f := b.cols[cols[j]].down;
    CheapestGap(b, cols, rinv, rcnt, i, e, k, pr, j, 0, b.ColPos(f));
    while !f.AtEnd()
      invariant b.ColCursor(f, cols[j]) && Cheapest(b, cols, rinv, rcnt, i, e, k, pr, j, b.ColPos(f))
      decreases b.nRows - b.ColPos(f)
    {
      b.ColCursorPlace(f, cols[j]);
      b.ColStep(f, cols[j]);
      CheapestStep(b, cols, rinv, rcnt, i, e, k, pr, j, f, b.ColPos(f.down));
      if rinv[f.row] >= i {
        var cr2 := rcnt[f.row];
        if e == null || cc2 == 1 || (cc2 - 1) * (cr2 - 1) < pr {
          pr := if cc2 == 1 then 0 else (cc2 - 1) * (cr2 - 1);
          e, k := f, j;
        }
      }
      f := f.down;
    }
  }

  lemma {:induction false} CheapestGap(b: Mod2Sparse, cols: seq<int>, rinv: seq<int>, rcnt: seq<int>, i: int, e: Entry?, k: int, pr: int, j: int, q: int, q': int)
    requires |cols| == b.nCols && |rinv| == |rcnt| == b.nRows > 0 && 0 <= j < b.nCols
    requires Cheapest(b, cols, rinv, rcnt, i, e, k, pr, j, q) && forall r :: q <= r < q' ==> (r, cols[j]) !in b.ones
    ensures Cheapest(b, cols, rinv, rcnt, i, e, k, pr, j, q')
  {
    forall x, r | 0 <= i <= x < b.nCols && (x < j || (x == j && r < q')) && Eligible(b.ones, rinv, i, r, cols[x])
      ensures e != null && pr <= Cost(ColCount(b.ones, cols[x], b.nRows), rcnt[r])
    {
    }
  }

  /** A column scanned to its end is done. */
  lemma {:induction false} CheapestNextColumn(b: Mod2Sparse, cols: seq<int>, rinv: seq<int>, rcnt: seq<int>, i: int, e: Entry?, k: int, pr: int, j: int)
    requires |cols| == b.nCols && |rinv| == |rcnt| == b.nRows > 0 && 0 <= j < b.nCols
    requires Cheapest(b, cols, rinv, rcnt, i, e, k, pr, j, b.nRows) && forall r, c :: (r, c) in b.ones ==> 0 <= r < b.nRows
    ensures Cheapest(b, cols, rinv, rcnt, i, e, k, pr, j + 1, 0)
  {
    forall x, r | 0 <= i <= x < b.nCols && (x < j + 1 || (x == j + 1 && r < 0)) && Eligible(b.ones, rinv, i, r, cols[x])
      ensures e != null && pr <= Cost(ColCount(b.ones, cols[x], b.nRows), rcnt[r])
    {
    }
  }

  /** Mod2sparse_minprod: an eligible entry of least cost. */
  method MinProdPivot(b: Mod2Sparse, cols: seq<int>, rinv: seq<int>, rcnt: seq<int>, i: int) returns (e: Entry?, k: int)
    requires b.Valid() && |cols| == b.nCols && |rinv| == |rcnt| == b.nRows && 0 <= i <= b.nCols
    requires forall j :: 0 <= j < b.nCols ==> 0 <= cols[j] < b.nCols
    requires forall x, y :: 0 <= x < y < b.nCols ==> cols[x] != cols[y]
    requires CountsPositive(b.ones, rinv, rcnt, i)
    ensures b.nRows > 0 && Chosen(b, cols, rinv, i, e, k)
    ensures exists pr :: Cheapest(b, cols, rinv, rcnt, i, e, k, pr, b.nCols, 0)
  {
    hide Placed, Headed, Within, RowsLinked, ColsLinked, ColCount, Cheapest, Chosen, CountsPositive, Eligible;
    b.OnesInRange();
    e, k := null, i;
    var pr := 0;
    CheapestStart(b, cols, rinv, rcnt, i, k);
    for j := i to b.nCols
      invariant Cheapest(b, cols, rinv, rcnt, i, e, k, pr, j, 0)
    {
      e, k, pr := ScanColumn(b, cols, rinv, rcnt, i, e, k, pr, j);
      CheapestNextColumn(b, cols, rinv, rcnt, i, e, k, pr, j);
    }
    CheapestIsChosen(b, cols, rinv, rcnt, i, e, k, pr);
  }

  lemma {:induction false} CheapestStart(b: Mod2Sparse, cols: seq<int>, rinv: seq<int>, rcnt: seq<int>, i: int, k: int)
    requires |cols| == b.nCols && |rinv| == |rcnt| == b.nRows > 0 && forall r, c :: (r, c) in b.ones ==> 0 <= r < b.nRows
    ensures Cheapest(b, cols, rinv, rcnt, i, null, k, 0, i, 0)
  {
    forall x, r | 0 <= i <= x < b.nCols && (x < i || (x == i && r < 0)) && Eligible(b.ones, rinv, i, r, cols[x])
      ensures 0 <= r
    {
    }
  }

  lemma {:induction false} CheapestIsChosen(b: Mod2Sparse, cols: seq<int>, rinv: seq<int>, rcnt: seq<int>, i: int, e: Entry?, k: int, pr: int)
    requires |cols| == b.nCols && |rinv| == |rcnt| == b.nRows > 0
    requires Cheapest(b, cols, rinv, rcnt, i, e, k, pr, b.nCols, 0)
    ensures Chosen(b, cols, rinv, i, e, k)
  {
    if e == null {
      forall j {:trigger cols[j]} | 0 <= i <= j < b.nCols
        ensures NoneEligible(b.ones, rinv, i, cols[j])
      {
        forall r
          ensures !Eligible(b.ones, rinv, i, r, cols[j])
        {
        }
      }
    }
  }

  // ----- moving the pivot to position i -----

  /** p[k] and p[i] change places, and the inverse follows. */
  method SwapIn(p: array<int>, q: array<int>, i: int, k: int)
    requires p != q && Inverse(p[..], q[..], p.Length) && 0 <= i <= k < p.Length
    modifies p, q
    ensures Inverse(p[..], q[..], p.Length)
    ensures p[i] == old(p[k]) && forall t :: 0 <= t < i ==> p[t] == old(p[t])
  {
    var v := p[k];
    ghost var p0, q0 := p[..], q[..];
    p[k] := p[i];
    p[i] := v;
    q[p[k]] := k;
    q[p[i]] := i;
    SwapInverse(p0, q0, p[..], q[..], i, k);
  }

  lemma {:induction false} SwapInverse(p0: seq<int>, q0: seq<int>, p: seq<int>, q: seq<int>, i: int, k: int)
    requires Inverse(p0, q0, |p0|) && 0 <= i <= k < |p0|
    requires p == p0[k := p0[i]][i := p0[k]] && q == q0[p[k] := k][p[i] := i]
    ensures Inverse(p, q, |p0|)
  {
    var n := |p0|;
    forall x | 0 <= x < n
      ensures 0 <= p[x] < n && q[p[x]] == x
    {
      assert q0[p0[x]] == x && q0[p0[i]] == i && q0[p0[k]] == k;
    }
    forall x | 0 <= x < n
      ensures 0 <= q[x] < n && p[q[x]] == x
    {
      assert p0[q0[x]] == x && q0[p0[i]] == i && q0[p0[k]] == k;
    }
  }

  // ----- emptying a column or a row -----

  /** The loop that empties the pivot column of B. */
  method EmptyColumn(b: Mod2Sparse, c: int)
    requires b.Valid() && 0 <= c < b.nCols
    modifies b.Repr
    ensures b.Valid() && b.Repr == old(b.Repr)
    ensures forall r, j :: (r, j) in b.ones <==> (r, j) in old(b.ones) && j != c
  {
    hide Placed, Headed, Within, RowsLinked, ColsLinked;
    while true
      invariant b.Valid() && b.Repr == old(b.Repr) && b.ones <= old(b.ones)
      invariant forall r, j :: (r, j) in old(b.ones) && j != c ==> (r, j) in b.ones
      decreases |b.ones|
    {
      b.OnesInRange();
      b.ColHeaderStep(c);
      var f := b.cols[c].down;
      if f.AtEnd() { break; }
      b.ColCursorPlace(f, c);
      b.Delete(f);
    }
  }

  method EmptyRow(l: Mod2Sparse, r: int)
    requires l.Valid() && 0 <= r < l.nRows
    modifies l.Repr
    ensures l.Valid() && l.Repr == old(l.Repr)
    ensures forall x, t :: (x, t) in l.ones <==> (x, t) in old(l.ones) && x != r
  {
    hide Placed, Headed, Within, RowsLinked, ColsLinked;
    while true
      invariant l.Valid() && l.Repr == old(l.Repr) && l.ones <= old(l.ones)
      invariant forall x, t :: (x, t) in old(l.ones) && x != r ==> (x, t) in l.ones
      decreases |l.ones|
    {
      l.OnesInRange();
      l.RowHeaderStep(r);
      var f := l.rows[r].right;
      if f.AtEnd() { break; }
      l.CursorPlace(f, r);
      l.Delete(f);
    }
  }

  // ----- eliminating with the pivot -----

  ghost predicate Apart(a: Mod2Sparse, b: Mod2Sparse, c: Mod2Sparse)
    reads a, b, c
  {
    a.Repr !! b.Repr && a.Repr !! c.Repr && b.Repr !! c.Repr
  }

  /** The update of L, U and B has reached row q of the pivot column. */
  ghost predicate Underway(b: set<Place>, l: set<Place>, u: set<Place>, b': set<Place>, l': set<Place>, u': set<Place>,
      o: Order, m: int, n: int, i: int, q: int)
    requires o.Valid(m, n) && 0 <= i < n
  {
    && (forall r, c {:trigger (r, c) in b'} :: (r, c) in b' <==>
        ((r, c) in b) != (r < q && Reduced(b, o, m, n, i, r) && i < m && (o.rows[i], c) in b))
    && (forall r, t {:trigger (r, t) in l'} :: (r, t) in l' <==>
        (r, t) in l || (t == i && 0 <= r < m && r < q && i <= o.rinv[r] && (r, o.cols[i]) in b))
    && (forall t, c {:trigger (t, c) in u'} :: (t, c) in u' <==>
        (t, c) in u || (c == o.cols[i] && 0 <= t <= i && t < m && o.rows[t] < q && (o.rows[t], c) in b))
  }

  /** The state of the loop over the pivot column: f is the next entry. */
  ghost predicate Sweeping(bm: Mod2Sparse, lm: Mod2Sparse, um: Mod2Sparse, f: Entry,
      b: set<Place>, l: set<Place>, u: set<Place>, o: Order, i: int, found: bool)
    reads bm, bm.Repr, lm, lm.Repr, um, um.Repr
  {
    && bm.Valid() && lm.Valid() && um.Valid() && Apart(bm, lm, um)
    && o.Valid(bm.nRows, bm.nCols) && 0 <= i < bm.nCols && lm.nRows == bm.nRows && i < lm.nCols && i < um.nRows && um.nCols == bm.nCols
    && (forall r, c :: (r, c) in b ==> 0 <= r < bm.nRows && 0 <= c < bm.nCols)
    && PivotChosen(b, o, bm.nRows, bm.nCols, i, found)
    && bm.ColCursor(f, o.cols[i]) && bm.ColPos(f) <= bm.nRows
    && Underway(b, l, u, bm.ones, lm.ones, um.ones, o, bm.nRows, bm.nCols, i, bm.ColPos(f))
  }

  lemma {:induction false} UnderwayBelow(b: set<Place>, l: set<Place>, u: set<Place>, b1: set<Place>, l1: set<Place>, u1: set<Place>,
      b2: set<Place>, o: Order, m: int, n: int, i: int, k: int, q: int)
    requires o.Valid(m, n) && 0 <= i < n && PivotChosen(b, o, m, n, i, true) && 0 <= k < q && k < m && o.rinv[k] > i
    requires (forall r, c :: (r, c) in b ==> 0 <= r < m && 0 <= c < n)
    requires Underway(b, l, u, b1, l1, u1, o, m, n, i, k) && (k, o.cols[i]) in b1
    requires forall r :: k < r < q ==> (r, o.cols[i]) !in b1
    requires RowAdded(b2, b1, k, b1, o.rows[i], n)
    ensures Underway(b, l, u, b2, l1 + {(k, i)}, u1, o, m, n, i, q)
  {
    assert forall r :: k < r < q ==> (r, o.cols[i]) !in b;
    assert (k, o.cols[i]) in b;
    assert forall c :: (o.rows[i], c) in b1 <==> (o.rows[i], c) in b;
    assert forall c :: (k, c) in b1 <==> (k, c) in b;
  }

  ghost predicate OtherRowsKept(b2: set<Place>, b1: set<Place>, k: int) {
    forall r, c :: r != k ==> ((r, c) in b2 <==> (r, c) in b1)
  }

  lemma {:induction false} RowAddedElsewhere(b1: set<Place>, b2: set<Place>, k: int, p: int, n: int)
    requires RowAdded(b2, b1, k, b1, p, n)
    ensures OtherRowsKept(b2, b1, k)
  {
  }

  // ----- the row counts of Mod2sparse_minprod -----

  /** rcnt is exact for the rows that are not pivot rows yet. */
  ghost predicate CountsExact(b: set<Place>, rinv: seq<int>, rcnt: seq<int>, i: int, n: int)
    requires n >= 0
  {
    && |rcnt| == |rinv|
    && forall r {:trigger rcnt[r]} :: 0 <= r < |rinv| && rinv[r] >= i ==> rcnt[r] == RowCount(b, r, n)
  }

  lemma {:induction false} RowCountCong(s: set<Place>, t: set<Place>, r: int, k: int)
    requires k >= 0 && forall c :: 0 <= c < k ==> ((r, c) in s <==> (r, c) in t)
    ensures RowCount(s, r, k) == RowCount(t, r, k)
    decreases k
  {
    if k > 0 {
      RowCountCong(s, t, r, k - 1);
    }
  }

  lemma {:induction false} RowCountPositive(s: set<Place>, r: int, c: int, k: int)
    requires 0 <= c < k && (r, c) in s
    ensures RowCount(s, r, k) >= 1
    decreases k
  {
    RowCountNonNegative(s, r, k - 1);
    if c < k - 1 {
      RowCountPositive(s, r, c, k - 1);
    }
  }

  lemma {:induction false} RowCountNonNegative(s: set<Place>, r: int, k: int)
    requires k >= 0
    ensures RowCount(s, r, k) >= 0
    decreases k
  {
    if k > 0 {
      RowCountNonNegative(s, r, k - 1);
    }
  }

  lemma {:induction false} ExactIsPositive(b: set<Place>, rinv: seq<int>, rcnt: seq<int>, i: int, n: int)
    requires n >= 0 && CountsExact(b, rinv, rcnt, i, n) && forall r, c :: (r, c) in b ==> 0 <= c < n
    ensures CountsPositive(b, rinv, rcnt, i)
  {
    forall r, c | Eligible(b, rinv, i, r, c)
      ensures rcnt[r] >= 1
    {
      RowCountPositive(b, r, c, n);
    }
  }

  /** Recounting row k after it alone has changed. */
  lemma {:induction false} Recounted(b1: set<Place>, b2: set<Place>, rinv: seq<int>, rcnt: seq<int>, i: int, n: int, k: int)
    requires n >= 0 && CountsExact(b1, rinv, rcnt, i, n) && OtherRowsKept(b2, b1, k) && 0 <= k < |rinv|
    ensures CountsExact(b2, rinv, rcnt[k := RowCount(b2, k, n)], i, n)
  {
    forall r | 0 <= r < |rinv| && r != k
      ensures RowCount(b2, r, n) == RowCount(b1, r, n)
    {
      RowCountCong(b2, b1, r, n);
    }
  }

  /** Emptying the pivot column does not touch the rows that are left. */
  lemma {:induction false} CountsAfterSweep(b: set<Place>, l: set<Place>, u: set<Place>, b1: set<Place>, l1: set<Place>, u1: set<Place>, b2: set<Place>,
      o: Order, m: int, n: int, i: int, found: bool, rcnt: seq<int>)
    requires o.Valid(m, n) && 0 <= i < n && Underway(b, l, u, b1, l1, u1, o, m, n, i, m)
    requires PivotChosen(b, o, m, n, i, found)
    requires CountsExact(b1, o.rinv, rcnt, i + 1, n)
    requires forall r, j :: (r, j) in b2 <==> (r, j) in b1 && j != o.cols[i]
    ensures CountsExact(b2, o.rinv, rcnt, i + 1, n)
  {
    forall r | 0 <= r < m && o.rinv[r] >= i + 1
      ensures RowCount(b2, r, n) == RowCount(b1, r, n)
    {
      assert (r, o.cols[i]) !in b1;
      RowCountCong(b2, b1, r, n);
    }
  }

  /** A row below the pivot: add the pivot row, and record it in L. */
  method SweepBelow(bm: Mod2Sparse, lm: Mod2Sparse, um: Mod2Sparse, f: Entry, pivotRow: int,
      ghost b: set<Place>, ghost l: set<Place>, ghost u: set<Place>, ghost o: Order, i: int, ghost found: bool) returns (fn: Entry)
    requires Sweeping(bm, lm, um, f, b, l, u, o, i, found) && !f.AtEnd()
    requires 0 <= f.row < bm.nRows && o.rinv[f.row] > i && (found ==> pivotRow == o.rows[i])
    modifies bm.Repr, lm.Repr
    ensures Sweeping(bm, lm, um, fn, b, l, u, o, i, found) && bm.ColPos(fn) > bm.ColPos(f)
    ensures fresh(bm.Repr - old(bm.Repr)) && fresh(lm.Repr - old(lm.Repr))
    ensures OtherRowsKept(bm.ones, old(bm.ones), f.row)
  {
    hide Placed, Headed, Within, RowsLinked, ColsLinked, Underway, PivotChosen, RowAdded, OtherRowsKept;
    bm.ColCursorPlace(f, o.cols[i]);
    bm.ColStep(f, o.cols[i]);
    fn := f.down;
    var k := f.row;
    PivotIsFound(b, l, u, bm.ones, lm.ones, um.ones, o, bm.nRows, bm.nCols, i, k, found);
    ghost var b1, l1 := bm.ones, lm.ones;
    AddRow(bm, k, bm, pivotRow);
    RowAddedElsewhere(b1, bm.ones, k, pivotRow, bm.nCols);
    var ne := lm.Insert(k, i);
    UnderwayBelow(b, l, u, b1, l1, um.ones, bm.ones, o, bm.nRows, bm.nCols, i, k, bm.ColPos(fn));
    CursorSurvives(b1, bm.ones, k, pivotRow, fn, o.cols[i], bm.nRows, bm.nCols);
  }

  /** An entry at or below position i in the pivot column means that a pivot was found. */
  lemma {:induction false} PivotIsFound(b: set<Place>, l: set<Place>, u: set<Place>, b1: set<Place>, l1: set<Place>, u1: set<Place>,
      o: Order, m: int, n: int, i: int, k: int, found: bool)
    requires o.Valid(m, n) && 0 <= i < n && PivotChosen(b, o, m, n, i, found) && Underway(b, l, u, b1, l1, u1, o, m, n, i, k)
    requires 0 <= k < m && o.rinv[k] >= i && (k, o.cols[i]) in b1
    ensures found && 0 <= i < m && 0 <= o.rows[i] < m
  {
  }

  /** Changing row k leaves the other entries of the column in place. */
  lemma {:induction false} CursorSurvives(b1: set<Place>, b2: set<Place>, k: int, pivotRow: int, fn: Entry, c: int, m: int, n: int)
    requires RowAdded(b2, b1, k, b1, pivotRow, n) && OnCol(b1, m, n, fn.place) && fn.place.1 == c && fn.place.0 != k
    ensures OnCol(b2, m, n, fn.place)
  {
    assert fn.place == (fn.place.0, fn.place.1);
  }

  lemma {:induction false} UnderwayUpTo(b: set<Place>, l: set<Place>, u: set<Place>, b1: set<Place>, l1: set<Place>, u1: set<Place>,
      o: Order, m: int, n: int, i: int, k: int, q: int)
    requires o.Valid(m, n) && 0 <= i < n && 0 <= k < q && k < m && o.rinv[k] <= i
    requires Underway(b, l, u, b1, l1, u1, o, m, n, i, k) && (k, o.cols[i]) in b1
    requires forall r :: k < r < q ==> (r, o.cols[i]) !in b1
    ensures o.rinv[k] < i ==> Underway(b, l, u, b1, l1, u1 + {(o.rinv[k], o.cols[i])}, o, m, n, i, q)
    ensures o.rinv[k] == i ==> Underway(b, l, u, b1, l1 + {(k, i)}, u1 + {(i, o.cols[i])}, o, m, n, i, q)
  {
    assert forall r :: k < r < q ==> (r, o.cols[i]) !in b;
    assert (k, o.cols[i]) in b;
  }

  /** A row at or above the pivot goes into U, and the pivot row into L too. */
  method SweepUpTo(bm: Mod2Sparse, lm: Mod2Sparse, um: Mod2Sparse, f: Entry, rinvK: int, c: int,
      ghost b: set<Place>, ghost l: set<Place>, ghost u: set<Place>, ghost o: Order, i: int, ghost found: bool) returns (fn: Entry)
    requires Sweeping(bm, lm, um, f, b, l, u, o, i, found) && !f.AtEnd()
    requires 0 <= f.row < bm.nRows && rinvK == o.rinv[f.row] <= i && c == o.cols[i]
    modifies lm.Repr, um.Repr
    ensures Sweeping(bm, lm, um, fn, b, l, u, o, i, found) && bm.ColPos(fn) > bm.ColPos(f)
    ensures fresh(lm.Repr - old(lm.Repr)) && fresh(um.Repr - old(um.Repr))
  {
    hide Placed, Headed, Within, RowsLinked, ColsLinked, Underway, PivotChosen;
    bm.ColCursorPlace(f, c);
    bm.ColStep(f, c);
    fn := f.down;
    var k := f.row;
    UnderwayUpTo(b, l, u, bm.ones, lm.ones, um.ones, o, bm.nRows, bm.nCols, i, k, bm.ColPos(fn));
    if rinvK < i {
      var ne := um.Insert(rinvK, c);
    } else {
      var ne := lm.Insert(k, i);
      var ne2 := um.Insert(i, c);
    }
  }

  /** One entry of the pivot column. */
  method SweepEntry(bm: Mod2Sparse, lm: Mod2Sparse, um: Mod2Sparse, rinv: array<int>, rcnt: array<int>, strategy: Strategy, f: Entry,
      c: int, pivotRow: int, ghost b: set<Place>, ghost l: set<Place>, ghost u: set<Place>, ghost o: Order, i: int, ghost found: bool) returns (fn: Entry)
    requires Sweeping(bm, lm, um, f, b, l, u, o, i, found) && !f.AtEnd()
    requires rinv[..] == o.rinv && c == o.cols[i] && (found ==> i < bm.nRows && pivotRow == o.rows[i])
    requires rinv != rcnt && Outside(rinv, bm, lm, um) && Outside(rcnt, bm, lm, um)
    requires strategy.MinProd? ==> CountsExact(bm.ones, o.rinv, rcnt[..], i + 1, bm.nCols)
    modifies bm.Repr, lm.Repr, um.Repr, rcnt
    ensures Sweeping(bm, lm, um, fn, b, l, u, o, i, found) && bm.ColPos(fn) > bm.ColPos(f)
    ensures Outside(rinv, bm, lm, um) && Outside(rcnt, bm, lm, um)
    ensures fresh(bm.Repr - old(bm.Repr)) && fresh(lm.Repr - old(lm.Repr)) && fresh(um.Repr - old(um.Repr))
    ensures strategy.MinProd? ==> CountsExact(bm.ones, o.rinv, rcnt[..], i + 1, bm.nCols)
  {
    hide Placed, Headed, Within, RowsLinked, ColsLinked, Underway, PivotChosen, CountsExact, OtherRowsKept;
    bm.ColCursorPlace(f, c);
    var k := f.row;
    ghost var b1, counts := bm.ones, rcnt[..];
    if rinv[k] > i {
      fn := SweepBelow(bm, lm, um, f, pivotRow, b, l, u, o, i, found);
      if strategy.MinProd? {
        Recounted(b1, bm.ones, o.rinv, counts, i + 1, bm.nCols, k);
        CountsLength(b1, o.rinv, counts, i + 1, bm.nCols);
        rcnt[k] := CountRow(bm, k);
      }
    } else {
      fn := SweepUpTo(bm, lm, um, f, rinv[k], c, b, l, u, o, i, found);
    }
  }

  /** The elimination: the loop over the pivot column, then the column of B is emptied. */
  method Sweep(bm: Mod2Sparse, lm: Mod2Sparse, um: Mod2Sparse, rinv: array<int>, rcnt: array<int>, strategy: Strategy,
      c: int, pivotRow: int, ghost o: Order, i: int, ghost found: bool)
    requires bm.Valid() && lm.Valid() && um.Valid() && Apart(bm, lm, um) && rinv != rcnt
    requires Outside(rinv, bm, lm, um) && Outside(rcnt, bm, lm, um)
    requires o.Valid(bm.nRows, bm.nCols) && 0 <= i < bm.nCols && lm.nRows == bm.nRows && i < lm.nCols && i < um.nRows && um.nCols == bm.nCols
    requires rinv[..] == o.rinv && c == o.cols[i] && (found ==> i < bm.nRows && pivotRow == o.rows[i])
    requires PivotChosen(bm.ones, o, bm.nRows, bm.nCols, i, found)
    requires strategy.MinProd? ==> CountsExact(bm.ones, o.rinv, rcnt[..], i + 1, bm.nCols)
    modifies bm.Repr, lm.Repr, um.Repr, rcnt
    ensures bm.Valid() && lm.Valid() && um.Valid() && Apart(bm, lm, um) && Outside(rinv, bm, lm, um) && Outside(rcnt, bm, lm, um)
    ensures fresh(bm.Repr - old(bm.Repr)) && fresh(lm.Repr - old(lm.Repr)) && fresh(um.Repr - old(um.Repr))
    ensures Step(old(bm.ones), old(lm.ones), old(um.ones), bm.ones, lm.ones, um.ones, o, bm.nRows, bm.nCols, i, found)
    ensures strategy.MinProd? ==> CountsExact(bm.ones, o.rinv, rcnt[..], i + 1, bm.nCols)
  {
    hide Placed, Headed, Within, RowsLinked, ColsLinked, Underway, PivotChosen, Step, CountsExact, OtherRowsKept;
    ghost var b, l, u := bm.ones, lm.ones, um.ones;
    SweepStart(bm, lm, um, o, i, found);
    var f := bm.cols[c].down;
    while !f.AtEnd()
      invariant Sweeping(bm, lm, um, f, b, l, u, o, i, found) && rinv[..] == o.rinv
      invariant Outside(rinv, bm, lm, um) && Outside(rcnt, bm, lm, um)
      invariant fresh(bm.Repr - old(bm.Repr)) && fresh(lm.Repr - old(lm.Repr)) && fresh(um.Repr - old(um.Repr))
      invariant strategy.MinProd? ==> CountsExact(bm.ones, o.rinv, rcnt[..], i + 1, bm.nCols)
      decreases bm.nRows - bm.ColPos(f)
    {
      f := SweepEntry(bm, lm, um, rinv, rcnt, strategy, f, c, pivotRow, b, l, u, o, i, found);
    }
    ghost var b1 := bm.ones;
    EmptyColumn(bm, c);
    SweepDone(b, l, u, b1, bm.ones, lm.ones, um.ones, o, bm.nRows, bm.nCols, i, found);
    if strategy.MinProd? {
      CountsAfterSweep(b, l, u, b1, lm.ones, um.ones, bm.ones, o, bm.nRows, bm.nCols, i, found, rcnt[..]);
    }
  }

  lemma {:induction false} CountsLength(b: set<Place>, rinv: seq<int>, rcnt: seq<int>, i: int, n: int)
    requires n >= 0 && CountsExact(b, rinv, rcnt, i, n)
    ensures |rcnt| == |rinv|
  {
  }

  ghost predicate Outside(x: array<int>, a: Mod2Sparse, b: Mod2Sparse, c: Mod2Sparse)
    reads a, b, c
  {
    x !in a.Repr && x !in b.Repr && x !in c.Repr
  }

  lemma {:induction false} SweepStart(bm: Mod2Sparse, lm: Mod2Sparse, um: Mod2Sparse, o: Order, i: int, found: bool)
    requires bm.Valid() && lm.Valid() && um.Valid() && Apart(bm, lm, um)
    requires o.Valid(bm.nRows, bm.nCols) && 0 <= i < bm.nCols && lm.nRows == bm.nRows && i < lm.nCols && i < um.nRows && um.nCols == bm.nCols
    requires PivotChosen(bm.ones, o, bm.nRows, bm.nCols, i, found)
    ensures |bm.cols| == bm.nCols
    ensures Sweeping(bm, lm, um, bm.cols[o.cols[i]].down, bm.ones, lm.ones, um.ones, o, i, found)
  {
    hide Placed, Headed, Within, RowsLinked, ColsLinked;
    bm.OnesInRange();
    bm.ColHeaderStep(o.cols[i]);
    bm.ColCursorPlace(bm.cols[o.cols[i]].down, o.cols[i]);
  }

  lemma {:induction false} SweepDone(b: set<Place>, l: set<Place>, u: set<Place>, b1: set<Place>, b2: set<Place>, l1: set<Place>, u1: set<Place>,
      o: Order, m: int, n: int, i: int, found: bool)
    requires o.Valid(m, n) && 0 <= i < n && PivotChosen(b, o, m, n, i, found) && Underway(b, l, u, b1, l1, u1, o, m, n, i, m)
    requires forall r, j :: (r, j) in b2 <==> (r, j) in b1 && j != o.cols[i]
    ensures Step(b, l, u, b2, l1, u1, o, m, n, i, found)
  {
  }

  // ----- the whole decomposition -----

  /** The search for a pivot and the exchange that brings it to position i.  The two aborts cannot happen. */
  method PickPivot(bm: Mod2Sparse, rows: array<int>, rinv: array<int>, cols: array<int>, cinv: array<int>, rcnt: seq<int>,
      strategy: Strategy, i: int, ghost o: Order) returns (found: bool, pivotRow: int, ghost p: Order)
    requires bm.Valid() && o.Valid(bm.nRows, bm.nCols) && 0 <= i < bm.nCols
    requires rows != rinv && rows != cols && rows != cinv && rinv != cols && rinv != cinv && cols != cinv
    requires o == Order(rows[..], rinv[..], cols[..], cinv[..]) && |rcnt| == bm.nRows
    requires strategy.MinProd? ==> CountsExact(bm.ones, o.rinv, rcnt, i, bm.nCols)
    requires forall r, c :: (r, c) in bm.ones ==> 0 <= r < bm.nRows && 0 <= c < bm.nCols && i <= o.cinv[c]
    modifies rows, rinv, cols, cinv
    ensures p == Order(rows[..], rinv[..], cols[..], cinv[..]) && p.Valid(bm.nRows, bm.nCols)
    ensures SameBelow(p, o, bm.nRows, bm.nCols, i) && PivotChosen(bm.ones, p, bm.nRows, bm.nCols, i, found)
    ensures found ==> i < bm.nRows && pivotRow == p.rows[i]
    ensures !found ==> p == o
  {
    hide Placed, Headed, Within, RowsLinked, ColsLinked, CountsExact, CountsPositive;
    var e: Entry?, k := null, 0;
    match strategy {
      case First => e, k := FirstPivot(bm, cols[..], rinv[..], i);
      case MinCol => e, k := MinColPivot(bm, cols[..], rinv[..], i);
      case MinProd =>
        ExactIsPositive(bm.ones, o.rinv, rcnt, i, bm.nCols);
        e, k := MinProdPivot(bm, cols[..], rinv[..], rcnt, i);
    }
    found, pivotRow, p := e != null, 0, o;
    if e == null {
      NothingLeft(bm, o, i);
    } else {
      assert cinv[e.col] == k;
      SwapIn(cols, cinv, i, k);
      k := rinv[e.row];
      assert k >= i;
      SwapIn(rows, rinv, i, k);
      pivotRow := e.row;
      p := Order(rows[..], rinv[..], cols[..], cinv[..]);
    }
  }

  lemma {:induction false} NothingLeft(bm: Mod2Sparse, o: Order, i: int)
    requires o.Valid(bm.nRows, bm.nCols) && 0 <= i < bm.nCols && Chosen(bm, o.cols, o.rinv, i, null, 0)
    requires forall r, c :: (r, c) in bm.ones ==> 0 <= r < bm.nRows && 0 <= c < bm.nCols && i <= o.cinv[c]
    ensures PivotChosen(bm.ones, o, bm.nRows, bm.nCols, i, false)
  {
    forall r, c | (r, c) in bm.ones && 0 <= r < bm.nRows
      ensures o.rinv[r] < i
    {
      assert NoneEligible(bm.ones, o.rinv, i, o.cols[o.cinv[c]]);
      assert !Eligible(bm.ones, o.rinv, i, r, c);
    }
  }

  method IdentityOrder(p: array<int>, q: array<int>)
    requires p != q && p.Length == q.Length
    modifies p, q
    ensures Inverse(p[..], q[..], p.Length)
  {
    for x := 0 to p.Length
      invariant forall y :: 0 <= y < x ==> p[y] == q[y] == y
    {
      p[x] := x;
      q[x] := x;
    }
  }

  /** The last loop: rows of L that were not chosen lose their ones. */
  method TrimRows(lm: Mod2Sparse, rows: array<int>, ghost rinv: seq<int>, k: int)
    requires lm.Valid() && rows.Length == lm.nRows && Inverse(rows[..], rinv, lm.nRows) && rows !in lm.Repr && 0 <= k
    modifies lm.Repr
    ensures lm.Valid() && fresh(lm.Repr - old(lm.Repr))
    ensures forall r, t :: (r, t) in lm.ones <==> (r, t) in old(lm.ones) && 0 <= r < lm.nRows && rinv[r] < k
  {
    hide Placed, Headed, Within, RowsLinked, ColsLinked;
    lm.OnesInRange();
    var i := k;
    while i < rows.Length
      invariant k <= i && lm.Valid() && lm.Repr == old(lm.Repr) && rows[..] == old(rows[..])
      invariant forall r, t :: (r, t) in lm.ones <==>
        (r, t) in old(lm.ones) && 0 <= r < lm.nRows && (rinv[r] < k || rinv[r] >= i)
    {
      EmptyRow(lm, rows[i]);
      i := i + 1;
    }
  }

  /** The arrays are the current order. */
  ghost predicate Held(o: Order, rows: array<int>, rinv: array<int>, cols: array<int>, cinv: array<int>)
    reads rows, rinv, cols, cinv
  {
    && rows != rinv && rows != cols && rows != cinv && rinv != cols && rinv != cinv && cols != cinv
    && o == Order(rows[..], rinv[..], cols[..], cinv[..])
  }

  /** What holds at the head of the main loop. */
  ghost predicate Ready(bm: Mod2Sparse, lm: Mod2Sparse, um: Mod2Sparse, rows: array<int>, rinv: array<int>, cols: array<int>, cinv: array<int>, rcnt: array<int>,
      strategy: Strategy, i: int, a: set<Place>, o: Order, nnf: int)
    reads bm, bm.Repr, lm, lm.Repr, um, um.Repr, rows, rinv, cols, cinv, rcnt
  {
    && bm.Valid() && lm.Valid() && um.Valid() && Apart(bm, lm, um)
    && lm.nRows == bm.nRows && lm.nCols == um.nRows && um.nCols == bm.nCols && lm.nCols <= bm.nCols
    && Held(o, rows, rinv, cols, cinv) && rcnt.Length == bm.nRows && rcnt != rows && rcnt != rinv && rcnt != cols && rcnt != cinv
    && Outside(rows, bm, lm, um) && Outside(rinv, bm, lm, um) && Outside(cols, bm, lm, um) && Outside(cinv, bm, lm, um) && Outside(rcnt, bm, lm, um)
    && Invariant(a, bm.ones, lm.ones, um.ones, o, bm.nRows, bm.nCols, i, nnf)
    && (strategy.MinProd? ==> CountsExact(bm.ones, o.rinv, rcnt[..], i, bm.nCols))
  }

  /** One turn of the main loop. */
  method DecompStep(bm: Mod2Sparse, lm: Mod2Sparse, um: Mod2Sparse, rows: array<int>, rinv: array<int>, cols: array<int>, cinv: array<int>, rcnt: array<int>,
      strategy: Strategy, i: int, ghost a: set<Place>, ghost o: Order, ghost nnf: int) returns (found: bool, ghost p: Order)
    requires Ready(bm, lm, um, rows, rinv, cols, cinv, rcnt, strategy, i, a, o, nnf) && i < lm.nCols
    modifies bm.Repr, lm.Repr, um.Repr, rows, rinv, cols, cinv, rcnt
    ensures Ready(bm, lm, um, rows, rinv, cols, cinv, rcnt, strategy, i + 1, a, p, if found then nnf else nnf + 1)
    ensures fresh(bm.Repr - old(bm.Repr)) && fresh(lm.Repr - old(lm.Repr)) && fresh(um.Repr - old(um.Repr))
  {
    hide Placed, Headed, Within, RowsLinked, ColsLinked, Factored, Diagonal, Bounds, PivotChosen, Step, CountsExact, SameBelow;
    BoundsOfB(a, bm.ones, lm.ones, um.ones, o, bm.nRows, bm.nCols, i, nnf);
    var pivotRow: int;
    found, pivotRow, p := PickPivot(bm, rows, rinv, cols, cinv, rcnt[..], strategy, i, o);
    ReorderKeeps(a, bm.ones, lm.ones, um.ones, o, p, bm.nRows, bm.nCols, i, nnf);
    ghost var b, l, u := bm.ones, lm.ones, um.ones;
    if strategy.MinProd? {
      CountsReordered(b, o, p, rcnt[..], bm.nRows, bm.nCols, i);
    }
    Sweep(bm, lm, um, rinv, rcnt, strategy, cols[i], pivotRow, p, i, found);
    StepKeeps(a, b, l, u, bm.ones, lm.ones, um.ones, p, bm.nRows, bm.nCols, i, nnf, found);
  }

  /** The main loop. */
  method Factor(bm: Mod2Sparse, lm: Mod2Sparse, um: Mod2Sparse, rows: array<int>, rinv: array<int>, cols: array<int>, cinv: array<int>, rcnt: array<int>,
      strategy: Strategy, ghost a: set<Place>, ghost o0: Order) returns (nnf: int, ghost o: Order)
    requires Ready(bm, lm, um, rows, rinv, cols, cinv, rcnt, strategy, 0, a, o0, 0)
    modifies bm.Repr, lm.Repr, um.Repr, rows, rinv, cols, cinv, rcnt
    ensures Ready(bm, lm, um, rows, rinv, cols, cinv, rcnt, strategy, lm.nCols, a, o, nnf)
    ensures fresh(bm.Repr - old(bm.Repr)) && fresh(lm.Repr - old(lm.Repr)) && fresh(um.Repr - old(um.Repr))
  {
    hide Ready;
    nnf, o := 0, o0;
    ColumnsPositive(bm, lm, um, rows, rinv, cols, cinv, rcnt, strategy, 0, a, o, nnf);
    for i := 0 to lm.nCols
      invariant Ready(bm, lm, um, rows, rinv, cols, cinv, rcnt, strategy, i, a, o, nnf)
      invariant fresh(bm.Repr - old(bm.Repr)) && fresh(lm.Repr - old(lm.Repr)) && fresh(um.Repr - old(um.Repr))
    {
      var found: bool;
      found, o := DecompStep(bm, lm, um, rows, rinv, cols, cinv, rcnt, strategy, i, a, o, nnf);
      if !found {
        nnf := nnf + 1;
      }
    }
  }

  lemma {:induction false} ColumnsPositive(bm: Mod2Sparse, lm: Mod2Sparse, um: Mod2Sparse, rows: array<int>, rinv: array<int>, cols: array<int>, cinv: array<int>, rcnt: array<int>,
      strategy: Strategy, i: int, a: set<Place>, o: Order, nnf: int)
    requires Ready(bm, lm, um, rows, rinv, cols, cinv, rcnt, strategy, i, a, o, nnf)
    ensures lm.nCols > 0
  {
    hide Placed, Headed, Within, RowsLinked, ColsLinked, Factored, Diagonal, Bounds, CountsExact;
    lm.OnesInRange();
  }

  lemma {:induction false} BoundsOfB(a: set<Place>, b: set<Place>, l: set<Place>, u: set<Place>, o: Order, m: int, n: int, i: int, nnf: int)
    requires Invariant(a, b, l, u, o, m, n, i, nnf)
    ensures forall r, c :: (r, c) in b ==> 0 <= r < m && 0 <= c < n && i <= o.cinv[c]
  {
    hide Factored, Diagonal;
  }

  lemma {:induction false} CountsReordered(b: set<Place>, o: Order, p: Order, rcnt: seq<int>, m: int, n: int, i: int)
    requires o.Valid(m, n) && p.Valid(m, n) && SameBelow(p, o, m, n, i) && CountsExact(b, o.rinv, rcnt, i, n)
    ensures CountsExact(b, p.rinv, rcnt, i + 1, n)
  {
    SameBelowInverse(p, o, m, n, i);
  }

  method CountRows(bm: Mod2Sparse, rcnt: array<int>, ghost rinv: seq<int>)
    requires bm.Valid() && rcnt.Length == bm.nRows == |rinv| && rcnt !in bm.Repr
    modifies rcnt
    ensures bm.nCols >= 0 && CountsExact(bm.ones, rinv, rcnt[..], 0, bm.nCols)
  {
    hide Placed, Headed, Within, RowsLinked, ColsLinked, RowCount;
    bm.OnesInRange();
    for r := 0 to bm.nRows
      invariant bm.Valid() && forall x :: 0 <= x < r ==> rcnt[x] == RowCount(bm.ones, x, bm.nCols)
    {
      rcnt[r] := CountRow(bm, r);
    }
  }

  method FreshCopy(am: Mod2Sparse, lm: Mod2Sparse, um: Mod2Sparse) returns (bm: Mod2Sparse)
    requires am.Valid() && lm.Valid() && um.Valid() && Apart(am, lm, um) && lm.free == um.free == 0
    modifies lm.Repr, um.Repr
    ensures bm.Valid() && fresh(bm.Repr) && bm.nRows == am.nRows && bm.nCols == am.nCols && bm.ones == am.ones == old(am.ones)
    ensures am.Valid() && lm.Valid() && um.Valid() && lm.Repr == old(lm.Repr) && um.Repr == old(um.Repr) && lm.ones == um.ones == {}
  {
    hide Placed, Headed, Within, RowsLinked, ColsLinked;
    am.OnesInRange();
    lm.Clear();
    um.Clear();
    bm := new Mod2Sparse(am.nRows, am.nCols);
    Copy(am, bm);
  }

  method IdentityOrders(rows: array<int>, rinv: array<int>, cols: array<int>, cinv: array<int>) returns (ghost o: Order)
    requires rows != rinv && rows != cols && rows != cinv && rinv != cols && rinv != cinv && cols != cinv
    requires rows.Length == rinv.Length > 0 && cols.Length == cinv.Length > 0
    modifies rows, rinv, cols, cinv
    ensures Held(o, rows, rinv, cols, cinv) && o.Valid(rows.Length, cols.Length)
  {
    hide Inverse;
    IdentityOrder(rows, rinv);
    IdentityOrder(cols, cinv);
    o := Order(rows[..], rinv[..], cols[..], cinv[..]);
  }

  /** Clear L and U, copy A to B, count its rows, and start from the identity orders. */
  method Prepare(am: Mod2Sparse, lm: Mod2Sparse, um: Mod2Sparse, rows: array<int>, rinv: array<int>, cols: array<int>, cinv: array<int>, rcnt: array<int>,
      strategy: Strategy) returns (bm: Mod2Sparse, ghost o: Order)
    requires am.Valid() && lm.Valid() && um.Valid() && Apart(am, lm, um) && lm.free == um.free == 0
    requires lm.nRows == am.nRows && um.nCols == am.nCols && um.nRows == lm.nCols <= am.nCols
    requires rows.Length == rinv.Length == rcnt.Length == am.nRows && cols.Length == cinv.Length == am.nCols
    requires rows != rinv && rows != cols && rows != cinv && rinv != cols && rinv != cinv && cols != cinv
    requires rcnt != rows && rcnt != rinv && rcnt != cols && rcnt != cinv
    requires Outside(rows, am, lm, um) && Outside(rinv, am, lm, um) && Outside(cols, am, lm, um) && Outside(cinv, am, lm, um) && Outside(rcnt, am, lm, um)
    modifies lm.Repr, um.Repr, rows, rinv, cols, cinv, rcnt
    ensures Ready(bm, lm, um, rows, rinv, cols, cinv, rcnt, strategy, 0, am.ones, o, 0)
    ensures fresh(bm.Repr) && lm.Repr == old(lm.Repr) && um.Repr == old(um.Repr) && am.Valid() && am.ones == old(am.ones)
    ensures bm.nRows == am.nRows && bm.nCols == am.nCols
  {
    hide Placed, Headed, Within, RowsLinked, ColsLinked, Invariant, Inverse, CountsExact;
    am.OnesInRange();
    bm := FreshCopy(am, lm, um);
    o := IdentityOrders(rows, rinv, cols, cinv);
    if strategy.MinProd? {
      CountRows(bm, rcnt, o.rinv);
    }
    Start(am.ones, o, am.nRows, am.nCols);
  }

  /** mod2sparse_decomp with no columns to abandon: for every matrix and strategy, L and U are the
      triangular factors of A on the chosen K rows and columns, and nnf counts the missing pivots. */
  method Decomp(am: Mod2Sparse, k: int, lm: Mod2Sparse, um: Mod2Sparse, rows: array<int>, cols: array<int>, strategy: Strategy)
      returns (nnf: int, ghost o: Order)
    requires am.Valid() && lm.Valid() && um.Valid() && Apart(am, lm, um) && lm.free == um.free == 0
    requires lm.nCols == k && lm.nRows == am.nRows && um.nCols == am.nCols && um.nRows == k && k <= am.nCols
    requires rows.Length == am.nRows && cols.Length == am.nCols && rows != cols && Outside(rows, am, lm, um) && Outside(cols, am, lm, um)
    modifies lm.Repr, um.Repr, rows, cols
    ensures am.Valid() && lm.Valid() && um.Valid() && am.ones == old(am.ones)
    ensures fresh(lm.Repr - old(lm.Repr)) && fresh(um.Repr - old(um.Repr))
    ensures o.rows == rows[..] && o.cols == cols[..]
    ensures Decomposed(am.ones, lm.ones, um.ones, o, am.nRows, am.nCols, k, nnf)
  {
    hide Placed, Headed, Within, RowsLinked, ColsLinked, Invariant, Inverse, Decomposed;
    ghost var b: set<Place>;
    nnf, o, b := Eliminate(am, lm, um, rows, cols, strategy);
    OrderFits(am.ones, b, lm.ones, um.ones, o, am.nRows, am.nCols, k, nnf);
    ghost var l := lm.ones;
    TrimRows(lm, rows, o.rinv, k);
    Finish(am.ones, b, l, um.ones, lm.ones, o, am.nRows, am.nCols, k, nnf);
  }

  /** The preparation and the main loop; b is what is left in the discarded copy of A. */
  method Eliminate(am: Mod2Sparse, lm: Mod2Sparse, um: Mod2Sparse, rows: array<int>, cols: array<int>, strategy: Strategy)
      returns (nnf: int, ghost o: Order, ghost b: set<Place>)
    requires am.Valid() && lm.Valid() && um.Valid() && Apart(am, lm, um) && lm.free == um.free == 0
    requires lm.nRows == am.nRows && um.nCols == am.nCols && um.nRows == lm.nCols <= am.nCols
    requires rows.Length == am.nRows && cols.Length == am.nCols && rows != cols && Outside(rows, am, lm, um) && Outside(cols, am, lm, um)
    modifies lm.Repr, um.Repr, rows, cols
    ensures am.Valid() && lm.Valid() && um.Valid() && am.ones == old(am.ones) && lm.Repr !! um.Repr && rows !in lm.Repr
    ensures fresh(lm.Repr - old(lm.Repr)) && fresh(um.Repr - old(um.Repr))
    ensures o.rows == rows[..] && o.cols == cols[..]
    ensures Invariant(am.ones, b, lm.ones, um.ones, o, am.nRows, am.nCols, lm.nCols, nnf)
  {
    hide Placed, Headed, Within, RowsLinked, ColsLinked, Invariant, Inverse, CountsExact, Ready;
    var rinv, cinv, rcnt := NewArrays(am);
    var bm: Mod2Sparse;
    bm, o := Prepare(am, lm, um, rows, rinv, cols, cinv, rcnt, strategy);
    nnf, o := Factor(bm, lm, um, rows, rinv, cols, cinv, rcnt, strategy, am.ones, o);
    ReadyGives(bm, lm, um, rows, rinv, cols, cinv, rcnt, strategy, lm.nCols, am.ones, o, nnf);
    b := bm.ones;
  }

  lemma {:induction false} OrderFits(a: set<Place>, b: set<Place>, l: set<Place>, u: set<Place>, o: Order, m: int, n: int, i: int, nnf: int)
    requires Invariant(a, b, l, u, o, m, n, i, nnf)
    ensures 0 <= i && |o.rows| == m && Inverse(o.rows, o.rinv, m)
  {
    hide Factored, Diagonal, Bounds;
  }

  method NewArrays(am: Mod2Sparse) returns (rinv: array<int>, cinv: array<int>, rcnt: array<int>)
    requires am.nRows >= 0 && am.nCols >= 0
    ensures fresh(rinv) && fresh(cinv) && fresh(rcnt) && rinv != cinv && rinv != rcnt && cinv != rcnt
    ensures rinv.Length == rcnt.Length == am.nRows && cinv.Length == am.nCols
  {
    rinv, cinv, rcnt := new int[am.nRows], new int[am.nCols], new int[am.nRows];
  }

  lemma {:induction false} ReadyGives(bm: Mod2Sparse, lm: Mod2Sparse, um: Mod2Sparse, rows: array<int>, rinv: array<int>, cols: array<int>, cinv: array<int>, rcnt: array<int>,
      strategy: Strategy, i: int, a: set<Place>, o: Order, nnf: int)
    requires Ready(bm, lm, um, rows, rinv, cols, cinv, rcnt, strategy, i, a, o, nnf)
    ensures bm.Valid() && lm.Valid() && um.Valid() && Apart(bm, lm, um) && rows !in lm.Repr && 0 <= i
    ensures o.rows == rows[..] && o.cols == cols[..] && rows.Length == bm.nRows && Inverse(o.rows, o.rinv, bm.nRows)
    ensures Invariant(a, bm.ones, lm.ones, um.ones, o, bm.nRows, bm.nCols, i, nnf)
  {
    hide Placed, Headed, Within, RowsLinked, ColsLinked, Factored, Diagonal, Bounds, CountsExact;
  }
}
