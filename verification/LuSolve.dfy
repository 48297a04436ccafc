/** Decomposition followed by the two substitutions, the way the three routines are made to be used. */
module LuSolve {
  import opened BitStrings
  import opened Gf2
  import opened SparseMatrix
  import opened LuAlgebra
  import opened LuDecomposition
  import opened Substitution

  /** The factors pass the shape checks of the substitutions. */
  lemma {:induction false} FactorsTriangular(a: set<Place>, l: set<Place>, u: set<Place>, o: Order, m: int, n: int, k: int, nnf: int)
    requires Decomposed(a, l, u, o, m, n, k, nnf) && k <= m
    ensures LowerTriangular(l, By(o.rows), k) && UpperTriangular(u, By(o.cols), k)
    ensures NamesColumns(By(o.cols), k, n) && forall i :: 0 <= i < k ==> 0 <= By(o.rows).At(i) < m
  {
    var rowOrder, colOrder := By(o.rows), By(o.cols);
    forall i, j | 0 <= i < k && i < j < k
      ensures (rowOrder.At(i), j) !in l && (j, colOrder.At(i)) !in u && colOrder.At(i) != colOrder.At(j)
    {
      assert o.rinv[o.rows[i]] == i && o.cinv[o.cols[i]] == i && o.cinv[o.cols[j]] == j;
    }
  }

  /** If no pivot was missing, both substitutions succeed and z solves the chosen K equations. */
  method Solve(am: Mod2Sparse, k: int, lm: Mod2Sparse, um: Mod2Sparse, rows: array<int>, cols: array<int>, strategy: Strategy,
      x: Bits, y: array<bool>, z: array<bool>) returns (nnf: int, forward: Outcome, backward: Outcome, ghost o: Order)
    requires am.Valid() && lm.Valid() && um.Valid() && Apart(am, lm, um) && lm.free == um.free == 0
    requires lm.nCols == k && lm.nRows == am.nRows && um.nCols == am.nCols && um.nRows == k && k <= am.nCols && k <= am.nRows
    requires rows.Length == am.nRows && cols.Length == am.nCols && rows != cols && Outside(rows, am, lm, um) && Outside(cols, am, lm, um)
    requires |x| == am.nRows && y.Length == k && z.Length == am.nCols && y != z
    requires y !in am.Repr && y !in lm.Repr && y !in um.Repr && z !in am.Repr && z !in lm.Repr && z !in um.Repr
    modifies lm.Repr, um.Repr, rows, cols, y, z
    ensures o.rows == rows[..] && o.cols == cols[..] && am.ones == old(am.ones)
    ensures Decomposed(am.ones, lm.ones, um.ones, o, am.nRows, am.nCols, k, nnf)
    ensures nnf == 0 ==> forward.Solved? && backward.Solved?
    ensures forward.Solved? && backward.Solved? ==> forall r {:trigger o.rinv[r]} :: 0 <= r < am.nRows && o.rinv[r] < k ==>
      ChosenDot(am.ones, o.cinv, am.nCols, k, z[..], r) == x[r]
  {
    hide Placed, Headed, Within, RowsLinked, ColsLinked, Decomposed, ForwardSolves, BackwardSolves, LowerTriangular, UpperTriangular, NamesColumns, ChosenDot;
    nnf, o := Decomp(am, k, lm, um, rows, cols, strategy);
    FactorsTriangular(am.ones, lm.ones, um.ones, o, am.nRows, am.nCols, k, nnf);
    OrderLengths(am.ones, lm.ones, um.ones, o, am.nRows, am.nCols, k, nnf);
    forward := ForwardSub(lm, By(rows[..]), x, y);
    backward := BackwardSub(um, By(cols[..]), y[..], z);
    if nnf == 0 {
      UnitDiagonals(am.ones, lm.ones, um.ones, o, am.nRows, am.nCols, k);
    }
    if forward.Solved? && backward.Solved? {
      Solution(am.ones, lm.ones, um.ones, o, am.nRows, am.nCols, k, nnf, x, y[..], z[..]);
    }
  }

  lemma {:induction false} OrderLengths(a: set<Place>, l: set<Place>, u: set<Place>, o: Order, m: int, n: int, k: int, nnf: int)
    requires Decomposed(a, l, u, o, m, n, k, nnf)
    ensures |o.rows| == |o.rinv| == m && |o.cols| == |o.cinv| == n && k <= n
  {
  }

  lemma {:induction false} UnitDiagonals(a: set<Place>, l: set<Place>, u: set<Place>, o: Order, m: int, n: int, k: int)
    requires Decomposed(a, l, u, o, m, n, k, 0) && k <= m
    ensures forall i :: 0 <= i < k ==> (By(o.rows).At(i), i) in l && (i, By(o.cols).At(i)) in u
  {
  }

  lemma {:induction false} Solution(a: set<Place>, l: set<Place>, u: set<Place>, o: Order, m: int, n: int, k: int, nnf: int, x: Bits, y: Bits, z: Bits)
    requires Decomposed(a, l, u, o, m, n, k, nnf) && k <= m && |x| == m && |y| == k && |z| == n
    requires forall i :: 0 <= i < k ==> 0 <= By(o.rows).At(i) < m && 0 <= By(o.cols).At(i) < n
    requires ForwardSolves(l, By(o.rows), k, x, y, k) && BackwardSolves(u, By(o.cols), k, n, y, z, 0)
    ensures forall r {:trigger o.rinv[r]} :: 0 <= r < m && o.rinv[r] < k ==>
      ChosenDot(a, o.cinv, n, k, z, r) == x[r]
  {
    hide RowDot;
    forall t | 0 <= t < k
      ensures RowDot(u, n, z, t) == y[t]
    {
      assert By(o.cols).At(t) == o.cols[t];
    }
    forall r {:trigger o.rinv[r]} | 0 <= r < m && o.rinv[r] < k
      ensures ChosenDot(a, o.cinv, n, k, z, r) == x[r]
    {
      assert By(o.rows).At(o.rinv[r]) == r;
      SolutionOfProduct(a, l, u, o, m, n, k, nnf, x, y, z, r);
    }
  }
}
