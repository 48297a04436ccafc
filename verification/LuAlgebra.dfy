/** What one step of mod2sparse_decomp does to the matrices A, B, L and U, as sets of ones, and the
    relation between them that every step keeps. */
module LuAlgebra {
  import opened BitStrings
  import opened Gf2
  import opened RowSpan

  /** p lists 0 .. n - 1 in some order and q is its inverse. */
  ghost predicate Inverse(p: seq<int>, q: seq<int>, n: int) {
    && |p| == |q| == n
    && (forall x :: 0 <= x < n ==> 0 <= p[x] < n && q[p[x]] == x)
    && (forall x :: 0 <= x < n ==> 0 <= q[x] < n && p[q[x]] == x)
  }

  /** The orders of the rows and of the columns, with their inverses. */
  datatype Order = Order(rows: seq<int>, rinv: seq<int>, cols: seq<int>, cinv: seq<int>) {
    ghost predicate Valid(m: int, n: int) {
      m > 0 && n > 0 && Inverse(rows, rinv, m) && Inverse(cols, cinv, n)
    }
  }

  /** What the finished steps contribute to (r, c), read off the rows of B that are pivots already. */
  ghost function Explained(l: set<Place>, b: set<Place>, rows: seq<int>, k: int, r: int, c: int): bool
    requires k >= 0
  {
    Sum(k, t => (r, t) in l && 0 <= t < |rows| && (rows[t], c) in b)
  }

  ghost predicate Bounds(b: set<Place>, l: set<Place>, u: set<Place>, o: Order, m: int, n: int, i: int)
    requires o.Valid(m, n)
  {
    && (forall r, c :: (r, c) in b ==> 0 <= r < m && 0 <= c < n && i <= o.cinv[c])
    && (forall r, t :: (r, t) in l ==> 0 <= r < m && 0 <= t < i && t <= o.rinv[r])
    && (forall t, c :: (t, c) in u ==> 0 <= c < n && o.cinv[c] < i && 0 <= t <= o.cinv[c])
  }

  /** Steps whose pivot was found come first, and their diagonals are ones. */
  ghost predicate Diagonal(b: set<Place>, l: set<Place>, u: set<Place>, o: Order, m: int, n: int, i: int, nnf: int)
    requires o.Valid(m, n) && i <= n
  {
    && 0 <= nnf <= i
    && (forall t :: 0 <= t < i && t < m ==> ((o.rows[t], t) in l <==> t < i - nnf))
    && (forall t :: 0 <= t < i ==> ((t, o.cols[t]) in u <==> t < i - nnf))
    && (nnf > 0 ==> forall r, c :: (r, c) in b && 0 <= r < m ==> o.rinv[r] < i - nnf)
    && (forall r, t :: (r, t) in l ==> t < i - nnf)
    && i - nnf <= m
  }

  /** Finished columns are products; in the others B holds what is still to be explained. */
  ghost predicate Factored(a: set<Place>, b: set<Place>, l: set<Place>, u: set<Place>, o: Order, m: int, n: int, i: int)
    requires o.Valid(m, n) && i >= 0
  {
    forall r, c {:trigger (r, c) in a} :: 0 <= r < m && 0 <= c < n ==>
      ((r, c) in a) ==
        if o.cinv[c] < i then ProductEntry(l, u, i, r, c)
        else Explained(l, b, o.rows, Least(i, o.rinv[r]), r, c) != ((r, c) in b)
  }

  ghost predicate Invariant(a: set<Place>, b: set<Place>, l: set<Place>, u: set<Place>, o: Order, m: int, n: int, i: int, nnf: int) {
    && o.Valid(m, n) && 0 <= i <= n
    && Bounds(b, l, u, o, m, n, i) && Diagonal(b, l, u, o, m, n, i, nnf) && Factored(a, b, l, u, o, m, n, i)
  }

  /** At the start B is A and nothing is factored. */
  lemma {:induction false} Start(a: set<Place>, o: Order, m: int, n: int)
    requires o.Valid(m, n) && forall r, c :: (r, c) in a ==> 0 <= r < m && 0 <= c < n
    ensures Invariant(a, a, {}, {}, o, m, n, 0, 0)
  {
  }

  /** Two orders that differ only from position i on. */
  ghost predicate SameBelow(p: Order, o: Order, m: int, n: int, i: int)
    requires p.Valid(m, n) && o.Valid(m, n)
  {
    && (forall t :: 0 <= t < i && t < m ==> p.rows[t] == o.rows[t])
    && (forall t :: 0 <= t < i && t < n ==> p.cols[t] == o.cols[t])
  }

  lemma {:induction false} SameBelowInverse(p: Order, o: Order, m: int, n: int, i: int)
    requires p.Valid(m, n) && o.Valid(m, n) && SameBelow(p, o, m, n, i)
    ensures forall r :: 0 <= r < m ==> if o.rinv[r] < i then p.rinv[r] == o.rinv[r] else p.rinv[r] >= i
    ensures forall c :: 0 <= c < n ==> if o.cinv[c] < i then p.cinv[c] == o.cinv[c] else p.cinv[c] >= i
  {
    forall r | 0 <= r < m
      ensures if o.rinv[r] < i then p.rinv[r] == o.rinv[r] else p.rinv[r] >= i
    {
      if o.rinv[r] < i {
        assert p.rows[o.rinv[r]] == r;
      }
    }
    forall c | 0 <= c < n
      ensures if o.cinv[c] < i then p.cinv[c] == o.cinv[c] else p.cinv[c] >= i
    {
      if o.cinv[c] < i {
        assert p.cols[o.cinv[c]] == c;
      }
    }
  }

  lemma {:induction false} ExplainedReorder(l: set<Place>, b: set<Place>, p: seq<int>, q: seq<int>, k: int, r: int, c: int)
    requires k >= 0 && |p| == |q| && forall t :: 0 <= t < k && t < |p| ==> p[t] == q[t]
    ensures Explained(l, b, p, k, r, c) == Explained(l, b, q, k, r, c)
  {
    SumCong(k, t => (r, t) in l && 0 <= t < |p| && (p[t], c) in b, t => (r, t) in l && 0 <= t < |q| && (q[t], c) in b);
  }

  /** Bringing a pivot to position i moves only positions from i on, so the relation is kept. */
  lemma {:induction false} ReorderKeeps(a: set<Place>, b: set<Place>, l: set<Place>, u: set<Place>, o: Order, p: Order, m: int, n: int, i: int, nnf: int)
    requires Invariant(a, b, l, u, o, m, n, i, nnf) && p.Valid(m, n) && SameBelow(p, o, m, n, i)
    ensures Invariant(a, b, l, u, p, m, n, i, nnf)
  {
    hide Explained, ProductEntry;
    SameBelowInverse(p, o, m, n, i);
    forall r, c {:trigger (r, c) in a} | 0 <= r < m && 0 <= c < n
      ensures ((r, c) in a) ==
        if p.cinv[c] < i then ProductEntry(l, u, i, r, c)
        else Explained(l, b, p.rows, Least(i, p.rinv[r]), r, c) != ((r, c) in b)
    {
      ExplainedReorder(l, b, p.rows, o.rows, Least(i, o.rinv[r]), r, c);
    }
  }

  // ----- one elimination step -----

  /** The pivot of step i stands at (rows[i], cols[i]), or B has no one left in the rows from i on. */
  ghost predicate PivotChosen(b: set<Place>, o: Order, m: int, n: int, i: int, found: bool)
    requires o.Valid(m, n) && 0 <= i < n
  {
    if found then i < m && (o.rows[i], o.cols[i]) in b
    else forall r, c :: (r, c) in b && 0 <= r < m ==> o.rinv[r] < i
  }

  /** Rows below the pivot that have a one in its column. */
  ghost predicate Reduced(b: set<Place>, o: Order, m: int, n: int, i: int, r: int)
    requires o.Valid(m, n) && 0 <= i < n
  {
    0 <= r < m && o.rinv[r] > i && (r, o.cols[i]) in b
  }

  /** B after the step: the pivot row is added to the reduced rows, then the column is dropped. */
  ghost predicate Eliminated(b': set<Place>, b: set<Place>, o: Order, m: int, n: int, i: int)
    requires o.Valid(m, n) && 0 <= i < n
  {
    forall r, c {:trigger (r, c) in b'} :: (r, c) in b' <==>
      c != o.cols[i] && ((r, c) in b) != (Reduced(b, o, m, n, i, r) && i < m && (o.rows[i], c) in b)
  }

  /** L gains the part of the pivot column from position i on. */
  ghost predicate ColumnOfL(l': set<Place>, l: set<Place>, b: set<Place>, o: Order, m: int, n: int, i: int)
    requires o.Valid(m, n) && 0 <= i < n
  {
    forall r, t {:trigger (r, t) in l'} :: (r, t) in l' <==>
      (r, t) in l || (t == i && 0 <= r < m && i <= o.rinv[r] && (r, o.cols[i]) in b)
  }

  /** U gains the part of the pivot column up to position i. */
  ghost predicate ColumnOfU(u': set<Place>, u: set<Place>, b: set<Place>, o: Order, m: int, n: int, i: int)
    requires o.Valid(m, n) && 0 <= i < n
  {
    forall t, c {:trigger (t, c) in u'} :: (t, c) in u' <==>
      (t, c) in u || (c == o.cols[i] && 0 <= t <= i && t < m && (o.rows[t], c) in b)
  }

  ghost predicate Step(b: set<Place>, l: set<Place>, u: set<Place>, b': set<Place>, l': set<Place>, u': set<Place>,
      o: Order, m: int, n: int, i: int, found: bool)
    requires o.Valid(m, n) && 0 <= i < n
  {
    && PivotChosen(b, o, m, n, i, found) && Eliminated(b', b, o, m, n, i)
    && ColumnOfL(l', l, b, o, m, n, i) && ColumnOfU(u', u, b, o, m, n, i)
  }

  lemma {:induction false} StepBounds(a: set<Place>, b: set<Place>, l: set<Place>, u: set<Place>, b': set<Place>, l': set<Place>, u': set<Place>,
      o: Order, m: int, n: int, i: int, nnf: int, found: bool)
    requires Invariant(a, b, l, u, o, m, n, i, nnf) && i < n && Step(b, l, u, b', l', u', o, m, n, i, found)
    ensures Bounds(b', l', u', o, m, n, i + 1)
  {
    hide Factored;
  }

  lemma {:induction false} StepDiagonal(a: set<Place>, b: set<Place>, l: set<Place>, u: set<Place>, b': set<Place>, l': set<Place>, u': set<Place>,
      o: Order, m: int, n: int, i: int, nnf: int, found: bool)
    requires Invariant(a, b, l, u, o, m, n, i, nnf) && i < n && Step(b, l, u, b', l', u', o, m, n, i, found)
    ensures Diagonal(b', l', u', o, m, n, i + 1, if found then nnf else nnf + 1)
  {
    hide Factored;
  }

  /** A column that is not finished yet. */
  lemma {:induction false} StepUnfinished(a: set<Place>, b: set<Place>, l: set<Place>, u: set<Place>, b': set<Place>, l': set<Place>, u': set<Place>,
      o: Order, m: int, n: int, i: int, nnf: int, found: bool, r: int, c: int)
    requires Invariant(a, b, l, u, o, m, n, i, nnf) && i < n && Step(b, l, u, b', l', u', o, m, n, i, found)
    requires 0 <= r < m && 0 <= c < n && o.cinv[c] > i
    ensures ((r, c) in a) == (Explained(l', b', o.rows, Least(i + 1, o.rinv[r]), r, c) != ((r, c) in b'))
  {
    var k := Least(i, o.rinv[r]);
    var f := (t: int) => (r, t) in l && 0 <= t < |o.rows| && (o.rows[t], c) in b;
    var f' := (t: int) => (r, t) in l' && 0 <= t < |o.rows| && (o.rows[t], c) in b';
    forall t | 0 <= t < k
      ensures f(t) == f'(t)
    {
      assert !Reduced(b, o, m, n, i, o.rows[t]);
    }
    SumCong(k, f, f');
    assert ((r, c) in a) == (Sum(k, f) != ((r, c) in b));
    if o.rinv[r] > i {
      assert Sum(i + 1, f') == (Sum(i, f') != f'(i));
    }
  }

  /** In the pivot column the new factors repeat what the finished steps explain ... */
  lemma {:induction false} FinishedTerms(a: set<Place>, b: set<Place>, l: set<Place>, u: set<Place>, b': set<Place>, l': set<Place>, u': set<Place>,
      o: Order, m: int, n: int, i: int, nnf: int, found: bool, r: int)
    requires Invariant(a, b, l, u, o, m, n, i, nnf) && i < n && Step(b, l, u, b', l', u', o, m, n, i, found)
    requires 0 <= r < m
    ensures forall t :: 0 <= t < Least(i, o.rinv[r]) ==>
      ((r, t) in l' && (t, o.cols[i]) in u') == ((r, t) in l && t < m && (o.rows[t], o.cols[i]) in b)
    ensures forall t :: o.rinv[r] < t <= i ==> (r, t) !in l'
  {
    hide Factored, Diagonal;
  }

  /** ... and the term at min(i, rinv[r]) adds what is left in B. */
  lemma {:induction false} FinishedLast(a: set<Place>, b: set<Place>, l: set<Place>, u: set<Place>, b': set<Place>, l': set<Place>, u': set<Place>,
      o: Order, m: int, n: int, i: int, nnf: int, found: bool, r: int)
    requires Invariant(a, b, l, u, o, m, n, i, nnf) && i < n && Step(b, l, u, b', l', u', o, m, n, i, found)
    requires 0 <= r < m
    ensures var k := Least(i, o.rinv[r]); ((r, k) in l' && (k, o.cols[i]) in u') == ((r, o.cols[i]) in b)
  {
    hide Factored;
  }

  /** The column that this step finishes. */
  lemma {:induction false} StepFinished(a: set<Place>, b: set<Place>, l: set<Place>, u: set<Place>, b': set<Place>, l': set<Place>, u': set<Place>,
      o: Order, m: int, n: int, i: int, nnf: int, found: bool, r: int)
    requires Invariant(a, b, l, u, o, m, n, i, nnf) && i < n && Step(b, l, u, b', l', u', o, m, n, i, found)
    requires 0 <= r < m
    ensures ((r, o.cols[i]) in a) == ProductEntry(l', u', i + 1, r, o.cols[i])
  {
    hide Step, Bounds, Diagonal;
    var c := o.cols[i];
    var k := Least(i, o.rinv[r]);
    var f := (t: int) => (r, t) in l && 0 <= t < |o.rows| && (o.rows[t], c) in b;
    var g := (t: int) => (r, t) in l' && (t, c) in u';
    FinishedTerms(a, b, l, u, b', l', u', o, m, n, i, nnf, found, r);
    FinishedLast(a, b, l, u, b', l', u', o, m, n, i, nnf, found, r);
    SumCong(k, f, g);
    assert ((r, c) in a) == (Sum(k, f) != ((r, c) in b));
    assert Sum(k + 1, g) == (Sum(k, g) != g(k));
    SumTail(i + 1, k + 1, g);
  }

  /** A column finished before. */
  lemma {:induction false} StepFinishedBefore(a: set<Place>, b: set<Place>, l: set<Place>, u: set<Place>, b': set<Place>, l': set<Place>, u': set<Place>,
      o: Order, m: int, n: int, i: int, nnf: int, found: bool, r: int, c: int)
    requires Invariant(a, b, l, u, o, m, n, i, nnf) && i < n && Step(b, l, u, b', l', u', o, m, n, i, found)
    requires 0 <= r < m && 0 <= c < n && o.cinv[c] < i
    ensures ((r, c) in a) == ProductEntry(l', u', i + 1, r, c)
  {
    var f := (t: int) => (r, t) in l && (t, c) in u;
    var g := (t: int) => (r, t) in l' && (t, c) in u';
    SumCong(i, f, g);
    assert Sum(i + 1, g) == (Sum(i, g) != g(i));
  }

  /** Every step keeps the relation between A, B, L and U. */
  lemma {:induction false} StepKeeps(a: set<Place>, b: set<Place>, l: set<Place>, u: set<Place>, b': set<Place>, l': set<Place>, u': set<Place>,
      o: Order, m: int, n: int, i: int, nnf: int, found: bool)
    requires Invariant(a, b, l, u, o, m, n, i, nnf) && i < n && Step(b, l, u, b', l', u', o, m, n, i, found)
    ensures Invariant(a, b', l', u', o, m, n, i + 1, if found then nnf else nnf + 1)
  {
    hide Explained, ProductEntry, Step, Bounds, Diagonal;
    StepBounds(a, b, l, u, b', l', u', o, m, n, i, nnf, found);
    StepDiagonal(a, b, l, u, b', l', u', o, m, n, i, nnf, found);
    forall r, c {:trigger (r, c) in a} | 0 <= r < m && 0 <= c < n
      ensures ((r, c) in a) ==
        if o.cinv[c] < i + 1 then ProductEntry(l', u', i + 1, r, c)
        else Explained(l', b', o.rows, Least(i + 1, o.rinv[r]), r, c) != ((r, c) in b')
    {
      if o.cinv[c] < i {
        StepFinishedBefore(a, b, l, u, b', l', u', o, m, n, i, nnf, found, r, c);
      } else if o.cinv[c] == i {
        StepFinished(a, b, l, u, b', l', u', o, m, n, i, nnf, found, r);
      } else {
        StepUnfinished(a, b, l, u, b', l', u', o, m, n, i, nnf, found, r, c);
      }
    }
  }

  // ----- the rows that are left when no pivot is found -----

  ghost function Indices(k: nat): (idx: seq<int>)
    ensures |idx| == k && forall t :: 0 <= t < k ==> idx[t] == t
  {
    seq(k, t => t)
  }

  ghost function Coefficients(l: set<Place>, r: int, k: nat): (w: Bits)
    ensures |w| == k && forall t :: 0 <= t < k ==> w[t] == ((r, t) in l)
  {
    seq(k, t requires 0 <= t => (r, t) in l)
  }

  /** The pivot rows of the first k steps: U on the finished columns, B on the others. */
  ghost function Pivots(b: set<Place>, u: set<Place>, o: Order, k: int): set<Place> {
    u + set q | q in b && 0 <= q.0 < |o.rinv| && o.rinv[q.0] < k :: (o.rinv[q.0], q.1)
  }

  lemma {:induction false} PivotsAt(a: set<Place>, b: set<Place>, l: set<Place>, u: set<Place>, o: Order, m: int, n: int, i: int, nnf: int, t: int, c: int)
    requires Invariant(a, b, l, u, o, m, n, i, nnf) && 0 <= t < i - nnf && 0 <= c < n
    ensures (t, c) in Pivots(b, u, o, i - nnf) <==> if o.cinv[c] < i then (t, c) in u else (o.rows[t], c) in b
  {
    hide Factored, Diagonal;
    assert i - nnf <= m by { DiagonalFits(a, b, l, u, o, m, n, i, nnf); }
    if (o.rows[t], c) in b {
      assert (o.rinv[(o.rows[t], c).0], (o.rows[t], c).1) == (t, c);
    }
    if (t, c) in Pivots(b, u, o, i - nnf) && (t, c) !in u {
      var q :| q in b && 0 <= q.0 < |o.rinv| && o.rinv[q.0] < i - nnf && (o.rinv[q.0], q.1) == (t, c);
      assert q == (o.rows[t], c);
    }
  }

  lemma {:induction false} DiagonalFits(a: set<Place>, b: set<Place>, l: set<Place>, u: set<Place>, o: Order, m: int, n: int, i: int, nnf: int)
    requires Invariant(a, b, l, u, o, m, n, i, nnf)
    ensures 0 <= i - nnf <= m
    ensures forall r, t :: (r, t) in l ==> t < i - nnf
    ensures forall t :: 0 <= t < i - nnf ==> (o.rows[t], t) in l
    ensures nnf > 0 ==> forall r, c :: (r, c) in b && 0 <= r < m ==> o.rinv[r] < i - nnf
  {
    hide Factored, Bounds;
  }

  /** One entry of A as a sum over the pivot rows. */
  lemma {:induction false} EntryFromPivots(a: set<Place>, b: set<Place>, l: set<Place>, u: set<Place>, o: Order, m: int, n: int, i: int, nnf: int, r: int, c: int)
    requires Invariant(a, b, l, u, o, m, n, i, nnf) && nnf > 0 && 0 <= r < m && 0 <= c < n
    ensures 0 <= i - nnf
    ensures var k := i - nnf; ((r, c) in a) == Sum(k, Terms(Pivots(b, u, o, k), Indices(k), Coefficients(l, r, k), c))
  {
    hide Diagonal, Pivots, Explained, ProductEntry;
    DiagonalFits(a, b, l, u, o, m, n, i, nnf);
    var k := i - nnf;
    var p := Pivots(b, u, o, k);
    var terms := Terms(p, Indices(k), Coefficients(l, r, k), c);
    forall t | 0 <= t < k
      ensures terms(t) == ((r, t) in l && if o.cinv[c] < i then (t, c) in u else (o.rows[t], c) in b)
    {
      PivotsAt(a, b, l, u, o, m, n, i, nnf, t, c);
    }
    if o.cinv[c] < i {
      FinishedEntry(l, u, i, k, r, c, terms);
    } else {
      BoundsFit(a, b, l, u, o, m, n, i, nnf);
      UnfinishedEntry(l, b, o.rows, i, k, r, o.rinv[r], c, terms);
    }
  }

  lemma {:induction false} BoundsFit(a: set<Place>, b: set<Place>, l: set<Place>, u: set<Place>, o: Order, m: int, n: int, i: int, nnf: int)
    requires Invariant(a, b, l, u, o, m, n, i, nnf)
    ensures forall r, t :: (r, t) in l ==> 0 <= r < m && 0 <= t < i && t <= o.rinv[r]
  {
    hide Factored, Diagonal;
  }

  lemma {:induction false} FinishedEntry(l: set<Place>, u: set<Place>, i: int, k: int, r: int, c: int, terms: int -> bool)
    requires 0 <= k <= i && (forall t :: 0 <= t < k ==> terms(t) == ((r, t) in l && (t, c) in u)) && forall t :: k <= t ==> (r, t) !in l
    ensures ProductEntry(l, u, i, r, c) == Sum(k, terms)
  {
    var g := (t: int) => (r, t) in l && (t, c) in u;
    SumCong(k, terms, g);
    SumTail(i, k, g);
  }

  /** In an unfinished column the row's own rest in B is the term of its own step, or zero. */
  lemma {:induction false} UnfinishedEntry(l: set<Place>, b: set<Place>, rows: seq<int>, i: int, k: int, r: int, x: int, c: int, terms: int -> bool)
    requires 0 <= k <= i && k <= |rows| && 0 <= x < |rows| && rows[x] == r
    requires forall t :: 0 <= t < k ==> terms(t) == ((r, t) in l && (rows[t], c) in b)
    requires forall t :: (r, t) in l ==> 0 <= t < k && t <= x
    requires x < k ==> (r, x) in l
    requires x >= k ==> (r, c) !in b
    ensures (Explained(l, b, rows, Least(i, x), r, c) != ((r, c) in b)) == Sum(k, terms)
  {
    var f := (t: int) => (r, t) in l && 0 <= t < |rows| && (rows[t], c) in b;
    SumCong(k, terms, f);
    SumCong(Least(i, x), t => (r, t) in l && 0 <= t < |rows| && (rows[t], c) in b, f);
    if x < k {
      assert Sum(x + 1, f) == (Sum(x, f) != f(x));
      SumTail(k, x + 1, f);
    } else {
      SumTail(Least(i, x), k, f);
    }
  }

  lemma {:induction false} RowFromPivots(a: set<Place>, b: set<Place>, l: set<Place>, u: set<Place>, o: Order, m: int, n: int, i: int, nnf: int, r: int)
    requires Invariant(a, b, l, u, o, m, n, i, nnf) && nnf > 0 && 0 <= r < m
    ensures 0 <= i - nnf
    ensures var k := i - nnf; Row(a, n, r) == Combine(Pivots(b, u, o, k), n, Indices(k), Coefficients(l, r, k))
  {
    hide Factored, Bounds, Diagonal, Pivots, Combine, Terms;
    DiagonalFits(a, b, l, u, o, m, n, i, nnf);
    var k := i - nnf;
    var v := Combine(Pivots(b, u, o, k), n, Indices(k), Coefficients(l, r, k));
    forall c | 0 <= c < n
      ensures Row(a, n, r)[c] == v[c]
    {
      EntryFromPivots(a, b, l, u, o, m, n, i, nnf, r, c);
      CombineAt(Pivots(b, u, o, k), n, Indices(k), Coefficients(l, r, k), c);
    }
  }

  lemma {:induction false} XorSolve(x: Bits, y: Bits, z: Bits)
    requires |y| == |z| && x == Xor(y, z)
    ensures z == Xor(x, y)
  {
  }

  /** Every pivot row is a sum of chosen rows of A. */
  lemma {:induction false} PivotSpanned(a: set<Place>, b: set<Place>, l: set<Place>, u: set<Place>, o: Order, m: int, n: int, i: int, nnf: int, j: nat)
    requires Invariant(a, b, l, u, o, m, n, i, nnf) && nnf > 0 && j < i - nnf
    ensures i - nnf <= |o.rows| && Spans(a, n, o.rows, i - nnf, Row(Pivots(b, u, o, i - nnf), n, j))
    decreases j
  {
    hide Factored, Diagonal, Bounds, Pivots, Combine, Spans, Row, Xor;
    DiagonalFits(a, b, l, u, o, m, n, i, nnf);
    var k := i - nnf;
    var p, idx, r := Pivots(b, u, o, k), Indices(k), o.rows[j];
    var w := Coefficients(l, r, k);
    forall t | 0 <= t < j
      ensures Spans(a, n, o.rows, k, Row(p, n, idx[t]))
    {
      PivotSpanned(a, b, l, u, o, m, n, i, nnf, t);
    }
    SpanCombine(a, n, o.rows, k, p, idx, w[..j]);
    SpanRow(a, n, o.rows, k, j);
    SpanXor(a, n, o.rows, k, Row(a, n, r), Combine(p, n, idx, w[..j]));
    RowFromPivots(a, b, l, u, o, m, n, i, nnf, r);
    LowerRow(a, b, l, u, o, m, n, i, nnf, j);
    CombineTail(p, n, idx, w, j + 1);
    CombineLast(p, n, idx, w[..j + 1]);
    assert w[..j + 1][..j] == w[..j];
    XorSolve(Row(a, n, r), Combine(p, n, idx, w[..j]), Row(p, n, j));
  }

  lemma {:induction false} LowerRow(a: set<Place>, b: set<Place>, l: set<Place>, u: set<Place>, o: Order, m: int, n: int, i: int, nnf: int, j: nat)
    requires Invariant(a, b, l, u, o, m, n, i, nnf) && j < i - nnf
    ensures 0 <= i - nnf <= m && var w := Coefficients(l, o.rows[j], i - nnf); w[j] && forall t :: j < t < |w| ==> !w[t]
  {
    hide Factored;
  }

  lemma {:induction false} CombineLast(p: set<Place>, n: int, idx: seq<int>, w: Bits)
    requires n >= 0 && 0 < |w| <= |idx| && w[|w| - 1]
    ensures Combine(p, n, idx, w) == Xor(Combine(p, n, idx, w[..|w| - 1]), Row(p, n, idx[|w| - 1]))
  {
    hide Xor, Row;
  }

  /** When a pivot was missing, the rows chosen before span all rows of A. */
  lemma {:induction false} RowsSpanned(a: set<Place>, b: set<Place>, l: set<Place>, u: set<Place>, o: Order, m: int, n: int, i: int, nnf: int, r: int)
    requires Invariant(a, b, l, u, o, m, n, i, nnf) && nnf > 0 && 0 <= r < m
    ensures 0 <= i - nnf <= |o.rows| && Spans(a, n, o.rows, i - nnf, Row(a, n, r))
  {
    hide Factored, Diagonal, Bounds, Pivots, Combine, Spans, Row;
    DiagonalFits(a, b, l, u, o, m, n, i, nnf);
    var k := i - nnf;
    var p, idx := Pivots(b, u, o, k), Indices(k);
    forall t | 0 <= t < k
      ensures Spans(a, n, o.rows, k, Row(p, n, idx[t]))
    {
      PivotSpanned(a, b, l, u, o, m, n, i, nnf, t);
    }
    SpanCombine(a, n, o.rows, k, p, idx, Coefficients(l, r, k));
    RowFromPivots(a, b, l, u, o, m, n, i, nnf, r);
  }

  // ----- the finished decomposition -----

  /** L is lower and U upper triangular after reordering, exactly the last nnf diagonal places are
      empty, and the product is A on the chosen K rows and columns.  If a pivot was missing, every row
      of A is a sum of the rows chosen before. */
  ghost predicate Decomposed(a: set<Place>, l: set<Place>, u: set<Place>, o: Order, m: int, n: int, k: int, nnf: int) {
    && o.Valid(m, n) && 0 <= k <= n && 0 <= nnf <= k && k - nnf <= m
    && (forall r, t :: (r, t) in l ==> 0 <= r < m && o.rinv[r] < k && 0 <= t < k && t <= o.rinv[r])
    && (forall t, c :: (t, c) in u ==> 0 <= c < n && o.cinv[c] < k && 0 <= t <= o.cinv[c])
    && (forall t :: 0 <= t < k && t < m ==> ((o.rows[t], t) in l <==> t < k - nnf))
    && (forall t :: 0 <= t < k ==> ((t, o.cols[t]) in u <==> t < k - nnf))
    && (forall r, c {:trigger (r, c) in a} :: 0 <= r < m && o.rinv[r] < k && 0 <= c < n && o.cinv[c] < k ==>
        ((r, c) in a) == ProductEntry(l, u, k, r, c))
    && (nnf > 0 ==> forall r :: 0 <= r < m ==> Spans(a, n, o.rows, k - nnf, Row(a, n, r)))
  }

  /** The rows of L past K are dropped at the end. */
  lemma {:induction false} Finish(a: set<Place>, b: set<Place>, l: set<Place>, u: set<Place>, l': set<Place>, o: Order, m: int, n: int, k: int, nnf: int)
    requires Invariant(a, b, l, u, o, m, n, k, nnf)
    requires forall r, t :: (r, t) in l' <==> (r, t) in l && 0 <= r < m && o.rinv[r] < k
    ensures Decomposed(a, l', u, o, m, n, k, nnf)
  {
    forall r, c {:trigger (r, c) in a} | 0 <= r < m && o.rinv[r] < k && 0 <= c < n && o.cinv[c] < k
      ensures ((r, c) in a) == ProductEntry(l', u, k, r, c)
    {
      SumCong(k, t => (r, t) in l && (t, c) in u, t => (r, t) in l' && (t, c) in u);
    }
    if nnf > 0 {
      forall r | 0 <= r < m
        ensures Spans(a, n, o.rows, k - nnf, Row(a, n, r))
      {
        RowsSpanned(a, b, l, u, o, m, n, k, nnf, r);
      }
    }
  }

  /** Row r of A times z, over the columns before position k. */
  ghost function ChosenDot(a: set<Place>, cinv: seq<int>, n: int, k: int, z: Bits, r: int): bool
    requires n >= 0
  {
    Sum(n, c => 0 <= c < n && c < |cinv| && cinv[c] < k && (r, c) in a && c < |z| && z[c])
  }

  /** Solving with L and then with U solves the chosen K equations of A. */
  lemma {:induction false} SolutionOfProduct(a: set<Place>, l: set<Place>, u: set<Place>, o: Order, m: int, n: int, k: int, nnf: int,
      x: Bits, y: Bits, z: Bits, r: int)
    requires Decomposed(a, l, u, o, m, n, k, nnf) && |x| == m && |y| == k && |z| == n
    requires 0 <= r < m && o.rinv[r] < k
    requires RowDot(l, k, y, r) == x[r]
    requires forall t :: 0 <= t < k ==> RowDot(u, n, z, t) == y[t]
    ensures ChosenDot(a, o.cinv, n, k, z, r) == x[r]
  {
    var f := (t: int, c: int) => (r, t) in l && (t, c) in u && 0 <= c < n && z[c];
    var byRow := (t: int) => Sum(n, c => f(t, c));
    var byCol := (c: int) => Sum(k, t => f(t, c));
    forall t | 0 <= t < k
      ensures ((r, t) in l && y[t]) == byRow(t)
    {
      SumScale(n, (r, t) in l, c => (t, c) in u && 0 <= c < n && z[c], c => f(t, c));
    }
    SumCong(k, t => (r, t) in l && 0 <= t < k && y[t], byRow);
    SumSwap(k, n, f);
    forall c | 0 <= c < n
      ensures (o.cinv[c] < k && (r, c) in a && z[c]) == byCol(c)
    {
      SumScale(k, z[c], t => (r, t) in l && (t, c) in u, t => f(t, c));
      if o.cinv[c] >= k {
        SumZero(k, t => (r, t) in l && (t, c) in u);
      }
    }
    SumCong(n, c => 0 <= c < n && c < |o.cinv| && o.cinv[c] < k && (r, c) in a && c < |z| && z[c], byCol);
  }

  // ----- the rank -----

  /** The sum over the chosen rows of w[t] L[rows[t], s]. */
  ghost function Folded(l: set<Place>, rows: seq<int>, w: Bits, s: int): bool {
    Sum(|w|, t => 0 <= t < |w| && t < |rows| && w[t] && (rows[t], s) in l)
  }

  /** A combination of chosen rows, at a chosen column, read off L and U. */
  lemma {:induction false} CombinationAt(a: set<Place>, l: set<Place>, u: set<Place>, o: Order, m: int, n: int, k: int, nnf: int, w: Bits, c: int)
    requires Decomposed(a, l, u, o, m, n, k, nnf) && |w| == k - nnf && 0 <= c < n && o.cinv[c] < k
    ensures Combine(a, n, o.rows, w)[c] == Sum(k, s => Folded(l, o.rows, w, s) && (s, c) in u)
  {
    hide Combine;
    var d := |w|;
    var f := (t: int, s: int) => 0 <= t < d && w[t] && (o.rows[t], s) in l && (s, c) in u;
    var byRow := (t: int) => Sum(k, s => f(t, s));
    var byStep := (s: int) => Sum(d, t => f(t, s));
    CombineAt(a, n, o.rows, w, c);
    forall t | 0 <= t < d
      ensures Terms(a, o.rows, w, c)(t) == byRow(t)
    {
      SumScale(k, w[t], s => (o.rows[t], s) in l && (s, c) in u, s => f(t, s));
      assert ((o.rows[t], c) in a) == ProductEntry(l, u, k, o.rows[t], c);
    }
    SumCong(d, Terms(a, o.rows, w, c), byRow);
    SumSwap(d, k, f);
    forall s | 0 <= s < k
      ensures (Folded(l, o.rows, w, s) && (s, c) in u) == byStep(s)
    {
      SumScale(d, (s, c) in u, t => 0 <= t < |w| && t < |o.rows| && w[t] && (o.rows[t], s) in l, t => f(t, s));
    }
    SumCong(k, s => Folded(l, o.rows, w, s) && (s, c) in u, byStep);
  }

  /** At the last chosen row of a combination L has a one and nothing else contributes. */
  lemma {:induction false} FoldedLast(a: set<Place>, l: set<Place>, u: set<Place>, o: Order, m: int, n: int, k: int, nnf: int, w: Bits, j: int)
    requires Decomposed(a, l, u, o, m, n, k, nnf) && |w| == k - nnf && 0 <= j < |w| && w[j] && forall t :: j < t < |w| ==> !w[t]
    ensures Folded(l, o.rows, w, j)
  {
    SumSingle(|w|, j, t => 0 <= t < |w| && t < |o.rows| && w[t] && (o.rows[t], j) in l);
  }

  /** The pivot rows are linearly independent: with RowsSpanned, k - nnf is the rank of A when a pivot was missing. */
  lemma {:induction false} ChosenIndependent(a: set<Place>, l: set<Place>, u: set<Place>, o: Order, m: int, n: int, k: int, nnf: int)
    requires Decomposed(a, l, u, o, m, n, k, nnf)
    ensures 0 <= k - nnf <= |o.rows| && Independent(a, n, o.rows, k - nnf)
  {
    hide Combine, Folded;
    forall w: Bits | |w| == k - nnf && IsZero(Combine(a, n, o.rows, w))
      ensures IsZero(w)
    {
      if !IsZero(w) {
        var j := LastOne(w);
        FoldedLast(a, l, u, o, m, n, k, nnf, w, j);
        var i := FirstFolded(l, o.rows, w, j);
        var c := o.cols[i];
        CombinationAt(a, l, u, o, m, n, k, nnf, w, c);
        SumSingle(k, i, s => Folded(l, o.rows, w, s) && (s, c) in u);
      }
    }
  }

  lemma {:induction false} LastOne(w: Bits) returns (j: int)
    requires !IsZero(w)
    ensures 0 <= j < |w| && w[j] && forall t :: j < t < |w| ==> !w[t]
    decreases |w|
  {
    j := |w| - 1;
    if !w[j] {
      j := LastOne(w[..j]);
    }
  }

  lemma {:induction false} FirstFolded(l: set<Place>, rows: seq<int>, w: Bits, j: int) returns (i: int)
    requires j >= 0 && Folded(l, rows, w, j)
    ensures 0 <= i <= j && Folded(l, rows, w, i) && forall s :: 0 <= s < i ==> !Folded(l, rows, w, s)
  {
    hide Folded;
    i := 0;
    while !Folded(l, rows, w, i)
      invariant 0 <= i <= j && forall s :: 0 <= s < i ==> !Folded(l, rows, w, s)
      decreases j - i
    {
      i := i + 1;
    }
  }
}
