/** Sums over GF(2) and the algebra of 0/1 matrices given as the set of their ones. */
module Gf2 {
  import opened BitStrings

  type Place = (int, int)

  ghost function Least(a: int, b: int): int {
    if a < b then a else b
  }

  /** f(0) + ... + f(n - 1) modulo 2. */
  ghost function Sum(n: int, f: int -> bool): bool
    requires n >= 0
    decreases n
  {
    if n == 0 then false else Sum(n - 1, f) != f(n - 1)
  }

  lemma {:induction false} SumCong(n: int, f: int -> bool, g: int -> bool)
    requires n >= 0 && forall i :: 0 <= i < n ==> f(i) == g(i)
    ensures Sum(n, f) == Sum(n, g)
    decreases n
  {
    if n > 0 {
      SumCong(n - 1, f, g);
    }
  }

  lemma {:induction false} SumZero(n: int, f: int -> bool)
    requires n >= 0 && forall i :: 0 <= i < n ==> !f(i)
    ensures !Sum(n, f)
    decreases n
  {
    if n > 0 {
      SumZero(n - 1, f);
    }
  }

  lemma {:induction false} SumAdd(n: int, f: int -> bool, g: int -> bool, h: int -> bool)
    requires n >= 0 && forall i :: 0 <= i < n ==> h(i) == (f(i) != g(i))
    ensures Sum(n, h) == (Sum(n, f) != Sum(n, g))
    decreases n
  {
    if n > 0 {
      SumAdd(n - 1, f, g, h);
    }
  }

  lemma {:induction false} SumScale(n: int, b: bool, f: int -> bool, h: int -> bool)
    requires n >= 0 && forall i :: 0 <= i < n ==> h(i) == (b && f(i))
    ensures Sum(n, h) == (b && Sum(n, f))
    decreases n
  {
    if n > 0 {
      SumScale(n - 1, b, f, h);
    }
  }

  /** Terms from k on are zero. */
  lemma {:induction false} SumTail(n: int, k: int, f: int -> bool)
    requires 0 <= k <= n && forall i :: k <= i < n ==> !f(i)
    ensures Sum(n, f) == Sum(k, f)
    decreases n
  {
    if n > k {
      SumTail(n - 1, k, f);
    }
  }

  /** Only term k can be one. */
  lemma {:induction false} SumSingle(n: int, k: int, f: int -> bool)
    requires 0 <= k < n && forall i :: 0 <= i < n && i != k ==> !f(i)
    ensures Sum(n, f) == f(k)
    decreases n
  {
    if n - 1 == k {
      SumZero(n - 1, f);
    } else {
      SumSingle(n - 1, k, f);
    }
  }

  /** Term k apart from the others. */
  lemma {:induction false} SumApart(n: int, k: int, f: int -> bool, g: int -> bool)
    requires 0 <= k < n && !g(k) && forall i :: 0 <= i < n && i != k ==> f(i) == g(i)
    ensures Sum(n, f) == (Sum(n, g) != f(k))
  {
    var h := (i: int) => i == k && f(k);
    SumSingle(n, k, h);
    SumAdd(n, g, h, f);
  }

  lemma {:induction false} SumSwap(n: int, m: int, f: (int, int) -> bool)
    requires n >= 0 && m >= 0
    ensures Sum(n, i => Sum(m, j => f(i, j))) == Sum(m, j => Sum(n, i => f(i, j)))
    decreases n
  {
    var rows := (i: int) => Sum(m, j => f(i, j));
    var cols := (j: int) => Sum(n, i => f(i, j));
    if n == 0 {
      SumZero(m, cols);
    } else {
      SumSwap(n - 1, m, f);
      var less := (j: int) => Sum(n - 1, i => f(i, j));
      var last := (j: int) => f(n - 1, j);
      forall j | 0 <= j < m
        ensures cols(j) == (less(j) != last(j))
      {
        assert cols(j) == (Sum(n - 1, i => f(i, j)) != f(n - 1, j));
      }
      SumAdd(m, less, last, cols);
    }
  }

  // ----- matrices and vectors -----

  lemma {:induction false} SameOnes(a: set<Place>, b: set<Place>)
    requires forall r, c :: (r, c) in a <==> (r, c) in b
    ensures a == b
  {
    forall p | p in a
      ensures p in b
    {
      var (r, c) := p;
      assert (r, c) in a;
    }
    forall p | p in b
      ensures p in a
    {
      var (r, c) := p;
      assert (r, c) in b;
    }
  }

  /** Component i of the product of an m by n matrix and a vector. */
  ghost function RowDot(s: set<Place>, n: int, u: Bits, i: int): bool
    requires |u| == n
  {
    Sum(n, j => (i, j) in s && 0 <= j < n && u[j])
  }

  ghost function Times(s: set<Place>, m: int, n: int, u: Bits): (v: Bits)
    requires m >= 0 && |u| == n
    ensures |v| == m && forall i :: 0 <= i < m ==> v[i] == RowDot(s, n, u, i)
  {
    seq(m, i => RowDot(s, n, u, i))
  }

  /** Multiplication by a matrix is linear. */
  lemma {:induction false} TimesXor(s: set<Place>, m: int, n: int, u: Bits, v: Bits)
    requires m >= 0 && n >= 0 && |u| == |v| == n
    ensures Times(s, m, n, Xor(u, v)) == Xor(Times(s, m, n, u), Times(s, m, n, v))
  {
    hide Xor, RowDot;
    XorIndex(Times(s, m, n, u), Times(s, m, n, v));
    forall i | 0 <= i < m
      ensures Times(s, m, n, Xor(u, v))[i] == Xor(Times(s, m, n, u), Times(s, m, n, v))[i]
    {
      RowDotXor(s, n, u, v, i);
    }
  }

  lemma {:induction false} RowDotXor(s: set<Place>, n: int, u: Bits, v: Bits, i: int)
    requires n >= 0 && |u| == |v| == n
    ensures RowDot(s, n, Xor(u, v), i) == (RowDot(s, n, u, i) != RowDot(s, n, v, i))
  {
    hide Xor;
    XorIndex(u, v);
    SumAdd(n, j => (i, j) in s && 0 <= j < |u| && u[j], j => (i, j) in s && 0 <= j < |v| && v[j],
           j => (i, j) in s && 0 <= j < |Xor(u, v)| && Xor(u, v)[j]);
  }

  /** Entry (i, j) of the product of two matrices that share the dimension k. */
  ghost function ProductEntry(s: set<Place>, t: set<Place>, k: int, i: int, j: int): bool
    requires k >= 0
  {
    Sum(k, x => (i, x) in s && (x, j) in t)
  }

  ghost function MatMul(s: set<Place>, t: set<Place>, m: int, k: int, n: int): set<Place>
    requires k >= 0
  {
    set i, j | 0 <= i < m && 0 <= j < n && ProductEntry(s, t, k, i, j) :: (i, j)
  }

  /** Multiplying by a product is multiplying twice. */
  lemma {:induction false} TimesMatMul(s: set<Place>, t: set<Place>, m: int, k: int, n: int, u: Bits)
    requires m >= 0 && k >= 0 && |u| == n
    ensures Times(MatMul(s, t, m, k, n), m, n, u) == Times(s, m, k, Times(t, k, n, u))
  {
    forall i | 0 <= i < m
      ensures RowDot(MatMul(s, t, m, k, n), n, u, i) == RowDot(s, k, Times(t, k, n, u), i)
    {
      RowDotMatMul(s, t, m, k, n, u, i);
    }
  }

  lemma {:induction false} RowDotMatMul(s: set<Place>, t: set<Place>, m: int, k: int, n: int, u: Bits, i: int)
    requires 0 <= i < m && k >= 0 && |u| == n
    ensures RowDot(MatMul(s, t, m, k, n), n, u, i) == RowDot(s, k, Times(t, k, n, u), i)
  {
    var f := (j: int, x: int) => (i, x) in s && (x, j) in t && 0 <= j < n && u[j];
    var st := MatMul(s, t, m, k, n);
    var lhs := (j: int) => (i, j) in st && 0 <= j < n && u[j];
    var lhs' := (j: int) => Sum(k, x => f(j, x));
    forall j | 0 <= j < n
      ensures lhs(j) == lhs'(j)
    {
      assert (i, j) in st <==> ProductEntry(s, t, k, i, j);
      SumScale(k, u[j], x => (i, x) in s && (x, j) in t, x => f(j, x));
    }
    SumCong(n, lhs, lhs');
    SumSwap(n, k, f);
    var w := Times(t, k, n, u);
    var rhs := (x: int) => (i, x) in s && 0 <= x < k && w[x];
    var rhs' := (x: int) => Sum(n, j => f(j, x));
    forall x | 0 <= x < k
      ensures rhs(x) == rhs'(x)
    {
      SumScale(n, (i, x) in s, j => (x, j) in t && 0 <= j < n && u[j], j => f(j, x));
    }
    SumCong(k, rhs, rhs');
  }
}
