/** Linear combinations of the rows of a 0/1 matrix. */
module RowSpan {
  import opened BitStrings
  import opened Gf2

  ghost function Row(s: set<Place>, n: int, r: int): (v: Bits)
    requires n >= 0
    ensures |v| == n && forall c :: 0 <= c < n ==> v[c] == ((r, c) in s)
  {
    seq(n, c requires 0 <= c < n => (r, c) in s)
  }

  /** The sum of the rows idx[t] for which w[t] is one. */
  ghost function Combine(s: set<Place>, n: int, idx: seq<int>, w: Bits): (v: Bits)
    requires n >= 0 && |w| <= |idx|
    ensures |v| == n
    decreases |w|
  {
    if w == [] then Zeros(n)
    else
      var k := |w| - 1;
      Xor(Combine(s, n, idx, w[..k]), if w[k] then Row(s, n, idx[k]) else Zeros(n))
  }

  /** The terms of one component of a combination. */
  ghost function Terms(s: set<Place>, idx: seq<int>, w: Bits, c: int): int -> bool {
    t => 0 <= t < |w| && t < |idx| && w[t] && (idx[t], c) in s
  }

  lemma {:induction false} CombineAt(s: set<Place>, n: int, idx: seq<int>, w: Bits, c: int)
    requires |w| <= |idx| && 0 <= c < n
    ensures Combine(s, n, idx, w)[c] == Sum(|w|, Terms(s, idx, w, c))
    decreases |w|
  {
    if w != [] {
      var k := |w| - 1;
      CombineAt(s, n, idx, w[..k], c);
      SumCong(k, Terms(s, idx, w[..k], c), Terms(s, idx, w, c));
      XorIndex(Combine(s, n, idx, w[..k]), if w[k] then Row(s, n, idx[k]) else Zeros(n));
    }
  }

  lemma {:induction false} Scaled(r: Bits, a: bool, b: bool)
    ensures (if a != b then r else Zeros(|r|)) == Xor(if a then r else Zeros(|r|), if b then r else Zeros(|r|))
  {
  }

  /** Adding the coefficients adds the combinations. */
  lemma {:induction false} CombineXor(s: set<Place>, n: int, idx: seq<int>, v: Bits, w: Bits)
    requires n >= 0 && |v| == |w| <= |idx|
    ensures Combine(s, n, idx, Xor(v, w)) == Xor(Combine(s, n, idx, v), Combine(s, n, idx, w))
    decreases |v|
  {
    hide Row, Xor, Zeros;
    if v == [] {
      XorZero(Zeros(n));
      assert Xor(v, w) == [];
    } else {
      var k := |v| - 1;
      var row := Row(s, n, idx[k]);
      CombineXor(s, n, idx, v[..k], w[..k]);
      XorPrefix(v, w, k);
      XorIndex(v, w);
      Scaled(row, v[k], w[k]);
      XorExchange(Combine(s, n, idx, v[..k]), Combine(s, n, idx, w[..k]),
                  if v[k] then row else Zeros(n), if w[k] then row else Zeros(n));
    }
  }

  /** v is a sum of some of the first k rows of the list. */
  ghost predicate Spans(s: set<Place>, n: int, idx: seq<int>, k: nat, v: Bits)
    requires n >= 0 && k <= |idx|
  {
    exists w: Bits :: |w| == k && Combine(s, n, idx, w) == v
  }

  lemma {:induction false} CombineZeros(s: set<Place>, n: int, idx: seq<int>, k: nat)
    requires n >= 0 && k <= |idx|
    ensures Combine(s, n, idx, Zeros(k)) == Zeros(n)
    decreases k
  {
    hide Xor;
    if k > 0 {
      CombineZeros(s, n, idx, k - 1);
      ZerosSucc(k - 1);
      XorZero(Zeros(n));
    }
  }

  lemma {:induction false} SpanZero(s: set<Place>, n: int, idx: seq<int>, k: nat)
    requires n >= 0 && k <= |idx|
    ensures Spans(s, n, idx, k, Zeros(n))
  {
    CombineZeros(s, n, idx, k);
  }

  lemma {:induction false} SpanXor(s: set<Place>, n: int, idx: seq<int>, k: nat, x: Bits, y: Bits)
    requires n >= 0 && k <= |idx| && Spans(s, n, idx, k, x) && Spans(s, n, idx, k, y)
    ensures |x| == |y| == n && Spans(s, n, idx, k, Xor(x, y))
  {
    hide Combine, Xor;
    var v: Bits :| |v| == k && Combine(s, n, idx, v) == x;
    var w: Bits :| |w| == k && Combine(s, n, idx, w) == y;
    CombineXor(s, n, idx, v, w);
  }

  lemma {:induction false} SpanMore(s: set<Place>, n: int, idx: seq<int>, k: nat, v: Bits)
    requires n >= 0 && k < |idx| && Spans(s, n, idx, k, v)
    ensures Spans(s, n, idx, k + 1, v)
  {
    var w: Bits :| |w| == k && Combine(s, n, idx, w) == v;
    assert (w + [false])[..k] == w;
    XorZero(v);
    assert Combine(s, n, idx, w + [false]) == v;
  }

  /** Each of the rows is in the span. */
  lemma {:induction false} SpanRow(s: set<Place>, n: int, idx: seq<int>, k: nat, j: nat)
    requires n >= 0 && j < k <= |idx|
    ensures Spans(s, n, idx, k, Row(s, n, idx[j]))
    decreases k
  {
    var row := Row(s, n, idx[j]);
    if j == k - 1 {
      CombineZeros(s, n, idx, j);
      assert (Zeros(j) + [true])[..j] == Zeros(j);
      XorZero(row);
      assert Combine(s, n, idx, Zeros(j) + [true]) == row;
    } else {
      SpanRow(s, n, idx, k - 1, j);
      SpanMore(s, n, idx, k - 1, row);
    }
  }

  /** A combination of rows that are all in the span is in the span. */
  lemma {:induction false} SpanCombine(s: set<Place>, n: int, idx: seq<int>, k: nat, p: set<Place>, pidx: seq<int>, w: Bits)
    requires n >= 0 && k <= |idx| && |w| <= |pidx|
    requires forall t :: 0 <= t < |w| ==> Spans(s, n, idx, k, Row(p, n, pidx[t]))
    ensures Spans(s, n, idx, k, Combine(p, n, pidx, w))
    decreases |w|
  {
    hide Spans, Row, Xor;
    SpanZero(s, n, idx, k);
    if w != [] {
      var j := |w| - 1;
      SpanCombine(s, n, idx, k, p, pidx, w[..j]);
      SpanXor(s, n, idx, k, Combine(p, n, pidx, w[..j]), if w[j] then Row(p, n, pidx[j]) else Zeros(n));
    }
  }

  /** No sum of some of the first k rows, but the empty one, is zero. */
  ghost predicate Independent(s: set<Place>, n: int, idx: seq<int>, k: nat)
    requires n >= 0 && k <= |idx|
  {
    forall w: Bits :: |w| == k && IsZero(Combine(s, n, idx, w)) ==> IsZero(w)
  }

  /** Coefficients that are zero from j on can be left off. */
  lemma {:induction false} CombineTail(s: set<Place>, n: int, idx: seq<int>, w: Bits, j: nat)
    requires n >= 0 && j <= |w| <= |idx| && forall t :: j <= t < |w| ==> !w[t]
    ensures Combine(s, n, idx, w) == Combine(s, n, idx, w[..j])
    decreases |w|
  {
    hide Xor;
    if j == |w| {
      assert w[..j] == w;
    } else {
      var k := |w| - 1;
      CombineTail(s, n, idx, w[..k], j);
      assert w[..k][..j] == w[..j];
      XorZero(Combine(s, n, idx, w[..k]));
    }
  }
}
