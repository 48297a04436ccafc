/** encode_LDPC_AFS_SF2 and encode_LDPC_AFS_SF3: p1 = B_Inv A s, p2 = C s + D p1, then puncturing. */
module LdpcEncoder {
  import opened BitStrings
  import opened Gf2
  import opened SparseMatrix
  import opened SparseOps
  import LdpcTables

  /** The index tables of one code: A is p by k, B_Inv p by p, C q by k and D q by p, with p = 4 z. */
  datatype Code = Code(k: int, z: int, q: int, a: seq<Place>, bInv: seq<Place>, c: seq<Place>, d: seq<Place>, b: LdpcTables.Table) {
    function P(): int {
      4 * z
    }

    /** Indices in range, and the B_Inv table is the inverse of the block matrix b. */
    ghost predicate Valid() {
      && k > 0 && z >= 2 && q > 0
      && Fits(a, P(), k) && Fits(bInv, P(), P()) && Fits(c, q, k) && Fits(d, q, P())
      && (b == LdpcTables.Sf2B || b == LdpcTables.Sf3B)
      && Listed(bInv) == LdpcTables.Ones(LdpcTables.Inverse(b.p), z)
    }
  }

  ghost predicate Fits(ind: seq<Place>, m: int, n: int) {
    forall x :: 0 <= x < |ind| ==> 0 <= ind[x].0 < m && 0 <= ind[x].1 < n
  }

  ghost function Listed(ind: seq<Place>): set<Place> {
    set p | p in ind
  }

  // ----- the parity equations -----

  ghost function P1(code: Code, s: Bits): (p1: Bits)
    requires code.Valid() && |s| == code.k
    ensures |p1| == code.P()
  {
    Times(Listed(code.bInv), code.P(), code.P(), Times(Listed(code.a), code.P(), code.k, s))
  }

  ghost function P2(code: Code, s: Bits, p1: Bits): (p2: Bits)
    requires code.Valid() && |s| == code.k && |p1| == code.P()
    ensures |p2| == code.q
  {
    Xor(Times(Listed(code.c), code.q, code.k, s), Times(Listed(code.d), code.q, code.P(), p1))
  }

  /** A s + B p1 = 0 and C s + D p1 + p2 = 0: (s, p1, p2) is a codeword. */
  ghost predicate Codeword(code: Code, s: Bits, p1: Bits, p2: Bits)
    requires code.Valid() && |s| == code.k && |p1| == code.P() && |p2| == code.q
  {
    && IsZero(Xor(Times(Listed(code.a), code.P(), code.k, s), Times(LdpcTables.Ones(code.b, code.z), code.P(), code.P(), p1)))
    && IsZero(Xor(P2(code, s, p1), p2))
  }

  /** B B_Inv = B_Inv B = I, acting on vectors. */
  lemma {:induction false} InverseOfB(code: Code, u: Bits)
    requires code.Valid() && |u| == code.P()
    ensures Times(LdpcTables.Ones(code.b, code.z), code.P(), code.P(), Times(Listed(code.bInv), code.P(), code.P(), u)) == u
    ensures Times(Listed(code.bInv), code.P(), code.P(), Times(LdpcTables.Ones(code.b, code.z), code.P(), code.P(), u)) == u
  {
    hide Times, LdpcTables.Ones, Fits;
    LdpcTables.BlocksTimesInverse(code.b.p, u, code.z);
    LdpcTables.InverseTimesBlocks(code.b.p, u, code.z);
  }

  lemma {:induction false} ZeroSum(u: Bits, v: Bits)
    requires |u| == |v|
    ensures IsZero(Xor(u, v)) <==> v == u
  {
    XorIndex(u, v);
    if IsZero(Xor(u, v)) {
      forall i | 0 <= i < |u|
        ensures u[i] == v[i]
      {
        assert !Xor(u, v)[i];
      }
    }
  }

  /** For every s the computed parities complete a codeword, and nothing else does. */
  lemma {:induction false} EncodingIsTheCodeword(code: Code, s: Bits, p1: Bits, p2: Bits)
    requires code.Valid() && |s| == code.k && |p1| == code.P() && |p2| == code.q
    ensures Codeword(code, s, p1, p2) <==> p1 == P1(code, s) && p2 == P2(code, s, p1)
  {
    hide Times, LdpcTables.Ones, Fits, IsZero, Listed;
    var as_ := Times(Listed(code.a), code.P(), code.k, s);
    ZeroSum(as_, Times(LdpcTables.Ones(code.b, code.z), code.P(), code.P(), p1));
    ZeroSum(P2(code, s, p1), p2);
    InverseOfB(code, as_);
    InverseOfB(code, p1);
  }

  // ----- the cached matrices -----

  /** The fill loop: one insert per table entry. */
  method Build(ind: seq<Place>, m: int, n: int) returns (mat: Mod2Sparse)
    requires m > 0 && n > 0 && Fits(ind, m, n)
    ensures fresh(mat.Repr) && Stores(mat, ind, m, n)
  {
    hide Placed, Headed, Within, RowsLinked, ColsLinked;
    mat := new Mod2Sparse(m, n);
    for i := 0 to |ind|
      invariant mat.Valid() && fresh(mat.Repr) && mat.nRows == m && mat.nCols == n
      invariant mat.ones == Listed(ind[..i])
    {
      var ne := mat.Insert(ind[i].0, ind[i].1);
      assert ind[..i + 1] == ind[..i] + [ind[i]];
      assert (ind[i].0, ind[i].1) == ind[i];
    }
    assert ind[..|ind|] == ind;
  }

  ghost predicate Stores(mat: Mod2Sparse, ind: seq<Place>, m: int, n: int)
    reads mat, mat.Repr
  {
    mat.Valid() && mat.ones == Listed(ind) && mat.nRows == m && mat.nCols == n
  }

  /** A static pointer that is null until its matrix has been built. */
  method Cached(cache: Mod2Sparse?, ind: seq<Place>, m: int, n: int) returns (mat: Mod2Sparse)
    requires m > 0 && n > 0 && Fits(ind, m, n) && (cache != null ==> Stores(cache, ind, m, n))
    ensures Stores(mat, ind, m, n) && (cache != null ==> mat == cache)
  {
    if cache != null {
      mat := cache;
    } else {
      mat := Build(ind, m, n);
    }
  }

  /** The four static pointers of one code. */
  datatype Caches = Caches(a: Mod2Sparse?, bInv: Mod2Sparse?, c: Mod2Sparse?, d: Mod2Sparse?)

  ghost function Owned(mat: Mod2Sparse?): set<object>
    reads mat
  {
    if mat == null then {} else {mat} + mat.Repr
  }

  ghost predicate Consistent(code: Code, at: Caches)
    reads at.a, at.bInv, at.c, at.d, Owned(at.a), Owned(at.bInv), Owned(at.c), Owned(at.d)
  {
    && (at.a != null ==> Stores(at.a, code.a, code.P(), code.k))
    && (at.bInv != null ==> Stores(at.bInv, code.bInv, code.P(), code.P()))
    && (at.c != null ==> Stores(at.c, code.c, code.q, code.k))
    && (at.d != null ==> Stores(at.d, code.d, code.q, code.P()))
  }

  method AddBits(cs: Bits, dp1: Bits) returns (p2: Bits)
    requires |cs| == |dp1|
    ensures p2 == Xor(cs, dp1)
  {
    var out := new bool[|cs|];
    for i := 0 to |cs|
      invariant forall x :: 0 <= x < i ==> out[x] == (cs[x] != dp1[x])
    {
      out[i] := cs[i] != dp1[i];
    }
    p2 := out[..];
  }

  /** Each product, with its matrix built on first use. */
  method Product(cache: Mod2Sparse?, ind: seq<Place>, m: int, n: int, u: Bits) returns (v: Bits)
    requires m > 0 && n > 0 && Fits(ind, m, n) && (cache != null ==> Stores(cache, ind, m, n)) && |u| == n
    ensures v == Times(Listed(ind), m, n, u)
  {
    hide Placed, Headed, Within, RowsLinked, ColsLinked, Times, Listed, Fits;
    var mat := Cached(cache, ind, m, n);
    v := MulVec(mat, u);
  }

  /** The four multiplications and the sum. */
  method Parities(code: Code, at: Caches, s: Bits) returns (p1: Bits, p2: Bits)
    requires code.Valid() && |s| == code.k && Consistent(code, at)
    ensures p1 == P1(code, s) && p2 == P2(code, s, p1)
  {
    hide Placed, Headed, Within, RowsLinked, ColsLinked, Times, LdpcTables.Ones, Listed, Fits, Stores, Xor;
    var as_ := Product(at.a, code.a, code.P(), code.k, s);
    p1 := Product(at.bInv, code.bInv, code.P(), code.P(), as_);
    var cs := Product(at.c, code.c, code.q, code.k, s);
    var dp1 := Product(at.d, code.d, code.q, code.P(), p1);
    p2 := AddBits(cs, dp1);
  }

  // ----- what is transmitted -----

  ghost predicate IsSf2(code: Code) {
    code.Valid() && code.k == 1200 && code.z == 120 && code.q == 4560 && code.b == LdpcTables.Sf2B
  }

  ghost predicate IsSf3(code: Code) {
    code.Valid() && code.k == 880 && code.z == 88 && code.q == 3344 && code.b == LdpcTables.Sf3B
  }

  lemma {:induction false} ListOf(s: set<Place>) returns (ind: seq<Place>)
    ensures Listed(ind) == s
    decreases s
  {
    ind := [];
    if s != {} {
      var p :| p in s;
      var rest := ListOf(s - {p});
      ind := rest + [p];
      assert forall x :: x in Listed(ind) <==> x in Listed(rest) || x == p;
    }
  }

  /** Codes with these tables exist: the encoder's preconditions can be met. */
  lemma {:induction false} Sf2Exists() returns (code: Code)
    ensures IsSf2(code)
  {
    hide LdpcTables.Ones;
    var bInv := ListOf(LdpcTables.Ones(LdpcTables.Sf2BInv, 120));
    ListFits(bInv, LdpcTables.Sf2BInv, 120);
    code := Code(1200, 120, 4560, [], bInv, [], [], LdpcTables.Sf2B);
  }

  lemma {:induction false} Sf3Exists() returns (code: Code)
    ensures IsSf3(code)
  {
    hide LdpcTables.Ones;
    var bInv := ListOf(LdpcTables.Ones(LdpcTables.Sf3BInv, 88));
    ListFits(bInv, LdpcTables.Sf3BInv, 88);
    code := Code(880, 88, 3344, [], bInv, [], [], LdpcTables.Sf3B);
  }

  lemma {:induction false} ListFits(ind: seq<Place>, t: LdpcTables.Table, z: int)
    requires LdpcTables.IsTable(t) && z >= 2 && Listed(ind) == LdpcTables.Ones(t, z)
    ensures Fits(ind, 4 * z, 4 * z)
  {
    hide LdpcTables.Ones;
    forall x | 0 <= x < |ind|
      ensures 0 <= ind[x].0 < 4 * z && 0 <= ind[x].1 < 4 * z
    {
      assert ind[x] in Listed(ind);
      LdpcTables.OnesInRange(t, z, ind[x]);
    }
  }

  /** The full codeword of the systematic bits s. */
  ghost function Full(code: Code, s: Bits): (w: Bits)
    requires code.Valid() && |s| == code.k
    ensures |w| == code.k + code.P() + code.q
  {
    s + P1(code, s) + P2(code, s, P1(code, s))
  }

  /** 870 data bits and 10 filler bits. */
  function WithFiller(syms: Bits): Bits {
    syms + seq(10, _ => false)
  }

  // ----- what a coded block is, without its computation -----

  /** The sum of two codewords is a codeword. */
  lemma {:induction false} CodewordXor(code: Code, s: Bits, p1: Bits, p2: Bits, t: Bits, q1: Bits, q2: Bits)
    requires code.Valid() && |s| == |t| == code.k && |p1| == |q1| == code.P() && |p2| == |q2| == code.q
    requires Codeword(code, s, p1, p2) && Codeword(code, t, q1, q2)
    ensures Codeword(code, Xor(s, t), Xor(p1, q1), Xor(p2, q2))
  {
    hide Times, LdpcTables.Ones, Fits, Listed, Xor, IsZero;
    var a, b, c, d := Listed(code.a), LdpcTables.Ones(code.b, code.z), Listed(code.c), Listed(code.d);
    TimesXor(a, code.P(), code.k, s, t);
    TimesXor(b, code.P(), code.P(), p1, q1);
    TimesXor(c, code.q, code.k, s, t);
    TimesXor(d, code.q, code.P(), p1, q1);
    XorExchange(Times(a, code.P(), code.k, s), Times(a, code.P(), code.k, t), Times(b, code.P(), code.P(), p1), Times(b, code.P(), code.P(), q1));
    XorExchange(Times(c, code.q, code.k, s), Times(c, code.q, code.k, t), Times(d, code.q, code.P(), p1), Times(d, code.q, code.P(), q1));
    XorExchange(P2(code, s, p1), P2(code, t, q1), p2, q2);
    ZeroXor(Xor(Times(a, code.P(), code.k, s), Times(b, code.P(), code.P(), p1)), Xor(Times(a, code.P(), code.k, t), Times(b, code.P(), code.P(), q1)));
    ZeroXor(Xor(P2(code, s, p1), p2), Xor(P2(code, t, q1), q2));
  }

  lemma {:induction false} ZeroXor(x: Bits, y: Bits)
    requires |x| == |y| && IsZero(x) && IsZero(y)
    ensures IsZero(Xor(x, y))
  {
    XorIndex(x, y);
  }

  /** w is the codeword of the 1200 bits syms, and enc its transmitted places. */
  ghost predicate Word2(code: Code, syms: Bits, w: Bits, enc: Bits)
    requires IsSf2(code)
  {
    && |w| == 6240 && w[..1200] == syms && Codeword(code, w[..1200], w[1200..1680], w[1680..])
    && enc == w[240..2640]
  }

  ghost predicate IsSf2Encoding(code: Code, syms: Bits, enc: Bits)
    requires IsSf2(code)
  {
    exists w: Bits :: Word2(code, syms, w, enc)
  }

  /** w is the codeword of the 870 bits syms with ten zeros behind them, and enc its transmitted places. */
  ghost predicate Word3(code: Code, syms: Bits, w: Bits, enc: Bits)
    requires IsSf3(code)
  {
    && |w| == 4576 && w[..870] == syms && (forall i :: 870 <= i < 880 ==> !w[i]) && Codeword(code, w[..880], w[880..1232], w[1232..])
    && enc == w[176..870] + w[880..1926]
  }

  ghost predicate IsSf3Encoding(code: Code, syms: Bits, enc: Bits)
    requires IsSf3(code)
  {
    exists w: Bits :: Word3(code, syms, w, enc)
  }

  lemma {:induction false} FullIsWord2(code: Code, syms: Bits)
    requires IsSf2(code) && |syms| == 1200
    ensures Word2(code, syms, Full(code, syms), Full(code, syms)[240..2640])
  {
    hide Codeword, P1, P2;
    var p1 := P1(code, syms);
    var w := Full(code, syms);
    EncodingIsTheCodeword(code, syms, p1, P2(code, syms, p1));
    assert w[..1200] == syms && w[1200..1680] == p1 && w[1680..] == P2(code, syms, p1);
  }

  lemma {:induction false} FullIsWord3(code: Code, syms: Bits)
    requires IsSf3(code) && |syms| == 870
    ensures var w := Full(code, WithFiller(syms)); Word3(code, syms, w, w[176..870] + w[880..1926])
  {
    hide Codeword, P1, P2;
    var s := WithFiller(syms);
    var p1 := P1(code, s);
    var w := Full(code, s);
    EncodingIsTheCodeword(code, s, p1, P2(code, s, p1));
    assert w[..880] == s && w[880..1232] == p1 && w[1232..] == P2(code, s, p1);
    assert w[..870] == s[..870] == syms;
  }

  /** The encoding of a block is unique. */
  lemma {:induction false} Sf2Unique(code: Code, syms: Bits, x: Bits, y: Bits)
    requires IsSf2(code) && IsSf2Encoding(code, syms, x) && IsSf2Encoding(code, syms, y)
    ensures x == y
  {
    hide Codeword, P1, P2;
    var v: Bits :| Word2(code, syms, v, x);
    var w: Bits :| Word2(code, syms, w, y);
    EncodingIsTheCodeword(code, syms, v[1200..1680], v[1680..]);
    EncodingIsTheCodeword(code, syms, w[1200..1680], w[1680..]);
    assert v == v[..1200] + v[1200..1680] + v[1680..] && w == w[..1200] + w[1200..1680] + w[1680..];
  }

  lemma {:induction false} Sf3Unique(code: Code, syms: Bits, x: Bits, y: Bits)
    requires IsSf3(code) && IsSf3Encoding(code, syms, x) && IsSf3Encoding(code, syms, y)
    ensures x == y
  {
    hide Codeword, P1, P2;
    var v: Bits :| Word3(code, syms, v, x);
    var w: Bits :| Word3(code, syms, w, y);
    SameFront(v, w);
    EncodingIsTheCodeword(code, v[..880], v[880..1232], v[1232..]);
    EncodingIsTheCodeword(code, v[..880], w[880..1232], w[1232..]);
    assert v == v[..880] + v[880..1232] + v[1232..] && w == w[..880] + w[880..1232] + w[1232..];
  }

  lemma {:induction false} SameFront(v: Bits, w: Bits)
    requires |v| >= 880 && |w| >= 880 && v[..870] == w[..870] && forall i :: 870 <= i < 880 ==> !v[i] && !w[i]
    ensures v[..880] == w[..880]
  {
    forall i | 0 <= i < 880
      ensures v[i] == w[i]
    {
      if i < 870 {
        assert v[..870][i] == w[..870][i];
      }
    }
  }

  lemma {:induction false} XorSlice(v: Bits, w: Bits, i: nat, j: nat)
    requires |v| == |w| && i <= j <= |v|
    ensures Xor(v, w)[i..j] == Xor(v[i..j], w[i..j])
  {
  }

  /** Encoding is linear: the encoding of a sum is the sum of the encodings. */
  lemma {:induction false} Sf3Linear(code: Code, s: Bits, t: Bits, x: Bits, y: Bits)
    requires IsSf3(code) && |s| == |t| == 870 && IsSf3Encoding(code, s, x) && IsSf3Encoding(code, t, y)
    ensures |x| == |y| == 1740 && IsSf3Encoding(code, Xor(s, t), Xor(x, y))
  {
    hide Codeword, Xor;
    var v: Bits :| Word3(code, s, v, x);
    var w: Bits :| Word3(code, t, w, y);
    var z := Xor(v, w);
    CodewordXor(code, v[..880], v[880..1232], v[1232..], w[..880], w[880..1232], w[1232..]);
    XorIndex(v, w);
    XorSlice(v, w, 0, 870);
    XorSlice(v, w, 0, 880);
    XorSlice(v, w, 880, 1232);
    XorSlice(v, w, 1232, 4576);
    XorSlice(v, w, 176, 870);
    XorSlice(v, w, 880, 1926);
    XorConcat(v[176..870], v[880..1926], w[176..870], w[880..1926]);
    SliceForms(v);
    SliceForms(w);
    SliceForms(z);
    assert Word3(code, Xor(s, t), z, Xor(x, y));
  }

  lemma {:induction false} SliceForms(v: Bits)
    requires |v| == 4576
    ensures v[0..870] == v[..870] && v[0..880] == v[..880] && v[1232..4576] == v[1232..]
  {
  }

  /** For every code the block of zeros is encoded to zeros. */
  lemma {:induction false} Sf3Zero(code: Code)
    requires IsSf3(code)
    ensures IsSf3Encoding(code, Zeros(870), Zeros(1740))
  {
    hide Codeword, Xor, Zeros;
    FullIsWord3(code, Zeros(870));
    var w := Full(code, WithFiller(Zeros(870)));
    var x := w[176..870] + w[880..1926];
    Sf3Linear(code, Zeros(870), Zeros(870), x, x);
    XorSelf(Zeros(870));
    XorSelf(x);
  }

  /** The loops that write the transmitted symbols: s[from..to], p1 and the first `count` bits of p2. */
  method Transmit(s: Bits, from: nat, to: nat, p1: Bits, p2: Bits, count: nat) returns (enc: Bits)
    requires from <= to <= |s| && count <= |p2|
    ensures enc == s[from..to] + p1 + p2[..count]
  {
    var a, b := to - from, to - from + |p1|;
    var out := new bool[b + count];
    for i := 0 to a
      invariant forall x :: 0 <= x < i ==> out[x] == s[from + x]
    {
      out[i] := s[i + from];
    }
    for i := 0 to |p1|
      invariant forall x :: 0 <= x < a ==> out[x] == s[from + x]
      invariant forall x :: 0 <= x < i ==> out[a + x] == p1[x]
    {
      out[i + a] := p1[i];
    }
    for i := 0 to count
      invariant forall x :: 0 <= x < a ==> out[x] == s[from + x]
      invariant forall x :: a <= x < b ==> out[x] == p1[x - a]
      invariant forall x :: 0 <= x < i ==> out[b + x] == p2[x]
    {
      out[i + b] := p2[i];
    }
    enc := out[..];
  }

  lemma {:induction false} FullSlices(s: Bits, p1: Bits, p2: Bits, from: nat, to: nat, count: nat)
    requires from <= to <= |s| && count <= |p2|
    ensures var w := s + p1 + p2; w[from..to] == s[from..to] && w[|s|..|s| + |p1| + count] == p1 + p2[..count]
    ensures to == |s| ==> var w := s + p1 + p2; w[from..|s| + |p1| + count] == s[from..to] + p1 + p2[..count]
  {
  }

  /** encode_LDPC_AFS_SF2: places 240 to 2639 of the codeword. */
  method EncodeSf2(code: Code, at: Caches, syms: Bits) returns (enc: Bits)
    requires IsSf2(code) && |syms| == 1200 && Consistent(code, at)
    ensures enc == Full(code, syms)[240..2640] && IsSf2Encoding(code, syms, enc)
  {
    hide Placed, Headed, Within, RowsLinked, ColsLinked, Times, LdpcTables.Ones, Listed, Fits, P1, P2, Stores;
    var p1, p2 := Parities(code, at, syms);
    FullSlices(syms, p1, p2, 240, 1200, 960);
    enc := Transmit(syms, 240, 1200, p1, p2, 960);
    FullIsWord2(code, syms);
  }

  /** encode_LDPC_AFS_SF3: places 176 to 869 and 880 to 1925, around the filler bits. */
  method EncodeSf3(code: Code, at: Caches, syms: Bits) returns (enc: Bits)
    requires IsSf3(code) && |syms| == 870 && Consistent(code, at)
    ensures enc == Full(code, WithFiller(syms))[176..870] + Full(code, WithFiller(syms))[880..1926] && IsSf3Encoding(code, syms, enc)
  {
    hide Placed, Headed, Within, RowsLinked, ColsLinked, Times, LdpcTables.Ones, Listed, Fits, P1, P2, Stores;
    var s := WithFiller(syms);
    var p1, p2 := Parities(code, at, s);
    FullSlices(s, p1, p2, 176, 870, 694);
    enc := Transmit(s, 176, 870, p1, p2, 694);
    assert s[176..870] + p1 + p2[..694] == s[176..870] + (p1 + p2[..694]);
    FullIsWord3(code, syms);
  }
}
