/** The square blocks B and B_Inv of the two parity-check matrices: four by four blocks of cyclic
    shifts of the Z by Z identity (Z = 120 for subframe 2, Z = 88 for subframes 3 and 4). */
module LdpcTables {
  import opened BitStrings
  import opened Gf2

  /** A shifted identity in block column `block`: row x has its one at column x + shift, cyclically. */
  datatype Term = Term(block: int, shift: int)

  /** The two B blocks differ in one parameter p, 1 for subframe 2 and 0 for subframes 3 and 4: the first block column holds the
      shifts p, 0 (no block), 1 - p and p.  Inverse(p) is the table of the inverse. */
  datatype Table = Blocks(p: int) | Inverse(p: int)

  predicate IsTable(t: Table) {
    0 <= t.p <= 1
  }

  /** SF2_B_ind, SF2_B_Inv_ind, SF3_B_ind and SF3_B_Inv_ind. */
  const Sf2B: Table := Blocks(1)
  const Sf2BInv: Table := Inverse(1)
  const Sf3B: Table := Blocks(0)
  const Sf3BInv: Table := Inverse(0)

  /** The terms of block row a; the shift 87 of SF3_B_Inv_ind is written -1. */
  function RowOf(t: Table, a: int): seq<Term> {
    match t
    case Blocks(p) => (
      match a
      case 0 => [Term(0, p), Term(1, 0)]
      case 1 => [Term(1, 0), Term(2, 0)]
      case 2 => [Term(0, 1 - p), Term(2, 0), Term(3, 0)]
      case 3 => [Term(0, p), Term(3, 0)]
      case _ => [])
    case Inverse(p) => (
      var e, d := p - 1, 2 * p - 1;
      match a
      case 0 => [Term(0, e), Term(1, e), Term(2, e), Term(3, e)]
      case 1 => [Term(0, 0), Term(0, d), Term(1, d), Term(2, d), Term(3, d)]
      case 2 => [Term(0, 0), Term(0, d), Term(1, 0), Term(1, d), Term(2, d), Term(3, d)]
      case 3 => [Term(0, d), Term(1, d), Term(2, d), Term(3, 0), Term(3, d)]
      case _ => [])
  }

  predicate RowWellFormed(row: seq<Term>) {
    && (forall k :: 0 <= k < |row| ==> 0 <= row[k].block < 4 && -1 <= row[k].shift <= 1)
    && (forall k, l :: 0 <= k < l < |row| ==> row[k] != row[l] && -1 <= row[k].shift - row[l].shift <= 1)
  }

  lemma {:induction false} BlocksWellFormed(p: int, a: int)
    requires 0 <= p <= 1
    ensures RowWellFormed(RowOf(Blocks(p), a))
  {
    if a == 0 {} else if a == 1 {} else if a == 2 {} else if a == 3 {} else {}
  }

  lemma {:induction false} Sf2BInvWellFormed(a: int)
    ensures RowWellFormed(RowOf(Sf2BInv, a))
  {
    if a == 0 {} else if a == 1 {} else if a == 2 {} else if a == 3 {} else {}
  }

  lemma {:induction false} Sf3BInvWellFormed(a: int)
    ensures RowWellFormed(RowOf(Sf3BInv, a))
  {
    if a == 0 {} else if a == 1 {} else if a == 2 {} else if a == 3 {} else {}
  }

  lemma {:induction false} RowsWellFormed(t: Table, a: int)
    requires IsTable(t)
    ensures RowWellFormed(RowOf(t, a))
  {
    hide RowWellFormed, RowOf;
    match t
    case Blocks(p) => BlocksWellFormed(p, a);
    case Inverse(p) => if p == 1 { Sf2BInvWellFormed(a); } else { Sf3BInvWellFormed(a); }
  }

  /** x + shift modulo z. */
  function Rotate(x: int, shift: int, z: int): int {
    if x + shift >= z then x + shift - z else if x + shift < 0 then x + shift + z else x + shift
  }

  function Column(t: Term, x: int, z: int): int {
    t.block * z + Rotate(x, t.shift, z)
  }

  /** The columns of the ones of row a * z + x. */
  function Columns(row: seq<Term>, x: int, z: int): (cs: seq<int>)
    ensures |cs| == |row| && forall k :: 0 <= k < |cs| ==> cs[k] == Column(row[k], x, z)
  {
    seq(|row|, k requires 0 <= k < |row| => Column(row[k], x, z))
  }

  /** The matrix as the set of its ones. */
  ghost function Ones(t: Table, z: int): set<Place> {
    set a, x, c | 0 <= a < 4 && 0 <= x < z && c in Columns(RowOf(t, a), x, z) :: (a * z + x, c)
  }

  // ----- a sparse row times a vector -----

  function XorList(cs: seq<int>, u: Bits): bool
    requires forall k :: 0 <= k < |cs| ==> 0 <= cs[k] < |u|
  {
    if cs == [] then false else XorList(cs[..|cs| - 1], u) != u[cs[|cs| - 1]]
  }

  lemma {:induction false} SumOverList(n: int, cs: seq<int>, u: Bits)
    requires |u| == n && (forall k :: 0 <= k < |cs| ==> 0 <= cs[k] < n) && forall k, l :: 0 <= k < l < |cs| ==> cs[k] != cs[l]
    ensures Sum(n, j => j in cs && 0 <= j < n && u[j]) == XorList(cs, u)
    decreases |cs|
  {
    var f := (j: int) => j in cs && 0 <= j < n && u[j];
    if cs == [] {
      SumZero(n, f);
    } else {
      var front, last := cs[..|cs| - 1], cs[|cs| - 1];
      var g := (j: int) => j in front && 0 <= j < n && u[j];
      SumOverList(n, front, u);
      assert cs == front + [last];
      assert last !in front;
      SumApart(n, last, f, (j: int) => j != last && f(j));
      SumCong(n, g, (j: int) => j != last && f(j));
    }
  }

  lemma {:induction false} SameRow(z: int, a: int, x: int, b: int, y: int)
    requires 0 <= x < z && 0 <= y < z && 0 <= a < 4 && 0 <= b < 4 && a * z + x == b * z + y
    ensures a == b && x == y
  {
  }

  lemma {:induction false} ColumnRange(t: Term, x: int, z: int)
    requires 0 <= x < z && 0 <= t.block < 4 && -1 <= t.shift <= 1
    ensures 0 <= Rotate(x, t.shift, z) < z && 0 <= Column(t, x, z) < 4 * z
  {
  }

  lemma {:induction false} ColumnsDistinct(s: Term, t: Term, x: int, z: int)
    requires 2 <= z && 0 <= x < z && 0 <= s.block < 4 && 0 <= t.block < 4 && -1 <= s.shift <= 1 && -1 <= t.shift <= 1
    requires s != t && -1 <= s.shift - t.shift <= 1
    ensures Column(s, x, z) != Column(t, x, z)
  {
    ColumnRange(s, x, z);
    ColumnRange(t, x, z);
    if Column(s, x, z) == Column(t, x, z) {
      SameRow(z, s.block, Rotate(x, s.shift, z), t.block, Rotate(x, t.shift, z));
    }
  }

  /** Row a * z + x of a block matrix adds up the listed components. */
  lemma {:induction false} RowOfBlocks(t: Table, z: int, u: Bits, a: int, x: int)
    requires IsTable(t) && IsTable(t) && 2 <= z && |u| == 4 * z && 0 <= a < 4 && 0 <= x < z
    ensures forall k :: 0 <= k < |Columns(RowOf(t, a), x, z)| ==> 0 <= Columns(RowOf(t, a), x, z)[k] < 4 * z
    ensures RowDot(Ones(t, z), 4 * z, u, a * z + x) == XorList(Columns(RowOf(t, a), x, z), u)
  {
    hide RowOf;
    RowsWellFormed(t, a);
    var row := RowOf(t, a);
    var cs := Columns(row, x, z);
    var s := Ones(t, z);
    forall k | 0 <= k < |cs|
      ensures 0 <= cs[k] < 4 * z
    {
      ColumnRange(row[k], x, z);
    }
    forall k, l | 0 <= k < l < |cs|
      ensures cs[k] != cs[l]
    {
      ColumnsDistinct(row[k], row[l], x, z);
    }
    forall j
      ensures (a * z + x, j) in s <==> j in cs
    {
      if (a * z + x, j) in s {
        var b, y, c :| 0 <= b < 4 && 0 <= y < z && c in Columns(RowOf(t, b), y, z) && (a * z + x, j) == (b * z + y, c);
        SameRow(z, a, x, b, y);
      }
    }
    SumOverList(4 * z, cs, u);
    SumCong(4 * z, j => (a * z + x, j) in s && 0 <= j < 4 * z && u[j], j => j in cs && 0 <= j < 4 * z && u[j]);
  }

  /** Block b of u at offset y. */
  function Part(u: Bits, z: int, b: int, y: int): bool {
    0 <= b * z + y < |u| && u[b * z + y]
  }

  function XorTerms(row: seq<Term>, u: Bits, x: int, z: int): bool {
    if row == [] then false else
      var t := row[|row| - 1];
      XorTerms(row[..|row| - 1], u, x, z) != Part(u, z, t.block, Rotate(x, t.shift, z))
  }

  lemma {:induction false} TermsAreColumns(row: seq<Term>, u: Bits, x: int, z: int)
    requires forall k :: 0 <= k < |Columns(row, x, z)| ==> 0 <= Columns(row, x, z)[k] < |u|
    ensures XorList(Columns(row, x, z), u) == XorTerms(row, u, x, z)
    decreases |row|
  {
    if row != [] {
      var front := row[..|row| - 1];
      assert Columns(row, x, z)[..|row| - 1] == Columns(front, x, z);
      TermsAreColumns(front, u, x, z);
    }
  }

  /** The product with a block matrix, block by block. */
  lemma {:induction false} TimesBlocks(t: Table, z: int, u: Bits, a: int, x: int)
    requires IsTable(t) && 2 <= z && |u| == 4 * z && 0 <= a < 4 && 0 <= x < z
    ensures Part(Times(Ones(t, z), 4 * z, 4 * z, u), z, a, x) == XorTerms(RowOf(t, a), u, x, z)
  {
    hide RowDot, Ones, XorTerms, XorList, RowOf;
    RowOfBlocks(t, z, u, a, x);
    TermsAreColumns(RowOf(t, a), u, x, z);
    assert 0 <= a * z + x < 4 * z by {
      assert a * z <= 3 * z;
    }
  }

  lemma {:induction false} XorPush(row: seq<Term>, t: Term, u: Bits, x: int, z: int)
    ensures XorTerms(row + [t], u, x, z) == (XorTerms(row, u, x, z) != Part(u, z, t.block, Rotate(x, t.shift, z)))
  {
    assert (row + [t])[..|row|] == row;
  }

  /** A row written out from its last term to its first. */
  lemma {:induction false} XorUnfold(row: seq<Term>, u: Bits, x: int, z: int, k: int)
    requires 0 < k <= |row|
    ensures XorTerms(row[..k], u, x, z)
         == (XorTerms(row[..k - 1], u, x, z) != Part(u, z, row[k - 1].block, Rotate(x, row[k - 1].shift, z)))
  {
    assert row[..k] == row[..k - 1] + [row[k - 1]];
    XorPush(row[..k - 1], row[k - 1], u, x, z);
  }

  lemma {:induction false} NoTerms(row: seq<Term>, u: Bits, x: int, z: int)
    ensures !XorTerms(row[..0], u, x, z) && XorTerms(row[..|row|], u, x, z) == XorTerms(row, u, x, z)
  {
    assert row[..0] == [] && row[..|row|] == row;
  }

  lemma {:induction false} BlocksRow0(p: int, u: Bits, x: int, z: int)
    requires 0 <= p <= 1 && 0 <= x < z
    ensures XorTerms(RowOf(Blocks(p), 0), u, x, z)
         == (Part(u, z, 0, Rotate(x, p, z)) != Part(u, z, 1, x))
  {
    hide XorTerms;
    var row := RowOf(Blocks(p), 0);
    NoTerms(row, u, x, z);
    XorUnfold(row, u, x, z, 1);
    XorUnfold(row, u, x, z, 2);
  }

  lemma {:induction false} BlocksRow1(p: int, u: Bits, x: int, z: int)
    requires 0 <= p <= 1 && 0 <= x < z
    ensures XorTerms(RowOf(Blocks(p), 1), u, x, z)
         == (Part(u, z, 1, x) != Part(u, z, 2, x))
  {
    hide XorTerms;
    var row := RowOf(Blocks(p), 1);
    NoTerms(row, u, x, z);
    XorUnfold(row, u, x, z, 1);
    XorUnfold(row, u, x, z, 2);
  }

  lemma {:induction false} BlocksRow2(p: int, u: Bits, x: int, z: int)
    requires 0 <= p <= 1 && 0 <= x < z
    ensures XorTerms(RowOf(Blocks(p), 2), u, x, z)
         == ((Part(u, z, 0, Rotate(x, 1 - p, z)) != Part(u, z, 2, x)) != Part(u, z, 3, x))
  {
    hide XorTerms;
    var row := RowOf(Blocks(p), 2);
    NoTerms(row, u, x, z);
    XorUnfold(row, u, x, z, 1);
    XorUnfold(row, u, x, z, 2);
    XorUnfold(row, u, x, z, 3);
  }

  lemma {:induction false} BlocksRow3(p: int, u: Bits, x: int, z: int)
    requires 0 <= p <= 1 && 0 <= x < z
    ensures XorTerms(RowOf(Blocks(p), 3), u, x, z)
         == (Part(u, z, 0, Rotate(x, p, z)) != Part(u, z, 3, x))
  {
    hide XorTerms;
    var row := RowOf(Blocks(p), 3);
    NoTerms(row, u, x, z);
    XorUnfold(row, u, x, z, 1);
    XorUnfold(row, u, x, z, 2);
  }

  lemma {:induction false} InverseRow0(p: int, u: Bits, x: int, z: int)
    requires 0 <= p <= 1 && 0 <= x < z
    ensures XorTerms(RowOf(Inverse(p), 0), u, x, z)
         == (((Part(u, z, 0, Rotate(x, p - 1, z)) != Part(u, z, 1, Rotate(x, p - 1, z))) != Part(u, z, 2, Rotate(x, p - 1, z))) != Part(u, z, 3, Rotate(x, p - 1, z)))
  {
    hide XorTerms;
    var row := RowOf(Inverse(p), 0);
    NoTerms(row, u, x, z);
    XorUnfold(row, u, x, z, 1);
    XorUnfold(row, u, x, z, 2);
    XorUnfold(row, u, x, z, 3);
    XorUnfold(row, u, x, z, 4);
  }

  lemma {:induction false} InverseRow1(p: int, u: Bits, x: int, z: int)
    requires 0 <= p <= 1 && 0 <= x < z
    ensures XorTerms(RowOf(Inverse(p), 1), u, x, z)
         == ((((Part(u, z, 0, x) != Part(u, z, 0, Rotate(x, 2 * p - 1, z))) != Part(u, z, 1, Rotate(x, 2 * p - 1, z))) != Part(u, z, 2, Rotate(x, 2 * p - 1, z))) != Part(u, z, 3, Rotate(x, 2 * p - 1, z)))
  {
    hide XorTerms;
    var row := RowOf(Inverse(p), 1);
    NoTerms(row, u, x, z);
    XorUnfold(row, u, x, z, 1);
    XorUnfold(row, u, x, z, 2);
    XorUnfold(row, u, x, z, 3);
    XorUnfold(row, u, x, z, 4);
    XorUnfold(row, u, x, z, 5);
  }

  lemma {:induction false} InverseRow2(p: int, u: Bits, x: int, z: int)
    requires 0 <= p <= 1 && 0 <= x < z
    ensures XorTerms(RowOf(Inverse(p), 2), u, x, z)
         == (((((Part(u, z, 0, x) != Part(u, z, 0, Rotate(x, 2 * p - 1, z))) != Part(u, z, 1, x)) != Part(u, z, 1, Rotate(x, 2 * p - 1, z))) != Part(u, z, 2, Rotate(x, 2 * p - 1, z))) != Part(u, z, 3, Rotate(x, 2 * p - 1, z)))
  {
    hide XorTerms;
    var row := RowOf(Inverse(p), 2);
    NoTerms(row, u, x, z);
    XorUnfold(row, u, x, z, 1);
    XorUnfold(row, u, x, z, 2);
    XorUnfold(row, u, x, z, 3);
    XorUnfold(row, u, x, z, 4);
    XorUnfold(row, u, x, z, 5);
    XorUnfold(row, u, x, z, 6);
  }

  lemma {:induction false} InverseRow3(p: int, u: Bits, x: int, z: int)
    requires 0 <= p <= 1 && 0 <= x < z
    ensures XorTerms(RowOf(Inverse(p), 3), u, x, z)
         == ((((Part(u, z, 0, Rotate(x, 2 * p - 1, z)) != Part(u, z, 1, Rotate(x, 2 * p - 1, z))) != Part(u, z, 2, Rotate(x, 2 * p - 1, z))) != Part(u, z, 3, x)) != Part(u, z, 3, Rotate(x, 2 * p - 1, z)))
  {
    hide XorTerms;
    var row := RowOf(Inverse(p), 3);
    NoTerms(row, u, x, z);
    XorUnfold(row, u, x, z, 1);
    XorUnfold(row, u, x, z, 2);
    XorUnfold(row, u, x, z, 3);
    XorUnfold(row, u, x, z, 4);
    XorUnfold(row, u, x, z, 5);
  }

  /** Shifting back and forth. */
  lemma {:induction false} Rotations(p: int, x: int, z: int)
    requires 0 <= p <= 1 && 2 <= z && 0 <= x < z
    ensures 0 <= Rotate(x, p, z) < z && 0 <= Rotate(x, 1 - p, z) < z && 0 <= Rotate(x, p - 1, z) < z && 0 <= Rotate(x, 2 * p - 1, z) < z
    ensures Rotate(Rotate(x, p, z), p - 1, z) == Rotate(x, 2 * p - 1, z)
    ensures Rotate(Rotate(x, 1 - p, z), p - 1, z) == x && Rotate(Rotate(x, p - 1, z), 1 - p, z) == x
    ensures Rotate(Rotate(x, 2 * p - 1, z), 1 - p, z) == Rotate(x, p, z)
  {
  }

  lemma {:induction false} SameParts(v: Bits, u: Bits, z: int)
    requires 2 <= z && |u| == |v| == 4 * z
    requires forall a, x :: 0 <= a < 4 && 0 <= x < z ==> Part(v, z, a, x) == Part(u, z, a, x)
    ensures v == u
  {
    forall j | 0 <= j < 4 * z
      ensures v[j] == u[j]
    {
      var a := if j < z then 0 else if j < 2 * z then 1 else if j < 3 * z then 2 else 3;
      assert Part(v, z, a, j - a * z) == Part(u, z, a, j - a * z);
    }
  }

  /** Block b of the product with Blocks(p), at one place, and where its shifts lead. */
  lemma {:induction false} BlocksAt(p: int, u: Bits, b: int, x: int, z: int)
    requires 0 <= p <= 1 && 2 <= z && |u| == 4 * z && 0 <= b < 4 && 0 <= x < z
    ensures var v := Part(Times(Ones(Blocks(p), z), 4 * z, 4 * z, u), z, b, x);
      && (b == 0 ==> v == (Part(u, z, 0, Rotate(x, p, z)) != Part(u, z, 1, x)))
      && (b == 1 ==> v == (Part(u, z, 1, x) != Part(u, z, 2, x)))
      && (b == 2 ==> v == ((Part(u, z, 0, Rotate(x, 1 - p, z)) != Part(u, z, 2, x)) != Part(u, z, 3, x)))
      && (b == 3 ==> v == (Part(u, z, 0, Rotate(x, p, z)) != Part(u, z, 3, x)))
  {
    hide XorTerms, Times, Ones, Part, RowOf, Rotate;
    TimesBlocks(Blocks(p), z, u, b, x);
    if b == 0 { BlocksRow0(p, u, x, z); } else if b == 1 { BlocksRow1(p, u, x, z); } else if b == 2 { BlocksRow2(p, u, x, z); } else { BlocksRow3(p, u, x, z); }
  }

  /** Block b of the product with Inverse(p), at one place, and where its shifts lead. */
  lemma {:induction false} InverseAt(p: int, u: Bits, b: int, x: int, z: int)
    requires 0 <= p <= 1 && 2 <= z && |u| == 4 * z && 0 <= b < 4 && 0 <= x < z
    ensures var v := Part(Times(Ones(Inverse(p), z), 4 * z, 4 * z, u), z, b, x);
      && (b == 0 ==> v == (((Part(u, z, 0, Rotate(x, p - 1, z)) != Part(u, z, 1, Rotate(x, p - 1, z))) != Part(u, z, 2, Rotate(x, p - 1, z))) != Part(u, z, 3, Rotate(x, p - 1, z))))
      && (b == 1 ==> v == ((((Part(u, z, 0, x) != Part(u, z, 0, Rotate(x, 2 * p - 1, z))) != Part(u, z, 1, Rotate(x, 2 * p - 1, z))) != Part(u, z, 2, Rotate(x, 2 * p - 1, z))) != Part(u, z, 3, Rotate(x, 2 * p - 1, z))))
      && (b == 2 ==> v == (((((Part(u, z, 0, x) != Part(u, z, 0, Rotate(x, 2 * p - 1, z))) != Part(u, z, 1, x)) != Part(u, z, 1, Rotate(x, 2 * p - 1, z))) != Part(u, z, 2, Rotate(x, 2 * p - 1, z))) != Part(u, z, 3, Rotate(x, 2 * p - 1, z))))
      && (b == 3 ==> v == ((((Part(u, z, 0, Rotate(x, 2 * p - 1, z)) != Part(u, z, 1, Rotate(x, 2 * p - 1, z))) != Part(u, z, 2, Rotate(x, 2 * p - 1, z))) != Part(u, z, 3, x)) != Part(u, z, 3, Rotate(x, 2 * p - 1, z))))
  {
    hide XorTerms, Times, Ones, Part, RowOf, Rotate;
    TimesBlocks(Inverse(p), z, u, b, x);
    if b == 0 { InverseRow0(p, u, x, z); } else if b == 1 { InverseRow1(p, u, x, z); } else if b == 2 { InverseRow2(p, u, x, z); } else { InverseRow3(p, u, x, z); }
  }

  lemma {:induction false} BlocksTimesInverseRow0(p: int, u: Bits, x: int, z: int)
    requires 0 <= p <= 1 && 2 <= z && |u| == 4 * z && 0 <= x < z
    ensures XorTerms(RowOf(Blocks(p), 0), Times(Ones(Inverse(p), z), 4 * z, 4 * z, u), x, z) == Part(u, z, 0, x)
  {
    hide XorTerms, Times, Ones, Part, RowOf, Rotate;
    Rotations(p, x, z);
    BlocksRow0(p, Times(Ones(Inverse(p), z), 4 * z, 4 * z, u), x, z);
    InverseAt(p, u, 0, Rotate(x, p, z), z);
    InverseAt(p, u, 1, x, z);
  }

  lemma {:induction false} BlocksTimesInverseRow1(p: int, u: Bits, x: int, z: int)
    requires 0 <= p <= 1 && 2 <= z && |u| == 4 * z && 0 <= x < z
    ensures XorTerms(RowOf(Blocks(p), 1), Times(Ones(Inverse(p), z), 4 * z, 4 * z, u), x, z) == Part(u, z, 1, x)
  {
    hide XorTerms, Times, Ones, Part, RowOf, Rotate;
    Rotations(p, x, z);
    BlocksRow1(p, Times(Ones(Inverse(p), z), 4 * z, 4 * z, u), x, z);
    InverseAt(p, u, 1, x, z);
    InverseAt(p, u, 2, x, z);
  }

  lemma {:induction false} BlocksTimesInverseRow2(p: int, u: Bits, x: int, z: int)
    requires 0 <= p <= 1 && 2 <= z && |u| == 4 * z && 0 <= x < z
    ensures XorTerms(RowOf(Blocks(p), 2), Times(Ones(Inverse(p), z), 4 * z, 4 * z, u), x, z) == Part(u, z, 2, x)
  {
    hide XorTerms, Times, Ones, Part, RowOf, Rotate;
    Rotations(p, x, z);
    BlocksRow2(p, Times(Ones(Inverse(p), z), 4 * z, 4 * z, u), x, z);
    InverseAt(p, u, 0, Rotate(x, 1 - p, z), z);
    InverseAt(p, u, 2, x, z);
    InverseAt(p, u, 3, x, z);
  }

  lemma {:induction false} BlocksTimesInverseRow3(p: int, u: Bits, x: int, z: int)
    requires 0 <= p <= 1 && 2 <= z && |u| == 4 * z && 0 <= x < z
    ensures XorTerms(RowOf(Blocks(p), 3), Times(Ones(Inverse(p), z), 4 * z, 4 * z, u), x, z) == Part(u, z, 3, x)
  {
    hide XorTerms, Times, Ones, Part, RowOf, Rotate;
    Rotations(p, x, z);
    BlocksRow3(p, Times(Ones(Inverse(p), z), 4 * z, 4 * z, u), x, z);
    InverseAt(p, u, 0, Rotate(x, p, z), z);
    InverseAt(p, u, 3, x, z);
  }

  lemma {:induction false} BlocksTimesInverse(p: int, u: Bits, z: int)
    requires 0 <= p <= 1 && 2 <= z && |u| == 4 * z
    ensures Times(Ones(Blocks(p), z), 4 * z, 4 * z, Times(Ones(Inverse(p), z), 4 * z, 4 * z, u)) == u
  {
    hide Times, Ones, XorTerms, Part, RowOf;
    var w := Times(Ones(Inverse(p), z), 4 * z, 4 * z, u);
    forall a, x | 0 <= a < 4 && 0 <= x < z
      ensures Part(Times(Ones(Blocks(p), z), 4 * z, 4 * z, w), z, a, x) == Part(u, z, a, x)
    {
      TimesBlocks(Blocks(p), z, w, a, x);
      if a == 0 { BlocksTimesInverseRow0(p, u, x, z); } else if a == 1 { BlocksTimesInverseRow1(p, u, x, z); }
      else if a == 2 { BlocksTimesInverseRow2(p, u, x, z); } else { BlocksTimesInverseRow3(p, u, x, z); }
    }
    SameParts(Times(Ones(Blocks(p), z), 4 * z, 4 * z, w), u, z);
  }

  lemma {:induction false} InverseTimesBlocksRow0(p: int, u: Bits, x: int, z: int)
    requires 0 <= p <= 1 && 2 <= z && |u| == 4 * z && 0 <= x < z
    ensures XorTerms(RowOf(Inverse(p), 0), Times(Ones(Blocks(p), z), 4 * z, 4 * z, u), x, z) == Part(u, z, 0, x)
  {
    hide XorTerms, Times, Ones, Part, RowOf, Rotate;
    Rotations(p, x, z);
    InverseRow0(p, Times(Ones(Blocks(p), z), 4 * z, 4 * z, u), x, z);
    BlocksAt(p, u, 0, Rotate(x, p - 1, z), z);
    BlocksAt(p, u, 1, Rotate(x, p - 1, z), z);
    BlocksAt(p, u, 2, Rotate(x, p - 1, z), z);
    BlocksAt(p, u, 3, Rotate(x, p - 1, z), z);
  }

  lemma {:induction false} InverseTimesBlocksRow1(p: int, u: Bits, x: int, z: int)
    requires 0 <= p <= 1 && 2 <= z && |u| == 4 * z && 0 <= x < z
    ensures XorTerms(RowOf(Inverse(p), 1), Times(Ones(Blocks(p), z), 4 * z, 4 * z, u), x, z) == Part(u, z, 1, x)
  {
    hide XorTerms, Times, Ones, Part, RowOf, Rotate;
    Rotations(p, x, z);
    InverseRow1(p, Times(Ones(Blocks(p), z), 4 * z, 4 * z, u), x, z);
    BlocksAt(p, u, 0, x, z);
    BlocksAt(p, u, 0, Rotate(x, 2 * p - 1, z), z);
    BlocksAt(p, u, 1, Rotate(x, 2 * p - 1, z), z);
    BlocksAt(p, u, 2, Rotate(x, 2 * p - 1, z), z);
    BlocksAt(p, u, 3, Rotate(x, 2 * p - 1, z), z);
  }

  lemma {:induction false} InverseTimesBlocksRow2(p: int, u: Bits, x: int, z: int)
    requires 0 <= p <= 1 && 2 <= z && |u| == 4 * z && 0 <= x < z
    ensures XorTerms(RowOf(Inverse(p), 2), Times(Ones(Blocks(p), z), 4 * z, 4 * z, u), x, z) == Part(u, z, 2, x)
  {
    hide XorTerms, Times, Ones, Part, RowOf, Rotate;
    Rotations(p, x, z);
    InverseRow2(p, Times(Ones(Blocks(p), z), 4 * z, 4 * z, u), x, z);
    BlocksAt(p, u, 0, x, z);
    BlocksAt(p, u, 0, Rotate(x, 2 * p - 1, z), z);
    BlocksAt(p, u, 1, x, z);
    BlocksAt(p, u, 1, Rotate(x, 2 * p - 1, z), z);
    BlocksAt(p, u, 2, Rotate(x, 2 * p - 1, z), z);
    BlocksAt(p, u, 3, Rotate(x, 2 * p - 1, z), z);
  }

  lemma {:induction false} InverseTimesBlocksRow3(p: int, u: Bits, x: int, z: int)
    requires 0 <= p <= 1 && 2 <= z && |u| == 4 * z && 0 <= x < z
    ensures XorTerms(RowOf(Inverse(p), 3), Times(Ones(Blocks(p), z), 4 * z, 4 * z, u), x, z) == Part(u, z, 3, x)
  {
    hide XorTerms, Times, Ones, Part, RowOf, Rotate;
    Rotations(p, x, z);
    InverseRow3(p, Times(Ones(Blocks(p), z), 4 * z, 4 * z, u), x, z);
    BlocksAt(p, u, 0, Rotate(x, 2 * p - 1, z), z);
    BlocksAt(p, u, 1, Rotate(x, 2 * p - 1, z), z);
    BlocksAt(p, u, 2, Rotate(x, 2 * p - 1, z), z);
    BlocksAt(p, u, 3, x, z);
    BlocksAt(p, u, 3, Rotate(x, 2 * p - 1, z), z);
  }

  lemma {:induction false} InverseTimesBlocks(p: int, u: Bits, z: int)
    requires 0 <= p <= 1 && 2 <= z && |u| == 4 * z
    ensures Times(Ones(Inverse(p), z), 4 * z, 4 * z, Times(Ones(Blocks(p), z), 4 * z, 4 * z, u)) == u
  {
    hide Times, Ones, XorTerms, Part, RowOf;
    var w := Times(Ones(Blocks(p), z), 4 * z, 4 * z, u);
    forall a, x | 0 <= a < 4 && 0 <= x < z
      ensures Part(Times(Ones(Inverse(p), z), 4 * z, 4 * z, w), z, a, x) == Part(u, z, a, x)
    {
      TimesBlocks(Inverse(p), z, w, a, x);
      if a == 0 { InverseTimesBlocksRow0(p, u, x, z); } else if a == 1 { InverseTimesBlocksRow1(p, u, x, z); }
      else if a == 2 { InverseTimesBlocksRow2(p, u, x, z); } else { InverseTimesBlocksRow3(p, u, x, z); }
    }
    SameParts(Times(Ones(Inverse(p), z), 4 * z, 4 * z, w), u, z);
  }

  /** All ones lie in the 4z by 4z square. */
  lemma {:induction false} OnesInRange(t: Table, z: int, p: Place)
    requires IsTable(t) && z >= 2 && p in Ones(t, z)
    ensures 0 <= p.0 < 4 * z && 0 <= p.1 < 4 * z
  {
    hide RowOf;
    var a, x, c :| 0 <= a < 4 && 0 <= x < z && c in Columns(RowOf(t, a), x, z) && p == (a * z + x, c);
    RowsWellFormed(t, a);
    var k :| 0 <= k < |RowOf(t, a)| && c == Column(RowOf(t, a)[k], x, z);
    ColumnRange(RowOf(t, a)[k], x, z);
    RowRange(a, x, z);
  }

  lemma {:induction false} RowRange(a: int, x: int, z: int)
    requires 0 <= a < 4 && 0 <= x < z
    ensures 0 <= a * z + x < 4 * z
  {
    if a == 0 {} else if a == 1 {} else if a == 2 {} else {}
  }
}
