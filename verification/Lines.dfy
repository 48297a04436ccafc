/** Positions along one row or one column of a sparse matrix.  A line is the set of occupied
    positions below n, together with -1 for the header that closes the circular list. */
module Lines {

  /** The occupied position that follows c, or the header -1. */
  ghost function Next(l: set<int>, c: int, n: int): (d: int)
    requires -1 <= c < n
    ensures d == -1 || (c < d < n && d in l)
    decreases n - c
  {
    if c + 1 >= n then -1 else if c + 1 in l then c + 1 else Next(l, c + 1, n)
  }

  /** The occupied position that precedes c (the header precedes the first one). */
  ghost function Below(l: set<int>, c: int): (d: int)
    requires 0 <= c
    ensures -1 <= d < c && (d == -1 || d in l)
    decreases c
  {
    if c == 0 then -1 else if c - 1 in l then c - 1 else Below(l, c - 1)
  }

  /** The neighbour on the other side; the header's is the last position. */
  ghost function Prev(l: set<int>, c: int, n: int): (d: int)
    requires -1 <= c < n
  {
    if c == -1 then Below(l, n) else Below(l, c)
  }

  lemma {:induction false} NextGap(l: set<int>, c: int, n: int)
    requires -1 <= c < n
    ensures var d := Next(l, c, n); forall j :: c < j < (if d == -1 then n else d) ==> j !in l
    decreases n - c
  {
    if c + 1 < n && c + 1 !in l {
      NextGap(l, c + 1, n);
    }
  }

  lemma {:induction false} BelowGap(l: set<int>, c: int)
    requires 0 <= c
    ensures forall j :: Below(l, c) < j < c ==> j !in l
    decreases c
  {
    if c > 0 && c - 1 !in l {
      BelowGap(l, c - 1);
    }
  }

  lemma {:induction false} NextUnique(l: set<int>, c: int, n: int, d: int)
    requires -1 <= c < n
    requires d == -1 || (c < d < n && d in l)
    requires forall j :: c < j < (if d == -1 then n else d) ==> j !in l
    ensures Next(l, c, n) == d
  {
    NextGap(l, c, n);
  }

  lemma {:induction false} PrevUnique(l: set<int>, c: int, n: int, d: int)
    requires -1 <= c < n
    requires -1 <= d < (if c == -1 then n else c) && (d == -1 || d in l)
    requires forall j :: d < j < (if c == -1 then n else c) ==> j !in l
    ensures Prev(l, c, n) == d
  {
    BelowGap(l, if c == -1 then n else c);
  }

  /** Next and Prev are inverse on the circular list. */
  lemma {:induction false} NextPrev(l: set<int>, c: int, n: int)
    requires -1 <= c < n && (c == -1 || c in l)
    ensures Prev(l, Next(l, c, n), n) == c && -1 <= Prev(l, c, n) < n && Next(l, Prev(l, c, n), n) == c
  {
    NextGap(l, c, n);
    PrevUnique(l, Next(l, c, n), n, c);
    BelowGap(l, if c == -1 then n else c);
    NextUnique(l, Prev(l, c, n), n, c);
  }

  /** Adding c between its neighbours changes exactly the two links that meet there. */
  lemma {:induction false} InsertNext(l: set<int>, c: int, n: int, j: int)
    requires 0 <= c < n && c !in l && -1 <= j < n && (j == -1 || j in l || j == c)
    ensures Next(l + {c}, j, n) == if j == Prev(l, Next(l, c, n), n) then c else Next(l, j, n)
    ensures Prev(l + {c}, j, n) == if j == Next(l, c, n) then c else Prev(l, j, n)
    ensures -1 <= Prev(l, Next(l, c, n), n) < c && Next(l, Prev(l, Next(l, c, n), n), n) == Next(l, c, n)
    ensures Prev(l, Next(l, c, n), n) == Prev(l, c, n)
  {
    var q := Next(l, c, n);
    var p := Prev(l, c, n);
    NextGap(l, c, n);
    BelowGap(l, c);
    PrevUnique(l, q, n, p);
    NextUnique(l, p, n, q);
    NextGap(l, j, n);
    BelowGap(l, if j == -1 then n else j);
    NextUnique(l + {c}, j, n, if j == p then c else Next(l, j, n));
    PrevUnique(l + {c}, j, n, if j == q then c else Prev(l, j, n));
  }

  /** Removing c joins its neighbours and changes nothing else. */
  lemma {:induction false} DeleteNext(l: set<int>, c: int, n: int, j: int)
    requires 0 <= c < n && c in l && -1 <= j < n && j != c && (j == -1 || j in l)
    ensures Next(l - {c}, j, n) == if j == Prev(l, c, n) then Next(l, c, n) else Next(l, j, n)
    ensures Prev(l - {c}, j, n) == if j == Next(l, c, n) then Prev(l, c, n) else Prev(l, j, n)
  {
    NextGap(l, c, n);
    BelowGap(l, c);
    NextGap(l, j, n);
    BelowGap(l, if j == -1 then n else j);
    NextUnique(l - {c}, j, n, if j == Prev(l, c, n) then Next(l, c, n) else Next(l, j, n));
    PrevUnique(l - {c}, j, n, if j == Next(l, c, n) then Prev(l, c, n) else Prev(l, j, n));
  }
}
