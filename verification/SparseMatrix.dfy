/** mod2sparse.c: a sparse matrix over GF(2) as an orthogonal list.  Every one of the matrix is a
    node linked to its neighbours in its row and in its column; the lists are circular and closed
    by header nodes.  The abstract value is the set `ones` of places (row, column). */
module SparseMatrix {
  import opened Lines
  import opened Gf2

  /** mod2entry.  Headers have row and col -1; `place` tells headers apart: (r, -1) and (-1, c). */
  class Entry {
    ghost const place: Place
    const row: int
    const col: int
    var left: Entry
    var right: Entry
    var up: Entry
    var down: Entry

    constructor (row: int, col: int, ghost place: Place)
      ensures this.row == row && this.col == col && this.place == place
      ensures left == right == up == down == this
    {
      this.row, this.col, this.place := row, col, place;
      left, right, up, down := this, this, this, this;
    }

    /** mod2sparse_at_end */
    predicate AtEnd() {
      row < 0
    }
  }

  type Nodes = map<Place, Entry>

  ghost predicate InRange(s: set<Place>, m: int, n: int) {
    forall p :: p in s ==> 0 <= p.0 < m && 0 <= p.1 < n
  }

  ghost predicate Placed(nodes: Nodes, s: set<Place>, m: int, n: int) {
    && InRange(s, m, n)
    && (forall p :: p in nodes <==> OnRow(s, m, n, p) || OnCol(s, m, n, p))
    && (forall p :: p in nodes ==> nodes[p].place == p)
    && (forall p :: p in nodes ==>
        if p in s then nodes[p].row == p.0 && nodes[p].col == p.1 else nodes[p].row == -1 && nodes[p].col == -1)
  }

  lemma {:induction false} PlacedInsert(nodes: Nodes, s: set<Place>, m: int, n: int, ne: Entry)
    requires Placed(nodes, s, m, n)
    requires ne.place == (ne.row, ne.col) && 0 <= ne.row < m && 0 <= ne.col < n && ne.place !in s
    ensures Placed(nodes[ne.place := ne], s + {ne.place}, m, n) && ne.place !in nodes && ne !in nodes.Values
  {
  }

  lemma {:induction false} PlacedDelete(nodes: Nodes, s: set<Place>, m: int, n: int, e: Place)
    requires Placed(nodes, s, m, n) && e in s
    ensures Placed(nodes - {e}, s - {e}, m, n) && e in nodes
  {
  }

  // ----- row lists -----

  /** The occupied columns of a row. */
  ghost function RowLine(s: set<Place>, r: int): set<int> {
    set p | p in s && p.0 == r :: p.1
  }

  ghost predicate OnRow(s: set<Place>, m: int, n: int, p: Place) {
    p in s || (0 <= p.0 < m && p.1 == -1)
  }

  ghost function RightOf(s: set<Place>, m: int, n: int, p: Place): (q: Place)
    requires n > 0 && InRange(s, m, n) && OnRow(s, m, n, p)
    ensures OnRow(s, m, n, q) && q.0 == p.0
  {
    (p.0, Next(RowLine(s, p.0), p.1, n))
  }

  ghost function LeftOf(s: set<Place>, m: int, n: int, p: Place): (q: Place)
    requires n > 0 && InRange(s, m, n) && OnRow(s, m, n, p)
    ensures OnRow(s, m, n, q) && q.0 == p.0
  {
    (p.0, Prev(RowLine(s, p.0), p.1, n))
  }

  ghost predicate RowLinked(nodes: Nodes, s: set<Place>, m: int, n: int, p: Place)
    requires n > 0 && Placed(nodes, s, m, n) && p in nodes && OnRow(s, m, n, p)
    reads nodes.Values`left, nodes.Values`right
  {
    nodes[p].right == nodes[RightOf(s, m, n, p)] && nodes[p].left == nodes[LeftOf(s, m, n, p)]
  }

  ghost predicate RowsLinked(nodes: Nodes, s: set<Place>, m: int, n: int)
    requires n > 0 && Placed(nodes, s, m, n)
    reads nodes.Values`left, nodes.Values`right
  {
    forall p {:trigger RowLinked(nodes, s, m, n, p)} :: p in nodes && OnRow(s, m, n, p) ==> RowLinked(nodes, s, m, n, p)
  }

  lemma {:induction false} InsertRight(s: set<Place>, m: int, n: int, e: Place, p: Place)
    requires n > 0 && InRange(s, m, n) && 0 <= e.0 < m && 0 <= e.1 < n && e !in s
    requires OnRow(s + {e}, m, n, p)
    ensures InRange(s + {e}, m, n) && OnRow(s + {e}, m, n, e) && (p == e || OnRow(s, m, n, p))
    ensures var q := (e.0, Next(RowLine(s, e.0), e.1, n));
      && OnRow(s, m, n, q)
      && RightOf(s + {e}, m, n, e) == q && LeftOf(s + {e}, m, n, e) == LeftOf(s, m, n, q)
      && (p != e ==> RightOf(s + {e}, m, n, p) == if p == LeftOf(s, m, n, q) then e else RightOf(s, m, n, p))
      && (p != e ==> LeftOf(s + {e}, m, n, p) == if p == q then e else LeftOf(s, m, n, p))
  {
    var l := RowLine(s, e.0);
    assert RowLine(s + {e}, e.0) == l + {e.1};
    assert e.1 !in l;
    InsertNext(l, e.1, n, e.1);
    if p.0 == e.0 {
      assert p.1 == -1 || p.1 in l || p.1 == e.1;
      InsertNext(l, e.1, n, p.1);
    } else {
      assert RowLine(s + {e}, p.0) == RowLine(s, p.0);
    }
  }

  lemma {:induction false} DeleteRight(s: set<Place>, m: int, n: int, e: Place, p: Place)
    requires n > 0 && InRange(s, m, n) && e in s && OnRow(s - {e}, m, n, p)
    ensures InRange(s - {e}, m, n) && OnRow(s, m, n, p) && OnRow(s, m, n, e) && p != e
    ensures RightOf(s - {e}, m, n, p) == if p == LeftOf(s, m, n, e) then RightOf(s, m, n, e) else RightOf(s, m, n, p)
    ensures LeftOf(s - {e}, m, n, p) == if p == RightOf(s, m, n, e) then LeftOf(s, m, n, e) else LeftOf(s, m, n, p)
  {
    var l := RowLine(s, e.0);
    assert e.1 in l;
    if p.0 == e.0 {
      assert RowLine(s - {e}, e.0) == l - {e.1};
      assert p.1 == -1 || p.1 in l;
      DeleteNext(l, e.1, n, p.1);
    } else {
      assert RowLine(s - {e}, p.0) == RowLine(s, p.0);
    }
  }

  /** The last third of mod2sparse_insert: ne goes in front of re. */
  method LinkRow(ghost nodes: Nodes, ghost s: set<Place>, ghost m: int, ghost n: int, ne: Entry, re: Entry)
    requires n > 0 && Placed(nodes, s, m, n) && RowsLinked(nodes, s, m, n)
    requires ne.place == (ne.row, ne.col) && 0 <= ne.row < m && 0 <= ne.col < n && ne.place !in s
    requires re.place == (ne.row, Next(RowLine(s, ne.row), ne.col, n))
    requires re.place in nodes && re == nodes[re.place]
    modifies ne`left, ne`right, re`left, re.left`right
    ensures Placed(nodes[ne.place := ne], s + {ne.place}, m, n) && RowsLinked(nodes[ne.place := ne], s + {ne.place}, m, n)
  {
    ghost var e, q := ne.place, re.place;
    ghost var after, s' := nodes[e := ne], s + {e};
    PlacedInsert(nodes, s, m, n, ne);
    InsertRight(s, m, n, e, e);
    hide RightOf, LeftOf, OnRow, Next, Prev, RowLine, InRange;
    assert RowLinked(nodes, s, m, n, q);
    ne.left := re.left;
    ne.right := re;
    ne.left.right := ne;
    ne.right.left := ne;
    forall p {:trigger RowLinked(after, s', m, n, p)} | p in after && OnRow(s', m, n, p)
      ensures RowLinked(after, s', m, n, p)
    {
      InsertRight(s, m, n, e, p);
      if p != e {
        assert old(RowLinked(nodes, s, m, n, p));
      }
    }
  }

  /** One half of mod2sparse_delete: the neighbours of e are joined. */
  method UnlinkRow(ghost nodes: Nodes, ghost s: set<Place>, ghost m: int, ghost n: int, e: Entry)
    requires n > 0 && Placed(nodes, s, m, n) && RowsLinked(nodes, s, m, n)
    requires e.place in s && e.place in nodes && nodes[e.place] == e
    modifies e.left`right, e.right`left
    ensures Placed(nodes - {e.place}, s - {e.place}, m, n) && RowsLinked(nodes - {e.place}, s - {e.place}, m, n)
    ensures e.left == old(e.left) && e.right == old(e.right)
  {
    ghost var at := e.place;
    ghost var after, s' := nodes - {at}, s - {at};
    PlacedDelete(nodes, s, m, n, at);
    DeleteOtherInRow(s, m, n, at);
    hide RightOf, LeftOf, OnRow, Next, Prev, RowLine, InRange;
    assert RowLinked(nodes, s, m, n, at);
    e.left.right := e.right;
    e.right.left := e.left;
    forall p {:trigger RowLinked(after, s', m, n, p)} | p in after && OnRow(s', m, n, p)
      ensures RowLinked(after, s', m, n, p)
    {
      DeleteRight(s, m, n, at, p);
      assert old(RowLinked(nodes, s, m, n, p));
    }
  }

  /** A node is never its own neighbour: the header is in the list too. */
  lemma {:induction false} DeleteOtherInRow(s: set<Place>, m: int, n: int, e: Place)
    requires n > 0 && InRange(s, m, n) && e in s
    ensures OnRow(s, m, n, e) && LeftOf(s, m, n, e) != e && RightOf(s, m, n, e) != e
  {
  }

  // ----- column lists -----

  /** The occupied rows of a column. */
  ghost function ColLine(s: set<Place>, r: int): set<int> {
    set p | p in s && p.1 == r :: p.0
  }

  ghost predicate OnCol(s: set<Place>, m: int, n: int, p: Place) {
    p in s || (0 <= p.1 < n && p.0 == -1)
  }

  ghost function DownOf(s: set<Place>, m: int, n: int, p: Place): (q: Place)
    requires m > 0 && InRange(s, m, n) && OnCol(s, m, n, p)
    ensures OnCol(s, m, n, q) && q.1 == p.1
  {
    (Next(ColLine(s, p.1), p.0, m), p.1)
  }

  ghost function UpOf(s: set<Place>, m: int, n: int, p: Place): (q: Place)
    requires m > 0 && InRange(s, m, n) && OnCol(s, m, n, p)
    ensures OnCol(s, m, n, q) && q.1 == p.1
  {
    (Prev(ColLine(s, p.1), p.0, m), p.1)
  }

  ghost predicate ColLinked(nodes: Nodes, s: set<Place>, m: int, n: int, p: Place)
    requires m > 0 && Placed(nodes, s, m, n) && p in nodes && OnCol(s, m, n, p)
    reads nodes.Values`up, nodes.Values`down
  {
    nodes[p].down == nodes[DownOf(s, m, n, p)] && nodes[p].up == nodes[UpOf(s, m, n, p)]
  }

  ghost predicate ColsLinked(nodes: Nodes, s: set<Place>, m: int, n: int)
    requires m > 0 && Placed(nodes, s, m, n)
    reads nodes.Values`up, nodes.Values`down
  {
    forall p {:trigger ColLinked(nodes, s, m, n, p)} :: p in nodes && OnCol(s, m, n, p) ==> ColLinked(nodes, s, m, n, p)
  }

  lemma {:induction false} InsertDown(s: set<Place>, m: int, n: int, e: Place, p: Place)
    requires m > 0 && InRange(s, m, n) && 0 <= e.0 < m && 0 <= e.1 < n && e !in s
    requires OnCol(s + {e}, m, n, p)
    ensures InRange(s + {e}, m, n) && OnCol(s + {e}, m, n, e) && (p == e || OnCol(s, m, n, p))
    ensures var q := (Next(ColLine(s, e.1), e.0, m), e.1);
      && OnCol(s, m, n, q)
      && DownOf(s + {e}, m, n, e) == q && UpOf(s + {e}, m, n, e) == UpOf(s, m, n, q)
      && (p != e ==> DownOf(s + {e}, m, n, p) == if p == UpOf(s, m, n, q) then e else DownOf(s, m, n, p))
      && (p != e ==> UpOf(s + {e}, m, n, p) == if p == q then e else UpOf(s, m, n, p))
  {
    var l := ColLine(s, e.1);
    assert ColLine(s + {e}, e.1) == l + {e.0};
    assert e.0 !in l;
    InsertNext(l, e.0, m, e.0);
    if p.1 == e.1 {
      assert p.0 == -1 || p.0 in l || p.0 == e.0;
      InsertNext(l, e.0, m, p.0);
    } else {
      assert ColLine(s + {e}, p.1) == ColLine(s, p.1);
    }
  }

  lemma {:induction false} DeleteDown(s: set<Place>, m: int, n: int, e: Place, p: Place)
    requires m > 0 && InRange(s, m, n) && e in s && OnCol(s - {e}, m, n, p)
    ensures InRange(s - {e}, m, n) && OnCol(s, m, n, p) && OnCol(s, m, n, e) && p != e
    ensures DownOf(s - {e}, m, n, p) == if p == UpOf(s, m, n, e) then DownOf(s, m, n, e) else DownOf(s, m, n, p)
    ensures UpOf(s - {e}, m, n, p) == if p == DownOf(s, m, n, e) then UpOf(s, m, n, e) else UpOf(s, m, n, p)
  {
    var l := ColLine(s, e.1);
    assert e.0 in l;
    if p.1 == e.1 {
      assert ColLine(s - {e}, e.1) == l - {e.0};
      assert p.0 == -1 || p.0 in l;
      DeleteNext(l, e.0, m, p.0);
    } else {
      assert ColLine(s - {e}, p.1) == ColLine(s, p.1);
    }
  }

  /** The last third of mod2sparse_insert: ne goes in front of ce. */
  method LinkCol(ghost nodes: Nodes, ghost s: set<Place>, ghost m: int, ghost n: int, ne: Entry, ce: Entry)
    requires m > 0 && Placed(nodes, s, m, n) && ColsLinked(nodes, s, m, n)
    requires ne.place == (ne.row, ne.col) && 0 <= ne.row < m && 0 <= ne.col < n && ne.place !in s
    requires ce.place == (Next(ColLine(s, ne.col), ne.row, m), ne.col)
    requires ce.place in nodes && ce == nodes[ce.place]
    modifies ne`up, ne`down, ce`up, ce.up`down
    ensures Placed(nodes[ne.place := ne], s + {ne.place}, m, n) && ColsLinked(nodes[ne.place := ne], s + {ne.place}, m, n)
  {
    ghost var e, q := ne.place, ce.place;
    ghost var after, s' := nodes[e := ne], s + {e};
    PlacedInsert(nodes, s, m, n, ne);
    InsertDown(s, m, n, e, e);
    hide DownOf, UpOf, OnCol, Next, Prev, ColLine, InRange;
    assert ColLinked(nodes, s, m, n, q);
    ne.up := ce.up;
    ne.down := ce;
    ne.up.down := ne;
    ne.down.up := ne;
    forall p {:trigger ColLinked(after, s', m, n, p)} | p in after && OnCol(s', m, n, p)
      ensures ColLinked(after, s', m, n, p)
    {
      InsertDown(s, m, n, e, p);
      if p != e {
        assert old(ColLinked(nodes, s, m, n, p));
      }
    }
  }

  /** One half of mod2sparse_delete: the neighbours of e are joined. */
  method UnlinkCol(ghost nodes: Nodes, ghost s: set<Place>, ghost m: int, ghost n: int, e: Entry)
    requires m > 0 && Placed(nodes, s, m, n) && ColsLinked(nodes, s, m, n)
    requires e.place in s && e.place in nodes && nodes[e.place] == e
    modifies e.up`down, e.down`up
    ensures Placed(nodes - {e.place}, s - {e.place}, m, n) && ColsLinked(nodes - {e.place}, s - {e.place}, m, n)
    ensures e.up == old(e.up) && e.down == old(e.down)
  {
    ghost var at := e.place;
    ghost var after, s' := nodes - {at}, s - {at};
    PlacedDelete(nodes, s, m, n, at);
    DeleteOtherInCol(s, m, n, at);
    hide DownOf, UpOf, OnCol, Next, Prev, ColLine, InRange;
    assert ColLinked(nodes, s, m, n, at);
    e.up.down := e.down;
    e.down.up := e.up;
    forall p {:trigger ColLinked(after, s', m, n, p)} | p in after && OnCol(s', m, n, p)
      ensures ColLinked(after, s', m, n, p)
    {
      DeleteDown(s, m, n, at, p);
      assert old(ColLinked(nodes, s, m, n, p));
    }
  }

  /** A node is never its own neighbour: the header is in the list too. */
  lemma {:induction false} DeleteOtherInCol(s: set<Place>, m: int, n: int, e: Place)
    requires m > 0 && InRange(s, m, n) && e in s
    ensures OnCol(s, m, n, e) && UpOf(s, m, n, e) != e && DownOf(s, m, n, e) != e
  {
  }

  lemma {:induction false} RowLineMembers(s: set<Place>, r: int)
    ensures forall j {:trigger j in RowLine(s, r)} {:trigger (r, j) in s} :: j in RowLine(s, r) <==> (r, j) in s
  {
    forall j
      ensures j in RowLine(s, r) <==> (r, j) in s
    {
      if (r, j) in s {
        assert (r, j).1 == j;
      }
    }
  }

  lemma {:induction false} ColLineMembers(s: set<Place>, c: int)
    ensures forall i {:trigger i in ColLine(s, c)} {:trigger (i, c) in s} :: i in ColLine(s, c) <==> (i, c) in s
  {
    forall i
      ensures i in ColLine(s, c) <==> (i, c) in s
    {
      if (i, c) in s {
        assert (i, c).0 == i;
      }
    }
  }

  ghost predicate SelfLinked(h: Entry)
    reads h
  {
    h.left == h.right == h.up == h.down == h
  }

  method RowHeaders(m: int) returns (hs: seq<Entry>)
    requires 0 <= m
    ensures |hs| == m && fresh(hs)
    ensures forall i :: 0 <= i < m ==> hs[i].place == (i, -1) && hs[i].row == hs[i].col == -1 && SelfLinked(hs[i])
  {
    hs := [];
    for i := 0 to m
      invariant |hs| == i && fresh(hs)
      invariant forall k :: 0 <= k < i ==> hs[k].place == (k, -1) && hs[k].row == hs[k].col == -1 && SelfLinked(hs[k])
    {
      var h := new Entry(-1, -1, (i, -1));
      hs := hs + [h];
    }
  }

  method ColHeaders(n: int) returns (hs: seq<Entry>)
    requires 0 <= n
    ensures |hs| == n && fresh(hs)
    ensures forall j :: 0 <= j < n ==> hs[j].place == (-1, j) && hs[j].row == hs[j].col == -1 && SelfLinked(hs[j])
  {
    hs := [];
    for j := 0 to n
      invariant |hs| == j && fresh(hs)
      invariant forall k :: 0 <= k < j ==> hs[k].place == (-1, k) && hs[k].row == hs[k].col == -1 && SelfLinked(hs[k])
    {
      var h := new Entry(-1, -1, (-1, j));
      hs := hs + [h];
    }
  }

  method CloseHeaders(hs: seq<Entry>)
    modifies hs
    ensures forall h :: h in hs ==> SelfLinked(h)
  {
    for i := 0 to |hs|
      invariant forall k :: 0 <= k < i ==> SelfLinked(hs[k])
    {
      var h := hs[i];
      h.left, h.right, h.up, h.down := h, h, h, h;
    }
  }

  ghost function HeaderNodes(rs: seq<Entry>, cs: seq<Entry>): Nodes {
    var places := (set i | 0 <= i < |rs| :: (i, -1)) + (set j | 0 <= j < |cs| :: (-1, j));
    map p | p in places :: if p.1 == -1 then rs[p.0] else cs[p.1]
  }

  lemma {:induction false} HeadersPlaced(rs: seq<Entry>, cs: seq<Entry>, o: object)
    requires forall i :: 0 <= i < |rs| ==> rs[i].place == (i, -1) && rs[i].row == rs[i].col == -1 && SelfLinked(rs[i])
    requires forall j :: 0 <= j < |cs| ==> cs[j].place == (-1, j) && cs[j].row == cs[j].col == -1 && SelfLinked(cs[j])
    ensures Placed(HeaderNodes(rs, cs), {}, |rs|, |cs|)
    ensures Headed(HeaderNodes(rs, cs), {}, |rs|, |cs|, rs, cs)
    ensures Within(HeaderNodes(rs, cs), {o} + (set x: object | x in rs) + (set x: object | x in cs))
    ensures forall p :: p in HeaderNodes(rs, cs) ==> SelfLinked(HeaderNodes(rs, cs)[p])
  {
    hide SelfLinked;
  }

  /** Headers that point to themselves are the lists of the zero matrix. */
  lemma {:induction false} EmptyLinks(nodes: Nodes, m: int, n: int)
    requires m > 0 && n > 0 && Placed(nodes, {}, m, n)
    requires forall p :: p in nodes ==> SelfLinked(nodes[p])
    ensures RowsLinked(nodes, {}, m, n) && ColsLinked(nodes, {}, m, n)
  {
    forall p {:trigger RowLinked(nodes, {}, m, n, p)} | p in nodes && OnRow({}, m, n, p)
      ensures RowLinked(nodes, {}, m, n, p)
    {
      assert RowLine({}, p.0) == {};
      NextUnique({}, -1, n, -1);
      PrevUnique({}, -1, n, -1);
    }
    forall p {:trigger ColLinked(nodes, {}, m, n, p)} | p in nodes && OnCol({}, m, n, p)
      ensures ColLinked(nodes, {}, m, n, p)
    {
      assert ColLine({}, p.1) == {};
      NextUnique({}, -1, m, -1);
      PrevUnique({}, -1, m, -1);
    }
  }

  ghost predicate Within(nodes: Nodes, repr: set<object>) {
    forall x :: x in nodes.Values ==> x in repr
  }

  /** The header arrays hold the header nodes. */
  ghost predicate Headed(nodes: Nodes, s: set<Place>, m: int, n: int, rows: seq<Entry>, cols: seq<Entry>)
    requires Placed(nodes, s, m, n)
  {
    && |rows| == m && |cols| == n
    && (forall i {:trigger rows[i]} :: 0 <= i < m ==> nodes[(i, -1)] == rows[i])
    && (forall j {:trigger cols[j]} :: 0 <= j < n ==> nodes[(-1, j)] == cols[j])
  }

  lemma {:induction false} HeadedInsert(nodes: Nodes, s: set<Place>, m: int, n: int, rows: seq<Entry>, cols: seq<Entry>, ne: Entry)
    requires Placed(nodes, s, m, n) && Headed(nodes, s, m, n, rows, cols)
    requires ne.place == (ne.row, ne.col) && 0 <= ne.row < m && 0 <= ne.col < n && ne.place !in s
    ensures Placed(nodes[ne.place := ne], s + {ne.place}, m, n)
    ensures Headed(nodes[ne.place := ne], s + {ne.place}, m, n, rows, cols)
  {
    PlacedInsert(nodes, s, m, n, ne);
  }

  lemma {:induction false} HeadedDelete(nodes: Nodes, s: set<Place>, m: int, n: int, rows: seq<Entry>, cols: seq<Entry>, e: Place)
    requires Placed(nodes, s, m, n) && Headed(nodes, s, m, n, rows, cols) && e in s
    ensures Placed(nodes - {e}, s - {e}, m, n)
    ensures Headed(nodes - {e}, s - {e}, m, n, rows, cols)
  {
    PlacedDelete(nodes, s, m, n, e);
  }

  lemma {:induction false} WithinMore(nodes: Nodes, small: set<object>, large: set<object>)
    requires Within(nodes, small) && small <= large
    ensures Within(nodes, large)
  {
  }

  lemma {:induction false} WithinInsert(nodes: Nodes, repr: set<object>, p: Place, ne: Entry)
    requires Within(nodes, repr)
    ensures Within(nodes[p := ne], repr + {ne})
  {
    forall x | x in nodes[p := ne].Values
      ensures x in repr + {ne}
    {
      var q :| q in nodes[p := ne] && nodes[p := ne][q] == x;
      if q != p {
        assert nodes[q] in nodes.Values;
      }
    }
  }

  lemma {:induction false} WithinDelete(nodes: Nodes, repr: set<object>, p: Place)
    requires Within(nodes, repr)
    ensures Within(nodes - {p}, repr)
  {
    forall x | x in (nodes - {p}).Values
      ensures x in repr
    {
      var q :| q in nodes - {p} && (nodes - {p})[q] == x;
      assert nodes[q] in nodes.Values;
    }
  }

  /** Mod2sparse_block: how many entries are allocated at a time. */
  const BLOCK: nat := 10

  /** mod2sparse */
  class Mod2Sparse {
    const nRows: int
    const nCols: int
    const rows: seq<Entry>
    const cols: seq<Entry>
    /** The length of the list next_free of entries that are allocated and not in use. */
    var free: nat
    /** next_free points into blocks that were given back: no entry may be inserted or deleted any more. */
    ghost var dangling: bool
    ghost var nodes: Nodes
    ghost var ones: set<Place>
    ghost var Repr: set<object>

    ghost predicate Valid()
      reads this, Repr
      ensures Valid() ==> this in Repr
    {
      && !dangling && this in Repr && Within(nodes, Repr)
      && nRows > 0 && nCols > 0
      && Placed(nodes, ones, nRows, nCols)
      && Headed(nodes, ones, nRows, nCols, rows, cols)
      && RowsLinked(nodes, ones, nRows, nCols)
      && ColsLinked(nodes, ones, nRows, nCols)
    }

    // ----- cursors -----

    /** e is the header or an entry of row r. */
    ghost predicate RowCursor(e: Entry, r: int)
      reads this
    {
      e.place in nodes && nodes[e.place] == e && e.place.0 == r && OnRow(ones, nRows, nCols, e.place)
    }

    ghost predicate ColCursor(e: Entry, c: int)
      reads this
    {
      e.place in nodes && nodes[e.place] == e && e.place.1 == c && OnCol(ones, nRows, nCols, e.place)
    }

    /** Where a cursor stands; past the last column when it is at the end. */
    ghost function RowPos(e: Entry): int {
      if e.AtEnd() then nCols else e.col
    }

    ghost function ColPos(e: Entry): int {
      if e.AtEnd() then nRows else e.row
    }

    ghost predicate ClearInRow(r: int, lo: int, hi: int)
      reads this
    {
      forall j :: lo <= j < hi ==> (r, j) !in ones
    }

    ghost predicate ClearInCol(c: int, lo: int, hi: int)
      reads this
    {
      forall i :: lo <= i < hi ==> (i, c) !in ones
    }

    lemma {:induction false} RowStep(e: Entry, r: int)
      requires Valid() && RowCursor(e, r) && 0 <= r < nRows
      ensures RowCursor(e.right, r) && e.place.1 < RowPos(e.right) <= nCols
      ensures ClearInRow(r, e.place.1 + 1, RowPos(e.right))
      ensures e.right.place.1 == (if e.right.AtEnd() then -1 else e.right.col)
      ensures !e.right.AtEnd() ==> (r, e.right.col) in ones && e.right.row == r && 0 <= e.right.col
      ensures e.right.AtEnd() ==> e.right == rows[r]
    {
      assert RowLinked(nodes, ones, nRows, nCols, e.place);
      NextGap(RowLine(ones, r), e.place.1, nCols);
      RowLineMembers(ones, r);
    }

    lemma {:induction false} ColStep(e: Entry, c: int)
      requires Valid() && ColCursor(e, c) && 0 <= c < nCols
      ensures ColCursor(e.down, c) && e.place.0 < ColPos(e.down) <= nRows
      ensures ClearInCol(c, e.place.0 + 1, ColPos(e.down))
      ensures e.down.place.0 == (if e.down.AtEnd() then -1 else e.down.row)
      ensures !e.down.AtEnd() ==> (e.down.row, c) in ones && e.down.col == c && 0 <= e.down.row
      ensures e.down.AtEnd() ==> e.down == cols[c]
    {
      assert ColLinked(nodes, ones, nRows, nCols, e.place);
      NextGap(ColLine(ones, c), e.place.0, nRows);
      ColLineMembers(ones, c);
    }

    /** What a cursor shows of its place. */
    lemma {:induction false} CursorPlace(e: Entry, r: int)
      requires Valid() && RowCursor(e, r)
      ensures e.place.1 == (if e.AtEnd() then -1 else e.col)
      ensures !e.AtEnd() ==> (r, e.col) in ones && e.row == r && 0 <= e.col < nCols
      ensures 0 <= RowPos(e) <= nCols
    {
    }

    lemma {:induction false} ColCursorPlace(e: Entry, c: int)
      requires Valid() && ColCursor(e, c)
      ensures e.place.0 == (if e.AtEnd() then -1 else e.row)
      ensures !e.AtEnd() ==> (e.row, c) in ones && e.col == c && 0 <= e.row < nRows
      ensures 0 <= ColPos(e) <= nRows
    {
    }

    lemma {:induction false} RowNeighbours(e: Entry, r: int)
      requires Valid() && RowCursor(e, r)
      ensures e in Repr && e.left in Repr && e.right in Repr && e.left in nodes.Values && e.right in nodes.Values
    {
      assert RowLinked(nodes, ones, nRows, nCols, e.place);
    }

    lemma {:induction false} ColNeighbours(e: Entry, c: int)
      requires Valid() && ColCursor(e, c)
      ensures e in Repr && e.up in Repr && e.down in Repr && e.up in nodes.Values && e.down in nodes.Values
    {
      assert ColLinked(nodes, ones, nRows, nCols, e.place);
    }

    lemma {:induction false} RowHeader(r: int)
      requires Valid() && 0 <= r < nRows
      ensures RowCursor(rows[r], r) && rows[r].place == (r, -1) && rows[r].AtEnd()
    {
    }

    lemma {:induction false} ColHeader(c: int)
      requires Valid() && 0 <= c < nCols
      ensures ColCursor(cols[c], c) && cols[c].place == (-1, c) && cols[c].AtEnd()
    {
    }

    /** The first entry of a row; none means an empty row. */
    lemma {:induction false} RowHeaderStep(r: int)
      requires Valid() && 0 <= r < nRows
      ensures |rows| == nRows && RowCursor(rows[r].right, r) && ClearInRow(r, 0, RowPos(rows[r].right))
    {
      RowHeader(r);
      RowStep(rows[r], r);
    }

    lemma {:induction false} ColHeaderStep(c: int)
      requires Valid() && 0 <= c < nCols
      ensures |cols| == nCols && ColCursor(cols[c].down, c) && ClearInCol(c, 0, ColPos(cols[c].down))
    {
      ColHeader(c);
      ColStep(cols[c], c);
    }

    lemma {:induction false} OnesInRange()
      requires Valid()
      ensures nRows > 0 && nCols > 0 && forall r, c :: (r, c) in ones ==> 0 <= r < nRows && 0 <= c < nCols
    {
    }

    lemma {:induction false} LastInRow(r: int)
      requires Valid() && 0 <= r < nRows
      ensures var e := rows[r].left;
        && RowCursor(e, r) && e.right == rows[r] && ClearInRow(r, e.place.1 + 1, nCols)
        && e.place.1 == (if e.AtEnd() then -1 else e.col)
        && (!e.AtEnd() ==> (r, e.col) in ones && e.row == r && 0 <= e.col)
    {
      RowHeader(r);
      assert RowLinked(nodes, ones, nRows, nCols, (r, -1));
      var p := rows[r].left.place;
      assert RowLinked(nodes, ones, nRows, nCols, p);
      BelowGap(RowLine(ones, r), nCols);
      NextPrev(RowLine(ones, r), -1, nCols);
      RowLineMembers(ones, r);
    }

    lemma {:induction false} LastInCol(c: int)
      requires Valid() && 0 <= c < nCols
      ensures var e := cols[c].up;
        && ColCursor(e, c) && e.down == cols[c] && ClearInCol(c, e.place.0 + 1, nRows)
        && e.place.0 == (if e.AtEnd() then -1 else e.row)
        && (!e.AtEnd() ==> (e.row, c) in ones && e.col == c && 0 <= e.row)
    {
      ColHeader(c);
      assert ColLinked(nodes, ones, nRows, nCols, (-1, c));
      var p := cols[c].up.place;
      assert ColLinked(nodes, ones, nRows, nCols, p);
      BelowGap(ColLine(ones, c), nRows);
      NextPrev(ColLine(ones, c), -1, nRows);
      ColLineMembers(ones, c);
    }

    // ----- mod2sparse_allocate, find, insert, delete -----

    constructor (nRows: int, nCols: int)
      requires nRows > 0 && nCols > 0
      ensures Valid() && fresh(Repr) && ones == {} && free == 0
      ensures this.nRows == nRows && this.nCols == nCols
    {
      hide Placed, Headed, Within, RowsLinked, ColsLinked, HeaderNodes, SelfLinked;
      var rs := RowHeaders(nRows);
      var cs := ColHeaders(nCols);
      this.nRows, this.nCols, rows, cols := nRows, nCols, rs, cs;
      ones := {};
      free, dangling := 0, false;
      nodes := HeaderNodes(rs, cs);
      Repr := {this} + (set x: object | x in rs) + (set x: object | x in cs);
      new;
      HeadersPlaced(rs, cs, this);
      EmptyLinks(nodes, nRows, nCols);
    }

    /** mod2sparse_find */
    method Find(row: int, col: int) returns (e: Entry?)
      requires Valid() && 0 <= row < nRows && 0 <= col < nCols
      ensures e == null <==> (row, col) !in ones
      ensures e != null ==> (row, col) in nodes && e == nodes[(row, col)]
    {
      LastInRow(row);
      LastInCol(col);
      var re := rows[row].left;
      if re.AtEnd() || re.col < col { return null; }
      if re.col == col { return re; }
      var ce := cols[col].up;
      if ce.AtEnd() || ce.row < row { return null; }
      if ce.row == row { return ce; }
      RowHeader(row);
      ColHeader(col);
      RowStep(rows[row], row);
      ColStep(cols[col], col);
      re := rows[row].right;
      ce := cols[col].down;
      while true
        invariant RowCursor(re, row)
        invariant RowPos(re) <= col || (row, col) !in ones
        invariant !re.AtEnd() ==> re.place == (row, re.col)
        invariant ColCursor(ce, col)
        invariant ColPos(ce) <= row || (row, col) !in ones
        invariant !ce.AtEnd() ==> ce.place == (ce.row, col)
        decreases nCols - RowPos(re)
      {
        if re.AtEnd() || re.col > col { return null; }
        if re.col == col { return re; }
        if ce.AtEnd() || ce.row > row { return null; }
        if ce.row == row { return ce; }
        RowStep(re, row);
        ColStep(ce, col);
        re := re.right;
        ce := ce.down;
      }
    }

    /** The search of mod2sparse_insert along the row: an existing entry, or the node to insert before. */
    method RowSlot(row: int, col: int) returns (re: Entry, found: bool)
      requires Valid() && 0 <= row < nRows && 0 <= col < nCols
      ensures RowCursor(re, row)
      ensures found ==> (row, col) in ones && re == nodes[(row, col)]
      ensures !found ==> (row, col) !in ones && re.place == (row, Next(RowLine(ones, row), col, nCols))
    {
      LastInRow(row);
      re := rows[row].left;
      found := false;
      if !re.AtEnd() && re.col == col { return re, true; }
      if re.AtEnd() || re.col < col {
        re := re.right;
        RowHeader(row);
      } else {
        RowHeader(row);
        RowStep(rows[row], row);
        re := rows[row].right;
        while true
          invariant RowCursor(re, row) && ClearInRow(row, col, RowPos(re))
          invariant re.place == (row, if re.AtEnd() then -1 else re.col)
          decreases nCols - RowPos(re)
        {
          if !re.AtEnd() && re.col == col { return re, true; }
          if re.AtEnd() || re.col > col { break; }
          RowStep(re, row);
          re := re.right;
        }
      }
      RowLineMembers(ones, row);
      NextUnique(RowLine(ones, row), col, nCols, re.place.1);
    }

    /** The same search along the column.  Its "Garbled matrix" exits cannot be reached: an entry
        that is not in the row list is not in the column list. */
    method ColSlot(row: int, col: int) returns (ce: Entry)
      requires Valid() && 0 <= row < nRows && 0 <= col < nCols && (row, col) !in ones
      ensures ColCursor(ce, col) && ce.place == (Next(ColLine(ones, col), row, nRows), col)
    {
      LastInCol(col);
      ce := cols[col].up;
      if !ce.AtEnd() && ce.row == row { assert false; }
      if ce.AtEnd() || ce.row < row {
        ce := ce.down;
        ColHeader(col);
      } else {
        ColHeader(col);
        ColStep(cols[col], col);
        ce := cols[col].down;
        while true
          invariant ColCursor(ce, col) && ClearInCol(col, row, ColPos(ce))
          invariant ce.place == (if ce.AtEnd() then -1 else ce.row, col)
          decreases nRows - ColPos(ce)
        {
          if !ce.AtEnd() && ce.row == row { assert false; }
          if ce.AtEnd() || ce.row > row { break; }
          ColStep(ce, col);
          ce := ce.down;
        }
      }
      ColLineMembers(ones, col);
      NextUnique(ColLine(ones, col), row, nRows, ce.place.0);
    }

    /** A new entry, linked in front of re in its row and of ce in its column. */
    method LinkedEntry(row: int, col: int, re: Entry, ce: Entry) returns (ne: Entry)
      requires Valid() && 0 <= row < nRows && 0 <= col < nCols && (row, col) !in ones
      requires RowCursor(re, row) && re.place == (row, Next(RowLine(ones, row), col, nCols))
      requires ColCursor(ce, col) && ce.place == (Next(ColLine(ones, col), row, nRows), col)
      modifies Repr - {this}
      ensures fresh(ne) && LinksHold(nodes[(row, col) := ne], ones + {(row, col)}, Repr + {ne})
    {
      hide Placed, Headed, Within, RowsLinked, ColsLinked, OnRow, OnCol;
      RowNeighbours(re, row);
      ColNeighbours(ce, col);
      ne := new Entry(row, col, (row, col));
      HeadedInsert(nodes, ones, nRows, nCols, rows, cols, ne);
      WithinInsert(nodes, Repr, (row, col), ne);
      LinkRow(nodes, ones, nRows, nCols, ne, re);
      LinkCol(nodes, ones, nRows, nCols, ne, ce);
    }

    /** The part of Valid that is about the nodes and their links. */
    ghost predicate LinksHold(nodes: Nodes, ones: set<Place>, repr: set<object>)
      reads this, repr
    {
      && this in repr && Within(nodes, repr)
      && nRows > 0 && nCols > 0
      && Placed(nodes, ones, nRows, nCols)
      && Headed(nodes, ones, nRows, nCols, rows, cols)
      && RowsLinked(nodes, ones, nRows, nCols)
      && ColsLinked(nodes, ones, nRows, nCols)
    }

    /** The new entry is taken from the free list or from a new block. */
    method Attach(row: int, col: int, re: Entry, ce: Entry) returns (ne: Entry)
      requires Valid() && 0 <= row < nRows && 0 <= col < nCols && (row, col) !in ones
      requires RowCursor(re, row) && re.place == (row, Next(RowLine(ones, row), col, nCols))
      requires ColCursor(ce, col) && ce.place == (Next(ColLine(ones, col), row, nRows), col)
      modifies Repr
      ensures Valid() && Repr == old(Repr) + {ne} && fresh(ne)
      ensures ones == old(ones) + {(row, col)}
      ensures nodes == old(nodes)[(row, col) := ne]
      ensures free == (if old(free) == 0 then BLOCK else old(free)) - 1
    {
      hide Placed, Headed, Within, RowsLinked, ColsLinked, RowCursor, ColCursor;
      ne := LinkedEntry(row, col, re, ce);
      nodes, ones, Repr := nodes[(row, col) := ne], ones + {(row, col)}, Repr + {ne};
      free := (if free == 0 then BLOCK else free) - 1;
    }

    /** mod2sparse_insert */
    method Insert(row: int, col: int) returns (ne: Entry)
      requires Valid() && 0 <= row < nRows && 0 <= col < nCols
      modifies Repr
      ensures Valid() && fresh(Repr - old(Repr))
      ensures ones == old(ones) + {(row, col)}
      ensures nodes == old(nodes)[(row, col) := ne]
      ensures free == if (row, col) in old(ones) then old(free) else (if old(free) == 0 then BLOCK else old(free)) - 1
    {
      var re, found := RowSlot(row, col);
      if found {
        ne := re;
      } else {
        var ce := ColSlot(row, col);
        hide Valid;
        ne := Attach(row, col, re, ce);
      }
    }

    method Unlink(e: Entry)
      requires Valid() && e.place in ones && nodes[e.place] == e
      modifies Repr - {this}
      ensures LinksHold(nodes - {e.place}, ones - {e.place}, Repr)
      ensures e.right == old(e.right) && e.down == old(e.down)
    {
      RowNeighbours(e, e.place.0);
      ColNeighbours(e, e.place.1);
      HeadedDelete(nodes, ones, nRows, nCols, rows, cols, e.place);
      WithinDelete(nodes, Repr, e.place);
      UnlinkRow(nodes, ones, nRows, nCols, e);
      UnlinkCol(nodes, ones, nRows, nCols, e);
    }

    /** mod2sparse_delete; the links out of the removed entry stay as they were. */
    method Delete(e: Entry)
      requires Valid() && e.place in ones && nodes[e.place] == e
      modifies Repr
      ensures Valid() && Repr == old(Repr)
      ensures ones == old(ones) - {e.place} && nodes == old(nodes) - {e.place} && free == old(free) + 1
      ensures e.right == old(e.right) && e.down == old(e.down)
    {
      hide Placed, Headed, Within, RowsLinked, ColsLinked;
      Unlink(e);
      nodes, ones := nodes - {e.place}, ones - {e.place};
      free := free + 1;
    }

    lemma {:induction false} HeaderFacts()
      requires Valid()
      ensures |rows| == nRows && |cols| == nCols
      ensures forall i :: 0 <= i < nRows ==> rows[i].place == (i, -1) && rows[i].row == rows[i].col == -1 && rows[i] in Repr
      ensures forall j :: 0 <= j < nCols ==> cols[j].place == (-1, j) && cols[j].row == cols[j].col == -1 && cols[j] in Repr
    {
      hide RowsLinked, ColsLinked;
      forall i | 0 <= i < nRows
        ensures rows[i].place == (i, -1) && rows[i].row == rows[i].col == -1 && rows[i] in Repr
      {
        assert nodes[(i, -1)] in nodes.Values;
      }
      forall j | 0 <= j < nCols
        ensures cols[j].place == (-1, j) && cols[j].row == cols[j].col == -1 && cols[j] in Repr
      {
        assert nodes[(-1, j)] in nodes.Values;
      }
    }

    method LinkHeaders()
      requires Valid()
      modifies Repr - {this}
      ensures LinksHold(HeaderNodes(rows, cols), {}, Repr)
    {
      hide Placed, Headed, Within, RowsLinked, ColsLinked, HeaderNodes, SelfLinked;
      HeaderFacts();
      CloseHeaders(rows);
      CloseHeaders(cols);
      HeadersPlaced(rows, cols, this);
      WithinMore(HeaderNodes(rows, cols), {this} + (set x: object | x in rows) + (set x: object | x in cols), Repr);
      EmptyLinks(HeaderNodes(rows, cols), nRows, nCols);
    }

    /** mod2sparse_clear: every header is linked to itself.  The source gives all blocks back but keeps next_free, so that
        the matrix can be used on exactly when its free list was empty. */
    method Clear()
      requires Valid()
      modifies Repr
      ensures ones == {} && Repr == old(Repr) && free == old(free) && LinksHold(nodes, ones, Repr)
      ensures dangling <==> old(free) > 0
      ensures Valid() <==> old(free) == 0
    {
      hide Placed, Headed, Within, RowsLinked, ColsLinked, HeaderNodes;
      LinkHeaders();
      nodes, ones, dangling := HeaderNodes(rows, cols), {}, free > 0;
    }
  }
}
