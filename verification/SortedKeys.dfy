/** The order in which a SortedDictionary enumerates its unsigned keys. */
module SortedKeys {
  import opened BigEndian

  ghost predicate IsLeast(m: U32, s: set<U32>) {
    m in s && forall x :: x in s ==> m <= x
  }

  lemma {:induction false} SplitOff(s: set<U32>, y: U32)
    requires y in s
    ensures |s - {y}| == |s| - 1 && s == (s - {y}) + {y}
  {
  }

  lemma {:induction false} LeastExists(s: set<U32>)
    requires s != {}
    ensures exists m :: IsLeast(m, s)
    decreases |s|
  {
    var y :| y in s;
    var rest := s - {y};
    SplitOff(s, y);
    if rest == {} {
      assert IsLeast(y, s);
    } else {
      LeastExists(rest);
      var m :| IsLeast(m, rest);
      assert IsLeast(if m <= y then m else y, s);
    }
  }

  function Least(s: set<U32>): (m: U32)
    requires s != {}
    ensures IsLeast(m, s)
  {
    LeastExists(s);
    var m :| m in s && forall x :: x in s ==> m <= x;
    m
  }

  function Ascending(s: set<U32>): seq<U32>
    decreases |s|
  {
    if s == {} then []
    else
      SplitOff(s, Least(s));
      [Least(s)] + Ascending(s - {Least(s)})
  }

  ghost predicate Increasing(q: seq<nat>) {
    forall i, j :: 0 <= i < j < |q| ==> q[i] < q[j]
  }

  ghost predicate Lists(q: seq<U32>, s: set<U32>) {
    Increasing(q) && (forall x :: x in q <==> x in s) && |q| == |s|
  }

  /** All the keys, each once, in increasing order. */
  lemma {:induction false} AscendingKeys(s: set<U32>)
    ensures Lists(Ascending(s), s)
    decreases |s|
  {
    if s != {} {
      var m := Least(s);
      SplitOff(s, m);
      AscendingKeys(s - {m});
      Prepend(m, s, Ascending(s - {m}));
    }
  }

  lemma {:induction false} Prepend(m: U32, s: set<U32>, q: seq<U32>)
    requires IsLeast(m, s) && Lists(q, s - {m})
    ensures Lists([m] + q, s)
  {
    SplitOff(s, m);
    forall j | 0 <= j < |q|
      ensures m < q[j]
    {
      assert q[j] in q;
    }
  }

  /** An increasing sequence is determined by its members. */
  lemma {:induction false} IncreasingUnique(p: seq<nat>, q: seq<nat>)
    requires Increasing(p) && Increasing(q) && forall x :: x in p <==> x in q
    ensures p == q
    decreases |p|
  {
    assert (p != [] ==> p[0] in p) && (q != [] ==> q[0] in q);
    if p != [] && q != [] {
      assert p[0] in q && q[0] in p;
      var p', q' := p[1..], q[1..];
      assert p[0] == q[0];
      forall x
        ensures x in p' <==> x in q'
      {
        if x in p' { assert x in q; }
        if x in q' { assert x in p; }
      }
      IncreasingUnique(p', q');
    }
  }

  /** A part of an increasing sequence is no longer than it, and is all of it when it is as long. */
  lemma {:induction false} IncreasingPart(p: seq<nat>, q: seq<nat>)
    requires Increasing(p) && Increasing(q) && forall x :: x in p ==> x in q
    ensures |p| <= |q| && (|p| == |q| ==> p == q)
    decreases |q|
  {
    assert p != [] ==> p[|p| - 1] in p;
    if p != [] && q != [] {
      var m, n := |p| - 1, |q| - 1;
      assert p[m] in q;
      if p[m] == q[n] {
        forall x | x in p[..m]
          ensures x in q[..n]
        {
          assert x in q;
        }
        IncreasingPart(p[..m], q[..n]);
      } else {
        forall x | x in p
          ensures x in q[..n]
        {
          assert x in q;
        }
        IncreasingPart(p, q[..n]);
      }
    }
  }

  /** The keys of q that lie in s, in the order of q. */
  function Pick(q: seq<U32>, s: set<U32>): seq<U32> {
    if q == [] then [] else Pick(q[..|q| - 1], s) + if q[|q| - 1] in s then [q[|q| - 1]] else []
  }

  lemma {:induction false} PickLast(q: seq<U32>, s: set<U32>)
    requires q != []
    ensures var n := |q| - 1; Pick(q, s) == if q[n] in s then Pick(q[..n], s) + [q[n]] else Pick(q[..n], s)
  {
  }

  lemma {:induction false} PickMembers(q: seq<U32>, s: set<U32>)
    requires Increasing(q)
    ensures Increasing(Pick(q, s)) && forall x :: x in Pick(q, s) <==> x in q && x in s
    decreases |q|
  {
    if q != [] {
      var n := |q| - 1;
      PickMembers(q[..n], s);
      assert q == q[..n] + [q[n]];
      var front := Pick(q[..n], s);
      forall i | 0 <= i < |front|
        ensures front[i] < q[n]
      {
        assert front[i] in q[..n];
      }
    }
  }

  /** Picking a subset from all the keys in order lists that subset in order. */
  lemma {:induction false} PickSubset(all: set<U32>, s: set<U32>)
    requires s <= all
    ensures Pick(Ascending(all), s) == Ascending(s)
  {
    hide Ascending, Pick;
    AscendingKeys(all);
    AscendingKeys(s);
    PickMembers(Ascending(all), s);
    IncreasingUnique(Pick(Ascending(all), s), Ascending(s));
  }

  /** A set that gains n, or stays as it is. */
  lemma {:induction false} OneMore(before: set<nat>, after: set<nat>, n: nat, more: bool)
    requires n !in before && forall x :: x in after <==> x in before || (more && x == n)
    ensures |after| == |before| + if more then 1 else 0
  {
    if more {
      assert after == before + {n};
    } else {
      assert after == before;
    }
  }
}
