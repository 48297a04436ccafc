/** AfsTimeSynchronizer: four-timestamp offset samples and their median. */
module ClockOffset {
  import opened Results
  import opened BitPacking
  import opened BigEndian
  import opened PacketCodec

  // ----- one sample -----

  /** 64-bit wrap-around. */
  function Wrap(n: int): I64 {
    (n + 0x8000_0000_0000_0000) % 0x1_0000_0000_0000_0000 - 0x8000_0000_0000_0000
  }

  /** Half, truncated toward zero. */
  function Half(n: int): int {
    if n >= 0 then n / 2 else -((-n) / 2)
  }

  /** (t2 - t1 + t3 - t4) / 2 */
  function Sample(t1: I64, t2: I64, t3: I64, t4: I64): I64 {
    Half(Wrap(Wrap(Wrap(t2 - t1) + t3) - t4))
  }

  const MAX_TICKS: int := 3_155_378_975_999_999_999

  predicate IsDate(t: int) {
    0 <= t <= MAX_TICKS
  }

  /** On dates nothing wraps. */
  lemma {:induction false} NoWrap(t1: I64, t2: I64, t3: I64, t4: I64)
    requires IsDate(t1) && IsDate(t2) && IsDate(t3) && IsDate(t4)
    ensures Sample(t1, t2, t3, t4) == Half(t2 - t1 + t3 - t4)
  {
    InRange(t2 - t1);
    InRange(t2 - t1 + t3);
    InRange(t2 - t1 + t3 - t4);
  }

  lemma {:induction false} InRange(n: int)
    requires -0x8000_0000_0000_0000 <= n < 0x8000_0000_0000_0000
    ensures Wrap(n) == n
  {
  }

  function Abs(n: int): nat {
    if n >= 0 then n else -n
  }

  /** The receiver's clock is ahead by theta; the request takes `there`, the reply `back` ticks. A sample misses theta by at
      most half the difference of the two delays, and half a tick of rounding. */
  lemma {:induction false} SampleError(t1: I64, t2: I64, t3: I64, t4: I64, theta: int, there: int, back: int)
    requires IsDate(t1) && IsDate(t2) && IsDate(t3) && IsDate(t4)
    requires t2 == t1 + there + theta && t4 == t3 - theta + back
    ensures 2 * Abs(Sample(t1, t2, t3, t4) - theta) <= Abs(there - back) + 1
    ensures Near(Sample(t1, t2, t3, t4), theta, (Abs(there - back) + 1) / 2)
    ensures there == back ==> Sample(t1, t2, t3, t4) == theta
  {
    hide Sample;
    NoWrap(t1, t2, t3, t4);
    assert t2 - t1 + t3 - t4 == 2 * theta + (there - back);
  }

  // ----- the median -----

  /** A sample is rounded toward zero, so exchanging the two clocks only changes its sign. */
  lemma {:induction false} ClocksExchanged(t1: I64, t2: I64, t3: I64, t4: I64)
    requires IsDate(t1) && IsDate(t2) && IsDate(t3) && IsDate(t4)
    ensures Sample(t2, t1, t4, t3) == -Sample(t1, t2, t3, t4)
    ensures 2 * Abs(Sample(t1, t2, t3, t4)) <= Abs(t2 - t1 + t3 - t4) < 2 * Abs(Sample(t1, t2, t3, t4)) + 2
  {
    hide Wrap, Sample;
    NoWrap(t1, t2, t3, t4);
    NoWrap(t2, t1, t4, t3);
  }

  ghost predicate Sorted(s: seq<int>) {
    forall i, j :: 0 <= i < j < |s| ==> s[i] <= s[j]
  }

  ghost predicate SortedForm(t: seq<int>, s: seq<int>) {
    Sorted(t) && multiset(t) == multiset(s) && |t| == |s|
  }

  function Near(x: int, theta: int, eps: int): bool {
    Abs(x - theta) <= eps
  }

  /** How many samples are within eps of theta. */
  function CountNear(s: seq<int>, theta: int, eps: int): (n: nat)
    ensures n <= |s|
  {
    if s == [] then 0 else (if Near(s[0], theta, eps) then 1 else 0) + CountNear(s[1..], theta, eps)
  }

  lemma {:induction false} CountConcat(a: seq<int>, b: seq<int>, theta: int, eps: int)
    ensures CountNear(a + b, theta, eps) == CountNear(a, theta, eps) + CountNear(b, theta, eps)
    decreases |a|
  {
    hide Near;
    if a == [] {
      assert a + b == b;
    } else {
      assert (a + b)[1..] == a[1..] + b;
      CountConcat(a[1..], b, theta, eps);
    }
  }

  function Without(s: seq<int>, i: nat): (r: seq<int>)
    requires i < |s|
    ensures |r| == |s| - 1
  {
    s[..i] + s[i + 1..]
  }

  lemma {:induction false} WithoutOne(s: seq<int>, i: nat)
    requires i < |s|
    ensures multiset(Without(s, i)) == multiset(s) - multiset{s[i]}
  {
    assert s == s[..i] + [s[i]] + s[i + 1..];
  }

  lemma {:induction false} CountWithoutOne(s: seq<int>, i: nat, theta: int, eps: int)
    requires i < |s|
    ensures CountNear(s, theta, eps) == CountNear(Without(s, i), theta, eps) + if Near(s[i], theta, eps) then 1 else 0
  {
    hide Near;
    var one, tail := [s[i]], s[i + 1..];
    assert s == s[..i] + (one + tail);
    CountConcat(s[..i], one + tail, theta, eps);
    CountConcat(s[..i], tail, theta, eps);
    CountConcat(one, tail, theta, eps);
    assert one[1..] == [];
  }

  /** The count does not depend on the order. */
  lemma {:induction false} CountOfPermutation(s: seq<int>, t: seq<int>, theta: int, eps: int)
    requires multiset(s) == multiset(t)
    ensures CountNear(s, theta, eps) == CountNear(t, theta, eps)
    decreases |s|
  {
    hide Near, CountNear, Without;
    assert |multiset(s)| == |s| && |multiset(t)| == |t|;
    if s == [] {
      assert t == [];
    } else {
      assert s[0] in multiset(t);
      var i :| 0 <= i < |t| && t[i] == s[0];
      WithoutOne(s, 0);
      WithoutOne(t, i);
      CountOfPermutation(Without(s, 0), Without(t, i), theta, eps);
      CountWithoutOne(s, 0, theta, eps);
      CountWithoutOne(t, i, theta, eps);
    }
  }

  lemma {:induction false} NoneNear(s: seq<int>, theta: int, eps: int)
    requires forall i :: 0 <= i < |s| ==> !Near(s[i], theta, eps)
    ensures CountNear(s, theta, eps) == 0
    decreases |s|
  {
    hide Near;
    if s != [] {
      NoneNear(s[1..], theta, eps);
    }
  }

  /** If more than half of the samples are within eps of theta, so is the middle one of the sorted list. */
  lemma {:induction false} MedianIsNear(s: seq<int>, t: seq<int>, theta: int, eps: int)
    requires Sorted(t) && multiset(t) == multiset(s) && 2 * CountNear(s, theta, eps) > |s|
    ensures |t| == |s| > 0 && Near(t[|t| / 2], theta, eps)
  {
    hide CountNear;
    assert |multiset(t)| == |t| && |multiset(s)| == |s|;
    CountOfPermutation(t, s, theta, eps);
    var m := |t| / 2;
    CountBound(s, theta, eps);
    assert t == t[..m] + t[m..] && t == t[..m + 1] + t[m + 1..];
    CountConcat(t[..m], t[m..], theta, eps);
    CountConcat(t[..m + 1], t[m + 1..], theta, eps);
    CountBound(t[..m], theta, eps);
    CountBound(t[m + 1..], theta, eps);
    if t[m] > theta + eps {
      NoneNear(t[m..], theta, eps);
    } else if t[m] < theta - eps {
      NoneNear(t[..m + 1], theta, eps);
    }
  }

  lemma {:induction false} CountBound(s: seq<int>, theta: int, eps: int)
    ensures CountNear(s, theta, eps) <= |s|
  {
  }

  /** Half of the samples is not enough. */
  lemma {:induction false} HalfIsNotEnough()
    ensures Sorted([0, 7]) && 2 * CountNear([0, 7], 0, 1) == 2 && !Near([0, 7][2 / 2], 0, 1)
  {
    assert [0, 7][1..] == [7];
    assert CountNear([7], 0, 1) == 0;
  }

  // ----- replies -----

  /** What TryRespondAsync answers. */
  function ReplyPayload(t1: I64, t2: I64, t3: I64): (p: seq<byte>)
    ensures |p| == 24
  {
    Be(ToUnsigned(t1), 8) + Be(ToUnsigned(t2), 8) + Be(ToUnsigned(t3), 8)
  }

  /** What the requester does with the answer. */
  function SampleOf(t1: I64, payload: seq<byte>, t4: I64): I64
    requires |payload| == 24
  {
    Sample(t1, ToSigned(Read64(payload[8..16])), ToSigned(Read64(payload[16..24])), t4)
  }

  lemma {:induction false} ReplyCarriesTimes(t1: I64, t2: I64, t3: I64, t4: I64)
    ensures SampleOf(t1, ReplyPayload(t1, t2, t3), t4) == Sample(t1, t2, t3, t4)
  {
    hide Be, Read64, Sample;
    var p := ReplyPayload(t1, t2, t3);
    assert p[8..16] == Be(ToUnsigned(t2), 8) && p[16..24] == Be(ToUnsigned(t3), 8);
    Field64(ToUnsigned(t2));
    Field64(ToUnsigned(t3));
  }

  // ----- the exchange -----

  /** What one of the eight rounds sees: nothing in time, a datagram that does not decode, or a packet at time t4. */
  datatype Round = Silent(t1: I64) | Corrupt(t1: I64) | Got(t1: I64, packet: Packet, t4: I64)

  predicate Answers(round: Round, sequence: nat) {
    round.Got? && round.packet.kind == TIME_SYNC_RESPONSE && round.packet.sequence == sequence && |round.packet.payload| == 24
  }

  /** The samples of the first n rounds. */
  function Samples(rounds: seq<Round>, n: nat): seq<int>
    requires n <= |rounds|
  {
    if n == 0 then []
    else
      Samples(rounds, n - 1)
      + if Answers(rounds[n - 1], n - 1) then [SampleOf(rounds[n - 1].t1, rounds[n - 1].packet.payload, rounds[n - 1].t4)] else []
  }

  function Insert(x: int, s: seq<int>): (r: seq<int>)
    ensures multiset(r) == multiset(s) + multiset{x}
  {
    if s == [] || x <= s[0] then [x] + s
    else
      assert s == [s[0]] + s[1..];
      [s[0]] + Insert(x, s[1..])
  }

  lemma {:induction false} InsertSorted(x: int, s: seq<int>)
    requires Sorted(s)
    ensures Sorted(Insert(x, s))
    decreases |s|
  {
    if s != [] && x > s[0] {
      InsertSorted(x, s[1..]);
      var r := Insert(x, s[1..]);
      forall j | 0 <= j < |r|
        ensures s[0] <= r[j]
      {
        assert r[j] in multiset(r);
        assert r[j] in multiset(s[1..]) + multiset{x};
      }
    }
  }

  /** List.Sort, here by insertion. */
  method Sort(s: seq<int>) returns (t: seq<int>)
    ensures Sorted(t) && multiset(t) == multiset(s)
  {
    t := [];
    for i := 0 to |s|
      invariant Sorted(t) && multiset(t) == multiset(s[..i])
    {
      assert s[..i + 1] == s[..i] + [s[i]];
      InsertSorted(s[i], t);
      t := Insert(s[i], t);
    }
    assert s[..|s|] == s;
  }

  /** SynchronizeAsync: eight rounds, then the median; a corrupt datagram's exception is not caught. */
  method Synchronize(rounds: seq<Round>) returns (r: Result<int>)
    requires |rounds| == 8
    ensures r.Ok? <==> forall k :: 0 <= k < 8 ==> !rounds[k].Corrupt?
    ensures r.Ok? && Samples(rounds, 8) == [] ==> r.value == 0
    ensures r.Ok? && Samples(rounds, 8) != [] ==> exists t :: SortedForm(t, Samples(rounds, 8)) && r.value == t[|t| / 2]
    ensures r.Ok? ==> forall theta, eps :: 2 * CountNear(Samples(rounds, 8), theta, eps) > |Samples(rounds, 8)| ==> Near(r.value, theta, eps)
  {
    hide SampleOf, Near, CountNear;
    var offsets: seq<int> := [];
    for sequence := 0 to 8
      invariant offsets == Samples(rounds, sequence)
      invariant forall k :: 0 <= k < sequence ==> !rounds[k].Corrupt?
    {
      var round := rounds[sequence];
      if round.Corrupt? { return InvalidData; }
      if round.Got? && round.packet.kind == TIME_SYNC_RESPONSE && round.packet.sequence == sequence && |round.packet.payload| == 24 {
        offsets := offsets + [SampleOf(round.t1, round.packet.payload, round.t4)];
      }
    }
    if |offsets| == 0 {
      forall theta, eps
        ensures CountNear([], theta, eps) == 0
      {
        CountBound([], theta, eps);
      }
      return Ok(0);
    }
    var sorted := Sort(offsets);
    assert |multiset(sorted)| == |multiset(offsets)|;
    assert SortedForm(sorted, offsets);
    r := Ok(sorted[|offsets| / 2]);
    forall theta, eps | 2 * CountNear(offsets, theta, eps) > |offsets|
      ensures Near(r.value, theta, eps)
    {
      MedianIsNear(offsets, sorted, theta, eps);
    }
  }

  // ----- which samples there are, and where the times stand -----

  /** The answer echoes the request's time, then carries the times of arrival and of sending. */
  lemma {:induction false} ReplyFields(t1: I64, t2: I64, t3: I64, p: seq<byte>)
    requires |p| == 24
    ensures p == ReplyPayload(t1, t2, t3) <==> p[..8] == Be(ToUnsigned(t1), 8) && p[8..16] == Be(ToUnsigned(t2), 8) && p[16..] == Be(ToUnsigned(t3), 8)
  {
    hide Be;
    assert p == p[..8] + p[8..16] + p[16..];
  }

  /** A sample stands for exactly one round that got a response of its own number with 24 bytes. */
  lemma {:induction false} SamplesExact(rounds: seq<Round>, n: nat, x: int)
    requires n <= |rounds|
    ensures x in Samples(rounds, n) <==> exists k :: 0 <= k < n && IsSample(rounds[k], k, x)
    decreases n
  {
    hide SampleOf;
    if n > 0 {
      SamplesExact(rounds, n - 1, x);
      if IsSample(rounds[n - 1], n - 1, x) {
        assert x in Samples(rounds, n);
      }
    }
  }

  ghost predicate IsSample(round: Round, k: nat, x: int) {
    && round.Got? && round.packet.kind == 2 && round.packet.sequence == k && |round.packet.payload| == 24
    && x == SampleOf(round.t1, round.packet.payload, round.t4)
  }
}
