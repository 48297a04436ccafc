/** The 60 by 98 block interleaver of subframes 2 to 4 and what it does to bursts. */
module Interleaver {
  import opened BitStrings

  const LENGTH: nat := 5880

  /** Where place k of the transmitted block comes from: k = 60 i + j is read from 98 j + i. */
  function Source(k: nat): (s: nat)
    requires k < LENGTH
    ensures s < LENGTH
  {
    (k % 60) * 98 + k / 60
  }

  /** Where the receiver reads place k of the block from: k = 98 i + j from 60 j + i. */
  function Target(k: nat): (t: nat)
    requires k < LENGTH
    ensures t < LENGTH
  {
    (k % 98) * 60 + k / 98
  }

  lemma {:induction false} SourceTarget(k: nat)
    requires k < LENGTH
    ensures Source(Target(k)) == k && Target(Source(k)) == k
  {
    var a, b := k % 98, k / 98;
    assert (a * 60 + b) / 60 == a && (a * 60 + b) % 60 == b;
    var c, d := k % 60, k / 60;
    assert (c * 98 + d) / 98 == c && (c * 98 + d) % 98 == d;
  }

  function Interleave(bits: Bits): (out: Bits)
    requires |bits| == LENGTH
    ensures |out| == LENGTH
  {
    seq(LENGTH, k requires 0 <= k < LENGTH => bits[Source(k)])
  }

  function Deinterleave(bits: Bits): (out: Bits)
    requires |bits| == LENGTH
    ensures |out| == LENGTH
  {
    seq(LENGTH, k requires 0 <= k < LENGTH => bits[Target(k)])
  }

  lemma {:induction false} RoundTrip(bits: Bits)
    requires |bits| == LENGTH
    ensures Deinterleave(Interleave(bits)) == bits && Interleave(Deinterleave(bits)) == bits
  {
    forall k | 0 <= k < LENGTH
      ensures Deinterleave(Interleave(bits))[k] == bits[k] && Interleave(Deinterleave(bits))[k] == bits[k]
    {
      SourceTarget(k);
    }
  }

  /** interleave_AFS_SF234 */
  method InterleaveLoop(input: Bits) returns (output: Bits)
    requires |input| == LENGTH
    ensures output == Interleave(input)
  {
    var out := new bool[LENGTH];
    var k := 0;
    for i := 0 to 98
      invariant k == 60 * i
      invariant forall x :: 0 <= x < k ==> out[x] == input[Source(x)]
    {
      for j := 0 to 60
        invariant k == 60 * i + j
        invariant forall x :: 0 <= x < k ==> out[x] == input[Source(x)]
      {
        assert k % 60 == j && k / 60 == i;
        out[k] := input[j * 98 + i];
        k := k + 1;
      }
    }
    output := out[..];
  }

  /** The reading loop of lnis_afs_decode_frame. */
  method DeinterleaveLoop(frame: Bits) returns (output: Bits)
    requires |frame| == 6000
    ensures output == Deinterleave(frame[120..])
  {
    var out := new bool[LENGTH];
    var k := 0;
    for i := 0 to 60
      invariant k == 98 * i
      invariant forall x :: 0 <= x < k ==> out[x] == frame[120..][Target(x)]
    {
      for j := 0 to 98
        invariant k == 98 * i + j
        invariant forall x :: 0 <= x < k ==> out[x] == frame[120..][Target(x)]
      {
        assert k % 98 == j && k / 98 == i;
        out[k] := frame[j * 60 + i + 120];
        k := k + 1;
      }
    }
    output := out[..];
  }

  // ----- bursts -----

  /** How many of the b places from `first` on come from row `row` of 98 places. */
  function HitsInRow(first: nat, b: nat, row: nat): nat
    requires first + b <= LENGTH
  {
    if b == 0 then 0 else
      HitsInRow(first, b - 1, row) + if Source(first + b - 1) / 98 == row then 1 else 0
  }

  /** A burst of b places hits no row of 98 more than ceil(b / 60) times. */
  lemma {:induction false} BurstSpreadOverRows(first: nat, b: nat, row: nat)
    requires first + b <= LENGTH && row < 60
    ensures HitsInRow(first, b, row) <= (b + 59) / 60
    decreases b
  {
    if b > 60 {
      BurstSpreadOverRows(first, b - 60, row);
      OneHitPerSixty(first, b, 60, row);
    } else {
      OneHitPerSixty(first, b, b, row);
    }
  }

  /** Among c <= 60 consecutive places a row is hit at most once. */
  lemma {:induction false} OneHitPerSixty(first: nat, b: nat, c: nat, row: nat)
    requires first + b <= LENGTH && c <= b && c <= 60 && row < 60
    ensures HitsInRow(first, b, row) <= HitsInRow(first, b - c, row) + 1
    ensures (forall x :: first + b - c <= x < first + b ==> x % 60 != row) ==> HitsInRow(first, b, row) == HitsInRow(first, b - c, row)
    decreases c
  {
    if c > 0 {
      var last := first + b - 1;
      RowIsResidue(last);
      OneHitPerSixty(first, b - 1, c - 1, row);
      if last % 60 == row {
        forall x | first + b - c <= x < last
          ensures x % 60 != row
        {
          SameResidue(x, last);
        }
      }
    }
  }

  lemma {:induction false} RowIsResidue(k: nat)
    requires k < LENGTH
    ensures Source(k) / 98 == k % 60
  {
    assert ((k % 60) * 98 + k / 60) / 98 == k % 60;
  }

  lemma {:induction false} SameResidue(x: nat, y: nat)
    requires x < y < x + 60
    ensures x % 60 != y % 60
  {
  }

  /** Any two places of a burst of at most 60 come from places at least 97 apart. */
  lemma {:induction false} BurstSpreadApart(x: nat, y: nat)
    requires x < y < LENGTH && y - x < 60
    ensures Source(y) - Source(x) >= 97 || Source(x) - Source(y) >= 97
  {
    SameResidue(x, y);
    assert y / 60 == x / 60 || y / 60 == x / 60 + 1;
  }

  // ----- place by place -----

  /** Row i, column j of the 98 by 60 block that is sent comes from row j, column i of the 60 by 98 block, and goes back there. */
  lemma {:induction false} InterleaveAt(bits: Bits, i: nat, j: nat)
    requires |bits| == LENGTH && i < 98 && j < 60
    ensures Interleave(bits)[60 * i + j] == bits[98 * j + i] && Deinterleave(bits)[98 * j + i] == bits[60 * i + j]
  {
    assert (60 * i + j) % 60 == j && (60 * i + j) / 60 == i;
    assert (98 * j + i) % 98 == i && (98 * j + i) / 98 == j;
  }
}
