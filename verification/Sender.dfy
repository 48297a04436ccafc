/** AfsSendSessionHandler and the sending half of AfsUdpTransport: what goes on the wire, and how many datagrams of it. */
module Sender {
  import opened Results
  import opened BitPacking
  import opened BigEndian
  import opened PacketCodec

  /** AfsPacketDropSimulator.ShouldDrop for the rate and seed of a session: frame sequence, copy index. */
  type DropRule = (nat, nat) -> bool

  /** Dropped copies among the first `copies` of a frame. */
  function Dropped(drop: DropRule, frame: nat, copies: nat): (n: nat)
    ensures n <= copies
  {
    if copies == 0 then 0 else Dropped(drop, frame, copies - 1) + if drop(frame, copies - 1) then 1 else 0
  }

  function Planned(drop: DropRule, frames: nat, copies: nat): nat {
    if frames == 0 then 0 else Planned(drop, frames - 1, copies) + Dropped(drop, frames - 1, copies)
  }

  /** plannedDrops of SendAsync. */
  method PlannedDrops(drop: DropRule, frames: nat, copies: nat) returns (planned: nat)
    ensures planned == Planned(drop, frames, copies)
  {
    planned := 0;
    for frame := 0 to frames
      invariant planned == Planned(drop, frame, copies)
    {
      var here := 0;
      for copy := 0 to copies
        invariant here == Dropped(drop, frame, copy)
      {
        if drop(frame, copy) { here := here + 1; }
      }
      planned := planned + here;
    }
  }

  /** Datagram d carries copy `copy` of packet p, whatever the time it was stamped with. */
  ghost predicate CarriesCopy(d: seq<byte>, p: Packet, copy: nat) {
    && copy < 256
    && Decode(d).Ok? && var q := Decode(d).value; q == p.(copyIndex := ByteOf(copy), sentUtcTicks := q.sentUtcTicks)
  }

  /** The wire holds, in order, the copies of p below `copies` that are not dropped. */
  ghost predicate Carries(drop: DropRule, p: Packet, copies: nat, wire: seq<seq<byte>>)
    decreases copies
  {
    if copies == 0 then wire == []
    else if drop(p.sequence, copies - 1) then Carries(drop, p, copies - 1, wire)
    else wire != [] && CarriesCopy(wire[|wire| - 1], p, copies - 1) && Carries(drop, p, copies - 1, wire[..|wire| - 1])
  }

  /** Every datagram of a frame has the frame's key, so a receiver accepts at most one of them. */
  lemma {:induction false} CopiesShareTheKey(drop: DropRule, p: Packet, copies: nat, wire: seq<seq<byte>>, k: nat)
    requires Carries(drop, p, copies, wire) && k < |wire|
    ensures Decode(wire[k]).Ok? && KeyOf(Decode(wire[k]).value) == KeyOf(p) && Decode(wire[k]).value.payload == p.payload
    decreases copies
  {
    hide Decode;
    if drop(p.sequence, copies - 1) {
      CopiesShareTheKey(drop, p, copies - 1, wire, k);
    } else if k < |wire| - 1 {
      CopiesShareTheKey(drop, p, copies - 1, wire[..|wire| - 1], k);
    }
  }

  lemma {:induction false} WireLength(drop: DropRule, p: Packet, copies: nat, wire: seq<seq<byte>>)
    requires Carries(drop, p, copies, wire)
    ensures |wire| == copies - Dropped(drop, p.sequence, copies)
    decreases copies
  {
    hide CarriesCopy;
    if copies > 0 {
      WireLength(drop, p, copies - 1, if drop(p.sequence, copies - 1) then wire else wire[..|wire| - 1]);
    }
  }

  /** Datagram x was sent at the clock's reading for copy cs[x]. */
  ghost predicate Stamped(wire: seq<seq<byte>>, cs: seq<nat>, clock: nat -> I64) {
    |wire| == |cs| && forall x :: 0 <= x < |wire| ==> SentAt(wire[x], clock(cs[x]))
  }

  ghost predicate SentAt(d: seq<byte>, ticks: I64) {
    Decode(d).Ok? && Decode(d).value.sentUtcTicks == ticks
  }

  /** The datagram of copy c of p, stamped with the ticks. */
  lemma {:induction false} CopySent(p: Packet, c: nat, ticks: I64)
    requires Defined(p.kind) && |p.payload| <= MAX_PAYLOAD && c < 256
    ensures var d := Datagram(p.(copyIndex := ByteOf(c), sentUtcTicks := ticks)); d.Ok? && CarriesCopy(d.value, p, c) && SentAt(d.value, ticks)
  {
    hide Decode, Datagram, ByteOf;
    DecodeInvertsEncode(p.(copyIndex := ByteOf(c), sentUtcTicks := ticks));
  }

  /** The wire holds, in order, the copies of p below c that are not dropped, each sent at the clock's reading for it. */
  ghost predicate CopiesSent(drop: DropRule, p: Packet, c: nat, clock: nat -> I64, wire: seq<seq<byte>>) {
    Carries(drop, p, c, wire) && Stamped(wire, DueCopies(drop, p.sequence, c), clock)
  }

  lemma {:induction false} NoCopySent(drop: DropRule, p: Packet, clock: nat -> I64)
    ensures CopiesSent(drop, p, 0, clock, [])
  {
  }

  lemma {:induction false} CopyStep(drop: DropRule, p: Packet, c: nat, clock: nat -> I64, wire: seq<seq<byte>>, d: seq<byte>)
    requires CopiesSent(drop, p, c, clock, wire)
    ensures drop(p.sequence, c) ==> CopiesSent(drop, p, c + 1, clock, wire)
    ensures !drop(p.sequence, c) && CarriesCopy(d, p, c) && SentAt(d, clock(c)) ==> CopiesSent(drop, p, c + 1, clock, wire + [d])
  {
    hide CarriesCopy, SentAt;
    assert (wire + [d])[..|wire|] == wire;
    var cs := DueCopies(drop, p.sequence, c);
    if drop(p.sequence, c) {
      assert DueCopies(drop, p.sequence, c + 1) == cs;
    } else {
      assert DueCopies(drop, p.sequence, c + 1) == cs + [c];
    }
  }

  /** SendFrameCopiesAsync; the copy index is a checked byte, and clock(c) the time when copy c is sent. */
  method SendFrameCopies(drop: DropRule, p: Packet, copies: nat, clock: nat -> I64) returns (sent: Result<nat>, wire: seq<seq<byte>>)
    requires Defined(p.kind) && |p.payload| <= MAX_PAYLOAD
    ensures sent.Ok? <==> forall c :: 256 <= c < copies ==> drop(p.sequence, c)
    ensures sent.Ok? ==> CopiesSent(drop, p, copies, clock, wire) && sent.value == |wire|
  {
    hide Decode, Datagram, CarriesCopy, SentAt, CopiesSent, ByteOf;
    wire := [];
    NoCopySent(drop, p, clock);
    var count: nat := 0;
    for c := 0 to copies
      invariant CopiesSent(drop, p, c, clock, wire) && count == |wire|
      invariant forall x :: 256 <= x < c ==> drop(p.sequence, x)
    {
      if drop(p.sequence, c) {
        CopyStep(drop, p, c, clock, wire, []);
        continue;
      }
      if c > 255 { return InvalidData, wire; }
      var copy := p.(copyIndex := ByteOf(c), sentUtcTicks := clock(c));
      CopySent(p, c, clock(c));
      var datagram := Encode(copy);
      CopyStep(drop, p, c, clock, wire, datagram.value);
      wire := wire + [datagram.value];
      count := count + 1;
    }
    sent := Ok(count);
  }

  /** SendCopiesAsync; the sending time is renewed only for frames. */
  method SendCopies(p: Packet, copies: nat, clock: nat -> I64) returns (sent: bool, wire: seq<seq<byte>>)
    requires Defined(p.kind) && |p.payload| <= MAX_PAYLOAD
    ensures sent <==> copies <= 256
    ensures sent ==> |wire| == copies && forall c :: 0 <= c < copies ==> CarriesCopy(wire[c], p, c)
    ensures sent ==> forall c :: 0 <= c < copies ==> SentAt(wire[c], if p.kind == FRAME then clock(c) else p.sentUtcTicks)
  {
    hide Decode, Datagram, CarriesCopy, SentAt, ByteOf;
    wire := [];
    for c := 0 to copies
      invariant |wire| == c <= 256 && forall x :: 0 <= x < c ==> CarriesCopy(wire[x], p, x)
      invariant forall x :: 0 <= x < c ==> SentAt(wire[x], if p.kind == FRAME then clock(x) else p.sentUtcTicks)
    {
      if c > 255 { return false, wire; }
      var ticks := if p.kind == FRAME then clock(c) else p.sentUtcTicks;
      var copy := p.(copyIndex := ByteOf(c), sentUtcTicks := ticks);
      CopySent(p, c, ticks);
      var datagram := Encode(copy);
      wire := wire + [datagram.value];
    }
    sent := true;
  }

  // ----- a whole session -----

  /** Datagram d decodes to packet p, up to its copy index and sending time. */
  ghost predicate Copied(d: seq<byte>, p: Packet) {
    Decode(d).Ok? && var q := Decode(d).value; q == p.(copyIndex := q.copyIndex, sentUtcTicks := q.sentUtcTicks)
  }

  ghost predicate Probes(d: seq<byte>, T: Guid) {
    Decode(d).Ok? && Decode(d).value.kind == PROBE && Decode(d).value.testId == T
  }

  ghost predicate CopiesFrame(d: seq<byte>, ps: seq<Packet>) {
    exists k :: 0 <= k < |ps| && Copied(d, ps[k])
  }

  /** The frame packets of a session, in order. */
  ghost predicate FramePackets(ps: seq<Packet>, T: Guid) {
    forall k :: 0 <= k < |ps| ==> ps[k].kind == FRAME && ps[k].testId == T && ps[k].sequence == k && |ps[k].payload| <= MAX_PAYLOAD
  }

  /** The control packets around them. */
  ghost predicate ControlPackets(begin: Packet, end: Packet, T: Guid) {
    && begin.kind == SESSION_START && begin.testId == T && |begin.payload| <= MAX_PAYLOAD
    && end.kind == SESSION_END && end.testId == T && |end.payload| <= MAX_PAYLOAD
  }

  ghost predicate FromSession(d: seq<byte>, T: Guid, begin: Packet, ps: seq<Packet>, end: Packet) {
    Copied(d, begin) || Copied(d, end) || Probes(d, T) || CopiesFrame(d, ps)
  }

  /** Every copy a method sends of p is a copy of p. */
  lemma {:induction false} CarriedIsCopied(drop: DropRule, p: Packet, copies: nat, wire: seq<seq<byte>>, k: nat)
    requires Carries(drop, p, copies, wire) && k < |wire|
    ensures Copied(wire[k], p)
    decreases copies
  {
    hide Decode;
    if drop(p.sequence, copies - 1) {
      CarriedIsCopied(drop, p, copies - 1, wire, k);
    } else if k < |wire| - 1 {
      CarriedIsCopied(drop, p, copies - 1, wire[..|wire| - 1], k);
    }
  }

  /** Some copy of the frame is not dropped. */
  ghost predicate SomeCopySent(drop: DropRule, frame: nat, copies: nat) {
    Dropped(drop, frame, copies) < copies
  }

  // ----- which copies are due, and which datagrams are frames -----

  /** The copies of a frame that are not dropped, in order. */
  function DueCopies(drop: DropRule, frame: nat, copies: nat): (cs: seq<nat>)
    ensures |cs| == copies - Dropped(drop, frame, copies)
  {
    if copies == 0 then [] else DueCopies(drop, frame, copies - 1) + if drop(frame, copies - 1) then [] else [copies - 1]
  }

  /** All (frame, copy) pairs that are not dropped, frame by frame. */
  function Due(drop: DropRule, frames: nat, copies: nat): seq<(nat, nat)> {
    if frames == 0 then []
    else
      Due(drop, frames - 1, copies) + Paired(frames - 1, DueCopies(drop, frames - 1, copies))
  }

  function Paired(frame: nat, cs: seq<nat>): (due: seq<(nat, nat)>)
    ensures |due| == |cs| && forall x :: 0 <= x < |cs| ==> due[x] == (frame, cs[x])
  {
    seq(|cs|, x requires 0 <= x < |cs| => (frame, cs[x]))
  }

  lemma {:induction false} DueCopiesExact(drop: DropRule, frame: nat, copies: nat)
    ensures forall c :: c in DueCopies(drop, frame, copies) <==> 0 <= c < copies && !drop(frame, c)
    ensures forall x, y :: 0 <= x < y < |DueCopies(drop, frame, copies)| ==> DueCopies(drop, frame, copies)[x] < DueCopies(drop, frame, copies)[y]
    decreases copies
  {
    if copies > 0 {
      DueCopiesExact(drop, frame, copies - 1);
      var front := DueCopies(drop, frame, copies - 1);
      forall x | 0 <= x < |front|
        ensures front[x] < copies - 1
      {
        assert front[x] in front;
      }
    }
  }

  lemma {:induction false} SentCopy(drop: DropRule, frame: nat, copies: nat) returns (c: nat)
    requires SomeCopySent(drop, frame, copies)
    ensures c < copies && !drop(frame, c)
  {
    DueCopiesExact(drop, frame, copies);
    c := DueCopies(drop, frame, copies)[0];
    assert c in DueCopies(drop, frame, copies);
  }

  ghost predicate Earlier(a: (nat, nat), b: (nat, nat)) {
    a.0 < b.0 || (a.0 == b.0 && a.1 < b.1)
  }

  lemma {:induction false} OrderedJoin(front: seq<(nat, nat)>, last: seq<(nat, nat)>, frame: nat)
    requires forall x, y :: 0 <= x < y < |front| ==> Earlier(front[x], front[y])
    requires forall x, y :: 0 <= x < y < |last| ==> Earlier(last[x], last[y])
    requires (forall x :: 0 <= x < |front| ==> front[x].0 < frame) && forall x :: 0 <= x < |last| ==> last[x].0 == frame
    ensures forall x, y :: 0 <= x < y < |front + last| ==> Earlier((front + last)[x], (front + last)[y])
  {
  }

  lemma {:induction false} PairedMembers(frame: nat, cs: seq<nat>, k: int, c: int)
    ensures (k, c) in Paired(frame, cs) <==> k == frame && c in cs
  {
    var due := Paired(frame, cs);
    if k == frame && c in cs {
      var x :| 0 <= x < |cs| && cs[x] == c;
      assert due[x] == (k, c);
    }
    if (k, c) in due {
      var x :| 0 <= x < |due| && due[x] == (k, c);
      assert cs[x] in cs;
    }
  }

  /** Due lists exactly the pairs that are not dropped, each once, frames and copies in order. */
  lemma {:induction false} DueExact(drop: DropRule, frames: nat, copies: nat)
    ensures forall k, c :: (k, c) in Due(drop, frames, copies) <==> 0 <= k < frames && 0 <= c < copies && !drop(k, c)
    ensures forall x, y :: 0 <= x < y < |Due(drop, frames, copies)| ==> Earlier(Due(drop, frames, copies)[x], Due(drop, frames, copies)[y])
    decreases frames
  {
    if frames > 0 {
      DueExact(drop, frames - 1, copies);
      DueCopiesExact(drop, frames - 1, copies);
      hide DueCopies;
      var front, cs := Due(drop, frames - 1, copies), DueCopies(drop, frames - 1, copies);
      var last := Paired(frames - 1, cs);
      forall x | 0 <= x < |front|
        ensures front[x].0 < frames - 1
      {
        assert (front[x].0, front[x].1) in front;
      }
      forall k, c
        ensures (k, c) in last <==> k == frames - 1 && 0 <= c < copies && !drop(k, c)
      {
        PairedMembers(frames - 1, cs, k, c);
      }
      OrderedJoin(front, last, frames - 1);
    }
  }

  ghost predicate IsFrame(d: seq<byte>) {
    Decode(d).Ok? && Decode(d).value.kind == FRAME
  }

  /** The frame datagrams among those on the wire, in order. */
  ghost function FrameDatagrams(wire: seq<seq<byte>>): seq<seq<byte>> {
    if wire == [] then [] else FrameDatagrams(wire[..|wire| - 1]) + if IsFrame(wire[|wire| - 1]) then [wire[|wire| - 1]] else []
  }

  lemma {:induction false} FrameDatagramsConcat(a: seq<seq<byte>>, b: seq<seq<byte>>)
    ensures FrameDatagrams(a + b) == FrameDatagrams(a) + FrameDatagrams(b)
    decreases |b|
  {
    hide IsFrame;
    if b == [] {
      assert a + b == a;
    } else {
      var n := |b| - 1;
      assert (a + b)[..|a| + n] == a + b[..n];
      FrameDatagramsConcat(a, b[..n]);
    }
  }

  lemma {:induction false} FrontOf(wire: seq<seq<byte>>, n: nat)
    requires n <= |wire|
    ensures forall d :: d in wire[..n] ==> d in wire
  {
  }

  lemma {:induction false} OnlyFrames(wire: seq<seq<byte>>)
    requires forall d :: d in wire ==> IsFrame(d)
    ensures FrameDatagrams(wire) == wire
    decreases |wire|
  {
    hide IsFrame;
    if wire != [] {
      var n := |wire| - 1;
      assert wire == wire[..n] + [wire[n]];
      assert wire[n] in wire;
      FrontOf(wire, n);
      OnlyFrames(wire[..n]);
    }
  }

  lemma {:induction false} NoFramesIn(wire: seq<seq<byte>>)
    requires forall d :: d in wire ==> !IsFrame(d)
    ensures FrameDatagrams(wire) == []
    decreases |wire|
  {
    hide IsFrame;
    if wire != [] {
      var n := |wire| - 1;
      assert wire[n] in wire;
      FrontOf(wire, n);
      NoFramesIn(wire[..n]);
    }
  }

  lemma {:induction false} FrameDatagramsAmong(wire: seq<seq<byte>>, d: seq<byte>)
    ensures d in FrameDatagrams(wire) <==> d in wire && IsFrame(d)
    decreases |wire|
  {
    hide IsFrame;
    if wire != [] {
      var n := |wire| - 1;
      FrameDatagramsAmong(wire[..n], d);
      assert wire == wire[..n] + [wire[n]];
    }
  }

  /** The datagrams carry the listed copies of the listed frames, one by one. */
  ghost predicate Carry(wire: seq<seq<byte>>, ps: seq<Packet>, due: seq<(nat, nat)>) {
    |wire| == |due| && forall x :: 0 <= x < |due| ==> due[x].0 < |ps| && CarriesCopy(wire[x], ps[due[x].0], due[x].1)
  }

  lemma {:induction false} CarriesDue(drop: DropRule, p: Packet, copies: nat, wire: seq<seq<byte>>)
    requires Carries(drop, p, copies, wire)
    ensures |wire| == |DueCopies(drop, p.sequence, copies)|
    ensures forall x :: 0 <= x < |wire| ==> CarriesCopy(wire[x], p, DueCopies(drop, p.sequence, copies)[x])
    decreases copies
  {
    hide CarriesCopy;
    WireLength(drop, p, copies, wire);
    if copies > 0 {
      if drop(p.sequence, copies - 1) {
        CarriesDue(drop, p, copies - 1, wire);
      } else {
        CarriesDue(drop, p, copies - 1, wire[..|wire| - 1]);
      }
    }
  }

  /** The copies of frame j extend what the frames before it put on the wire. */
  lemma {:induction false} CarryNext(drop: DropRule, ps: seq<Packet>, T: Guid, j: nat, copies: nat, front: seq<seq<byte>>, wire: seq<seq<byte>>)
    requires FramePackets(ps, T) && j < |ps| && Carries(drop, ps[j], copies, wire) && Carry(FrameDatagrams(front), ps, Due(drop, j, copies))
    ensures Carry(FrameDatagrams(front + wire), ps, Due(drop, j + 1, copies))
    ensures (forall d :: d in wire ==> IsFrame(d)) && |FrameDatagrams(front + wire)| == |FrameDatagrams(front)| + |wire|
  {
    hide CarriesCopy, Due, IsFrame, FrameDatagrams, Decode;
    CarriesDue(drop, ps[j], copies, wire);
    FrameDatagramsConcat(front, wire);
    forall d | d in wire
      ensures IsFrame(d)
    {
      var x :| 0 <= x < |wire| && wire[x] == d;
      CarriedFrameIsFrame(d, ps[j], DueCopies(drop, j, copies)[x]);
    }
    OnlyFrames(wire);
    DueStep(drop, j, copies);
    CarryConcat(ps, j, Due(drop, j, copies), DueCopies(drop, j, copies), Due(drop, j + 1, copies), FrameDatagrams(front), wire);
  }

  lemma {:induction false} CarryConcat(ps: seq<Packet>, j: nat, due: seq<(nat, nat)>, cs: seq<nat>, due': seq<(nat, nat)>, front: seq<seq<byte>>, wire: seq<seq<byte>>)
    requires j < |ps| && Carry(front, ps, due) && |wire| == |cs| && forall x :: 0 <= x < |wire| ==> CarriesCopy(wire[x], ps[j], cs[x])
    requires |due'| == |due| + |cs| && (forall x :: 0 <= x < |due| ==> due'[x] == due[x]) && forall x :: 0 <= x < |cs| ==> due'[|due| + x] == (j, cs[x])
    ensures Carry(front + wire, ps, due')
  {
    hide CarriesCopy;
    forall x | 0 <= x < |due'|
      ensures due'[x].0 < |ps| && CarriesCopy((front + wire)[x], ps[due'[x].0], due'[x].1)
    {
      if x >= |due| {
        assert due'[|due| + (x - |due|)] == (j, cs[x - |due|]) && (front + wire)[x] == wire[x - |due|];
      }
    }
  }

  lemma {:induction false} DueStep(drop: DropRule, j: nat, copies: nat)
    ensures var cs := DueCopies(drop, j, copies);
      |Due(drop, j + 1, copies)| == |Due(drop, j, copies)| + |cs|
      && (forall x :: 0 <= x < |Due(drop, j, copies)| ==> Due(drop, j + 1, copies)[x] == Due(drop, j, copies)[x])
      && forall x :: 0 <= x < |cs| ==> Due(drop, j + 1, copies)[|Due(drop, j, copies)| + x] == (j, cs[x])
  {
    hide DueCopies;
    assert Due(drop, j + 1, copies) == Due(drop, j, copies) + Paired(j, DueCopies(drop, j, copies));
  }

  lemma {:induction false} CarriedFrameIsFrame(d: seq<byte>, p: Packet, copy: nat)
    requires CarriesCopy(d, p, copy) && p.kind == FRAME
    ensures IsFrame(d)
  {
    hide Decode;
  }

  lemma {:induction false} CarryUnchanged(ps: seq<Packet>, due: seq<(nat, nat)>, wire: seq<seq<byte>>, others: seq<seq<byte>>)
    requires Carry(FrameDatagrams(wire), ps, due) && forall d :: d in others ==> !IsFrame(d)
    ensures Carry(FrameDatagrams(wire + others), ps, due) && Carry(FrameDatagrams(others + wire), ps, due)
    ensures |FrameDatagrams(wire + others)| == |FrameDatagrams(others + wire)| == |FrameDatagrams(wire)|
  {
    hide CarriesCopy, IsFrame, FrameDatagrams;
    FrameDatagramsConcat(wire, others);
    FrameDatagramsConcat(others, wire);
    NoFramesIn(others);
    assert FrameDatagrams(wire) + [] == FrameDatagrams(wire) == [] + FrameDatagrams(wire);
  }

  lemma {:induction false} CopiesNotFrames(p: Packet, wire: seq<seq<byte>>)
    requires p.kind != FRAME && forall c :: 0 <= c < |wire| ==> CarriesCopy(wire[c], p, c)
    ensures forall d :: d in wire ==> !IsFrame(d)
  {
    hide Decode;
  }

  // ----- the probes -----

  ghost function SequenceOf(d: seq<byte>): nat {
    if Decode(d).Ok? then Decode(d).value.sequence else 0
  }

  /** The sequence numbers of the probes on the wire. */
  ghost function ProbeNumbers(wire: seq<seq<byte>>, T: Guid): set<nat> {
    set d | d in wire && Probes(d, T) :: SequenceOf(d)
  }

  /** How many of the first frames have a probe sent after them. */
  function ProbesAfter(probeDue: nat -> bool, frames: nat): (n: nat)
    ensures n <= frames
  {
    if frames == 0 then 0 else ProbesAfter(probeDue, frames - 1) + if probeDue(frames - 1) then 1 else 0
  }

  /** The probes on the wire have the numbers from a to b - 1; without copies there are none. */
  ghost predicate ProbesAre(wire: seq<seq<byte>>, T: Guid, copies: nat, a: nat, b: nat) {
    if copies == 0 then ProbeNumbers(wire, T) == {} else forall q :: q in ProbeNumbers(wire, T) <==> a <= q < b
  }

  lemma {:induction false} ProbeNumbersConcat(a: seq<seq<byte>>, b: seq<seq<byte>>, T: Guid)
    ensures ProbeNumbers(a + b, T) == ProbeNumbers(a, T) + ProbeNumbers(b, T)
  {
    hide Probes, SequenceOf;
  }

  lemma {:induction false} FramesAreNoProbes(wire: seq<seq<byte>>, T: Guid)
    requires forall d :: d in wire ==> IsFrame(d)
    ensures ProbeNumbers(wire, T) == {}
  {
    hide Decode, SequenceOf;
  }

  lemma {:induction false} NumberOfProbe(p: Packet, T: Guid, wire: seq<seq<byte>>)
    requires p.kind == PROBE && p.testId == T && forall c :: 0 <= c < |wire| ==> CarriesCopy(wire[c], p, c)
    ensures ProbeNumbers(wire, T) == if wire == [] then {} else {p.sequence}
  {
    hide Decode;
    if wire != [] {
      assert wire[0] in wire && Probes(wire[0], T);
    }
  }

  lemma {:induction false} ProbesUnchanged(wire: seq<seq<byte>>, frames: seq<seq<byte>>, T: Guid, copies: nat, a: nat, b: nat)
    requires ProbesAre(wire, T, copies, a, b) && forall d :: d in frames ==> IsFrame(d)
    ensures ProbesAre(wire + frames, T, copies, a, b)
  {
    hide ProbeNumbers, IsFrame;
    FramesAreNoProbes(frames, T);
    ProbeNumbersConcat(wire, frames, T);
  }

  lemma {:induction false} ProbesGrow(wire: seq<seq<byte>>, p: Packet, probes: seq<seq<byte>>, T: Guid, copies: nat, a: nat, b: nat)
    requires ProbesAre(wire, T, copies, a, b) && a <= b == p.sequence
    requires p.kind == PROBE && p.testId == T && |probes| == copies && forall c :: 0 <= c < |probes| ==> CarriesCopy(probes[c], p, c)
    ensures ProbesAre(wire + probes, T, copies, a, b + 1)
  {
    hide ProbeNumbers, CarriesCopy;
    NumberOfProbe(p, T, probes);
    ProbeNumbersConcat(wire, probes, T);
  }

  /** The initial probe, numbered 0, before the probes 1 to b - 1. */
  lemma {:induction false} FirstProbe(p: Packet, probes: seq<seq<byte>>, wire: seq<seq<byte>>, T: Guid, copies: nat, b: nat)
    requires ProbesAre(wire, T, copies, 1, b) && p.sequence == 0 && b >= 1
    requires p.kind == PROBE && p.testId == T && |probes| == copies && forall c :: 0 <= c < |probes| ==> CarriesCopy(probes[c], p, c)
    ensures ProbesAre(probes + wire, T, copies, 0, b)
  {
    hide ProbeNumbers, CarriesCopy;
    NumberOfProbe(p, T, probes);
    ProbeNumbersConcat(probes, wire, T);
  }

  function ProbePacket(T: Guid, sequence: U32, prn: byte, ticks: I64): Packet {
    Packet(PROBE, T, sequence, 0, prn, 0, 0, 0, ticks, [])
  }

  function AllCopies(frames: nat, copies: nat): nat {
    frames * copies
  }

  lemma {:induction false} OneMoreFrame(k: nat, copies: nat)
    ensures AllCopies(0, copies) == 0 && AllCopies(k + 1, copies) == AllCopies(k, copies) + copies
  {
  }

  ghost predicate FrameOrProbe(d: seq<byte>, T: Guid, ps: seq<Packet>) {
    Probes(d, T) || CopiesFrame(d, ps)
  }

  lemma {:induction false} CopiesAreFrames(drop: DropRule, ps: seq<Packet>, T: Guid, j: nat, copies: nat, wire: seq<seq<byte>>)
    requires j < |ps| && Carries(drop, ps[j], copies, wire)
    ensures forall d :: d in wire ==> FrameOrProbe(d, T, ps)
  {
    hide Carries, Copied, Probes;
    forall d | d in wire
      ensures FrameOrProbe(d, T, ps)
    {
      var x :| 0 <= x < |wire| && wire[x] == d;
      CarriedIsCopied(drop, ps[j], copies, wire, x);
    }
  }

  lemma {:induction false} CopiesAreProbes(T: Guid, ps: seq<Packet>, p: Packet, wire: seq<seq<byte>>)
    requires p.kind == PROBE && p.testId == T && forall c :: 0 <= c < |wire| ==> CarriesCopy(wire[c], p, c)
    ensures forall d :: d in wire ==> FrameOrProbe(d, T, ps)
  {
    hide Decode, CopiesFrame;
  }

  /** Every copy whose index does not fit a byte is dropped. */
  ghost predicate AllDropped(drop: DropRule, frames: nat, copies: nat) {
    forall k, c :: 0 <= k < frames && 256 <= c < copies ==> drop(k, c)
  }

  /** What the wire holds after k frames and the probes 1 to b - 1. */
  ghost predicate OnWire(drop: DropRule, T: Guid, ps: seq<Packet>, copies: nat, k: nat, b: nat, wire: seq<seq<byte>>) {
    && Carry(FrameDatagrams(wire), ps, Due(drop, k, copies))
    && (forall d :: d in wire ==> FrameOrProbe(d, T, ps))
    && ProbesAre(wire, T, copies, 1, b)
  }

  lemma {:induction false} FrameStep(drop: DropRule, T: Guid, ps: seq<Packet>, copies: nat, k: nat, b: nat, wire: seq<seq<byte>>, frame: seq<seq<byte>>)
    requires FramePackets(ps, T) && k < |ps| && OnWire(drop, T, ps, copies, k, b, wire) && Carries(drop, ps[k], copies, frame)
    ensures OnWire(drop, T, ps, copies, k + 1, b, wire + frame) && |FrameDatagrams(wire + frame)| == |FrameDatagrams(wire)| + |frame|
    ensures |frame| == copies - Dropped(drop, k, copies)
  {
    hide Carries, FrameOrProbe, Carry, FrameDatagrams, Due, IsFrame, ProbesAre, CarriesCopy;
    WireLength(drop, ps[k], copies, frame);
    CopiesAreFrames(drop, ps, T, k, copies, frame);
    CarryNext(drop, ps, T, k, copies, wire, frame);
    ProbesUnchanged(wire, frame, T, copies, 1, b);
  }

  lemma {:induction false} ProbeStep(drop: DropRule, T: Guid, ps: seq<Packet>, copies: nat, k: nat, wire: seq<seq<byte>>, p: Packet, probes: seq<seq<byte>>)
    requires p.kind == PROBE && p.testId == T && p.sequence >= 1 && OnWire(drop, T, ps, copies, k, p.sequence, wire)
    requires |probes| == copies && forall c :: 0 <= c < copies ==> CarriesCopy(probes[c], p, c)
    ensures OnWire(drop, T, ps, copies, k, p.sequence + 1, wire + probes) && |FrameDatagrams(wire + probes)| == |FrameDatagrams(wire)|
  {
    hide FrameOrProbe, Carry, FrameDatagrams, Due, IsFrame, ProbesAre, CarriesCopy;
    CopiesAreProbes(T, ps, p, probes);
    CopiesNotFrames(p, probes);
    CarryUnchanged(ps, Due(drop, k, copies), wire, probes);
    ProbesGrow(wire, p, probes, T, copies, 1, p.sequence);
  }

  /** The frame loop of SendAsync, with the probes that fall due after a frame: what was sent and what was planned to be
      dropped make up every copy of every frame, and nothing but copies of the frames and probes goes on the wire. */
  method SendFrames(drop: DropRule, T: Guid, prn: byte, ps: seq<Packet>, copies: nat, clock: (nat, nat) -> I64, probeDue: nat -> bool)
      returns (sent: Result<nat>, planned: nat, wire: seq<seq<byte>>)
    requires FramePackets(ps, T) && |ps| < 0x8000_0000
    ensures sent.Ok? ==> sent.value + planned == AllCopies(|ps|, copies)
    ensures sent.Ok? ==> Carry(FrameDatagrams(wire), ps, Due(drop, |ps|, copies)) && sent.value == |FrameDatagrams(wire)|
    ensures sent.Ok? <==> AllDropped(drop, |ps|, copies) && (copies <= 256 || forall k :: 0 <= k < |ps| ==> !probeDue(k))
    ensures planned == Planned(drop, |ps|, copies)
    ensures forall d :: d in wire ==> FrameOrProbe(d, T, ps)
    ensures sent.Ok? ==> ProbesAre(wire, T, copies, 1, 1 + ProbesAfter(probeDue, |ps|))
  {
    hide Decode, Carries, AllCopies, CarriesCopy, FrameDatagrams, SentAt, Stamped, OnWire, FrameOrProbe, Carry, Due, ProbesAre, DueCopies, Dropped;
    OneMoreFrame(0, copies);
    NothingYet(drop, T, ps, copies);
    planned := PlannedDrops(drop, |ps|, copies);
    wire := [];
    var total: nat := 0;
    var probeSequence := 1;
    for k := 0 to |ps|
      invariant total + Planned(drop, k, copies) == AllCopies(k, copies) && 1 <= probeSequence <= k + 1
      invariant OnWire(drop, T, ps, copies, k, probeSequence, wire) && total == |FrameDatagrams(wire)|
      invariant AllDropped(drop, k, copies) && (copies <= 256 || forall x :: 0 <= x < k ==> !probeDue(x))
      invariant probeSequence == 1 + ProbesAfter(probeDue, k)
    {
      var s, frame := SendFrameCopies(drop, ps[k], copies, c => clock(k, c));
      if s.InvalidData? {
        assert !forall c :: 256 <= c < copies ==> drop(k, c);
        WireSoFar(drop, T, ps, copies, k, probeSequence, wire);
        return InvalidData, planned, wire;
      }
      FrameStep(drop, T, ps, copies, k, probeSequence, wire, frame);
      total := total + s.value;
      wire := wire + frame;
      OneMoreFrame(k, copies);
      if probeDue(k) {
        var p := ProbePacket(T, probeSequence, prn, clock(k, copies));
        var ok, probes := SendCopies(p, copies, _ => 0);
        if !ok {
          WireSoFar(drop, T, ps, copies, k + 1, probeSequence, wire);
          return InvalidData, planned, wire;
        }
        ProbeStep(drop, T, ps, copies, k + 1, wire, p, probes);
        wire := wire + probes;
        probeSequence := probeSequence + 1;
      }
    }
    WireSoFar(drop, T, ps, copies, |ps|, probeSequence, wire);
    sent := Ok(total);
  }

  lemma {:induction false} WireSoFar(drop: DropRule, T: Guid, ps: seq<Packet>, copies: nat, k: nat, b: nat, wire: seq<seq<byte>>)
    requires OnWire(drop, T, ps, copies, k, b, wire)
    ensures Carry(FrameDatagrams(wire), ps, Due(drop, k, copies)) && ProbesAre(wire, T, copies, 1, b)
    ensures forall d :: d in wire ==> FrameOrProbe(d, T, ps)
  {
  }

  lemma {:induction false} NothingYet(drop: DropRule, T: Guid, ps: seq<Packet>, copies: nat)
    ensures FrameDatagrams([]) == [] && OnWire(drop, T, ps, copies, 0, 1, [])
  {
  }

  /** The wire of a session in three parts: copies of SessionStart; frames and probes, the frame datagrams being exactly the
      copies that are not dropped, in order; copies of SessionEnd. */
  ghost predicate SessionWire(begins: seq<seq<byte>>, middle: seq<seq<byte>>, ends: seq<seq<byte>>, drop: DropRule, T: Guid,
      begin: Packet, ps: seq<Packet>, end: Packet, copies: nat)
  {
    && |begins| == |ends| == copies
    && (forall d :: d in begins ==> Copied(d, begin))
    && (forall d :: d in middle ==> FrameOrProbe(d, T, ps))
    && Carry(FrameDatagrams(middle), ps, Due(drop, |ps|, copies))
    && (forall d :: d in ends ==> Copied(d, end))
  }

  /** SendAsync up to the wait for the result: SessionStart, a probe, the frames, SessionEnd. */
  method SendSession(drop: DropRule, T: Guid, prn: byte, begin: Packet, ps: seq<Packet>, end: Packet, copies: nat, clock: (nat, nat) -> I64, probeDue: nat -> bool)
      returns (sent: Result<nat>, planned: nat, wire: seq<seq<byte>>, ghost middle: seq<seq<byte>>)
    requires FramePackets(ps, T) && ControlPackets(begin, end, T) && |ps| < 0x8000_0000
    ensures sent.Ok? <==> copies <= 256
    ensures sent.Ok? ==> sent.value + planned == AllCopies(|ps|, copies) && sent.value == |FrameDatagrams(middle)|
    ensures forall d :: d in wire ==> FromSession(d, T, begin, ps, end)
    ensures sent.Ok? ==> ProbesAre(middle, T, copies, 0, 1 + ProbesAfter(probeDue, |ps|))
    ensures sent.Ok? ==> |wire| == copies + |middle| + copies && middle == wire[copies..|wire| - copies]
    ensures sent.Ok? ==> SessionWire(wire[..copies], middle, wire[|wire| - copies..], drop, T, begin, ps, end, copies)
  {
    hide Decode, AllCopies, Probes, CopiesFrame, Copied, CarriesCopy, Carry, FrameDatagrams, Due, IsFrame, ProbesAre, SentAt;
    wire := [];
    middle := [];
    planned := PlannedDrops(drop, |ps|, copies);
    var ok, begins := SendCopies(begin, copies, _ => 0);
    if !ok { return InvalidData, planned, [], []; }
    CopiesOfOne(begin, begins);
    var p := ProbePacket(T, 0, prn, clock(0, copies));
    var probes;
    ok, probes := SendCopies(p, copies, _ => 0);
    CopiesAreProbes(T, ps, p, probes);
    CopiesNotFrames(p, probes);
    var frames;
    sent, planned, frames := SendFrames(drop, T, prn, ps, copies, clock, probeDue);
    CarryUnchanged(ps, Due(drop, |ps|, copies), frames, probes);
    FirstProbe(p, probes, frames, T, copies, 1 + ProbesAfter(probeDue, |ps|));
    middle := probes + frames;
    var ends;
    ok, ends := SendCopies(end, copies, _ => 0);
    CopiesOfOne(end, ends);
    wire := begins + (probes + frames) + ends;
    ThreeParts(begins, middle, ends);
  }

  lemma {:induction false} ThreeParts(a: seq<seq<byte>>, b: seq<seq<byte>>, c: seq<seq<byte>>)
    ensures var w := a + b + c; w[..|a|] == a && w[|a|..|w| - |c|] == b && w[|w| - |c|..] == c
  {
  }

  /** Copy c of frame k is on the wire exactly when it is not dropped. */
  lemma {:induction false} OnWireExactly(drop: DropRule, T: Guid, ps: seq<Packet>, copies: nat, wire: seq<seq<byte>>, k: nat, c: nat)
    requires FramePackets(ps, T) && Carry(FrameDatagrams(wire), ps, Due(drop, |ps|, copies)) && k < |ps| && c < copies
    ensures (exists d :: d in wire && CarriesCopy(d, ps[k], c)) <==> !drop(k, c)
  {
    hide CarriesCopy, IsFrame, FrameDatagrams, Due, Decode;
    var due, frames := Due(drop, |ps|, copies), FrameDatagrams(wire);
    DueExact(drop, |ps|, copies);
    if !drop(k, c) {
      assert (k, c) in due;
      var x :| 0 <= x < |due| && due[x] == (k, c);
      FrameDatagramsAmong(wire, frames[x]);
      assert frames[x] in frames;
    }
    if d :| d in wire && CarriesCopy(d, ps[k], c) {
      CarriedFrameIsFrame(d, ps[k], c);
      FrameDatagramsAmong(wire, d);
      var x :| 0 <= x < |frames| && frames[x] == d;
      SameCopy(d, ps[k], c, ps[due[x].0], due[x].1);
      assert due[x] == (k, c) && due[x] in due;
    }
  }

  lemma {:induction false} SameCopy(d: seq<byte>, p: Packet, c: nat, q: Packet, e: nat)
    requires CarriesCopy(d, p, c) && CarriesCopy(d, q, e)
    ensures p.sequence == q.sequence && c == e
  {
    hide Decode, ByteOf, ByteValue;
    ValueOfByte(c);
    ValueOfByte(e);
  }

  lemma {:induction false} CopiesOfOne(p: Packet, wire: seq<seq<byte>>)
    requires forall c :: 0 <= c < |wire| ==> CarriesCopy(wire[c], p, c)
    ensures forall d :: d in wire ==> Copied(d, p)
    ensures forall c :: 0 <= c < |wire| ==> Copied(wire[c], p)
  {
    hide Decode;
  }
}
