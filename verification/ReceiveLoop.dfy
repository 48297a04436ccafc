/** The receive loop of AfsReceiveSessionHandler as a state machine over arbitrary arriving datagrams. */
module ReceiveLoop {
  import opened Results
  import opened BitPacking
  import opened BigEndian
  import opened PacketCodec
  import opened SortedKeys
  import opened FrameReceiver
  import FrameCodec

  /** What the loop and the decisions after it use of AfsSessionManifest. */
  datatype Manifest = Manifest(testId: Guid, syncRecovery: bool, sourceLength: int, sourceHash: seq<byte>, recordCount: int, frameCount: int, injectedFrameCount: int)

  /** The surroundings: JSON reading of a manifest (None: it throws), the native decoder, the expected type. */
  datatype World = World(read: seq<byte> -> Option<Manifest>, codec: (byte, seq<byte>) -> FrameCodec.DecodeResult, expectedType: int)

  /** Ended: SessionEnd was accepted. Failed: an exception left the loop. */
  datatype Phase = Receiving | Ended | Failed

  /** The variables of ReceiveAsync; `log` and `timeSync` are kept for the specification: the positions of
      the processed frames, and the number of time requests answered. */
  datatype Loop = Loop(
    phase: Phase, manifest: Option<Manifest>, accepted: set<Key>, frameSequences: set<U32>, syncFrames: map<U32, Packet>,
    frames: ReceiverState, log: seq<nat>, datagrams: nat, timeSync: nat, duplicates: nat, corrupt: nat, probes: nat, probeResponses: nat)

  const START: Loop := Loop(Receiving, None, {}, {}, map[], INITIAL_STATE, [], 0, 0, 0, 0, 0, 0)

  /** A packet that passed the deduplicator; n is its position. */
  function Handle(w: World, s: Loop, p: Packet, n: nat): Loop {
    if p.kind == SESSION_START then
      var m := w.read(p.payload);
      if m.None? then s.(phase := Failed) else s.(manifest := m)
    else if s.manifest.None? || p.testId != s.manifest.value.testId then s
    else if p.kind == PROBE then s.(probes := s.probes + 1, probeResponses := s.probeResponses + 1)
    else if p.kind == FRAME then
      var s' := s.(frameSequences := s.frameSequences + {p.sequence}, log := s.log + [n]);
      if s.manifest.value.syncRecovery then s'.(syncFrames := s.syncFrames[p.sequence := p])
      else
        var (frames, returned) := Receive(s.frames, w.codec(p.timeOfInterval, p.payload), w.expectedType);
        s'.(frames := frames, phase := if returned then Receiving else Failed)
    else if p.kind == SESSION_END then s.(phase := Ended)
    else s
  }

  /** One turn of the loop. */
  function Turn(w: World, s: Loop, datagram: seq<byte>): Loop {
    if s.phase != Receiving then s
    else
      var s' := s.(datagrams := s.datagrams + 1);
      match Decode(datagram)
      case InvalidData => s'.(corrupt := s.corrupt + 1)
      case Ok(p) =>
        if p.kind == TIME_SYNC_REQUEST then s'.(timeSync := s.timeSync + 1)
        else if KeyOf(p) in s.accepted then s'.(duplicates := s.duplicates + 1)
        else Handle(w, s'.(accepted := s.accepted + {KeyOf(p)}), p, s.datagrams)
  }

  /** The state after the first n datagrams. */
  function Run(w: World, arrivals: seq<seq<byte>>, n: nat): Loop
    requires n <= |arrivals|
    decreases n
  {
    if n == 0 then START else Turn(w, Run(w, arrivals, n - 1), arrivals[n - 1])
  }

  // ----- what the arrivals alone say -----

  /** Position i holds a packet that reaches the deduplicator. */
  predicate Arrives(arrivals: seq<seq<byte>>, i: nat)
    requires i < |arrivals|
  {
    Decode(arrivals[i]).Ok? && Decode(arrivals[i]).value.kind != TIME_SYNC_REQUEST
  }

  function PacketAt(arrivals: seq<seq<byte>>, i: nat): Packet
    requires i < |arrivals| && Arrives(arrivals, i)
  {
    Decode(arrivals[i]).value
  }

  /** The first copy of its key to arrive. */
  ghost predicate First(arrivals: seq<seq<byte>>, i: nat)
    requires i < |arrivals|
  {
    Arrives(arrivals, i) && forall j :: 0 <= j < i && Arrives(arrivals, j) ==> KeyOf(PacketAt(arrivals, j)) != KeyOf(PacketAt(arrivals, i))
  }

  ghost predicate FirstOf(arrivals: seq<seq<byte>>, i: nat, kind: Kind)
    requires i < |arrivals|
  {
    Arrives(arrivals, i) && First(arrivals, i) && PacketAt(arrivals, i).kind == kind
  }

  /** The manifest in force after n datagrams: that of the latest accepted SessionStart. */
  ghost function InForce(w: World, arrivals: seq<seq<byte>>, n: nat): Option<Manifest>
    requires n <= |arrivals|
    decreases n
  {
    if n == 0 then None
    else if FirstOf(arrivals, n - 1, SESSION_START) then w.read(PacketAt(arrivals, n - 1).payload)
    else InForce(w, arrivals, n - 1)
  }

  /** Packet i belongs to the test of the manifest in force when it arrives. */
  ghost predicate Matches(w: World, arrivals: seq<seq<byte>>, i: nat)
    requires i < |arrivals| && Arrives(arrivals, i)
  {
    InForce(w, arrivals, i).Some? && PacketAt(arrivals, i).testId == InForce(w, arrivals, i).value.testId
  }

  /** A frame that the loop should process. */
  ghost predicate Due(w: World, arrivals: seq<seq<byte>>, i: nat)
    requires i < |arrivals|
  {
    FirstOf(arrivals, i, FRAME) && Matches(w, arrivals, i)
  }

  /** A SessionEnd that the loop should accept. */
  ghost predicate EndsAt(w: World, arrivals: seq<seq<byte>>, i: nat)
    requires i < |arrivals|
  {
    FirstOf(arrivals, i, SESSION_END) && Matches(w, arrivals, i)
  }

  /** A packet that makes the handler throw: an unreadable manifest, or a frame the codec's argument check refuses. */
  ghost predicate FailsAt(w: World, arrivals: seq<seq<byte>>, i: nat)
    requires i < |arrivals|
  {
    || (FirstOf(arrivals, i, SESSION_START) && w.read(PacketAt(arrivals, i).payload).None?)
    || (&& Due(w, arrivals, i) && !InForce(w, arrivals, i).value.syncRecovery
        && w.codec(PacketAt(arrivals, i).timeOfInterval, PacketAt(arrivals, i).payload).BadArgument?)
  }

  ghost function Keys(arrivals: seq<seq<byte>>, n: nat): set<Key>
    requires n <= |arrivals|
    decreases n
  {
    if n == 0 then {} else Keys(arrivals, n - 1) + if Arrives(arrivals, n - 1) then {KeyOf(PacketAt(arrivals, n - 1))} else {}
  }

  lemma {:induction false} KeysMeaning(arrivals: seq<seq<byte>>, n: nat, key: Key)
    requires n <= |arrivals|
    ensures key in Keys(arrivals, n) <==> exists j :: 0 <= j < n && Arrives(arrivals, j) && KeyOf(PacketAt(arrivals, j)) == key
    decreases n
  {
    hide Decode, KeyOf;
    if n > 0 {
      KeysMeaning(arrivals, n - 1, key);
    }
  }

  lemma {:induction false} FirstMeansNew(arrivals: seq<seq<byte>>, i: nat)
    requires i < |arrivals| && Arrives(arrivals, i)
    ensures First(arrivals, i) <==> KeyOf(PacketAt(arrivals, i)) !in Keys(arrivals, i)
  {
    hide Keys;
    KeysMeaning(arrivals, i, KeyOf(PacketAt(arrivals, i)));
  }

  lemma {:induction false} FirstArrives(arrivals: seq<seq<byte>>, i: nat)
    requires i < |arrivals| && First(arrivals, i)
    ensures Arrives(arrivals, i)
  {
  }

  // ----- every run -----

  ghost predicate LogIs(w: World, arrivals: seq<seq<byte>>, t: nat, log: seq<nat>)
    requires t <= |arrivals|
  {
    && (forall a, b :: 0 <= a < b < |log| ==> log[a] < log[b])
    && (forall i :: i in log ==> i < t)
    && (forall i :: 0 <= i < t ==> (i in log <==> Due(w, arrivals, i)))
  }

  /** What holds of the loop's variables after n datagrams have arrived. */
  ghost predicate Sound(w: World, arrivals: seq<seq<byte>>, n: nat, s: Loop)
    requires n <= |arrivals|
  {
    && s.datagrams <= n && (s.phase.Receiving? ==> s.datagrams == n)
    && s.accepted == Keys(arrivals, s.datagrams)
    && LogIs(w, arrivals, s.datagrams, s.log)
    && WellShaped(s.frames.records)
    && (!s.phase.Failed? ==> s.manifest == InForce(w, arrivals, s.datagrams))
    && (forall i :: 0 <= i < s.datagrams - 1 ==> !EndsAt(w, arrivals, i) && !FailsAt(w, arrivals, i))
    && (s.datagrams > 0 ==>
          ((s.phase.Ended? <==> EndsAt(w, arrivals, s.datagrams - 1)) && (s.phase.Failed? <==> FailsAt(w, arrivals, s.datagrams - 1))))
    && (s.datagrams == 0 ==> s.phase.Receiving?)
  }

  lemma {:induction false} LogGrows(w: World, arrivals: seq<seq<byte>>, t: nat, log: seq<nat>)
    requires t < |arrivals| && LogIs(w, arrivals, t, log)
    ensures Due(w, arrivals, t) ==> LogIs(w, arrivals, t + 1, log + [t])
    ensures !Due(w, arrivals, t) ==> LogIs(w, arrivals, t + 1, log)
  {
    hide Due;
    if Due(w, arrivals, t) {
      var log' := log + [t];
      forall a | 0 <= a < |log|
        ensures log[a] < t
      {
        assert log[a] in log;
      }
      forall i | 0 <= i < t + 1
        ensures i in log' <==> Due(w, arrivals, i)
      {
      }
    }
  }

  lemma {:induction false} TurnSound(w: World, arrivals: seq<seq<byte>>, n: nat, s: Loop)
    requires n < |arrivals| && Sound(w, arrivals, n, s) && s.phase.Receiving?
    ensures Sound(w, arrivals, n + 1, Turn(w, s, arrivals[n]))
  {
    hide First, LogIs, Receive, WellShaped, Decode;
    LogGrows(w, arrivals, n, s.log);
    if First(arrivals, n) {
      FirstArrives(arrivals, n);
    }
    if Arrives(arrivals, n) {
      FirstMeansNew(arrivals, n);
      var p := PacketAt(arrivals, n);
      ReceiveKeepsShape(s.frames, w.codec(p.timeOfInterval, p.payload), w.expectedType);
    }
  }

  /** Every reachable state is described by the arrivals alone. */
  lemma {:induction false} EveryRunIsSound(w: World, arrivals: seq<seq<byte>>, n: nat)
    requires n <= |arrivals|
    ensures Sound(w, arrivals, n, Run(w, arrivals, n))
    decreases n
  {
    hide Turn, Due, EndsAt, FailsAt;
    if n > 0 {
      EveryRunIsSound(w, arrivals, n - 1);
      if Run(w, arrivals, n - 1).phase.Receiving? {
        TurnSound(w, arrivals, n - 1, Run(w, arrivals, n - 1));
      } else {
        TurnStays(w, Run(w, arrivals, n - 1), arrivals[n - 1]);
      }
    }
  }

  lemma {:induction false} TurnStays(w: World, s: Loop, datagram: seq<byte>)
    requires !s.phase.Receiving?
    ensures Turn(w, s, datagram) == s
  {
  }

  // ----- which frames are processed -----

  /** The loop was over before position i. */
  ghost predicate OverBefore(w: World, arrivals: seq<seq<byte>>, i: nat)
    requires i <= |arrivals|
  {
    exists e :: 0 <= e < i && (EndsAt(w, arrivals, e) || FailsAt(w, arrivals, e))
  }

  /** In every run the datagram at i is processed exactly when it holds the first copy of a frame of the test
      whose manifest is in force, and the loop was not over. */
  lemma {:induction false} ProcessedExactly(w: World, arrivals: seq<seq<byte>>, n: nat, i: nat)
    requires i < n <= |arrivals|
    ensures i in Run(w, arrivals, n).log <==> Due(w, arrivals, i) && !OverBefore(w, arrivals, i)
  {
    hide Run, Due, EndsAt, FailsAt;
    var s := Run(w, arrivals, n);
    EveryRunIsSound(w, arrivals, n);
    if i >= s.datagrams {
      var e := s.datagrams - 1;
      assert EndsAt(w, arrivals, e) || FailsAt(w, arrivals, e);
    }
  }

  /** No two processed frames have the same test id and sequence. */
  lemma {:induction false} ProcessedAtMostOnce(w: World, arrivals: seq<seq<byte>>, n: nat, i: nat, j: nat)
    requires i < j < n <= |arrivals| && i in Run(w, arrivals, n).log && j in Run(w, arrivals, n).log
    ensures Arrives(arrivals, i) && Arrives(arrivals, j) && KeyOf(PacketAt(arrivals, i)) != KeyOf(PacketAt(arrivals, j))
  {
    hide Run, Decode, OverBefore;
    ProcessedExactly(w, arrivals, n, i);
    ProcessedExactly(w, arrivals, n, j);
  }

  /** A first copy that comes too early or belongs to no test in force uses up its key: later copies are lost. */
  lemma {:induction false} EarlyCopyUsesUpKey(w: World, arrivals: seq<seq<byte>>, n: nat, i: nat, j: nat)
    requires i < j < n <= |arrivals| && Arrives(arrivals, i) && Arrives(arrivals, j)
    requires KeyOf(PacketAt(arrivals, i)) == KeyOf(PacketAt(arrivals, j))
    ensures j !in Run(w, arrivals, n).log
  {
    hide Run, Decode, OverBefore;
    ProcessedExactly(w, arrivals, n, j);
  }

  /** The loop has ended after n datagrams exactly when some SessionEnd was accepted before anything failed. */
  lemma {:induction false} EndedExactly(w: World, arrivals: seq<seq<byte>>, n: nat)
    requires n <= |arrivals|
    ensures Run(w, arrivals, n).phase.Ended? <==> exists e :: 0 <= e < n && EndsAt(w, arrivals, e) && !OverBefore(w, arrivals, e)
  {
    hide Run, EndsAt, FailsAt, Due;
    var s := Run(w, arrivals, n);
    EveryRunIsSound(w, arrivals, n);
    if s.phase.Ended? {
      assert EndsAt(w, arrivals, s.datagrams - 1) && !OverBefore(w, arrivals, s.datagrams - 1);
    }
    forall e | 0 <= e < n && EndsAt(w, arrivals, e) && !OverBefore(w, arrivals, e)
      ensures s.phase.Ended?
    {
    }
  }

  /** The handler has thrown inside the loop exactly when some packet failed before a SessionEnd was accepted; and it still
      waits exactly when neither has happened. */
  lemma {:induction false} FailedExactly(w: World, arrivals: seq<seq<byte>>, n: nat)
    requires n <= |arrivals|
    ensures Run(w, arrivals, n).phase.Failed? <==> exists e :: 0 <= e < n && FailsAt(w, arrivals, e) && !OverBefore(w, arrivals, e)
    ensures Run(w, arrivals, n).phase.Receiving? <==> !OverBefore(w, arrivals, n)
  {
    hide Run, EndsAt, FailsAt, Due;
    var s := Run(w, arrivals, n);
    EveryRunIsSound(w, arrivals, n);
    if s.phase.Failed? {
      assert FailsAt(w, arrivals, s.datagrams - 1) && !OverBefore(w, arrivals, s.datagrams - 1);
    }
    if !s.phase.Receiving? {
      assert EndsAt(w, arrivals, s.datagrams - 1) || FailsAt(w, arrivals, s.datagrams - 1);
    }
  }

  // ----- one session -----

  /** Every SessionStart that can be decoded carries a readable manifest of test T. */
  ghost predicate OneSession(w: World, arrivals: seq<seq<byte>>, T: Guid) {
    forall i :: 0 <= i < |arrivals| && Arrives(arrivals, i) && PacketAt(arrivals, i).kind == SESSION_START ==>
      w.read(PacketAt(arrivals, i).payload).Some? && w.read(PacketAt(arrivals, i).payload).value.testId == T
  }

  ghost predicate StartAt(arrivals: seq<seq<byte>>, j: nat)
    requires j < |arrivals|
  {
    Arrives(arrivals, j) && PacketAt(arrivals, j).kind == SESSION_START
  }

  /** Some copy of a SessionStart arrived before i. */
  ghost predicate StartBefore(arrivals: seq<seq<byte>>, i: nat)
    requires i <= |arrivals|
  {
    exists j :: 0 <= j < i && StartAt(arrivals, j)
  }

  lemma {:induction false} InForceMeansStarted(w: World, arrivals: seq<seq<byte>>, T: Guid, n: nat)
    requires n <= |arrivals| && OneSession(w, arrivals, T)
    ensures InForce(w, arrivals, n).Some? <==> StartBefore(arrivals, n)
    ensures InForce(w, arrivals, n).Some? ==> InForce(w, arrivals, n).value.testId == T
    decreases n
  {
    hide Decode, KeyOf;
    if n > 0 {
      InForceMeansStarted(w, arrivals, T, n - 1);
      if StartAt(arrivals, n - 1) && !First(arrivals, n - 1) {
        var j :| 0 <= j < n - 1 && Arrives(arrivals, j) && KeyOf(PacketAt(arrivals, j)) == KeyOf(PacketAt(arrivals, n - 1));
        KeyFixesKind(PacketAt(arrivals, j), PacketAt(arrivals, n - 1));
        assert StartAt(arrivals, j);
      }
    }
  }

  lemma {:induction false} KeyFixesKind(p: Packet, q: Packet)
    requires KeyOf(p) == KeyOf(q)
    ensures p.kind == q.kind && p.testId == q.testId && p.sequence == q.sequence
  {
  }

  /** A SessionEnd of test T, the first copy of its key, after a SessionStart. */
  ghost predicate EndAccepted(arrivals: seq<seq<byte>>, T: Guid, e: nat)
    requires e < |arrivals|
  {
    FirstOf(arrivals, e, SESSION_END) && PacketAt(arrivals, e).testId == T && StartBefore(arrivals, e)
  }

  /** In one session a frame is processed exactly when its first copy arrives after a SessionStart, before an accepted
      SessionEnd and before any processed frame that the codec's argument check refuses. */
  lemma {:induction false} SessionFrames(w: World, arrivals: seq<seq<byte>>, T: Guid, n: nat, i: nat)
    requires i < n <= |arrivals| && OneSession(w, arrivals, T)
    ensures i in Run(w, arrivals, n).log <==>
      && FirstOf(arrivals, i, FRAME) && PacketAt(arrivals, i).testId == T
      && StartBefore(arrivals, i) && forall e :: 0 <= e < i ==> !EndAccepted(arrivals, T, e) && !FailsAt(w, arrivals, e)
  {
    hide Run, InForce, First, StartBefore, FailsAt, Decode;
    ProcessedExactly(w, arrivals, n, i);
    forall e | 0 <= e < n
      ensures EndsAt(w, arrivals, e) <==> EndAccepted(arrivals, T, e)
    {
      InForceMeansStarted(w, arrivals, T, e);
    }
    InForceMeansStarted(w, arrivals, T, i);
  }

  /** Some position up to i holds the first copy of the key at i. */
  lemma {:induction false} FirstCopy(arrivals: seq<seq<byte>>, i: nat) returns (first: nat)
    requires i < |arrivals| && Arrives(arrivals, i)
    ensures first <= i && Arrives(arrivals, first) && First(arrivals, first) && KeyOf(PacketAt(arrivals, first)) == KeyOf(PacketAt(arrivals, i))
    decreases i
  {
    hide Decode, KeyOf;
    first := i;
    if !First(arrivals, i) {
      var j :| 0 <= j < i && Arrives(arrivals, j) && KeyOf(PacketAt(arrivals, j)) == KeyOf(PacketAt(arrivals, i));
      first := FirstCopy(arrivals, j);
    }
  }

  lemma {:induction false} FirstEnd(arrivals: seq<seq<byte>>, T: Guid, n: nat) returns (first: nat)
    requires n <= |arrivals| && exists e :: 0 <= e < n && EndAccepted(arrivals, T, e)
    ensures first < n && EndAccepted(arrivals, T, first) && forall e :: 0 <= e < first ==> !EndAccepted(arrivals, T, e)
  {
    hide EndAccepted;
    first := 0;
    while !EndAccepted(arrivals, T, first)
      invariant first < n && forall e :: 0 <= e < first ==> !EndAccepted(arrivals, T, e)
      decreases n - first
    {
      first := first + 1;
    }
  }

  /** In one session in which nothing fails the loop has ended exactly when a SessionEnd was accepted; otherwise it waits. */
  lemma {:induction false} SessionEnds(w: World, arrivals: seq<seq<byte>>, T: Guid, n: nat)
    requires n <= |arrivals| && OneSession(w, arrivals, T) && forall e :: 0 <= e < n ==> !FailsAt(w, arrivals, e)
    ensures Run(w, arrivals, n).phase.Ended? <==> exists e :: 0 <= e < n && EndAccepted(arrivals, T, e)
    ensures !Run(w, arrivals, n).phase.Failed?
  {
    hide Run, InForce, First, StartBefore, FailsAt, Decode, Due, Keys;
    EveryRunIsSound(w, arrivals, n);
    EndedExactly(w, arrivals, n);
    forall e | 0 <= e < n
      ensures EndsAt(w, arrivals, e) <==> EndAccepted(arrivals, T, e)
    {
      InForceMeansStarted(w, arrivals, T, e);
    }
    if exists e :: 0 <= e < n && EndAccepted(arrivals, T, e) {
      var first := FirstEnd(arrivals, T, n);
      assert EndsAt(w, arrivals, first) && !OverBefore(w, arrivals, first);
    }
  }

  /** When the loop has ended, the manifest is the one in force. */
  lemma {:induction false} EndedWithManifest(w: World, arrivals: seq<seq<byte>>, n: nat)
    requires n <= |arrivals| && Run(w, arrivals, n).phase.Ended?
    ensures var s := Run(w, arrivals, n); s.manifest.Some? && s.datagrams <= n && s.manifest == InForce(w, arrivals, s.datagrams)
  {
    hide Run, Decode, FailsAt, Due, Keys;
    EveryRunIsSound(w, arrivals, n);
  }

  /** A SessionEnd that overtakes every SessionStart is ignored and its later copies are duplicates:
      such a session never ends, whatever else arrives. */
  lemma {:induction false} OvertakingEndHangs(w: World, arrivals: seq<seq<byte>>, T: Guid, n: nat, first: nat)
    requires first < n <= |arrivals| && OneSession(w, arrivals, T)
    requires Arrives(arrivals, first) && PacketAt(arrivals, first).kind == SESSION_END && !StartBefore(arrivals, first)
    requires forall e :: 0 <= e < n && Arrives(arrivals, e) && PacketAt(arrivals, e).kind == SESSION_END && PacketAt(arrivals, e).testId == T ==>
      KeyOf(PacketAt(arrivals, e)) == KeyOf(PacketAt(arrivals, first))
    ensures !Run(w, arrivals, n).phase.Ended?
  {
    hide Run, InForce, Decode, OverBefore, FailsAt, KeyOf;
    EndedExactly(w, arrivals, n);
    forall e | 0 <= e < n
      ensures !EndsAt(w, arrivals, e)
    {
      InForceMeansStarted(w, arrivals, T, e);
    }
  }

  /** The first copy of frame j arrived between SessionStart and SessionEnd. */
  ghost predicate Came(arrivals: seq<seq<byte>>, T: Guid, n: nat, j: nat)
    requires n <= |arrivals|
  {
    exists i :: 0 <= i < n && CameAt(arrivals, T, j, i)
  }

  ghost predicate CameAt(arrivals: seq<seq<byte>>, T: Guid, j: nat, i: nat)
    requires i < |arrivals|
  {
    && FirstOf(arrivals, i, FRAME) && PacketAt(arrivals, i).testId == T && PacketAt(arrivals, i).sequence == j
    && StartBefore(arrivals, i) && forall e :: 0 <= e < i ==> !EndAccepted(arrivals, T, e)
  }

  // ----- two runs -----

  function Message(kind: Kind, T: Guid, payload: seq<byte>): Packet {
    Packet(kind, T, 0, 0, 8, 0, 0, 0, 0, payload)
  }

  function OnWire(p: Packet): seq<byte>
    requires |p.payload| <= MAX_PAYLOAD
  {
    Datagram(p).value
  }

  lemma {:induction false} WireDecodes(p: Packet)
    requires |p.payload| <= MAX_PAYLOAD && Defined(p.kind)
    ensures Decode(OnWire(p)) == Ok(p)
  {
    hide Decode, Datagram;
    DecodeInvertsEncode(p);
  }

  /** SessionEnd, SessionStart, SessionEnd: after the three datagrams the receiver still waits, and the second end was a duplicate. */
  lemma {:induction false} OvertakingEndRun(w: World, T: Guid, payload: seq<byte>)
    requires |payload| <= MAX_PAYLOAD && w.read(payload).Some? && w.read(payload).value.testId == T
    ensures var end, begin := OnWire(Message(SESSION_END, T, [])), OnWire(Message(SESSION_START, T, payload));
      var s := Run(w, [end, begin, end], 3);
      s.phase == Receiving && s.duplicates == 1 && s.manifest == w.read(payload)
  {
    hide Decode, OnWire;
    var end, begin := OnWire(Message(SESSION_END, T, [])), OnWire(Message(SESSION_START, T, payload));
    WireDecodes(Message(SESSION_END, T, []));
    WireDecodes(Message(SESSION_START, T, payload));
    var arrivals := [end, begin, end];
    var s1 := Turn(w, START, end);
    var s2 := Turn(w, s1, begin);
    assert Run(w, arrivals, 1) == s1 && Run(w, arrivals, 2) == s2;
    assert s1.phase == Receiving && s2.phase == Receiving;
  }

  /** Frame, SessionStart, frame: the frame arrived twice, once in time, and was not processed. */
  lemma {:induction false} EarlyFrameRun(w: World, T: Guid, payload: seq<byte>, frame: seq<byte>)
    requires |payload| <= MAX_PAYLOAD && |frame| <= MAX_PAYLOAD && w.read(payload).Some? && w.read(payload).value.testId == T
    ensures var f, begin := OnWire(Message(FRAME, T, frame)), OnWire(Message(SESSION_START, T, payload));
      var s := Run(w, [f, begin, f], 3);
      s.phase == Receiving && s.duplicates == 1 && s.log == []
  {
    hide Decode, OnWire;
    var f, begin := OnWire(Message(FRAME, T, frame)), OnWire(Message(SESSION_START, T, payload));
    WireDecodes(Message(FRAME, T, frame));
    WireDecodes(Message(SESSION_START, T, payload));
    var arrivals := [f, begin, f];
    var s1 := Turn(w, START, f);
    var s2 := Turn(w, s1, begin);
    assert Run(w, arrivals, 1) == s1 && Run(w, arrivals, 2) == s2;
    assert s1.phase == Receiving && s2.phase == Receiving;
  }

  // ----- what the processed frames leave behind -----

  ghost predicate Positions(arrivals: seq<seq<byte>>, log: seq<nat>) {
    forall i :: i in log ==> i < |arrivals| && Arrives(arrivals, i)
  }

  ghost predicate Recovering(w: World, arrivals: seq<seq<byte>>, i: nat)
    requires i < |arrivals|
  {
    InForce(w, arrivals, i).Some? && InForce(w, arrivals, i).value.syncRecovery
  }

  /** The receiver after the processed frames, those of Test D left out. */
  ghost function Fed(w: World, arrivals: seq<seq<byte>>, log: seq<nat>): ReceiverState
    requires Positions(arrivals, log)
  {
    if log == [] then INITIAL_STATE
    else
      var n := |log| - 1;
      assert log[n] in log && forall i :: i in log[..n] ==> i in log;
      var before := Fed(w, arrivals, log[..n]);
      if Recovering(w, arrivals, log[n]) then before
      else
        var p := PacketAt(arrivals, log[n]);
        Receive(before, w.codec(p.timeOfInterval, p.payload), w.expectedType).0
  }

  /** The frames kept for Test D. */
  ghost function Kept(w: World, arrivals: seq<seq<byte>>, log: seq<nat>): map<U32, Packet>
    requires Positions(arrivals, log)
  {
    if log == [] then map[]
    else
      var n := |log| - 1;
      assert log[n] in log && forall i :: i in log[..n] ==> i in log;
      var before := Kept(w, arrivals, log[..n]);
      var p := PacketAt(arrivals, log[n]);
      if Recovering(w, arrivals, log[n]) then before[p.sequence := p] else before
  }

  /** Some processed frame has sequence q. */
  ghost predicate InLog(arrivals: seq<seq<byte>>, log: seq<nat>, q: nat)
    requires Positions(arrivals, log)
  {
    exists i :: i in log && PacketAt(arrivals, i).sequence == q
  }

  ghost predicate Held(w: World, arrivals: seq<seq<byte>>, s: Loop) {
    && Positions(arrivals, s.log)
    && s.frames == Fed(w, arrivals, s.log)
    && s.syncFrames == Kept(w, arrivals, s.log)
    && (forall q :: q in s.frameSequences <==> InLog(arrivals, s.log, q))
  }

  /** received = corrupt + time requests + duplicates + accepted, and every probe is answered. */
  predicate Conserved(s: Loop) {
    s.datagrams == s.corrupt + s.timeSync + s.duplicates + |s.accepted| && s.probes == s.probeResponses
  }

  lemma {:induction false} LogGrowsHeld(w: World, arrivals: seq<seq<byte>>, log: seq<nat>, t: nat)
    requires Positions(arrivals, log) && t < |arrivals| && Arrives(arrivals, t)
    ensures Positions(arrivals, log + [t])
    ensures Fed(w, arrivals, log + [t]) ==
      if Recovering(w, arrivals, t) then Fed(w, arrivals, log)
      else Receive(Fed(w, arrivals, log), w.codec(PacketAt(arrivals, t).timeOfInterval, PacketAt(arrivals, t).payload), w.expectedType).0
    ensures Kept(w, arrivals, log + [t]) ==
      if Recovering(w, arrivals, t) then Kept(w, arrivals, log)[PacketAt(arrivals, t).sequence := PacketAt(arrivals, t)] else Kept(w, arrivals, log)
  {
    hide Recovering, Receive, Decode;
    assert (log + [t])[..|log|] == log;
  }

  lemma {:induction false} InLogGrows(arrivals: seq<seq<byte>>, log: seq<nat>, t: nat, q: nat)
    requires Positions(arrivals, log) && t < |arrivals| && Arrives(arrivals, t)
    ensures Positions(arrivals, log + [t]) && (InLog(arrivals, log + [t], q) <==> InLog(arrivals, log, q) || PacketAt(arrivals, t).sequence == q)
  {
    hide Decode;
    var log' := log + [t];
    if InLog(arrivals, log, q) {
      var i :| i in log && PacketAt(arrivals, i).sequence == q;
      assert i in log';
    }
    assert t in log';
  }

  lemma {:induction false} SequencesGrow(arrivals: seq<seq<byte>>, log: seq<nat>, t: nat, qs: set<U32>)
    requires Positions(arrivals, log) && t < |arrivals| && Arrives(arrivals, t)
    requires forall q :: q in qs <==> InLog(arrivals, log, q)
    ensures Positions(arrivals, log + [t]) && forall q :: q in qs + {PacketAt(arrivals, t).sequence} <==> InLog(arrivals, log + [t], q)
  {
    hide Decode, InLog, Positions;
    InLogGrows(arrivals, log, t, 0);
    forall q
      ensures q in qs + {PacketAt(arrivals, t).sequence} <==> InLog(arrivals, log + [t], q)
    {
      InLogGrows(arrivals, log, t, q);
    }
  }

  lemma {:induction false} TurnHeld(w: World, arrivals: seq<seq<byte>>, n: nat, s: Loop)
    requires n < |arrivals| && Sound(w, arrivals, n, s) && s.phase.Receiving? && Held(w, arrivals, s)
    ensures Held(w, arrivals, Turn(w, s, arrivals[n]))
  {
    hide First, LogIs, Receive, WellShaped, Decode, Fed, Kept, Positions, InLog, EndsAt, FailsAt, Keys, KeyOf;
    if Arrives(arrivals, n) {
      LogGrowsHeld(w, arrivals, s.log, n);
      SequencesGrow(arrivals, s.log, n, s.frameSequences);
    }
  }

  lemma {:induction false} TurnConserves(w: World, s: Loop, datagram: seq<byte>)
    requires Conserved(s)
    ensures Conserved(Turn(w, s, datagram))
  {
    hide Receive, Decode, KeyOf;
  }

  /** In every run: the counters add up, and the receiver, the kept frames and the sequence set are those of
      the processed frames. */
  lemma {:induction false} EveryRunHolds(w: World, arrivals: seq<seq<byte>>, n: nat)
    requires n <= |arrivals|
    ensures Held(w, arrivals, Run(w, arrivals, n)) && Conserved(Run(w, arrivals, n))
    decreases n
  {
    hide Turn, Sound;
    if n > 0 {
      EveryRunHolds(w, arrivals, n - 1);
      EveryRunIsSound(w, arrivals, n - 1);
      if Run(w, arrivals, n - 1).phase.Receiving? {
        TurnHeld(w, arrivals, n - 1, Run(w, arrivals, n - 1));
        TurnConserves(w, Run(w, arrivals, n - 1), arrivals[n - 1]);
      } else {
        TurnStays(w, Run(w, arrivals, n - 1), arrivals[n - 1]);
      }
    }
  }

  // ----- what the counters count -----

  datatype Sort = Undecodable | TimeRequest | Repeat | AnsweredProbe

  /** The datagram at i is of this sort, judged by the arrivals alone. */
  ghost predicate IsOf(w: World, arrivals: seq<seq<byte>>, i: nat, sort: Sort)
    requires i < |arrivals|
  {
    match sort
    case Undecodable => Decode(arrivals[i]).InvalidData?
    case TimeRequest => Decode(arrivals[i]).Ok? && Decode(arrivals[i]).value.kind == TIME_SYNC_REQUEST
    case Repeat => Arrives(arrivals, i) && !First(arrivals, i)
    case AnsweredProbe => FirstOf(arrivals, i, PROBE) && Matches(w, arrivals, i)
  }

  ghost function Those(w: World, arrivals: seq<seq<byte>>, t: nat, sort: Sort): set<nat>
    requires t <= |arrivals|
  {
    set i | 0 <= i < t && IsOf(w, arrivals, i, sort)
  }

  ghost predicate Tallied(w: World, arrivals: seq<seq<byte>>, s: Loop)
    requires s.datagrams <= |arrivals|
  {
    && s.corrupt == |Those(w, arrivals, s.datagrams, Undecodable)|
    && s.timeSync == |Those(w, arrivals, s.datagrams, TimeRequest)|
    && s.duplicates == |Those(w, arrivals, s.datagrams, Repeat)|
    && s.probes == s.probeResponses == |Those(w, arrivals, s.datagrams, AnsweredProbe)|
  }

  lemma {:induction false} ThoseGrow(w: World, arrivals: seq<seq<byte>>, t: nat, sort: Sort)
    requires t < |arrivals|
    ensures |Those(w, arrivals, t + 1, sort)| == |Those(w, arrivals, t, sort)| + if IsOf(w, arrivals, t, sort) then 1 else 0
  {
    hide IsOf;
    OneMore(Those(w, arrivals, t, sort), Those(w, arrivals, t + 1, sort), t, IsOf(w, arrivals, t, sort));
  }

  lemma {:induction false} TurnTallies(w: World, arrivals: seq<seq<byte>>, n: nat, s: Loop)
    requires n < |arrivals| && Sound(w, arrivals, n, s) && s.phase.Receiving? && Tallied(w, arrivals, s)
    ensures Turn(w, s, arrivals[n]).datagrams == n + 1 && Tallied(w, arrivals, Turn(w, s, arrivals[n]))
  {
    hide First, LogIs, Receive, WellShaped, Decode, Those, Keys, KeyOf, EndsAt, FailsAt;
    ThoseGrow(w, arrivals, n, Undecodable);
    ThoseGrow(w, arrivals, n, TimeRequest);
    ThoseGrow(w, arrivals, n, Repeat);
    ThoseGrow(w, arrivals, n, AnsweredProbe);
    if Arrives(arrivals, n) {
      FirstMeansNew(arrivals, n);
    }
  }

  /** In every run, over the datagrams taken before the loop was left: corrupt counts those that cannot be decoded, duplicates
      those whose key came before, and the probes those of the test in force that came first. */
  lemma {:induction false} CountersMean(w: World, arrivals: seq<seq<byte>>, n: nat)
    requires n <= |arrivals|
    ensures Run(w, arrivals, n).datagrams <= n && Tallied(w, arrivals, Run(w, arrivals, n))
    decreases n
  {
    hide Turn, Those, LogIs, Keys, InForce, EndsAt, FailsAt, WellShaped;
    if n > 0 {
      CountersMean(w, arrivals, n - 1);
      EveryRunIsSound(w, arrivals, n - 1);
      var s := Run(w, arrivals, n - 1);
      if s.phase.Receiving? {
        TurnTallies(w, arrivals, n - 1, s);
      } else {
        TurnStays(w, s, arrivals[n - 1]);
      }
    } else {
      NothingYet(w, arrivals);
    }
  }

  lemma {:induction false} NothingYet(w: World, arrivals: seq<seq<byte>>)
    ensures Tallied(w, arrivals, START)
  {
    hide IsOf;
    assert forall sort :: Those(w, arrivals, 0, sort) == {};
  }

  // ----- the loop itself -----

  /** What ReceiveAsync has when its loop is left. */
  datatype LoopResult = LoopResult(
    phase: Phase, manifest: Option<Manifest>, frameSequences: set<U32>, syncFrames: map<U32, Packet>,
    datagrams: nat, duplicates: nat, corrupt: nat, probes: nat, probeResponses: nat)

  function ResultOf(s: Loop): LoopResult {
    LoopResult(s.phase, s.manifest, s.frameSequences, s.syncFrames, s.datagrams, s.duplicates, s.corrupt, s.probes, s.probeResponses)
  }

  /** The while loop of ReceiveAsync, on the datagrams that arrive. */
  method ReceiveAll(w: World, arrivals: seq<seq<byte>>, frames: Receiver) returns (r: LoopResult)
    requires frames.State() == INITIAL_STATE && frames.expectedType == w.expectedType
    modifies frames, frames.reassembler
    ensures r == ResultOf(Run(w, arrivals, |arrivals|)) && frames.State() == Run(w, arrivals, |arrivals|).frames
  {
    hide Decode, Receive, KeyOf, Run;
    RunStep(w, arrivals, 0);
    var deduplicator := new Deduplicator();
    var manifest: Option<Manifest> := None;
    var frameSequences: set<U32> := {};
    var syncFrames: map<U32, Packet> := map[];
    var datagrams, duplicates, corrupt, probes, probeResponses := 0, 0, 0, 0, 0;
    ghost var s := START;
    while datagrams < |arrivals|
      invariant fresh(deduplicator)
      invariant datagrams <= |arrivals| && s == Run(w, arrivals, datagrams)
      invariant deduplicator.received == s.accepted && frames.State() == s.frames
      invariant ResultOf(s) == LoopResult(Receiving, manifest, frameSequences, syncFrames, datagrams, duplicates, corrupt, probes, probeResponses)
      decreases |arrivals| - datagrams
    {
      var datagram := arrivals[datagrams];
      RunStep(w, arrivals, datagrams);
      s := Turn(w, s, datagram);
      datagrams := datagrams + 1;
      var decoded := Decode(datagram);
      if decoded.InvalidData? { corrupt := corrupt + 1; continue; }
      var packet := decoded.value;
      if packet.kind == TIME_SYNC_REQUEST { continue; }
      var accepted := deduplicator.TryAccept(packet);
      if !accepted { duplicates := duplicates + 1; continue; }
      if packet.kind == SESSION_START {
        var read := w.read(packet.payload);
        if read.None? {
          Frozen(w, arrivals, datagrams);
          return LoopResult(Failed, manifest, frameSequences, syncFrames, datagrams, duplicates, corrupt, probes, probeResponses);
        }
        manifest := read;
        continue;
      }
      if manifest.None? || packet.testId != manifest.value.testId { continue; }
      if packet.kind == PROBE {
        probes := probes + 1;
        probeResponses := probeResponses + 1;
        continue;
      }
      if packet.kind == FRAME {
        frameSequences := frameSequences + {packet.sequence};
        if manifest.value.syncRecovery {
          syncFrames := syncFrames[packet.sequence := packet];
        } else {
          var returned := frames.DecodeFrame(w.codec(packet.timeOfInterval, packet.payload));
          if !returned {
            Frozen(w, arrivals, datagrams);
            return LoopResult(Failed, manifest, frameSequences, syncFrames, datagrams, duplicates, corrupt, probes, probeResponses);
          }
        }
        continue;
      }
      if packet.kind != SESSION_END { continue; }
      Frozen(w, arrivals, datagrams);
      return LoopResult(Ended, manifest, frameSequences, syncFrames, datagrams, duplicates, corrupt, probes, probeResponses);
    }
    r := LoopResult(Receiving, manifest, frameSequences, syncFrames, datagrams, duplicates, corrupt, probes, probeResponses);
  }

  lemma {:induction false} RunStep(w: World, arrivals: seq<seq<byte>>, n: nat)
    requires n <= |arrivals|
    ensures Run(w, arrivals, 0) == START
    ensures n < |arrivals| ==> Run(w, arrivals, n + 1) == Turn(w, Run(w, arrivals, n), arrivals[n])
  {
  }

  /** Nothing that arrives after the loop was left changes anything. */
  lemma {:induction false} Frozen(w: World, arrivals: seq<seq<byte>>, n: nat)
    requires n <= |arrivals| && !Run(w, arrivals, n).phase.Receiving?
    ensures Run(w, arrivals, |arrivals|) == Run(w, arrivals, n)
    decreases |arrivals| - n
  {
    hide Turn;
    if n < |arrivals| {
      TurnStays(w, Run(w, arrivals, n), arrivals[n]);
      Frozen(w, arrivals, n + 1);
    }
  }
}
