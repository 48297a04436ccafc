/** lnis_afs_encode_frame and lnis_afs_decode_frame: subframe 1, the coded blocks, the interleaver,
    the erasure layout in front of the LDPC decoder, and the status word. */
module FrameCodec {
  import opened BitStrings
  import opened BitPacking
  import opened Crc24q
  import opened Interleaver
  import opened LdpcEncoder

  // ----- the synchronisation pattern and subframe 1 -----

  const SYNC_BYTES: seq<byte> := [0xCC, 0x63, 0xF7, 0x45, 0x36, 0xF4, 0x9E, 0x04, 0xA0]

  function SyncBits(): (s: Bits)
    ensures |s| == 68
  {
    BitsOf(SYNC_BYTES, 68)
  }

  /** The low k bits of a value, most significant first. */
  function ValueBits(n: nat, k: nat): (s: Bits)
    ensures |s| == k
    decreases k
  {
    if k == 0 then [] else ValueBits(n / 2, k - 1) + [n % 2 == 1]
  }

  function Power(k: nat): nat {
    if k == 0 then 1 else 2 * Power(k - 1)
  }

  lemma {:induction false} ValueBitsInjective(m: nat, n: nat, k: nat)
    requires m < Power(k) && n < Power(k) && ValueBits(m, k) == ValueBits(n, k)
    ensures m == n
    decreases k
  {
    if k > 0 {
      var s, t := ValueBits(m, k), ValueBits(n, k);
      assert s[..k - 1] == ValueBits(m / 2, k - 1) && t[..k - 1] == ValueBits(n / 2, k - 1);
      assert s[k - 1] == (m % 2 == 1) && t[k - 1] == (n % 2 == 1);
      ValueBitsInjective(m / 2, n / 2, k - 1);
    }
  }

  /** One LFSR step with taps 0x9F on eight places; r[0] is the least significant one. */
  function LfsrStep(r: Bits): (r': Bits)
    requires |r| == 8
    ensures |r'| == 8
  {
    r[1..] + [r[0] != (r[1] != (r[2] != (r[3] != (r[4] != r[7]))))]
  }

  /** The first n output bits. */
  function Lfsr(n: nat, r: Bits): (out: Bits)
    requires |r| == 8
    ensures |out| == n
  {
    if n == 0 then [] else [r[0]] + Lfsr(n - 1, LfsrStep(r))
  }

  /** generate_BCH_AFS_SF1 with frame id 0: bit 8 of the data is zero, and the reversed byte is the
      initial register, so its most significant bit comes out first. */
  function Sf1(toi: nat): (s: Bits)
    ensures |s| == 52
  {
    [false] + Lfsr(51, ValueBits(toi, 8))
  }

  /** Before any feedback reaches the output the register itself comes out. */
  lemma {:induction false} LfsrPrefix(n: nat, k: nat, r: Bits)
    requires |r| == 8 && n <= 8 && n <= k
    ensures Lfsr(k, r)[..n] == r[..n]
    decreases n
  {
    if n > 0 {
      LfsrPrefix(n - 1, k - 1, LfsrStep(r));
      var out := Lfsr(k - 1, LfsrStep(r));
      assert ([r[0]] + out)[..n] == [r[0]] + out[..n - 1];
      assert LfsrStep(r)[..n - 1] == r[1..n];
      assert r[..n] == [r[0]] + r[1..n];
    }
  }

  /** Places 1 to 8 of subframe 1 are the interval itself. */
  lemma {:induction false} Sf1Data(toi: nat)
    ensures Sf1(toi)[1..9] == ValueBits(toi, 8)
  {
    hide Lfsr, LfsrStep, ValueBits;
    LfsrPrefix(8, 51, ValueBits(toi, 8));
    assert ValueBits(toi, 8)[..8] == ValueBits(toi, 8);
  }

  /** Different intervals have different subframes 1. */
  lemma {:induction false} Sf1Injective(s: nat, t: nat)
    requires s < 100 && t < 100 && Sf1(s) == Sf1(t)
    ensures s == t
  {
    hide Sf1, ValueBits;
    Sf1Data(s);
    Sf1Data(t);
    assert Power(8) == 256;
    ValueBitsInjective(s, t, 8);
  }

  // ----- encoding -----

  /** The two LDPC codes and their cached matrices are in place. */
  ghost predicate Codes(sf2: Code, sf3: Code) {
    IsSf2(sf2) && IsSf3(sf3)
  }

  /** Data followed by its checksum. */
  function WithCrc(data: Bits): (b: Bits)
    ensures |b| == |data| + 24
  {
    data + CrcBits(data)
  }

  ghost function Sf2Symbols(code: Code, data: Bits): (s: Bits)
    requires IsSf2(code) && |data| == 1176
    ensures |s| == 2400
  {
    Full(code, WithCrc(data))[240..2640]
  }

  ghost function Sf3Symbols(code: Code, data: Bits): (s: Bits)
    requires IsSf3(code) && |data| == 846
    ensures |s| == 1740
  {
    Full(code, WithFiller(WithCrc(data)))[176..870] + Full(code, WithFiller(WithCrc(data)))[880..1926]
  }

  ghost function Coded(sf2: Code, sf3: Code, sb2: Bits, sb3: Bits, sb4: Bits): (s: Bits)
    requires Codes(sf2, sf3) && |sb2| == 1176 && |sb3| == |sb4| == 846
    ensures |s| == 5880
  {
    Sf2Symbols(sf2, sb2) + Sf3Symbols(sf3, sb3) + Sf3Symbols(sf3, sb4)
  }

  ghost function FrameBits(sf2: Code, sf3: Code, toi: nat, sb2: Bits, sb3: Bits, sb4: Bits): (s: Bits)
    requires Codes(sf2, sf3) && |sb2| == 1176 && |sb3| == |sb4| == 846
    ensures |s| == 6000
  {
    SyncBits() + Sf1(toi) + Interleave(Coded(sf2, sf3, sb2, sb3, sb4))
  }

  datatype EncodeResult = Encoded(frame: seq<byte>) | BadToi | BadLength | BadBits

  /** valid_bits */
  predicate ValidBits(raw: seq<int>) {
    forall i :: 0 <= i < |raw| ==> 0 <= raw[i] <= 1
  }

  function ToBits(raw: seq<int>): (b: Bits)
    ensures |b| == |raw|
  {
    seq(|raw|, i requires 0 <= i < |raw| => raw[i] == 1)
  }

  method CheckBits(raw: seq<int>) returns (ok: bool)
    requires forall i :: 0 <= i < |raw| ==> 0 <= raw[i] < 256
    ensures ok == ValidBits(raw)
  {
    for i := 0 to |raw|
      invariant forall x :: 0 <= x < i ==> raw[x] <= 1
    {
      if raw[i] > 1 { return false; }
    }
    ok := true;
  }

  /** memset, memcpy and append_CRC24 on the block buffer. */
  method Block(data: Bits) returns (block: Bits)
    requires |data| + 24 <= 2048
    ensures block == WithCrc(data)
  {
    hide CrcBits;
    var buf := new bool[|data| + 24](i requires 0 <= i < |data| + 24 => i < |data| && data[i]);
    assert buf[..|data|] == data;
    AppendCrc24(buf);
    block := buf[..];
    assert block == buf[..|data|] + buf[|data|..];
  }

  /** The three blocks with their checksums, coded one behind the other. */
  method CodeBlocks(sf2: Code, sf3: Code, at2: Caches, at3: Caches, sb2: Bits, sb3: Bits, sb4: Bits) returns (coded: Bits)
    requires Codes(sf2, sf3) && Consistent(sf2, at2) && Consistent(sf3, at3) && |sb2| == 1176 && |sb3| == |sb4| == 846
    ensures coded == Coded(sf2, sf3, sb2, sb3, sb4)
  {
    hide Full, CrcBits, Stores;
    var block := Block(sb2);
    var c2 := EncodeSf2(sf2, at2, block);
    block := Block(sb3);
    var c3 := EncodeSf3(sf3, at3, block);
    block := Block(sb4);
    var c4 := EncodeSf3(sf3, at3, block);
    coded := c2 + c3 + c4;
  }

  /** lnis_afs_encode_frame */
  method EncodeFrame(sf2: Code, sf3: Code, at2: Caches, at3: Caches, toi: nat, sb2: seq<int>, sb3: seq<int>, sb4: seq<int>, frameLen: nat)
      returns (r: EncodeResult)
    requires Codes(sf2, sf3) && Consistent(sf2, at2) && Consistent(sf3, at3)
    requires forall i :: 0 <= i < |sb2| ==> 0 <= sb2[i] < 256
    requires forall i :: 0 <= i < |sb3| ==> 0 <= sb3[i] < 256
    requires forall i :: 0 <= i < |sb4| ==> 0 <= sb4[i] < 256
    ensures r.BadToi? <==> toi >= 100
    ensures r.BadLength? <==> toi < 100 && (|sb2| != 1176 || |sb3| != 846 || |sb4| != 846 || frameLen != 750)
    ensures r.BadBits? ==> toi < 100 && |sb2| == 1176 && |sb3| == 846 && |sb4| == 846 && !(ValidBits(sb2) && ValidBits(sb3) && ValidBits(sb4))
    ensures r.Encoded? ==> toi < 100 && |sb2| == 1176 && |sb3| == 846 && |sb4| == 846 && ValidBits(sb2) && ValidBits(sb3) && ValidBits(sb4)
    ensures r.Encoded? ==> r.frame == PackBits(FrameBits(sf2, sf3, toi, ToBits(sb2), ToBits(sb3), ToBits(sb4)))
  {
    hide Coded, Stores, PackBits, Sf1, SyncBits, Interleave, ToBits;
    if toi >= 100 { return BadToi; }
    if |sb2| != 1176 || |sb3| != 846 || |sb4| != 846 || frameLen != 750 { return BadLength; }
    var ok2 := CheckBits(sb2);
    var ok3 := CheckBits(sb3);
    var ok4 := CheckBits(sb4);
    if !ok2 || !ok3 || !ok4 { return BadBits; }
    var coded := CodeBlocks(sf2, sf3, at2, at3, ToBits(sb2), ToBits(sb3), ToBits(sb4));
    var interleaved := InterleaveLoop(coded);
    var sync := SyncBits();
    var frame := Pack(sync + Sf1(toi) + interleaved);
    r := Encoded(frame);
  }

  // ----- decoding -----

  /** A received symbol: a bit, or ERASURE where nothing was transmitted. */
  datatype Symbol = Bit(b: bool) | Erasure

  function Symbols(bits: Bits): (s: seq<Symbol>)
    ensures |s| == |bits|
  {
    seq(|bits|, i requires 0 <= i < |bits| => Bit(bits[i]))
  }

  function Erased(n: nat): (s: seq<Symbol>)
    ensures |s| == n
  {
    seq(n, _ => Erasure)
  }

  /** What the SF2 decoder is given: 6240 places, of which 240 to 2639 were received. */
  function Sf2Input(block: Bits): (s: seq<Symbol>)
    requires |block| == 2400
    ensures |s| == 6240
  {
    Erased(240) + Symbols(block) + Erased(3600)
  }

  /** What the SF3 decoder is given: 4576 places; the punctured, filler and unsent ones are erased. */
  function Sf3Input(block: Bits): (s: seq<Symbol>)
    requires |block| == 1740
    ensures |s| == 4576
  {
    Erased(176) + Symbols(block[..694]) + Erased(10) + Symbols(block[694..]) + Erased(2650)
  }

  /** The result code and decoded bits of sdr_decode_LDPC_AFS_SF2 or SF3, which are not modelled. */
  datatype Decoding = Decoding(result: int, bits: Bits)

  type Decoder = seq<Symbol> -> Decoding

  ghost predicate DecoderWidth(dec: Decoder, n: nat) {
    forall s :: |dec(s).bits| >= n
  }

  datatype Status = Status(sb2Ok: bool, sb3Ok: bool, sb4Ok: bool, sb2Corrections: int, sb3Corrections: int, sb4Corrections: int)

  datatype DecodeResult =
    | BadArgument
    | SyncMismatch
    | Sf1Mismatch
    | Decoded(code: int, status: Status, sb2: Bits, sb3: Bits, sb4: Bits)

  function BlockOk(d: Decoding, dataLen: nat): bool
    requires dataLen + 24 <= |d.bits|
  {
    d.result >= 0 && Accepts(d.bits[..dataLen + 24])
  }

  /** What the caller gets for one block, in terms of that block's own decoder alone: the flag is set exactly when the decoder
      succeeded and its 24 bits behind the data are the checksum of the data; the output is then the data, else the buffer. */
  ghost predicate BlockAnswer(d: Decoding, dataLen: nat, ok: bool, corrections: int, out: Bits, buf: Bits) {
    && |d.bits| >= dataLen + 24
    && (ok <==> d.result >= 0 && d.bits[dataLen..dataLen + 24] == CrcBits(d.bits[..dataLen]))
    && corrections == d.result
    && out == if ok then d.bits[..dataLen] else buf
  }

  /** What lnis_afs_decode_frame returns for a frame that passes the pattern and subframe 1, block by block. */
  ghost predicate BlockAnswers(dec2: Decoder, dec3: Decoder, frame: Bits, r: DecodeResult, sb2: Bits, sb3: Bits, sb4: Bits)
    requires |frame| == 6000
  {
    var block := Deinterleave(frame[120..]);
    && r.Decoded?
    && BlockAnswer(dec2(Sf2Input(block[..2400])), 1176, r.status.sb2Ok, r.status.sb2Corrections, r.sb2, sb2)
    && BlockAnswer(dec3(Sf3Input(block[2400..4140])), 846, r.status.sb3Ok, r.status.sb3Corrections, r.sb3, sb3)
    && BlockAnswer(dec3(Sf3Input(block[4140..])), 846, r.status.sb4Ok, r.status.sb4Corrections, r.sb4, sb4)
    && (r.code == 0 <==> r.status.sb2Ok && r.status.sb3Ok && r.status.sb4Ok)
    && (r.code != 0 ==> r.code == 1)
  }

  lemma {:induction false} OkIsAnswer(d: Decoding, dataLen: nat, buf: Bits)
    requires |d.bits| >= dataLen + 24
    ensures BlockAnswer(d, dataLen, BlockOk(d, dataLen), d.result, if BlockOk(d, dataLen) then d.bits[..dataLen] else buf, buf)
  {
    hide CrcBits;
    var b := d.bits[..dataLen + 24];
    assert b[|b| - 24..] == d.bits[dataLen..dataLen + 24] && b[..|b| - 24] == d.bits[..dataLen];
  }

  /** Decoding answers each block from its own decoder, whatever happens to the others. */
  lemma {:induction false} EveryBlockForItself(dec2: Decoder, dec3: Decoder, toi: nat, frame: Bits, sb2: Bits, sb3: Bits, sb4: Bits)
    requires DecoderWidth(dec2, 1200) && DecoderWidth(dec3, 870) && |frame| == 6000
    ensures var r := DecodeSpec(dec2, dec3, toi, frame, sb2, sb3, sb4);
      && (r == SyncMismatch <==> frame[..68] != SyncBits())
      && (r == Sf1Mismatch <==> frame[..68] == SyncBits() && frame[68..120] != Sf1(toi))
      && !r.BadArgument?
      && (r.Decoded? ==> BlockAnswers(dec2, dec3, frame, r, sb2, sb3, sb4))
  {
    hide SyncBits, Sf1, Deinterleave, Sf2Input, Sf3Input, BlockOk, BlockAnswer;
    if frame[..68] == SyncBits() && frame[68..120] == Sf1(toi) {
      var block := Deinterleave(frame[120..]);
      var d2, d3, d4 := dec2(Sf2Input(block[..2400])), dec3(Sf3Input(block[2400..4140])), dec3(Sf3Input(block[4140..]));
      assert |d2.bits| >= 1200 && |d3.bits| >= 870 && |d4.bits| >= 870;
      OkIsAnswer(d2, 1176, sb2);
      OkIsAnswer(d3, 846, sb3);
      OkIsAnswer(d4, 846, sb4);
    }
  }

  /** The erasure loops and memcpy of the SF2 branch. */
  method FillSf2(block: Bits) returns (received: seq<Symbol>)
    requires |block| == 2400
    ensures received == Sf2Input(block)
  {
    var out := new Symbol[6240](_ => Erasure);
    for i := 0 to 2400
      invariant forall x :: 0 <= x < 6240 ==> out[x] == if 240 <= x < 240 + i then Bit(block[x - 240]) else Erasure
    {
      out[240 + i] := Bit(block[i]);
    }
    received := out[..];
  }

  /** decode_sb34 up to the decoder call. */
  method FillSf3(block: Bits) returns (received: seq<Symbol>)
    requires |block| == 1740
    ensures received == Sf3Input(block)
  {
    var out := new Symbol[4576](_ => Erasure);
    for i := 0 to 694
      invariant forall x :: 0 <= x < 4576 ==> out[x] == if 176 <= x < 176 + i then Bit(block[x - 176]) else Erasure
    {
      out[176 + i] := Bit(block[i]);
    }
    for i := 0 to 1046
      invariant forall x :: 0 <= x < 4576 ==>
        (out[x] == if 176 <= x < 870 then Bit(block[x - 176]) else if 880 <= x < 880 + i then Bit(block[x - 186]) else Erasure)
    {
      out[880 + i] := Bit(block[694 + i]);
    }
    received := out[..];
  }

  /** decode_sb34: the output buffer is written only when the decoder and the checksum agree. */
  method DecodeSb34(dec3: Decoder, source: Bits, output: Bits) returns (ok: bool, corrections: int, out: Bits)
    requires DecoderWidth(dec3, 870) && |source| == 1740 && |output| == 846
    ensures var d := dec3(Sf3Input(source));
      && corrections == d.result && ok == BlockOk(d, 846) && out == if ok then d.bits[..846] else output
  {
    hide Accepts;
    var received := FillSf3(source);
    var d := dec3(received);
    assert |d.bits| >= 870;
    corrections := d.result;
    var good := CrcOk(d.bits, 846);
    ok := d.result >= 0 && good;
    out := if ok then d.bits[..846] else output;
  }

  /** lnis_afs_decode_frame; sb2, sb3 and sb4 are the caller's buffers. */
  method DecodeFrame(dec2: Decoder, dec3: Decoder, toi: nat, frameBytes: seq<byte>, sb2: Bits, sb3: Bits, sb4: Bits) returns (r: DecodeResult)
    requires DecoderWidth(dec2, 1200) && DecoderWidth(dec3, 870)
    ensures r.BadArgument? <==> |frameBytes| != 750 || |sb2| != 1176 || |sb3| != 846 || |sb4| != 846 || toi >= 100
    ensures !r.BadArgument? ==> r == DecodeSpec(dec2, dec3, toi, BitsOf(frameBytes, 6000), sb2, sb3, sb4)
    ensures r.Decoded? ==> BlockAnswers(dec2, dec3, BitsOf(frameBytes, 6000), r, sb2, sb3, sb4)
  {
    hide Accepts, Sf1, SyncBits, BitsOf, Deinterleave, BlockAnswers;
    if |frameBytes| != 750 || |sb2| != 1176 || |sb3| != 846 || |sb4| != 846 || toi >= 100 { return BadArgument; }
    var frame := Unpack(frameBytes, 6000);
    if frame[..68] != SyncBits() { return SyncMismatch; }
    if frame[68..120] != Sf1(toi) { return Sf1Mismatch; }
    var block := DeinterleaveLoop(frame);
    var received := FillSf2(block[..2400]);
    var d := dec2(received);
    assert |d.bits| >= 1200;
    var good := CrcOk(d.bits, 1176);
    var ok2 := d.result >= 0 && good;
    var out2 := if ok2 then d.bits[..1176] else sb2;
    var ok3, c3, out3 := DecodeSb34(dec3, block[2400..4140], sb3);
    var ok4, c4, out4 := DecodeSb34(dec3, block[4140..], sb4);
    r := Decoded(if ok2 && ok3 && ok4 then 0 else 1, Status(ok2, ok3, ok4, d.result, c3, c4), out2, out3, out4);
    EveryBlockForItself(dec2, dec3, toi, frame, sb2, sb3, sb4);
  }

  /** What decoding means, in terms of the 6000 frame bits. */
  ghost function DecodeSpec(dec2: Decoder, dec3: Decoder, toi: nat, frame: Bits, sb2: Bits, sb3: Bits, sb4: Bits): DecodeResult
    requires DecoderWidth(dec2, 1200) && DecoderWidth(dec3, 870) && |frame| == 6000
  {
    if frame[..68] != SyncBits() then SyncMismatch
    else if frame[68..120] != Sf1(toi) then Sf1Mismatch
    else
      var block := Deinterleave(frame[120..]);
      var d2, d3, d4 := dec2(Sf2Input(block[..2400])), dec3(Sf3Input(block[2400..4140])), dec3(Sf3Input(block[4140..]));
      assert |d2.bits| >= 1200 && |d3.bits| >= 870 && |d4.bits| >= 870;
      var ok2, ok3, ok4 := BlockOk(d2, 1176), BlockOk(d3, 846), BlockOk(d4, 846);
      Decoded(if ok2 && ok3 && ok4 then 0 else 1, Status(ok2, ok3, ok4, d2.result, d3.result, d4.result),
              if ok2 then d2.bits[..1176] else sb2, if ok3 then d3.bits[..846] else sb3, if ok4 then d4.bits[..846] else sb4)
  }

  // ----- the two sides agree -----

  /** Every place of the SF2 decoder input that is not erased is the codeword bit of that place. */
  lemma {:induction false} Sf2Layout(code: Code, data: Bits)
    requires IsSf2(code) && |data| == 1176
    ensures var input, full := Sf2Input(Sf2Symbols(code, data)), Full(code, WithCrc(data));
      |full| == |input| == 6240 && forall j :: 0 <= j < 6240 ==> input[j] == if 240 <= j < 2640 then Bit(full[j]) else Erasure
  {
    hide Full, WithCrc;
    var input, full := Sf2Input(Sf2Symbols(code, data)), Full(code, WithCrc(data));
    forall j | 0 <= j < 6240
      ensures input[j] == if 240 <= j < 2640 then Bit(full[j]) else Erasure
    {
      if 240 <= j < 2640 {
        assert input[j] == Bit(full[240..2640][j - 240]);
      }
    }
  }

  /** The same for SF3, around the filler bits. */
  lemma {:induction false} Sf3Layout(code: Code, data: Bits)
    requires IsSf3(code) && |data| == 846
    ensures var input, full := Sf3Input(Sf3Symbols(code, data)), Full(code, WithFiller(WithCrc(data)));
      && |full| == |input| == 4576
      && forall j :: 0 <= j < 4576 ==> input[j] == if 176 <= j < 870 || 880 <= j < 1926 then Bit(full[j]) else Erasure
  {
    hide Full, WithCrc;
    var block, full := Sf3Symbols(code, data), Full(code, WithFiller(WithCrc(data)));
    var input := Sf3Input(block);
    assert block[..694] == full[176..870] && block[694..] == full[880..1926];
    forall j | 0 <= j < 4576
      ensures input[j] == if 176 <= j < 870 || 880 <= j < 1926 then Bit(full[j]) else Erasure
    {
      if 176 <= j < 870 {
        assert input[j] == Bit(full[176..870][j - 176]);
      } else if 880 <= j < 1926 {
        assert input[j] == Bit(full[880..1926][j - 880]);
      }
    }
  }

  /** Deinterleaving an encoded frame gives back the three coded blocks. */
  lemma {:induction false} BlocksRecovered(sf2: Code, sf3: Code, toi: nat, sb2: Bits, sb3: Bits, sb4: Bits)
    requires Codes(sf2, sf3) && |sb2| == 1176 && |sb3| == |sb4| == 846
    ensures var frame := FrameBits(sf2, sf3, toi, sb2, sb3, sb4);
      && frame[..68] == SyncBits() && frame[68..120] == Sf1(toi)
      && var block := Deinterleave(frame[120..]);
        block[..2400] == Sf2Symbols(sf2, sb2) && block[2400..4140] == Sf3Symbols(sf3, sb3) && block[4140..] == Sf3Symbols(sf3, sb4)
  {
    hide Sf2Symbols, Sf3Symbols, Sf1, SyncBits, Interleave, Deinterleave;
    var frame, coded := FrameBits(sf2, sf3, toi, sb2, sb3, sb4), Coded(sf2, sf3, sb2, sb3, sb4);
    assert frame[120..] == Interleave(coded);
    Interleaver.RoundTrip(coded);
  }

  /** The decoder returns the systematic bits that were sent. */
  ghost predicate Recovers(d: Decoding, block: Bits) {
    d.result >= 0 && |d.bits| >= |block| && d.bits[..|block|] == block
  }

  /** If the LDPC decoders recover the systematic bits, decoding an encoded frame returns exactly the
      three inputs, with code 0 and all three blocks flagged good. */
  lemma {:induction false} FrameRoundTrip(sf2: Code, sf3: Code, dec2: Decoder, dec3: Decoder, toi: nat, sb2: Bits, sb3: Bits, sb4: Bits,
      buf2: Bits, buf3: Bits, buf4: Bits)
    requires Codes(sf2, sf3) && DecoderWidth(dec2, 1200) && DecoderWidth(dec3, 870) && |sb2| == 1176 && |sb3| == |sb4| == 846
    requires Recovers(dec2(Sf2Input(Sf2Symbols(sf2, sb2))), WithCrc(sb2))
    requires Recovers(dec3(Sf3Input(Sf3Symbols(sf3, sb3))), WithCrc(sb3)) && Recovers(dec3(Sf3Input(Sf3Symbols(sf3, sb4))), WithCrc(sb4))
    ensures var frame := PackBits(FrameBits(sf2, sf3, toi, sb2, sb3, sb4));
      && |frame| == 750
      && var r := DecodeSpec(dec2, dec3, toi, BitsOf(frame, 6000), buf2, buf3, buf4);
        && r.Decoded? && r.code == 0 && r.status.sb2Ok && r.status.sb3Ok && r.status.sb4Ok
        && r.sb2 == sb2 && r.sb3 == sb3 && r.sb4 == sb4
  {
    hide Sf2Symbols, Sf3Symbols, Sf1, SyncBits, Interleave, Deinterleave, PackBits, BitsOf, FrameBits, Sf2Input, Sf3Input, Accepts, WithCrc;
    UnpackInvertsPack(FrameBits(sf2, sf3, toi, sb2, sb3, sb4));
    BlocksRecovered(sf2, sf3, toi, sb2, sb3, sb4);
    RecoveredIsAccepted(dec2(Sf2Input(Sf2Symbols(sf2, sb2))), sb2);
    RecoveredIsAccepted(dec3(Sf3Input(Sf3Symbols(sf3, sb3))), sb3);
    RecoveredIsAccepted(dec3(Sf3Input(Sf3Symbols(sf3, sb4))), sb4);
  }

  lemma {:induction false} RecoveredIsAccepted(d: Decoding, data: Bits)
    requires Recovers(d, WithCrc(data))
    ensures |d.bits| >= |data| + 24 && BlockOk(d, |data|) && d.bits[..|data|] == data
  {
    hide CrcBits;
    var block := WithCrc(data);
    assert block[|block| - 24..] == CrcBits(data) && block[..|data|] == data;
    assert d.bits[..|data|] == d.bits[..|data| + 24][..|data|];
  }

  /** A frame decoded for another interval is refused. */
  lemma {:induction false} WrongIntervalRefused(sf2: Code, sf3: Code, dec2: Decoder, dec3: Decoder, toi: nat, other: nat, sb2: Bits, sb3: Bits, sb4: Bits,
      buf2: Bits, buf3: Bits, buf4: Bits)
    requires Codes(sf2, sf3) && DecoderWidth(dec2, 1200) && DecoderWidth(dec3, 870) && |sb2| == 1176 && |sb3| == |sb4| == 846
    requires toi < 100 && other < 100 && toi != other
    ensures DecodeSpec(dec2, dec3, other, FrameBits(sf2, sf3, toi, sb2, sb3, sb4), buf2, buf3, buf4) == Sf1Mismatch
  {
    hide Sf2Symbols, Sf3Symbols, Sf1, SyncBits, Interleave, Deinterleave, FrameBits;
    BlocksRecovered(sf2, sf3, toi, sb2, sb3, sb4);
    if Sf1(toi) == Sf1(other) {
      Sf1Injective(toi, other);
    }
  }

  /** A decoder that ends up within a burst of 24 bits of the sent block, but not on it, is caught. */
  lemma {:induction false} MisdecodeCaught(d: Decoding, data: Bits, at: nat)
    requires |d.bits| >= |data| + 24 && at <= |data| && d.bits[..|data| + 24] != WithCrc(data)
    requires forall i :: 0 <= i < |data| + 24 && !(at <= i < at + 24) ==> d.bits[i] == WithCrc(data)[i]
    ensures !BlockOk(d, |data|)
  {
    hide CrcBits;
    var sent, got := WithCrc(data), d.bits[..|data| + 24];
    assert sent[|sent| - 24..] == CrcBits(data) && sent[..|data|] == data;
    BurstRejected(sent, got, at);
  }

  /** d is not the sent block of the data, but differs from it only within 24 consecutive bits. */
  ghost predicate NearMiss(d: Decoding, data: Bits, at: nat) {
    && |d.bits| >= |data| + 24 && at <= |data| && d.bits[..|data| + 24] != WithCrc(data)
    && forall i :: 0 <= i < |data| + 24 && !(at <= i < at + 24) ==> d.bits[i] == WithCrc(data)[i]
  }

  lemma {:induction false} NearMissAnswer(d: Decoding, data: Bits, at: nat, ok: bool, corrections: int, out: Bits, buf: Bits)
    requires NearMiss(d, data, at) && BlockAnswer(d, |data|, ok, corrections, out, buf)
    ensures !ok && out == buf
  {
    hide CrcBits, WithCrc;
    OkIsAnswer(d, |data|, buf);
    MisdecodeCaught(d, data, at);
  }

  /** A near miss in one block alone: decoding returns code 1 with that block's flag down and its buffer untouched, and the
      other two blocks are answered from their own decoders. */
  lemma {:induction false} NearMissInOneBlock(dec2: Decoder, dec3: Decoder, frame: Bits, r: DecodeResult, sb2: Bits, sb3: Bits, sb4: Bits, data: Bits, at: nat)
    requires |frame| == 6000 && BlockAnswers(dec2, dec3, frame, r, sb2, sb3, sb4)
    ensures var block := Deinterleave(frame[120..]);
      && (|data| == 1176 && NearMiss(dec2(Sf2Input(block[..2400])), data, at) ==> r.code == 1 && !r.status.sb2Ok && r.sb2 == sb2)
      && (|data| == 846 && NearMiss(dec3(Sf3Input(block[2400..4140])), data, at) ==> r.code == 1 && !r.status.sb3Ok && r.sb3 == sb3)
      && (|data| == 846 && NearMiss(dec3(Sf3Input(block[4140..])), data, at) ==> r.code == 1 && !r.status.sb4Ok && r.sb4 == sb4)
  {
    hide Deinterleave, Sf2Input, Sf3Input, NearMiss, BlockAnswer;
    var block := Deinterleave(frame[120..]);
    var d2, d3, d4 := dec2(Sf2Input(block[..2400])), dec3(Sf3Input(block[2400..4140])), dec3(Sf3Input(block[4140..]));
    if |data| == 1176 && NearMiss(d2, data, at) {
      NearMissAnswer(d2, data, at, r.status.sb2Ok, r.status.sb2Corrections, r.sb2, sb2);
    }
    if |data| == 846 && NearMiss(d3, data, at) {
      NearMissAnswer(d3, data, at, r.status.sb3Ok, r.status.sb3Corrections, r.sb3, sb3);
    }
    if |data| == 846 && NearMiss(d4, data, at) {
      NearMissAnswer(d4, data, at, r.status.sb4Ok, r.status.sb4Corrections, r.sb4, sb4);
    }
  }

  /** The encoded symbols of a block are the transmitted places of the codeword of its data and checksum. */
  lemma {:induction false} SymbolsAreEncodings(sf2: Code, sf3: Code, sb2: Bits, sb3: Bits)
    requires Codes(sf2, sf3) && |sb2| == 1176 && |sb3| == 846
    ensures IsSf2Encoding(sf2, WithCrc(sb2), Sf2Symbols(sf2, sb2)) && IsSf3Encoding(sf3, WithCrc(sb3), Sf3Symbols(sf3, sb3))
  {
    hide Full, WithCrc;
    FullIsWord2(sf2, WithCrc(sb2));
    FullIsWord3(sf3, WithCrc(sb3));
  }

  /** Symbol 120 + 60 i + j of a frame is place 98 j + i of the three coded blocks one behind the other; the first 120 are
      the pattern and subframe 1. */
  lemma {:induction false} FrameSymbolAt(sf2: Code, sf3: Code, toi: nat, sb2: Bits, sb3: Bits, sb4: Bits, i: nat, j: nat)
    requires Codes(sf2, sf3) && |sb2| == 1176 && |sb3| == |sb4| == 846 && i < 98 && j < 60
    ensures var frame, p := FrameBits(sf2, sf3, toi, sb2, sb3, sb4), 98 * j + i;
      && frame[..68] == SyncBits() && frame[68..120] == Sf1(toi)
      && frame[120 + 60 * i + j] ==
        if p < 2400 then Sf2Symbols(sf2, sb2)[p] else if p < 4140 then Sf3Symbols(sf3, sb3)[p - 2400] else Sf3Symbols(sf3, sb4)[p - 4140]
  {
    hide Sf2Symbols, Sf3Symbols, Sf1, SyncBits, Interleave, Deinterleave;
    InterleaveAt(Coded(sf2, sf3, sb2, sb3, sb4), i, j);
  }

  // ----- subframe 1 -----

  /** Bit i + 8 is the sum of the bits i to i + 4 and i + 7, the taps 0x9F. */
  predicate TapsHold(s: Bits, i: nat)
    requires i + 8 < |s|
  {
    s[i + 8] == (s[i] != (s[i + 1] != (s[i + 2] != (s[i + 3] != (s[i + 4] != s[i + 7])))))
  }

  lemma {:induction false} TapsShift(b: bool, s: Bits, i: nat)
    requires i + 8 < |s|
    ensures TapsHold([b] + s, i + 1) <==> TapsHold(s, i)
  {
  }

  /** The output of the register obeys the recurrence of its taps. */
  lemma {:induction false} LfsrRecurrence(n: nat, r: Bits, i: nat)
    requires |r| == 8 && i + 8 < n
    ensures TapsHold(Lfsr(n, r), i)
    decreases i
  {
    if i == 0 {
      FirstRecurrence(n, r);
    } else {
      hide TapsHold, LfsrStep;
      LfsrRecurrence(n - 1, LfsrStep(r), i - 1);
      TapsShift(r[0], Lfsr(n - 1, LfsrStep(r)), i - 1);
    }
  }

  lemma {:induction false} FirstRecurrence(n: nat, r: Bits)
    requires |r| == 8 && 8 < n
    ensures TapsHold(Lfsr(n, r), 0)
  {
    LfsrPrefix(8, n, r);
    LfsrPrefix(8, n - 1, LfsrStep(r));
    var s, t := Lfsr(n, r), Lfsr(n - 1, LfsrStep(r));
    assert s == [r[0]] + t;
    assert forall k :: 0 <= k < 8 ==> s[k] == s[..8][k] == r[k];
    assert t[7] == t[..8][7] == LfsrStep(r)[7];
  }

  /** Subframe 1: a zero, the interval in eight bits, and 43 bits that each follow from eight before them. */
  lemma {:induction false} Sf1Recurrence(toi: nat)
    ensures !Sf1(toi)[0] && Sf1(toi)[1..9] == ValueBits(toi, 8)
    ensures forall i :: 1 <= i && i + 8 < 52 ==> TapsHold(Sf1(toi), i)
  {
    hide Lfsr, LfsrStep, ValueBits, TapsHold;
    Sf1Data(toi);
    forall i | 1 <= i && i + 8 < 52
      ensures TapsHold(Sf1(toi), i)
    {
      LfsrRecurrence(51, ValueBits(toi, 8), i - 1);
      TapsShift(false, Lfsr(51, ValueBits(toi, 8)), i - 1);
    }
  }
}
