/** CRC-24Q: the table-driven loop of rtklib, the right-aligned packing that append_CRC24 feeds it,
    and what a check against it can detect. */
module Crc24q {
  import opened BitStrings
  import opened PolynomialCode
  import opened BitPacking

  /** The generator 0x1864CFB without its leading one. */
  const GENERATOR: Bits := BitsOf([0x86, 0x4C, 0xFB], 24)

  // ----- registers as bit strings -----

  /** s lists the low 24 bits of x, most significant first. */
  predicate Holds(x: bv32, s: Bits) {
    && |s| == 24
    && s[0] == (x & 0x800000 != 0) && s[1] == (x & 0x400000 != 0) && s[2] == (x & 0x200000 != 0)
    && s[3] == (x & 0x100000 != 0) && s[4] == (x & 0x080000 != 0) && s[5] == (x & 0x040000 != 0)
    && s[6] == (x & 0x020000 != 0) && s[7] == (x & 0x010000 != 0) && s[8] == (x & 0x008000 != 0)
    && s[9] == (x & 0x004000 != 0) && s[10] == (x & 0x002000 != 0) && s[11] == (x & 0x001000 != 0)
    && s[12] == (x & 0x000800 != 0) && s[13] == (x & 0x000400 != 0) && s[14] == (x & 0x000200 != 0)
    && s[15] == (x & 0x000100 != 0) && s[16] == (x & 0x000080 != 0) && s[17] == (x & 0x000040 != 0)
    && s[18] == (x & 0x000020 != 0) && s[19] == (x & 0x000010 != 0) && s[20] == (x & 0x000008 != 0)
    && s[21] == (x & 0x000004 != 0) && s[22] == (x & 0x000002 != 0) && s[23] == (x & 0x000001 != 0)
  }

  lemma {:induction false} XorWordBits(x: bv32, y: bv32)
    ensures ((x ^ y) & 0x800000 != 0) == ((x & 0x800000 != 0) != (y & 0x800000 != 0))
    ensures ((x ^ y) & 0x400000 != 0) == ((x & 0x400000 != 0) != (y & 0x400000 != 0))
    ensures ((x ^ y) & 0x200000 != 0) == ((x & 0x200000 != 0) != (y & 0x200000 != 0))
    ensures ((x ^ y) & 0x100000 != 0) == ((x & 0x100000 != 0) != (y & 0x100000 != 0))
    ensures ((x ^ y) & 0x080000 != 0) == ((x & 0x080000 != 0) != (y & 0x080000 != 0))
    ensures ((x ^ y) & 0x040000 != 0) == ((x & 0x040000 != 0) != (y & 0x040000 != 0))
    ensures ((x ^ y) & 0x020000 != 0) == ((x & 0x020000 != 0) != (y & 0x020000 != 0))
    ensures ((x ^ y) & 0x010000 != 0) == ((x & 0x010000 != 0) != (y & 0x010000 != 0))
    ensures ((x ^ y) & 0x008000 != 0) == ((x & 0x008000 != 0) != (y & 0x008000 != 0))
    ensures ((x ^ y) & 0x004000 != 0) == ((x & 0x004000 != 0) != (y & 0x004000 != 0))
    ensures ((x ^ y) & 0x002000 != 0) == ((x & 0x002000 != 0) != (y & 0x002000 != 0))
    ensures ((x ^ y) & 0x001000 != 0) == ((x & 0x001000 != 0) != (y & 0x001000 != 0))
    ensures ((x ^ y) & 0x000800 != 0) == ((x & 0x000800 != 0) != (y & 0x000800 != 0))
    ensures ((x ^ y) & 0x000400 != 0) == ((x & 0x000400 != 0) != (y & 0x000400 != 0))
    ensures ((x ^ y) & 0x000200 != 0) == ((x & 0x000200 != 0) != (y & 0x000200 != 0))
    ensures ((x ^ y) & 0x000100 != 0) == ((x & 0x000100 != 0) != (y & 0x000100 != 0))
    ensures ((x ^ y) & 0x000080 != 0) == ((x & 0x000080 != 0) != (y & 0x000080 != 0))
    ensures ((x ^ y) & 0x000040 != 0) == ((x & 0x000040 != 0) != (y & 0x000040 != 0))
    ensures ((x ^ y) & 0x000020 != 0) == ((x & 0x000020 != 0) != (y & 0x000020 != 0))
    ensures ((x ^ y) & 0x000010 != 0) == ((x & 0x000010 != 0) != (y & 0x000010 != 0))
    ensures ((x ^ y) & 0x000008 != 0) == ((x & 0x000008 != 0) != (y & 0x000008 != 0))
    ensures ((x ^ y) & 0x000004 != 0) == ((x & 0x000004 != 0) != (y & 0x000004 != 0))
    ensures ((x ^ y) & 0x000002 != 0) == ((x & 0x000002 != 0) != (y & 0x000002 != 0))
    ensures ((x ^ y) & 0x000001 != 0) == ((x & 0x000001 != 0) != (y & 0x000001 != 0))
  {
  }

  lemma {:induction false} ShiftWordBits(c: bv32)
    ensures ((c << 1) & 0xFFFFFF) & 0x000001 == 0
    ensures (((c << 1) & 0xFFFFFF) & 0x800000 != 0) == (c & 0x400000 != 0)
    ensures (((c << 1) & 0xFFFFFF) & 0x400000 != 0) == (c & 0x200000 != 0)
    ensures (((c << 1) & 0xFFFFFF) & 0x200000 != 0) == (c & 0x100000 != 0)
    ensures (((c << 1) & 0xFFFFFF) & 0x100000 != 0) == (c & 0x080000 != 0)
    ensures (((c << 1) & 0xFFFFFF) & 0x080000 != 0) == (c & 0x040000 != 0)
    ensures (((c << 1) & 0xFFFFFF) & 0x040000 != 0) == (c & 0x020000 != 0)
    ensures (((c << 1) & 0xFFFFFF) & 0x020000 != 0) == (c & 0x010000 != 0)
    ensures (((c << 1) & 0xFFFFFF) & 0x010000 != 0) == (c & 0x008000 != 0)
    ensures (((c << 1) & 0xFFFFFF) & 0x008000 != 0) == (c & 0x004000 != 0)
    ensures (((c << 1) & 0xFFFFFF) & 0x004000 != 0) == (c & 0x002000 != 0)
    ensures (((c << 1) & 0xFFFFFF) & 0x002000 != 0) == (c & 0x001000 != 0)
    ensures (((c << 1) & 0xFFFFFF) & 0x001000 != 0) == (c & 0x000800 != 0)
    ensures (((c << 1) & 0xFFFFFF) & 0x000800 != 0) == (c & 0x000400 != 0)
    ensures (((c << 1) & 0xFFFFFF) & 0x000400 != 0) == (c & 0x000200 != 0)
    ensures (((c << 1) & 0xFFFFFF) & 0x000200 != 0) == (c & 0x000100 != 0)
    ensures (((c << 1) & 0xFFFFFF) & 0x000100 != 0) == (c & 0x000080 != 0)
    ensures (((c << 1) & 0xFFFFFF) & 0x000080 != 0) == (c & 0x000040 != 0)
    ensures (((c << 1) & 0xFFFFFF) & 0x000040 != 0) == (c & 0x000020 != 0)
    ensures (((c << 1) & 0xFFFFFF) & 0x000020 != 0) == (c & 0x000010 != 0)
    ensures (((c << 1) & 0xFFFFFF) & 0x000010 != 0) == (c & 0x000008 != 0)
    ensures (((c << 1) & 0xFFFFFF) & 0x000008 != 0) == (c & 0x000004 != 0)
    ensures (((c << 1) & 0xFFFFFF) & 0x000004 != 0) == (c & 0x000002 != 0)
    ensures (((c << 1) & 0xFFFFFF) & 0x000002 != 0) == (c & 0x000001 != 0)
  {
  }

  lemma {:induction false} HoldsXor(x: bv32, y: bv32, s: Bits, t: Bits)
    requires Holds(x, s) && Holds(y, t)
    ensures Holds(x ^ y, Xor(s, t))
  {
    hide Xor;
    XorIndex(s, t);
    XorWordBits(x, y);
  }

  lemma {:induction false} HoldsShift(c: bv32, s: Bits)
    requires Holds(c, s)
    ensures Holds((c << 1) & 0xFFFFFF, s[1..] + [false])
  {
    ShiftWordBits(c);
  }

  lemma {:induction false} HoldsUnique(x: bv32, s: Bits, t: Bits)
    requires Holds(x, s) && Holds(x, t)
    ensures s == t
  {
    forall i | 0 <= i < 24
      ensures s[i] == t[i]
    {
      if i == 0 {} else if i == 1 {} else if i == 2 {} else if i == 3 {} else if i == 4 {} else if i == 5 {} else if i == 6 {} else if i == 7 {} else if i == 8 {} else if i == 9 {} else if i == 10 {} else if i == 11 {} else if i == 12 {} else if i == 13 {} else if i == 14 {} else if i == 15 {} else if i == 16 {} else if i == 17 {} else if i == 18 {} else if i == 19 {} else if i == 20 {} else if i == 21 {} else if i == 22 {} else {}
    }
  }

  // ----- the table -----

  /** One zero bit clocked through the register. */
  function StepZero(c: bv32): bv32 {
    if c & 0x800000 != 0 then ((c << 1) & 0xFFFFFF) ^ 0x864CFB else (c << 1) & 0xFFFFFF
  }

  function EightZeros(c: bv32): bv32 {
    StepZero(StepZero(StepZero(StepZero(StepZero(StepZero(StepZero(StepZero(c))))))))
  }

  function Table00(i: byte): bv32 {
    match i
    case 0x00 => 0x000000 case 0x01 => 0x864CFB case 0x02 => 0x8AD50D case 0x03 => 0x0C99F6
    case 0x04 => 0x93E6E1 case 0x05 => 0x15AA1A case 0x06 => 0x1933EC case 0x07 => 0x9F7F17
    case 0x08 => 0xA18139 case 0x09 => 0x27CDC2 case 0x0A => 0x2B5434 case 0x0B => 0xAD18CF
    case 0x0C => 0x3267D8 case 0x0D => 0xB42B23 case 0x0E => 0xB8B2D5 case 0x0F => 0x3EFE2E
    case 0x10 => 0xC54E89 case 0x11 => 0x430272 case 0x12 => 0x4F9B84 case 0x13 => 0xC9D77F
    case 0x14 => 0x56A868 case 0x15 => 0xD0E493 case 0x16 => 0xDC7D65 case 0x17 => 0x5A319E
    case 0x18 => 0x64CFB0 case 0x19 => 0xE2834B case 0x1A => 0xEE1ABD case 0x1B => 0x685646
    case 0x1C => 0xF72951 case 0x1D => 0x7165AA case 0x1E => 0x7DFC5C case _ => 0xFBB0A7
  }

  function Table20(i: byte): bv32 {
    match i
    case 0x20 => 0x0CD1E9 case 0x21 => 0x8A9D12 case 0x22 => 0x8604E4 case 0x23 => 0x00481F
    case 0x24 => 0x9F3708 case 0x25 => 0x197BF3 case 0x26 => 0x15E205 case 0x27 => 0x93AEFE
    case 0x28 => 0xAD50D0 case 0x29 => 0x2B1C2B case 0x2A => 0x2785DD case 0x2B => 0xA1C926
    case 0x2C => 0x3EB631 case 0x2D => 0xB8FACA case 0x2E => 0xB4633C case 0x2F => 0x322FC7
    case 0x30 => 0xC99F60 case 0x31 => 0x4FD39B case 0x32 => 0x434A6D case 0x33 => 0xC50696
    case 0x34 => 0x5A7981 case 0x35 => 0xDC357A case 0x36 => 0xD0AC8C case 0x37 => 0x56E077
    case 0x38 => 0x681E59 case 0x39 => 0xEE52A2 case 0x3A => 0xE2CB54 case 0x3B => 0x6487AF
    case 0x3C => 0xFBF8B8 case 0x3D => 0x7DB443 case 0x3E => 0x712DB5 case _ => 0xF7614E
  }

  function Table40(i: byte): bv32 {
    match i
    case 0x40 => 0x19A3D2 case 0x41 => 0x9FEF29 case 0x42 => 0x9376DF case 0x43 => 0x153A24
    case 0x44 => 0x8A4533 case 0x45 => 0x0C09C8 case 0x46 => 0x00903E case 0x47 => 0x86DCC5
    case 0x48 => 0xB822EB case 0x49 => 0x3E6E10 case 0x4A => 0x32F7E6 case 0x4B => 0xB4BB1D
    case 0x4C => 0x2BC40A case 0x4D => 0xAD88F1 case 0x4E => 0xA11107 case 0x4F => 0x275DFC
    case 0x50 => 0xDCED5B case 0x51 => 0x5AA1A0 case 0x52 => 0x563856 case 0x53 => 0xD074AD
    case 0x54 => 0x4F0BBA case 0x55 => 0xC94741 case 0x56 => 0xC5DEB7 case 0x57 => 0x43924C
    case 0x58 => 0x7D6C62 case 0x59 => 0xFB2099 case 0x5A => 0xF7B96F case 0x5B => 0x71F594
    case 0x5C => 0xEE8A83 case 0x5D => 0x68C678 case 0x5E => 0x645F8E case _ => 0xE21375
  }

  function Table60(i: byte): bv32 {
    match i
    case 0x60 => 0x15723B case 0x61 => 0x933EC0 case 0x62 => 0x9FA736 case 0x63 => 0x19EBCD
    case 0x64 => 0x8694DA case 0x65 => 0x00D821 case 0x66 => 0x0C41D7 case 0x67 => 0x8A0D2C
    case 0x68 => 0xB4F302 case 0x69 => 0x32BFF9 case 0x6A => 0x3E260F case 0x6B => 0xB86AF4
    case 0x6C => 0x2715E3 case 0x6D => 0xA15918 case 0x6E => 0xADC0EE case 0x6F => 0x2B8C15
    case 0x70 => 0xD03CB2 case 0x71 => 0x567049 case 0x72 => 0x5AE9BF case 0x73 => 0xDCA544
    case 0x74 => 0x43DA53 case 0x75 => 0xC596A8 case 0x76 => 0xC90F5E case 0x77 => 0x4F43A5
    case 0x78 => 0x71BD8B case 0x79 => 0xF7F170 case 0x7A => 0xFB6886 case 0x7B => 0x7D247D
    case 0x7C => 0xE25B6A case 0x7D => 0x641791 case 0x7E => 0x688E67 case _ => 0xEEC29C
  }

  function Table80(i: byte): bv32 {
    match i
    case 0x80 => 0x3347A4 case 0x81 => 0xB50B5F case 0x82 => 0xB992A9 case 0x83 => 0x3FDE52
    case 0x84 => 0xA0A145 case 0x85 => 0x26EDBE case 0x86 => 0x2A7448 case 0x87 => 0xAC38B3
    case 0x88 => 0x92C69D case 0x89 => 0x148A66 case 0x8A => 0x181390 case 0x8B => 0x9E5F6B
    case 0x8C => 0x01207C case 0x8D => 0x876C87 case 0x8E => 0x8BF571 case 0x8F => 0x0DB98A
    case 0x90 => 0xF6092D case 0x91 => 0x7045D6 case 0x92 => 0x7CDC20 case 0x93 => 0xFA90DB
    case 0x94 => 0x65EFCC case 0x95 => 0xE3A337 case 0x96 => 0xEF3AC1 case 0x97 => 0x69763A
    case 0x98 => 0x578814 case 0x99 => 0xD1C4EF case 0x9A => 0xDD5D19 case 0x9B => 0x5B11E2
    case 0x9C => 0xC46EF5 case 0x9D => 0x42220E case 0x9E => 0x4EBBF8 case _ => 0xC8F703
  }

  function TableA0(i: byte): bv32 {
    match i
    case 0xA0 => 0x3F964D case 0xA1 => 0xB9DAB6 case 0xA2 => 0xB54340 case 0xA3 => 0x330FBB
    case 0xA4 => 0xAC70AC case 0xA5 => 0x2A3C57 case 0xA6 => 0x26A5A1 case 0xA7 => 0xA0E95A
    case 0xA8 => 0x9E1774 case 0xA9 => 0x185B8F case 0xAA => 0x14C279 case 0xAB => 0x928E82
    case 0xAC => 0x0DF195 case 0xAD => 0x8BBD6E case 0xAE => 0x872498 case 0xAF => 0x016863
    case 0xB0 => 0xFAD8C4 case 0xB1 => 0x7C943F case 0xB2 => 0x700DC9 case 0xB3 => 0xF64132
    case 0xB4 => 0x693E25 case 0xB5 => 0xEF72DE case 0xB6 => 0xE3EB28 case 0xB7 => 0x65A7D3
    case 0xB8 => 0x5B59FD case 0xB9 => 0xDD1506 case 0xBA => 0xD18CF0 case 0xBB => 0x57C00B
    case 0xBC => 0xC8BF1C case 0xBD => 0x4EF3E7 case 0xBE => 0x426A11 case _ => 0xC426EA
  }

  function TableC0(i: byte): bv32 {
    match i
    case 0xC0 => 0x2AE476 case 0xC1 => 0xACA88D case 0xC2 => 0xA0317B case 0xC3 => 0x267D80
    case 0xC4 => 0xB90297 case 0xC5 => 0x3F4E6C case 0xC6 => 0x33D79A case 0xC7 => 0xB59B61
    case 0xC8 => 0x8B654F case 0xC9 => 0x0D29B4 case 0xCA => 0x01B042 case 0xCB => 0x87FCB9
    case 0xCC => 0x1883AE case 0xCD => 0x9ECF55 case 0xCE => 0x9256A3 case 0xCF => 0x141A58
    case 0xD0 => 0xEFAAFF case 0xD1 => 0x69E604 case 0xD2 => 0x657FF2 case 0xD3 => 0xE33309
    case 0xD4 => 0x7C4C1E case 0xD5 => 0xFA00E5 case 0xD6 => 0xF69913 case 0xD7 => 0x70D5E8
    case 0xD8 => 0x4E2BC6 case 0xD9 => 0xC8673D case 0xDA => 0xC4FECB case 0xDB => 0x42B230
    case 0xDC => 0xDDCD27 case 0xDD => 0x5B81DC case 0xDE => 0x57182A case _ => 0xD154D1
  }

  function TableE0(i: byte): bv32 {
    match i
    case 0xE0 => 0x26359F case 0xE1 => 0xA07964 case 0xE2 => 0xACE092 case 0xE3 => 0x2AAC69
    case 0xE4 => 0xB5D37E case 0xE5 => 0x339F85 case 0xE6 => 0x3F0673 case 0xE7 => 0xB94A88
    case 0xE8 => 0x87B4A6 case 0xE9 => 0x01F85D case 0xEA => 0x0D61AB case 0xEB => 0x8B2D50
    case 0xEC => 0x145247 case 0xED => 0x921EBC case 0xEE => 0x9E874A case 0xEF => 0x18CBB1
    case 0xF0 => 0xE37B16 case 0xF1 => 0x6537ED case 0xF2 => 0x69AE1B case 0xF3 => 0xEFE2E0
    case 0xF4 => 0x709DF7 case 0xF5 => 0xF6D10C case 0xF6 => 0xFA48FA case 0xF7 => 0x7C0401
    case 0xF8 => 0x42FA2F case 0xF9 => 0xC4B6D4 case 0xFA => 0xC82F22 case 0xFB => 0x4E63D9
    case 0xFC => 0xD11CCE case 0xFD => 0x575035 case 0xFE => 0x5BC9C3 case _ => 0xDD8538
  }

  /** tbl_CRC24Q, entry i. */
  function Table(i: byte): bv32 {
    if i < 0x20 then Table00(i) else
    if i < 0x40 then Table20(i) else
    if i < 0x60 then Table40(i) else
    if i < 0x80 then Table60(i) else
    if i < 0xA0 then Table80(i) else
    if i < 0xC0 then TableA0(i) else
    if i < 0xE0 then TableC0(i) else
    TableE0(i)
  }

  lemma {:induction false} TableRow00(i: byte)
    requires i < 0x20
    ensures Table00(i) == EightZeros((i as bv32) << 16)
  {
  }

  lemma {:induction false} TableRow20(i: byte)
    requires 0x20 <= i && i < 0x40
    ensures Table20(i) == EightZeros((i as bv32) << 16)
  {
  }

  lemma {:induction false} TableRow40(i: byte)
    requires 0x40 <= i && i < 0x60
    ensures Table40(i) == EightZeros((i as bv32) << 16)
  {
  }

  lemma {:induction false} TableRow60(i: byte)
    requires 0x60 <= i && i < 0x80
    ensures Table60(i) == EightZeros((i as bv32) << 16)
  {
  }

  lemma {:induction false} TableRow80(i: byte)
    requires 0x80 <= i && i < 0xA0
    ensures Table80(i) == EightZeros((i as bv32) << 16)
  {
  }

  lemma {:induction false} TableRowA0(i: byte)
    requires 0xA0 <= i && i < 0xC0
    ensures TableA0(i) == EightZeros((i as bv32) << 16)
  {
  }

  lemma {:induction false} TableRowC0(i: byte)
    requires 0xC0 <= i && i < 0xE0
    ensures TableC0(i) == EightZeros((i as bv32) << 16)
  {
  }

  lemma {:induction false} TableRowE0(i: byte)
    requires 0xE0 <= i
    ensures TableE0(i) == EightZeros((i as bv32) << 16)
  {
  }

  /** Every literal of the table is what eight register steps make of its index. */
  lemma {:induction false} TableEntry(i: byte)
    ensures Table(i) == EightZeros((i as bv32) << 16)
  {
    hide EightZeros, Table00, Table20, Table40, Table60, Table80, TableA0, TableC0, TableE0;
    if i < 0x20 { TableRow00(i); }
    else if i < 0x40 { TableRow20(i); }
    else if i < 0x60 { TableRow40(i); }
    else if i < 0x80 { TableRow60(i); }
    else if i < 0xA0 { TableRow80(i); }
    else if i < 0xC0 { TableRowA0(i); }
    else if i < 0xE0 { TableRowC0(i); }
    else { TableRowE0(i); }
  }

  // ----- one byte through the table is eight bits through the register -----

  function ByteStep(crc: bv32, b: byte): bv32 {
    ((crc << 8) & 0xFFFFFF) ^ Table((((crc >> 16) & 0xFF) as byte) ^ b)
  }

  function ByteBits(b: byte): (s: Bits)
    ensures |s| == 8 && forall j :: 0 <= j < 8 ==> s[j] == BitAt(b, j)
  {
    seq(8, j requires 0 <= j < 8 => BitAt(b, j))
  }

  lemma {:induction false} GeneratorWord()
    ensures |GENERATOR| == 24 && Holds(0x864CFB, GENERATOR)
  {
  }

  lemma {:induction false} HoldsStep(c: bv32, s: Bits)
    requires Holds(c, s)
    ensures Holds(StepZero(c), Clock(GENERATOR, s, false))
  {
    GeneratorWord();
    StepCases(c, s, (c << 1) & 0xFFFFFF);
  }

  lemma {:induction false} StepCases(c: bv32, s: Bits, shifted: bv32)
    requires Holds(c, s) && shifted == (c << 1) & 0xFFFFFF
    ensures Holds(if s[0] then shifted ^ 0x864CFB else shifted, Clock(GENERATOR, s, false))
  {
    HoldsShift(c, s);
    GeneratorWord();
    hide Xor, Holds;
    if s[0] {
      HoldsXor(shifted, 0x864CFB, s[1..] + [false], GENERATOR);
    } else {
      XorZero(s[1..] + [false]);
    }
  }

  function Steps(c: bv32, k: nat): bv32
    decreases k
  {
    if k == 0 then c else StepZero(Steps(c, k - 1))
  }

  lemma {:induction false} StepsEight(c: bv32)
    ensures Steps(c, 8) == EightZeros(c)
  {
    hide StepZero;
  }

  lemma {:induction false} HoldsSteps(c: bv32, s: Bits, k: nat)
    requires Holds(c, s)
    ensures |s| == |GENERATOR| == 24 && Holds(Steps(c, k), Feed(GENERATOR, s, Zeros(k)))
    decreases k
  {
    assert |s| == 24;
    GeneratorWord();
    hide Holds, Clock, StepZero, GENERATOR;
    if k > 0 {
      HoldsSteps(c, s, k - 1);
      HoldsStep(Steps(c, k - 1), Feed(GENERATOR, s, Zeros(k - 1)));
      ZerosSucc(k - 1);
    }
  }

  lemma {:induction false} IndexWordBits(c: bv32, b: byte)
    ensures (((((((c >> 16) & 0xFF) as byte) ^ b) as bv32) << 16) & 0x800000 != 0) == ((c & 0x800000 != 0) != (b & 0x80 != 0))
    ensures (((((((c >> 16) & 0xFF) as byte) ^ b) as bv32) << 16) & 0x400000 != 0) == ((c & 0x400000 != 0) != (b & 0x40 != 0))
    ensures (((((((c >> 16) & 0xFF) as byte) ^ b) as bv32) << 16) & 0x200000 != 0) == ((c & 0x200000 != 0) != (b & 0x20 != 0))
    ensures (((((((c >> 16) & 0xFF) as byte) ^ b) as bv32) << 16) & 0x100000 != 0) == ((c & 0x100000 != 0) != (b & 0x10 != 0))
    ensures (((((((c >> 16) & 0xFF) as byte) ^ b) as bv32) << 16) & 0x080000 != 0) == ((c & 0x080000 != 0) != (b & 0x08 != 0))
    ensures (((((((c >> 16) & 0xFF) as byte) ^ b) as bv32) << 16) & 0x040000 != 0) == ((c & 0x040000 != 0) != (b & 0x04 != 0))
    ensures (((((((c >> 16) & 0xFF) as byte) ^ b) as bv32) << 16) & 0x020000 != 0) == ((c & 0x020000 != 0) != (b & 0x02 != 0))
    ensures (((((((c >> 16) & 0xFF) as byte) ^ b) as bv32) << 16) & 0x010000 != 0) == ((c & 0x010000 != 0) != (b & 0x01 != 0))
    ensures ((((((c >> 16) & 0xFF) as byte) ^ b) as bv32) << 16) & 0x00FFFF == 0
  {
  }

  lemma {:induction false} LowHalfClear(x: bv32)
    requires x & 0x00FFFF == 0
    ensures x & 0x008000 == 0 && x & 0x004000 == 0
    ensures x & 0x002000 == 0 && x & 0x001000 == 0
    ensures x & 0x000800 == 0 && x & 0x000400 == 0
    ensures x & 0x000200 == 0 && x & 0x000100 == 0
    ensures x & 0x000080 == 0 && x & 0x000040 == 0
    ensures x & 0x000020 == 0 && x & 0x000010 == 0
    ensures x & 0x000008 == 0 && x & 0x000004 == 0
    ensures x & 0x000002 == 0 && x & 0x000001 == 0
  {
  }

  lemma {:induction false} ShiftEightWordBits(c: bv32)
    ensures (((c << 8) & 0xFFFFFF) & 0x800000 != 0) == (c & 0x008000 != 0)
    ensures (((c << 8) & 0xFFFFFF) & 0x400000 != 0) == (c & 0x004000 != 0)
    ensures (((c << 8) & 0xFFFFFF) & 0x200000 != 0) == (c & 0x002000 != 0)
    ensures (((c << 8) & 0xFFFFFF) & 0x100000 != 0) == (c & 0x001000 != 0)
    ensures (((c << 8) & 0xFFFFFF) & 0x080000 != 0) == (c & 0x000800 != 0)
    ensures (((c << 8) & 0xFFFFFF) & 0x040000 != 0) == (c & 0x000400 != 0)
    ensures (((c << 8) & 0xFFFFFF) & 0x020000 != 0) == (c & 0x000200 != 0)
    ensures (((c << 8) & 0xFFFFFF) & 0x010000 != 0) == (c & 0x000100 != 0)
    ensures (((c << 8) & 0xFFFFFF) & 0x008000 != 0) == (c & 0x000080 != 0)
    ensures (((c << 8) & 0xFFFFFF) & 0x004000 != 0) == (c & 0x000040 != 0)
    ensures (((c << 8) & 0xFFFFFF) & 0x002000 != 0) == (c & 0x000020 != 0)
    ensures (((c << 8) & 0xFFFFFF) & 0x001000 != 0) == (c & 0x000010 != 0)
    ensures (((c << 8) & 0xFFFFFF) & 0x000800 != 0) == (c & 0x000008 != 0)
    ensures (((c << 8) & 0xFFFFFF) & 0x000400 != 0) == (c & 0x000004 != 0)
    ensures (((c << 8) & 0xFFFFFF) & 0x000200 != 0) == (c & 0x000002 != 0)
    ensures (((c << 8) & 0xFFFFFF) & 0x000100 != 0) == (c & 0x000001 != 0)
    ensures ((c << 8) & 0xFFFFFF) & 0x000080 == 0 && ((c << 8) & 0xFFFFFF) & 0x000040 == 0
    ensures ((c << 8) & 0xFFFFFF) & 0x000020 == 0 && ((c << 8) & 0xFFFFFF) & 0x000010 == 0
    ensures ((c << 8) & 0xFFFFFF) & 0x000008 == 0 && ((c << 8) & 0xFFFFFF) & 0x000004 == 0
    ensures ((c << 8) & 0xFFFFFF) & 0x000002 == 0 && ((c << 8) & 0xFFFFFF) & 0x000001 == 0
  {
  }

  /** The top byte of the register word x is `top`. */
  predicate TopHolds(x: bv32, top: Bits) {
    && |top| == 8
    && top[0] == (x & 0x800000 != 0) && top[1] == (x & 0x400000 != 0) && top[2] == (x & 0x200000 != 0) && top[3] == (x & 0x100000 != 0)
    && top[4] == (x & 0x080000 != 0) && top[5] == (x & 0x040000 != 0) && top[6] == (x & 0x020000 != 0) && top[7] == (x & 0x010000 != 0)
  }

  lemma {:induction false} TopAlone(x: bv32, top: Bits)
    requires TopHolds(x, top) && x & 0x00FFFF == 0
    ensures Holds(x, top + Zeros(16))
  {
    LowHalfClear(x);
  }

  lemma {:induction false} TopOf(c: bv32, s: Bits)
    requires Holds(c, s)
    ensures |s| == 24 && TopHolds(c, s[..8])
  {
  }

  lemma {:induction false} TopXor(c: bv32, x: bv32, b: byte, top: Bits)
    requires TopHolds(c, top)
    requires (x & 0x800000 != 0) == ((c & 0x800000 != 0) != (b & 0x80 != 0))
    requires (x & 0x400000 != 0) == ((c & 0x400000 != 0) != (b & 0x40 != 0))
    requires (x & 0x200000 != 0) == ((c & 0x200000 != 0) != (b & 0x20 != 0))
    requires (x & 0x100000 != 0) == ((c & 0x100000 != 0) != (b & 0x10 != 0))
    requires (x & 0x080000 != 0) == ((c & 0x080000 != 0) != (b & 0x08 != 0))
    requires (x & 0x040000 != 0) == ((c & 0x040000 != 0) != (b & 0x04 != 0))
    requires (x & 0x020000 != 0) == ((c & 0x020000 != 0) != (b & 0x02 != 0))
    requires (x & 0x010000 != 0) == ((c & 0x010000 != 0) != (b & 0x01 != 0))
    ensures TopHolds(x, Xor(top, ByteBits(b)))
  {
    hide Xor;
    XorIndex(top, ByteBits(b));
  }

  /** The table index is the top byte of the register plus the data byte. */
  lemma {:induction false} HoldsIndex(c: bv32, s: Bits, b: byte)
    requires Holds(c, s)
    ensures Holds(((((c >> 16) & 0xFF) as byte) ^ b) as bv32 << 16, Xor(s[..8], ByteBits(b)) + Zeros(16))
  {
    hide Holds, TopHolds, ByteBits, Xor, Zeros;
    TopOf(c, s);
    IndexWordBits(c, b);
    var x := ((((c >> 16) & 0xFF) as byte) ^ b) as bv32 << 16;
    TopXor(c, x, b, s[..8]);
    TopAlone(x, Xor(s[..8], ByteBits(b)));
  }

  lemma {:induction false} HoldsShiftEight(c: bv32, s: Bits)
    requires Holds(c, s)
    ensures Holds((c << 8) & 0xFFFFFF, s[8..] + Zeros(8))
  {
    ShiftEightWordBits(c);
  }

  lemma {:induction false} XorPadded(top: Bits, w: Bits, k: nat)
    requires |w| == |top|
    ensures Xor(top + Zeros(k), w + Zeros(k)) == Xor(top, w) + Zeros(k)
  {
  }

  lemma {:induction false} XorHalves(top: Bits, low: Bits)
    ensures Xor(top + Zeros(|low|), Zeros(|top|) + low) == top + low
  {
  }

  lemma {:induction false} FeedTop(g: Bits, top: Bits, k: nat, w: Bits)
    requires |top| + k == |g| && 0 < |w| == |top|
    ensures Feed(g, top + Zeros(k), w) == Feed(g, Xor(top, w) + Zeros(k), Zeros(|w|))
  {
    hide Feed, Zeros, Xor;
    InjectUpFront(g, top + Zeros(k), w);
    XorPadded(top, w, k);
  }

  lemma {:induction false} FeedLow(g: Bits, low: Bits, m: nat)
    requires |g| > 0 && |low| + m == |g|
    ensures Feed(g, Zeros(m) + low, Zeros(m)) == low + Zeros(m)
  {
    hide Feed, Zeros, Remainder;
    FeedZerosIsRemainder(g, Zeros(m) + low, m);
    NoFeedback(g, low, m);
  }

  /** Splitting the register: the places about to leave, and the rest that only moves up. */
  lemma {:induction false} FeedByteSplit(g: Bits, top: Bits, low: Bits, w: Bits)
    requires |top| + |low| == |g| && 0 < |w| == |top|
    ensures Feed(g, top + low, w)
         == Xor(Feed(g, Xor(top, w) + Zeros(|low|), Zeros(|w|)), low + Zeros(|w|))
  {
    hide Feed, Zeros, Xor, Remainder;
    FeedLinear(g, top + Zeros(|low|), Zeros(|w|) + low, w, Zeros(|w|));
    XorHalves(top, low);
    XorZero(w);
    FeedTop(g, top, |low|, w);
    FeedLow(g, low, |w|);
  }

  lemma {:induction false} HoldsTable(i: byte, top: Bits)
    requires Holds((i as bv32) << 16, top)
    ensures |top| == |GENERATOR| == 24 && Holds(Table(i), Feed(GENERATOR, top, Zeros(8)))
  {
    hide Holds, Table, EightZeros, Feed, Zeros;
    HoldsSteps((i as bv32) << 16, top, 8);
    StepsEight((i as bv32) << 16);
    TableEntry(i);
  }

  lemma {:induction false} CombineHalves(low: bv32, entry: bv32, s: Bits, w: Bits)
    requires |s| == |GENERATOR| == 24 && |w| == 8 && Holds(low, s[8..] + Zeros(8))
    requires Holds(entry, Feed(GENERATOR, Xor(s[..8], w) + Zeros(16), Zeros(8)))
    ensures Holds(entry ^ low, Feed(GENERATOR, s, w))
  {
    hide Holds, Feed, Zeros, Xor;
    assert s == s[..8] + s[8..];
    FeedByteSplit(GENERATOR, s[..8], s[8..], w);
    HoldsXor(entry, low, Feed(GENERATOR, Xor(s[..8], w) + Zeros(16), Zeros(8)), s[8..] + Zeros(8));
  }

  /** The table step is eight register steps. */
  lemma {:induction false} HoldsByteStep(c: bv32, s: Bits, b: byte)
    requires Holds(c, s)
    ensures |s| == |GENERATOR| == 24 && Holds(ByteStep(c, b), Feed(GENERATOR, s, ByteBits(b)))
  {
    assert |s| == 24;
    hide Holds, Table, Feed, Zeros, Xor;
    HoldsIndex(c, s, b);
    HoldsTable((((c >> 16) & 0xFF) as byte) ^ b, Xor(s[..8], ByteBits(b)) + Zeros(16));
    HoldsShiftEight(c, s);
    CombineHalves((c << 8) & 0xFFFFFF, Table((((c >> 16) & 0xFF) as byte) ^ b), s, ByteBits(b));
  }

  // ----- the checksum of a byte string and of a bit string -----

  /** The remainder that CRC-24Q assigns to a bit string: long division of bits * x^24. */
  function CrcBits(bits: Bits): (r: Bits)
    ensures |r| == 24
  {
    Remainder(GENERATOR, Zeros(24), bits + Zeros(24))
  }

  /** rtk_crc24q. */
  method Crc24q(buff: seq<byte>) returns (crc: bv32)
    ensures Holds(crc, CrcBits(BitsOf(buff, 8 * |buff|)))
  {
    GeneratorWord();
    crc := 0;
    ghost var reg := Zeros(24);
    assert BitsOf(buff[..0], 0) == [];
    for i := 0 to |buff|
      invariant |reg| == |GENERATOR| == 24
      invariant Holds(crc, reg)
      invariant reg == Feed(GENERATOR, Zeros(24), BitsOf(buff[..i], 8 * i))
    {
      HoldsByteStep(crc, reg, buff[i]);
      FeedOneByte(buff, i);
      reg := Feed(GENERATOR, reg, ByteBits(buff[i]));
      crc := ((crc << 8) & 0xFFFFFF) ^ Table((((crc >> 16) & 0xFF) as byte) ^ buff[i]);
    }
    assert buff[..|buff|] == buff;
    FeedIsDivision(GENERATOR, BitsOf(buff, 8 * |buff|));
  }

  lemma {:induction false} FeedOneByte(buff: seq<byte>, i: nat)
    requires i < |buff|
    ensures |GENERATOR| == 24
    ensures Feed(GENERATOR, Zeros(24), BitsOf(buff[..i + 1], 8 * (i + 1)))
         == Feed(GENERATOR, Feed(GENERATOR, Zeros(24), BitsOf(buff[..i], 8 * i)), ByteBits(buff[i]))
  {
    hide Feed, Zeros;
    BitsOfSnoc(buff, i);
    FeedConcat(GENERATOR, Zeros(24), BitsOf(buff[..i], 8 * i), ByteBits(buff[i]));
  }

  lemma {:induction false} BitsOfSnoc(buff: seq<byte>, i: nat)
    requires i < |buff|
    ensures BitsOf(buff[..i + 1], 8 * (i + 1)) == BitsOf(buff[..i], 8 * i) + ByteBits(buff[i])
  {
    hide BitAt;
  }

  /** Leading zeros, such as those that align a block right, do not change the checksum. */
  lemma {:induction false} LeadingZerosIgnored(k: nat, bits: Bits)
    ensures CrcBits(Zeros(k) + bits) == CrcBits(bits)
  {
    hide Remainder, Zeros;
    assert |GENERATOR| == 24;
    assert (Zeros(k) + bits) + Zeros(24) == Zeros(k) + (bits + Zeros(24));
    RemainderConcat(GENERATOR, Zeros(24), Zeros(k), bits + Zeros(24));
    RemainderOfZeros(GENERATOR, k);
  }

  // ----- append_CRC24 and crc_ok -----

  /** sdr_pack_bits: nz zero bits, then the data. */
  method SdrPackBits(data: Bits, nz: nat) returns (buff: seq<byte>)
    ensures buff == PackBits(Zeros(nz) + data)
  {
    hide StreamBit, PackBits;
    var n := (nz + |data| + 7) / 8;
    var out := new byte[n](_ => 0);
    ZeroStream(out[..]);
    for i := nz to nz + |data|
      invariant forall p :: 0 <= p < 8 * n ==> StreamBit(out[..], p) == (nz <= p < i && data[p - nz])
    {
      OrInto(out, i, data[i - nz]);
    }
    PackBitsPacks(Zeros(nz) + data);
    PackingUnique(out[..], PackBits(Zeros(nz) + data));
    buff := out[..];
  }

  function WordBytes(data: bv32): (bytes: seq<byte>)
    ensures |bytes| == 3
  {
    [((data >> 16) & 0xFF) as byte, ((data >> 8) & 0xFF) as byte, (data & 0xFF) as byte]
  }

  /** sdr_unpack_data for the 24 bits of a checksum: bit 23 - i of the word, for i from 0 to 23,
      which is bit i % 8 of its byte i / 8. */
  function SdrUnpackData24(data: bv32): (bits: Bits)
    ensures |bits| == 24
  {
    BitsOf(WordBytes(data), 24)
  }

  lemma {:induction false} ByteIsMask(data: bv32)
    ensures (((data >> 16) & 0xFF) as byte & 0x80 != 0) == (data & 0x800000 != 0)
    ensures (((data >> 16) & 0xFF) as byte & 0x40 != 0) == (data & 0x400000 != 0)
    ensures (((data >> 16) & 0xFF) as byte & 0x20 != 0) == (data & 0x200000 != 0)
    ensures (((data >> 16) & 0xFF) as byte & 0x10 != 0) == (data & 0x100000 != 0)
    ensures (((data >> 16) & 0xFF) as byte & 0x08 != 0) == (data & 0x080000 != 0)
    ensures (((data >> 16) & 0xFF) as byte & 0x04 != 0) == (data & 0x040000 != 0)
    ensures (((data >> 16) & 0xFF) as byte & 0x02 != 0) == (data & 0x020000 != 0)
    ensures (((data >> 16) & 0xFF) as byte & 0x01 != 0) == (data & 0x010000 != 0)
    ensures (((data >> 8) & 0xFF) as byte & 0x80 != 0) == (data & 0x008000 != 0)
    ensures (((data >> 8) & 0xFF) as byte & 0x40 != 0) == (data & 0x004000 != 0)
    ensures (((data >> 8) & 0xFF) as byte & 0x20 != 0) == (data & 0x002000 != 0)
    ensures (((data >> 8) & 0xFF) as byte & 0x10 != 0) == (data & 0x001000 != 0)
    ensures (((data >> 8) & 0xFF) as byte & 0x08 != 0) == (data & 0x000800 != 0)
    ensures (((data >> 8) & 0xFF) as byte & 0x04 != 0) == (data & 0x000400 != 0)
    ensures (((data >> 8) & 0xFF) as byte & 0x02 != 0) == (data & 0x000200 != 0)
    ensures (((data >> 8) & 0xFF) as byte & 0x01 != 0) == (data & 0x000100 != 0)
    ensures ((data & 0xFF) as byte & 0x80 != 0) == (data & 0x000080 != 0)
    ensures ((data & 0xFF) as byte & 0x40 != 0) == (data & 0x000040 != 0)
    ensures ((data & 0xFF) as byte & 0x20 != 0) == (data & 0x000020 != 0)
    ensures ((data & 0xFF) as byte & 0x10 != 0) == (data & 0x000010 != 0)
    ensures ((data & 0xFF) as byte & 0x08 != 0) == (data & 0x000008 != 0)
    ensures ((data & 0xFF) as byte & 0x04 != 0) == (data & 0x000004 != 0)
    ensures ((data & 0xFF) as byte & 0x02 != 0) == (data & 0x000002 != 0)
    ensures ((data & 0xFF) as byte & 0x01 != 0) == (data & 0x000001 != 0)
  {
  }

  lemma {:induction false} ByteMasks(b: byte)
    ensures BitAt(b, 0) == (b & 0x80 != 0) && BitAt(b, 1) == (b & 0x40 != 0)
    ensures BitAt(b, 2) == (b & 0x20 != 0) && BitAt(b, 3) == (b & 0x10 != 0)
    ensures BitAt(b, 4) == (b & 0x08 != 0) && BitAt(b, 5) == (b & 0x04 != 0)
    ensures BitAt(b, 6) == (b & 0x02 != 0) && BitAt(b, 7) == (b & 0x01 != 0)
  {
  }

  lemma {:induction false} ThreeByteBits(a: byte, b: byte, c: byte, bits: Bits)
    requires bits == BitsOf([a, b, c], 24)
    ensures bits[0] == (a & 0x80 != 0) && bits[1] == (a & 0x40 != 0)
    ensures bits[2] == (a & 0x20 != 0) && bits[3] == (a & 0x10 != 0)
    ensures bits[4] == (a & 0x08 != 0) && bits[5] == (a & 0x04 != 0)
    ensures bits[6] == (a & 0x02 != 0) && bits[7] == (a & 0x01 != 0)
    ensures bits[8] == (b & 0x80 != 0) && bits[9] == (b & 0x40 != 0)
    ensures bits[10] == (b & 0x20 != 0) && bits[11] == (b & 0x10 != 0)
    ensures bits[12] == (b & 0x08 != 0) && bits[13] == (b & 0x04 != 0)
    ensures bits[14] == (b & 0x02 != 0) && bits[15] == (b & 0x01 != 0)
    ensures bits[16] == (c & 0x80 != 0) && bits[17] == (c & 0x40 != 0)
    ensures bits[18] == (c & 0x20 != 0) && bits[19] == (c & 0x10 != 0)
    ensures bits[20] == (c & 0x08 != 0) && bits[21] == (c & 0x04 != 0)
    ensures bits[22] == (c & 0x02 != 0) && bits[23] == (c & 0x01 != 0)
  {
    hide BitAt, BitsOf;
    ByteMasks(a);
    ByteMasks(b);
    ByteMasks(c);
  }

  lemma {:induction false} UnpackHolds(data: bv32)
    ensures Holds(data, SdrUnpackData24(data))
  {
    hide SdrUnpackData24;
    assert SdrUnpackData24(data) == BitsOf(WordBytes(data), 24) by { UnpackIsBytes(data); }
    ByteIsMask(data);
    ThreeByteBits(((data >> 16) & 0xFF) as byte, ((data >> 8) & 0xFF) as byte, (data & 0xFF) as byte, SdrUnpackData24(data));
  }

  lemma {:induction false} UnpackIsBytes(data: bv32)
    ensures SdrUnpackData24(data) == BitsOf(WordBytes(data), 24)
  {
  }

  /** The first half of append_CRC24: pack the block right-aligned and checksum its data bytes. */
  method BlockChecksum(syms: Bits) returns (tail: Bits)
    requires 24 <= |syms|
    ensures tail == CrcBits(syms[..|syms| - 24])
  {
    hide Holds, CrcBits, SdrUnpackData24, PackBits;
    var len := |syms|;
    var n := (len - 24 + 7) / 8 * 8;
    var nz := n + 24 - len;
    var buff := SdrPackBits(syms, nz);
    PackedPrefix(nz, syms, n);
    var crc := Crc24q(buff[..n / 8]);
    LeadingZerosIgnored(nz, syms[..len - 24]);
    tail := SdrUnpackData24(crc);
    UnpackHolds(crc);
    HoldsUnique(crc, tail, CrcBits(syms[..len - 24]));
  }

  /** append_CRC24: the checksum of all but the last 24 places is written over those places. */
  method AppendCrc24(syms: array<bool>)
    requires 24 <= syms.Length <= 2048
    modifies syms
    ensures syms[..syms.Length - 24] == old(syms[..syms.Length - 24])
    ensures syms[syms.Length - 24..] == CrcBits(old(syms[..syms.Length - 24]))
  {
    hide CrcBits;
    var len := syms.Length;
    ghost var data := syms[..len - 24];
    var tail := BlockChecksum(syms[..]);
    assert syms[..][..len - 24] == data;
    for i := 0 to 24
      invariant syms[..len - 24] == data
      invariant syms[len - 24..len - 24 + i] == tail[..i]
    {
      syms[len - 24 + i] := tail[i];
    }
  }

  lemma {:induction false} PackedPrefix(nz: nat, syms: Bits, n: nat)
    requires nz + |syms| == n + 24 && n % 8 == 0 && nz <= n
    ensures n / 8 <= |PackBits(Zeros(nz) + syms)|
    ensures BitsOf(PackBits(Zeros(nz) + syms)[..n / 8], n) == Zeros(nz) + syms[..|syms| - 24]
  {
    hide PackBits, BitAt;
    var bits := Zeros(nz) + syms;
    PackBitsPacks(bits);
    var lhs, rhs := BitsOf(PackBits(bits)[..n / 8], n), Zeros(nz) + syms[..|syms| - 24];
    forall p | 0 <= p < n
      ensures lhs[p] == rhs[p]
    {
      assert StreamBit(PackBits(bits), p) == bits[p];
    }
  }

  // ----- what crc_ok accepts and rejects -----

  /** A block whose last 24 places are the checksum of the rest. */
  predicate Accepts(block: Bits)
    requires 24 <= |block|
  {
    block[|block| - 24..] == CrcBits(block[..|block| - 24])
  }

  /** crc_ok: recompute the checksum on a copy and compare the last 24 places. */
  method CrcOk(decoded: Bits, dataLen: nat) returns (ok: bool)
    requires dataLen + 24 <= |decoded| && dataLen + 24 <= 1200
    ensures ok == Accepts(decoded[..dataLen + 24])
  {
    hide CrcBits;
    var copy := new bool[dataLen + 24](i requires 0 <= i < dataLen + 24 => decoded[i]);
    ghost var block := decoded[..dataLen + 24];
    assert copy[..] == block;
    assert copy[..dataLen] == block[..dataLen];
    AppendCrc24(copy);
    ok := copy[dataLen..] == decoded[dataLen..dataLen + 24];
    assert block[dataLen..] == decoded[dataLen..dataLen + 24];
  }

  /** A block is accepted exactly when dividing it leaves remainder zero. */
  lemma {:induction false} AcceptsIffRemainderZero(block: Bits)
    requires 24 <= |block|
    ensures Accepts(block) <==> IsZero(Remainder(GENERATOR, Zeros(24), block))
  {
    hide Remainder, Zeros, Xor;
    assert |GENERATOR| == 24;
    var m := |block| - 24;
    var data, tail := block[..m], block[m..];
    assert block == data + tail;
    RemainderConcat(GENERATOR, Zeros(24), data, tail);
    RemainderConcat(GENERATOR, Zeros(24), data, Zeros(24));
    SplitOffTail(GENERATOR, Remainder(GENERATOR, Zeros(24), data), tail);
    RemainderShiftsIn(GENERATOR, tail);
    assert Zeros(0) + tail == tail;
    XorZeroIffEqual(CrcBits(data), tail);
  }

  lemma {:induction false} XorZeroIffEqual(a: Bits, b: Bits)
    requires |a| == |b|
    ensures IsZero(Xor(a, b)) <==> b == a
  {
    XorIndex(a, b);
    if IsZero(Xor(a, b)) {
      forall i | 0 <= i < |a|
        ensures a[i] == b[i]
      {
        assert !Xor(a, b)[i];
      }
    }
  }

  /** A block is accepted exactly when it is a multiple of the generator polynomial. */
  lemma {:induction false} AcceptedBlocksAreMultiples(block: Bits)
    requires 24 <= |block|
    ensures Accepts(block) <==> exists q :: |q| == |block| && Product(GENERATOR, q) == Zeros(24) + block
  {
    hide Remainder, Product, Zeros;
    AcceptsIffRemainderZero(block);
    assert |GENERATOR| == 24;
    RemainderZeroIffMultiple(GENERATOR, block);
  }

  /** Every change of an accepted block that is confined to 24 consecutive places, wherever they
      lie, makes crc_ok reject. */
  lemma {:induction false} BurstRejected(block: Bits, damaged: Bits, at: nat)
    requires 24 <= |block| == |damaged| && at + 24 <= |block|
    requires Accepts(block) && block != damaged
    requires forall i :: 0 <= i < |block| && !(at <= i < at + 24) ==> damaged[i] == block[i]
    ensures !Accepts(damaged)
  {
    hide Remainder, Accepts, CrcBits;
    var e := Xor(block, damaged);
    var w := e[at..at + 24];
    XorIndex(block, damaged);
    assert e == Zeros(at) + w + Zeros(|block| - at - 24);
    assert !IsZero(w) by {
      var i :| 0 <= i < |block| && block[i] != damaged[i];
      assert w[i - at];
    }
    assert |GENERATOR| == 24 && GENERATOR[23];
    WindowDetected(GENERATOR, at, w, |block| - at - 24);
    RejectedIfErrorDetected(block, damaged);
  }

  lemma {:induction false} RejectedIfErrorDetected(block: Bits, damaged: Bits)
    requires 24 <= |block| == |damaged| && Accepts(block)
    requires !IsZero(Remainder(GENERATOR, Zeros(24), Xor(block, damaged)))
    ensures !Accepts(damaged)
  {
    hide Remainder, Accepts, CrcBits, Zeros;
    assert |GENERATOR| == 24;
    AcceptsIffRemainderZero(block);
    AcceptsIffRemainderZero(damaged);
    RemainderLinear(GENERATOR, Zeros(24), Zeros(24), block, damaged);
    XorZero(Zeros(24));
  }

  /** The generator has an even number of terms, so every odd number of flipped bits is rejected. */
  lemma {:induction false} OddErrorsRejected(block: Bits, damaged: Bits)
    requires 24 <= |block| == |damaged| && Accepts(block)
    requires Parity(Xor(block, damaged))
    ensures !Accepts(damaged)
  {
    hide Remainder, Accepts, CrcBits, Xor;
    assert |GENERATOR| == 24;
    GeneratorParity();
    var e := Xor(block, damaged);
    OddWeightDetected(GENERATOR, e);
    var r := Remainder(GENERATOR, Zeros(24), e);
    if IsZero(r) {
      assert r == Zeros(24);
      ParityOfZeros(24);
    }
    RejectedIfErrorDetected(block, damaged);
  }

  lemma {:induction false} GeneratorParity()
    ensures Parity(GENERATOR)
  {
    var a, b, c := ByteBits(0x86), ByteBits(0x4C), ByteBits(0xFB);
    assert GENERATOR == a + b + c;
    ParityConcat(a + b, c);
    ParityConcat(a, b);
    ByteParity(a);
    ByteParity(b);
    ByteParity(c);
  }

  lemma {:induction false} ByteParity(s: Bits)
    requires |s| == 8
    ensures Parity(s) == (s[0] != (s[1] != (s[2] != (s[3] != (s[4] != (s[5] != (s[6] != s[7])))))))
  {
    assert s[..7][..6] == s[..6] && s[..6][..5] == s[..5] && s[..5][..4] == s[..4];
    assert s[..4][..3] == s[..3] && s[..3][..2] == s[..2] && s[..2][..1] == s[..1] && s[..1][..0] == [];
    assert Parity(s[..1]) == s[0];
    assert Parity(s[..3]) == (Parity(s[..2]) != s[2]);
    assert Parity(s[..5]) == (Parity(s[..4]) != s[4]);
    assert Parity(s[..7]) == (Parity(s[..6]) != s[6]);
  }
}
