/** What CRC-24Q detects in blocks of the lengths the frames use: every change of one, two or three bits. */
module SmallErrors {
  import opened BitStrings
  import opened PolynomialCode
  import opened Crc24q

  // ----- powers of x -----

  function Power000(q: nat): bv32 {
    match q
    case 0 => 0x000001 case 1 => 0x000100 case 2 => 0x010000 case 3 => 0x864CFB case 4 => 0x668F48
    case 5 => 0x8309D7 case 6 => 0x360952 case 7 => 0xD9FE8C case 8 => 0x36EB3D case 9 => 0x3B918C
    case 10 => 0xF50BAF case 11 => 0xFD7E0C case 12 => 0x295C35 case 13 => 0x77292B case 14 => 0x6668A5
    case 15 => 0x64E4D7 case 16 => 0x6243DA case 17 => 0xDC7D36 case 18 => 0xA0FB27 case 19 => 0xC4B14D
    case 20 => 0x084F97 case 21 => 0xEE1639 case 22 => 0x88BE4A case 23 => 0x2C8C9D case 24 => 0xB22B31
    case 25 => 0x5B3CC9 case 26 => 0x4D3C94 case 27 => 0x911CF1 case 28 => 0x6CB4D6 case 29 => 0x93C3E3
    case _ => 0
  }

  function Power030(q: nat): bv32 {
    match q
    case 30 => 0x3973DB case 31 => 0x9D89A2 case 32 => 0xCB800E case 33 => 0x07F2B9 case 34 => 0x6DC617
    case 35 => 0x674E18 case 36 => 0xC4152C case 37 => 0xAC2E97 case 38 => 0x236695 case 39 => 0x66DD1F
    case 40 => 0xD15ED7 case 41 => 0x373104 case 42 => 0x67E477 case 43 => 0x6E7A2C case 44 => 0xD7ECEE
    case 45 => 0x9C3BE8 case 46 => 0xFF86F5 case 47 => 0x5B7038 case 48 => 0x01CD94 case 49 => 0x4BD8FB
    case 50 => 0x6C401D case 51 => 0x6708E3 case 52 => 0x82EE2C case 53 => 0x57BEA9 case 54 => 0xFD3B4C
    case 55 => 0x6C1C35 case 56 => 0x3B20E3 case 57 => 0x4464AF case 58 => 0xEEEA33 case 59 => 0x74B44A
    case _ => 0
  }

  function Power060(q: nat): bv32 {
    match q
    case 60 => 0xF79053 case 61 => 0xEC5701 case 62 => 0x435347 case 63 => 0x467D24 case 64 => 0x7DB43E
    case 65 => 0xD02991 case 66 => 0xC63BFF case 67 => 0x08289A case 68 => 0x891B39 case 69 => 0x0FB366
    case 70 => 0x8D982E case 71 => 0x1F4287 case 72 => 0xB937A7 case 73 => 0xEAB206 case 74 => 0xBF67AB
    case 75 => 0xA38DEA case 76 => 0xBEE5BB case 77 => 0xA7D111 case 78 => 0x71F85A case 79 => 0xAE2A49
    case 80 => 0xAD6D98 case 81 => 0xE6256E case 82 => 0x1A6873 case 83 => 0x8669BD case 84 => 0x43C948
    case 85 => 0xDC7224 case 86 => 0xAFE927 case 87 => 0xE84F63 case 88 => 0xC8D7A6 case 89 => 0x5CC34F
    case _ => 0
  }

  function Power090(q: nat): bv32 {
    match q
    case 90 => 0x2DC583 case 91 => 0x7D79CA case 92 => 0x1DDD91 case 93 => 0xACF4AA case 94 => 0xF95B95
    case 95 => 0x9F23D4 case 96 => 0xEB2303 case 97 => 0xA82E50 case 98 => 0xB04774 case 99 => 0xBDACC4
    case 100 => 0xE237E7 case 101 => 0x9B0792 case 102 => 0x5C83E2 case 103 => 0x6D6883 case 104 => 0xC9DA18
    case 105 => 0xD731B4 case 106 => 0x4161E8 case 107 => 0xFE0729 case 108 => 0x5CE0C3 case 109 => 0x0E4983
    case 110 => 0xF131D5 case 111 => 0x54E2ED case 112 => 0xADE6BA case 113 => 0x6D076E case 114 => 0xA63718
    case 115 => 0x11BDA1 case 116 => 0xFEA372 case 117 => 0xF8BBC3 case 118 => 0xF9392F case 119 => 0xFD99D4
    case _ => 0
  }

  function Power120(q: nat): bv32 {
    match q
    case 120 => 0xCE8435 case 121 => 0x1663A3 case 122 => 0xBFDE65 case 123 => 0x1A43EA case 124 => 0xADF0BD
    case 125 => 0x7B006E case 126 => 0x7D4A7D case 127 => 0x2E6A91 case 128 => 0xDEF23C case 129 => 0xA5242A
    case 130 => 0x0E1657 case 131 => 0xAEE5D5 case 132 => 0x62F198 case 133 => 0x6E3F36 case 134 => 0x92F6EE
    case 135 => 0x8A3220 case 136 => 0x2A3390 case 137 => 0x1415DD case 138 => 0x437568 case 139 => 0x605224
    case 140 => 0x47563B case 141 => 0xD0E7C5 case 142 => 0x086FFF case 143 => 0xCE7E39 case 144 => 0xEC6FA3
    case 145 => 0x7BF147 case 146 => 0x8C637D case 147 => 0x625D7C case 148 => 0xC2DB36 case 149 => 0x7B077B
    case 150 => 0x7A5F7D
    case _ => 0
  }

  /** x^(8 q) modulo the generator, for q up to 150. */
  function Power(q: nat): bv32 {
    if q < 30 then Power000(q)
    else if q < 60 then Power030(q)
    else if q < 90 then Power060(q)
    else if q < 120 then Power090(q)
    else Power120(q)
  }

  lemma {:induction false} Steps000()
    ensures EightZeros(0x000001) == 0x000100
    ensures EightZeros(0x000100) == 0x010000
    ensures EightZeros(0x010000) == 0x864CFB
    ensures EightZeros(0x864CFB) == 0x668F48
    ensures EightZeros(0x668F48) == 0x8309D7
    ensures EightZeros(0x8309D7) == 0x360952
    ensures EightZeros(0x360952) == 0xD9FE8C
    ensures EightZeros(0xD9FE8C) == 0x36EB3D
    ensures EightZeros(0x36EB3D) == 0x3B918C
    ensures EightZeros(0x3B918C) == 0xF50BAF
    ensures EightZeros(0xF50BAF) == 0xFD7E0C
    ensures EightZeros(0xFD7E0C) == 0x295C35
    ensures EightZeros(0x295C35) == 0x77292B
    ensures EightZeros(0x77292B) == 0x6668A5
    ensures EightZeros(0x6668A5) == 0x64E4D7
    ensures EightZeros(0x64E4D7) == 0x6243DA
    ensures EightZeros(0x6243DA) == 0xDC7D36
    ensures EightZeros(0xDC7D36) == 0xA0FB27
    ensures EightZeros(0xA0FB27) == 0xC4B14D
    ensures EightZeros(0xC4B14D) == 0x084F97
    ensures EightZeros(0x084F97) == 0xEE1639
    ensures EightZeros(0xEE1639) == 0x88BE4A
    ensures EightZeros(0x88BE4A) == 0x2C8C9D
    ensures EightZeros(0x2C8C9D) == 0xB22B31
    ensures EightZeros(0xB22B31) == 0x5B3CC9
    ensures EightZeros(0x5B3CC9) == 0x4D3C94
    ensures EightZeros(0x4D3C94) == 0x911CF1
    ensures EightZeros(0x911CF1) == 0x6CB4D6
    ensures EightZeros(0x6CB4D6) == 0x93C3E3
  {
  }

  lemma {:induction false} PowerRow000(q: nat)
    requires 0 <= q < 29
    ensures Power000(q + 1) == EightZeros(Power000(q))
  {
    hide EightZeros;
    Steps000();
  }

  lemma {:induction false} Steps030()
    ensures EightZeros(0x3973DB) == 0x9D89A2
    ensures EightZeros(0x9D89A2) == 0xCB800E
    ensures EightZeros(0xCB800E) == 0x07F2B9
    ensures EightZeros(0x07F2B9) == 0x6DC617
    ensures EightZeros(0x6DC617) == 0x674E18
    ensures EightZeros(0x674E18) == 0xC4152C
    ensures EightZeros(0xC4152C) == 0xAC2E97
    ensures EightZeros(0xAC2E97) == 0x236695
    ensures EightZeros(0x236695) == 0x66DD1F
    ensures EightZeros(0x66DD1F) == 0xD15ED7
    ensures EightZeros(0xD15ED7) == 0x373104
    ensures EightZeros(0x373104) == 0x67E477
    ensures EightZeros(0x67E477) == 0x6E7A2C
    ensures EightZeros(0x6E7A2C) == 0xD7ECEE
    ensures EightZeros(0xD7ECEE) == 0x9C3BE8
    ensures EightZeros(0x9C3BE8) == 0xFF86F5
    ensures EightZeros(0xFF86F5) == 0x5B7038
    ensures EightZeros(0x5B7038) == 0x01CD94
    ensures EightZeros(0x01CD94) == 0x4BD8FB
    ensures EightZeros(0x4BD8FB) == 0x6C401D
    ensures EightZeros(0x6C401D) == 0x6708E3
    ensures EightZeros(0x6708E3) == 0x82EE2C
    ensures EightZeros(0x82EE2C) == 0x57BEA9
    ensures EightZeros(0x57BEA9) == 0xFD3B4C
    ensures EightZeros(0xFD3B4C) == 0x6C1C35
    ensures EightZeros(0x6C1C35) == 0x3B20E3
    ensures EightZeros(0x3B20E3) == 0x4464AF
    ensures EightZeros(0x4464AF) == 0xEEEA33
    ensures EightZeros(0xEEEA33) == 0x74B44A
  {
  }

  lemma {:induction false} PowerRow030(q: nat)
    requires 30 <= q < 59
    ensures Power030(q + 1) == EightZeros(Power030(q))
  {
    hide EightZeros;
    Steps030();
  }

  lemma {:induction false} Steps060()
    ensures EightZeros(0xF79053) == 0xEC5701
    ensures EightZeros(0xEC5701) == 0x435347
    ensures EightZeros(0x435347) == 0x467D24
    ensures EightZeros(0x467D24) == 0x7DB43E
    ensures EightZeros(0x7DB43E) == 0xD02991
    ensures EightZeros(0xD02991) == 0xC63BFF
    ensures EightZeros(0xC63BFF) == 0x08289A
    ensures EightZeros(0x08289A) == 0x891B39
    ensures EightZeros(0x891B39) == 0x0FB366
    ensures EightZeros(0x0FB366) == 0x8D982E
    ensures EightZeros(0x8D982E) == 0x1F4287
    ensures EightZeros(0x1F4287) == 0xB937A7
    ensures EightZeros(0xB937A7) == 0xEAB206
    ensures EightZeros(0xEAB206) == 0xBF67AB
    ensures EightZeros(0xBF67AB) == 0xA38DEA
    ensures EightZeros(0xA38DEA) == 0xBEE5BB
    ensures EightZeros(0xBEE5BB) == 0xA7D111
    ensures EightZeros(0xA7D111) == 0x71F85A
    ensures EightZeros(0x71F85A) == 0xAE2A49
    ensures EightZeros(0xAE2A49) == 0xAD6D98
    ensures EightZeros(0xAD6D98) == 0xE6256E
    ensures EightZeros(0xE6256E) == 0x1A6873
    ensures EightZeros(0x1A6873) == 0x8669BD
    ensures EightZeros(0x8669BD) == 0x43C948
    ensures EightZeros(0x43C948) == 0xDC7224
    ensures EightZeros(0xDC7224) == 0xAFE927
    ensures EightZeros(0xAFE927) == 0xE84F63
    ensures EightZeros(0xE84F63) == 0xC8D7A6
    ensures EightZeros(0xC8D7A6) == 0x5CC34F
  {
  }

  lemma {:induction false} PowerRow060(q: nat)
    requires 60 <= q < 89
    ensures Power060(q + 1) == EightZeros(Power060(q))
  {
    hide EightZeros;
    Steps060();
  }

  lemma {:induction false} Steps090()
    ensures EightZeros(0x2DC583) == 0x7D79CA
    ensures EightZeros(0x7D79CA) == 0x1DDD91
    ensures EightZeros(0x1DDD91) == 0xACF4AA
    ensures EightZeros(0xACF4AA) == 0xF95B95
    ensures EightZeros(0xF95B95) == 0x9F23D4
    ensures EightZeros(0x9F23D4) == 0xEB2303
    ensures EightZeros(0xEB2303) == 0xA82E50
    ensures EightZeros(0xA82E50) == 0xB04774
    ensures EightZeros(0xB04774) == 0xBDACC4
    ensures EightZeros(0xBDACC4) == 0xE237E7
    ensures EightZeros(0xE237E7) == 0x9B0792
    ensures EightZeros(0x9B0792) == 0x5C83E2
    ensures EightZeros(0x5C83E2) == 0x6D6883
    ensures EightZeros(0x6D6883) == 0xC9DA18
    ensures EightZeros(0xC9DA18) == 0xD731B4
    ensures EightZeros(0xD731B4) == 0x4161E8
    ensures EightZeros(0x4161E8) == 0xFE0729
    ensures EightZeros(0xFE0729) == 0x5CE0C3
    ensures EightZeros(0x5CE0C3) == 0x0E4983
    ensures EightZeros(0x0E4983) == 0xF131D5
    ensures EightZeros(0xF131D5) == 0x54E2ED
    ensures EightZeros(0x54E2ED) == 0xADE6BA
    ensures EightZeros(0xADE6BA) == 0x6D076E
    ensures EightZeros(0x6D076E) == 0xA63718
    ensures EightZeros(0xA63718) == 0x11BDA1
    ensures EightZeros(0x11BDA1) == 0xFEA372
    ensures EightZeros(0xFEA372) == 0xF8BBC3
    ensures EightZeros(0xF8BBC3) == 0xF9392F
    ensures EightZeros(0xF9392F) == 0xFD99D4
  {
  }

  lemma {:induction false} PowerRow090(q: nat)
    requires 90 <= q < 119
    ensures Power090(q + 1) == EightZeros(Power090(q))
  {
    hide EightZeros;
    Steps090();
  }

  lemma {:induction false} Steps120()
    ensures EightZeros(0xCE8435) == 0x1663A3
    ensures EightZeros(0x1663A3) == 0xBFDE65
    ensures EightZeros(0xBFDE65) == 0x1A43EA
    ensures EightZeros(0x1A43EA) == 0xADF0BD
    ensures EightZeros(0xADF0BD) == 0x7B006E
    ensures EightZeros(0x7B006E) == 0x7D4A7D
    ensures EightZeros(0x7D4A7D) == 0x2E6A91
    ensures EightZeros(0x2E6A91) == 0xDEF23C
    ensures EightZeros(0xDEF23C) == 0xA5242A
    ensures EightZeros(0xA5242A) == 0x0E1657
    ensures EightZeros(0x0E1657) == 0xAEE5D5
    ensures EightZeros(0xAEE5D5) == 0x62F198
    ensures EightZeros(0x62F198) == 0x6E3F36
    ensures EightZeros(0x6E3F36) == 0x92F6EE
    ensures EightZeros(0x92F6EE) == 0x8A3220
    ensures EightZeros(0x8A3220) == 0x2A3390
    ensures EightZeros(0x2A3390) == 0x1415DD
    ensures EightZeros(0x1415DD) == 0x437568
    ensures EightZeros(0x437568) == 0x605224
    ensures EightZeros(0x605224) == 0x47563B
    ensures EightZeros(0x47563B) == 0xD0E7C5
    ensures EightZeros(0xD0E7C5) == 0x086FFF
    ensures EightZeros(0x086FFF) == 0xCE7E39
    ensures EightZeros(0xCE7E39) == 0xEC6FA3
    ensures EightZeros(0xEC6FA3) == 0x7BF147
    ensures EightZeros(0x7BF147) == 0x8C637D
    ensures EightZeros(0x8C637D) == 0x625D7C
    ensures EightZeros(0x625D7C) == 0xC2DB36
    ensures EightZeros(0xC2DB36) == 0x7B077B
    ensures EightZeros(0x7B077B) == 0x7A5F7D
  {
  }

  lemma {:induction false} PowerRow120(q: nat)
    requires 120 <= q < 150
    ensures Power120(q + 1) == EightZeros(Power120(q))
  {
    hide EightZeros;
    Steps120();
  }

  /** Every entry is its predecessor after eight register steps, and is not below x^8 from the second on. */
  lemma {:induction false} PowerStep(q: nat)
    requires q < 150
    ensures Power(q + 1) == EightZeros(Power(q))
  {
    hide EightZeros, Power000, Power030, Power060, Power090, Power120;
    if q < 29 { PowerRow000(q); }
    else if q == 29 { Seam030(); }
    else if q < 59 { PowerRow030(q); }
    else if q == 59 { Seam060(); }
    else if q < 89 { PowerRow060(q); }
    else if q == 89 { Seam090(); }
    else if q < 119 { PowerRow090(q); }
    else if q == 119 { Seam120(); }
    else { PowerRow120(q); }
  }

  lemma {:induction false} Seam030()
    ensures Power030(30) == EightZeros(Power000(29))
  {
  }

  lemma {:induction false} Seam060()
    ensures Power060(60) == EightZeros(Power030(59))
  {
  }

  lemma {:induction false} Seam090()
    ensures Power090(90) == EightZeros(Power060(89))
  {
  }

  lemma {:induction false} Seam120()
    ensures Power120(120) == EightZeros(Power090(119))
  {
  }

  lemma {:induction false} HighRow000(q: nat)
    requires 1 <= q < 30
    ensures Power000(q) & 0xFFFF00 != 0
  {
  }

  lemma {:induction false} HighRow030(q: nat)
    requires 30 <= q < 60
    ensures Power030(q) & 0xFFFF00 != 0
  {
  }

  lemma {:induction false} HighRow060(q: nat)
    requires 60 <= q < 90
    ensures Power060(q) & 0xFFFF00 != 0
  {
  }

  lemma {:induction false} HighRow090(q: nat)
    requires 90 <= q < 120
    ensures Power090(q) & 0xFFFF00 != 0
  {
  }

  lemma {:induction false} HighRow120(q: nat)
    requires 120 <= q < 151
    ensures Power120(q) & 0xFFFF00 != 0
  {
  }

  lemma {:induction false} PowerIsHigh(q: nat)
    requires 1 <= q <= 150
    ensures Power(q) & 0xFFFF00 != 0
  {
    hide Power000, Power030, Power060, Power090, Power120;
    if q < 30 { HighRow000(q); }
    else if q < 60 { HighRow030(q); }
    else if q < 90 { HighRow060(q); }
    else if q < 120 { HighRow090(q); }
    else { HighRow120(q); }
  }

  lemma {:induction false} HighMasks(x: bv32)
    requires x & 0xFFFF00 != 0
    ensures x & 0x800000 != 0 || x & 0x400000 != 0 || x & 0x200000 != 0 || x & 0x100000 != 0
      || x & 0x080000 != 0 || x & 0x040000 != 0 || x & 0x020000 != 0 || x & 0x010000 != 0
      || x & 0x008000 != 0 || x & 0x004000 != 0 || x & 0x002000 != 0 || x & 0x001000 != 0
      || x & 0x000800 != 0 || x & 0x000400 != 0 || x & 0x000200 != 0 || x & 0x000100 != 0
  {
  }

  /** A word with a one above its low byte has one among the first sixteen bits. */
  lemma {:induction false} HighBit(x: bv32, s: Bits)
    requires Holds(x, s) && x & 0xFFFF00 != 0
    ensures exists i :: 0 <= i < 16 && s[i]
  {
    HighMasks(x);
    assert s[0] || s[1] || s[2] || s[3] || s[4] || s[5] || s[6] || s[7] || s[8] || s[9] || s[10] || s[11] || s[12] || s[13] || s[14] || s[15];
  }

  lemma {:induction false} OneWord()
    ensures |GENERATOR| == 24 && Holds(1, One(24))
  {
  }

  lemma {:induction false} HoldsEight(c: bv32, s: Bits)
    requires Holds(c, s)
    ensures |s| == |GENERATOR| == 24 && Holds(EightZeros(c), Feed(GENERATOR, s, Zeros(8)))
  {
    hide Holds, EightZeros, Feed;
    HoldsSteps(c, s, 8);
    StepsEight(c);
  }

  lemma {:induction false} PowerHolds(q: nat)
    requires q <= 150
    ensures |GENERATOR| == 24 && Holds(Power(q), Feed(GENERATOR, One(24), Zeros(8 * q)))
    decreases q
  {
    hide Holds, EightZeros, Feed, GENERATOR, Zeros, One;
    OneWord();
    if q == 0 {
      NoSteps();
    } else {
      PowerHolds(q - 1);
      HoldsEight(Power(q - 1), Feed(GENERATOR, One(24), Zeros(8 * (q - 1))));
      PowerStep(q - 1);
      FeedConcat(GENERATOR, One(24), Zeros(8 * (q - 1)), Zeros(8));
      ZerosSum(8 * (q - 1), 8);
    }
  }

  lemma {:induction false} NoSteps()
    ensures |GENERATOR| == 24 && Power(0) == 1 && Feed(GENERATOR, One(24), Zeros(8 * 0)) == One(24)
  {
  }

  lemma {:induction false} PowerReachesHigh(q: nat)
    requires 1 <= q <= 150
    ensures |GENERATOR| == 24 && exists i :: 0 <= i < 16 && Feed(GENERATOR, One(24), Zeros(8 * q))[i]
  {
    hide Holds, Feed, GENERATOR, Zeros, One, Power;
    PowerHolds(q);
    PowerIsHigh(q);
    HighBit(Power(q), Feed(GENERATOR, One(24), Zeros(8 * q)));
  }

  /** x^k is not one modulo the generator, for k from 1 to 1199. */
  lemma {:induction false} PowersDiffer(k: nat)
    requires 1 <= k <= 1199
    ensures |GENERATOR| == 24 && Remainder(GENERATOR, One(24), Zeros(k)) != One(24)
  {
    hide Holds, Feed, GENERATOR, Zeros, One, Remainder;
    OneWord();
    var q := (k + 7) / 8;
    var r := 8 * q - k;
    FeedZerosIsRemainder(GENERATOR, One(24), k);
    FeedConcat(GENERATOR, One(24), Zeros(k), Zeros(r));
    ZerosSum(k, r);
    PowerReachesHigh(q);
    OneShifted(r);
  }

  /** Fewer than eight steps only move the one up inside the low byte. */
  lemma {:induction false} OneShifted(r: nat)
    requires r < 8
    ensures |GENERATOR| == 24 && forall i :: 0 <= i < 16 ==> !Feed(GENERATOR, One(24), Zeros(r))[i]
  {
    hide Feed, Remainder, GENERATOR;
    OneWord();
    var low := One(24)[r..];
    assert One(24) == Zeros(r) + low;
    FeedZerosIsRemainder(GENERATOR, One(24), r);
    NoFeedback(GENERATOR, low, r);
  }

  // ----- changes of two bits, and of up to three -----

  /** Every change of two bits of an accepted block of at most 1200 bits is rejected. */
  lemma {:induction false} DoubleErrorsRejected(block: Bits, damaged: Bits)
    requires 24 <= |block| == |damaged| <= 1200 && Accepts(block) && Weight(Xor(block, damaged)) == 2
    ensures !Accepts(damaged)
  {
    hide Remainder, Accepts, CrcBits, GENERATOR, Zeros, Weight;
    OneWord();
    GeneratorEndsInOne();
    var e := Xor(block, damaged);
    var i, j := TwoOnes(e);
    PowersDiffer(j - i);
    DoubleDetected(GENERATOR, i, j - i, |e| - 1 - j);
    RejectedIfErrorDetected(block, damaged);
  }

  lemma {:induction false} GeneratorEndsInOne()
    ensures |GENERATOR| == 24 && GENERATOR[23]
  {
  }

  /** Accepted blocks of one of these lengths differ in at least four bits. */
  lemma {:induction false} SmallErrorsRejected(block: Bits, damaged: Bits)
    requires 24 <= |block| == |damaged| <= 1200 && Accepts(block) && 1 <= Weight(Xor(block, damaged)) <= 3
    ensures !Accepts(damaged)
  {
    hide Accepts, Weight;
    var e := Xor(block, damaged);
    if Weight(e) == 2 {
      DoubleErrorsRejected(block, damaged);
    } else {
      ParityOfWeight(e);
      OddErrorsRejected(block, damaged);
    }
  }
}
