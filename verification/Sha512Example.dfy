/**
 The published example of SHA-512: the message "abc", eight steps at a time (FIPS 180-4, section 6.4;
 crates/webgate-core/src/ed25519.rs:121-246).
 */
module Sha512Example {
  import opened Words
  import opened Arith
  import opened LittleEndian
  import opened Sha512Block
  import opened Sha512Constants
  import opened Sha512Hasher

  const ABC: seq<byte> := [0x61, 0x62, 0x63]

  /** The one block of the padded message. */
  predicate Example(block: seq<byte>) {
    block == ABC + [0x80, 0, 0, 0, 0] + Zeros(112) + [0, 0, 0, 0, 0, 0, 0, 24]
  }

  // ---------------------------------------------------------------- bytes of the message

  /** Eight bytes in network order. */
  function Joined(b0: int, b1: int, b2: int, b3: int, b4: int, b5: int, b6: int, b7: int): int {
    256 * (256 * (256 * (256 * (256 * (256 * (256 * b0 + b1) + b2) + b3) + b4) + b5) + b6) + b7
  }

  lemma JoinedValue(s: seq<byte>)
    requires |s| == 8
    ensures BigEndianValue(s) == Joined(s[0], s[1], s[2], s[3], s[4], s[5], s[6], s[7])
  {
    hide BigEndianValue;
    assert s[..1] == [] + [s[0]] && s == s[..7] + [s[7]];
    assert forall i | 0 < i < 8 :: s[..i + 1] == s[..i] + [s[i]];
    NoBytes();
    BigEndianLast([], s[0]);
    BigEndianLast(s[..1], s[1]);
    BigEndianLast(s[..2], s[2]);
    BigEndianLast(s[..3], s[3]);
    BigEndianLast(s[..4], s[4]);
    BigEndianLast(s[..5], s[5]);
    BigEndianLast(s[..6], s[6]);
    BigEndianLast(s[..7], s[7]);
  }

  lemma NoBytes()
    ensures BigEndianValue([]) == 0
  {
  }

  /** The length field of the padding. */
  lemma LengthField()
    ensures ToBigEndian(24, 16) == Zeros(15) + [24]
  {
    hide BigEndianValue, ToBigEndian;
    ZerosValue(15);
    BigEndianLast(Zeros(15), 24);
    BigEndianBytes(Zeros(15) + [24]);
  }

  lemma {:induction false} ZerosValue(n: nat)
    ensures BigEndianValue(Zeros(n)) == 0
  {
    if n == 0 {
      NoBytes();
    } else {
      hide BigEndianValue;
      ZerosValue(n - 1);
      BigEndianLast(Zeros(n - 1), 0);
      assert Zeros(n) == Zeros(n - 1) + [0];
    }
  }

  lemma Padded(block: seq<byte>)
    requires Example(block)
    ensures Pad(ABC) == block
  {
    hide ToBigEndian;
    LengthField();
    assert Zeros(108) + Zeros(15) == Zeros(4) + (Zeros(112) + Zeros(7));
  }

  // ---------------------------------------------------------------- the message schedule

  lemma FirstWord(block: seq<byte>, t: nat, s: seq<byte>, w: bv64)
    requires |block| == 128 && t < 16 && |s| == 8 && block[8 * t..8 * t + 8] == s
    requires w as int == Joined(s[0], s[1], s[2], s[3], s[4], s[5], s[6], s[7])
    ensures Schedule(block, t) == w
  {
    hide BigEndianValue, Joined;
    BytePowers();
    JoinedValue(s);
  }

  lemma ZeroWord(block: seq<byte>, t: nat)
    requires |block| == 128 && Example(block) && 1 <= t < 15
    ensures Schedule(block, t) == 0
  {
    hide Schedule;
    FirstWord(block, t, [0, 0, 0, 0, 0, 0, 0, 0], 0);
  }

  lemma OuterWords(block: seq<byte>)
    requires |block| == 128 && Example(block)
    ensures Schedule(block, 0) == 0x6162638000000000 && Schedule(block, 15) == 24
  {
    hide Schedule;
    FirstWord(block, 0, [0x61, 0x62, 0x63, 0x80, 0, 0, 0, 0], 0x6162638000000000);
    FirstWord(block, 15, [0, 0, 0, 0, 0, 0, 0, 24], 24);
  }

  lemma Words0(block: seq<byte>)
    requires |block| == 128 && Example(block)
    ensures Schedule(block, 0) == 0x6162638000000000 && Schedule(block, 1) == 0x0000000000000000
         && Schedule(block, 2) == 0x0000000000000000 && Schedule(block, 3) == 0x0000000000000000
         && Schedule(block, 4) == 0x0000000000000000 && Schedule(block, 5) == 0x0000000000000000
         && Schedule(block, 6) == 0x0000000000000000 && Schedule(block, 7) == 0x0000000000000000
  {
    hide *;
    OuterWords(block);
    ZeroWord(block, 1);
    ZeroWord(block, 2);
    ZeroWord(block, 3);
    ZeroWord(block, 4);
    ZeroWord(block, 5);
    ZeroWord(block, 6);
    ZeroWord(block, 7);
  }

  lemma Words8(block: seq<byte>)
    requires |block| == 128 && Example(block)
    ensures Schedule(block, 8) == 0x0000000000000000 && Schedule(block, 9) == 0x0000000000000000
         && Schedule(block, 10) == 0x0000000000000000 && Schedule(block, 11) == 0x0000000000000000
         && Schedule(block, 12) == 0x0000000000000000 && Schedule(block, 13) == 0x0000000000000000
         && Schedule(block, 14) == 0x0000000000000000 && Schedule(block, 15) == 0x0000000000000018
  {
    hide *;
    OuterWords(block);
    ZeroWord(block, 8);
    ZeroWord(block, 9);
    ZeroWord(block, 10);
    ZeroWord(block, 11);
    ZeroWord(block, 12);
    ZeroWord(block, 13);
    ZeroWord(block, 14);
  }

  lemma NextWord(block: seq<byte>, t: nat)
    requires |block| == 128 && 16 <= t < 80
    ensures Schedule(block, t) == Sum4(Schedule(block, t - 16), SmallSigma0(Schedule(block, t - 15)),
                                       Schedule(block, t - 7), SmallSigma1(Schedule(block, t - 2)))
  {
  }

  lemma Words16(block: seq<byte>)
    requires |block| == 128 && Example(block)
    ensures Schedule(block, 16) == 0x6162638000000000 && Schedule(block, 17) == 0x00030000000000c0
         && Schedule(block, 18) == 0x0a9699a24c700003 && Schedule(block, 19) == 0x00000c0060000603
         && Schedule(block, 20) == 0x549ef62639858996 && Schedule(block, 21) == 0x00c0003300003c00
         && Schedule(block, 22) == 0x1497007a8a0e9dbc && Schedule(block, 23) == 0x62e56500cc0780f0
  {
    hide Schedule, Example;
    Words0(block);
    Words8(block);
    NextWord(block, 16);
    NextWord(block, 17);
    NextWord(block, 18);
    NextWord(block, 19);
    NextWord(block, 20);
    NextWord(block, 21);
    NextWord(block, 22);
    NextWord(block, 23);
  }

  lemma Words24(block: seq<byte>)
    requires |block| == 128 && Example(block)
    ensures Schedule(block, 24) == 0x7760dd475a538797 && Schedule(block, 25) == 0xf1554b711c1c0003
         && Schedule(block, 26) == 0xca2993a4345d9ff2 && Schedule(block, 27) == 0x5e0e66b5c783dd32
         && Schedule(block, 28) == 0xe25a625d00494b62 && Schedule(block, 29) == 0x9f44486fb1e4fbd2
         && Schedule(block, 30) == 0xb31b8c2b06085f2f && Schedule(block, 31) == 0x0e987660934142f6
  {
    hide Schedule, Example;
    Words8(block);
    Words16(block);
    NextWord(block, 24);
    NextWord(block, 25);
    NextWord(block, 26);
    NextWord(block, 27);
    NextWord(block, 28);
    NextWord(block, 29);
    NextWord(block, 30);
    NextWord(block, 31);
  }

  lemma Words32(block: seq<byte>)
    requires |block| == 128 && Example(block)
    ensures Schedule(block, 32) == 0xa4af2cfd09fbb924 && Schedule(block, 33) == 0xad289e2e0bd53186
         && Schedule(block, 34) == 0x3c74563aa2f9673e && Schedule(block, 35) == 0x6ccdcd14cc14b53f
         && Schedule(block, 36) == 0xc3f925b337f22bde && Schedule(block, 37) == 0x5bcc77a75ad95b54
         && Schedule(block, 38) == 0x3ec2257adca09a52 && Schedule(block, 39) == 0x28246960001fc5eb
  {
    hide Schedule, Example;
    Words16(block);
    Words24(block);
    NextWord(block, 32);
    NextWord(block, 33);
    NextWord(block, 34);
    NextWord(block, 35);
    NextWord(block, 36);
    NextWord(block, 37);
    NextWord(block, 38);
    NextWord(block, 39);
  }

  lemma Words40(block: seq<byte>)
    requires |block| == 128 && Example(block)
    ensures Schedule(block, 40) == 0x04e33a75ce2be88a && Schedule(block, 41) == 0x7d5314b3c359e0e7
         && Schedule(block, 42) == 0xaef7a285ff251266 && Schedule(block, 43) == 0x0b8472581deea04f
         && Schedule(block, 44) == 0xb174e26eddc7b033 && Schedule(block, 45) == 0x5d63bae58ddd88de
         && Schedule(block, 46) == 0x4c044007b744ccbb && Schedule(block, 47) == 0xe6a9aa4d74dc7d43
  {
    hide Schedule, Example;
    Words24(block);
    Words32(block);
    NextWord(block, 40);
    NextWord(block, 41);
    NextWord(block, 42);
    NextWord(block, 43);
    NextWord(block, 44);
    NextWord(block, 45);
    NextWord(block, 46);
    NextWord(block, 47);
  }

  lemma Words48(block: seq<byte>)
    requires |block| == 128 && Example(block)
    ensures Schedule(block, 48) == 0xebeaf1237248019c && Schedule(block, 49) == 0x361e80b2d00f3193
         && Schedule(block, 50) == 0x2e9839125df3b175 && Schedule(block, 51) == 0x3319629293ad5363
         && Schedule(block, 52) == 0x9cbc5d89ac1b89d5 && Schedule(block, 53) == 0x275e23ffeeca50b7
         && Schedule(block, 54) == 0x3b80d680bf69ef58 && Schedule(block, 55) == 0x0d0696933945a125
  {
    hide Schedule, Example;
    Words32(block);
    Words40(block);
    NextWord(block, 48);
    NextWord(block, 49);
    NextWord(block, 50);
    NextWord(block, 51);
    NextWord(block, 52);
    NextWord(block, 53);
    NextWord(block, 54);
    NextWord(block, 55);
  }

  lemma Words56(block: seq<byte>)
    requires |block| == 128 && Example(block)
    ensures Schedule(block, 56) == 0x7533eabcb786ff00 && Schedule(block, 57) == 0xb89826cee6fbf0e5
         && Schedule(block, 58) == 0x249b4fbcad623e9f && Schedule(block, 59) == 0x4aea9df2b02d6f1e
         && Schedule(block, 60) == 0x2cc57475a55e8d8f && Schedule(block, 61) == 0xb2574ae938d8be89
         && Schedule(block, 62) == 0xc1b35a57b16d6aea && Schedule(block, 63) == 0xcc4918b5949206bb
  {
    hide Schedule, Example;
    Words40(block);
    Words48(block);
    NextWord(block, 56);
    NextWord(block, 57);
    NextWord(block, 58);
    NextWord(block, 59);
    NextWord(block, 60);
    NextWord(block, 61);
    NextWord(block, 62);
    NextWord(block, 63);
  }

  lemma Words64(block: seq<byte>)
    requires |block| == 128 && Example(block)
    ensures Schedule(block, 64) == 0x5099c3add79f90ec && Schedule(block, 65) == 0x5ea81d78e7660bf1
         && Schedule(block, 66) == 0xebee6267405ac2a9 && Schedule(block, 67) == 0xb01f21926108a4ab
         && Schedule(block, 68) == 0x786433dd2fe65556 && Schedule(block, 69) == 0xc54a6eaa24a0552c
         && Schedule(block, 70) == 0xb3c8f1530bdbaa9e && Schedule(block, 71) == 0xbb8abfe56f469338
  {
    hide Schedule, Example;
    Words48(block);
    Words56(block);
    NextWord(block, 64);
    NextWord(block, 65);
    NextWord(block, 66);
    NextWord(block, 67);
    NextWord(block, 68);
    NextWord(block, 69);
    NextWord(block, 70);
    NextWord(block, 71);
  }

  lemma Words72(block: seq<byte>)
    requires |block| == 128 && Example(block)
    ensures Schedule(block, 72) == 0xf63d4265cc1c5a78 && Schedule(block, 73) == 0xbe8355ea73129afb
         && Schedule(block, 74) == 0x49e2db8ebdcfbeb5 && Schedule(block, 75) == 0x82269d4a883a3d99
         && Schedule(block, 76) == 0xfdf53df3011f362b && Schedule(block, 77) == 0x464af5671d71c12e
         && Schedule(block, 78) == 0xe449b68198ec611c && Schedule(block, 79) == 0x92aeeed1a7bcf7d2
  {
    hide Schedule, Example;
    Words56(block);
    Words64(block);
    NextWord(block, 72);
    NextWord(block, 73);
    NextWord(block, 74);
    NextWord(block, 75);
    NextWord(block, 76);
    NextWord(block, 77);
    NextWord(block, 78);
    NextWord(block, 79);
  }

  // ---------------------------------------------------------------- the rounds

  ghost function After(block: seq<byte>, t: nat): Working
    requires |block| == 128 && t <= 80
  {
    Rounds(block, Load(INITIAL), t)
  }

  lemma Start(block: seq<byte>)
    requires |block| == 128
    ensures After(block, 0) == Load(INITIAL)
  {
  }

  /** One round more, with the two words it makes. */
  lemma NextRound(block: seq<byte>, t: nat, v: Working, a: bv64, e: bv64) returns (v': Working)
    requires |block| == 128 && t < 80 && After(block, t) == v
    requires Round(v, Constant(t), Schedule(block, t)).a == a && Round(v, Constant(t), Schedule(block, t)).e == e
    ensures v' == Working(a, v.a, v.b, v.c, e, v.e, v.f, v.g) && After(block, t + 1) == v'
  {
    hide Schedule, Ch, Maj, BigSigma0, BigSigma1;
    v' := After(block, t + 1);
  }

  lemma Rounds8(block: seq<byte>)
    requires |block| == 128 && Example(block)
    ensures After(block, 8) == Working(
      0x8093d195e0054fa3, 0xc4875b0c7abc076b, 0xaf573b02403e89cd, 0xb680953951604860,
      0x86f67263a0f0ec0a, 0x5a6c781f54dcc00c, 0x96f60209b6dc35ba, 0x745aca4a342ed2e2)
  {
    hide Schedule, After, Constant, Example;
    Start(block);
    Words0(block);
    Constants0();
    var v := After(block, 0);
    v := NextRound(block, 0, v, 0xf6afceb8bcfcddf5, 0x58cb02347ab51f91);
    v := NextRound(block, 1, v, 0x1320f8c9fb872cc0, 0xc3d4ebfd48650ffa);
    v := NextRound(block, 2, v, 0xebcffc07203d91f3, 0xdfa9b239f2697812);
    v := NextRound(block, 3, v, 0x5a83cb3e80050e82, 0x0b47b4bb1928990e);
    v := NextRound(block, 4, v, 0xb680953951604860, 0x745aca4a342ed2e2);
    v := NextRound(block, 5, v, 0xaf573b02403e89cd, 0x96f60209b6dc35ba);
    v := NextRound(block, 6, v, 0xc4875b0c7abc076b, 0x5a6c781f54dcc00c);
    v := NextRound(block, 7, v, 0x8093d195e0054fa3, 0x86f67263a0f0ec0a);
  }

  lemma Rounds16(block: seq<byte>)
    requires |block| == 128 && Example(block)
    ensures After(block, 16) == Working(
      0x0ae07c86b1181c75, 0xfa967eed85a08028, 0x44249631255d2ca0, 0x5e41214388186c14,
      0xa77b7c035dd4c161, 0x874bfe5f6aae9f2f, 0x860acf9effba6f61, 0xcdf3bff2883fc9d9)
  {
    hide Schedule, After, Constant, Example;
    Rounds8(block);
    Words8(block);
    Constants8();
    var v := After(block, 8);
    v := NextRound(block, 8, v, 0xf1eca5544cb89225, 0xd0403c398fc40002);
    v := NextRound(block, 9, v, 0x81782d4a5db48f03, 0x00091f460be46c52);
    v := NextRound(block, 10, v, 0x69854c4aa0f25b59, 0xd375471bde1ba3f4);
    v := NextRound(block, 11, v, 0xdb0a9963f80c2eaa, 0x475975b91a7a462c);
    v := NextRound(block, 12, v, 0x5e41214388186c14, 0xcdf3bff2883fc9d9);
    v := NextRound(block, 13, v, 0x44249631255d2ca0, 0x860acf9effba6f61);
    v := NextRound(block, 14, v, 0xfa967eed85a08028, 0x874bfe5f6aae9f2f);
    v := NextRound(block, 15, v, 0x0ae07c86b1181c75, 0xa77b7c035dd4c161);
  }

  lemma Rounds24(block: seq<byte>)
    requires |block| == 128 && Example(block)
    ensures After(block, 24) == Working(
      0x4f6877b58fe55484, 0x3e2644567b709a78, 0xda34d6673d452dcf, 0x8dc5ae65569d3855,
      0xc66005f87db55233, 0x0ac2b11da8f571c6, 0x8e30ff09ad488753, 0x4bb9e66d1145bfdc)
  {
    hide Schedule, After, Constant, Example;
    Rounds16(block);
    Words16(block);
    Constants16();
    var v := After(block, 16);
    v := NextRound(block, 16, v, 0xcaf81a425d800537, 0x2deecc6b39d64d78);
    v := NextRound(block, 17, v, 0x4725be249ad19e6b, 0xf47e8353f8047455);
    v := NextRound(block, 18, v, 0x3c4b4104168e3edb, 0x29695fd88d81dbd0);
    v := NextRound(block, 19, v, 0x9a3fb4d38ab6cf06, 0xf14998dd5f70767e);
    v := NextRound(block, 20, v, 0x8dc5ae65569d3855, 0x4bb9e66d1145bfdc);
    v := NextRound(block, 21, v, 0xda34d6673d452dcf, 0x8e30ff09ad488753);
    v := NextRound(block, 22, v, 0x3e2644567b709a78, 0x0ac2b11da8f571c6);
    v := NextRound(block, 23, v, 0x4f6877b58fe55484, 0xc66005f87db55233);
  }

  lemma Rounds32(block: seq<byte>)
    requires |block| == 128 && Example(block)
    ensures After(block, 32) == Working(
      0xff4d3f1f0d46a736, 0x4c4fbbb75f1873a6, 0x74bf40f869094c63, 0xe62349090f47d30a,
      0x3cd388e119e8162e, 0x73e025d91b9efea3, 0xf0aec2fe1437f085, 0x0fcdf99710f21584)
  {
    hide Schedule, After, Constant, Example;
    Rounds24(block);
    Words24(block);
    Constants24();
    var v := After(block, 24);
    v := NextRound(block, 24, v, 0x9aff71163fa3a940, 0xd3ecf13769180e6f);
    v := NextRound(block, 25, v, 0x0bc5f791f8e6816b, 0x6ddf1fd7edcce336);
    v := NextRound(block, 26, v, 0x884c3bc27bc4f941, 0xe6e48c9a8e948365);
    v := NextRound(block, 27, v, 0xeab4a9e5771b8d09, 0x09068a4e255a0dac);
    v := NextRound(block, 28, v, 0xe62349090f47d30a, 0x0fcdf99710f21584);
    v := NextRound(block, 29, v, 0x74bf40f869094c63, 0xf0aec2fe1437f085);
    v := NextRound(block, 30, v, 0x4c4fbbb75f1873a6, 0x73e025d91b9efea3);
    v := NextRound(block, 31, v, 0xff4d3f1f0d46a736, 0x3cd388e119e8162e);
  }

  lemma Rounds40(block: seq<byte>)
    requires |block| == 128 && Example(block)
    ensures After(block, 40) == Working(
      0x8e01e125b855d225, 0xb3bb8542b3376de5, 0x002bb8e4cd989567, 0x88df85b0bbe77514,
      0x0c710a47ba6a567b, 0xb49596c20feba7de, 0x66adcfa249ac7bbd, 0x8fbfd0162bbf4675)
  {
    hide Schedule, After, Constant, Example;
    Rounds32(block);
    Words32(block);
    Constants32();
    var v := After(block, 32);
    v := NextRound(block, 32, v, 0xa0509015ca08c8d4, 0xe1034573654a106f);
    v := NextRound(block, 33, v, 0x60d4e6995ed91fe6, 0xefabbd8bf47c041a);
    v := NextRound(block, 34, v, 0x2c59ec7743632621, 0x0fbae670fa780fd3);
    v := NextRound(block, 35, v, 0x1a081afc59fdbc2c, 0xf098082f502b44cd);
    v := NextRound(block, 36, v, 0x88df85b0bbe77514, 0x8fbfd0162bbf4675);
    v := NextRound(block, 37, v, 0x002bb8e4cd989567, 0x66adcfa249ac7bbd);
    v := NextRound(block, 38, v, 0xb3bb8542b3376de5, 0xb49596c20feba7de);
    v := NextRound(block, 39, v, 0x8e01e125b855d225, 0x0c710a47ba6a567b);
  }

  lemma Rounds48(block: seq<byte>)
    requires |block| == 128 && Example(block)
    ensures After(block, 48) == Working(
      0x6b69fc1bb482feac, 0xf61e672694de2d67, 0x021fbadbabab5ac6, 0xc47c9d5c7ea8a234,
      0x35264334c03ac8ad, 0xc6bc35740d8daa9a, 0xe95c2a57572d64d9, 0x858d832ae0e8911c)
  {
    hide Schedule, After, Constant, Example;
    Rounds40(block);
    Words40(block);
    Constants40();
    var v := After(block, 40);
    v := NextRound(block, 40, v, 0xb01521dd6a6be12c, 0x169008b3a4bb170b);
    v := NextRound(block, 41, v, 0xe96f89dd48cbd851, 0xf0996439e7b50cb1);
    v := NextRound(block, 42, v, 0xbc05ba8de5d3c480, 0x639cb938e14dc190);
    v := NextRound(block, 43, v, 0x35d7e7f41defcbd5, 0xcc5100997f5710f2);
    v := NextRound(block, 44, v, 0xc47c9d5c7ea8a234, 0x858d832ae0e8911c);
    v := NextRound(block, 45, v, 0x021fbadbabab5ac6, 0xe95c2a57572d64d9);
    v := NextRound(block, 46, v, 0xf61e672694de2d67, 0xc6bc35740d8daa9a);
    v := NextRound(block, 47, v, 0x6b69fc1bb482feac, 0x35264334c03ac8ad);
  }

  lemma Rounds56(block: seq<byte>)
    requires |block| == 128 && Example(block)
    ensures After(block, 56) == Working(
      0x63b460e42748817e, 0xf650857b5babda4d, 0xd63f68037ddf06aa, 0x03df11b32d42e203,
      0xc6b4dd2a9931c509, 0x9ccfb31a86df0f86, 0xa6781efe1aa1ce02, 0x504f94e40591cffa)
  {
    hide Schedule, After, Constant, Example;
    Rounds48(block);
    Words48(block);
    Constants48();
    var v := After(block, 48);
    v := NextRound(block, 48, v, 0x571f323d96b3a047, 0x271580ed6c3e5650);
    v := NextRound(block, 49, v, 0xca9bd862c5050918, 0xdfe091dab182e645);
    v := NextRound(block, 50, v, 0x813a43dd2c502043, 0x07a0d8ef821c5e1a);
    v := NextRound(block, 51, v, 0xd43f83727325dd77, 0x483f80a82eaee23e);
    v := NextRound(block, 52, v, 0x03df11b32d42e203, 0x504f94e40591cffa);
    v := NextRound(block, 53, v, 0xd63f68037ddf06aa, 0xa6781efe1aa1ce02);
    v := NextRound(block, 54, v, 0xf650857b5babda4d, 0x9ccfb31a86df0f86);
    v := NextRound(block, 55, v, 0x63b460e42748817e, 0xc6b4dd2a9931c509);
  }

  lemma Rounds64(block: seq<byte>)
    requires |block| == 128 && Example(block)
    ensures After(block, 64) == Working(
      0xab44e86276478d85, 0xa81dedbb9f19e643, 0xcfcd928c5424e2b6, 0x3857dfd2fc37d3ba,
      0xcd881ee59ca6bc53, 0x84058865d60a05fa, 0x09aee5bda1644de5, 0xa6af4e9c9f807e51)
  {
    hide Schedule, After, Constant, Example;
    Rounds56(block);
    Words56(block);
    Constants56();
    var v := After(block, 56);
    v := NextRound(block, 56, v, 0x7a52912943d52b05, 0xd2e89bbd91e00be0);
    v := NextRound(block, 57, v, 0x4b81c3aec976ea4b, 0x70505988124351ac);
    v := NextRound(block, 58, v, 0x581ecb3355dcd9b8, 0x6a3c9b0f71c8bf36);
    v := NextRound(block, 59, v, 0x2c074484ef1eac8c, 0x4797cde4ed370692);
    v := NextRound(block, 60, v, 0x3857dfd2fc37d3ba, 0xa6af4e9c9f807e51);
    v := NextRound(block, 61, v, 0xcfcd928c5424e2b6, 0x09aee5bda1644de5);
    v := NextRound(block, 62, v, 0xa81dedbb9f19e643, 0x84058865d60a05fa);
    v := NextRound(block, 63, v, 0xab44e86276478d85, 0xcd881ee59ca6bc53);
  }

  lemma Rounds72(block: seq<byte>)
    requires |block| == 128 && Example(block)
    ensures After(block, 72) == Working(
      0xf15e9664b2803575, 0x7652c579cb60f19c, 0xfb6aaae5d0b6a447, 0x181839d609c79748,
      0x947c3dfafee570ef, 0xaff62c9665ff80fa, 0xe3711cb6564d112d, 0x0ada78ba2d446140)
  {
    hide Schedule, After, Constant, Example;
    Rounds64(block);
    Words64(block);
    Constants64();
    var v := After(block, 64);
    v := NextRound(block, 64, v, 0x5a806d7e9821a501, 0xaa84b086688a5c45);
    v := NextRound(block, 65, v, 0xeeb9c21bb0102598, 0x3b5fed0d6a1f96e1);
    v := NextRound(block, 66, v, 0x46c4210ab2cc155d, 0x29fab5a7bff53366);
    v := NextRound(block, 67, v, 0x54ba35cf56a0340e, 0x1c66f46d95690bcf);
    v := NextRound(block, 68, v, 0x181839d609c79748, 0x0ada78ba2d446140);
    v := NextRound(block, 69, v, 0xfb6aaae5d0b6a447, 0xe3711cb6564d112d);
    v := NextRound(block, 70, v, 0x7652c579cb60f19c, 0xaff62c9665ff80fa);
    v := NextRound(block, 71, v, 0xf15e9664b2803575, 0x947c3dfafee570ef);
  }

  lemma Rounds80(block: seq<byte>)
    requires |block| == 128 && Example(block)
    ensures After(block, 80) == Working(
      0x73a54f399fa4b1b2, 0x10d9c4c4295599f6, 0xd67806db8b148677, 0x654ef9abec389ca9,
      0xd08446aa79693ed7, 0x9bb4d39778c07f9e, 0x25c96a7768fb2aa3, 0xceb9fc3691ce8326)
  {
    hide Schedule, After, Constant, Example;
    Rounds72(block);
    Words72(block);
    Constants72();
    var v := After(block, 72);
    v := NextRound(block, 72, v, 0x358406d165aee9ab, 0x8c7b5fd91a794ca0);
    v := NextRound(block, 73, v, 0x20878dcd29cdfaf5, 0x054d3536539948d0);
    v := NextRound(block, 74, v, 0x33d48dabb5521de2, 0x2ba18245b50de4cf);
    v := NextRound(block, 75, v, 0xc8960e6be864b916, 0x995019a6ff3ba3de);
    v := NextRound(block, 76, v, 0x654ef9abec389ca9, 0xceb9fc3691ce8326);
    v := NextRound(block, 77, v, 0xd67806db8b148677, 0x25c96a7768fb2aa3);
    v := NextRound(block, 78, v, 0x10d9c4c4295599f6, 0x9bb4d39778c07f9e);
    v := NextRound(block, 79, v, 0x73a54f399fa4b1b2, 0xd08446aa79693ed7);
  }

  // ---------------------------------------------------------------- the digest

  lemma Compressed(block: seq<byte>)
    requires |block| == 128 && Example(block)
    ensures Compress(INITIAL, block) == [
    0xddaf35a193617aba, 0xcc417349ae204131, 0x12e6fa4e89a97ea2, 0x0a9eeee64b55d39a,
    0x2192992a274fc1a8, 0x36ba3c23a3feebbd, 0x454d4423643ce80e, 0x2a9ac94fa54ca49f]
  {
    hide Rounds, Example;
    Rounds80(block);
  }

  lemma OneBlock(block: seq<byte>)
    requires |block| == 128 && Example(block)
    ensures Digest(ABC) == WordBytes(Compress(INITIAL, block))
  {
    hide Compress, WordBytes, Pad, Example;
    Padded(block);
    AbsorbBlock(INITIAL, [], block);
    assert [] + block == block;
  }

  /** SHA-512 of "abc", eight bytes at a time, as the standard's examples give it. */
  lemma DigestOfAbc()
    ensures var d := Digest(ABC);
      && BigEndianValue(d[0..8]) == 0xddaf35a193617aba
      && BigEndianValue(d[8..16]) == 0xcc417349ae204131
      && BigEndianValue(d[16..24]) == 0x12e6fa4e89a97ea2
      && BigEndianValue(d[24..32]) == 0x0a9eeee64b55d39a
      && BigEndianValue(d[32..40]) == 0x2192992a274fc1a8
      && BigEndianValue(d[40..48]) == 0x36ba3c23a3feebbd
      && BigEndianValue(d[48..56]) == 0x454d4423643ce80e
      && BigEndianValue(d[56..64]) == 0x2a9ac94fa54ca49f
  {
    hide Compress, WordBytes, Digest, BigEndianValue;
    var block := ABC + [0x80, 0, 0, 0, 0] + Zeros(112) + [0, 0, 0, 0, 0, 0, 0, 24];
    OneBlock(block);
    Compressed(block);
    var words := Compress(INITIAL, block);
    WordBytesAt(words, 0);
    WordBytesAt(words, 1);
    WordBytesAt(words, 2);
    WordBytesAt(words, 3);
    WordBytesAt(words, 4);
    WordBytesAt(words, 5);
    WordBytesAt(words, 6);
    WordBytesAt(words, 7);
  }
}
