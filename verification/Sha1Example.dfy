/** The example of FIPS 180 for a message of one block: the digest of "abc", worked out with the definitions of `Sha1`. */
module Sha1Example {
  import opened Sha1

  /** The padded message as sixteen words. */
  ghost predicate Abc(m: seq<word>) {
    m == [0x61626380, 0, 0, 0, 0, 0, 0, 0, 0, 0, 0, 0, 0, 0, 0, 24]
  }

  lemma Schedule16(m: seq<word>)
    requires Abc(m)
    ensures W(m, 0) == 0x61626380 && W(m, 15) == 24 && forall t :: 1 <= t < 15 ==> W(m, t) == 0
  {
    hide W;
    forall t: nat | t < 16
      ensures W(m, t) == if t == 0 then 0x61626380 else if t == 15 then 24 else 0
    {
      Given(m, t);
    }
  }

  lemma Given(m: seq<word>, t: nat)
    requires Abc(m) && t < 16
    ensures W(m, t) == if t == 0 then 0x61626380 else if t == 15 then 24 else 0
  {
  }

  lemma Schedule32(m: seq<word>)
    requires Abc(m)
    ensures W(m, 16) == 0xc2c4c700 && W(m, 17) == 0x00000000 && W(m, 18) == 0x00000030 && W(m, 19) == 0x85898e01
    ensures W(m, 20) == 0x00000000 && W(m, 21) == 0x00000060 && W(m, 22) == 0x0b131c03 && W(m, 23) == 0x00000030
    ensures W(m, 24) == 0x85898ec1 && W(m, 25) == 0x16263806 && W(m, 26) == 0x00000000 && W(m, 27) == 0x00000180
    ensures W(m, 28) == 0x2c4c700c && W(m, 29) == 0x000000f0 && W(m, 30) == 0x93afb507 && W(m, 31) == 0x5898e048
  {
    Schedule16(m);
    hide Abc;
  }

  lemma Schedule48(m: seq<word>)
    requires Abc(m)
    ensures W(m, 32) == 0x8e9a9202 && W(m, 33) == 0x00000600 && W(m, 34) == 0xb131c0f0 && W(m, 35) == 0x16263bc6
    ensures W(m, 36) == 0x4ebed41e && W(m, 37) == 0x626380a1 && W(m, 38) == 0x16263806 && W(m, 39) == 0x000018c0
    ensures W(m, 40) == 0xd2e138c4 && W(m, 41) == 0x00000f00 && W(m, 42) == 0x3afb5079 && W(m, 43) == 0x898e04e5
    ensures W(m, 44) == 0xe2ba3c2b && W(m, 45) == 0x000060c0 && W(m, 46) == 0x053a37cd && W(m, 47) == 0x74458547
  {
    Schedule32(m);
    hide Abc;
  }

  lemma Schedule64(m: seq<word>)
    requires Abc(m)
    ensures W(m, 48) == 0xda9415ed && W(m, 49) == 0x26380a16 && W(m, 50) == 0x626383a1 && W(m, 51) == 0x4ebf54de
    ensures W(m, 52) == 0x3835b44b && W(m, 53) == 0x0000f600 && W(m, 54) == 0x1e84c7a3 && W(m, 55) == 0x98e04d98
    ensures W(m, 56) == 0x651d16a0 && W(m, 57) == 0x62658ca1 && W(m, 58) == 0x458544d6 && W(m, 59) == 0x44584cb7
    ensures W(m, 60) == 0x7ba06619 && W(m, 61) == 0x6380aea2 && W(m, 62) == 0x0ae55269 && W(m, 63) == 0x627b49a1
  {
    Schedule48(m);
    hide Abc;
  }

  lemma Schedule80(m: seq<word>)
    requires Abc(m)
    ensures W(m, 64) == 0x7cd45c9d && W(m, 65) == 0x000f0000 && W(m, 66) == 0xfb50753a && W(m, 67) == 0xec6765e8
    ensures W(m, 68) == 0xba3c2be2 && W(m, 69) == 0x0060c000 && W(m, 70) == 0x3a37cd05 && W(m, 71) == 0x458546f4
    ensures W(m, 72) == 0xb8599dd6 && W(m, 73) == 0x380a1a26 && W(m, 74) == 0x01e02203 && W(m, 75) == 0xe7cc3456
    ensures W(m, 76) == 0xe6e60b69 && W(m, 77) == 0x00f60a00 && W(m, 78) == 0x5795ef4f && W(m, 79) == 0x822e0879
  {
    Schedule64(m);
    hide Abc;
  }

  lemma Rounds8(m: seq<word>)
    requires Abc(m)
    ensures Rounds(H0, m, 8) == Hash(0x9e8c07d4, 0x993e30c1, 0x0ff1f290, 0xb3f52677, 0xf3763846)
  {
    Schedule16(m);
    assert Rounds(H0, m, 0) == H0;
    hide W, Abc;
    assert Rounds(H0, m, 2) == Hash(0x8990536d, 0x0116fc33, 0x59d148c0, 0x7bf36ae2, 0x98badcfe);
    assert Rounds(H0, m, 4) == Hash(0xcdd8e11b, 0xa1390f08, 0x626414db, 0xc045bf0c, 0x59d148c0);
    assert Rounds(H0, m, 6) == Hash(0x3fc7ca40, 0xcfd499de, 0xf3763846, 0x284e43c2, 0x626414db);
  }

  lemma Rounds16(m: seq<word>)
    requires Abc(m)
    ensures Rounds(H0, m, 16) == Hash(0x20bdd62f, 0x196bee77, 0x644a3da5, 0x1181ed99, 0x18c623f9)
  {
    Schedule16(m);
    Rounds8(m);
    hide W, Abc;
    assert Rounds(H0, m, 10) == Hash(0x8351f929, 0x4b6ae328, 0x27a301f5, 0x664f8c30, 0x0ff1f290);
    assert Rounds(H0, m, 12) == Hash(0x63188fe4, 0xfbda9e89, 0x60d47e4a, 0x12dab8ca, 0x27a301f5);
    assert Rounds(H0, m, 14) == Hash(0x9128f695, 0x4607b664, 0x18c623f9, 0x7ef6a7a2, 0x60d47e4a);
  }

  lemma Rounds24(m: seq<word>)
    requires Abc(m)
    ensures Rounds(H0, m, 24) == Hash(0xd541f12d, 0x21283486, 0x0ce88eff, 0x868dec32, 0x7f67875f)
  {
    Schedule32(m);
    Rounds16(m);
    hide W, Abc;
    assert Rounds(H0, m, 18) == Hash(0x82aa6728, 0x4e925823, 0xc82f758b, 0xc65afb9d, 0x644a3da5);
    assert Rounds(H0, m, 20) == Hash(0xfd9e1d7d, 0xdc64901d, 0x20aa99ca, 0xd3a49608, 0xc82f758b);
    assert Rounds(H0, m, 22) == Hash(0x33a23bfc, 0x1a37b0ca, 0x7f67875f, 0x77192407, 0x20aa99ca);
  }

  lemma Rounds32(m: seq<word>)
    requires Abc(m)
    ensures Rounds(H0, m, 32) == Hash(0x3b845d33, 0x1267b407, 0x717eebd7, 0xa0dc2d4b, 0xd2aa1365)
  {
    Schedule32(m);
    Rounds24(m);
    hide W, Abc;
    assert Rounds(H0, m, 26) == Hash(0x48413ba4, 0xc7567dc6, 0x75507c4b, 0x884a0d21, 0x0ce88eff);
    assert Rounds(H0, m, 28) == Hash(0x4aa84d97, 0xbe35fbd5, 0x12104ee9, 0xb1d59f71, 0x75507c4b);
    assert Rounds(H0, m, 30) == Hash(0xc5fbaf5d, 0x8370b52e, 0xd2aa1365, 0x6f8d7ef5, 0x12104ee9);
  }

  lemma Rounds40(m: seq<word>)
    requires Abc(m)
    ensures Rounds(H0, m, 40) == Hash(0x32de1cba, 0x4c986405, 0xf718e5cf, 0x03d447f6, 0xf72eec32)
  {
    Schedule48(m);
    Rounds32(m);
    hide W, Abc;
    assert Rounds(H0, m, 34) == Hash(0x2c0ebc11, 0x046faa0a, 0xcee1174c, 0xc499ed01, 0x717eebd7);
    assert Rounds(H0, m, 36) == Hash(0xdcbbb0cb, 0x21796ad4, 0x4b03af04, 0x811bea82, 0xcee1174c);
    assert Rounds(H0, m, 38) == Hash(0xdc63973f, 0x0f511fd8, 0xf72eec32, 0x085e5ab5, 0x4b03af04);
  }

  lemma Rounds48(m: seq<word>)
    requires Abc(m)
    ensures Rounds(H0, m, 48) == Hash(0xbead02ca, 0xa01b846c, 0x8714787c, 0x503ca382, 0xfb86c6ab)
  {
    Schedule48(m);
    Rounds40(m);
    hide W, Abc;
    assert Rounds(H0, m, 42) == Hash(0x970a0d5c, 0xfc87dedf, 0x8cb7872e, 0x53261901, 0xf718e5cf);
    assert Rounds(H0, m, 44) == Hash(0xee1b1aaf, 0x7f193dc5, 0x25c28357, 0xff21f7b7, 0x8cb7872e);
    assert Rounds(H0, m, 46) == Hash(0x1c51e1f2, 0x40f28e09, 0xfb86c6ab, 0x5fc64f71, 0x25c28357);
  }

  lemma Rounds56(m: seq<word>)
    requires Abc(m)
    ensures Rounds(H0, m, 56) == Hash(0x5e6456af, 0x7b71f76d, 0x09fa7c76, 0x792410db, 0x8e11eb59)
  {
    Schedule64(m);
    Rounds48(m);
    hide W, Abc;
    assert Rounds(H0, m, 50) == Hash(0x120731c5, 0xbaf39337, 0xafab40b2, 0x2806e11b, 0x8714787c);
    assert Rounds(H0, m, 52) == Hash(0x3847ad66, 0x641db2ce, 0x4481cc71, 0xeebce4cd, 0xafab40b2);
    assert Rounds(H0, m, 54) == Hash(0x27e9f1d8, 0xe490436d, 0x8e11eb59, 0x99076cb3, 0x4481cc71);
  }

  lemma Rounds64(m: seq<word>)
    requires Abc(m)
    ensures Rounds(H0, m, 64) == Hash(0x6b61c9e1, 0xb66c020b, 0x9523272c, 0xf5d5b051, 0x8fd4b796)
  {
    Schedule64(m);
    Rounds56(m);
    hide W, Abc;
    assert Rounds(H0, m, 58) == Hash(0xd262ff50, 0xc846093f, 0xd79915ab, 0x5edc7ddb, 0x09fa7c76);
    assert Rounds(H0, m, 60) == Hash(0x3f52de5a, 0x09d785fd, 0x3498bfd4, 0xf211824f, 0xd79915ab);
    assert Rounds(H0, m, 62) == Hash(0x548c9cb2, 0xd756c147, 0x8fd4b796, 0x4275e17f, 0x3498bfd4);
  }

  lemma Rounds72(m: seq<word>)
    requires Abc(m)
    ensures Rounds(H0, m, 72) == Hash(0x39859de7, 0xc199f8c7, 0x8fc96230, 0x125c24f0, 0xde37534a)
  {
    Schedule80(m);
    Rounds64(m);
    hide W, Abc;
    assert Rounds(H0, m, 66) == Hash(0x101655f9, 0x19dfa7ac, 0x5ad87278, 0xed9b0082, 0x9523272c);
    assert Rounds(H0, m, 68) == Hash(0x78dd4d2b, 0x0c3df2b4, 0x4405957e, 0x0677e9eb, 0x5ad87278);
    assert Rounds(H0, m, 70) == Hash(0x3f2588c2, 0x497093c0, 0xde37534a, 0x030f7cad, 0x4405957e);
  }

  lemma Rounds80(m: seq<word>)
    requires Abc(m)
    ensures Rounds(H0, m, 80) == Hash(0x42541b35, 0x5738d5e1, 0x21834873, 0x681e6df6, 0xd8fdf6ad)
  {
    Schedule80(m);
    Rounds72(m);
    hide W, Abc;
    assert Rounds(H0, m, 74) == Hash(0x11793f6f, 0xedb42de4, 0xce616779, 0xf0667e31, 0x8fc96230);
    assert Rounds(H0, m, 76) == Hash(0x63f7dab7, 0x5ee76897, 0xc45e4fdb, 0x3b6d0b79, 0xce616779);
    assert Rounds(H0, m, 78) == Hash(0x860d21cc, 0xa079b7d9, 0xd8fdf6ad, 0xd7b9da25, 0xc45e4fdb);
  }

  lemma LengthOfAbc()
    ensures Length64(24) == [0, 0, 0, 0, 0, 0, 0, 24]
  {
    hide *;
    LengthOctets(24);
    OctetZero(24, 0x100_0000_0000_0000);
    OctetZero(24, 0x1_0000_0000_0000);
    OctetZero(24, 0x100_0000_0000);
    OctetZero(24, 0x1_0000_0000);
    OctetZero(24, 0x100_0000);
    OctetZero(24, 0x1_0000);
    OctetZero(24, 0x100);
    LowestOctet();
  }

  lemma LengthOctets(n: nat)
    ensures Length64(n) ==
      [Octet(n, 0x100_0000_0000_0000), Octet(n, 0x1_0000_0000_0000), Octet(n, 0x100_0000_0000),
       Octet(n, 0x1_0000_0000), Octet(n, 0x100_0000), Octet(n, 0x1_0000), Octet(n, 0x100), Octet(n, 1)]
  {
  }

  lemma LowestOctet()
    ensures Octet(24, 1) == 24
  {
  }

  lemma PaddedAbc()
    ensures Pad([0x61, 0x62, 0x63]) == [0x61, 0x62, 0x63, 0x80] + Zeros(52) + [0, 0, 0, 0, 0, 0, 0, 24]
  {
    LengthOfAbc();
    hide Length64, Zeros;
  }

  /** Byte `i` of the padded message. */
  function ByteOfAbc(i: nat): byte {
    if i == 0 then 0x61 else if i == 1 then 0x62 else if i == 2 then 0x63 else if i == 3 then 0x80
    else if i == 63 then 24 else 0
  }

  lemma BytesOfPadded(i: nat)
    requires i < 64
    ensures |Pad([0x61, 0x62, 0x63])| == 64 && Pad([0x61, 0x62, 0x63])[i] == ByteOfAbc(i)
  {
    PaddedAbc();
    ZerosAre(52);
    hide Pad, Zeros;
  }

  lemma WordOfAbc(j: nat)
    requires j < 16
    ensures BigEndian(ByteOfAbc(4 * j), ByteOfAbc(4 * j + 1), ByteOfAbc(4 * j + 2), ByteOfAbc(4 * j + 3))
      == if j == 0 then 0x61626380 else if j == 15 then 24 else 0
  {
    assert BigEndian(0x61, 0x62, 0x63, 0x80) == 0x61626380 && BigEndian(0, 0, 0, 24) == 24 && BigEndian(0, 0, 0, 0) == 0;
    hide BigEndian;
  }

  lemma WordsOfAbc()
    ensures |Pad([0x61, 0x62, 0x63])| == 64 && Abc(Words(Pad([0x61, 0x62, 0x63])))
  {
    var s := Pad([0x61, 0x62, 0x63]);
    BytesOfPadded(0);
    hide Pad, Words, BigEndian, ByteOfAbc;
    forall j: nat | j < 16
      ensures Words(s)[j] == if j == 0 then 0x61626380 else if j == 15 then 24 else 0
    {
      BytesOfPadded(4 * j);
      BytesOfPadded(4 * j + 1);
      BytesOfPadded(4 * j + 2);
      BytesOfPadded(4 * j + 3);
      WordAt(s, j);
      WordOfAbc(j);
    }
  }

  lemma WordAt(s: seq<byte>, j: nat)
    requires |s| == 64 && j < 16
    ensures Words(s)[j] == BigEndian(s[4 * j], s[4 * j + 1], s[4 * j + 2], s[4 * j + 3])
  {
  }

  lemma BytesOfAbc()
    ensures HashBytes(Hash(0xa9993e36, 0x4706816a, 0xba3e2571, 0x7850c26c, 0x9cd0d89d)) ==
      [0xa9, 0x99, 0x3e, 0x36, 0x47, 0x06, 0x81, 0x6a, 0xba, 0x3e, 0x25, 0x71, 0x78, 0x50, 0xc2, 0x6c, 0x9c, 0xd0, 0xd8, 0x9d]
  {
    assert WordBytes(0xa9993e36) == [0xa9, 0x99, 0x3e, 0x36];
    assert WordBytes(0x4706816a) == [0x47, 0x06, 0x81, 0x6a];
    assert WordBytes(0xba3e2571) == [0xba, 0x3e, 0x25, 0x71];
    assert WordBytes(0x7850c26c) == [0x78, 0x50, 0xc2, 0x6c];
    assert WordBytes(0x9cd0d89d) == [0x9c, 0xd0, 0xd8, 0x9d];
    hide WordBytes;
  }

  lemma CompressedAbc(m: seq<word>)
    requires Abc(m)
    ensures Compress(H0, m) == Hash(0xa9993e36, 0x4706816a, 0xba3e2571, 0x7850c26c, 0x9cd0d89d)
  {
    Rounds80(m);
    hide Rounds;
  }

  lemma OneBlock(s: seq<byte>)
    requires |s| == 64
    ensures Chain(s) == Compress(H0, Words(s))
  {
    hide Compress, Words;
    assert s[..0] == [] && s[0..] == s;
  }

  lemma DigestOfAbc()
    ensures Digest([0x61, 0x62, 0x63]) ==
      [0xa9, 0x99, 0x3e, 0x36, 0x47, 0x06, 0x81, 0x6a, 0xba, 0x3e, 0x25, 0x71, 0x78, 0x50, 0xc2, 0x6c, 0x9c, 0xd0, 0xd8, 0x9d]
  {
    hide Pad, Words, Chain, HashBytes, Compress, Abc;
    WordsOfAbc();
    OneBlock(Pad([0x61, 0x62, 0x63]));
    CompressedAbc(Words(Pad([0x61, 0x62, 0x63])));
    BytesOfAbc();
  }
}
