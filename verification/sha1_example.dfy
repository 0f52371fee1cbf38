/** The message "abc", which is the first test of section 7.3 of RFC 3174: what the standard's functions give for it,
    worked out word by word and round by round. */
module Sha1Example {
  import opened Sha1Standard

  const ABC: seq<bv8> := [0x61, 0x62, 0x63]
  const BLOCK: Block := [0x61626380, 0, 0, 0, 0, 0, 0, 0, 0, 0, 0, 0, 0, 0, 0, 0x18]

  /** The schedule of its one block. */
  ghost function Words(): (ws: seq<bv32>)
    ensures |ws| == 80
  {
    seq(80, t requires 0 <= t < 80 => W(BLOCK, t))
  }

  lemma FirstWord(t: nat)
    requires t < 16
    ensures Words()[t] == BLOCK[t]
  {
  }

  lemma FirstWords()
    ensures var ws := Words();
            && ws[0] == 0x61626380 && ws[1] == ws[2] == ws[3] == ws[4] == ws[5] == ws[6] == ws[7] == 0
            && ws[8] == ws[9] == ws[10] == ws[11] == ws[12] == ws[13] == ws[14] == 0 && ws[15] == 0x18
  {
    hide Words;
    forall t | 0 <= t < 16
      ensures Words()[t] == BLOCK[t]
    {
      FirstWord(t);
    }
  }

  lemma NextWord(t: nat)
    requires 16 <= t < 80
    ensures Words()[t] == Mix(Words()[t - 3], Words()[t - 8], Words()[t - 14], Words()[t - 16])
  {
    hide Mix;
    assert Words()[t] == W(BLOCK, t);
  }

  lemma FourWords(t: nat)
    requires 16 <= t < 77
    ensures Words()[t] == Mix(Words()[t - 3], Words()[t - 8], Words()[t - 14], Words()[t - 16])
    ensures Words()[t + 1] == Mix(Words()[t - 2], Words()[t - 7], Words()[t - 13], Words()[t - 15])
    ensures Words()[t + 2] == Mix(Words()[t - 1], Words()[t - 6], Words()[t - 12], Words()[t - 14])
    ensures Words()[t + 3] == Mix(Words()[t], Words()[t - 5], Words()[t - 11], Words()[t - 13])
  {
    hide Words, Mix;
    NextWord(t);
    NextWord(t + 1);
    NextWord(t + 2);
    NextWord(t + 3);
  }

  lemma Words16()
    ensures var ws := Words();
            && ws[16] == 0xc2c4c700 && ws[17] == 0x00000000 && ws[18] == 0x00000030 && ws[19] == 0x85898e01
            && ws[20] == 0x00000000 && ws[21] == 0x00000060 && ws[22] == 0x0b131c03 && ws[23] == 0x00000030
            && ws[24] == 0x85898ec1 && ws[25] == 0x16263806 && ws[26] == 0x00000000 && ws[27] == 0x00000180
            && ws[28] == 0x2c4c700c && ws[29] == 0x000000f0 && ws[30] == 0x93afb507 && ws[31] == 0x5898e048
  {
    hide Words;
    FirstWords();
    FourWords(16);
    FourWords(20);
    FourWords(24);
    FourWords(28);
  }

  lemma Words32()
    ensures var ws := Words();
            && ws[32] == 0x8e9a9202 && ws[33] == 0x00000600 && ws[34] == 0xb131c0f0 && ws[35] == 0x16263bc6
            && ws[36] == 0x4ebed41e && ws[37] == 0x626380a1 && ws[38] == 0x16263806 && ws[39] == 0x000018c0
            && ws[40] == 0xd2e138c4 && ws[41] == 0x00000f00 && ws[42] == 0x3afb5079 && ws[43] == 0x898e04e5
            && ws[44] == 0xe2ba3c2b && ws[45] == 0x000060c0 && ws[46] == 0x053a37cd && ws[47] == 0x74458547
  {
    hide Words;
    Words16();
    FourWords(32);
    FourWords(36);
    FourWords(40);
    FourWords(44);
  }

  lemma Words48()
    ensures var ws := Words();
            && ws[48] == 0xda9415ed && ws[49] == 0x26380a16 && ws[50] == 0x626383a1 && ws[51] == 0x4ebf54de
            && ws[52] == 0x3835b44b && ws[53] == 0x0000f600 && ws[54] == 0x1e84c7a3 && ws[55] == 0x98e04d98
            && ws[56] == 0x651d16a0 && ws[57] == 0x62658ca1 && ws[58] == 0x458544d6 && ws[59] == 0x44584cb7
            && ws[60] == 0x7ba06619 && ws[61] == 0x6380aea2 && ws[62] == 0x0ae55269 && ws[63] == 0x627b49a1
  {
    hide Words;
    Words32();
    FourWords(48);
    FourWords(52);
    FourWords(56);
    FourWords(60);
  }

  lemma Words64()
    ensures var ws := Words();
            && ws[64] == 0x7cd45c9d && ws[65] == 0x000f0000 && ws[66] == 0xfb50753a && ws[67] == 0xec6765e8
            && ws[68] == 0xba3c2be2 && ws[69] == 0x0060c000 && ws[70] == 0x3a37cd05 && ws[71] == 0x458546f4
            && ws[72] == 0xb8599dd6 && ws[73] == 0x380a1a26 && ws[74] == 0x01e02203 && ws[75] == 0xe7cc3456
            && ws[76] == 0xe6e60b69 && ws[77] == 0x00f60a00 && ws[78] == 0x5795ef4f && ws[79] == 0x822e0879
  {
    hide Words;
    Words48();
    FourWords(64);
    FourWords(68);
    FourWords(72);
    FourWords(76);
  }

  lemma NextRound(t: nat)
    requires t < 80
    ensures Rounds(IV, BLOCK, t + 1) == Step(Rounds(IV, BLOCK, t), t, Words()[t])
  {
    hide Step, W;
  }

  lemma FiveRounds(t: nat)
    requires t <= 75
    ensures Rounds(IV, BLOCK, t + 1) == Step(Rounds(IV, BLOCK, t), t, Words()[t])
    ensures Rounds(IV, BLOCK, t + 2) == Step(Rounds(IV, BLOCK, t + 1), t + 1, Words()[t + 1])
    ensures Rounds(IV, BLOCK, t + 3) == Step(Rounds(IV, BLOCK, t + 2), t + 2, Words()[t + 2])
    ensures Rounds(IV, BLOCK, t + 4) == Step(Rounds(IV, BLOCK, t + 3), t + 3, Words()[t + 3])
    ensures Rounds(IV, BLOCK, t + 5) == Step(Rounds(IV, BLOCK, t + 4), t + 4, Words()[t + 4])
  {
    hide Rounds, Step, Words;
    NextRound(t);
    NextRound(t + 1);
    NextRound(t + 2);
    NextRound(t + 3);
    NextRound(t + 4);
  }

  lemma NoRounds()
    ensures Rounds(IV, BLOCK, 0) == IV
  {
  }

  lemma Rounds20()
    ensures Rounds(IV, BLOCK, 20) == Regs(0xfd9e1d7d, 0xdc64901d, 0x20aa99ca, 0xd3a49608, 0xc82f758b)
  {
    hide Rounds, Words;
    NoRounds();
    FirstWords();
    Words16();
    FiveRounds(0);
    assert Rounds(IV, BLOCK, 5) == Regs(0xcfd499de, 0xcdd8e11b, 0x284e43c2, 0x626414db, 0xc045bf0c);
    FiveRounds(5);
    assert Rounds(IV, BLOCK, 10) == Regs(0x8351f929, 0x4b6ae328, 0x27a301f5, 0x664f8c30, 0x0ff1f290);
    FiveRounds(10);
    assert Rounds(IV, BLOCK, 15) == Regs(0x196bee77, 0x9128f695, 0x1181ed99, 0x18c623f9, 0x7ef6a7a2);
    FiveRounds(15);
  }

  lemma Rounds40()
    ensures Rounds(IV, BLOCK, 40) == Regs(0x32de1cba, 0x4c986405, 0xf718e5cf, 0x03d447f6, 0xf72eec32)
  {
    hide Rounds, Words;
    Rounds20();
    Words16();
    Words32();
    FiveRounds(20);
    assert Rounds(IV, BLOCK, 25) == Regs(0xc7567dc6, 0xd541f12d, 0x884a0d21, 0x0ce88eff, 0x868dec32);
    FiveRounds(25);
    assert Rounds(IV, BLOCK, 30) == Regs(0xc5fbaf5d, 0x8370b52e, 0xd2aa1365, 0x6f8d7ef5, 0x12104ee9);
    FiveRounds(30);
    assert Rounds(IV, BLOCK, 35) == Regs(0x21796ad4, 0x2c0ebc11, 0x811bea82, 0xcee1174c, 0xc499ed01);
    FiveRounds(35);
  }

  lemma Rounds60()
    ensures Rounds(IV, BLOCK, 60) == Regs(0x3f52de5a, 0x09d785fd, 0x3498bfd4, 0xf211824f, 0xd79915ab)
  {
    hide Rounds, Words;
    Rounds40();
    Words32();
    Words48();
    FiveRounds(40);
    assert Rounds(IV, BLOCK, 45) == Regs(0x40f28e09, 0xee1b1aaf, 0x5fc64f71, 0x25c28357, 0xff21f7b7);
    FiveRounds(45);
    assert Rounds(IV, BLOCK, 50) == Regs(0x120731c5, 0xbaf39337, 0xafab40b2, 0x2806e11b, 0x8714787c);
    FiveRounds(50);
    assert Rounds(IV, BLOCK, 55) == Regs(0x7b71f76d, 0x27e9f1d8, 0x792410db, 0x8e11eb59, 0x99076cb3);
    FiveRounds(55);
  }

  lemma Rounds80()
    ensures Rounds(IV, BLOCK, 80) == Regs(0x42541b35, 0x5738d5e1, 0x21834873, 0x681e6df6, 0xd8fdf6ad)
  {
    hide Rounds, Words;
    Rounds60();
    Words48();
    Words64();
    FiveRounds(60);
    assert Rounds(IV, BLOCK, 65) == Regs(0x19dfa7ac, 0x6b61c9e1, 0xed9b0082, 0x9523272c, 0xf5d5b051);
    FiveRounds(65);
    assert Rounds(IV, BLOCK, 70) == Regs(0x3f2588c2, 0x497093c0, 0xde37534a, 0x030f7cad, 0x4405957e);
    FiveRounds(70);
    assert Rounds(IV, BLOCK, 75) == Regs(0x5ee76897, 0x11793f6f, 0x3b6d0b79, 0xce616779, 0xf0667e31);
    FiveRounds(75);
  }

  lemma Powers()
    ensures Power256(0) == 1 && Power256(1) == 256 && Power256(2) == 0x1_0000 && Power256(3) == 0x100_0000
  {
  }

  lemma SmallBytes(n: nat)
    requires n < 256
    ensures Bytes32(n) == [Byte(0), Byte(0), Byte(0), Byte(n)]
  {
    hide Power256, Byte;
    Powers();
  }

  lemma CountBytes()
    ensures Bytes64(24) == [0, 0, 0, 0, 0, 0, 0, 0x18]
  {
    hide Bytes32;
    SmallBytes(0);
    SmallBytes(24);
  }

  lemma PaddedBytes()
    ensures var p := Pad(ABC);
            && |p| == 64 && p[0] == 0x61 && p[1] == 0x62 && p[2] == 0x63 && p[3] == 0x80 && p[63] == 0x18
            && forall i :: 4 <= i < 63 ==> p[i] == 0
  {
    hide Bytes64;
    CountBytes();
  }

  /** Its padding makes one block. */
  lemma OneBlock()
    ensures |Pad(ABC)| == 64 && Parse(Pad(ABC)) == BLOCK
  {
    hide Pad;
    PaddedBytes();
    var p := Parse(Pad(ABC));
    assert p[0] == 0x61626380 && p[15] == 0x18;
    assert forall i :: 1 <= i < 15 ==> p[i] == 0;
  }

  lemma AbcHash()
    ensures HashBlocks(Pad(ABC)) == Regs(0xa9993e36, 0x4706816a, 0xba3e2571, 0x7850c26c, 0x9cd0d89d)
  {
    hide Rounds, Pad, Parse;
    OneBlock();
    Rounds80();
    assert Pad(ABC)[..0] == [] && Pad(ABC)[0..] == Pad(ABC);
  }

  lemma HashBytes()
    ensures BytesOf(0xa9993e36) == [0x36, 0x3e, 0x99, 0xa9] && BytesOf(0x4706816a) == [0x6a, 0x81, 0x06, 0x47]
    ensures BytesOf(0xba3e2571) == [0x71, 0x25, 0x3e, 0xba] && BytesOf(0x7850c26c) == [0x6c, 0xc2, 0x50, 0x78]
    ensures BytesOf(0x9cd0d89d) == [0x9d, 0xd8, 0xd0, 0x9c]
  {
  }

  lemma DigestByte(h: Regs, k: nat, j: nat)
    requires k < 5 && j < 4
    ensures |Digest(h)| == 20 && Digest(h)[4 * k + j] == BytesOf(h.Words()[k])[3 - j]
  {
    hide ByteOf;
    assert (4 * k + j) / 4 == k && (4 * k + j) % 4 == j;
  }

  lemma DigestWord(h: Regs, k: nat)
    requires k < 5
    ensures |Digest(h)| == 20
    ensures Digest(h)[4 * k] == BytesOf(h.Words()[k])[3] && Digest(h)[4 * k + 1] == BytesOf(h.Words()[k])[2]
    ensures Digest(h)[4 * k + 2] == BytesOf(h.Words()[k])[1] && Digest(h)[4 * k + 3] == BytesOf(h.Words()[k])[0]
  {
    hide ByteOf, Digest;
    DigestByte(h, k, 0);
    DigestByte(h, k, 1);
    DigestByte(h, k, 2);
    DigestByte(h, k, 3);
  }

  /** The digest of "abc" is the one that section 7.3 of RFC 3174 lists. */
  lemma AbcDigest()
    ensures Sha1(ABC) == [0xa9, 0x99, 0x3e, 0x36, 0x47, 0x06, 0x81, 0x6a, 0xba, 0x3e,
                          0x25, 0x71, 0x78, 0x50, 0xc2, 0x6c, 0x9c, 0xd0, 0xd8, 0x9d]
  {
    hide HashBlocks, Pad, Digest, BytesOf;
    var h := HashBlocks(Pad(ABC));
    AbcHash();
    HashBytes();
    DigestWord(h, 0);
    DigestWord(h, 1);
    DigestWord(h, 2);
    DigestWord(h, 3);
    DigestWord(h, 4);
  }
}
