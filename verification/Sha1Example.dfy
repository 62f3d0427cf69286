/**
  The digest of "abc", as the examples of FIPS 180 for SHA-1 give it: the
  definitions of Sha1Standard, evaluated round by round.
 */
module Sha1Example {
  import opened Sha1Standard

  function Scheduled0(t: nat): word {
    match t
    case 0 => 0x61626380 case 1 => 0x00000000 case 2 => 0x00000000 case 3 => 0x00000000
    case 4 => 0x00000000 case 5 => 0x00000000 case 6 => 0x00000000 case 7 => 0x00000000
    case 8 => 0x00000000 case 9 => 0x00000000 case 10 => 0x00000000 case 11 => 0x00000000
    case 12 => 0x00000000 case 13 => 0x00000000 case 14 => 0x00000000 case 15 => 0x00000018
    case _ => 0
  }

  function Scheduled16(t: nat): word {
    match t
    case 16 => 0xc2c4c700 case 17 => 0x00000000 case 18 => 0x00000030 case 19 => 0x85898e01
    case 20 => 0x00000000 case 21 => 0x00000060 case 22 => 0x0b131c03 case 23 => 0x00000030
    case 24 => 0x85898ec1 case 25 => 0x16263806 case 26 => 0x00000000 case 27 => 0x00000180
    case 28 => 0x2c4c700c case 29 => 0x000000f0 case 30 => 0x93afb507 case 31 => 0x5898e048
    case _ => 0
  }

  function Scheduled32(t: nat): word {
    match t
    case 32 => 0x8e9a9202 case 33 => 0x00000600 case 34 => 0xb131c0f0 case 35 => 0x16263bc6
    case 36 => 0x4ebed41e case 37 => 0x626380a1 case 38 => 0x16263806 case 39 => 0x000018c0
    case 40 => 0xd2e138c4 case 41 => 0x00000f00 case 42 => 0x3afb5079 case 43 => 0x898e04e5
    case 44 => 0xe2ba3c2b case 45 => 0x000060c0 case 46 => 0x053a37cd case 47 => 0x74458547
    case _ => 0
  }

  function Scheduled48(t: nat): word {
    match t
    case 48 => 0xda9415ed case 49 => 0x26380a16 case 50 => 0x626383a1 case 51 => 0x4ebf54de
    case 52 => 0x3835b44b case 53 => 0x0000f600 case 54 => 0x1e84c7a3 case 55 => 0x98e04d98
    case 56 => 0x651d16a0 case 57 => 0x62658ca1 case 58 => 0x458544d6 case 59 => 0x44584cb7
    case 60 => 0x7ba06619 case 61 => 0x6380aea2 case 62 => 0x0ae55269 case 63 => 0x627b49a1
    case _ => 0
  }

  function Scheduled64(t: nat): word {
    match t
    case 64 => 0x7cd45c9d case 65 => 0x000f0000 case 66 => 0xfb50753a case 67 => 0xec6765e8
    case 68 => 0xba3c2be2 case 69 => 0x0060c000 case 70 => 0x3a37cd05 case 71 => 0x458546f4
    case 72 => 0xb8599dd6 case 73 => 0x380a1a26 case 74 => 0x01e02203 case 75 => 0xe7cc3456
    case 76 => 0xe6e60b69 case 77 => 0x00f60a00 case 78 => 0x5795ef4f case 79 => 0x822e0879
    case _ => 0
  }

  /** The words of the message schedule. */
  function Scheduled(t: nat): word {
    if t < 16 then Scheduled0(t) else if t < 32 then Scheduled16(t) else if t < 48 then Scheduled32(t) else if t < 64 then Scheduled48(t) else Scheduled64(t)
  }

  function Value0(t: nat): word {
    match t
    case 0 => 0x0f4b87c3 case 1 => 0x40c951d8 case 2 => 0x62eb73fa case 3 => 0xefcdab89
    case 4 => 0x67452301 case 5 => 0x0116fc33 case 6 => 0x8990536d case 7 => 0xa1390f08
    case 8 => 0xcdd8e11b case 9 => 0xcfd499de case 10 => 0x3fc7ca40 case 11 => 0x993e30c1
    case 12 => 0x9e8c07d4 case 13 => 0x4b6ae328 case 14 => 0x8351f929 case 15 => 0xfbda9e89
    case 16 => 0x63188fe4
    case _ => 0
  }

  function Value17(t: nat): word {
    match t
    case 17 => 0x4607b664 case 18 => 0x9128f695 case 19 => 0x196bee77 case 20 => 0x20bdd62f
    case 21 => 0x4e925823 case 22 => 0x82aa6728 case 23 => 0xdc64901d case 24 => 0xfd9e1d7d
    case 25 => 0x1a37b0ca case 26 => 0x33a23bfc case 27 => 0x21283486 case 28 => 0xd541f12d
    case 29 => 0xc7567dc6 case 30 => 0x48413ba4 case 31 => 0xbe35fbd5 case 32 => 0x4aa84d97
    case 33 => 0x8370b52e
    case _ => 0
  }

  function Value34(t: nat): word {
    match t
    case 34 => 0xc5fbaf5d case 35 => 0x1267b407 case 36 => 0x3b845d33 case 37 => 0x046faa0a
    case 38 => 0x2c0ebc11 case 39 => 0x21796ad4 case 40 => 0xdcbbb0cb case 41 => 0x0f511fd8
    case 42 => 0xdc63973f case 43 => 0x4c986405 case 44 => 0x32de1cba case 45 => 0xfc87dedf
    case 46 => 0x970a0d5c case 47 => 0x7f193dc5 case 48 => 0xee1b1aaf case 49 => 0x40f28e09
    case 50 => 0x1c51e1f2
    case _ => 0
  }

  function Value51(t: nat): word {
    match t
    case 51 => 0xa01b846c case 52 => 0xbead02ca case 53 => 0xbaf39337 case 54 => 0x120731c5
    case 55 => 0x641db2ce case 56 => 0x3847ad66 case 57 => 0xe490436d case 58 => 0x27e9f1d8
    case 59 => 0x7b71f76d case 60 => 0x5e6456af case 61 => 0xc846093f case 62 => 0xd262ff50
    case 63 => 0x09d785fd case 64 => 0x3f52de5a case 65 => 0xd756c147 case 66 => 0x548c9cb2
    case 67 => 0xb66c020b
    case _ => 0
  }

  function Value68(t: nat): word {
    match t
    case 68 => 0x6b61c9e1 case 69 => 0x19dfa7ac case 70 => 0x101655f9 case 71 => 0x0c3df2b4
    case 72 => 0x78dd4d2b case 73 => 0x497093c0 case 74 => 0x3f2588c2 case 75 => 0xc199f8c7
    case 76 => 0x39859de7 case 77 => 0xedb42de4 case 78 => 0x11793f6f case 79 => 0x5ee76897
    case 80 => 0x63f7dab7 case 81 => 0xa079b7d9 case 82 => 0x860d21cc case 83 => 0x5738d5e1
    case 84 => 0x42541b35
    case _ => 0
  }

  /** The variable `a` before round `t`, under `t + 4`; the other variables are earlier values of it. */
  function Value(t: nat): word {
    if t < 17 then Value0(t) else if t < 34 then Value17(t) else if t < 51 then Value34(t) else if t < 68 then Value51(t) else Value68(t)
  }

  /** "abc" */
  const ABC: seq<bv8> := [0x61, 0x62, 0x63]

  /** The block that "abc" is padded to. */
  function Padded(): Block {
    ToBlock(ABC + [0x80] + Zeros(52) + [0, 0, 0, 0, 0, 0, 0, 24])
  }

  ghost predicate WordsUpTo(n: nat) {
    forall t: nat :: t < n ==> W(Padded(), t) == Scheduled(t)
  }

  lemma FirstWords()
    ensures WordsUpTo(16)
  {
    var bytes := ABC + [0x80] + Zeros(52) + [0, 0, 0, 0, 0, 0, 0, 24];
    assert Padded()[0] == Word(0x61, 0x62, 0x63, 0x80);
    assert Padded()[15] == Word(0, 0, 0, 24);
    forall t: nat | 0 < t < 15
      ensures Padded()[t] == Word(0, 0, 0, 0) == 0
    {
      assert bytes[4 * t] == 0 && bytes[4 * t + 1] == 0 && bytes[4 * t + 2] == 0 && bytes[4 * t + 3] == 0;
    }
  }

  /** How the schedule makes a word from four earlier ones. */
  function Mixed(a: word, b: word, c: word, d: word): word {
    Rotl(a ^ b ^ c ^ d, 1)
  }

  lemma NextWord(t: nat)
    requires 16 <= t < 80 && WordsUpTo(t)
    requires Scheduled(t) == Mixed(Scheduled(t - 3), Scheduled(t - 8), Scheduled(t - 14), Scheduled(t - 16))
    ensures WordsUpTo(t + 1)
  {
    hide *;
    WordIsMade(Padded(), t);
    WordAt(t, t - 3);
    WordAt(t, t - 8);
    WordAt(t, t - 14);
    WordAt(t, t - 16);
    OneMoreWord(t);
  }

  lemma WordAt(n: nat, t: nat)
    requires t < n && WordsUpTo(n)
    ensures W(Padded(), t) == Scheduled(t)
  {
    hide Scheduled, Padded, W;
  }

  lemma OneMoreWord(t: nat)
    requires WordsUpTo(t) && W(Padded(), t) == Scheduled(t)
    ensures WordsUpTo(t + 1)
  {
    hide Scheduled, Padded, W;
  }

  lemma WordIsMade(m: Block, t: nat)
    requires t >= 16
    ensures W(m, t) == Mixed(W(m, t - 3), W(m, t - 8), W(m, t - 14), W(m, t - 16))
  {
    hide Rotl;
  }

  lemma Words16To31()
    requires WordsUpTo(16)
    ensures WordsUpTo(32)
  {
    hide WordsUpTo;
    NextWord(16); NextWord(17); NextWord(18); NextWord(19); NextWord(20); NextWord(21); NextWord(22); NextWord(23);
    NextWord(24); NextWord(25); NextWord(26); NextWord(27); NextWord(28); NextWord(29); NextWord(30); NextWord(31);
  }

  lemma Words32To47()
    requires WordsUpTo(32)
    ensures WordsUpTo(48)
  {
    hide WordsUpTo;
    NextWord(32); NextWord(33); NextWord(34); NextWord(35); NextWord(36); NextWord(37); NextWord(38); NextWord(39);
    NextWord(40); NextWord(41); NextWord(42); NextWord(43); NextWord(44); NextWord(45); NextWord(46); NextWord(47);
  }

  lemma Words48To63()
    requires WordsUpTo(48)
    ensures WordsUpTo(64)
  {
    hide WordsUpTo;
    NextWord(48); NextWord(49); NextWord(50); NextWord(51); NextWord(52); NextWord(53); NextWord(54); NextWord(55);
    NextWord(56); NextWord(57); NextWord(58); NextWord(59); NextWord(60); NextWord(61); NextWord(62); NextWord(63);
  }

  lemma Words64To79()
    requires WordsUpTo(64)
    ensures WordsUpTo(80)
  {
    hide WordsUpTo;
    NextWord(64); NextWord(65); NextWord(66); NextWord(67); NextWord(68); NextWord(69); NextWord(70); NextWord(71);
    NextWord(72); NextWord(73); NextWord(74); NextWord(75); NextWord(76); NextWord(77); NextWord(78); NextWord(79);
  }

  // ----- The rounds

  function Reached(t: nat): State {
    State(Value(t + 4), Value(t + 3), Rotl(Value(t + 2), 30), Rotl(Value(t + 1), 30), Rotl(Value(t), 30))
  }

  ghost predicate Reaches(t: nat) {
    Rounds(INITIAL, Padded(), t) == Reached(t)
  }

  lemma NextRound(t: nat)
    requires t < 80 && WordsUpTo(80) && Reaches(t)
    requires Value(t + 5)
             == Sum5(Rotl(Value(t + 4), 5), F(t, Value(t + 3), Rotl(Value(t + 2), 30), Rotl(Value(t + 1), 30)),
                     Rotl(Value(t), 30), K(t), Scheduled(t))
    ensures Reaches(t + 1)
  {
    hide Value, Scheduled, Rotl, F, K, Sum5, Padded, W;
  }

  lemma Rounds0To3()
    requires WordsUpTo(80) && Reaches(0)
    ensures Reaches(4)
  {
    hide WordsUpTo, Reaches;
    NextRound(0); NextRound(1); NextRound(2); NextRound(3);
  }

  lemma Rounds4To7()
    requires WordsUpTo(80) && Reaches(4)
    ensures Reaches(8)
  {
    hide WordsUpTo, Reaches;
    NextRound(4); NextRound(5); NextRound(6); NextRound(7);
  }

  lemma Rounds8To11()
    requires WordsUpTo(80) && Reaches(8)
    ensures Reaches(12)
  {
    hide WordsUpTo, Reaches;
    NextRound(8); NextRound(9); NextRound(10); NextRound(11);
  }

  lemma Rounds12To15()
    requires WordsUpTo(80) && Reaches(12)
    ensures Reaches(16)
  {
    hide WordsUpTo, Reaches;
    NextRound(12); NextRound(13); NextRound(14); NextRound(15);
  }

  lemma Rounds16To19()
    requires WordsUpTo(80) && Reaches(16)
    ensures Reaches(20)
  {
    hide WordsUpTo, Reaches;
    NextRound(16); NextRound(17); NextRound(18); NextRound(19);
  }

  lemma Rounds20To23()
    requires WordsUpTo(80) && Reaches(20)
    ensures Reaches(24)
  {
    hide WordsUpTo, Reaches;
    NextRound(20); NextRound(21); NextRound(22); NextRound(23);
  }

  lemma Rounds24To27()
    requires WordsUpTo(80) && Reaches(24)
    ensures Reaches(28)
  {
    hide WordsUpTo, Reaches;
    NextRound(24); NextRound(25); NextRound(26); NextRound(27);
  }

  lemma Rounds28To31()
    requires WordsUpTo(80) && Reaches(28)
    ensures Reaches(32)
  {
    hide WordsUpTo, Reaches;
    NextRound(28); NextRound(29); NextRound(30); NextRound(31);
  }

  lemma Rounds32To35()
    requires WordsUpTo(80) && Reaches(32)
    ensures Reaches(36)
  {
    hide WordsUpTo, Reaches;
    NextRound(32); NextRound(33); NextRound(34); NextRound(35);
  }

  lemma Rounds36To39()
    requires WordsUpTo(80) && Reaches(36)
    ensures Reaches(40)
  {
    hide WordsUpTo, Reaches;
    NextRound(36); NextRound(37); NextRound(38); NextRound(39);
  }

  lemma Rounds40To43()
    requires WordsUpTo(80) && Reaches(40)
    ensures Reaches(44)
  {
    hide WordsUpTo, Reaches;
    NextRound(40); NextRound(41); NextRound(42); NextRound(43);
  }

  lemma Rounds44To47()
    requires WordsUpTo(80) && Reaches(44)
    ensures Reaches(48)
  {
    hide WordsUpTo, Reaches;
    NextRound(44); NextRound(45); NextRound(46); NextRound(47);
  }

  lemma Rounds48To51()
    requires WordsUpTo(80) && Reaches(48)
    ensures Reaches(52)
  {
    hide WordsUpTo, Reaches;
    NextRound(48); NextRound(49); NextRound(50); NextRound(51);
  }

  lemma Rounds52To55()
    requires WordsUpTo(80) && Reaches(52)
    ensures Reaches(56)
  {
    hide WordsUpTo, Reaches;
    NextRound(52); NextRound(53); NextRound(54); NextRound(55);
  }

  lemma Rounds56To59()
    requires WordsUpTo(80) && Reaches(56)
    ensures Reaches(60)
  {
    hide WordsUpTo, Reaches;
    NextRound(56); NextRound(57); NextRound(58); NextRound(59);
  }

  lemma Rounds60To63()
    requires WordsUpTo(80) && Reaches(60)
    ensures Reaches(64)
  {
    hide WordsUpTo, Reaches;
    NextRound(60); NextRound(61); NextRound(62); NextRound(63);
  }

  lemma Rounds64To67()
    requires WordsUpTo(80) && Reaches(64)
    ensures Reaches(68)
  {
    hide WordsUpTo, Reaches;
    NextRound(64); NextRound(65); NextRound(66); NextRound(67);
  }

  lemma Rounds68To71()
    requires WordsUpTo(80) && Reaches(68)
    ensures Reaches(72)
  {
    hide WordsUpTo, Reaches;
    NextRound(68); NextRound(69); NextRound(70); NextRound(71);
  }

  lemma Rounds72To75()
    requires WordsUpTo(80) && Reaches(72)
    ensures Reaches(76)
  {
    hide WordsUpTo, Reaches;
    NextRound(72); NextRound(73); NextRound(74); NextRound(75);
  }

  lemma Rounds76To79()
    requires WordsUpTo(80) && Reaches(76)
    ensures Reaches(80)
  {
    hide WordsUpTo, Reaches;
    NextRound(76); NextRound(77); NextRound(78); NextRound(79);
  }

  lemma AllRounds()
    ensures Rounds(INITIAL, Padded(), 80) == Reached(80)
  {
    assert Reaches(0);
    hide WordsUpTo;
    FirstWords();
    Words16To31();
    Words32To47();
    Words48To63();
    Words64To79();
    hide Rounds, Reached, Padded, INITIAL;
    Rounds0To3(); Rounds4To7(); Rounds8To11(); Rounds12To15(); Rounds16To19();
    Rounds20To23(); Rounds24To27(); Rounds28To31(); Rounds32To35(); Rounds36To39();
    Rounds40To43(); Rounds44To47(); Rounds48To51(); Rounds52To55(); Rounds56To59();
    Rounds60To63(); Rounds64To67(); Rounds68To71(); Rounds72To75(); Rounds76To79();
  }

  lemma Low24()
    ensures Low64(24) == 24
  {
    assert 24 % 0x1_0000_0000_0000_0000 == 24;
  }

  lemma BytesOf24()
    ensures Bytes64(24) == [0, 0, 0, 0, 0, 0, 0, 24]
  {
  }

  lemma LengthOfAbc()
    ensures BitLength(ABC) == 24
  {
    hide Low64;
    Low24();
  }

  lemma PaddedAbc()
    ensures Pad(ABC) == ABC + [0x80] + Zeros(52) + [0, 0, 0, 0, 0, 0, 0, 24]
  {
    LengthOfAbc();
    BytesOf24();
    hide BitLength, Bytes64, Zeros;
  }

  lemma HashOneBlock(bytes: seq<bv8>)
    requires |bytes| == 64
    ensures HashBlocks(INITIAL, bytes) == Compress(INITIAL, ToBlock(bytes))
  {
    hide Compress, ToBlock;
    assert bytes[..0] == [] && bytes[0..] == bytes;
    assert HashBlocks(INITIAL, []) == INITIAL;
  }

  lemma OneBlock()
    ensures Sha1(ABC) == Compress(INITIAL, Padded())
  {
    hide Compress, ToBlock, HashBlocks, Pad, Zeros;
    PaddedAbc();
    HashOneBlock(Pad(ABC));
  }

  /** The digest of "abc". */
  lemma DigestOfAbc()
    ensures Sha1(ABC) == State(0xa9993e36, 0x4706816a, 0xba3e2571, 0x7850c26c, 0x9cd0d89d)
  {
    hide Rounds, Padded, Reached, Sum, INITIAL, Sha1;
    OneBlock();
    AllRounds();
    LastVariables();
    LastSum();
  }

  lemma LastVariables()
    ensures Reached(80) == State(0x42541b35, 0x5738d5e1, 0x21834873, 0x681e6df6, 0xd8fdf6ad)
  {
  }

  lemma LastSum()
    ensures Sum(INITIAL, State(0x42541b35, 0x5738d5e1, 0x21834873, 0x681e6df6, 0xd8fdf6ad))
            == State(0xa9993e36, 0x4706816a, 0xba3e2571, 0x7850c26c, 0x9cd0d89d)
  {
  }
}
