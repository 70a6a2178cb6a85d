/** Known answers: FIPS 180-4 evaluated on the messages the standard is published with, and one chap-sha1 answer. The
    octets and words are literals, so they fix every constant, rotation and byte order of the definitions. */
module Sha1Vectors {
  import opened Sha1Spec
  import Scramble

  /** The constants are the integer parts of 2^30 times the square roots of 2, 3, 5 and 10. */
  lemma ConstantLaw(t: nat)
    ensures var n := if t < 20 then 2 else if t < 40 then 3 else if t < 60 then 5 else 10;
            var k := K(t) as nat;
            k * k <= n * 0x1000_0000_0000_0000 < (k + 1) * (k + 1)
  {
  }

  // ---------------------------------------------------------------- evaluating a block

  datatype Four = Four(a: bv32, b: bv32, c: bv32, d: bv32)

  /** Sixteen consecutive words of the schedule, and the working variables before the first of their rounds. */
  datatype Stage = Stage(p: Four, q: Four, r: Four, s: Four, v: Regs)

  function NextWords(p: Four, q: Four, r: Four, s: Four): Four
  {
    var a := Rotl1(Xor4(s.b, r.a, p.c, p.a));
    Four(a, Rotl1(Xor4(s.c, r.b, p.d, p.b)), Rotl1(Xor4(s.d, r.c, q.a, p.c)), Rotl1(Xor4(a, r.d, q.b, p.d)))
  }

  function FourRounds(v: Regs, t: nat, w: Four): Regs
  {
    Step(Step(Step(Step(v, t, w.a), t + 1, w.b), t + 2, w.c), t + 3, w.d)
  }

  function Advance(x: Stage, t: nat): Stage
  {
    Stage(x.q, x.r, x.s, NextWords(x.p, x.q, x.r, x.s), FourRounds(x.v, t, x.p))
  }

  function Sixteen(x: Stage, t: nat): Stage
  {
    Advance(Advance(Advance(Advance(x, t), t + 4), t + 8), t + 12)
  }

  function WordsFrom(m: seq<bv32>, t: nat): Four
    requires |m| == 16
  {
    Four(W(m, t), W(m, t + 1), W(m, t + 2), W(m, t + 3))
  }

  /** `x` is where the computation of the standard stands before round `t`. */
  ghost predicate Reached(m: seq<bv32>, h: Regs, t: nat, x: Stage)
    requires |m| == 16
  {
    && x.p == WordsFrom(m, t) && x.q == WordsFrom(m, t + 4) && x.r == WordsFrom(m, t + 8)
    && x.s == WordsFrom(m, t + 12) && x.v == Rounds(m, h, t)
  }

  lemma WordStep(m: seq<bv32>, t: nat)
    requires |m| == 16
    ensures W(m, t + 16) == Rotl1(Xor4(W(m, t + 13), W(m, t + 8), W(m, t + 2), W(m, t)))
  {
    hide Rotl1, Xor4;
  }

  lemma RoundStep(m: seq<bv32>, h: Regs, t: nat)
    requires |m| == 16
    ensures Rounds(m, h, t + 1) == Step(Rounds(m, h, t), t, W(m, t))
  {
    hide Step, W;
  }

  lemma AdvanceReaches(m: seq<bv32>, h: Regs, t: nat, x: Stage)
    requires |m| == 16 && Reached(m, h, t, x)
    ensures Reached(m, h, t + 4, Advance(x, t))
  {
    hide W, Rounds, Step, Rotl1, Xor4;
    WordStep(m, t);
    WordStep(m, t + 1);
    WordStep(m, t + 2);
    WordStep(m, t + 3);
    RoundStep(m, h, t);
    RoundStep(m, h, t + 1);
    RoundStep(m, h, t + 2);
    RoundStep(m, h, t + 3);
  }

  lemma SixteenReaches(m: seq<bv32>, h: Regs, t: nat, x: Stage)
    requires |m| == 16 && Reached(m, h, t, x)
    ensures Reached(m, h, t + 16, Sixteen(x, t))
  {
    hide Reached, Advance;
    AdvanceReaches(m, h, t, x);
    AdvanceReaches(m, h, t + 4, Advance(x, t));
    AdvanceReaches(m, h, t + 8, Advance(Advance(x, t), t + 4));
    AdvanceReaches(m, h, t + 12, Advance(Advance(Advance(x, t), t + 4), t + 8));
  }

  function Begin(m: seq<bv32>, h: Regs): Stage
    requires |m| == 16
  {
    Stage(Four(m[0], m[1], m[2], m[3]), Four(m[4], m[5], m[6], m[7]), Four(m[8], m[9], m[10], m[11]),
          Four(m[12], m[13], m[14], m[15]), h)
  }

  /** Eighty rounds, sixteen at a time, are the compression of the standard. */
  lemma EightyRounds(m: seq<bv32>, x0: Stage, x16: Stage, x32: Stage, x48: Stage, x64: Stage)
    requires |m| == 16 && Begin(m, x0.v) == x0 && Sixteen(x0, 0) == x16
    requires Sixteen(x16, 16) == x32 && Sixteen(x32, 32) == x48 && Sixteen(x48, 48) == x64
    ensures Compress(x0.v, m) == Added(x0.v, Sixteen(x64, 64).v)
  {
    hide Sixteen, Reached, Begin, Rounds, Added;
    BeginReached(m, x0.v);
    SixteenReaches(m, x0.v, 0, x0);
    SixteenReaches(m, x0.v, 16, x16);
    SixteenReaches(m, x0.v, 32, x32);
    SixteenReaches(m, x0.v, 48, x48);
    SixteenReaches(m, x0.v, 64, x64);
    ReachedRounds(m, x0.v, 80, Sixteen(x64, 64));
  }

  lemma ReachedRounds(m: seq<bv32>, h: Regs, t: nat, x: Stage)
    requires |m| == 16 && Reached(m, h, t, x)
    ensures x.v == Rounds(m, h, t)
  {
    hide Rounds, W;
  }

  lemma BeginReached(m: seq<bv32>, h: Regs)
    requires |m| == 16
    ensures Reached(m, h, 0, Begin(m, h))
  {
    hide Rotl1, Xor4;
  }

  // ---------------------------------------------------------------- padding

  /** The octets of words, most significant first. */
  function Spell(ws: seq<bv32>): (s: seq<Octet>)
    ensures |s| == 4 * |ws|
  {
    seq(4 * |ws|, k requires 0 <= k < 4 * |ws| => WordByte(ws[k / 4], k % 4))
  }

  function WordAt(s: seq<Octet>, i: nat): bv32
    requires 4 * i + 4 <= |s|
  {
    BigEndianWord(s[4 * i], s[4 * i + 1], s[4 * i + 2], s[4 * i + 3])
  }

  /** The words of a padded message of words: its own, the one bit, zeros, and the length in two words. */
  function PaddedWord(ws: seq<bv32>, i: nat): bv32
  {
    var all := |Pad(Spell(ws))| / 4;
    if i < |ws| then ws[i]
    else if i == |ws| then 0x8000_0000
    else if i < all - 2 then 0
    else WordAt(LengthBytes(32 * |ws|), if i == all - 2 then 0 else 1)
  }

  lemma PaddedWords(ws: seq<bv32>, i: nat)
    requires 4 * i + 4 <= |Pad(Spell(ws))|
    ensures WordAt(Pad(Spell(ws)), i) == PaddedWord(ws, i)
  {
    hide WordByte, BigEndianWord, LengthBytes, Spell, Pad;
    var msg := Spell(ws);
    PadLength(msg);
    if i < |ws| {
      OwnWord(ws, i);
    } else if i == |ws| {
      OneBitWord();
      PadOctets(msg, 4 * i);
      PadOctets(msg, 4 * i + 1);
      PadOctets(msg, 4 * i + 2);
      PadOctets(msg, 4 * i + 3);
    } else {
      ZeroWord();
      PadOctets(msg, 4 * i);
      PadOctets(msg, 4 * i + 1);
      PadOctets(msg, 4 * i + 2);
      PadOctets(msg, 4 * i + 3);
    }
  }

  lemma PadLength(msg: seq<Octet>)
    ensures |Pad(msg)| % 64 == 0 && |Pad(msg)| >= |msg| + 9
  {
  }

  /** What follows the message. */
  lemma PadOctets(msg: seq<Octet>, k: nat)
    requires |msg| <= k < |Pad(msg)|
    ensures var n := |Pad(msg)|;
            && n >= |msg| + 9
            && Pad(msg)[k] == if k == |msg| then 0x80 else if k < n - 8 then 0 else LengthBytes(8 * |msg|)[k - (n - 8)]
  {
    hide LengthBytes;
  }

  lemma OwnWord(ws: seq<bv32>, i: nat)
    requires i < |ws|
    ensures |Pad(Spell(ws))| >= 4 * |ws| && WordAt(Pad(Spell(ws)), i) == ws[i]
  {
    hide WordByte, BigEndianWord, LengthBytes;
    WordBytesSpell(ws[i]);
    var msg := Spell(ws);
    assert msg[4 * i] == WordByte(ws[i], 0) && msg[4 * i + 1] == WordByte(ws[i], 1);
    assert msg[4 * i + 2] == WordByte(ws[i], 2) && msg[4 * i + 3] == WordByte(ws[i], 3);
    assert msg <= Pad(msg);
  }

  lemma OneBitWord()
    ensures BigEndianWord(0x80, 0, 0, 0) == 0x8000_0000
  {
  }

  lemma ZeroWord()
    ensures BigEndianWord(0, 0, 0, 0) == 0
  {
  }

  /** The length field of a short message. */
  lemma ShortLength(bits: nat)
    requires bits < 0x1_0000
    ensures LengthBytes(bits) == [0, 0, 0, 0, 0, 0, OctetOf(bits / 256), OctetOf(bits % 256)]
  {
    hide OctetOf;
    assert OctetOf(0) == 0 by { NoOctet(); }
    assert forall i :: 0 <= i < 6 ==> bits / Shift(i) == 0;
    assert Shift(6) == 256 && Shift(7) == 1 && bits / 256 % 256 == bits / 256;
  }

  lemma NoOctet()
    ensures OctetOf(0) == 0
  {
  }

  lemma OneBlock(msg: seq<Octet>)
    requires |Pad(msg)| == 64
    ensures Sha1(msg) == DigestOf(Compress(INITIAL, ParseBlock(Pad(msg))))
  {
    hide Compress, ParseBlock, Pad;
    var p := Pad(msg);
    assert p[..0] == [] && p[0..] == p;
    assert HashBlocks([]) == INITIAL;
  }

  lemma TwoBlocks(msg: seq<Octet>)
    requires |Pad(msg)| == 128
    ensures var p := Pad(msg);
            Sha1(msg) == DigestOf(Compress(Compress(INITIAL, ParseBlock(p[..64])), ParseBlock(p[64..])))
  {
    hide Compress, ParseBlock, Pad;
    var p := Pad(msg);
    assert p[..64][..0] == [] && p[..64][0..] == p[..64];
    assert HashBlocks([]) == INITIAL;
    assert HashBlocks(p[..64]) == Compress(INITIAL, ParseBlock(p[..64]));
  }

  // ---------------------------------------------------------------- "abc"

  const ABC_0 := Stage(
    Four(0x61626380, 0x00000000, 0x00000000, 0x00000000), Four(0x00000000, 0x00000000, 0x00000000, 0x00000000),
    Four(0x00000000, 0x00000000, 0x00000000, 0x00000000), Four(0x00000000, 0x00000000, 0x00000000, 0x00000018),
    INITIAL)

  const ABC_16 := Stage(
    Four(0xc2c4c700, 0x00000000, 0x00000030, 0x85898e01), Four(0x00000000, 0x00000060, 0x0b131c03, 0x00000030),
    Four(0x85898ec1, 0x16263806, 0x00000000, 0x00000180), Four(0x2c4c700c, 0x000000f0, 0x93afb507, 0x5898e048),
    Regs(0x20bdd62f, 0x196bee77, 0x644a3da5, 0x1181ed99, 0x18c623f9))

  const ABC_32 := Stage(
    Four(0x8e9a9202, 0x00000600, 0xb131c0f0, 0x16263bc6), Four(0x4ebed41e, 0x626380a1, 0x16263806, 0x000018c0),
    Four(0xd2e138c4, 0x00000f00, 0x3afb5079, 0x898e04e5), Four(0xe2ba3c2b, 0x000060c0, 0x053a37cd, 0x74458547),
    Regs(0x3b845d33, 0x1267b407, 0x717eebd7, 0xa0dc2d4b, 0xd2aa1365))

  const ABC_48 := Stage(
    Four(0xda9415ed, 0x26380a16, 0x626383a1, 0x4ebf54de), Four(0x3835b44b, 0x0000f600, 0x1e84c7a3, 0x98e04d98),
    Four(0x651d16a0, 0x62658ca1, 0x458544d6, 0x44584cb7), Four(0x7ba06619, 0x6380aea2, 0x0ae55269, 0x627b49a1),
    Regs(0xbead02ca, 0xa01b846c, 0x8714787c, 0x503ca382, 0xfb86c6ab))

  const ABC_64 := Stage(
    Four(0x7cd45c9d, 0x000f0000, 0xfb50753a, 0xec6765e8), Four(0xba3c2be2, 0x0060c000, 0x3a37cd05, 0x458546f4),
    Four(0xb8599dd6, 0x380a1a26, 0x01e02203, 0xe7cc3456), Four(0xe6e60b69, 0x00f60a00, 0x5795ef4f, 0x822e0879),
    Regs(0x6b61c9e1, 0xb66c020b, 0x9523272c, 0xf5d5b051, 0x8fd4b796))

  lemma Abc16()
    ensures Sixteen(ABC_0, 0) == ABC_16
  {
  }

  lemma Abc32()
    ensures Sixteen(ABC_16, 16) == ABC_32
  {
  }

  lemma Abc48()
    ensures Sixteen(ABC_32, 32) == ABC_48
  {
  }

  lemma Abc64()
    ensures Sixteen(ABC_48, 48) == ABC_64
  {
  }

  lemma Abc80()
    ensures Added(ABC_0.v, Sixteen(ABC_64, 64).v)
            == Regs(0xa9993e36, 0x4706816a, 0xba3e2571, 0x7850c26c, 0x9cd0d89d)
  {
  }

  lemma AbcCompressed(m: seq<bv32>)
    requires |m| == 16 && Begin(m, ABC_0.v) == ABC_0
    ensures Compress(ABC_0.v, m)
            == Regs(0xa9993e36, 0x4706816a, 0xba3e2571, 0x7850c26c, 0x9cd0d89d)
  {
    hide Sixteen, Begin, Added, Compress;
    Abc16();
    Abc32();
    Abc48();
    Abc64();
    Abc80();
    EightyRounds(m, ABC_0, ABC_16, ABC_32, ABC_48, ABC_64);
  }

  const ABC: seq<Octet> := [0x61, 0x62, 0x63]

  lemma AbcPadded()
    ensures |Pad(ABC)| == 64 && Begin(ParseBlock(Pad(ABC)), INITIAL) == ABC_0
  {
    hide LengthBytes;
    var p := Pad(ABC);
    var m := ParseBlock(p);
    Length3();
    assert p[0] == 0x61 && p[1] == 0x62 && p[2] == 0x63 && p[3] == 0x80;
    assert forall k :: 4 <= k < 63 ==> p[k] == 0;
    assert p[63] == 0x18;
    assert m[0] == BigEndianWord(0x61, 0x62, 0x63, 0x80);
    assert m[15] == BigEndianWord(0, 0, 0, 0x18);
    ZeroWord();
    assert forall i :: 1 <= i < 15 ==> m[i] == BigEndianWord(0, 0, 0, 0);
  }

  lemma Length3()
    ensures LengthBytes(24) == [0, 0, 0, 0, 0, 0, 0, 0x18]
  {
    hide LengthBytes;
    ShortLength(24);
  }

  /** The first example of the standard. */
  lemma AbcDigest()
    ensures Sha1([0x61, 0x62, 0x63])
            == [0xa9, 0x99, 0x3e, 0x36, 0x47, 0x06, 0x81, 0x6a, 0xba, 0x3e,
               0x25, 0x71, 0x78, 0x50, 0xc2, 0x6c, 0x9c, 0xd0, 0xd8, 0x9d]
  {
    hide Compress, ParseBlock, Pad, Sha1, Begin;
    AbcPadded();
    AbcCompressed(ParseBlock(Pad(ABC)));
    OneBlock(ABC);
  }

  // ---------------------------------------------------------------- 56 octets

  const LONG_A_0 := Stage(
    Four(0x61626364, 0x62636465, 0x63646566, 0x64656667), Four(0x65666768, 0x66676869, 0x6768696a, 0x68696a6b),
    Four(0x696a6b6c, 0x6a6b6c6d, 0x6b6c6d6e, 0x6c6d6e6f), Four(0x6d6e6f70, 0x6e6f7071, 0x80000000, 0x00000000),
    INITIAL)

  const LONG_A_16 := Stage(
    Four(0x0a063a3e, 0xd8dadcdf, 0xdadcdec0, 0xc8d2b4be), Four(0x6f757b5b, 0x757b5967, 0x8da16d70, 0xdaeefaba),
    Four(0xfaf6cab6, 0xa6fb675a, 0x0c604cc8, 0x604cc02c), Four(0x49c0e6e2, 0x2ee8cbbc, 0xcfd72ec4, 0x97e9810e),
    Regs(0x42637e39, 0xb2e7a8be, 0x4cbe52a1, 0xa180d207, 0xb867b2a8))

  const LONG_A_32 := Stage(
    Four(0x0989cbe8, 0xf24843fe, 0x5c40d0ba, 0xa8d9cc3b), Four(0xb2b9666e, 0xba7b71b7, 0x20b28a72, 0xb28af500),
    Four(0x8ac87842, 0x289addf4, 0x56d51f21, 0xd96b7fd2), Four(0x3868e778, 0xab5e4848, 0x7f0e2118, 0xde87a111),
    Regs(0x52e31f60, 0xa9c84bec, 0x816d15ec, 0x78448908, 0x3549a991))

  const LONG_A_48 := Stage(
    Four(0xe8be56b0, 0x1a0ae652, 0xcd5611c8, 0x46ef29dc), Four(0x60d3da6d, 0xddf3ba6e, 0x2737f5e9, 0x4888a710),
    Four(0xd2a1177b, 0x9999633b, 0xd6c69d03, 0xccf6127b), Four(0x7c58fe6d, 0xfdd99c68, 0xf8e32074, 0xe0ba3c7d),
    Regs(0xc8a69090, 0xa2ad4f02, 0xb1ba8907, 0x26307a99, 0x58cfa558))

  const LONG_A_64 := Stage(
    Four(0x152198d6, 0x7b3f1982, 0x37f2d5b7, 0x8596323e), Four(0x810790d6, 0xbea0a942, 0x11c7e1b1, 0x6158d101),
    Four(0x5fcd77d9, 0x7f2f12e6, 0xf868cfb1, 0xd6e997e9), Four(0xf526b852, 0xb7578dcc, 0x55d99df4, 0x1ff69958),
    Regs(0x513f9ca0, 0x2bfaf7a8, 0x10203537, 0xcd8952c4, 0xe7bddd70))

  lemma LongA16()
    ensures Sixteen(LONG_A_0, 0) == LONG_A_16
  {
  }

  lemma LongA32()
    ensures Sixteen(LONG_A_16, 16) == LONG_A_32
  {
  }

  lemma LongA48()
    ensures Sixteen(LONG_A_32, 32) == LONG_A_48
  {
  }

  lemma LongA64()
    ensures Sixteen(LONG_A_48, 48) == LONG_A_64
  {
  }

  lemma LongA80()
    ensures Added(LONG_A_0.v, Sixteen(LONG_A_64, 64).v)
            == Regs(0xf4286818, 0xc37b27ae, 0x0408f581, 0x84677148, 0x4a566572)
  {
  }

  lemma LongACompressed(m: seq<bv32>)
    requires |m| == 16 && Begin(m, LONG_A_0.v) == LONG_A_0
    ensures Compress(LONG_A_0.v, m)
            == Regs(0xf4286818, 0xc37b27ae, 0x0408f581, 0x84677148, 0x4a566572)
  {
    hide Sixteen, Begin, Added, Compress;
    LongA16();
    LongA32();
    LongA48();
    LongA64();
    LongA80();
    EightyRounds(m, LONG_A_0, LONG_A_16, LONG_A_32, LONG_A_48, LONG_A_64);
  }

  const LONG_B_0 := Stage(
    Four(0x00000000, 0x00000000, 0x00000000, 0x00000000), Four(0x00000000, 0x00000000, 0x00000000, 0x00000000),
    Four(0x00000000, 0x00000000, 0x00000000, 0x00000000), Four(0x00000000, 0x00000000, 0x00000000, 0x000001c0),
    Regs(0xf4286818, 0xc37b27ae, 0x0408f581, 0x84677148, 0x4a566572))

  const LONG_B_16 := Stage(
    Four(0x00000000, 0x00000000, 0x00000380, 0x00000000), Four(0x00000000, 0x00000700, 0x00000000, 0x00000380),
    Four(0x00000e00, 0x00000000, 0x00000000, 0x00001c00), Four(0x00000000, 0x00000d80, 0x00003800, 0x00000480),
    Regs(0xd9772360, 0x258b0baa, 0x2898132a, 0xffb35eef, 0xd0e89e4b))

  const LONG_B_32 := Stage(
    Four(0x00000000, 0x00007000, 0x00000e00, 0x00003600), Four(0x0000e000, 0x00000e00, 0x00000000, 0x0001ce00),
    Four(0x00000000, 0x0000d800, 0x00038000, 0x00004f00), Four(0x00000000, 0x00070e00, 0x0000ee00, 0x00037500),
    Regs(0x8a4af384, 0x17986223, 0x028bec42, 0xc90a6f97, 0xd7105b6b))

  const LONG_B_48 := Stage(
    Four(0x000e0000, 0x0000e000, 0x00003600, 0x001cee00), Four(0x00000000, 0x000df000, 0x00380000, 0x0004c600),
    Four(0x0000e000, 0x0070ee00, 0x000ee000, 0x00369e00), Four(0x00e00000, 0x000ed600, 0x0000e000, 0x01cea600),
    Regs(0x46f93b68, 0x7316056a, 0xb0f40cfa, 0xcf2bb5eb, 0x7b074f58))

  const LONG_B_64 := Stage(
    Four(0x00000000, 0x00d80000, 0x0380e000, 0x004f0000), Four(0x00000000, 0x070e0000, 0x00ee0000, 0x03751c00),
    Four(0x0e000000, 0x00e0e000, 0x00363800, 0x1cee9000), Four(0x00000000, 0x0df09000, 0x3800e000, 0x04c77400),
    Regs(0xd504902b, 0xf66d9bf4, 0x24d85327, 0xdeaac406, 0xe996063d))

  lemma LongB16()
    ensures Sixteen(LONG_B_0, 0) == LONG_B_16
  {
  }

  lemma LongB32()
    ensures Sixteen(LONG_B_16, 16) == LONG_B_32
  {
  }

  lemma LongB48()
    ensures Sixteen(LONG_B_32, 32) == LONG_B_48
  {
  }

  lemma LongB64()
    ensures Sixteen(LONG_B_48, 48) == LONG_B_64
  {
  }

  lemma LongB80()
    ensures Added(LONG_B_0.v, Sixteen(LONG_B_64, 64).v)
            == Regs(0x84983e44, 0x1c3bd26e, 0xbaae4aa1, 0xf95129e5, 0xe54670f1)
  {
  }

  lemma LongBCompressed(m: seq<bv32>)
    requires |m| == 16 && Begin(m, LONG_B_0.v) == LONG_B_0
    ensures Compress(LONG_B_0.v, m)
            == Regs(0x84983e44, 0x1c3bd26e, 0xbaae4aa1, 0xf95129e5, 0xe54670f1)
  {
    hide Sixteen, Begin, Added, Compress;
    LongB16();
    LongB32();
    LongB48();
    LongB64();
    LongB80();
    EightyRounds(m, LONG_B_0, LONG_B_16, LONG_B_32, LONG_B_48, LONG_B_64);
  }

  /** "abcdbcdecdefdefgefghfghighijhijkijkljklmklmnlmnomnopnopq", four characters a word. */
  const LONG: seq<bv32> :=
    [0x61626364, 0x62636465, 0x63646566, 0x64656667, 0x65666768, 0x66676869, 0x6768696a,
     0x68696a6b, 0x696a6b6c, 0x6a6b6c6d, 0x6b6c6d6e, 0x6c6d6e6f, 0x6d6e6f70, 0x6e6f7071]

  lemma LongPadded()
    ensures var p := Pad(Spell(LONG));
            && |p| == 128
            && Begin(ParseBlock(p[..64]), INITIAL) == LONG_A_0
            && Begin(ParseBlock(p[64..]), LONG_B_0.v) == LONG_B_0
  {
    hide Pad, Spell, PaddedWord, BigEndianWord;
    var p := Pad(Spell(LONG));
    assert |p| == 128 by { LongPads(); }
    forall i | 0 <= i < 16
      ensures ParseBlock(p[..64])[i] == PaddedWord(LONG, i)
    {
      PaddedWords(LONG, i);
    }
    forall i | 0 <= i < 16
      ensures ParseBlock(p[64..])[i] == PaddedWord(LONG, 16 + i)
    {
      PaddedWords(LONG, 16 + i);
    }
    LongFirst();
    LongSecond();
  }

  lemma LongPads()
    ensures |Pad(Spell(LONG))| == 128
  {
  }

  lemma LongFirst()
    ensures PaddedWord(LONG, 14) == 0x8000_0000 && PaddedWord(LONG, 15) == 0
    ensures forall i :: 0 <= i < 14 ==> PaddedWord(LONG, i) == LONG[i]
  {
    LongPads();
  }

  lemma LongSecond()
    ensures PaddedWord(LONG, 31) == 0x1c0 && forall i :: 16 <= i < 31 ==> PaddedWord(LONG, i) == 0
  {
    hide Pad, Spell, LengthBytes, BigEndianWord;
    LongPads();
    Length56();
    ZeroWord();
    assert BigEndianWord(0, 0, 0x01, 0xc0) == 0x1c0 by { Word448(); }
  }

  lemma Word448()
    ensures BigEndianWord(0, 0, 0x01, 0xc0) == 0x1c0
  {
  }

  lemma Length56()
    ensures LengthBytes(448) == [0, 0, 0, 0, 0, 0, 0x01, 0xc0]
  {
    hide LengthBytes;
    ShortLength(448);
  }

  /** The second example: its padding fills a second block. */
  lemma LongDigest()
    ensures Sha1(Spell(LONG))
            == [0x84, 0x98, 0x3e, 0x44, 0x1c, 0x3b, 0xd2, 0x6e, 0xba, 0xae,
               0x4a, 0xa1, 0xf9, 0x51, 0x29, 0xe5, 0xe5, 0x46, 0x70, 0xf1]
  {
    hide Compress, ParseBlock, Pad, Sha1, Begin, Spell;
    LongPadded();
    var p := Pad(Spell(LONG));
    LongACompressed(ParseBlock(p[..64]));
    LongBCompressed(ParseBlock(p[64..]));
    TwoBlocks(Spell(LONG));
  }

  // ---------------------------------------------------------------- an answer

  const TWICE_0 := Stage(
    Four(0xa9993e36, 0x4706816a, 0xba3e2571, 0x7850c26c), Four(0x9cd0d89d, 0x80000000, 0x00000000, 0x00000000),
    Four(0x00000000, 0x00000000, 0x00000000, 0x00000000), Four(0x00000000, 0x00000000, 0x00000000, 0x000000a0),
    INITIAL)

  const TWICE_16 := Stage(
    Four(0x274e368e, 0x7eac860c, 0x4dddfa98, 0xbe3de9c5), Four(0xc4f8bd23, 0x9bbbf531, 0x7c7bd38b, 0x89f17b07),
    Four(0x79eb877f, 0x05aeab0e, 0x8859033f, 0x8facdd75), Four(0x82ac2c5b, 0x27c5ed5c, 0xa93270e1, 0xebe3a3e0),
    Regs(0x77b55ea4, 0x8af2267b, 0xa415aa75, 0x12662782, 0xc2583faa))

  const TWICE_32 := Stage(
    Four(0x697b4c6a, 0xd81b684c, 0xd53fcec9, 0x86a31bd7), Four(0xc468557f, 0xc1615b47, 0x54027f84, 0x47a84d2d),
    Four(0xb35126da, 0x0c36c366, 0x30c55901, 0x3b361a49), Four(0xc7819547, 0x7b0499f4, 0x5efab28d, 0x67a2278d),
    Regs(0x6086e9af, 0x94726ada, 0xfbb1acc0, 0xa28e94a0, 0xb579e23d))

  const TWICE_48 := Stage(
    Four(0xe8227b1a, 0x18e804e0, 0x8c61ca74, 0x29ac4387), Four(0x9e0776b8, 0xe3588bd4, 0x200b50a9, 0x6477befd),
    Four(0x11dd1e2b, 0x1fc71acc, 0x3ea5719e, 0xf087bc22), Four(0x3176977c, 0x82b68867, 0xcca84a38, 0x549615d8),
    Regs(0x1a436b11, 0x18245106, 0xc117993a, 0xa965fd77, 0x75b1b312))

  const TWICE_64 := Stage(
    Four(0xee504e45, 0xc4562f27, 0xf0abb114, 0xa8467469), Four(0x96593c94, 0xea6418b5, 0xaa70e1a6, 0x72ff1afb),
    Four(0x5698728a, 0x02ccd0df, 0x1b0e9a1b, 0x19de654d), Four(0xd296621e, 0x4e943e22, 0x22ad012d, 0x61528434),
    Regs(0x4d27d5fd, 0xb18a6fb0, 0x8af8d30d, 0x8d25a7b4, 0x5e4f647a))

  lemma Twice16()
    ensures Sixteen(TWICE_0, 0) == TWICE_16
  {
  }

  lemma Twice32()
    ensures Sixteen(TWICE_16, 16) == TWICE_32
  {
  }

  lemma Twice48()
    ensures Sixteen(TWICE_32, 32) == TWICE_48
  {
  }

  lemma Twice64()
    ensures Sixteen(TWICE_48, 48) == TWICE_64
  {
  }

  lemma Twice80()
    ensures Added(TWICE_0.v, Sixteen(TWICE_64, 64).v)
            == Regs(0x0d3ced9b, 0xec10a777, 0xaec23ccc, 0x353a8c08, 0xa633045e)
  {
  }

  lemma TwiceCompressed(m: seq<bv32>)
    requires |m| == 16 && Begin(m, TWICE_0.v) == TWICE_0
    ensures Compress(TWICE_0.v, m)
            == Regs(0x0d3ced9b, 0xec10a777, 0xaec23ccc, 0x353a8c08, 0xa633045e)
  {
    hide Sixteen, Begin, Added, Compress;
    Twice16();
    Twice32();
    Twice48();
    Twice64();
    Twice80();
    EightyRounds(m, TWICE_0, TWICE_16, TWICE_32, TWICE_48, TWICE_64);
  }

  const SALTED_0 := Stage(
    Four(0x00010203, 0x04050607, 0x08090a0b, 0x0c0d0e0f), Four(0x10111213, 0x0d3ced9b, 0xec10a777, 0xaec23ccc),
    Four(0x353a8c08, 0xa633045e, 0x80000000, 0x00000000), Four(0x00000000, 0x00000000, 0x00000000, 0x00000140),
    INITIAL)

  const SALTED_16 := Stage(
    Four(0x7a650800, 0x5c7618ad, 0x303032b1, 0xf6a9d728), Four(0x40ef5b93, 0x279dc7cd, 0x5f07f8ae, 0x903cc482),
    Four(0xd184878b, 0x4a85c8bb, 0x4019ec66, 0x4e5aa146), Four(0x14d52650, 0xcf0855d6, 0xd670a3d0, 0xb13ff67f),
    Regs(0xe35cbfa6, 0xd35be56d, 0x47975ca6, 0x74e72236, 0x416dacfd))

  const SALTED_32 := Stage(
    Four(0xa9b3d1d8, 0x6c5549dc, 0x03f2e677, 0x6dbac0f6), Four(0xced19962, 0xf6b761dc, 0x6a923806, 0x4aaec649),
    Four(0x9d33b7d3, 0x0430304e, 0x3b21d410, 0xe3b7076a), Four(0x10885958, 0x67422ccb, 0xedcc9ac9, 0x0e984165),
    Regs(0x31a55660, 0x5d1a1f95, 0x16740a28, 0x910b97a0, 0xf0666036))

  const SALTED_48 := Stage(
    Four(0xa061596e, 0xd026475b, 0xf135d4c1, 0xb1b7fe5d), Four(0xc9db7ece, 0x54dcbf3e, 0x57b5d683, 0x13bb9359),
    Four(0xa55f0b26, 0xc0294df8, 0x924f95a1, 0x203bbdb5), Four(0xe96de14f, 0x5e928e63, 0x74475122, 0x48d0e850),
    Regs(0x86c32008, 0x53be8e60, 0x4a8a4055, 0x020f8df0, 0xd6fdf018))

  const SALTED_64 := Stage(
    Four(0x553211d5, 0xabff4bb9, 0xc4e3affd, 0x20c5da07), Four(0xb9f80577, 0xba2c1bf3, 0x4cd0ad01, 0x4574670c),
    Four(0xb01d2943, 0x0e7a2dea, 0xf56b783f, 0xdce38125), Four(0x555131e0, 0xb20a0bfe, 0x628cd9a7, 0xe615ea0b),
    Regs(0x0a9b5449, 0x3582bd08, 0x80fbabc2, 0x5b0b9815, 0x318bac32))

  lemma Salted16()
    ensures Sixteen(SALTED_0, 0) == SALTED_16
  {
  }

  lemma Salted32()
    ensures Sixteen(SALTED_16, 16) == SALTED_32
  {
  }

  lemma Salted48()
    ensures Sixteen(SALTED_32, 32) == SALTED_48
  {
  }

  lemma Salted64()
    ensures Sixteen(SALTED_48, 48) == SALTED_64
  {
  }

  lemma Salted80()
    ensures Added(SALTED_0.v, Sixteen(SALTED_64, 64).v)
            == Regs(0x9f28cdf9, 0x817dd971, 0x145792f9, 0x47df00df, 0xce41ee34)
  {
  }

  lemma SaltedCompressed(m: seq<bv32>)
    requires |m| == 16 && Begin(m, SALTED_0.v) == SALTED_0
    ensures Compress(SALTED_0.v, m)
            == Regs(0x9f28cdf9, 0x817dd971, 0x145792f9, 0x47df00df, 0xce41ee34)
  {
    hide Sixteen, Begin, Added, Compress;
    Salted16();
    Salted32();
    Salted48();
    Salted64();
    Salted80();
    EightyRounds(m, SALTED_0, SALTED_16, SALTED_32, SALTED_48, SALTED_64);
  }

  const ABC_HASH: seq<bv32> :=
    [0xa9993e36, 0x4706816a, 0xba3e2571, 0x7850c26c, 0x9cd0d89d]

  lemma TwicePads()
    ensures |Pad(Spell(ABC_HASH))| == 64
  {
  }

  lemma TwiceLength()
    ensures LengthBytes(160) == [0x00, 0x00, 0x00, 0x00, 0x00, 0x00, 0x00, 0xa0]
  {
    hide LengthBytes;
    ShortLength(160);
  }

  lemma TwiceLengthWord()
    ensures BigEndianWord(0x00, 0x00, 0x00, 0xa0) == 0x000000a0
  {
  }

  lemma TwiceWords()
    ensures forall i :: 0 <= i < 5 ==> PaddedWord(ABC_HASH, i) == ABC_HASH[i]
    ensures PaddedWord(ABC_HASH, 5) == 0x8000_0000 && PaddedWord(ABC_HASH, 15) == 0x000000a0
    ensures forall i :: 6 <= i < 15 ==> PaddedWord(ABC_HASH, i) == 0
  {
    hide Pad, Spell, BigEndianWord, LengthBytes;
    TwicePads();
    TwiceLength();
    TwiceLengthWord();
    ZeroWord();
  }

  lemma TwicePadded()
    ensures |Pad(Spell(ABC_HASH))| == 64 && Begin(ParseBlock(Pad(Spell(ABC_HASH))), INITIAL) == TWICE_0
  {
    hide Pad, Spell, PaddedWord, BigEndianWord;
    TwicePads();
    TwiceWords();
    var p := Pad(Spell(ABC_HASH));
    forall i | 0 <= i < 16
      ensures ParseBlock(p)[i] == PaddedWord(ABC_HASH, i)
    {
      PaddedWords(ABC_HASH, i);
    }
  }

  lemma TwiceDigest()
    ensures Sha1(Spell(ABC_HASH)) == DigestOf(Regs(0x0d3ced9b, 0xec10a777, 0xaec23ccc, 0x353a8c08, 0xa633045e))
  {
    hide Compress, ParseBlock, Pad, Sha1, Begin, Spell;
    TwicePadded();
    TwiceCompressed(ParseBlock(Pad(Spell(ABC_HASH))));
    OneBlock(Spell(ABC_HASH));
  }

  const SALT_AND_HASH: seq<bv32> :=
    [0x00010203, 0x04050607, 0x08090a0b, 0x0c0d0e0f, 0x10111213,
     0x0d3ced9b, 0xec10a777, 0xaec23ccc, 0x353a8c08, 0xa633045e]

  lemma SaltedPads()
    ensures |Pad(Spell(SALT_AND_HASH))| == 64
  {
  }

  lemma SaltedLength()
    ensures LengthBytes(320) == [0x00, 0x00, 0x00, 0x00, 0x00, 0x00, 0x01, 0x40]
  {
    hide LengthBytes;
    ShortLength(320);
  }

  lemma SaltedLengthWord()
    ensures BigEndianWord(0x00, 0x00, 0x01, 0x40) == 0x00000140
  {
  }

  lemma SaltedWords()
    ensures forall i :: 0 <= i < 10 ==> PaddedWord(SALT_AND_HASH, i) == SALT_AND_HASH[i]
    ensures PaddedWord(SALT_AND_HASH, 10) == 0x8000_0000 && PaddedWord(SALT_AND_HASH, 15) == 0x00000140
    ensures forall i :: 11 <= i < 15 ==> PaddedWord(SALT_AND_HASH, i) == 0
  {
    hide Pad, Spell, BigEndianWord, LengthBytes;
    SaltedPads();
    SaltedLength();
    SaltedLengthWord();
    ZeroWord();
  }

  lemma SaltedPadded()
    ensures |Pad(Spell(SALT_AND_HASH))| == 64 && Begin(ParseBlock(Pad(Spell(SALT_AND_HASH))), INITIAL) == SALTED_0
  {
    hide Pad, Spell, PaddedWord, BigEndianWord;
    SaltedPads();
    SaltedWords();
    var p := Pad(Spell(SALT_AND_HASH));
    forall i | 0 <= i < 16
      ensures ParseBlock(p)[i] == PaddedWord(SALT_AND_HASH, i)
    {
      PaddedWords(SALT_AND_HASH, i);
    }
  }

  lemma SaltedDigest()
    ensures Sha1(Spell(SALT_AND_HASH)) == DigestOf(Regs(0x9f28cdf9, 0x817dd971, 0x145792f9, 0x47df00df, 0xce41ee34))
  {
    hide Compress, ParseBlock, Pad, Sha1, Begin, Spell;
    SaltedPadded();
    SaltedCompressed(ParseBlock(Pad(Spell(SALT_AND_HASH))));
    OneBlock(Spell(SALT_AND_HASH));
  }

  /** The octets 0 to 19. */
  const SALT: seq<bv32> := [0x00010203, 0x04050607, 0x08090a0b, 0x0c0d0e0f, 0x10111213]

  lemma Concatenated()
    ensures Spell(SALT) + DigestOf(Regs(0x0d3ced9b, 0xec10a777, 0xaec23ccc, 0x353a8c08, 0xa633045e))
            == Spell(SALT_AND_HASH)
  {
  }

  lemma AbcHashed()
    ensures Sha1(ABC) == DigestOf(Regs(0xa9993e36, 0x4706816a, 0xba3e2571, 0x7850c26c, 0x9cd0d89d)) == Spell(ABC_HASH)
  {
    hide Compress, ParseBlock, Pad, Sha1, Begin;
    AbcPadded();
    AbcCompressed(ParseBlock(Pad(ABC)));
    OneBlock(ABC);
  }

  /** The chap-sha1 answer of the password "abc" to that salt. */
  lemma KnownAnswer()
    ensures Scramble.Answer([0x61, 0x62, 0x63], Spell(SALT))
            == [0x36, 0xb1, 0xf3, 0xcf, 0xc6, 0x7b, 0x58, 0x1b, 0xae, 0x69,
               0xb7, 0x88, 0x3f, 0x8f, 0xc2, 0xb3, 0x52, 0x91, 0x36, 0xa9]
  {
    hide Sha1, Spell;
    AbcHashed();
    TwiceDigest();
    Concatenated();
    SaltedDigest();
    MaskedAnswer();
  }

  lemma MaskedAnswer()
    ensures Scramble.Xor(DigestOf(Regs(0xa9993e36, 0x4706816a, 0xba3e2571, 0x7850c26c, 0x9cd0d89d)),
                         DigestOf(Regs(0x9f28cdf9, 0x817dd971, 0x145792f9, 0x47df00df, 0xce41ee34)))
            == [0x36, 0xb1, 0xf3, 0xcf, 0xc6, 0x7b, 0x58, 0x1b, 0xae, 0x69,
               0xb7, 0x88, 0x3f, 0x8f, 0xc2, 0xb3, 0x52, 0x91, 0x36, 0xa9]
  {
  }
}
