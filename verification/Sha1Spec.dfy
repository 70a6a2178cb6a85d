/** SHA-1 as FIPS 180-4 defines it: padding (section 5.1.1), parsing (5.2.1), initial value (5.3.1), functions and
    constants (4.1.1, 4.2.1) and the computation with an 80-word schedule (6.1.2). */
module Sha1Spec {

  type Octet = bv8

  /** The five working variables, and equally the five words of a hash value. */
  datatype Regs = Regs(a: bv32, b: bv32, c: bv32, d: bv32, e: bv32)

  const INITIAL := Regs(0x67452301, 0xEFCDAB89, 0x98BADCFE, 0x10325476, 0xC3D2E1F0)

  function Ch(x: bv32, y: bv32, z: bv32): bv32 { (x & y) ^ (!x & z) }

  function Parity(x: bv32, y: bv32, z: bv32): bv32 { x ^ y ^ z }

  function Maj(x: bv32, y: bv32, z: bv32): bv32 { (x & y) ^ (x & z) ^ (y & z) }

  function F(t: nat, x: bv32, y: bv32, z: bv32): bv32
  {
    if t < 20 then Ch(x, y, z)
    else if t < 40 then Parity(x, y, z)
    else if t < 60 then Maj(x, y, z)
    else Parity(x, y, z)
  }

  function K(t: nat): bv32
  {
    if t < 20 then 0x5a827999
    else if t < 40 then 0x6ed9eba1
    else if t < 60 then 0x8f1bbcdc
    else 0xca62c1d6
  }

  function Rotl1(x: bv32): bv32 { x.RotateLeft(1) }

  function Rotl5(x: bv32): bv32 { x.RotateLeft(5) }

  function Rotl30(x: bv32): bv32 { x.RotateLeft(30) }

  function Xor4(a: bv32, b: bv32, c: bv32, d: bv32): bv32 { a ^ b ^ c ^ d }

  /** The message schedule. */
  function W(m: seq<bv32>, t: nat): bv32
    requires |m| == 16
  {
    if t < 16 then m[t]
    else Rotl1(Xor4(W(m, t - 3), W(m, t - 8), W(m, t - 14), W(m, t - 16)))
  }

  function Sum5(v: bv32, f: bv32, e: bv32, k: bv32, w: bv32): bv32 { v + f + e + k + w }

  /** One round. */
  function Step(r: Regs, t: nat, w: bv32): Regs
  {
    Regs(Sum5(Rotl5(r.a), F(t, r.b, r.c, r.d), r.e, K(t), w), r.a, Rotl30(r.b), r.c, r.d)
  }

  function Rounds(m: seq<bv32>, r: Regs, t: nat): Regs
    requires |m| == 16
  {
    if t == 0 then r else Step(Rounds(m, r, t - 1), t - 1, W(m, t - 1))
  }

  function Added(r: Regs, s: Regs): Regs
  {
    Regs(r.a + s.a, r.b + s.b, r.c + s.c, r.d + s.d, r.e + s.e)
  }

  /** The next hash value, from the previous one and a block of 16 words. */
  function Compress(h: Regs, m: seq<bv32>): Regs
    requires |m| == 16
  {
    Added(h, Rounds(m, h, 80))
  }

  /** The word four octets spell, most significant first. */
  function BigEndianWord(b0: Octet, b1: Octet, b2: Octet, b3: Octet): bv32
  {
    ((b0 as bv32) << 24) | ((b1 as bv32) << 16) | ((b2 as bv32) << 8) | (b3 as bv32)
  }

  function ParseBlock(block: seq<Octet>): (m: seq<bv32>)
    requires |block| == 64
    ensures |m| == 16
  {
    seq(16, i requires 0 <= i < 16 =>
      BigEndianWord(block[4 * i], block[4 * i + 1], block[4 * i + 2], block[4 * i + 3]))
  }

  /** The hash value after all whole blocks of `msg`. */
  function HashBlocks(msg: seq<Octet>): Regs
    requires |msg| % 64 == 0
  {
    if msg == [] then INITIAL
    else Compress(HashBlocks(msg[..|msg| - 64]), ParseBlock(msg[|msg| - 64..]))
  }

  /** The number of zero octets of padding. */
  function PadZeros(n: nat): (k: nat)
    ensures k < 64 && (n + 1 + k) % 64 == 56
  {
    (119 - n % 64) % 64
  }

  /** It is the smallest number that does. */
  lemma PadZerosIsSmallest(n: nat, k: nat)
    requires (n + 1 + k) % 64 == 56
    ensures PadZeros(n) <= k
  {
  }

  function Zeros(k: nat): (s: seq<Octet>)
    ensures |s| == k
  {
    seq(k, _ => 0)
  }

  function Shift(i: nat): (d: nat)
    ensures d > 0
  {
    match i
    case 0 => 0x100_0000_0000_0000
    case 1 => 0x1_0000_0000_0000
    case 2 => 0x100_0000_0000
    case 3 => 0x1_0000_0000
    case 4 => 0x100_0000
    case 5 => 0x1_0000
    case 6 => 0x100
    case _ => 1
  }

  function OctetOf(n: nat): Octet
    requires n < 256
  {
    n as Octet
  }

  /** A 64-bit number as eight octets, most significant first. */
  function LengthBytes(bits: nat): (s: seq<Octet>)
    ensures |s| == 8
  {
    seq(8, i requires 0 <= i < 8 => OctetOf((bits / Shift(i)) % 256))
  }

  function Pad(msg: seq<Octet>): (p: seq<Octet>)
    ensures |p| % 64 == 0
  {
    msg + [0x80] + Zeros(PadZeros(|msg|)) + LengthBytes(8 * |msg|)
  }

  /** Octet k of a word, most significant first. */
  function WordByte(w: bv32, k: nat): Octet
  {
    match k
    case 0 => ((w >> 24) & 255) as Octet
    case 1 => ((w >> 16) & 255) as Octet
    case 2 => ((w >> 8) & 255) as Octet
    case _ => (w & 255) as Octet
  }

  /** The four octets of a word spell it. */
  lemma WordBytesSpell(w: bv32)
    ensures BigEndianWord(WordByte(w, 0), WordByte(w, 1), WordByte(w, 2), WordByte(w, 3)) == w
  {
  }

  function WordOf(r: Regs, i: nat): bv32
  {
    match i case 0 => r.a case 1 => r.b case 2 => r.c case 3 => r.d case _ => r.e
  }

  function DigestOf(r: Regs): (s: seq<Octet>)
    ensures |s| == 20
  {
    seq(20, i requires 0 <= i < 20 => WordByte(WordOf(r, i / 4), i % 4))
  }

  /** The octets of a digest, four at a time, spell the five words it was made from. */
  lemma DigestSpells(r: Regs, i: nat)
    requires i < 5
    ensures var d := DigestOf(r); BigEndianWord(d[4 * i], d[4 * i + 1], d[4 * i + 2], d[4 * i + 3]) == WordOf(r, i)
  {
    hide WordByte, WordOf, BigEndianWord;
    WordBytesSpell(WordOf(r, i));
  }

  /** The digest of a message. FIPS 180-4 defines it below 2^61 octets; beyond, the length field wraps around. */
  function Sha1(msg: seq<Octet>): (digest: seq<Octet>)
    ensures |digest| == 20
  {
    DigestOf(HashBlocks(Pad(msg)))
  }
}
