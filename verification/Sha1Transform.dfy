/** The block function of the SHA-1 implementation: a 16-word ring that overwrites the very block it hashes, five
    registers whose roles rotate instead of their values, and rewritten Ch and Maj. */
module Sha1Transform {
  import opened Sha1Spec

  // ---------------------------------------------------------------- the macros

  function Rol1(x: bv32): bv32 { (x << 1) | (x >> 31) }

  function Rol5(x: bv32): bv32 { (x << 5) | (x >> 27) }

  function Rol8(x: bv32): bv32 { (x << 8) | (x >> 24) }

  function Rol24(x: bv32): bv32 { (x << 24) | (x >> 8) }

  function Rol30(x: bv32): bv32 { (x << 30) | (x >> 2) }

  /** Reverses the bytes of a word loaded on a little-endian machine. */
  function Swapped(x: bv32): bv32 { (Rol24(x) & 0xFF00FF00) | (Rol8(x) & 0x00FF00FF) }

  function Mix(t: nat, w: bv32, x: bv32, y: bv32): bv32
  {
    if t < 20 then (w & (x ^ y)) ^ y
    else if t < 40 then w ^ x ^ y
    else if t < 60 then ((w | x) & y) | (w & x)
    else w ^ x ^ y
  }

  /** The constants written into the round macros. */
  function RoundConstant(t: nat): bv32
  {
    if t < 20 then 0x5A827999
    else if t < 40 then 0x6ED9EBA1
    else if t < 60 then 0x8F1BBCDC
    else 0xCA62C1D6
  }

  lemma RoundConstantIsK(t: nat)
    ensures RoundConstant(t) == K(t)
  {
  }

  lemma RolIsRotl(x: bv32)
    ensures Rol1(x) == Rotl1(x) && Rol5(x) == Rotl5(x) && Rol30(x) == Rotl30(x)
  {
  }

  lemma ChRewritten(x: bv32, y: bv32, z: bv32)
    ensures (x & (y ^ z)) ^ z == Ch(x, y, z)
  {
  }

  lemma MajRewritten(x: bv32, y: bv32, z: bv32)
    ensures ((x | y) & z) | (x & y) == Maj(x, y, z)
  {
  }

  lemma MixIsF(t: nat, x: bv32, y: bv32, z: bv32)
    ensures Mix(t, x, y, z) == F(t, x, y, z)
  {
    hide Ch, Maj;
    ChRewritten(x, y, z);
    MajRewritten(x, y, z);
  }

  function Accumulated(z: bv32, f: bv32, word: bv32, k: bv32, v: bv32): bv32 { z + (f + word + k + v) }

  /** The order in which the round adds its terms does not matter. */
  lemma SumReordered(v: bv32, f: bv32, e: bv32, k: bv32, w: bv32)
    ensures Accumulated(e, f, w, k, v) == Sum5(v, f, e, k, w)
  {
  }

  // ---------------------------------------------------------------- the block as sixteen machine words

  function LittleEndianWord(b0: Octet, b1: Octet, b2: Octet, b3: Octet): bv32
  {
    (b0 as bv32) | ((b1 as bv32) << 8) | ((b2 as bv32) << 16) | ((b3 as bv32) << 24)
  }

  lemma SwappedLoad(b0: Octet, b1: Octet, b2: Octet, b3: Octet)
    ensures Swapped(LittleEndianWord(b0, b1, b2, b3)) == BigEndianWord(b0, b1, b2, b3)
  {
  }

  lemma StoreThenLoad(w: bv32)
    ensures LittleEndianWord(WordByte(w, 3), WordByte(w, 2), WordByte(w, 1), WordByte(w, 0)) == w
  {
  }

  ghost function Load(mem: array<Octet>, at: nat): bv32
    requires at + 4 <= mem.Length
    reads mem
  {
    LittleEndianWord(mem[at], mem[at + 1], mem[at + 2], mem[at + 3])
  }

  /** The block at `at`, seen as the union's word array. */
  ghost function Words(mem: array<Octet>, at: nat): (s: seq<bv32>)
    requires at + 64 <= mem.Length
    reads mem
    ensures |s| == 16
  {
    seq(16, i requires 0 <= i < 16 reads mem => Load(mem, at + 4 * i))
  }

  method LoadWord(mem: array<Octet>, at: nat, i: nat) returns (w: bv32)
    requires i < 16 && at + 64 <= mem.Length
    ensures w == Words(mem, at)[i]
  {
    var p := at + 4 * i;
    w := LittleEndianWord(mem[p], mem[p + 1], mem[p + 2], mem[p + 3]);
  }

  method StoreWord(mem: array<Octet>, at: nat, i: nat, w: bv32)
    requires i < 16 && at + 64 <= mem.Length
    modifies mem
    ensures Words(mem, at) == old(Words(mem, at))[i := w]
    ensures forall k :: 0 <= k < mem.Length && !(at <= k < at + 64) ==> mem[k] == old(mem[k])
  {
    hide WordByte, LittleEndianWord;
    var p := at + 4 * i;
    mem[p], mem[p + 1], mem[p + 2], mem[p + 3] := WordByte(w, 3), WordByte(w, 2), WordByte(w, 1), WordByte(w, 0);
    StoreThenLoad(w);
    assert Load(mem, p) == w;
    assert forall k :: 0 <= k < 16 && k != i ==> Load(mem, at + 4 * k) == old(Load(mem, at + 4 * k));
  }

  /** `blk0`: swaps word t of the block in place. */
  method Blk0(mem: array<Octet>, at: nat, t: nat) returns (w: bv32)
    requires t < 16 && at + 64 <= mem.Length
    modifies mem
    ensures w == Swapped(old(Words(mem, at))[t])
    ensures Words(mem, at) == old(Words(mem, at))[t := w]
    ensures forall k :: 0 <= k < mem.Length && !(at <= k < at + 64) ==> mem[k] == old(mem[k])
  {
    w := LoadWord(mem, at, t);
    w := Swapped(w);
    StoreWord(mem, at, t, w);
  }

  /** `blk`: replaces the oldest word of the ring by the next word of the schedule. */
  method Blk(mem: array<Octet>, at: nat, t: nat) returns (w: bv32)
    requires at + 64 <= mem.Length
    modifies mem
    ensures var ring := old(Words(mem, at));
            w == Rol1(Xor4(ring[(t + 13) % 16], ring[(t + 8) % 16], ring[(t + 2) % 16], ring[t % 16]))
    ensures Words(mem, at) == old(Words(mem, at))[t % 16 := w]
    ensures forall k :: 0 <= k < mem.Length && !(at <= k < at + 64) ==> mem[k] == old(mem[k])
  {
    var w3 := LoadWord(mem, at, (t + 13) % 16);
    var w8 := LoadWord(mem, at, (t + 8) % 16);
    var w14 := LoadWord(mem, at, (t + 2) % 16);
    var w16 := LoadWord(mem, at, t % 16);
    w := Rol1(Xor4(w3, w8, w14, w16));
    StoreWord(mem, at, t % 16, w);
  }

  // ---------------------------------------------------------------- the ring

  /** Before round t the ring holds the last sixteen words of the schedule, and from t on the untouched block. */
  ghost predicate RingAt(ring: seq<bv32>, raw: seq<bv32>, m: seq<bv32>, t: nat)
    requires |ring| == 16 && |raw| == 16 && |m| == 16
  {
    && (forall s :: 0 <= s < t && t - 16 <= s ==> ring[s % 16] == W(m, s))
    && (forall i :: t <= i < 16 ==> ring[i] == raw[i])
  }

  /** Raw words of a little-endian machine, swapped, are the words the standard parses. */
  ghost predicate SwapsTo(raw: seq<bv32>, m: seq<bv32>)
    requires |raw| == 16 && |m| == 16
  {
    forall i :: 0 <= i < 16 ==> Swapped(raw[i]) == m[i]
  }

  lemma RingEarly(ring: seq<bv32>, raw: seq<bv32>, m: seq<bv32>, t: nat)
    requires |ring| == 16 && |raw| == 16 && |m| == 16 && t < 16
    requires RingAt(ring, raw, m, t) && SwapsTo(raw, m)
    ensures Swapped(ring[t]) == W(m, t)
    ensures RingAt(ring[t := W(m, t)], raw, m, t + 1)
  {
    hide Swapped, W;
    assert W(m, t) == m[t] by { ScheduleStart(m, t); }
    assert forall s :: 0 <= s < 16 ==> s % 16 == s;
  }

  lemma ScheduleStart(m: seq<bv32>, t: nat)
    requires |m| == 16 && t < 16
    ensures W(m, t) == m[t]
  {
  }

  lemma RingLate(ring: seq<bv32>, raw: seq<bv32>, m: seq<bv32>, t: nat)
    requires |ring| == 16 && |raw| == 16 && |m| == 16 && t >= 16
    requires RingAt(ring, raw, m, t)
    ensures Rol1(Xor4(ring[(t + 13) % 16], ring[(t + 8) % 16], ring[(t + 2) % 16], ring[t % 16])) == W(m, t)
    ensures RingAt(ring[t % 16 := W(m, t)], raw, m, t + 1)
  {
    hide Rol1, Rol5, Rol30, Rotl1, Rotl5, Rotl30, Xor4;
    RingIndices(t);
    assert ring[(t - 3) % 16] == W(m, t - 3) && ring[(t - 8) % 16] == W(m, t - 8);
    assert ring[(t - 14) % 16] == W(m, t - 14) && ring[(t - 16) % 16] == W(m, t - 16);
    RolIsRotl(Xor4(W(m, t - 3), W(m, t - 8), W(m, t - 14), W(m, t - 16)));
    RingAdvances(ring, raw, m, t);
  }

  lemma RingIndices(t: nat)
    requires t >= 16
    ensures (t - 3) % 16 == (t + 13) % 16 && (t - 8) % 16 == (t + 8) % 16
    ensures (t - 14) % 16 == (t + 2) % 16 && (t - 16) % 16 == t % 16
    ensures forall s :: t - 15 <= s < t ==> s % 16 != t % 16
  {
    OnceAround(t - 3);
    OnceAround(t - 8);
    OnceAround(t - 14);
    OnceAround(t - 16);
    forall s | t - 15 <= s < t
      ensures s % 16 != t % 16
    {
      assert t - s == 16 * (t / 16 - s / 16) + (t % 16 - s % 16);
    }
  }

  lemma OnceAround(a: nat)
    ensures (a + 16) % 16 == a % 16
  {
  }

  lemma RingAdvances(ring: seq<bv32>, raw: seq<bv32>, m: seq<bv32>, t: nat)
    requires |ring| == 16 && |raw| == 16 && |m| == 16 && t >= 16
    requires RingAt(ring, raw, m, t)
    ensures RingAt(ring[t % 16 := W(m, t)], raw, m, t + 1)
  {
    hide W;
    RingIndices(t);
  }

  // ---------------------------------------------------------------- the registers

  /** The register that plays role k (v, w, x, y, z) in round t. */
  function Role(t: nat, k: nat): (i: nat)
    requires k < 5
    ensures i < 5
  {
    var first := 4 * t % 5;
    if first + k < 5 then first + k else first + k - 5
  }

  /** The working variables of the standard before round t, given the registers under their fixed names. */
  function Renamed(r: seq<bv32>, t: nat): Regs
    requires |r| == 5
  {
    Regs(r[Role(t, 0)], r[Role(t, 1)], r[Role(t, 2)], r[Role(t, 3)], r[Role(t, 4)])
  }

  /** What the round macros do to the registers: z accumulates, w rotates, nothing moves. */
  function RoundInPlace(r: seq<bv32>, t: nat, word: bv32): (r': seq<bv32>)
    requires |r| == 5
    ensures |r'| == 5
  {
    var v, w, x, y, z := Role(t, 0), Role(t, 1), Role(t, 2), Role(t, 3), Role(t, 4);
    r[z := Accumulated(r[z], Mix(t, r[w], r[x], r[y]), word, RoundConstant(t), Rol5(r[v]))][w := Rol30(r[w])]
  }

  /** The five roles are five registers, and each role passes to the register next to it. */
  lemma RolesRotate(t: nat)
    ensures Role(t + 1, 0) == Role(t, 4)
    ensures forall k :: 0 <= k < 4 ==> Role(t + 1, k + 1) == Role(t, k)
    ensures forall j, k :: 0 <= j < k < 5 ==> Role(t, j) != Role(t, k)
  {
    FirstRoleMoves(t);
  }

  lemma FirstRoleMoves(t: nat)
    ensures 4 * (t + 1) % 5 == if 4 * t % 5 == 0 then 4 else 4 * t % 5 - 1
  {
    var q, first := 4 * t / 5, 4 * t % 5;
    assert 4 * (t + 1) == 5 * q + (first + 4) && 4 * (t + 1) == 5 * (q + 1) + (first - 1);
  }

  /** Writing the registers in roles z and w and moving on to the next round's roles shifts all five. */
  lemma RolesShift(r: seq<bv32>, t: nat, a: bv32, c: bv32)
    requires |r| == 5
    ensures Renamed(r[Role(t, 4) := a][Role(t, 1) := c], t + 1) ==
            Regs(a, r[Role(t, 0)], c, r[Role(t, 2)], r[Role(t, 3)])
  {
    hide Role;
    RolesRotate(t);
    assert Role(t + 1, 1) == Role(t + 1, 0 + 1) == Role(t, 0) && Role(t + 1, 2) == Role(t + 1, 1 + 1) == Role(t, 1);
    assert Role(t + 1, 3) == Role(t + 1, 2 + 1) == Role(t, 2) && Role(t + 1, 4) == Role(t + 1, 3 + 1) == Role(t, 3);
  }

  lemma RoundValue(t: nat, v: bv32, w: bv32, x: bv32, y: bv32, z: bv32, word: bv32)
    ensures Accumulated(z, Mix(t, w, x, y), word, RoundConstant(t), Rol5(v)) == Step(Regs(v, w, x, y, z), t, word).a
  {
    hide Mix, F, K, RoundConstant, Rol1, Rol5, Rol30, Rotl1, Rotl5, Rotl30, Accumulated, Sum5;
    MixIsF(t, w, x, y);
    RoundConstantIsK(t);
    RolIsRotl(v);
    SumReordered(Rotl5(v), F(t, w, x, y), z, K(t), word);
  }

  /** Renaming the registers from round to round has the effect of shifting their values. */
  lemma RoundInPlaceIsStep(r: seq<bv32>, t: nat, word: bv32)
    requires |r| == 5
    ensures Renamed(RoundInPlace(r, t, word), t + 1) == Step(Renamed(r, t), t, word)
  {
    hide Mix, F, K, RoundConstant, Rol1, Rol5, Rol30, Rotl1, Rotl5, Rotl30, Role, Accumulated, Sum5;
    var v, w, x, y, z := Role(t, 0), Role(t, 1), Role(t, 2), Role(t, 3), Role(t, 4);
    RolIsRotl(r[w]);
    RoundValue(t, r[v], r[w], r[x], r[y], r[z], word);
    RolesShift(r, t, Step(Renamed(r, t), t, word).a, Rol30(r[w]));
  }

  // ---------------------------------------------------------------- the transform

  ghost function StateOf(state: array<bv32>): Regs
    requires state.Length == 5
    reads state
  {
    Regs(state[0], state[1], state[2], state[3], state[4])
  }

  /** What hashing leaves of a block: words 64 to 79 of its schedule. */
  ghost function Residue(m: seq<bv32>): (s: seq<bv32>)
    requires |m| == 16
    ensures |s| == 16
  {
    seq(16, i requires 0 <= i < 16 => W(m, 64 + i))
  }

  /** The 80 rounds over the block at `at`, which is overwritten. */
  method Rounds80(r0: seq<bv32>, mem: array<Octet>, at: nat, ghost m: seq<bv32>) returns (r: seq<bv32>)
    requires |r0| == 5 && at + 64 <= mem.Length && |m| == 16 && SwapsTo(Words(mem, at), m)
    modifies mem
    ensures |r| == 5 && Renamed(r, 80) == Rounds(m, Renamed(r0, 0), 80)
    ensures Words(mem, at) == Residue(m)
    ensures forall k :: 0 <= k < mem.Length && !(at <= k < at + 64) ==> mem[k] == old(mem[k])
  {
    hide SwapsTo, RingAt, Renamed, Step, W, Swapped, Rol1, RoundInPlace, Words;
    ghost var raw := Words(mem, at);
    r := r0;
    assert RingAt(raw, raw, m, 0) by { RingFresh(raw, m); }
    for t := 0 to 80
      invariant |r| == 5 && Renamed(r, t) == Rounds(m, Renamed(r0, 0), t)
      invariant RingAt(Words(mem, at), raw, m, t)
      invariant forall k :: 0 <= k < mem.Length && !(at <= k < at + 64) ==> mem[k] == old(mem[k])
    {
      hide SwapsTo, RingAt, Renamed, Step, W, Swapped, Rol1, RoundInPlace, Words;
      var word;
      if t < 16 {
        RingEarly(Words(mem, at), raw, m, t);
        word := Blk0(mem, at, t);
      } else {
        RingLate(Words(mem, at), raw, m, t);
        word := Blk(mem, at, t);
      }
      RoundInPlaceIsStep(r, t, word);
      r := RoundInPlace(r, t, word);
    }
    RingDone(Words(mem, at), raw, m);
  }

  lemma RingFresh(raw: seq<bv32>, m: seq<bv32>)
    requires |raw| == 16 && |m| == 16
    ensures RingAt(raw, raw, m, 0)
  {
  }

  lemma RingDone(ring: seq<bv32>, raw: seq<bv32>, m: seq<bv32>)
    requires |ring| == 16 && |raw| == 16 && |m| == 16 && RingAt(ring, raw, m, 80)
    ensures ring == Residue(m)
  {
    hide W;
    forall i | 0 <= i < 16
      ensures ring[i] == W(m, 64 + i)
    {
      assert (64 + i) % 16 == i;
    }
  }

  /** The words of a block in memory, swapped, are those the standard parses from its bytes. */
  lemma BlockSwaps(mem: array<Octet>, at: nat)
    requires at + 64 <= mem.Length
    ensures SwapsTo(Words(mem, at), ParseBlock(mem[at..at + 64]))
  {
    hide Swapped, LittleEndianWord, BigEndianWord;
    forall i | 0 <= i < 16
      ensures Swapped(Words(mem, at)[i]) == ParseBlock(mem[at..at + 64])[i]
    {
      var p := at + 4 * i;
      SwappedLoad(mem[p], mem[p + 1], mem[p + 2], mem[p + 3]);
    }
  }

  /** Hashes the block at `at` into `state`: the compression of the standard on the bytes found there, which are
      replaced by the end of their own schedule. */
  method Transform(state: array<bv32>, mem: array<Octet>, at: nat)
    requires state.Length == 5 && at + 64 <= mem.Length
    modifies state, mem
    ensures StateOf(state) == Compress(old(StateOf(state)), ParseBlock(old(mem[at..at + 64])))
    ensures Words(mem, at) == Residue(ParseBlock(old(mem[at..at + 64])))
    ensures forall k :: 0 <= k < mem.Length && !(at <= k < at + 64) ==> mem[k] == old(mem[k])
  {
    hide SwapsTo, Rounds, Words, Residue, ParseBlock, Added;
    BlockSwaps(mem, at);
    ghost var m := ParseBlock(mem[at..at + 64]);
    var r0 := [state[0], state[1], state[2], state[3], state[4]];
    assert Renamed(r0, 0) == StateOf(state);
    var r := Rounds80(r0, mem, at, m);
    assert Renamed(r, 80) == Regs(r[0], r[1], r[2], r[3], r[4]);
    var sum := Added(Regs(state[0], state[1], state[2], state[3], state[4]), Regs(r[0], r[1], r[2], r[3], r[4]));
    state[0], state[1], state[2], state[3], state[4] := sum.a, sum.b, sum.c, sum.d, sum.e;
  }
}
