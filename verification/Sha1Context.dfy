/** Streaming SHA-1: a bit counter split into two words, a partial block, and final padding. */
module Sha1Context {
  import opened Sha1Spec
  import opened Sha1Transform

  const WORD: nat := 0x1_0000_0000

  function Whole(n: nat): (w: nat)
    ensures w <= n && w % 64 == 0 && n - w == n % 64 < 64
  {
    n - n % 64
  }

  // ---------------------------------------------------------------- the bit counter

  function Low(bytes: nat): (c: nat)
    ensures c < WORD
  {
    8 * bytes % WORD
  }

  function High(bytes: nat): (c: nat)
    ensures c < WORD
  {
    8 * bytes / WORD % WORD
  }

  /** Adding the length in 32-bit steps, with the carry read off the wrap-around, counts modulo 2^64. */
  lemma CounterStep(n: nat, len: nat)
    requires len < WORD
    ensures var low := (Low(n) + 8 * len % WORD) % WORD;
            var carried := if low < Low(n) then (High(n) + 1) % WORD else High(n);
            low == Low(n + len) && (carried + len / 0x2000_0000) % WORD == High(n + len)
  {
    hide Low, High;
    var q, c := CounterParts(n);
    var p, l := CounterParts(len);
    assert p == len / 0x2000_0000;
    WrapAround(c, l);
    CounterSum(n, len, q, c, p, l);
    if c + l < WORD {
      ModAdd(q, p);
    } else {
      ModAdd(q, 1);
      ModAdd(q + 1, p);
    }
  }

  lemma CounterParts(n: nat) returns (q: nat, c: nat)
    ensures 8 * n == q * WORD + c && c < WORD && q == n / 0x2000_0000
    ensures c == Low(n) == 8 * n % WORD && High(n) == q % WORD
  {
    q, c := 8 * n / WORD, 8 * n % WORD;
  }

  lemma CounterSum(n: nat, len: nat, q: nat, c: nat, p: nat, l: nat)
    requires 8 * n == q * WORD + c && 8 * len == p * WORD + l && c < WORD && l < WORD
    ensures var carry := if c + l < WORD then 0 else 1;
            Low(n + len) == c + l - carry * WORD && High(n + len) == (q + p + carry) % WORD
  {
    if c + l < WORD {
      Quotient(8 * (n + len), q + p, c + l);
    } else {
      Quotient(8 * (n + len), q + p + 1, c + l - WORD);
    }
  }

  /** A sum of two words wraps around exactly if it comes out below its first term. */
  lemma WrapAround(c: nat, l: nat)
    requires c < WORD && l < WORD
    ensures (c + l) % WORD == if c + l < WORD then c + l else c + l - WORD
    ensures (c + l) % WORD < c <==> c + l >= WORD
  {
  }

  lemma Quotient(x: nat, q: nat, r: nat)
    requires x == q * WORD + r && r < WORD
    ensures x / WORD == q && x % WORD == r
  {
  }

  lemma ModAdd(a: nat, b: nat)
    ensures (a % WORD + b) % WORD == (a + b) % WORD
  {
  }

  /** The position within the block, read off the low word. */
  lemma CounterPosition(n: nat)
    ensures Low(n) / 8 % 64 == n % 64
  {
    hide Low;
    var _, c := CounterParts(n);
    OctetsOf(n, c);
  }

  lemma OctetsOf(n: nat, c: nat)
    requires c == 8 * n % WORD
    ensures c / 8 % 64 == n % 64
  {
    var q := 8 * n / WORD;
    assert c / 8 == n - 64 * (0x80_0000 * q);
    DropBlocks(n - 64 * (0x80_0000 * q), 0x80_0000 * q);
  }

  lemma DropBlocks(r: nat, k: nat)
    ensures (r + 64 * k) % 64 == r % 64
  {
  }

  // ---------------------------------------------------------------- hashing in pieces

  lemma HashAppend(msg: seq<Octet>, block: seq<Octet>)
    requires |msg| % 64 == 0 && |block| == 64
    ensures HashBlocks(msg + block) == Compress(HashBlocks(msg), ParseBlock(block))
  {
    hide Compress, ParseBlock;
    var all := msg + block;
    assert all[..|all| - 64] == msg && all[|all| - 64..] == block;
  }

  lemma HashNext(all: seq<Octet>, p: nat)
    requires p % 64 == 0 && p + 64 <= |all|
    ensures HashBlocks(all[..p + 64]) == Compress(HashBlocks(all[..p]), ParseBlock(all[p..p + 64]))
  {
    hide HashBlocks, Compress, ParseBlock;
    assert all[..p + 64] == all[..p] + all[p..p + 64];
    HashAppend(all[..p], all[p..p + 64]);
  }

  /** The 64 bytes at p have been hashed in place: they are now the end of the schedule of what they were. */
  ghost predicate Burnt(now: seq<Octet>, was: seq<Octet>, p: nat)
    requires p + 64 <= |now| == |was|
  {
    WordsOf(now[p..p + 64]) == Residue(ParseBlock(was[p..p + 64]))
  }

  ghost function WordsOf(block: seq<Octet>): (s: seq<bv32>)
    requires |block| == 64
    ensures |s| == 16
  {
    seq(16, i requires 0 <= i < 16 =>
      LittleEndianWord(block[4 * i], block[4 * i + 1], block[4 * i + 2], block[4 * i + 3]))
  }

  lemma WordsInMemory(mem: array<Octet>, at: nat)
    requires at + 64 <= mem.Length
    ensures Words(mem, at) == WordsOf(mem[at..at + 64])
  {
    hide LittleEndianWord;
  }

  /** The block at i of the data is the block at base + i of the message. */
  lemma Window(all: seq<Octet>, data: seq<Octet>, base: nat, len: nat, i: nat)
    requires i + 64 <= len <= |data| && base + len <= |all| && all[base..] == data[..len]
    ensures all[base + i..base + i + 64] == data[i..i + 64]
  {
    assert all[base + i..base + i + 64] == all[base..][i..i + 64];
    assert data[..len][i..i + 64] == data[i..i + 64];
  }

  lemma Appended(fed: seq<Octet>, data: seq<Octet>, len: nat, i: nat)
    requires i <= len <= |data|
    ensures var all := fed + data[..len];
            all[|fed|..] == data[..len] && data[i..len] == all[|all| - (len - i)..]
            && fed[Whole(|fed|)..] == all[Whole(|fed|)..|fed|] && fed[..Whole(|fed|)] == all[..Whole(|fed|)]
  {
  }

  lemma WholeAt(p: nat, rest: nat)
    requires p % 64 == 0 && rest < 64
    ensures Whole(p + rest) == p && (p + rest) % 64 == rest
  {
  }

  /** A whole block of the data, counted from the position in the message, ends where direct hashing does. */
  lemma InStep(n: nat, j: nat, p: nat, i: nat, len: nat)
    requires j == n % 64 && (j + p) % 64 == 0 && p + 64 <= len < i + 64 && (n + i) % 64 == 0
    ensures (n + p) % 64 == 0 && p + 64 <= i
  {
    DropBlocks(j + p, n / 64);
    WholeBlock(n, p, i);
  }

  lemma WholeBlock(n: nat, p: nat, i: nat)
    requires (n + p) % 64 == 0 && (n + i) % 64 == 0 && p < i
    ensures p + 64 <= i
  {
    var a, b := (n + p) / 64, (n + i) / 64;
    assert i - p == 64 * (b - a);
  }

  /** Byte i of the 64-bit length lies wholly in one of the two counter words. */
  lemma LengthByteSplit(n: nat, i: nat)
    requires i < 8
    ensures LengthBytes(8 * n)[i] == OctetOf(((if i >= 4 then Low(n) else High(n)) / Shift(4 + i % 4)) % 256)
  {
    hide Shift, OctetOf;
    if i >= 4 {
      assert 4 + i % 4 == i;
      ByteOfRemainder(8 * n, i);
    } else {
      assert i % 4 == i;
      HighByte(8 * n, i);
    }
  }

  lemma HighByte(bits: nat, i: nat)
    requires i < 4
    ensures (bits / WORD % WORD / Shift(4 + i)) % 256 == (bits / Shift(i)) % 256
  {
    hide Shift;
    ByteOfRemainder(bits / WORD, 4 + i);
    NestedQuotient(bits, i);
  }

  lemma ByteOfRemainder(x: nat, k: nat)
    requires 4 <= k < 8
    ensures (x % WORD / Shift(k)) % 256 == (x / Shift(k)) % 256
  {
    var q, r := x / WORD, x % WORD;
    if k == 4 {
      QuotientBy24(x, q, r);
      DropMultiple(q, r / 0x100_0000);
    } else if k == 5 {
      QuotientBy16(x, q, r);
      DropMultiple(0x100 * q, r / 0x1_0000);
    } else if k == 6 {
      QuotientBy8(x, q, r);
      DropMultiple(0x1_0000 * q, r / 0x100);
    } else {
      DropMultiple(0x100_0000 * q, r);
    }
  }

  lemma QuotientBy24(x: nat, q: nat, r: nat)
    requires x == q * WORD + r
    ensures x / 0x100_0000 == q * 0x100 + r / 0x100_0000
  {
  }

  lemma QuotientBy16(x: nat, q: nat, r: nat)
    requires x == q * WORD + r
    ensures x / 0x1_0000 == q * 0x1_0000 + r / 0x1_0000
  {
  }

  lemma QuotientBy8(x: nat, q: nat, r: nat)
    requires x == q * WORD + r
    ensures x / 0x100 == q * 0x100_0000 + r / 0x100
  {
  }

  lemma DropMultiple(a: nat, y: nat)
    ensures (a * 256 + y) % 256 == y % 256
  {
  }

  lemma NestedQuotient(x: nat, i: nat)
    requires i < 4
    ensures x / WORD / Shift(4 + i) == x / Shift(i)
  {
  }

  /** Of `len` bytes hashed on top of `j` waiting ones, those that fill the first block and those behind the last whole
      block are as they were. */
  ghost predicate Spared(now: seq<Octet>, was: seq<Octet>, j: nat, len: nat)
  {
    && |now| == |was|
    && forall k :: 0 <= k < |was| && (k < 64 - j || len - (j + len) % 64 <= k) ==> now[k] == was[k]
  }

  lemma SparedAll(s: seq<Octet>, j: nat, len: nat)
    ensures Spared(s, s, j, len)
  {
  }

  lemma SparedEnds(now: seq<Octet>, was: seq<Octet>, n: nat, j: nat, len: nat, i: nat)
    requires |now| == |was| && 64 - j <= len && i <= len <= |was| && j == n % 64 && (n + len) % 64 == len - i
    requires 0 <= 64 - j <= |was| && now[..64 - j] == was[..64 - j] && now[i..] == was[i..]
    ensures Spared(now, was, j, len)
  {
    forall k | 0 <= k < |was| && (k < 64 - j || i <= k)
      ensures now[k] == was[k]
    {
      if k < 64 - j {
        assert now[k] == now[..64 - j][k];
      } else {
        assert now[k] == now[i..][k - i];
      }
    }
  }

  /** What hashing in place up to `i` leaves of the data, seen from a context that has been fed `n` bytes before. */
  lemma DirectLeaves(now: seq<Octet>, was: seq<Octet>, n: nat, j: nat, len: nat, i: nat)
    requires |now| == |was| && j == n % 64 && 64 - j <= i <= len <= |was| && len < i + 64 && (n + i) % 64 == 0
    requires now[..64 - j] == was[..64 - j] && now[i..] == was[i..]
    requires forall p :: 64 - j <= p && p + 64 <= i && (n + p) % 64 == 0 ==> Burnt(now, was, p)
    ensures Whole(n + len) == n + i && (n + len) % 64 == len - i
    ensures now[i..len] == was[i..len] && Spared(now, was, j, len)
    ensures forall p :: 64 - j <= p && p + 64 <= len && (j + p) % 64 == 0 ==> Burnt(now, was, p)
  {
    hide Spared, Burnt;
    WholeAt(n + i, len - i);
    SparedEnds(now, was, n, j, len, i);
    assert now[i..len] == now[i..][..len - i] && was[i..][..len - i] == was[i..len];
    forall p | 64 - j <= p && p + 64 <= len && (j + p) % 64 == 0
      ensures Burnt(now, was, p)
    {
      InStep(n, j, p, i, len);
    }
  }

  lemma DigestInMemory(digest: array<Octet>, state: array<bv32>)
    requires digest.Length == 20 && state.Length == 5
    requires forall k :: 0 <= k < 20 ==> digest[k] == WordByte(state[k / 4], k % 4)
    ensures digest[..] == DigestOf(StateOf(state))
  {
    hide WordByte;
  }

  class Context {
    const state: array<bv32>
    const buffer: array<Octet>
    var count0: nat
    var count1: nat
    /** All the bytes hashed so far, as they were when they were passed in. */
    ghost var fed: seq<Octet>

    ghost predicate Allocated()
    {
      state.Length == 5 && buffer.Length == 64
    }

    ghost predicate Valid()
      reads this, state, buffer
    {
      && Allocated()
      && count0 == Low(|fed|) && count1 == High(|fed|)
      && StateOf(state) == HashBlocks(fed[..Whole(|fed|)])
      && buffer[..|fed| % 64] == fed[Whole(|fed|)..]
    }

    constructor ()
      ensures Allocated() && fresh(state) && fresh(buffer)
    {
      state := new bv32[5](_ => 0);
      buffer := new Octet[64](_ => 0);
      count0, count1, fed := 0, 0, [];
    }

    method Init()
      requires Allocated()
      modifies this, state
      ensures Valid() && fed == []
    {
      state[0], state[1], state[2], state[3], state[4] := 0x67452301, 0xEFCDAB89, 0x98BADCFE, 0x10325476, 0xC3D2E1F0;
      count0, count1 := 0, 0;
      fed := [];
    }

    method Count(len: nat)
      requires len < WORD && count0 == Low(|fed|) && count1 == High(|fed|)
      modifies this`count0, this`count1
      ensures count0 == Low(|fed| + len) && count1 == High(|fed| + len)
    {
      CounterStep(|fed|, len);
      var j := count0;
      count0 := (count0 + 8 * len % WORD) % WORD;
      if count0 < j {
        count1 := (count1 + 1) % WORD;
      }
      count1 := (count1 + len / 0x2000_0000) % WORD;
    }

    /** Hashes whole blocks straight from the caller's data, destroying them, while at least 64 bytes remain. */
    method HashDirect(data: array<Octet>, len: nat, start: nat, ghost all: seq<Octet>, ghost base: nat) returns (i: nat)
      requires Allocated() && data != buffer && start <= len <= data.Length
      requires |all| == base + len && (base + start) % 64 == 0 && all[base..] == data[..len]
      requires StateOf(state) == HashBlocks(all[..base + start])
      modifies state, data
      ensures start <= i <= len < i + 64 && (base + i) % 64 == 0
      ensures StateOf(state) == HashBlocks(all[..base + i])
      ensures data[..start] == old(data[..start]) && data[i..] == old(data[i..])
      ensures forall p :: start <= p && p + 64 <= i && (base + p) % 64 == 0 ==> Burnt(data[..], old(data[..]), p)
      ensures start + 64 > len ==> i == start && data[..] == old(data[..])
    {
      hide HashBlocks, Compress, ParseBlock, Residue, Words, WordsOf, Burnt, StateOf;
      i := start;
      ghost var was := data[..];
      while i + 63 < len
        invariant start <= i <= len && (base + i) % 64 == 0
        invariant StateOf(state) == HashBlocks(all[..base + i])
        invariant data[..start] == was[..start] && data[i..] == was[i..]
        invariant forall p :: start <= p && p + 64 <= i && (base + p) % 64 == 0 ==> Burnt(data[..], was, p)
        invariant i == start ==> data[..] == was
      {
        hide HashBlocks, Compress, ParseBlock, Residue, Words, WordsOf, Burnt, StateOf;
        HashNext(all, base + i);
        Window(all, was, base, len, i);
        DropBlocks(base + i, 1);
        i := HashOne(data, i, start, base, was);
      }
    }

    /** One turn of that loop. */
    method HashOne(data: array<Octet>, i: nat, ghost start: nat, ghost base: nat, ghost was: seq<Octet>)
      returns (i': nat)
      requires Allocated() && data != buffer && start <= i && i + 64 <= data.Length == |was|
      requires (base + i) % 64 == 0 && data[..start] == was[..start] && data[i..] == was[i..]
      requires forall p :: start <= p && p + 64 <= i && (base + p) % 64 == 0 ==> Burnt(data[..], was, p)
      modifies state, data
      ensures i' == i + 64
      ensures StateOf(state) == Compress(old(StateOf(state)), ParseBlock(was[i..i + 64]))
      ensures data[..start] == was[..start] && data[i'..] == was[i'..]
      ensures forall p :: start <= p && p + 64 <= i' && (base + p) % 64 == 0 ==> Burnt(data[..], was, p)
    {
      hide Compress, ParseBlock, Residue, Words, WordsOf, StateOf;
      assert data[i..i + 64] == data[i..][..64] == was[i..][..64] == was[i..i + 64];
      ghost var before := data[..];
      Transform(state, data, i);
      WordsInMemory(data, i);
      i' := i + 64;
      assert Burnt(data[..], was, i) by { assert data[..][i..i + 64] == data[i..i + 64]; }
      assert data[..start] == before[..start] && data[i'..] == before[i..][64..];
      forall p | start <= p && p + 64 <= i' && (base + p) % 64 == 0
        ensures Burnt(data[..], was, p)
      {
        if p < i {
          WholeBlock(base, p, i);
          assert Burnt(before, was, p);
          assert data[..][p..p + 64] == before[p..p + 64];
        }
      }
    }

    /** Hashes `len` more bytes. The result is that of the bytes as they were on entry, although those hashed directly
        are destroyed; that happens to whole blocks only, and only from the second block on. The source needs
        the bytes at hand and the new ones together to stay below 2^32. */
    method Update(data: array<Octet>, len: nat)
      requires Valid() && data != buffer && len <= data.Length
      requires |fed| % 64 + len < WORD
      modifies this, state, buffer, data
      ensures Valid() && fed == old(fed) + old(data[..len])
      ensures |old(fed)| % 64 + len < 128 ==> data[..] == old(data[..])
      ensures Spared(data[..], old(data[..]), |old(fed)| % 64, len)
      ensures var j := |old(fed)| % 64;
              forall p :: 64 - j <= p && p + 64 <= len && (j + p) % 64 == 0 ==> Burnt(data[..], old(data[..]), p)
    {
      hide HashBlocks, StateOf, Low, High, Burnt, Whole, Spared;
      ghost var all := fed + data[..len];
      CounterPosition(|fed|);
      var j := count0;
      Count(len);
      j := j / 8 % 64;
      Absorb(data, len, j);
      fed := all;
    }

    /** Everything but the counting. */
    method Absorb(data: array<Octet>, len: nat, start: nat)
      requires Allocated() && data != buffer && len <= data.Length && start == |fed| % 64
      requires StateOf(state) == HashBlocks(fed[..Whole(|fed|)]) && buffer[..start] == fed[Whole(|fed|)..]
      modifies state, buffer, data
      ensures var all := fed + old(data[..len]);
              StateOf(state) == HashBlocks(all[..Whole(|all|)]) && buffer[..|all| % 64] == all[Whole(|all|)..]
      ensures start + len < 128 ==> data[..] == old(data[..])
      ensures Spared(data[..], old(data[..]), start, len)
      ensures forall p :: 64 - start <= p && p + 64 <= len && (start + p) % 64 == 0 ==>
                Burnt(data[..], old(data[..]), p)
    {
      hide HashBlocks, StateOf, Burnt, Spared;
      ghost var all := fed + data[..len];
      ghost var was := data[..];
      var i, j := 0, start;
      if j + len > 63 {
        i := HashWhole(data, len, j, all);
        j := 0;
      } else {
        WholeAt(Whole(|fed|), j + len);
        SparedAll(was, j, len);
      }
      Appended(fed, was, len, i);
      Stow(data, i, len, j, all);
    }

    /** The branch that has at least one whole block to hash. */
    method HashWhole(data: array<Octet>, len: nat, j: nat, ghost all: seq<Octet>) returns (i: nat)
      requires Allocated() && data != buffer && j == |fed| % 64 && 64 - j <= len <= data.Length
      requires all == fed + data[..len]
      requires StateOf(state) == HashBlocks(fed[..Whole(|fed|)])
      requires buffer[..j] == fed[Whole(|fed|)..]
      modifies state, buffer, data
      ensures i <= len < i + 64 && Whole(|all|) == |fed| + i && |all| % 64 == len - i
      ensures StateOf(state) == HashBlocks(all[..|fed| + i])
      ensures data[i..len] == old(data[i..len])
      ensures Spared(data[..], old(data[..]), j, len)
      ensures j + len < 128 ==> data[..] == old(data[..])
      ensures forall p :: 64 - j <= p && p + 64 <= len && (j + p) % 64 == 0 ==> Burnt(data[..], old(data[..]), p)
    {
      hide HashBlocks, Compress, ParseBlock, Residue, Words, WordsOf, StateOf, Burnt, Spared;
      ghost var was := data[..];
      Appended(fed, was, len, 0);
      HashFirst(data, j, all);
      i := HashDirect(data, len, 64 - j, all, |fed|);
      DirectLeaves(data[..], was, |fed|, j, len, i);
    }

    /** Completes the partial block from the data and hashes it. */
    method HashFirst(data: array<Octet>, j: nat, ghost all: seq<Octet>)
      requires Allocated() && data != buffer && j == |fed| % 64 && 64 - j <= data.Length
      requires fed + data[..64 - j] <= all
      requires StateOf(state) == HashBlocks(fed[..Whole(|fed|)])
      requires buffer[..j] == fed[Whole(|fed|)..]
      modifies state, buffer
      ensures (|fed| + (64 - j)) % 64 == 0
      ensures StateOf(state) == HashBlocks(all[..|fed| + (64 - j)])
    {
      hide HashBlocks, Compress, ParseBlock, Residue, Words, StateOf;
      forall k | 0 <= k < 64 - j {
        buffer[j + k] := data[k];
      }
      ghost var w := Whole(|fed|);
      assert buffer[..j] == fed[w..] && buffer[j..] == data[..64 - j];
      assert buffer[0..0 + 64] == buffer[..j] + buffer[j..];
      assert all[..|fed| + (64 - j)] == fed + data[..64 - j];
      assert all[..w] == fed[..w] && all[w..w + 64] == fed[w..] + data[..64 - j];
      HashNext(all, w);
      Transform(state, buffer, 0);
    }

    /** Keeps the bytes that do not fill a block. */
    method Stow(data: array<Octet>, i: nat, len: nat, j: nat, ghost all: seq<Octet>)
      requires Allocated() && data != buffer && i <= len <= data.Length && j + (len - i) < 64
      requires len - i <= |all| && j + (len - i) == |all| % 64
      requires data[i..len] == all[|all| - (len - i)..]
      requires j <= |all| - (len - i) && buffer[..j] == all[|all| - (len - i) - j..|all| - (len - i)]
      modifies buffer
      ensures buffer[..|all| % 64] == all[Whole(|all|)..]
    {
      forall k | 0 <= k < len - i {
        buffer[j + k] := data[i + k];
      }
      ghost var n := len - i;
      assert buffer[..j] == old(buffer[..j]);
      assert buffer[..j + n] == buffer[..j] + data[i..len];
      assert all[Whole(|all|)..] == all[|all| - n - j..|all| - n] + all[|all| - n..];
    }

    /** The bit count as eight bytes, high word first. */
    method CountBytes() returns (finalCount: array<Octet>)
      requires Valid()
      ensures fresh(finalCount) && finalCount[..] == LengthBytes(8 * |fed|)
    {
      finalCount := new Octet[8](_ => 0);
      for i := 0 to 8
        invariant forall k :: 0 <= k < i ==> finalCount[k] == LengthBytes(8 * |fed|)[k]
      {
        hide Shift, OctetOf;
        LengthByteSplit(|fed|, i);
        finalCount[i] := OctetOf(((if i >= 4 then count0 else count1) / Shift(4 + i % 4)) % 256);
      }
      assert finalCount[..] == LengthBytes(8 * |fed|);
    }

    method FeedByte(c: array<Octet>)
      requires Valid() && c.Length == 1 && c != buffer
      modifies this, state, buffer, c
      ensures Valid() && fed == old(fed) + [old(c[0])] && count0 / 8 % 64 == |fed| % 64
    {
      hide HashBlocks, StateOf, Low, High, Whole, Spared, Burnt;
      assert c[..1] == [c[0]];
      Update(c, 1);
      CounterPosition(|fed|);
    }

    /** A one bit, then zeros until eight bytes are missing from the block, one byte at a time. */
    method AppendPadding()
      requires Valid()
      modifies this, state, buffer
      ensures Valid() && fed == old(fed) + [0x80] + Zeros(PadZeros(|old(fed)|))
    {
      hide Valid, PadZeros;
      ghost var n := |fed|;
      ghost var k := 0;
      var c := new Octet[1](_ => 0x80);
      FeedByte(c);
      assert fed == old(fed) + [0x80] + Zeros(0);
      while count0 / 8 % 64 != 56
        invariant Valid() && k <= PadZeros(n) && fed == old(fed) + [0x80] + Zeros(k)
        invariant count0 / 8 % 64 == |fed| % 64
        decreases PadZeros(n) - k
      {
        hide Valid, PadZeros;
        c[0] := 0;
        FeedByte(c);
        k := k + 1;
        assert fed == old(fed) + [0x80] + Zeros(k);
      }
      PadZerosIsSmallest(n, k);
    }

    method Wipe()
      requires Allocated()
      modifies this, state, buffer
      ensures count0 == 0 && count1 == 0
      ensures (forall i :: 0 <= i < 5 ==> state[i] == 0) && forall i :: 0 <= i < 64 ==> buffer[i] == 0
    {
      count0, count1 := 0, 0;
      forall i | 0 <= i < 5 { state[i] := 0; }
      forall i | 0 <= i < 64 { buffer[i] := 0; }
    }

    /** Pads, hashes the last block or two and writes out the digest of everything fed; the context is wiped. */
    method Final(digest: array<Octet>)
      requires Valid() && digest.Length == 20 && digest != buffer
      modifies this, state, buffer, digest
      ensures digest[..] == Sha1(old(fed))
      ensures Allocated() && count0 == 0 && count1 == 0
      ensures (forall i :: 0 <= i < 5 ==> state[i] == 0) && forall i :: 0 <= i < 64 ==> buffer[i] == 0
    {
      hide HashBlocks, StateOf, WordByte;
      ghost var msg := fed;
      var finalCount := CountBytes();
      AppendPadding();
      Update(finalCount, 8);
      assert finalCount[..8] == finalCount[..];
      assert fed == Pad(msg) && fed[..|fed|] == fed;
      for i := 0 to 20
        invariant Allocated() && StateOf(state) == HashBlocks(Pad(msg))
        invariant forall k :: 0 <= k < i ==> digest[k] == WordByte(state[k / 4], k % 4)
      {
        digest[i] := WordByte(state[i / 4], i % 4);
      }
      assert digest[..] == DigestOf(StateOf(state)) by { DigestInMemory(digest, state); }
      Wipe();
    }
  }
}
