/** The chap-sha1 answer to the server's salt, and what computing it does to the password. */
module Scramble {
  import opened Bytes
  import opened Sha1Spec
  import opened Sha1Transform
  import opened Sha1Context
  import Base64

  const SCRAMBLE_SIZE := 20

  // ---------------------------------------------------------------- hashing in pieces

  function Joined(pieces: seq<seq<Octet>>): (s: seq<Octet>)
  {
    if pieces == [] then [] else Joined(pieces[..|pieces| - 1]) + pieces[|pieces| - 1]
  }

  /** However a message is split over the calls, the digest is that of the whole. */
  method HashPieces(pieces: seq<seq<Octet>>) returns (digest: seq<Octet>)
    requires forall p :: p in pieces ==> |p| <= WORD - 64
    ensures digest == Sha1(Joined(pieces))
  {
    hide Sha1, Context.Valid;
    var ctx := new Context();
    ctx.Init();
    for i := 0 to |pieces|
      invariant ctx.Valid() && fresh(ctx) && fresh(ctx.state) && fresh(ctx.buffer)
      invariant ctx.fed == Joined(pieces[..i])
    {
      hide Sha1, Context.Valid;
      var data := new Octet[|pieces[i]|](k requires 0 <= k < |pieces[i]| => pieces[i][k]);
      assert data[..data.Length] == pieces[i];
      assert pieces[i] in pieces;
      ctx.Update(data, data.Length);
      assert pieces[..i + 1][..i] == pieces[..i];
    }
    assert pieces[..|pieces|] == pieces;
    digest := Finished(ctx);
  }

  method Finished(ctx: Context) returns (digest: seq<Octet>)
    requires ctx.Valid()
    modifies ctx, ctx.state, ctx.buffer
    ensures ctx.Allocated() && digest == Sha1(old(ctx.fed))
  {
    var out := new Octet[SCRAMBLE_SIZE](_ => 0);
    ctx.Final(out);
    digest := out[..];
  }

  // ---------------------------------------------------------------- the scramble

  function Xor(a: seq<Octet>, b: seq<Octet>): (r: seq<Octet>)
    requires |a| == |b|
    ensures |r| == |a|
  {
    seq(|a|, i requires 0 <= i < |a| => a[i] ^ b[i])
  }

  function Octets(s: seq<byte>): (r: seq<Octet>)
    ensures |r| == |s|
  {
    seq(|s|, i requires 0 <= i < |s| => OctetOf(s[i]))
  }

  function Answer(password: seq<Octet>, salt: seq<Octet>): (r: seq<Octet>)
    ensures |r| == SCRAMBLE_SIZE
  {
    var hash1 := Sha1(password);
    var hash2 := Sha1(hash1);
    Xor(hash1, Sha1(salt + hash2))
  }

  /** The server's side of chap-sha1: it keeps the double hash of the password, unmasks the answer with the salt and
      looks whether what it finds hashes to what it keeps. */
  predicate ServerAccepts(stored: seq<Octet>, salt: seq<Octet>, answer: seq<Octet>)
    requires |answer| == SCRAMBLE_SIZE
  {
    Sha1(Xor(answer, Sha1(salt + stored))) == stored
  }

  lemma XorTwice(a: seq<Octet>, b: seq<Octet>)
    requires |a| == |b|
    ensures Xor(Xor(a, b), b) == a
  {
    forall i | 0 <= i < |a|
      ensures Xor(Xor(a, b), b)[i] == a[i]
    {
      XorTwiceOctet(a[i], b[i]);
    }
  }

  lemma XorTwiceOctet(x: Octet, y: Octet)
    ensures (x ^ y) ^ y == x
  {
  }

  /** The server accepts the right password under any salt, and learns its hash from the answer. */
  lemma AnswerAccepted(password: seq<Octet>, salt: seq<Octet>)
    ensures var stored := Sha1(Sha1(password));
            && Xor(Answer(password, salt), Sha1(salt + stored)) == Sha1(password)
            && ServerAccepts(stored, salt, Answer(password, salt))
  {
    hide Sha1;
    var stored := Sha1(Sha1(password));
    XorTwice(Sha1(password), Sha1(salt + stored));
  }

  /** For every password and every salt of at least 20 bytes, sent in base64 with any white space around it, what
      `ScramblePassword` computes from the text is what the server accepts. */
  lemma ScramblePasses(password: seq<Octet>, lead: string, salt: seq<byte>, trail: string)
    requires |salt| >= SCRAMBLE_SIZE
    requires (forall c :: c in lead ==> Base64.IsSpace(c)) && forall c :: c in trail ==> Base64.IsSpace(c)
    ensures var text := lead + Base64.Encode(salt) + trail;
            && |Base64.Trim(text)| % 4 == 0
            && Base64.DecodeSalt(text).Some? && |Base64.DecodeSalt(text).value| >= SCRAMBLE_SIZE
            && var front := Octets(salt[..SCRAMBLE_SIZE]);
            && Octets(Base64.DecodeSalt(text).value[..SCRAMBLE_SIZE]) == front
            && ServerAccepts(Sha1(Sha1(password)), front, Answer(password, front))
  {
    hide Sha1, Answer, ServerAccepts, Octets, Base64.DecodeSalt, Base64.Trim;
    Base64.SaltRecovered(lead, salt, trail);
    AnswerAccepted(password, Octets(salt[..SCRAMBLE_SIZE]));
  }

  /** Computes the answer. The password's memory is hashed in place, so it survives only if it is shorter than two
      blocks. The decoded salt must have the 20 bytes that are read from it. */
  method ScramblePassword(password: array<Octet>, salt: string) returns (r: Option<seq<Octet>>)
    requires password.Length < WORD && |Base64.Trim(salt)| % 4 == 0
    requires Base64.DecodeSalt(salt).Some? ==> |Base64.DecodeSalt(salt).value| >= SCRAMBLE_SIZE
    modifies password
    ensures match Base64.DecodeSalt(salt)
            case None => r == None
            case Some(bytes) => r == Some(Answer(old(password[..]), Octets(bytes[..SCRAMBLE_SIZE])))
    ensures password.Length < 128 ==> password[..] == old(password[..])
    ensures Spared(password[..], old(password[..]), 0, password.Length)
    ensures r.Some? ==> forall p :: 64 <= p && p + 64 <= password.Length && p % 64 == 0 ==>
                                      Burnt(password[..], old(password[..]), p)
    ensures r.Some? ==> (password[..] == old(password[..]) <==> Survives(old(password[..])))
  {
    hide Sha1, Context.Valid, Burnt, Spared, Survives;
    var decoded := Base64.DecodeSalt(salt);
    if decoded.None? {
      SparedAll(password[..], 0, password.Length);
      return None;
    }
    var hash1 := HashPassword(password);
    SurvivesIff(password[..], old(password[..]));
    var hash2 := HashPieces([hash1]);
    assert Joined([hash1]) == hash1 by { JoinedOne(hash1); }
    var front := Octets(decoded.value[..SCRAMBLE_SIZE]);
    var mask := HashPieces([front, hash2]);
    assert Joined([front, hash2]) == front + hash2 by { JoinedTwo(front, hash2); }
    var out := Masked(hash1, mask);
    r := Some(out);
  }

  method Masked(hash1: seq<Octet>, mask: seq<Octet>) returns (answer: seq<Octet>)
    requires |hash1| == |mask| == SCRAMBLE_SIZE
    ensures answer == Xor(hash1, mask)
  {
    var out := new Octet[SCRAMBLE_SIZE](_ => 0);
    for i := 0 to SCRAMBLE_SIZE
      invariant forall k :: 0 <= k < i ==> out[k] == hash1[k] ^ mask[k]
    {
      out[i] := hash1[i] ^ mask[i];
    }
    answer := out[..];
  }

  method HashPassword(password: array<Octet>) returns (digest: seq<Octet>)
    requires password.Length < WORD
    modifies password
    ensures digest == Sha1(old(password[..]))
    ensures password.Length < 128 ==> password[..] == old(password[..])
    ensures Spared(password[..], old(password[..]), 0, password.Length)
    ensures forall p :: 64 <= p && p + 64 <= password.Length && p % 64 == 0 ==>
                          Burnt(password[..], old(password[..]), p)
  {
    hide Sha1, Context.Valid, Burnt;
    var ctx := new Context();
    ctx.Init();
    assert password[..password.Length] == password[..];
    ctx.Update(password, password.Length);
    assert ctx.fed == old(password[..]);
    digest := Finished(ctx);
  }

  lemma JoinedOne(a: seq<Octet>)
    ensures Joined([a]) == a
  {
    assert [a][..0] == [];
  }

  lemma JoinedTwo(a: seq<Octet>, b: seq<Octet>)
    ensures Joined([a, b]) == a + b
  {
    assert [a, b][..1] == [a];
    JoinedOne(a);
  }

  // ---------------------------------------------------------------- which passwords survive

  /** Every block that is hashed in place ends up as it was; `ScramblePassword` leaves the password as it was exactly
      then. */
  ghost predicate Survives(password: seq<Octet>)
  {
    forall p :: 64 <= p && p + 64 <= |password| && p % 64 == 0 ==> Burnt(password, password, p)
  }

  lemma WordSpelledOnce(a0: Octet, a1: Octet, a2: Octet, a3: Octet, b0: Octet, b1: Octet, b2: Octet, b3: Octet)
    requires LittleEndianWord(a0, a1, a2, a3) == LittleEndianWord(b0, b1, b2, b3)
    ensures a0 == b0 && a1 == b1 && a2 == b2 && a3 == b3
  {
  }

  lemma WordsSpelledOnce(a: seq<Octet>, b: seq<Octet>)
    requires |a| == |b| == 64 && WordsOf(a) == WordsOf(b)
    ensures a == b
  {
    hide LittleEndianWord;
    forall k | 0 <= k < 64
      ensures a[k] == b[k]
    {
      var i := k / 4;
      assert WordsOf(a)[i] == WordsOf(b)[i];
      WordSpelledOnce(a[4 * i], a[4 * i + 1], a[4 * i + 2], a[4 * i + 3],
                      b[4 * i], b[4 * i + 1], b[4 * i + 2], b[4 * i + 3]);
    }
  }

  /** The memory is as before exactly if every block hashed in place reproduces itself. */
  lemma SurvivesIff(now: seq<Octet>, was: seq<Octet>)
    requires |now| == |was| && Spared(now, was, 0, |was|)
    requires forall p :: 64 <= p && p + 64 <= |was| && p % 64 == 0 ==> Burnt(now, was, p)
    ensures now == was <==> Survives(was)
  {
    hide Burnt;
    if Survives(was) {
      forall k | 0 <= k < |was|
        ensures now[k] == was[k]
      {
        if 64 <= k < |was| - |was| % 64 {
          var p := k - k % 64;
          BlockOf(k, |was|);
          BurntAlike(now, was, p);
          assert now[k] == now[p..p + 64][k - p] && was[k] == was[p..p + 64][k - p];
        }
      }
    }
  }

  lemma BlockOf(k: nat, n: nat)
    requires 64 <= k < n - n % 64
    ensures var p := k - k % 64; 64 <= p <= k < p + 64 <= n && p % 64 == 0
  {
    var a, b := k / 64, n / 64;
    assert 64 * a + 64 <= 64 * b;
  }

  lemma BurntAlike(now: seq<Octet>, was: seq<Octet>, p: nat)
    requires p + 64 <= |now| == |was| && Burnt(now, was, p) && Burnt(was, was, p)
    ensures now[p..p + 64] == was[p..p + 64]
  {
    hide WordsOf, ParseBlock, Residue;
    WordsSpelledOnce(now[p..p + 64], was[p..p + 64]);
  }

  /** The schedule of a block of all ones, one bit for a whole word. */
  ghost function OnesBit(t: nat): bool
  {
    if t < 16 then true
    else ((OnesBit(t - 3) != OnesBit(t - 8)) != OnesBit(t - 14)) != OnesBit(t - 16)
  }

  function Mask(b: bool): bv32 { if b then 0xFFFF_FFFF else 0 }

  lemma MaskStep(a: bool, b: bool, c: bool, d: bool)
    ensures Rotl1(Xor4(Mask(a), Mask(b), Mask(c), Mask(d))) == Mask(((a != b) != c) != d)
  {
  }

  lemma {:induction false} OnesSchedule(m: seq<bv32>, t: nat)
    requires |m| == 16 && forall i :: 0 <= i < 16 ==> m[i] == 0xFFFF_FFFF
    ensures W(m, t) == Mask(OnesBit(t))
  {
    if t >= 16 {
      hide Rotl1, Xor4, Mask;
      OnesSchedule(m, t - 3);
      OnesSchedule(m, t - 8);
      OnesSchedule(m, t - 14);
      OnesSchedule(m, t - 16);
      MaskStep(OnesBit(t - 3), OnesBit(t - 8), OnesBit(t - 14), OnesBit(t - 16));
    }
  }

  lemma OnesBit64()
    ensures !OnesBit(64)
  {
  }

  /** A password of the given length whose second block is all ones. */
  function Fragile(n: nat): (s: seq<Octet>)
    ensures |s| == n
  {
    seq(n, _ => 0xFF)
  }

  lemma OnesWords(block: seq<Octet>)
    requires |block| == 64 && forall i :: 0 <= i < 64 ==> block[i] == 0xFF
    ensures WordsOf(block)[0] == 0xFFFF_FFFF
    ensures forall i :: 0 <= i < 16 ==> ParseBlock(block)[i] == 0xFFFF_FFFF
  {
    assert LittleEndianWord(0xFF, 0xFF, 0xFF, 0xFF) == 0xFFFF_FFFF;
    assert BigEndianWord(0xFF, 0xFF, 0xFF, 0xFF) == 0xFFFF_FFFF;
  }

  lemma FragileIsDestroyed(n: nat)
    requires n >= 128
    ensures !Survives(Fragile(n))
  {
    hide W, ParseBlock, WordsOf;
    var block := Fragile(n)[64..128];
    OnesWords(block);
    OnesSchedule(ParseBlock(block), 64);
    OnesBit64();
    assert Residue(ParseBlock(block))[0] == 0;
    assert !Burnt(Fragile(n), Fragile(n), 64);
  }

  /** A run that destroys the password. */
  method DestroysFragile(n: nat, salt: string) returns (password: array<Octet>, r: Option<seq<Octet>>)
    requires 128 <= n < WORD && |Base64.Trim(salt)| % 4 == 0
    requires Base64.DecodeSalt(salt).Some? && |Base64.DecodeSalt(salt).value| >= SCRAMBLE_SIZE
    ensures r == Some(Answer(Fragile(n), Octets(Base64.DecodeSalt(salt).value[..SCRAMBLE_SIZE])))
    ensures password.Length == n && password[..] != Fragile(n)
  {
    hide Answer, Burnt, Spared, Survives, Octets, Base64.DecodeSalt, Base64.Trim;
    password := new Octet[n](_ => 0xFF);
    assert password[..] == Fragile(n);
    FragileIsDestroyed(n);
    r := ScramblePassword(password, salt);
  }

  /** Authenticating leaves every password of a given length intact exactly when the length is below 128. */
  lemma PasswordsSurviveIff(n: nat)
    ensures (forall password :: |password| == n ==> Survives(password)) <==> n < 128
  {
    hide Burnt;
    if n >= 128 {
      FragileIsDestroyed(n);
      assert |Fragile(n)| == n;
    }
  }
}
