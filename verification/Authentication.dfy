/** From the greeting to the authentication request: the salt is cut out of the second line, the password scrambled with
    it, and the answer packed. */
module Authentication {
  import opened Bytes
  import opened MsgPack
  import opened Sha1Spec
  import opened Sha1Context
  import Base64
  import opened Scramble
  import RequestBuilders
  import opened Framing
  import opened Reconnect

  /** Bytes as the characters of a string, and back. */
  function Chars(s: seq<byte>): (text: string)
    ensures |text| == |s|
  {
    seq(|s|, i requires 0 <= i < |s| => s[i] as char)
  }

  function Raw(s: seq<Octet>): (bytes: seq<byte>)
    ensures |bytes| == |s|
  {
    seq(|s|, i requires 0 <= i < |s| => s[i] as int)
  }

  lemma OctetRoundTrip(x: Octet)
    ensures OctetOf(x as int) == x
  {
  }

  lemma RawRoundTrip(s: seq<Octet>)
    ensures Octets(Raw(s)) == s
  {
    forall i | 0 <= i < |s|
      ensures Octets(Raw(s))[i] == s[i]
    {
      OctetRoundTrip(s[i]);
    }
  }

  /** The second line of the peer's greeting is `salt` in base64 with white space around it. */
  ghost predicate Offers(a: Attempt, salt: seq<byte>)
  {
    a.Peer? && |a.sends| >= HELLO_SIZE && Line(Chars(a.sends[HELLO_SIZE / 2..HELLO_SIZE]), salt)
  }

  ghost predicate Line(text: string, salt: seq<byte>)
  {
    exists lead: string, trail: string ::
      && text == lead + Base64.Encode(salt) + trail
      && (forall c :: c in lead ==> Base64.IsSpace(c)) && forall c :: c in trail ==> Base64.IsSpace(c)
  }

  ghost predicate ReadsAs(password: seq<Octet>, text: string, salt: seq<byte>)
    requires |salt| >= SCRAMBLE_SIZE
  {
    && |Base64.Trim(text)| % 4 == 0
    && Base64.DecodeSalt(text).Some? && |Base64.DecodeSalt(text).value| >= SCRAMBLE_SIZE
    && var front := Octets(salt[..SCRAMBLE_SIZE]);
    && Octets(Base64.DecodeSalt(text).value[..SCRAMBLE_SIZE]) == front
    && ServerAccepts(Sha1(Sha1(password)), front, Answer(password, front))
  }

  /** Such a line determines what is read from it. */
  lemma LineRead(password: seq<Octet>, text: string, salt: seq<byte>)
    requires |salt| >= SCRAMBLE_SIZE && Line(text, salt)
    ensures ReadsAs(password, text, salt)
  {
    hide Sha1, Answer, ServerAccepts, Octets, Base64.DecodeSalt, Base64.Trim;
    var lead: string, trail: string :|
      && text == lead + Base64.Encode(salt) + trail
      && (forall c :: c in lead ==> Base64.IsSpace(c)) && forall c :: c in trail ==> Base64.IsSpace(c);
    ScramblePasses(password, lead, salt, trail);
  }

  /** The entries of an authentication request. */
  function AuthEntries(user: seq<byte>, answer: seq<Octet>): (es: seq<Entry>)
  {
    [Entry(Int(RequestBuilders.USERNAME), Str(user)),
     Entry(Int(RequestBuilders.TUPLE), Arr([Str(RequestBuilders.CHAP_SHA1), Str(Raw(answer))]))]
  }

  /** Answers the salt in a line of the greeting. */
  method Authenticate(text: string, user: seq<byte>, password: array<Octet>, sync: nat)
    returns (request: seq<byte>, answer: seq<Octet>)
    requires password.Length < WORD && exists salt :: |salt| >= SCRAMBLE_SIZE && Line(text, salt)
    modifies password
    ensures RequestBuilders.Carries(request, RequestBuilders.AUTH, sync, AuthEntries(user, answer))
    ensures |answer| == SCRAMBLE_SIZE && Octets(Raw(answer)) == answer
    ensures forall salt :: |salt| >= SCRAMBLE_SIZE && Line(text, salt) ==>
              ServerAccepts(Sha1(Sha1(old(password[..]))), Octets(salt[..SCRAMBLE_SIZE]), answer)
  {
    hide Sha1, Answer, ServerAccepts, Octets, Base64.DecodeSalt, Base64.Trim, Line, Burnt, Spared, Survives;
    hide RequestBuilders.Carries;
    forall salt | |salt| >= SCRAMBLE_SIZE && Line(text, salt)
      ensures ReadsAs(password[..], text, salt)
    {
      LineRead(password[..], text, salt);
    }
    ghost var one :| |one| >= SCRAMBLE_SIZE && Line(text, one);
    assert ReadsAs(password[..], text, one);
    var r := ScramblePassword(password, text);
    answer := r.value;
    RawRoundTrip(answer);
    request := RequestBuilders.Auth(sync, user, Raw(answer));
  }

  /** Connects and authenticates. Whichever peer is reached, if its greeting offers a salt of at least 20 bytes, the
      request carries the user and an answer that this peer, keeping the double hash of the password, accepts. */
  method Handshake(connection: Connection, resolved: Option<seq<Attempt>>, user: seq<byte>, password: array<Octet>,
                   sync: nat)
    returns (winner: Option<nat>, request: seq<byte>, answer: seq<Octet>)
    requires connection.framing.Valid() && password.Length < WORD
    requires resolved.Some? ==>
               forall a :: a in resolved.value && Greets(a) ==>
                 exists salt :: |salt| >= SCRAMBLE_SIZE && Offers(a, salt)
    modifies connection, connection.framing.stream, connection.framing.buffer, password
    ensures winner.Some? ==>
              && resolved.Some? && winner.value < |resolved.value| && Greets(resolved.value[winner.value])
              && Missed(resolved.value[..winner.value])
              && RequestBuilders.Carries(request, RequestBuilders.AUTH, sync, AuthEntries(user, answer))
              && |answer| == SCRAMBLE_SIZE && Octets(Raw(answer)) == answer
              && var stored := Sha1(Sha1(old(password[..])));
              forall salt :: |salt| >= SCRAMBLE_SIZE && Offers(resolved.value[winner.value], salt) ==>
                ServerAccepts(stored, Octets(salt[..SCRAMBLE_SIZE]), answer)
  {
    hide Sha1, ServerAccepts, Octets, Line, Missed, RequestBuilders.Carries, IprotoFraming.Valid;
    winner := connection.Connect(resolved);
    if winner.None? {
      return winner, [], [];
    }
    ghost var peer := resolved.value[winner.value];
    assert peer in resolved.value && Greets(peer);
    ghost var one :| |one| >= SCRAMBLE_SIZE && Offers(peer, one);
    assert Line(Chars(connection.salt), one);
    request, answer := Authenticate(Chars(connection.salt), user, password, sync);
  }
}
