/** Building requests: bytes appended to a stream, with the message length and the entry count of an open map
    written back into it at the end. */
module RequestPacker {
  import opened Bytes
  import opened MsgPack
  import opened Headers
  import opened FrameParser

  const SIZE_TAG: byte := 0xce
  const MAP_TAG: byte := 0xde
  const PREAMBLE_SIZE := 5

  /** `s` with the bytes from `at` on overwritten by `patch`. */
  function Patched(s: seq<byte>, at: nat, patch: seq<byte>): (r: seq<byte>)
    requires at + |patch| <= |s|
    ensures |r| == |s|
    ensures forall i :: 0 <= i < |s| ==> r[i] == if at <= i < at + |patch| then patch[i - at] else s[i]
  {
    s[..at] + patch + s[at + |patch|..]
  }

  /** A finished request: size tag, 32-bit size, payload. */
  function Framed(payload: seq<byte>): (s: seq<byte>)
    ensures |s| == PREAMBLE_SIZE + |payload|
  {
    [SIZE_TAG] + BigEndian(|payload| % SIZE_LIMIT, 4) + payload
  }

  /** A finished map whose entry count was filled in afterwards, in 16 bits. */
  function CountedMap(es: seq<Entry>): (s: seq<byte>)
    ensures |s| >= 3
  {
    [MAP_TAG] + BigEndian(|es| % 0x1_0000, 2) + EncodeEntries(es)
  }

  class Packer {
    var out: seq<byte>
    var mapLenOffset: nat
    var headerCount: nat

    /** The size tag is in place, with four bytes reserved behind it, and an open map's two count bytes lie within
        the output. */
    ghost predicate Valid()
      reads this
    {
      && |out| >= PREAMBLE_SIZE && out[0] == SIZE_TAG
      && (mapLenOffset != 0 ==> PREAMBLE_SIZE <= mapLenOffset && mapLenOffset + 2 <= |out|)
      && headerCount < 0x1_0000
    }

    ghost function Payload(): (s: seq<byte>)
      requires Valid()
      reads this
    {
      out[PREAMBLE_SIZE..]
    }

    constructor ()
      ensures Valid() && Payload() == [] && mapLenOffset == 0 && headerCount == 0
    {
      out := [SIZE_TAG, 0xff, 0xff, 0xff, 0xff];
      mapLenOffset, headerCount := 0, 0;
    }

    method Append(bytes: seq<byte>)
      requires Valid()
      modifies this`out
      ensures Valid() && Payload() == old(Payload()) + bytes && out == old(out) + bytes
    {
      out := out + bytes;
    }

    method PackHeader(h: Header)
      requires Valid()
      modifies this`out
      ensures Valid() && Payload() == old(Payload()) + Pack(h) && out == old(out) + Pack(h)
    {
      Append(Pack(h));
    }

    method BeginMap(count: nat)
      requires Valid() && count < LIMIT
      modifies this`out
      ensures Valid() && Payload() == old(Payload()) + MapHead(count)
    {
      Append(MapHead(count));
    }

    /** Opens a map whose number of entries is not known yet. */
    method BeginOpenMap()
      requires Valid()
      modifies this`out, this`mapLenOffset
      ensures Valid() && Payload() == old(Payload()) + [MAP_TAG, 0xff, 0xff]
      ensures mapLenOffset == |old(out)| + 1
    {
      out := out + [MAP_TAG];
      mapLenOffset := |out|;
      out := out + [0xff, 0xff];
      assert out == old(out) + [MAP_TAG, 0xff, 0xff];
    }

    method PackMapEntry(e: Entry)
      requires Valid()
      modifies this`out, this`headerCount
      ensures Valid() && Payload() == old(Payload()) + EncodeEntry(e) && out == old(out) + EncodeEntry(e)
      ensures headerCount == (old(headerCount) + 1) % 0x1_0000
    {
      hide Encode;
      Regroup(out, Encode(e.key), Encode(e.val));
      Regroup(Payload(), Encode(e.key), Encode(e.val));
      Append(Encode(e.key));
      Append(Encode(e.val));
      headerCount := (headerCount + 1) % 0x1_0000;
    }

    /** Writes the count of entries into the open map; no other byte changes. */
    method FinalizeMap()
      requires Valid() && mapLenOffset != 0
      modifies this`out
      ensures Valid() && out == Patched(old(out), mapLenOffset, BigEndian(headerCount, 2))
      ensures Payload() == Patched(old(Payload()), mapLenOffset - PREAMBLE_SIZE, BigEndian(headerCount, 2))
    {
      out := Patched(out, mapLenOffset, BigEndian(headerCount, 2));
    }

    /** Writes the size of the payload, in 32-bit arithmetic, into the preamble; no other byte changes. */
    method Finalize()
      requires Valid()
      modifies this`out
      ensures Valid() && out == Framed(old(Payload()))
      ensures forall i :: 0 <= i < |out| && !(1 <= i < PREAMBLE_SIZE) ==> out[i] == old(out)[i]
    {
      var cast := |out| % SIZE_LIMIT;
      var realSize := (cast - 1 - 4 + SIZE_LIMIT) % SIZE_LIMIT;
      SizeArithmetic(|out|);
      ghost var payload := Payload();
      out := Patched(out, 1, BigEndian(realSize, 4));
      assert out == Framed(payload);
    }
  }

  lemma SizeArithmetic(n: nat)
    requires n >= PREAMBLE_SIZE
    ensures (n % SIZE_LIMIT - 1 - 4 + SIZE_LIMIT) % SIZE_LIMIT == (n - PREAMBLE_SIZE) % SIZE_LIMIT
  {
    var k, r := n / SIZE_LIMIT, n % SIZE_LIMIT;
    assert n == k * SIZE_LIMIT + r;
    if r >= PREAMBLE_SIZE {
      assert (n - PREAMBLE_SIZE) / SIZE_LIMIT == k;
    } else {
      assert (n - PREAMBLE_SIZE) / SIZE_LIMIT == k - 1;
    }
  }

  // ---------------------------------------------------------------- what the receiving side makes of it

  /** The size written into a request is the size of its payload exactly below the 32-bit limit. */
  lemma FramedLengthIff(payload: seq<byte>, rest: seq<byte>)
    ensures ParseLength(Framed(payload) + rest) == Length(|payload|, PREAMBLE_SIZE) <==> |payload| < SIZE_LIMIT
  {
    var size := |payload| % SIZE_LIMIT;
    assert Framed(payload) + rest == [SIZE_TAG] + BigEndian(size, 4) + (payload + rest);
    PackedLengthAgrees(size, payload + rest);
  }

  /** Any finished request, followed by anything, is one frame to the receiving side: same sync, type and stream,
      the packed body, and exactly the packed bytes consumed. */
  lemma RequestRoundTrip(h: Header, body: seq<byte>, rest: seq<byte>)
    requires Fits(h) && |Pack(h)| + |body| < SIZE_LIMIT
    ensures var request := Framed(Pack(h) + body);
            Parse(request + rest) ==
            Cut(if body == [] then HeaderOnly(h.(schemaVersion := 0)) else Message(h.(schemaVersion := 0), body),
                |request|)
  {
    hide ParseLength, Decode, Convert, Pack;
    var payload := Pack(h) + body;
    FramedLengthIff(payload, rest);
    var s := Framed(payload) + rest;
    assert s[PREAMBLE_SIZE..PREAMBLE_SIZE + |payload|] == payload;
    HeaderRoundTrip(h, body);
    assert payload[|Pack(h)|..] == body;
  }

  datatype Outgoing = Outgoing(header: Header, body: seq<byte>)

  predicate Fitting(r: Outgoing) {
    Fits(r.header) && r.body != [] && |Pack(r.header)| + |r.body| < SIZE_LIMIT
  }

  /** Finished requests, back to back. */
  function OnWire(rs: seq<Outgoing>): (s: seq<byte>)
  {
    if rs == [] then [] else Framed(Pack(rs[0].header) + rs[0].body) + OnWire(rs[1..])
  }

  function AsContents(rs: seq<Outgoing>): (cs: seq<Content>)
    ensures |cs| == |rs|
  {
    seq(|rs|, i requires 0 <= i < |rs| => Message(rs[i].header.(schemaVersion := 0), rs[i].body))
  }

  /** Requests written one after the other are cut apart again into the same requests, in order, and whatever follows
      them is read as if it stood alone. */
  lemma {:induction false} StreamRoundTrip(rs: seq<Outgoing>, rest: seq<byte>)
    requires forall r :: r in rs ==> Fitting(r)
    ensures ParseAll(OnWire(rs) + rest) == AsContents(rs) + ParseAll(rest)
  {
    hide Parse, ParseAll, Pack, Framed, Fits;
    if rs == [] {
      assert OnWire(rs) + rest == rest && AsContents(rs) + ParseAll(rest) == ParseAll(rest);
    } else {
      var first, others := Framed(Pack(rs[0].header) + rs[0].body), OnWire(rs[1..]) + rest;
      assert rs[0] in rs && Fitting(rs[0]);
      StreamRoundTrip(rs[1..], rest);
      RequestRoundTrip(rs[0].header, rs[0].body, others);
      Regroup(first, OnWire(rs[1..]), rest);
      var c := Message(rs[0].header.(schemaVersion := 0), rs[0].body);
      ParseAllStep([], first + others);
      assert [] + ParseAll(first + others) == ParseAll(first + others) && [] + [c] == [c];
      assert AsContents(rs) == [c] + AsContents(rs[1..]);
      assert [c] + (AsContents(rs[1..]) + ParseAll(rest)) == AsContents(rs) + ParseAll(rest);
    }
  }

  /** How many requests at the front are complete in the first `n` bytes on the wire. */
  function WholeIn(rs: seq<Outgoing>, n: nat): (k: nat)
    ensures k <= |rs|
  {
    if rs == [] then 0
    else
      var size := |Framed(Pack(rs[0].header) + rs[0].body)|;
      if n < size then 0 else 1 + WholeIn(rs[1..], n - size)
  }

  /** Part of a request is no message yet. */
  lemma PartParses(r: Outgoing, n: nat)
    requires Fitting(r) && n < |Framed(Pack(r.header) + r.body)|
    ensures ParseAll(Framed(Pack(r.header) + r.body)[..n]) == []
  {
    hide Parse, Pack, Framed, Fits, ParseAll;
    var request := Framed(Pack(r.header) + r.body);
    var part := request[..n];
    assert part + request[n..] == request == request + [];
    RequestRoundTrip(r.header, r.body, []);
    if Parse(part).Cut? {
      ParseExtends(part, request[n..]);
    }
    ParseAllStop(part);
  }

  /** However far the writing has got, what is on the wire is read as the requests that are complete, in order. */
  lemma {:induction false} PrefixRoundTrip(rs: seq<Outgoing>, n: nat)
    requires (forall r :: r in rs ==> Fitting(r)) && n <= |OnWire(rs)|
    ensures ParseAll(OnWire(rs)[..n]) == AsContents(rs[..WholeIn(rs, n)])
  {
    hide ParseAll, Pack, Framed, Fitting, AsContents;
    if rs == [] {
      assert OnWire(rs)[..n] == OnWire(rs) + [] && rs[..0] == rs;
      StreamRoundTrip(rs, []);
      NothingParses();
      assert AsContents(rs) + [] == AsContents(rs);
    } else {
      var first := Framed(Pack(rs[0].header) + rs[0].body);
      assert rs[0] in rs;
      if n < |first| {
        assert OnWire(rs)[..n] == first[..n];
        PartParses(rs[0], n);
        NoContents(rs);
      } else {
        var k := WholeIn(rs[1..], n - |first|);
        assert OnWire(rs)[..n] == first + OnWire(rs[1..])[..n - |first|];
        PrefixRoundTrip(rs[1..], n - |first|);
        OneMore(rs, OnWire(rs[1..])[..n - |first|], k);
      }
    }
  }

  lemma NothingParses()
    ensures ParseAll([]) == []
  {
    ParseNothing();
  }

  lemma NoContents(rs: seq<Outgoing>)
    ensures AsContents(rs[..0]) == []
  {
  }

  lemma OneMore(rs: seq<Outgoing>, rest: seq<byte>, k: nat)
    requires rs != [] && Fitting(rs[0]) && k < |rs| && ParseAll(rest) == AsContents(rs[1..][..k])
    ensures ParseAll(Framed(Pack(rs[0].header) + rs[0].body) + rest) == AsContents(rs[..k + 1])
  {
    hide ParseAll, Pack, Framed, Fits;
    var first := Framed(Pack(rs[0].header) + rs[0].body);
    assert OnWire([rs[0]]) == first + [] == first;
    StreamRoundTrip([rs[0]], rest);
    assert rs[..k + 1] == [rs[0]] + rs[1..][..k];
    assert AsContents(rs[..k + 1]) == AsContents([rs[0]]) + AsContents(rs[1..][..k]);
  }

  /** A counted map decodes to its entries, in order and with nothing left over, exactly while their number fits
      the 16-bit count. */
  lemma CountedMapIff(es: seq<Entry>, rest: seq<byte>)
    requires forall e :: e in es ==> Encodable(e.key) && Encodable(e.val)
    ensures Decode(CountedMap(es) + rest) == Got(Map(es), |CountedMap(es)|) <==> |es| < 0x1_0000
  {
    hide Decode, DecodeHead, DecodeEntries, EncodeEntries, Encodable;
    var count := |es| % 0x1_0000;
    var s := CountedMap(es) + rest;
    CountedMapHead(count, EncodeEntries(es) + rest);
    assert s == [MAP_TAG] + BigEndian(count, 2) + (EncodeEntries(es) + rest);
    assert s[3..] == EncodeEntries(es) + rest;
    if |es| < 0x1_0000 {
      RoundTripEntries(es, rest);
      DecodeMapStep(s, count, 3);
    } else if DecodeEntries(s[3..], count).Got? {
      DecodeMapStep(s, count, 3);
    } else {
      DecodeMapFails(s, count, 3);
    }
  }

  lemma CountedMapHead(count: nat, rest: seq<byte>)
    requires count < 0x1_0000
    ensures DecodeHead([MAP_TAG] + BigEndian(count, 2) + rest) == MapOf(count, 3)
  {
    SpanValues();
    FieldRoundTrip(MAP_TAG, count, 2, rest);
  }

  lemma DecodeMapFails(s: seq<byte>, count: nat, u: nat)
    requires DecodeHead(s) == MapOf(count, u) && DecodeEntries(s[u..], count).Failed?
    ensures Decode(s) == Failed
  {
    hide DecodeHead, DecodeEntries;
  }
}
