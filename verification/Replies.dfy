/** What the client makes of the frames a server sends, with the keys and tags of the protocol written out. */
module Replies {
  import opened Bytes
  import opened MsgPack
  import opened Headers
  import opened FrameParser
  import opened RequestPacker

  /** A frame with a 32-bit length. */
  function Frame(payload: seq<byte>): (s: seq<byte>)
  {
    [0xce] + BigEndian(|payload|, 4) + payload
  }

  lemma FrameCut(payload: seq<byte>, rest: seq<byte>)
    requires |payload| < 0x1_0000_0000
    ensures Parse(Frame(payload) + rest) == Cut(Interpret(payload), 5 + |payload|)
  {
    hide ParseLength, Interpret, BigEndian;
    var s := Frame(payload) + rest;
    assert s == [0xce] + BigEndian(|payload|, 4) + (payload + rest);
    PackedLengthAgrees(|payload|, payload + rest);
    assert s[5..5 + |payload|] == payload;
  }

  /** Whatever its encoding and the order of its entries, a header with type, sync and schema version, and perhaps a
      stream, followed by a body, is delivered with exactly these. */
  lemma ReplyParses(payload: seq<byte>, es: seq<Entry>, k: nat, kind: nat, sync: nat, version: nat,
                    stream: Option<nat>, rest: seq<byte>)
    requires Decode(payload) == Got(Map(es), k) && k < |payload| < 0x1_0000_0000
    requires IsReply(es, kind, sync, version, stream)
    ensures Parse(Frame(payload) + rest)
            == Cut(Message(Header(kind, sync, version, stream), payload[k..]), 5 + |payload|)
  {
    hide Parse, Decode, Convert, IsReply, Frame;
    FrameCut(payload, rest);
    ReplyConverts(es, kind, sync, version, stream);
  }

  /** In the shortest encoding, for all 64-bit values. */
  lemma ShortReplyParses(es: seq<Entry>, body: seq<byte>, kind: nat, sync: nat, version: nat, stream: Option<nat>,
                         rest: seq<byte>)
    requires IsReply(es, kind, sync, version, stream) && |es| < 0x1_0000_0000
    requires Fits(Header(kind, sync, version, stream))
    requires body != [] && |Encode(Map(es)) + body| < 0x1_0000_0000
    ensures Parse(Frame(Encode(Map(es)) + body) + rest)
            == Cut(Message(Header(kind, sync, version, stream), body), 5 + |Encode(Map(es)) + body|)
  {
    hide Parse, Decode, Encode, Frame;
    assert Encodable(Map(es));
    RoundTrip(Map(es), body);
    var payload := Encode(Map(es)) + body;
    assert payload[|Encode(Map(es))|..] == body;
    ReplyParses(payload, es, |Encode(Map(es))|, kind, sync, version, stream, rest);
  }

  // ---------------------------------------------------------------- the way the server writes it

  /** The server gives every field its full width. */
  function ServerHeader(kind: nat, sync: nat, version: nat): (s: seq<byte>)
  {
    [0x83, 0x00, 0xce] + BigEndian(kind, 4)
    + ([0x01, 0xcf] + BigEndian(sync, 8) + ([0x05, 0xce] + BigEndian(version, 4)))
  }

  lemma FieldDecodes(key: byte, tag: byte, v: nat, n: nat, rest: seq<byte>)
    requires key < 0x80 && ((tag == 0xce && n == 4) || (tag == 0xcf && n == 8)) && v < Span(n)
    ensures var s := [key, tag] + BigEndian(v, n) + rest;
            && Decode(s) == Got(Int(key), 1) && Decode(s[1..]) == Got(Int(v), 1 + n) && s[2 + n..] == rest
  {
    hide BigEndian, FromBigEndian, Span;
    var s := [key, tag] + BigEndian(v, n) + rest;
    assert s[1..] == [tag] + BigEndian(v, n) + rest;
    FieldRoundTrip(tag, v, n, rest);
  }

  lemma ServerHeaderDecodes(kind: nat, sync: nat, version: nat, body: seq<byte>)
    requires kind < 0x1_0000_0000 && sync < 0x1_0000_0000_0000_0000 && version < 0x1_0000_0000
    ensures Decode(ServerHeader(kind, sync, version) + body)
            == Got(Map([Entry(Int(0x00), Int(kind)), Entry(Int(0x01), Int(sync)), Entry(Int(0x05), Int(version))]),
                   |ServerHeader(kind, sync, version)|)
  {
    hide Decode, DecodeEntries, BigEndian, Span;
    SpanValues();
    var s3 := [0x05, 0xce] + BigEndian(version, 4) + body;
    var s2 := [0x01, 0xcf] + BigEndian(sync, 8) + s3;
    var s1 := [0x00, 0xce] + BigEndian(kind, 4) + s2;
    var s := ServerHeader(kind, sync, version) + body;
    assert s == [0x83] + s1 && s[1..] == s1;
    FieldDecodes(0x05, 0xce, version, 4, body);
    FieldDecodes(0x01, 0xcf, sync, 8, s3);
    FieldDecodes(0x00, 0xce, kind, 4, s2);
    var e1, e2, e3 := Entry(Int(0), Int(kind)), Entry(Int(1), Int(sync)), Entry(Int(5), Int(version));
    NoEntries(body);
    DecodeEntriesStep(s3, 1, e3, 1, 5);
    DecodeEntriesStep(s2, 2, e2, 1, 9);
    DecodeEntriesStep(s1, 3, e1, 1, 5);
    assert [e1] + ([e2] + ([e3] + [])) == [e1, e2, e3];
    DecodeMapStep(s, 3, 1);
  }

  lemma NoEntries(s: seq<byte>)
    ensures DecodeEntries(s, 0) == Got([], 0)
  {
  }

  /** Every reply of the server is delivered with its type, sync, schema version and body. */
  lemma ServerReplyParses(kind: nat, sync: nat, version: nat, body: seq<byte>, rest: seq<byte>)
    requires kind < 0x1_0000_0000 && sync < 0x1_0000_0000_0000_0000 && version < 0x1_0000_0000
    requires body != [] && |ServerHeader(kind, sync, version) + body| < 0x1_0000_0000
    ensures Parse(Frame(ServerHeader(kind, sync, version) + body) + rest)
            == Cut(Message(Header(kind, sync, version, None), body), 5 + |ServerHeader(kind, sync, version) + body|)
  {
    hide Parse, Decode, Frame, ServerHeader;
    ServerHeaderDecodes(kind, sync, version, body);
    var es := [Entry(Int(0x00), Int(kind)), Entry(Int(0x01), Int(sync)), Entry(Int(0x05), Int(version))];
    var header := ServerHeader(kind, sync, version);
    assert es[0] in es && es[1] in es && es[2] in es;
    assert (header + body)[|header|..] == body;
    ReplyParses(header + body, es, |header|, kind, sync, version, None, rest);
  }

  // ---------------------------------------------------------------- what is refused

  /** What ends a frame otherwise: a payload that is no MessagePack, one that is no header, and a header alone. */
  lemma Refusals(rest: seq<byte>)
    ensures Parse([0xce, 0, 0, 0, 1, 0xc1] + rest) == Cut(Refused(StateNotRecoverable), 6)
    ensures Parse([0xce, 0, 0, 0, 1, 0xc0] + rest) == Cut(Refused(IllegalByteSequence), 6)
    ensures Parse([0xce, 0, 0, 0, 1, 0x80] + rest)
            == Cut(HeaderOnly(Header(0xffff_ffff_ffff_ffff, 0, 0, None)), 6)
    ensures Parse([0xd0, 0xff] + rest) == Cut(Refused(MessageSize), 2)
  {
    hide Interpret, ParseLength, Frame;
    FrameOfOne(0xc1);
    FrameOfOne(0xc0);
    FrameOfOne(0x80);
    FrameCut([0xc1], rest);
    FrameCut([0xc0], rest);
    FrameCut([0x80], rest);
    NotAHeader();
    NegativeSize(rest);
  }

  lemma FrameOfOne(b: byte)
    ensures Frame([b]) == [0xce, 0, 0, 0, 1, b]
  {
    hide BigEndian;
    BigEndianFour(1);
  }

  lemma NotAHeader()
    ensures Interpret([0xc1]) == Refused(StateNotRecoverable)
    ensures Interpret([0xc0]) == Refused(IllegalByteSequence)
    ensures Interpret([0x80]) == HeaderOnly(Header(0xffff_ffff_ffff_ffff, 0, 0, None))
  {
    assert DecodeHead([0xc1]) == Bad && DecodeHead([0xc0]) == Scalar(Nil, 1) && DecodeHead([0x80]) == MapOf(0, 1);
    assert DecodeEntries([0x80][1..], 0) == Got([], 0);
    assert Decode([0x80]) == Got(Map([]), 1);
  }

  lemma NegativeSize(rest: seq<byte>)
    ensures ParseLength([0xd0, 0xff] + rest) == BadLength(2)
  {
    assert ([0xd0, 0xff] + rest)[1..2] == [0xff];
  }
}
