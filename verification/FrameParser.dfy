/** The reference for the receive path: a pure parser that cuts one byte sequence into IPROTO frames, using the
    length rules of `read_message_length` as they are written. */
module FrameParser {
  import opened Bytes
  import opened MsgPack
  import opened Headers

  const SIZE_LIMIT: nat := 0x1_0000_0000  // SizeType is 32 bits wide

  /** The error codes `receive_message` reports on its own account. */
  datatype Errc = MessageSize | IllegalByteSequence | StateNotRecoverable

  datatype LengthOutcome =
    | NeedMore
    | BadLength(used: nat)
    | Length(size: nat, used: nat)

  function UintLength(s: seq<byte>, n: nat): (r: LengthOutcome)
  {
    match Field(s, n) case None => NeedMore case Some(v) => Length(v % SIZE_LIMIT, 1 + n)
  }

  function SintLength(s: seq<byte>, n: nat): (r: LengthOutcome)
  {
    match Field(s, n)
    case None => NeedMore
    case Some(v) =>
      var size := Signed(v, n);
      if 0 <= size < SIZE_LIMIT then Length(size, 1 + n) else BadLength(1 + n)
  }

  /** The tag dispatch as written: the 16-bit tag 0xcd has no branch of its own, and a tag matched by no branch
      leaves the length at zero. */
  function ParseLength(s: seq<byte>): (r: LengthOutcome)
    ensures r.Length? ==> r.size < SIZE_LIMIT
    ensures !r.NeedMore? ==> 1 <= r.used <= |s|
  {
    if s == [] then NeedMore
    else if s[0] < 0x80 then Length(s[0], 1)
    else if s[0] == 0xcc then UintLength(s, 1)
    else if s[0] == 0xce then UintLength(s, 4)
    else if s[0] == 0xcf then UintLength(s, 8)
    else if s[0] >= 0xe0 then BadLength(1)
    else if s[0] == 0xd0 then SintLength(s, 1)
    else if s[0] == 0xd1 then SintLength(s, 2)
    else if s[0] == 0xd2 then SintLength(s, 4)
    else if s[0] == 0xd3 then SintLength(s, 8)
    else Length(0, 1)
  }

  lemma ParseNothing()
    ensures ParseLength([]) == NeedMore
  {
  }

  /** How many bytes of length follow a tag. */
  function FieldWidth(t: byte): (w: nat)
  {
    if t == 0xcc || t == 0xd0 then 1
    else if t == 0xd1 then 2
    else if t == 0xce || t == 0xd2 then 4
    else if t == 0xcf || t == 0xd3 then 8
    else 0
  }

  /** The length a tag and the unsigned reading of its field amount to. */
  function Judge(t: byte, v: nat): (r: LengthOutcome)
    requires v < Span(FieldWidth(t))
    ensures !r.NeedMore? && r.used == 1 + FieldWidth(t)
  {
    var w := FieldWidth(t);
    if w == 0 then
      if t < 0x80 then Length(t, 1) else if t >= 0xe0 then BadLength(1) else Length(0, 1)
    else if t < 0xd0 then Length(v % SIZE_LIMIT, 1 + w)
    else
      var size := Signed(v, w);
      if size < 0 || size >= SIZE_LIMIT then BadLength(1 + w) else Length(size, 1 + w)
  }

  /** Reading the tag first and its field afterwards gives the same length as looking at all bytes at once. */
  lemma ParseLengthByParts(s: seq<byte>)
    requires s != []
    ensures var w := FieldWidth(s[0]);
            ParseLength(s) ==
            if |s| < 1 + w then NeedMore else Judge(s[0], FromBigEndian(s[1..][..w]))
  {
    var w := FieldWidth(s[0]);
    if |s| >= 1 + w {
      assert s[1..][..w] == s[1..1 + w];
    }
  }

  /** What the payload of a message turns into. `HeaderOnly` is the payload whose header takes every byte: the
      slice for the body then violates the assertion `start < m_size`. */
  datatype Content =
    | Refused(code: Errc)
    | HeaderOnly(header: Header)
    | Message(header: Header, body: seq<byte>)

  function Interpret(payload: seq<byte>): (c: Content)
  {
    match Decode(payload)
    case Failed => Refused(StateNotRecoverable)
    case Got(v, k) =>
      match Convert(v)
      case None => Refused(IllegalByteSequence)
      case Some(h) => if k < |payload| then Message(h, payload[k..]) else HeaderOnly(h)
  }

  datatype Parsed =
    | Incomplete
    | Cut(content: Content, used: nat)

  /** The first frame of `s`, if all of it is there. */
  function Parse(s: seq<byte>): (r: Parsed)
    ensures r.Cut? ==> 1 <= r.used <= |s|
  {
    match ParseLength(s)
    case NeedMore => Incomplete
    case BadLength(u) => Cut(Refused(MessageSize), u)
    case Length(n, u) => if |s| < u + n then Incomplete else Cut(Interpret(s[u..u + n]), u + n)
  }

  /** All complete messages at the front of `s`, stopping at the first thing that is not one. */
  function ParseAll(s: seq<byte>): (ms: seq<Content>)
    ensures forall m :: m in ms ==> m.Message?
    decreases |s|
  {
    var p := Parse(s);
    if p.Incomplete? || !p.content.Message? then [] else [p.content] + ParseAll(s[p.used..])
  }

  lemma ParseAllStep(done: seq<Content>, s: seq<byte>)
    requires Parse(s).Cut? && Parse(s).content.Message?
    ensures done + ParseAll(s) == (done + [Parse(s).content]) + ParseAll(s[Parse(s).used..])
  {
    hide Parse;
  }

  lemma ParseAllStop(s: seq<byte>)
    ensures Parse(s).Incomplete? || !Parse(s).content.Message? ==> ParseAll(s) == []
  {
    hide Parse;
  }

  // ---------------------------------------------------------------- properties of the reference

  lemma FieldExtends(s: seq<byte>, more: seq<byte>, n: nat)
    requires Field(s, n).Some?
    ensures Field(s + more, n) == Field(s, n)
  {
    assert (s + more)[1..1 + n] == s[1..1 + n];
  }

  lemma LengthExtends(s: seq<byte>, more: seq<byte>)
    requires !ParseLength(s).NeedMore?
    ensures ParseLength(s + more) == ParseLength(s)
  {
    assert (s + more)[0] == s[0];
    forall n: nat | Field(s, n).Some?
      ensures Field(s + more, n) == Field(s, n)
    {
      FieldExtends(s, more, n);
    }
  }

  /** A decided frame is decided once and for all: bytes that arrive later cannot change it. */
  lemma ParseExtends(s: seq<byte>, more: seq<byte>)
    requires Parse(s).Cut?
    ensures Parse(s + more) == Parse(s)
  {
    hide ParseLength, Interpret;
    LengthExtends(s, more);
    var l := ParseLength(s);
    if l.Length? {
      assert (s + more)[l.used..l.used + l.size] == s[l.used..l.used + l.size];
    }
  }

  /** The messages of a stream's prefix are a prefix of the messages of the stream. */
  lemma {:induction false} ParseAllMonotone(s: seq<byte>, more: seq<byte>)
    ensures ParseAll(s) <= ParseAll(s + more)
    decreases |s|
  {
    hide Parse;
    var p := Parse(s);
    if p.Cut? {
      ParseExtends(s, more);
      if p.content.Message? {
        assert (s + more)[p.used..] == s[p.used..] + more;
        ParseAllMonotone(s[p.used..], more);
      }
    }
  }

  // ---------------------------------------------------------------- the length rules against MessagePack

  /** What a length should be: the MessagePack integer at the front, refused when no 32-bit size. */
  function IntendedLength(v: int, used: nat): (r: LengthOutcome)
  {
    if 0 <= v < SIZE_LIMIT then Length(v, used) else BadLength(used)
  }

  /** Over every MessagePack integer, the code reads the length it should exactly when the integer is not in the
      16-bit unsigned format and not a 64-bit unsigned value that needs more than 32 bits. */
  lemma LengthAgreesIff(s: seq<byte>)
    requires DecodeHead(s).Scalar? && DecodeHead(s).v.Int?
    ensures ParseLength(s) == IntendedLength(DecodeHead(s).v.n, DecodeHead(s).used)
            <==> s[0] != 0xcd && (s[0] == 0xcf ==> DecodeHead(s).v.n < SIZE_LIMIT)
  {
    hide FromBigEndian, Span;
    SpanValues();
    var v := DecodeHead(s).v.n;
    if s[0] == 0xcd {
      assert ParseLength(s) == Length(0, 1) && DecodeHead(s).used == 3;
    } else if s[0] == 0xcf {
      assert ParseLength(s) == Length(v % SIZE_LIMIT, 9);
    }
  }

  /** A 16-bit length is taken for an empty message, and its two bytes for the start of the next one. */
  lemma SixteenBitLengthIsLost(n: nat, rest: seq<byte>)
    requires 0x100 <= n < 0x1_0000
    ensures ParseLength(EncodeInt(n) + rest) == Length(0, 1)
    ensures Parse(EncodeInt(n) + rest) == Cut(Refused(StateNotRecoverable), 1)
  {
    var s := EncodeInt(n) + rest;
    assert s[0] == 0xcd;
    assert s[1..1] == [];
    assert Decode([]) == Failed;
  }

  /** Everything that is no MessagePack integer passes for an empty message, and the frame is refused after one byte. */
  lemma NoIntegerIsEmpty(tag: byte, rest: seq<byte>)
    requires 0x80 <= tag <= 0xcb || 0xd4 <= tag <= 0xdf
    ensures ParseLength([tag] + rest) == Length(0, 1)
    ensures Parse([tag] + rest) == Cut(Refused(StateNotRecoverable), 1)
  {
    var s := [tag] + rest;
    assert s[1..1] == [];
    assert Decode([]) == Failed;
  }

  /** A 64-bit length is cut to its low 32 bits instead of being refused. */
  lemma SixtyFourBitLengthIsNarrowed(n: nat, rest: seq<byte>)
    requires SIZE_LIMIT <= n < UINT64
    ensures ParseLength(EncodeInt(n) + rest) == Length(n % SIZE_LIMIT, 9)
  {
    SpanValues();
    FieldRoundTrip(0xcf, n, 8, rest);
  }

  /** Lengths are minted with the fixed 32-bit tag by the packer; that form is always read back whole. */
  lemma PackedLengthAgrees(size: nat, rest: seq<byte>)
    requires size < SIZE_LIMIT
    ensures ParseLength([0xce] + BigEndian(size, 4) + rest) == Length(size, 5)
  {
    SpanValues();
    FieldRoundTrip(0xce, size, 4, rest);
  }
}
