/** The MessagePack wire format: the packer's choice of the shortest encoding and the decoder used by
    `unpack`, over all format families. */
module MsgPack {
  import opened Bytes

  datatype Entry = Entry(key: Value, val: Value)

  datatype Value =
    | Nil
    | Bool(b: bool)
    | Int(n: int)
    | Float(raw: seq<byte>)
    | Str(chars: seq<byte>)
    | Bin(bytes: seq<byte>)
    | Ext(tag: byte, payload: seq<byte>)
    | Arr(elems: seq<Value>)
    | Map(entries: seq<Entry>)

  const LIMIT: nat := 0x1_0000_0000

  /** The values MessagePack can carry: 64-bit integers and 32-bit lengths. */
  ghost predicate Encodable(v: Value)
  {
    match v
    case Nil => true
    case Bool(_) => true
    case Int(n) => -0x8000_0000_0000_0000 <= n < 0x1_0000_0000_0000_0000
    case Float(raw) => |raw| == 4 || |raw| == 8
    case Str(chars) => |chars| < LIMIT
    case Bin(bytes) => |bytes| < LIMIT
    case Ext(_, payload) => |payload| < LIMIT
    case Arr(elems) => |elems| < LIMIT && forall e :: e in elems ==> Encodable(e)
    case Map(entries) => |entries| < LIMIT && forall e :: e in entries ==> Encodable(e.key) && Encodable(e.val)
  }

  // ---------------------------------------------------------------- encoding

  function EncodeInt(n: int): (s: seq<byte>)
    ensures |s| >= 1
  {
    if 0 <= n < 0x80 then [n]
    else if 0 <= n < 0x100 then [0xcc] + BigEndian(n, 1)
    else if 0 <= n < 0x1_0000 then [0xcd] + BigEndian(n, 2)
    else if 0 <= n < 0x1_0000_0000 then [0xce] + BigEndian(n, 4)
    else if 0 <= n then [0xcf] + BigEndian(n, 8)
    else if -0x20 <= n then [0x100 + n]
    else if -0x80 <= n then [0xd0] + BigEndian(n + 0x100, 1)
    else if -0x8000 <= n then [0xd1] + BigEndian(n + 0x1_0000, 2)
    else if -0x8000_0000 <= n then [0xd2] + BigEndian(n + 0x1_0000_0000, 4)
    else if -0x8000_0000_0000_0000 <= n then [0xd3] + BigEndian(n + 0x1_0000_0000_0000_0000, 8)
    else [0xd3] + BigEndian(0, 8)  // below the 64-bit range: not encodable
  }

  function StrHead(n: nat): (s: seq<byte>)
    ensures |s| >= 1
  {
    if n < 0x20 then [0xa0 + n]
    else if n < 0x100 then [0xd9] + BigEndian(n, 1)
    else if n < 0x1_0000 then [0xda] + BigEndian(n, 2)
    else [0xdb] + BigEndian(n, 4)
  }

  function BinHead(n: nat): (s: seq<byte>)
    ensures |s| >= 1
  {
    if n < 0x100 then [0xc4] + BigEndian(n, 1)
    else if n < 0x1_0000 then [0xc5] + BigEndian(n, 2)
    else [0xc6] + BigEndian(n, 4)
  }

  function ExtHead(n: nat): (s: seq<byte>)
    ensures |s| >= 1
  {
    if n == 1 then [0xd4] else if n == 2 then [0xd5] else if n == 4 then [0xd6]
    else if n == 8 then [0xd7] else if n == 16 then [0xd8]
    else if n < 0x100 then [0xc7] + BigEndian(n, 1)
    else if n < 0x1_0000 then [0xc8] + BigEndian(n, 2)
    else [0xc9] + BigEndian(n, 4)
  }

  function ArrHead(n: nat): (s: seq<byte>)
    ensures |s| >= 1
  {
    if n < 0x10 then [0x90 + n]
    else if n < 0x1_0000 then [0xdc] + BigEndian(n, 2)
    else [0xdd] + BigEndian(n, 4)
  }

  function MapHead(n: nat): (s: seq<byte>)
    ensures |s| >= 1
  {
    if n < 0x10 then [0x80 + n]
    else if n < 0x1_0000 then [0xde] + BigEndian(n, 2)
    else [0xdf] + BigEndian(n, 4)
  }

  function Encode(v: Value): (s: seq<byte>)
    ensures |s| >= 1
    decreases v
  {
    match v
    case Nil => [0xc0]
    case Bool(b) => [if b then 0xc3 else 0xc2]
    case Int(n) => EncodeInt(n)
    case Float(raw) => [if |raw| == 4 then 0xca else 0xcb] + raw
    case Str(chars) => StrHead(|chars|) + chars
    case Bin(bytes) => BinHead(|bytes|) + bytes
    case Ext(tag, payload) => ExtHead(|payload|) + ([tag] + payload)
    case Arr(elems) => ArrHead(|elems|) + EncodeAll(elems)
    case Map(entries) => MapHead(|entries|) + EncodeEntries(entries)
  }

  function EncodeAll(vs: seq<Value>): (s: seq<byte>)
    decreases vs
  {
    if vs == [] then [] else Encode(vs[0]) + EncodeAll(vs[1..])
  }

  function EncodeEntries(es: seq<Entry>): (s: seq<byte>)
    decreases es
  {
    if es == [] then [] else EncodeEntry(es[0]) + EncodeEntries(es[1..])
  }

  function EncodeEntry(e: Entry): (s: seq<byte>)
    decreases e
  {
    Encode(e.key) + Encode(e.val)
  }

  // ---------------------------------------------------------------- decoding

  /** What the first bytes of a value announce: a complete scalar, `count` bytes of payload of a kind,
      a container of `count` elements, or nothing decodable. `used` counts the bytes read so far. */
  datatype Kind = KFloat | KStr | KBin | KExt
  datatype Head =
    | Bad
    | Scalar(v: Value, used: nat)
    | Payload(kind: Kind, count: nat, used: nat)
    | ArrOf(count: nat, used: nat)
    | MapOf(count: nat, used: nat)

  /** The n-byte unsigned integer after the tag byte, if it is all there. */
  function Field(s: seq<byte>, n: nat): (r: Option<nat>)
    ensures r.Some? ==> 1 + n <= |s| && r.value < Span(n)
  {
    if |s| < 1 + n then None else Some(FromBigEndian(s[1..1 + n]))
  }

  function UintHead(s: seq<byte>, n: nat): (h: Head)
  {
    match Field(s, n) case None => Bad case Some(v) => Scalar(Int(v), 1 + n)
  }

  function SintHead(s: seq<byte>, n: nat): (h: Head)
  {
    match Field(s, n) case None => Bad case Some(v) => Scalar(Int(Signed(v, n)), 1 + n)
  }

  function PayloadHead(s: seq<byte>, kind: Kind, n: nat): (h: Head)
  {
    match Field(s, n) case None => Bad case Some(v) => Payload(kind, v, 1 + n)
  }

  function DecodeHead(s: seq<byte>): (h: Head)
    ensures !h.Bad? ==> 1 <= h.used <= |s|
  {
    if s == [] then Bad else
    var t: int := s[0];
    if t < 0x80 then Scalar(Int(t), 1)
    else if t < 0x90 then MapOf(t - 0x80, 1)
    else if t < 0xa0 then ArrOf(t - 0x90, 1)
    else if t < 0xc0 then Payload(KStr, t - 0xa0, 1)
    else if t == 0xc0 then Scalar(Nil, 1)
    else if t == 0xc1 then Bad
    else if t == 0xc2 then Scalar(Bool(false), 1)
    else if t == 0xc3 then Scalar(Bool(true), 1)
    else if t == 0xc4 then PayloadHead(s, KBin, 1)
    else if t == 0xc5 then PayloadHead(s, KBin, 2)
    else if t == 0xc6 then PayloadHead(s, KBin, 4)
    else if t == 0xc7 then PayloadHead(s, KExt, 1)
    else if t == 0xc8 then PayloadHead(s, KExt, 2)
    else if t == 0xc9 then PayloadHead(s, KExt, 4)
    else if t == 0xca then Payload(KFloat, 4, 1)
    else if t == 0xcb then Payload(KFloat, 8, 1)
    else if t == 0xcc then UintHead(s, 1)
    else if t == 0xcd then UintHead(s, 2)
    else if t == 0xce then UintHead(s, 4)
    else if t == 0xcf then UintHead(s, 8)
    else if t == 0xd0 then SintHead(s, 1)
    else if t == 0xd1 then SintHead(s, 2)
    else if t == 0xd2 then SintHead(s, 4)
    else if t == 0xd3 then SintHead(s, 8)
    else if t == 0xd4 then Payload(KExt, 1, 1)
    else if t == 0xd5 then Payload(KExt, 2, 1)
    else if t == 0xd6 then Payload(KExt, 4, 1)
    else if t == 0xd7 then Payload(KExt, 8, 1)
    else if t == 0xd8 then Payload(KExt, 16, 1)
    else if t == 0xd9 then PayloadHead(s, KStr, 1)
    else if t == 0xda then PayloadHead(s, KStr, 2)
    else if t == 0xdb then PayloadHead(s, KStr, 4)
    else if t == 0xdc then match Field(s, 2) { case None => Bad case Some(v) => ArrOf(v, 3) }
    else if t == 0xdd then match Field(s, 4) { case None => Bad case Some(v) => ArrOf(v, 5) }
    else if t == 0xde then match Field(s, 2) { case None => Bad case Some(v) => MapOf(v, 3) }
    else if t == 0xdf then match Field(s, 4) { case None => Bad case Some(v) => MapOf(v, 5) }
    else Scalar(Int(t - 0x100), 1)
  }

  /** A decoded item and the number of bytes it took. */
  datatype Decoded<+T> = Failed | Got(item: T, used: nat)

  function DecodePayload(s: seq<byte>, kind: Kind, count: nat): (r: Decoded<Value>)
    ensures r.Got? ==> r.used <= |s|
  {
    var need := if kind.KExt? then count + 1 else count;
    if |s| < need then Failed
    else match kind
      case KFloat => Got(Float(s[..need]), need)
      case KStr => Got(Str(s[..need]), need)
      case KBin => Got(Bin(s[..need]), need)
      case KExt => Got(Ext(s[0], s[1..need]), need)
  }

  function Decode(s: seq<byte>): (r: Decoded<Value>)
    ensures r.Got? ==> 1 <= r.used <= |s|
    decreases |s|, 0
  {
    match DecodeHead(s)
    case Bad => Failed
    case Scalar(v, u) => Got(v, u)
    case Payload(kind, count, u) =>
      (match DecodePayload(s[u..], kind, count)
       case Failed => Failed
       case Got(v, k) => Got(v, u + k))
    case ArrOf(count, u) =>
      (match DecodeAll(s[u..], count)
       case Failed => Failed
       case Got(vs, k) => Got(Arr(vs), u + k))
    case MapOf(count, u) =>
      (match DecodeEntries(s[u..], count)
       case Failed => Failed
       case Got(es, k) => Got(Map(es), u + k))
  }

  function DecodeAll(s: seq<byte>, count: nat): (r: Decoded<seq<Value>>)
    ensures r.Got? ==> r.used <= |s| && |r.item| == count
    decreases |s|, 1
  {
    if count == 0 then Got([], 0)
    else match Decode(s)
      case Failed => Failed
      case Got(v, k) =>
        match DecodeAll(s[k..], count - 1)
        case Failed => Failed
        case Got(vs, m) => Got([v] + vs, k + m)
  }

  function DecodeEntries(s: seq<byte>, count: nat): (r: Decoded<seq<Entry>>)
    ensures r.Got? ==> r.used <= |s| && |r.item| == count
    decreases |s|, 1
  {
    if count == 0 then Got([], 0)
    else match Decode(s)
      case Failed => Failed
      case Got(key, k) =>
        match Decode(s[k..])
        case Failed => Failed
        case Got(val, l) =>
          match DecodeEntries(s[k + l..], count - 1)
          case Failed => Failed
          case Got(es, m) => Got([Entry(key, val)] + es, k + l + m)
  }

  // ---------------------------------------------------------------- the format by example

  lemma KnownScalars()
    ensures Encode(Nil) == [0xc0] && Encode(Bool(false)) == [0xc2] && Encode(Bool(true)) == [0xc3]
    ensures forall raw: seq<byte> :: |raw| == 4 ==> Encode(Float(raw)) == [0xca] + raw
    ensures forall raw: seq<byte> :: |raw| == 8 ==> Encode(Float(raw)) == [0xcb] + raw
  {
  }

  lemma KnownUnsigned()
    ensures EncodeInt(0x7f) == [0x7f] && EncodeInt(0x80) == [0xcc, 0x80] && EncodeInt(0x100) == [0xcd, 0x01, 0x00]
    ensures EncodeInt(0x1_0000) == [0xce, 0x00, 0x01, 0x00, 0x00]
  {
    hide BigEndian;
    BigEndianShort(0x80);
    BigEndianShort(0x100);
    BigEndianFour(0x1_0000);
  }

  lemma KnownNegative()
    ensures EncodeInt(-1) == [0xff] && EncodeInt(-0x20) == [0xe0] && EncodeInt(-0x21) == [0xd0, 0xdf]
    ensures EncodeInt(-0x81) == [0xd1, 0xff, 0x7f] && EncodeInt(-0x8001) == [0xd2, 0xff, 0xff, 0x7f, 0xff]
  {
    hide BigEndian;
    BigEndianShort(0xdf);
    BigEndianShort(0xff7f);
    BigEndianFour(0xffff_7fff);
  }

  lemma KnownLong()
    ensures EncodeInt(0x1_0000_0000) == [0xcf] + ([0, 0, 0, 1] + [0, 0, 0, 0])
    ensures EncodeInt(-0x8000_0001) == [0xd3] + ([0xff, 0xff, 0xff, 0xff] + [0x7f, 0xff, 0xff, 0xff])
  {
    hide BigEndian;
    KnownEight();
  }

  lemma KnownEight()
    ensures BigEndian(0x1_0000_0000, 8) == [0, 0, 0, 1] + [0, 0, 0, 0]
    ensures BigEndian(0xffff_ffff_7fff_ffff, 8) == [0xff, 0xff, 0xff, 0xff] + [0x7f, 0xff, 0xff, 0xff]
  {
    hide BigEndian;
    BigEndianEight(0x1_0000_0000);
    BigEndianFour(0x1_0000_0000);
    BigEndianFour(1);
    BigEndianEight(0xffff_ffff_7fff_ffff);
    BigEndianFour(0xffff_ffff_7fff_ffff);
    BigEndianFour(0xffff_ffff);
  }

  lemma KnownStrings()
    ensures StrHead(0x1f) == [0xbf] && StrHead(0x20) == [0xd9, 0x20] && StrHead(0x100) == [0xda, 0x01, 0x00]
    ensures StrHead(0x1_0000) == [0xdb, 0x00, 0x01, 0x00, 0x00]
    ensures BinHead(0xff) == [0xc4, 0xff] && BinHead(0x100) == [0xc5, 0x01, 0x00]
    ensures BinHead(0x1_0000) == [0xc6, 0x00, 0x01, 0x00, 0x00]
  {
    hide BigEndian;
    BigEndianShort(0x20);
    BigEndianShort(0xff);
    BigEndianShort(0x100);
    BigEndianFour(0x1_0000);
  }

  lemma KnownExtensions()
    ensures ExtHead(1) == [0xd4] && ExtHead(2) == [0xd5] && ExtHead(4) == [0xd6] && ExtHead(8) == [0xd7]
    ensures ExtHead(16) == [0xd8] && ExtHead(3) == [0xc7, 0x03] && ExtHead(0x100) == [0xc8, 0x01, 0x00]
    ensures ExtHead(0x1_0000) == [0xc9, 0x00, 0x01, 0x00, 0x00]
  {
    hide BigEndian;
    BigEndianShort(3);
    BigEndianShort(0x100);
    BigEndianFour(0x1_0000);
  }

  lemma KnownContainers()
    ensures ArrHead(0xf) == [0x9f] && ArrHead(0x10) == [0xdc, 0x00, 0x10]
    ensures ArrHead(0x1_0000) == [0xdd, 0x00, 0x01, 0x00, 0x00]
    ensures MapHead(0xf) == [0x8f] && MapHead(0x10) == [0xde, 0x00, 0x10]
    ensures MapHead(0x1_0000) == [0xdf, 0x00, 0x01, 0x00, 0x00]
  {
    hide BigEndian;
    BigEndianShort(0x10);
    BigEndianFour(0x1_0000);
  }

  // ---------------------------------------------------------------- round trip

  /** A tag byte followed by an n-byte integer and anything else reads back as that integer. */
  lemma FieldRoundTrip(t: byte, v: nat, n: nat, rest: seq<byte>)
    requires v < Span(n)
    ensures var s := [t] + BigEndian(v, n) + rest;
            |s| >= 1 + n && s[0] == t && Field(s, n) == Some(v)
  {
    BigEndianRoundTrip(v, n);
    assert ([t] + BigEndian(v, n) + rest)[1..1 + n] == BigEndian(v, n);
  }

  lemma UintRoundTrip(n: nat, rest: seq<byte>)
    requires n < 0x1_0000_0000_0000_0000
    ensures DecodeHead(EncodeInt(n) + rest) == Scalar(Int(n), |EncodeInt(n)|)
  {
    SpanValues();
    if n < 0x80 {
    } else if n < 0x100 { FieldRoundTrip(0xcc, n, 1, rest);
    } else if n < 0x1_0000 { FieldRoundTrip(0xcd, n, 2, rest);
    } else if n < 0x1_0000_0000 { FieldRoundTrip(0xce, n, 4, rest);
    } else { FieldRoundTrip(0xcf, n, 8, rest); }
  }

  lemma SintFieldRoundTrip(t: byte, n: int, w: nat, rest: seq<byte>)
    requires 0 - Span(w) <= 2 * n < 0
    ensures var s := [t] + BigEndian(n + Span(w), w) + rest;
            |s| >= 1 + w && s[0] == t && SintHead(s, w) == Scalar(Int(n), 1 + w)
  {
    hide BigEndian, FromBigEndian, Span;
    FieldRoundTrip(t, n + Span(w), w, rest);
  }

  lemma SintRoundTrip(n: int, rest: seq<byte>)
    requires -0x8000_0000_0000_0000 <= n < 0
    ensures DecodeHead(EncodeInt(n) + rest) == Scalar(Int(n), |EncodeInt(n)|)
  {
    hide SintHead, BigEndian, Span;
    SpanValues();
    if -0x20 <= n {
    } else if -0x80 <= n { SintFieldRoundTrip(0xd0, n, 1, rest);
    } else if -0x8000 <= n { SintFieldRoundTrip(0xd1, n, 2, rest);
    } else if -0x8000_0000 <= n { SintFieldRoundTrip(0xd2, n, 4, rest);
    } else { SintFieldRoundTrip(0xd3, n, 8, rest); }
  }

  lemma StrHeadRoundTrip(n: nat, rest: seq<byte>)
    requires n < LIMIT
    ensures DecodeHead(StrHead(n) + rest) == Payload(KStr, n, |StrHead(n)|)
  {
    SpanValues();
    if 0x20 <= n < 0x100 { FieldRoundTrip(0xd9, n, 1, rest); }
    else if 0x100 <= n < 0x1_0000 { FieldRoundTrip(0xda, n, 2, rest); }
    else if 0x1_0000 <= n { FieldRoundTrip(0xdb, n, 4, rest); }
  }

  lemma BinHeadRoundTrip(n: nat, rest: seq<byte>)
    requires n < LIMIT
    ensures DecodeHead(BinHead(n) + rest) == Payload(KBin, n, |BinHead(n)|)
  {
    SpanValues();
    if n < 0x100 { FieldRoundTrip(0xc4, n, 1, rest); }
    else if n < 0x1_0000 { FieldRoundTrip(0xc5, n, 2, rest); }
    else { FieldRoundTrip(0xc6, n, 4, rest); }
  }

  lemma ExtHeadRoundTrip(n: nat, rest: seq<byte>)
    requires n < LIMIT
    ensures DecodeHead(ExtHead(n) + rest) == Payload(KExt, n, |ExtHead(n)|)
  {
    SpanValues();
    if |ExtHead(n)| > 1 {
      if n < 0x100 { FieldRoundTrip(0xc7, n, 1, rest); }
      else if n < 0x1_0000 { FieldRoundTrip(0xc8, n, 2, rest); }
      else { FieldRoundTrip(0xc9, n, 4, rest); }
    }
  }

  lemma ArrHeadRoundTrip(n: nat, rest: seq<byte>)
    requires n < LIMIT
    ensures DecodeHead(ArrHead(n) + rest) == ArrOf(n, |ArrHead(n)|)
  {
    SpanValues();
    if 0x10 <= n < 0x1_0000 { FieldRoundTrip(0xdc, n, 2, rest); }
    else if 0x1_0000 <= n { FieldRoundTrip(0xdd, n, 4, rest); }
  }

  lemma MapHeadRoundTrip(n: nat, rest: seq<byte>)
    requires n < LIMIT
    ensures DecodeHead(MapHead(n) + rest) == MapOf(n, |MapHead(n)|)
  {
    SpanValues();
    if 0x10 <= n < 0x1_0000 { FieldRoundTrip(0xde, n, 2, rest); }
    else if 0x1_0000 <= n { FieldRoundTrip(0xdf, n, 4, rest); }
  }

  /** Dropping a prefix of known length. */
  lemma DropPrefix(a: seq<byte>, b: seq<byte>)
    ensures (a + b)[|a|..] == b
  {
  }

  lemma Regroup(a: seq<byte>, b: seq<byte>, c: seq<byte>)
    ensures a + b + c == a + (b + c)
    ensures (a + (b + c))[|a|..] == b + c
  {
  }

  /** A payload is read the same whatever follows it. */
  lemma PayloadPrefix(kind: Kind, count: nat, payload: seq<byte>, rest: seq<byte>)
    requires |payload| == if kind.KExt? then count + 1 else count
    ensures DecodePayload(payload + rest, kind, count) == DecodePayload(payload, kind, count)
  {
    assert (payload + rest)[..|payload|] == payload[..|payload|];
    if kind.KExt? {
      assert (payload + rest)[1..|payload|] == payload[1..];
    }
  }

  lemma DecodePayloadStep(s: seq<byte>, kind: Kind, count: nat, u: nat)
    requires DecodeHead(s) == Payload(kind, count, u)
    requires DecodePayload(s[u..], kind, count).Got?
    ensures var p := DecodePayload(s[u..], kind, count);
            Decode(s) == Got(p.item, u + p.used)
  {
    hide DecodeHead, DecodePayload;
  }

  /** The payload families: a head announcing the payload, then the payload. */
  lemma PayloadRoundTrip(head: seq<byte>, kind: Kind, count: nat, payload: seq<byte>, rest: seq<byte>)
    requires |payload| == if kind.KExt? then count + 1 else count
    requires DecodeHead(head + (payload + rest)) == Payload(kind, count, |head|)
    ensures Decode(head + payload + rest) ==
            Got(match kind
                case KFloat => Float(payload)
                case KStr => Str(payload)
                case KBin => Bin(payload)
                case KExt => Ext(payload[0], payload[1..]),
              |head| + |payload|)
  {
    hide DecodeHead, Decode;
    assert head + payload + rest == head + (payload + rest);
    DropPrefix(head, payload + rest);
    PayloadPrefix(kind, count, payload, rest);
    DecodePayloadStep(head + (payload + rest), kind, count, |head|);
    assert payload[..|payload|] == payload;
  }

  /** Everything that is not a container. */
  lemma LeafRoundTrip(v: Value, rest: seq<byte>)
    requires Encodable(v) && !v.Arr? && !v.Map?
    ensures Decode(Encode(v) + rest) == Got(v, |Encode(v)|)
  {
    match v
    case Nil =>
    case Bool(_) =>
    case Int(n) => if n >= 0 { UintRoundTrip(n, rest); } else { SintRoundTrip(n, rest); }
    case Float(raw) =>
      PayloadRoundTrip([if |raw| == 4 then 0xca else 0xcb], KFloat, |raw|, raw, rest);
    case Str(chars) =>
      StrHeadRoundTrip(|chars|, chars + rest);
      PayloadRoundTrip(StrHead(|chars|), KStr, |chars|, chars, rest);
    case Bin(bytes) =>
      BinHeadRoundTrip(|bytes|, bytes + rest);
      PayloadRoundTrip(BinHead(|bytes|), KBin, |bytes|, bytes, rest);
    case Ext(tag, payload) =>
      ExtHeadRoundTrip(|payload|, [tag] + payload + rest);
      PayloadRoundTrip(ExtHead(|payload|), KExt, |payload|, [tag] + payload, rest);
  }

  /** Whatever is packed unpacks to the same value, taking exactly its own bytes and leaving the rest. */
  lemma {:induction false} RoundTrip(v: Value, rest: seq<byte>)
    requires Encodable(v)
    ensures Decode(Encode(v) + rest) == Got(v, |Encode(v)|)
    decreases v
  {
    hide DecodeHead, DecodeAll, DecodeEntries, Decode, EncodeAll, EncodeEntries;
    if v.Arr? {
      var head, body := ArrHead(|v.elems|), EncodeAll(v.elems);
      Regroup(head, body, rest);
      ArrHeadRoundTrip(|v.elems|, body + rest);
      RoundTripAll(v.elems, rest);
      DecodeArrStep(head + (body + rest), |v.elems|, |head|);
    } else if v.Map? {
      var head, body := MapHead(|v.entries|), EncodeEntries(v.entries);
      Regroup(head, body, rest);
      MapHeadRoundTrip(|v.entries|, body + rest);
      RoundTripEntries(v.entries, rest);
      DecodeMapStep(head + (body + rest), |v.entries|, |head|);
    } else {
      LeafRoundTrip(v, rest);
    }
  }

  lemma DecodeArrStep(s: seq<byte>, count: nat, u: nat)
    requires DecodeHead(s) == ArrOf(count, u) && DecodeAll(s[u..], count).Got?
    ensures Decode(s) == Got(Arr(DecodeAll(s[u..], count).item), u + DecodeAll(s[u..], count).used)
  {
    hide DecodeHead, DecodeAll;
  }

  lemma DecodeMapStep(s: seq<byte>, count: nat, u: nat)
    requires DecodeHead(s) == MapOf(count, u) && DecodeEntries(s[u..], count).Got?
    ensures Decode(s) == Got(Map(DecodeEntries(s[u..], count).item), u + DecodeEntries(s[u..], count).used)
  {
    hide DecodeHead, DecodeEntries;
  }

  lemma {:induction false} RoundTripAll(vs: seq<Value>, rest: seq<byte>)
    requires forall v :: v in vs ==> Encodable(v)
    ensures DecodeAll(EncodeAll(vs) + rest, |vs|) == Got(vs, |EncodeAll(vs)|)
    decreases vs
  {
    hide Decode, Encode, Encodable;
    if vs != [] {
      var first, others := Encode(vs[0]), EncodeAll(vs[1..]) + rest;
      RoundTrip(vs[0], others);
      RoundTripAll(vs[1..], rest);
      assert EncodeAll(vs) + rest == first + others;
      DropPrefix(first, others);
      DecodeAllStep(first + others, |vs|, vs[0], |first|, vs[1..]);
      assert vs == [vs[0]] + vs[1..];
    }
  }

  lemma DecodeAllStep(s: seq<byte>, count: nat, v: Value, k: nat, vs: seq<Value>)
    requires count > 0 && Decode(s) == Got(v, k)
    requires DecodeAll(s[k..], count - 1).Got? && DecodeAll(s[k..], count - 1).item == vs
    ensures DecodeAll(s, count) == Got([v] + vs, k + DecodeAll(s[k..], count - 1).used)
  {
    hide Decode;
  }

  lemma {:induction false} RoundTripEntries(es: seq<Entry>, rest: seq<byte>)
    requires forall e :: e in es ==> Encodable(e.key) && Encodable(e.val)
    ensures DecodeEntries(EncodeEntries(es) + rest, |es|) == Got(es, |EncodeEntries(es)|)
    decreases es
  {
    hide Decode, Encode, EncodeEntry, Encodable;
    if es != [] {
      hide DecodeEntries, EncodeEntries;
      RoundTripEntry(es[0], EncodeEntries(es[1..]) + rest);
      RoundTripEntries(es[1..], rest);
      EntriesStep(es, rest);
    }
  }

  lemma EntriesStep(es: seq<Entry>, rest: seq<byte>)
    requires es != [] && |EncodeEntry(es[0])| == |Encode(es[0].key)| + |Encode(es[0].val)|
    requires var s := EncodeEntry(es[0]) + (EncodeEntries(es[1..]) + rest);
             && Decode(s) == Got(es[0].key, |Encode(es[0].key)|)
             && Decode(s[|Encode(es[0].key)|..]) == Got(es[0].val, |Encode(es[0].val)|)
    requires DecodeEntries(EncodeEntries(es[1..]) + rest, |es| - 1) == Got(es[1..], |EncodeEntries(es[1..])|)
    ensures DecodeEntries(EncodeEntries(es) + rest, |es|) == Got(es, |EncodeEntries(es)|)
  {
    hide Decode, Encode, EncodeEntry, DecodeEntries, EncodeEntries;
    EncodeEntriesCons(es, rest);
    var s := EncodeEntry(es[0]) + (EncodeEntries(es[1..]) + rest);
    DecodeEntriesStep(s, |es|, es[0], |Encode(es[0].key)|, |Encode(es[0].val)|);
  }

  lemma EncodeEntriesCons(es: seq<Entry>, rest: seq<byte>)
    requires es != []
    ensures |EncodeEntries(es)| == |EncodeEntry(es[0])| + |EncodeEntries(es[1..])|
    ensures var first, others := EncodeEntry(es[0]), EncodeEntries(es[1..]) + rest;
            EncodeEntries(es) + rest == first + others && (first + others)[|first|..] == others
    ensures es == [es[0]] + es[1..]
  {
    hide EncodeEntry;
    Regroup(EncodeEntry(es[0]), EncodeEntries(es[1..]), rest);
  }

  lemma DecodeEntriesStep(s: seq<byte>, count: nat, e: Entry, k: nat, l: nat)
    requires count > 0 && Decode(s) == Got(e.key, k)
    requires Decode(s[k..]) == Got(e.val, l)
    requires DecodeEntries(s[k + l..], count - 1).Got?
    ensures var tail := DecodeEntries(s[k + l..], count - 1);
            DecodeEntries(s, count) == Got([e] + tail.item, k + l + tail.used)
  {
    hide Decode;
  }

  lemma {:induction false} RoundTripEntry(e: Entry, rest: seq<byte>)
    requires Encodable(e.key) && Encodable(e.val)
    ensures |EncodeEntry(e)| == |Encode(e.key)| + |Encode(e.val)|
    ensures var s := EncodeEntry(e) + rest;
            && Decode(s) == Got(e.key, |Encode(e.key)|)
            && Decode(s[|Encode(e.key)|..]) == Got(e.val, |Encode(e.val)|)
    decreases e
  {
    var key, val := Encode(e.key), Encode(e.val);
    assert EncodeEntry(e) + rest == key + (val + rest);
    RoundTrip(e.key, val + rest);
    DropPrefix(key, val + rest);
    RoundTrip(e.val, rest);
  }
}
