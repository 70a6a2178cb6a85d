/** The IPROTO message header and its conversion from and to a MessagePack map. */
module Headers {
  import opened Bytes
  import opened MsgPack

  datatype Header = Header(requestType: nat, sync: nat, schemaVersion: nat, streamId: Option<nat>)

  const REQUEST_TYPE := 0x00
  const SYNC := 0x01
  const SCHEMA_VERSION := 0x05
  const STREAM_ID := 0x0a
  const UNKNOWN_TYPE: nat := 0xffff_ffff_ffff_ffff
  const UINT64: nat := 0x1_0000_0000_0000_0000

  const DEFAULT_HEADER := Header(UNKNOWN_TYPE, 0, 0, None)

  /** The keys `int_to_field_type` recognises. */
  predicate KnownField(k: int) {
    k in {0x00, 0x01, 0x04, 0x05, 0x0a, 0x10, 0x11, 0x12, 0x13, 0x14, 0x1f, 0x20, 0x21, 0x22, 0x23,
          0x27, 0x2e, 0x2f, 0x30, 0x31, 0x54, 0x55}
  }

  predicate IsHeaderField(k: int) {
    k == REQUEST_TYPE || k == SYNC || k == SCHEMA_VERSION || k == STREAM_ID
  }

  predicate IsUint(v: Value) {
    v.Int? && 0 <= v.n
  }

  // ---------------------------------------------------------------- packing

  /** The bytes `pack` appends for a header, piece by piece. */
  function Pack(h: Header): (s: seq<byte>)
  {
    var sync := EncodeInt(SYNC) + EncodeInt(h.sync);
    var kind := EncodeInt(REQUEST_TYPE) + EncodeInt(h.requestType);
    var stream := if h.streamId.Some? then EncodeInt(STREAM_ID) + EncodeInt(h.streamId.value) else [];
    MapHead(if h.streamId.Some? then 3 else 2) + (sync + (kind + stream))
  }

  /** The MessagePack map those bytes are meant to spell. */
  function AsValue(h: Header): (v: Value)
  {
    Map([Entry(Int(SYNC), Int(h.sync)), Entry(Int(REQUEST_TYPE), Int(h.requestType))]
        + if h.streamId.Some? then [Entry(Int(STREAM_ID), Int(h.streamId.value))] else [])
  }

  /** Every header field is a 64-bit unsigned integer. */
  predicate Fits(h: Header) {
    h.requestType < UINT64 && h.sync < UINT64 && h.schemaVersion < UINT64
    && (h.streamId.Some? ==> h.streamId.value < UINT64)
  }

  // ---------------------------------------------------------------- conversion

  /** The effect of one map entry on the header being filled in; None is a type error. */
  function Absorb(h: Header, e: Entry): (r: Option<Header>)
  {
    if !IsUint(e.key) || !KnownField(e.key.n) then None
    else if !IsHeaderField(e.key.n) then Some(h)
    else if !IsUint(e.val) then None
    else if e.key.n == REQUEST_TYPE then Some(h.(requestType := e.val.n))
    else if e.key.n == SYNC then Some(h.(sync := e.val.n))
    else if e.key.n == SCHEMA_VERSION then Some(h.(schemaVersion := e.val.n))
    else Some(h.(streamId := Some(e.val.n)))
  }

  function AbsorbAll(h: Header, es: seq<Entry>): (r: Option<Header>)
    decreases |es|
  {
    if es == [] then Some(h)
    else match Absorb(h, es[0])
      case None => None
      case Some(h') => AbsorbAll(h', es[1..])
  }

  function Convert(v: Value): (r: Option<Header>)
  {
    if v.Map? then AbsorbAll(DEFAULT_HEADER, v.entries) else None
  }

  /** The converter's loop over the entries of the map object. */
  method ConvertMap(v: Value) returns (r: Option<Header>)
    ensures r == Convert(v)
  {
    if !v.Map? {
      return None;
    }
    var h := DEFAULT_HEADER;
    for i := 0 to |v.entries|
      invariant AbsorbAll(DEFAULT_HEADER, v.entries) == AbsorbAll(h, v.entries[i..])
    {
      var step := Absorb(h, v.entries[i]);
      assert v.entries[i..][1..] == v.entries[i + 1..];
      if step.None? {
        return None;
      }
      h := step.value;
    }
    return Some(h);
  }

  // ---------------------------------------------------------------- what conversion means

  predicate EntryOk(e: Entry) {
    IsUint(e.key) && KnownField(e.key.n) && (IsHeaderField(e.key.n) ==> IsUint(e.val))
  }

  /** The value a field ends up with: that of the last entry carrying its key. */
  function Last(es: seq<Entry>, field: int, fallback: Option<nat>): (r: Option<nat>)
  {
    if es == [] then fallback
    else
      var e := es[|es| - 1];
      if e.key == Int(field) && IsUint(e.val) then Some(e.val.n) else Last(es[..|es| - 1], field, fallback)
  }

  lemma {:induction false} AbsorbAllSplit(h: Header, es: seq<Entry>, e: Entry)
    ensures AbsorbAll(h, es + [e]) ==
            match AbsorbAll(h, es) { case None => None case Some(h') => Absorb(h', e) }
    decreases |es|
  {
    if es == [] {
      assert (es + [e])[1..] == [];
    } else {
      assert (es + [e])[1..] == es[1..] + [e];
      var step := Absorb(h, es[0]);
      if step.Some? {
        AbsorbAllSplit(step.value, es[1..], e);
      }
    }
  }

  lemma {:induction false} AbsorbAllOkIff(h: Header, es: seq<Entry>)
    ensures AbsorbAll(h, es).Some? <==> forall e :: e in es ==> EntryOk(e)
    decreases |es|
  {
    if es != [] {
      var step := Absorb(h, es[0]);
      assert step.Some? <==> EntryOk(es[0]);
      assert forall e :: e in es <==> e == es[0] || e in es[1..];
      if step.Some? {
        AbsorbAllOkIff(step.value, es[1..]);
      }
    }
  }

  /** The keys a header may carry, and those that must hold unsigned integers. */
  lemma EntryOkIff(e: Entry)
    ensures EntryOk(e) <==>
            && e.key.Int?
            && e.key.n in {0x00, 0x01, 0x04, 0x05, 0x0a, 0x10, 0x11, 0x12, 0x13, 0x14, 0x1f, 0x20, 0x21, 0x22, 0x23,
                           0x27, 0x2e, 0x2f, 0x30, 0x31, 0x54, 0x55}
            && (e.key.n in {0x00, 0x01, 0x05, 0x0a} ==> e.val.Int? && e.val.n >= 0)
  {
  }

  /** Conversion of a map succeeds exactly when every key is a known field and the four header fields hold
      unsigned integers; then each field has the value of its last occurrence, or its default. */
  lemma {:induction false} ConvertCharacterised(es: seq<Entry>)
    ensures Convert(Map(es)).Some? <==> forall e :: e in es ==> EntryOk(e)
    ensures Convert(Map(es)).Some? ==>
              var h := Convert(Map(es)).value;
              && Some(h.requestType) == Last(es, 0x00, Some(0xffff_ffff_ffff_ffff))
              && Some(h.sync) == Last(es, 0x01, Some(0))
              && Some(h.schemaVersion) == Last(es, 0x05, Some(0))
              && h.streamId == Last(es, 0x0a, None)
  {
    AbsorbAllOkIff(DEFAULT_HEADER, es);
    if es != [] {
      var init, e := es[..|es| - 1], es[|es| - 1];
      assert es == init + [e];
      ConvertCharacterised(init);
      AbsorbAllSplit(DEFAULT_HEADER, init, e);
      var before := AbsorbAll(DEFAULT_HEADER, init);
      assert Convert(Map(init)) == before;
      assert Convert(Map(es)) == if before.None? then None else Absorb(before.value, e);
    }
  }

  /** A field with one value throughout has that value. */
  lemma {:induction false} LastUnique(es: seq<Entry>, field: int, v: nat, fallback: Option<nat>)
    requires Entry(Int(field), Int(v)) in es
    requires forall e :: e in es && e.key == Int(field) ==> e.val == Int(v)
    ensures Last(es, field, fallback) == Some(v)
  {
    var init, e := es[..|es| - 1], es[|es| - 1];
    assert e in es;
    if e.key != Int(field) {
      assert es == init + [e];
      LastUnique(init, field, v, fallback);
    }
  }

  lemma {:induction false} LastAbsent(es: seq<Entry>, field: int, fallback: Option<nat>)
    requires forall e :: e in es ==> e.key != Int(field)
    ensures Last(es, field, fallback) == fallback
  {
    if es != [] {
      assert es[|es| - 1] in es;
      LastAbsent(es[..|es| - 1], field, fallback);
    }
  }

  /** The entries of a server's reply: request type, sync and schema version, and perhaps a stream, in any order. */
  ghost predicate IsReply(es: seq<Entry>, kind: nat, sync: nat, version: nat, stream: Option<nat>)
  {
    && Entry(Int(0x00), Int(kind)) in es && Entry(Int(0x01), Int(sync)) in es && Entry(Int(0x05), Int(version)) in es
    && (stream.Some? ==> Entry(Int(0x0a), Int(stream.value)) in es)
    && forall e :: e in es ==>
         || e == Entry(Int(0x00), Int(kind)) || e == Entry(Int(0x01), Int(sync)) || e == Entry(Int(0x05), Int(version))
         || (stream.Some? && e == Entry(Int(0x0a), Int(stream.value)))
  }

  lemma ReplyConverts(es: seq<Entry>, kind: nat, sync: nat, version: nat, stream: Option<nat>)
    requires IsReply(es, kind, sync, version, stream)
    ensures Convert(Map(es)) == Some(Header(kind, sync, version, stream))
  {
    ConvertCharacterised(es);
    forall e | e in es
      ensures EntryOk(e)
    {
      EntryOkIff(e);
    }
    LastUnique(es, 0x00, kind, Some(0xffff_ffff_ffff_ffff));
    LastUnique(es, 0x01, sync, Some(0));
    LastUnique(es, 0x05, version, Some(0));
    if stream.Some? {
      LastUnique(es, 0x0a, stream.value, None);
    } else {
      LastAbsent(es, 0x0a, None);
    }
  }

  lemma PackIsEncode(h: Header)
    ensures Pack(h) == Encode(AsValue(h))
  {
    hide EncodeInt, MapHead;
    var sync := Entry(Int(SYNC), Int(h.sync));
    var kind := Entry(Int(REQUEST_TYPE), Int(h.requestType));
    var tail := if h.streamId.Some? then [Entry(Int(STREAM_ID), Int(h.streamId.value))] else [];
    var es := AsValue(h).entries;
    assert es == [sync] + ([kind] + tail);
    assert es[1..] == [kind] + tail && ([kind] + tail)[1..] == tail;
    assert EncodeEntries(tail) == if tail == [] then [] else EncodeEntry(tail[0]) by {
      if tail != [] {
        assert tail[1..] == [];
      }
    }
    assert EncodeEntries([kind] + tail) == EncodeEntry(kind) + EncodeEntries(tail);
    assert EncodeEntries(es) == EncodeEntry(sync) + EncodeEntries([kind] + tail);
    assert EncodeEntry(sync) == EncodeInt(SYNC) + EncodeInt(h.sync);
    assert EncodeEntry(kind) == EncodeInt(REQUEST_TYPE) + EncodeInt(h.requestType);
    if h.streamId.Some? {
      assert EncodeEntry(tail[0]) == EncodeInt(STREAM_ID) + EncodeInt(h.streamId.value);
    }
  }

  /** A packed header, followed by anything, unpacks to its own bytes and converts back to itself, except that
      the schema version is never sent. */
  lemma HeaderRoundTrip(h: Header, rest: seq<byte>)
    requires Fits(h)
    ensures Decode(Pack(h) + rest) == Got(AsValue(h), |Pack(h)|)
    ensures Convert(AsValue(h)) == Some(h.(schemaVersion := 0))
  {
    PackIsEncode(h);
    RoundTrip(AsValue(h), rest) by { EncodableHeader(h); }
    ConvertOwnEntries(h);
  }

  lemma EncodableHeader(h: Header)
    requires Fits(h)
    ensures Encodable(AsValue(h))
  {
    var es := AsValue(h).entries;
    forall e | e in es
      ensures Encodable(e.key) && Encodable(e.val)
    {
      assert e == es[0] || e == es[1] || (|es| == 3 && e == es[2]);
      assert e.key.Int? && e.val.Int?;
    }
  }

  lemma ConvertOwnEntries(h: Header)
    ensures Convert(AsValue(h)) == Some(h.(schemaVersion := 0))
  {
    var es := AsValue(h).entries;
    var h1 := DEFAULT_HEADER.(sync := h.sync);
    var h2 := h1.(requestType := h.requestType);
    assert Absorb(DEFAULT_HEADER, es[0]) == Some(h1);
    assert Absorb(h1, es[1]) == Some(h2);
    var h3 := h2.(streamId := h.streamId);
    assert AbsorbAll(h2, es[2..]) == Some(h3) by {
      if h.streamId.Some? {
        assert Absorb(h2, es[2]) == Some(h3) && es[2..][1..] == [];
      }
    }
    assert es[1..][0] == es[1] && es[1..][1..] == es[2..];
    assert AbsorbAll(h1, es[1..]) == Some(h3);
  }

  /** So the round trip is the identity exactly for headers without a schema version. */
  lemma HeaderSurvivesIff(h: Header)
    requires Fits(h)
    ensures Convert(AsValue(h)) == Some(h) <==> h.schemaVersion == 0
  {
    HeaderRoundTrip(h, []);
  }
}
