/** The requests the client can send: the fixed-shape ones and the select builder, which takes any sequence of
    options before it is closed. */
module RequestBuilders {
  import opened Bytes
  import opened MsgPack
  import opened Headers
  import opened FrameParser
  import opened RequestPacker

  // request types
  const SELECT := 0x01
  const INSERT := 0x02
  const REPLACE := 0x03
  const DELETE := 0x05
  const AUTH := 0x07
  const EVAL := 0x08
  const CALL := 0x0a
  const PING := 0x40

  // body fields
  const SPACE_ID := 0x10
  const INDEX_ID := 0x11
  const LIMIT_FIELD := 0x12
  const OFFSET := 0x13
  const ITERATOR := 0x14
  const FETCH_POSITION := 0x1f
  const KEY := 0x20
  const TUPLE := 0x21
  const FUNCTION_NAME := 0x22
  const USERNAME := 0x23
  const EXPR := 0x27
  const AFTER_POSITION := 0x2e
  const AFTER_TUPLE := 0x2f

  /** How a space or index is named. Names are not looked up yet: they resolve to id 0. */
  datatype Place = Unnamed | Named(name: seq<byte>) | Id(id: nat)

  /** None is the invalid-argument error. */
  function Resolve(p: Place): (r: Option<nat>)
  {
    match p case Unnamed => None case Named(_) => Some(0) case Id(n) => Some(n)
  }

  function RequestHeader(kind: nat, sync: nat): (h: Header)
  {
    DEFAULT_HEADER.(requestType := kind, sync := sync)
  }

  ghost predicate Sendable(es: seq<Entry>)
  {
    forall e :: e in es ==> Encodable(e.key) && Encodable(e.val)
  }

  /** `bytes` reaches the other side as one frame with the given header, whose body is the given map and nothing
      else. */
  ghost predicate Conveys(bytes: seq<byte>, h: Header, es: seq<Entry>)
  {
    exists body ::
      && Decode(body) == Got(Map(es), |body|)
      && forall rest :: Parse(bytes + rest) == Cut(Message(h, body), |bytes|)
  }

  lemma ConveysBody(kind: nat, sync: nat, body: seq<byte>, es: seq<Entry>)
    requires kind < UINT64 && sync < UINT64
    requires body != [] && Decode(body) == Got(Map(es), |body|)
    requires |Pack(RequestHeader(kind, sync))| + |body| < SIZE_LIMIT
    ensures Conveys(Framed(Pack(RequestHeader(kind, sync)) + body), RequestHeader(kind, sync), es)
  {
    hide Parse, Decode, Pack, Framed;
    var h := RequestHeader(kind, sync);
    var bytes := Framed(Pack(h) + body);
    forall rest
      ensures Parse(bytes + rest) == Cut(Message(h, body), |bytes|)
    {
      RequestRoundTrip(h, body, rest);
    }
  }

  lemma {:induction false} EncodeEntriesSnoc(es: seq<Entry>, e: Entry)
    ensures EncodeEntries(es + [e]) == EncodeEntries(es) + EncodeEntry(e)
  {
    hide EncodeEntry;
    if es == [] {
      assert ([e])[1..] == [] && [] + [e] == [e];
      assert EncodeEntries([e]) == EncodeEntry(e) + EncodeEntries([]);
    } else {
      assert (es + [e])[0] == es[0] && (es + [e])[1..] == es[1..] + [e];
      EncodeEntriesSnoc(es[1..], e);
    }
  }

  // ---------------------------------------------------------------- requests of a fixed shape

  /** The bytes of a request whose body is a map with its entry count written up front. */
  function FixedRequest(kind: nat, sync: nat, es: seq<Entry>): (bytes: seq<byte>)
  {
    Framed(Pack(RequestHeader(kind, sync)) + Encode(Map(es)))
  }

  lemma FixedRequestConveys(kind: nat, sync: nat, es: seq<Entry>)
    requires kind < UINT64 && sync < UINT64 && Sendable(es) && |es| < LIMIT
    requires |Pack(RequestHeader(kind, sync))| + |Encode(Map(es))| < SIZE_LIMIT
    ensures Conveys(FixedRequest(kind, sync, es), RequestHeader(kind, sync), es)
  {
    RoundTrip(Map(es), []);
    assert Encode(Map(es)) + [] == Encode(Map(es));
    ConveysBody(kind, sync, Encode(Map(es)), es);
  }

  /** `bytes` is the request for these entries, and if they can be encoded and fit into a frame it conveys them. */
  ghost predicate Carries(bytes: seq<byte>, kind: nat, sync: nat, es: seq<Entry>)
  {
    && bytes == FixedRequest(kind, sync, es)
    && (kind < UINT64 && sync < UINT64 && Sendable(es) && |es| < LIMIT
        && |Pack(RequestHeader(kind, sync))| + |Encode(Map(es))| < SIZE_LIMIT
        ==> Conveys(bytes, RequestHeader(kind, sync), es))
  }

  lemma FixedRequestCarries(kind: nat, sync: nat, es: seq<Entry>)
    ensures Carries(FixedRequest(kind, sync, es), kind, sync, es)
  {
    hide FixedRequest, Conveys, Sendable, Encode, Pack;
    if kind < UINT64 && sync < UINT64 && Sendable(es) && |es| < LIMIT
       && |Pack(RequestHeader(kind, sync))| + |Encode(Map(es))| < SIZE_LIMIT {
      FixedRequestConveys(kind, sync, es);
    }
  }

  /** Packs header, map head and entries one by one, as all the fixed-shape requests do. */
  method PackFixed(kind: nat, sync: nat, es: seq<Entry>) returns (bytes: seq<byte>)
    requires |es| < LIMIT
    ensures Carries(bytes, kind, sync, es)
  {
    hide Carries, Encode, EncodeEntries, EncodeEntry, Pack, MapHead, Framed;
    var packer := new Packer();
    packer.PackHeader(RequestHeader(kind, sync));
    packer.BeginMap(|es|);
    ghost var front := packer.Payload();
    assert EncodeEntries([]) == [] by { EncodeNoEntries(); }
    for i := 0 to |es|
      invariant packer.Valid() && fresh(packer)
      invariant packer.Payload() == front + EncodeEntries(es[..i])
    {
      hide Encode, EncodeEntries, EncodeEntry, Pack, MapHead, Framed;
      packer.PackMapEntry(es[i]);
      EncodeEntriesSnoc(es[..i], es[i]);
      assert es[..i + 1] == es[..i] + [es[i]];
    }
    assert es[..|es|] == es;
    EncodeMapIs(es);
    assert packer.Payload() == Pack(RequestHeader(kind, sync)) + Encode(Map(es));
    packer.Finalize();
    bytes := packer.out;
    FixedRequestCarries(kind, sync, es);
  }

  lemma EncodeNoEntries()
    ensures EncodeEntries([]) == []
  {
  }

  lemma EncodeMapIs(es: seq<Entry>)
    ensures Encode(Map(es)) == MapHead(|es|) + EncodeEntries(es)
  {
  }

  method Ping(sync: nat) returns (bytes: seq<byte>)
    ensures Carries(bytes, 0x40, sync, [])
  {
    bytes := PackFixed(PING, sync, []);
  }

  method Call(sync: nat, function_: seq<byte>, args: Value) returns (bytes: seq<byte>)
    ensures Carries(bytes, 0x0a, sync, [Entry(Int(0x22), Str(function_)), Entry(Int(0x21), args)])
  {
    bytes := PackFixed(CALL, sync, [Entry(Int(FUNCTION_NAME), Str(function_)), Entry(Int(TUPLE), args)]);
  }

  method Eval(sync: nat, expression: seq<byte>, args: Value) returns (bytes: seq<byte>)
    ensures Carries(bytes, 0x08, sync, [Entry(Int(0x27), Str(expression)), Entry(Int(0x21), args)])
  {
    bytes := PackFixed(EVAL, sync, [Entry(Int(EXPR), Str(expression)), Entry(Int(TUPLE), args)]);
  }

  method Auth(sync: nat, user: seq<byte>, scramble: seq<byte>) returns (bytes: seq<byte>)
    ensures var method_ := Str([0x63, 0x68, 0x61, 0x70, 0x2d, 0x73, 0x68, 0x61, 0x31]);
            Carries(bytes, 0x07, sync, [Entry(Int(0x23), Str(user)), Entry(Int(0x21), Arr([method_, Str(scramble)]))])
  {
    bytes := PackFixed(AUTH, sync, [Entry(Int(USERNAME), Str(user)),
                                    Entry(Int(TUPLE), Arr([Str(CHAP_SHA1), Str(scramble)]))]);
  }

  /** "chap-sha1" */
  const CHAP_SHA1: seq<byte> := [0x63, 0x68, 0x61, 0x70, 0x2d, 0x73, 0x68, 0x61, 0x31]

  /** Insert and replace send a tuple, remove sends a key. */
  function DataField(kind: nat): nat
  {
    if kind == DELETE then KEY else TUPLE
  }

  /** Insert (0x02), replace (0x03) and remove (0x05) by primary key: the tuple or the key first, the space once it is
      resolved. A space by name is sent as 0, a missing one is an error. */
  method OnSpace(kind: nat, sync: nat, data: Value, space: Place) returns (r: Option<seq<byte>>)
    requires kind == INSERT || kind == REPLACE || kind == DELETE
    ensures kind == 0x02 || kind == 0x03 || kind == 0x05
    ensures var first := Entry(Int(if kind == 0x05 then 0x20 else 0x21), data);
            match space
            case Unnamed => r == None
            case Named(_) => r.Some? && Carries(r.value, kind, sync, [first, Entry(Int(0x10), Int(0))])
            case Id(n) => r.Some? && Carries(r.value, kind, sync, [first, Entry(Int(0x10), Int(n))])
  {
    var id := Resolve(space);
    if id.None? {
      return None;
    }
    var bytes := PackFixed(kind, sync, [Entry(Int(DataField(kind)), data), Entry(Int(SPACE_ID), Int(id.value))]);
    return Some(bytes);
  }

  method Insert(sync: nat, tuple: Value, space: Place) returns (r: Option<seq<byte>>)
    ensures r.None? <==> space.Unnamed?
    ensures r.Some? ==>
              Carries(r.value, 0x02, sync,
                      [Entry(Int(0x21), tuple), Entry(Int(0x10), Int(if space.Id? then space.id else 0))])
  {
    r := OnSpace(INSERT, sync, tuple, space);
  }

  method Replace(sync: nat, tuple: Value, space: Place) returns (r: Option<seq<byte>>)
    ensures r.None? <==> space.Unnamed?
    ensures r.Some? ==>
              Carries(r.value, 0x03, sync,
                      [Entry(Int(0x21), tuple), Entry(Int(0x10), Int(if space.Id? then space.id else 0))])
  {
    r := OnSpace(REPLACE, sync, tuple, space);
  }

  method Remove(sync: nat, key: Value, space: Place) returns (r: Option<seq<byte>>)
    ensures r.None? <==> space.Unnamed?
    ensures r.Some? ==>
              Carries(r.value, 0x05, sync,
                      [Entry(Int(0x20), key), Entry(Int(0x10), Int(if space.Id? then space.id else 0))])
  {
    r := OnSpace(DELETE, sync, key, space);
  }

  /** Remove by the key of a given index: the space is resolved first, then the index. */
  method RemoveByIndex(sync: nat, key: Value, space: Place, index: Place) returns (r: Option<seq<byte>>)
    ensures r.None? <==> space.Unnamed? || index.Unnamed?
    ensures r.Some? ==>
              Carries(r.value, 0x05, sync, [Entry(Int(0x20), key),
                                            Entry(Int(0x10), Int(if space.Id? then space.id else 0)),
                                            Entry(Int(0x11), Int(if index.Id? then index.id else 0))])
  {
    var id := Resolve(space);
    if id.None? {
      return None;
    }
    var indexId := Resolve(index);
    if indexId.None? {
      return None;
    }
    var bytes := PackFixed(DELETE, sync, [Entry(Int(KEY), key), Entry(Int(SPACE_ID), Int(id.value)),
                                          Entry(Int(INDEX_ID), Int(indexId.value))]);
    return Some(bytes);
  }

  /** The bytes of a request with a small type, sync and number of entries: frame and size, the header map, the head of
      the body map. */
  lemma FixedRequestBytes(kind: nat, sync: nat, es: seq<Entry>)
    requires kind < 0x80 && sync < 0x80 && |es| < 0x10 && |EncodeEntries(es)| < 0x1_0000
    ensures var size := 6 + |EncodeEntries(es)|;
            FixedRequest(kind, sync, es)
            == [0xce, 0, size / 0x1_0000, size / 0x100 % 0x100, size % 0x100]
               + [0x82, 0x01, sync, 0x00, kind, 0x80 + |es|] + EncodeEntries(es)
  {
    hide EncodeEntries, BigEndian;
    var payload := Pack(RequestHeader(kind, sync)) + Encode(Map(es));
    assert Pack(RequestHeader(kind, sync)) == [0x82, 0x01, sync, 0x00, kind];
    EncodeMapIs(es);
    assert payload == [0x82, 0x01, sync, 0x00, kind, 0x80 + |es|] + EncodeEntries(es);
    BigEndianFour(|payload|);
  }

  /** So a ping is these eleven bytes. */
  lemma PingBytes(sync: nat)
    requires sync < 0x80
    ensures FixedRequest(0x40, sync, []) == [0xce, 0, 0, 0, 6, 0x82, 0x01, sync, 0x00, 0x40, 0x80]
  {
    hide FixedRequest;
    EncodeNoEntries();
    FixedRequestBytes(0x40, sync, []);
  }

  /** And a call without arguments of a function with a short name is these. */
  lemma CallBytes(sync: nat, name: seq<byte>)
    requires sync < 0x80 && |name| < 0x20
    ensures FixedRequest(0x0a, sync, [Entry(Int(0x22), Str(name)), Entry(Int(0x21), Arr([]))])
            == [0xce, 0, 0, 0, 10 + |name|, 0x82, 0x01, sync, 0x00, 0x0a, 0x82, 0x22, 0xa0 + |name|]
               + name + [0x21, 0x90]
  {
    hide FixedRequest;
    var e1, e2 := Entry(Int(0x22), Str(name)), Entry(Int(0x21), Arr([]));
    assert EncodeEntry(e1) == [0x22, 0xa0 + |name|] + name;
    assert EncodeEntry(e2) == [0x21, 0x90] by { EmptyArray(); }
    EncodeTwo(e1, e2);
    FixedRequestBytes(0x0a, sync, [e1, e2]);
  }

  lemma EmptyArray()
    ensures Encode(Arr([])) == [0x90]
  {
  }

  lemma EncodeTwo(e1: Entry, e2: Entry)
    ensures EncodeEntries([e1, e2]) == EncodeEntry(e1) + EncodeEntry(e2)
  {
    hide EncodeEntry;
    assert [e1, e2][1..] == [e2] && [e2][1..] == [];
    assert EncodeEntries([e2]) == EncodeEntry(e2) + [];
  }

  // ---------------------------------------------------------------- select

  datatype SelectOption =
    | Index(place: Place)
    | Limit(n: nat)
    | Offset(n: nat)
    | Iterator(n: nat)
    | Key(key: Value)
    | AfterPosition(position: seq<byte>)
    | AfterTuple(tuple: Value)
    | FetchPosition(on: bool)

  /** The map entry an option packs; the index is only remembered, and never sent. */
  function EntryOf(o: SelectOption): (e: Option<Entry>)
  {
    match o
    case Index(_) => None
    case Limit(n) => Some(Entry(Int(LIMIT_FIELD), Int(n)))
    case Offset(n) => Some(Entry(Int(OFFSET), Int(n)))
    case Iterator(n) => Some(Entry(Int(ITERATOR), Int(n)))
    case Key(v) => Some(Entry(Int(KEY), v))
    case AfterPosition(p) => Some(Entry(Int(AFTER_POSITION), Str(p)))
    case AfterTuple(v) => Some(Entry(Int(AFTER_TUPLE), v))
    case FetchPosition(b) => Some(Entry(Int(FETCH_POSITION), Bool(b)))
  }

  function EntriesOf(os: seq<SelectOption>): (es: seq<Entry>)
  {
    if os == [] then []
    else
      var init := EntriesOf(os[..|os| - 1]);
      match EntryOf(os[|os| - 1]) case None => init case Some(e) => init + [e]
  }

  class SelectBuilder {
    const sync: nat
    const space: Place
    var index: Place
    const packer: Packer
    ghost var entries: seq<Entry>

    /** The packer holds the header and an open map with the entries so far. */
    ghost predicate Valid()
      reads this, packer
    {
      && packer.Valid()
      && packer.Payload() == Pack(RequestHeader(SELECT, sync)) + [MAP_TAG, 0xff, 0xff] + EncodeEntries(entries)
      && packer.mapLenOffset == PREAMBLE_SIZE + |Pack(RequestHeader(SELECT, sync))| + 1
      && packer.headerCount == |entries| % 0x1_0000
    }

    constructor (space: Place, index: Place, sync: nat)
      ensures Valid() && fresh(packer) && entries == []
      ensures this.space == space && this.index == index && this.sync == sync
    {
      this.sync, this.space, this.index := sync, space, index;
      entries := [];
      packer := new Packer();
      new;
      packer.PackHeader(RequestHeader(SELECT, sync));
      packer.BeginOpenMap();
    }

    method Add(e: Entry)
      requires Valid()
      modifies this`entries, packer`out, packer`headerCount
      ensures Valid() && entries == old(entries) + [e]
    {
      hide Pack, EncodeEntry, EncodeEntries;
      CountStep(|entries|);
      EncodeEntriesSnoc(entries, e);
      Regroup(Pack(RequestHeader(SELECT, sync)) + [MAP_TAG, 0xff, 0xff], EncodeEntries(entries), EncodeEntry(e));
      packer.PackMapEntry(e);
      entries := entries + [e];
    }

    method With(o: SelectOption)
      requires Valid()
      modifies this, packer
      ensures Valid()
      ensures entries == match EntryOf(o) { case None => old(entries) case Some(e) => old(entries) + [e] }
      ensures index == if o.Index? then o.place else old(index)
    {
      if o.Index? {
        index := o.place;
      } else {
        hide Valid;
        Add(EntryOf(o).value);
      }
    }

    /** Appends the space and closes the request: the count goes into the map, then the size into the preamble. */
    method Select() returns (r: Option<seq<byte>>)
      requires Valid()
      modifies this`entries, packer
      ensures match Resolve(space)
              case None => r == None
              case Some(id) =>
                var all := old(entries) + [Entry(Int(SPACE_ID), Int(id))];
                r == Some(Framed(Pack(RequestHeader(SELECT, sync)) + CountedMap(all)))
    {
      hide Pack, Framed, BigEndian, Patched, EncodeEntries, EncodeEntry, CountedMap;
      var id := Resolve(space);
      if id.None? {
        return None;
      }
      Add(Entry(Int(SPACE_ID), Int(id.value)));
      packer.FinalizeMap();
      CloseMap(packer.Payload(), Pack(RequestHeader(SELECT, sync)), entries);
      packer.Finalize();
      return Some(packer.out);
    }
  }

  /** Counting in 16 bits. */
  lemma CountStep(n: nat)
    ensures (n % 0x1_0000 + 1) % 0x1_0000 == (n + 1) % 0x1_0000
  {
  }

  /** Filling in the count turns the open map into a counted one. */
  lemma CloseMap(payload: seq<byte>, front: seq<byte>, all: seq<Entry>)
    requires var unclosed := front + [MAP_TAG, 0xff, 0xff] + EncodeEntries(all);
             payload == Patched(unclosed, |front| + 1, BigEndian(|all| % 0x1_0000, 2))
    ensures payload == front + CountedMap(all)
  {
    hide EncodeEntries, BigEndian;
    PatchGap(front, MAP_TAG, EncodeEntries(all), BigEndian(|all| % 0x1_0000, 2));
  }

  lemma PatchGap(front: seq<byte>, tag: byte, tail: seq<byte>, patch: seq<byte>)
    requires |patch| == 2
    ensures Patched(front + [tag, 0xff, 0xff] + tail, |front| + 1, patch) == front + ([tag] + patch + tail)
  {
    var s := front + [tag, 0xff, 0xff] + tail;
    assert s[..|front| + 1] == front + [tag] && s[|front| + 3..] == tail;
  }

  /** A space and perhaps an index, any sequence of options, then the select itself. The index makes no difference. */
  method BuildSelect(space: Place, index: Place, sync: nat, options: seq<SelectOption>) returns (r: Option<seq<byte>>)
    ensures match space
            case Unnamed => r == None
            case Named(_) => r == Some(SelectRequest(sync, options, 0))
            case Id(n) => r == Some(SelectRequest(sync, options, n))
  {
    hide Pack, Framed, CountedMap;
    var builder := new SelectBuilder(space, index, sync);
    for i := 0 to |options|
      invariant fresh(builder) && fresh(builder.packer) && builder.Valid()
      invariant builder.entries == EntriesOf(options[..i])
    {
      builder.With(options[i]);
      assert options[..i + 1][..i] == options[..i];
    }
    assert options[..|options|] == options;
    r := builder.Select();
  }

  function SelectEntries(options: seq<SelectOption>, id: nat): (es: seq<Entry>)
  {
    EntriesOf(options) + [Entry(Int(SPACE_ID), Int(id))]
  }

  function SelectRequest(sync: nat, options: seq<SelectOption>, id: nat): (bytes: seq<byte>)
  {
    Framed(Pack(RequestHeader(SELECT, sync)) + CountedMap(SelectEntries(options, id)))
  }

  // ---------------------------------------------------------------- what a select means

  /** The value of the last entry under a key. */
  function LastUnder(es: seq<Entry>, key: int): (v: Option<Value>)
  {
    if es == [] then None
    else if es[|es| - 1].key == Int(key) then Some(es[|es| - 1].val)
    else LastUnder(es[..|es| - 1], key)
  }

  /** The last option of a kind. */
  function LastOf(os: seq<SelectOption>, kind: SelectOption -> bool): (o: Option<SelectOption>)
  {
    if os == [] then None
    else if kind(os[|os| - 1]) then Some(os[|os| - 1])
    else LastOf(os[..|os| - 1], kind)
  }

  /** The last option of the kind packed under a key decides the last entry under it. */
  lemma {:induction false} LastDecides(os: seq<SelectOption>, key: int, kind: SelectOption -> bool)
    requires forall o :: kind(o) <==> EntryOf(o).Some? && EntryOf(o).value.key == Int(key)
    ensures match LastOf(os, kind)
            case None => LastUnder(EntriesOf(os), key) == None
            case Some(o) => EntryOf(o).Some? && LastUnder(EntriesOf(os), key) == Some(EntryOf(o).value.val)
  {
    hide EntryOf;
    if os != [] {
      var init, last := os[..|os| - 1], os[|os| - 1];
      LastDecides(init, key, kind);
      if EntryOf(last).Some? {
        assert (EntriesOf(init) + [EntryOf(last).value])[..|EntriesOf(init)|] == EntriesOf(init);
      }
    }
  }

  /** What the entries of a select say, key by key: each option under its own key, with the value it was last given, and
      nothing under the key of an option that was not given. */
  ghost predicate SelectSays(es: seq<Entry>, os: seq<SelectOption>, space: nat)
  {
    && LastUnder(es, 0x10) == Some(Int(space)) && LastUnder(es, 0x11) == None
    && (match LastOf(os, (o: SelectOption) => o.Limit?)
        case None => LastUnder(es, 0x12) == None
        case Some(o) => o.Limit? && LastUnder(es, 0x12) == Some(Int(o.n)))
    && (match LastOf(os, (o: SelectOption) => o.Offset?)
        case None => LastUnder(es, 0x13) == None
        case Some(o) => o.Offset? && LastUnder(es, 0x13) == Some(Int(o.n)))
    && (match LastOf(os, (o: SelectOption) => o.Iterator?)
        case None => LastUnder(es, 0x14) == None
        case Some(o) => o.Iterator? && LastUnder(es, 0x14) == Some(Int(o.n)))
    && (match LastOf(os, (o: SelectOption) => o.FetchPosition?)
        case None => LastUnder(es, 0x1f) == None
        case Some(o) => o.FetchPosition? && LastUnder(es, 0x1f) == Some(Bool(o.on)))
    && (match LastOf(os, (o: SelectOption) => o.Key?)
        case None => LastUnder(es, 0x20) == None
        case Some(o) => o.Key? && LastUnder(es, 0x20) == Some(o.key))
    && (match LastOf(os, (o: SelectOption) => o.AfterPosition?)
        case None => LastUnder(es, 0x2e) == None
        case Some(o) => o.AfterPosition? && LastUnder(es, 0x2e) == Some(Str(o.position)))
    && (match LastOf(os, (o: SelectOption) => o.AfterTuple?)
        case None => LastUnder(es, 0x2f) == None
        case Some(o) => o.AfterTuple? && LastUnder(es, 0x2f) == Some(o.tuple))
  }

  lemma {:induction false} LastOfIs(os: seq<SelectOption>, kind: SelectOption -> bool)
    ensures LastOf(os, kind).Some? ==> kind(LastOf(os, kind).value)
  {
    if os != [] && !kind(os[|os| - 1]) {
      LastOfIs(os[..|os| - 1], kind);
    }
  }

  lemma SpaceLast(os: seq<SelectOption>, space: nat, key: int)
    ensures LastUnder(SelectEntries(os, space), key)
            == if key == 0x10 then Some(Int(space)) else LastUnder(EntriesOf(os), key)
  {
    hide EntriesOf;
    var es, e := EntriesOf(os), Entry(Int(SPACE_ID), Int(space));
    assert (es + [e])[..|es|] == es;
  }

  lemma OptionDecides(os: seq<SelectOption>, space: nat, key: int, kind: SelectOption -> bool)
    requires key != 0x10
    requires forall o :: kind(o) <==> EntryOf(o).Some? && EntryOf(o).value.key == Int(key)
    ensures match LastOf(os, kind)
            case None => LastUnder(SelectEntries(os, space), key) == None
            case Some(o) =>
              && kind(o) && EntryOf(o).Some?
              && LastUnder(SelectEntries(os, space), key) == Some(EntryOf(o).value.val)
  {
    hide EntryOf, LastUnder, SelectEntries;
    LastOfIs(os, kind);
    LastDecides(os, key, kind);
    SpaceLast(os, space, key);
  }

  lemma EntriesSay(os: seq<SelectOption>, space: nat)
    ensures SelectSays(SelectEntries(os, space), os, space)
  {
    hide LastUnder, SelectEntries, LastOf;
    SpaceLast(os, space, 0x10);
    OptionDecides(os, space, 0x11, (o: SelectOption) => false);
    OptionDecides(os, space, 0x12, (o: SelectOption) => o.Limit?);
    OptionDecides(os, space, 0x13, (o: SelectOption) => o.Offset?);
    OptionDecides(os, space, 0x14, (o: SelectOption) => o.Iterator?);
    OptionDecides(os, space, 0x1f, (o: SelectOption) => o.FetchPosition?);
    OptionDecides(os, space, 0x20, (o: SelectOption) => o.Key?);
    OptionDecides(os, space, 0x2e, (o: SelectOption) => o.AfterPosition?);
    OptionDecides(os, space, 0x2f, (o: SelectOption) => o.AfterTuple?);
  }

  /** The options other than those that name the index. */
  function ButIndex(os: seq<SelectOption>): (r: seq<SelectOption>)
  {
    if os == [] then []
    else
      var init, last := ButIndex(os[..|os| - 1]), os[|os| - 1];
      if last.Index? then init else init + [last]
  }

  lemma {:induction false} ButIndexPacksAlike(os: seq<SelectOption>)
    ensures EntriesOf(ButIndex(os)) == EntriesOf(os)
  {
    if os != [] {
      var init, last := os[..|os| - 1], os[|os| - 1];
      ButIndexPacksAlike(init);
      if !last.Index? {
        assert (ButIndex(init) + [last])[..|ButIndex(init)|] == ButIndex(init);
      }
    }
  }

  /** The index is never sent: selects that differ only in it are the same request. */
  lemma IndexNeverSent(sync: nat, os: seq<SelectOption>, os': seq<SelectOption>, id: nat)
    requires ButIndex(os) == ButIndex(os')
    ensures SelectRequest(sync, os, id) == SelectRequest(sync, os', id)
  {
    hide EntriesOf, ButIndex;
    ButIndexPacksAlike(os);
    ButIndexPacksAlike(os');
  }

  /** A select request conveys exactly the options given, in order, followed by the space, if and only if fewer than
      65535 of them packed an entry. */
  lemma SelectConveysIff(sync: nat, options: seq<SelectOption>, id: nat)
    requires sync < UINT64 && Sendable(SelectEntries(options, id))
    requires |Pack(RequestHeader(SELECT, sync))| + |CountedMap(SelectEntries(options, id))| < SIZE_LIMIT
    ensures Conveys(SelectRequest(sync, options, id), RequestHeader(SELECT, sync), SelectEntries(options, id))
            <==> |EntriesOf(options)| < 65535
    ensures SelectSays(SelectEntries(options, id), options, id)
    ensures RequestHeader(SELECT, sync) == Header(0x01, sync, 0, None)
  {
    hide Parse, Decode, Pack, Framed, CountedMap, EntriesOf, SelectSays;
    EntriesSay(options, id);
    var es, h := SelectEntries(options, id), RequestHeader(SELECT, sync);
    var counted, bytes := CountedMap(es), SelectRequest(sync, options, id);
    CountedMapIff(es, []);
    assert counted + [] == counted;
    if |es| < 0x1_0000 {
      ConveysBody(SELECT, sync, counted, es);
    } else if Conveys(bytes, h, es) {
      ConveyedBody(h, counted, es);
    }
  }

  /** If a request conveys a map, then its own body decodes to that map. */
  lemma ConveyedBody(h: Header, body: seq<byte>, es: seq<Entry>)
    requires Fits(h) && body != [] && |Pack(h)| + |body| < SIZE_LIMIT
    requires Conveys(Framed(Pack(h) + body), h, es)
    ensures Decode(body) == Got(Map(es), |body|)
  {
    hide Parse, Decode, Pack, Framed;
    var bytes := Framed(Pack(h) + body);
    var seen :|
      && Decode(seen) == Got(Map(es), |seen|)
      && forall rest :: Parse(bytes + rest) == Cut(Message(h, seen), |bytes|);
    RequestRoundTrip(h, body, []);
    assert Parse(bytes + []) == Cut(Message(h, seen), |bytes|);
  }
}
