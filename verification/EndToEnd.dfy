/** The sending and the receiving side put together. */
module EndToEnd {
  import opened Bytes
  import opened Headers
  import opened FrameParser
  import opened RequestPacker
  import opened ReceiveBuffer
  import opened Framing
  import SendPipeline

  /** A finished request under the size limit, arriving in chunks of any size and with anything behind it, is received
      as one frame with its own header and body, and leaves exactly what was behind it. */
  method ReceiveRequest(framing: IprotoFraming, ghost h: Header, ghost body: seq<byte>, ghost rest: seq<byte>)
    returns (r: Received)
    requires framing.Valid() && !framing.stream.faulty
    requires Fits(h) && body != [] && |Pack(h)| + |body| < SIZE_LIMIT
    requires framing.Undelivered() == Framed(Pack(h) + body) + rest
    modifies framing`largest, framing.stream`pending, framing.buffer, framing.buffer.buffer, framing.buffer.buffer.data
    ensures framing.Valid() && Keeps(old(framing.buffer.frozen), framing.buffer.frozen)
    ensures r.Frame? && r.header == h.(schemaVersion := 0)
    ensures r.body.InBounds() && r.body.View() == body
    ensures framing.Undelivered() == rest
  {
    hide Parse, Pack, Framed, IprotoFraming.Valid, IprotoFraming.Undelivered;
    RequestRoundTrip(h, body, rest);
    assert (Framed(Pack(h) + body) + rest)[|Framed(Pack(h) + body)|..] == rest;
    r := framing.ReceiveMessage();
  }

  function Finished(rs: seq<Outgoing>): (buffers: seq<SendPipeline.Data>)
    ensures |buffers| == |rs|
  {
    seq(|rs|, i requires 0 <= i < |rs| => Framed(Pack(rs[i].header) + rs[i].body))
  }

  function Flattened(buffers: seq<SendPipeline.Data>): (s: seq<byte>)
  {
    if buffers == [] then [] else buffers[0] + Flattened(buffers[1..])
  }

  lemma {:induction false} FlattenedIsOnWire(rs: seq<Outgoing>)
    ensures Flattened(Finished(rs)) == OnWire(rs)
  {
    hide Framed, Pack;
    if rs != [] {
      assert Finished(rs)[1..] == Finished(rs[1..]);
      FlattenedIsOnWire(rs[1..]);
    }
  }

  /** Whatever requests are submitted, however submissions and write completions interleave, and however much of the
      write in progress has got through, what is on the wire parses as the requests that are complete there, in order
      and nothing else: all those of finished writes, and at most those of the current one besides. An idle connection
      has written them all. */
  lemma PeerReadsSubmissions(es: seq<SendPipeline.Event<SendPipeline.Data>>, rs: seq<Outgoing>, wire: seq<byte>)
    requires SendPipeline.EnabledAll(SendPipeline.Idle(), es) && forall e :: e in es ==> !e.WriteFailed?
    requires SendPipeline.Submissions(es) == Finished(rs) && forall r :: r in rs ==> Fitting(r)
    requires var p := SendPipeline.Run(SendPipeline.Idle(), es);
             Flattened(p.done) <= wire <= Flattened(p.done + p.flight)
    ensures var p := SendPipeline.Run(SendPipeline.Idle(), es);
            && |p.done| + |p.flight| <= |rs|
            && var k := WholeIn(rs[..|p.done| + |p.flight|], |wire|);
            && |p.done| <= k && ParseAll(wire) == AsContents(rs[..k])
            && (!p.sending ==> k == |p.done| == |rs|)
  {
    hide ParseAll, OnWire, Flattened, Framed, Pack, Fitting, SendPipeline.Run, WholeIn;
    SendPipeline.SentInOrder(es);
    var p := SendPipeline.Run(SendPipeline.Idle(), es);
    var d, n := |p.done|, |p.done| + |p.flight|;
    assert p.done == Finished(rs)[..d] == Finished(rs[..d]);
    assert p.done + p.flight == Finished(rs)[..n] == Finished(rs[..n]);
    FlattenedIsOnWire(rs[..d]);
    FlattenedIsOnWire(rs[..n]);
    assert wire == OnWire(rs[..n])[..|wire|];
    PrefixRoundTrip(rs[..n], |wire|);
    var k := WholeIn(rs[..n], |wire|);
    assert rs[..n][..k] == rs[..k];
    WrittenParses(rs[..d], wire);
  }

  lemma WrittenParses(rs: seq<Outgoing>, wire: seq<byte>)
    requires (forall r :: r in rs ==> Fitting(r)) && OnWire(rs) <= wire
    ensures |rs| <= |ParseAll(wire)|
  {
    hide ParseAll, OnWire, Fitting;
    StreamRoundTrip(rs, []);
    assert OnWire(rs) + [] == OnWire(rs);
    ParseAllMonotone(OnWire(rs), wire[|OnWire(rs)|..]);
    assert OnWire(rs) + wire[|OnWire(rs)|..] == wire;
  }
}
