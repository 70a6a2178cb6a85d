/** The receive path: cutting the bytes a socket delivers, in chunks of any size, into IPROTO frames on top of the
    growing receive buffer. */
module Framing {
  import opened Bytes
  import opened MsgPack
  import opened Headers
  import opened FrameParser
  import opened ReceiveBuffer

  /** The reading side of a connected socket. A socket that is not `faulty` fails only when its peer has closed
      before sending enough; a faulty one may fail at any read. */
  class Socket {
    var pending: seq<byte>
    var faulty: bool

    constructor (s: seq<byte>, f: bool)
      ensures pending == s && faulty == f
    {
      pending, faulty := s, f;
    }

    /** An asynchronous read into [from, to) that completes with at least `min` bytes or fails. On failure some
        bytes may have been taken from the wire and stored, but the caller is not told where they are. */
    method ReadAtLeast(mem: array<byte>, from: nat, to: nat, min: nat) returns (ok: bool, k: nat)
      requires from <= to <= mem.Length && min <= to - from
      modifies this`pending, mem
      ensures mem[..from] == old(mem[..from]) && mem[to..] == old(mem[to..])
      ensures ok ==> min <= k <= to - from && k <= |old(pending)|
      ensures ok ==> mem[from..from + k] == old(pending)[..k] && pending == old(pending)[k..]
      ensures !ok ==> faulty || |old(pending)| < min
    {
      var fails: bool := *;
      ok := !(|pending| < min || (faulty && fails));
      var most := if |pending| < to - from then |pending| else to - from;
      var least := if ok then min else 0;
      assert least <= most;
      k :| least <= k <= most;
      forall i | 0 <= i < k {
        mem[from + i] := pending[i];
      }
      pending := pending[k..];
    }
  }

  /** What `receive_message` completes with. `Aborted` is the failed assertion in `slice`. */
  datatype Received =
    | SocketFailed
    | Rejected(code: Errc)
    | Aborted
    | Frame(header: Header, body: FrozenBuffer)

  datatype LengthRead = NoLength | BadSize | Size(n: nat)

  class IprotoFraming {
    const stream: Socket
    const buffer: MutableBuffer
    /** The largest transfer asked for so far, at least 1. */
    ghost var largest: nat

    ghost predicate Valid()
      reads this, buffer, buffer.owned, set b: SharedBuffer | b in buffer.owned :: b.data
    {
      && buffer.Valid()
      && largest >= 1
      && buffer.buffer.size <= buffer.defaultLength + 2 * largest - 1
    }

    /** Everything that has been sent to us and not yet been delivered: read ahead, then still on the wire. */
    ghost function Undelivered(): (s: seq<byte>)
      requires Valid()
      reads this, stream, buffer, buffer.owned, set b: SharedBuffer | b in buffer.owned :: b.data
    {
      buffer.Contents() + stream.pending
    }

    /** No unread byte has been copied between blocks yet. */
    ghost predicate Uncopied()
      reads buffer
    {
      CopiedWithin(buffer.copies, 0)
    }

    /** Nothing is read ahead. */
    ghost predicate Drained()
      reads buffer, buffer.buffer
    {
      buffer.buffer.readPointer == buffer.buffer.writePointer
    }

    constructor (s: Socket, defaultSize: nat)
      ensures Valid() && fresh(buffer) && fresh(buffer.buffer) && fresh(buffer.buffer.data)
      ensures stream == s && Undelivered() == s.pending
      ensures buffer.frozen == map[] && Uncopied()
    {
      stream := s;
      buffer := new MutableBuffer(defaultSize);
      largest := 1;
      new;
      assert buffer.Contents() == [];
    }

    /** One socket read into the space behind the write pointer. With that much room the receive buffer is handed
        out as it is: nothing is reallocated between asking for it and asking how many bytes are missing. */
    method Fill(n: nat) returns (ok: bool)
      requires Valid() && buffer.buffer.Ready() < n <= buffer.buffer.Free()
      modifies stream`pending, buffer, buffer.buffer, buffer.buffer.data
      ensures Valid() && buffer.frozen == old(buffer.frozen) && buffer.buffer == old(buffer.buffer)
      ensures ok ==> Undelivered() == old(Undelivered()) && n <= buffer.buffer.Ready()
      ensures ok ==> old(buffer.copies) <= buffer.copies
                     && forall i :: |old(buffer.copies)| <= i < |buffer.copies| ==> buffer.copies[i] == 0
      ensures !ok ==> stream.faulty || |old(Undelivered())| < n
    {
      hide MutableBuffer.Views;
      ghost var before, wire := buffer.Contents(), stream.pending;
      var mem, from, to := buffer.GetReceiveBuffer();
      label reading:
      var k;
      ok, k := stream.ReadAtLeast(mem, from, to, n - buffer.buffer.Ready());
      buffer.StoresBehindWriter@reading();
      if ok {
        buffer.AdvanceWriter(k);
        Rejoin(before, wire, k);
      }
    }

    /** Reads until `n` bytes are at hand: the part of `transfer_exactly` behind the shortcut. */
    method ReadMore(n: nat) returns (ok: bool)
      requires Valid() && buffer.buffer.Ready() < n <= largest
      modifies stream`pending, buffer, buffer.buffer, buffer.buffer.data
      ensures Valid() && buffer.frozen == old(buffer.frozen)
      ensures buffer.buffer == old(buffer.buffer) || (fresh(buffer.buffer) && fresh(buffer.buffer.data))
      ensures ok ==> Undelivered() == old(Undelivered()) && n <= buffer.buffer.Ready()
      ensures !ok ==> stream.faulty || |old(Undelivered())| < n
      ensures ok && old(Uncopied()) ==> CopiedWithin(buffer.copies, n)
    {
      hide CopiedWithin, MutableBuffer.Blocks, MutableBuffer.Views;
      buffer.BlockIn();
      buffer.Prepare(n);
      ghost var marks := buffer.copies;
      ok := Fill(n);
      if ok {
        CopiedExtend(old(buffer.copies), marks, buffer.copies, n);
      }
    }

    /** Delivers the next `n` bytes as one view, reading more only when too few are at hand. Every delivered byte
        was copied between blocks at most once, and what is read ahead not at all. */
    method TransferExactly(n: nat) returns (r: Option<FrozenBuffer>, ghost counts: seq<nat>)
      requires Valid()
      modifies this`largest, stream`pending, buffer, buffer.buffer, buffer.buffer.data
      ensures Valid() && Keeps(old(buffer.frozen), buffer.frozen)
      ensures buffer.buffer == old(buffer.buffer) || (fresh(buffer.buffer) && fresh(buffer.buffer.data))
      ensures r.Some? ==>
                && n <= |old(Undelivered())|
                && r.value in buffer.frozen && r.value.InBounds()
                && r.value.View() == old(Undelivered())[..n]
                && Undelivered() == old(Undelivered())[n..]
      ensures r.None? ==> stream.faulty || |old(Undelivered())| < n
      ensures r.Some? && old(Uncopied()) ==> Uncopied() && |counts| == n && CopiedWithin(counts, n)
      ensures largest == if n > old(largest) then n else old(largest)
    {
      hide CopiedWithin, MutableBuffer.Blocks, MutableBuffer.Views;
      buffer.BlockIn();
      largest := if n > largest then n else largest;
      counts := [];
      if buffer.buffer.Ready() < n {
        var ok := ReadMore(n);
        if !ok {
          return None, counts;
        }
      }
      Divide(buffer.Contents(), stream.pending, n);
      ghost var marks := buffer.copies;
      counts := marks[..n];
      CopiedDivide(marks, n);
      var f := buffer.AdvanceReader(n);
      r := Some(f);
    }

    /** The big-endian integer in the next `w` bytes. */
    method ReadField(w: nat) returns (r: Option<nat>)
      requires Valid()
      modifies this`largest, stream`pending, buffer, buffer.buffer, buffer.buffer.data
      ensures Valid() && Keeps(old(buffer.frozen), buffer.frozen)
      ensures buffer.buffer == old(buffer.buffer) || (fresh(buffer.buffer) && fresh(buffer.buffer.data))
      ensures r.Some? ==>
                && w <= |old(Undelivered())|
                && r.value == FromBigEndian(old(Undelivered())[..w])
                && Undelivered() == old(Undelivered())[w..]
      ensures r.None? ==> stream.faulty || |old(Undelivered())| < w
      ensures r.Some? && old(Uncopied()) ==> Uncopied()
    {
      hide FromBigEndian, CopiedWithin;
      if w == 0 {
        assert FromBigEndian([]) == 0 by { BigEndianOfNothing(); }
        return Some(0);
      }
      var field, _ := TransferExactly(w);
      r := if field.None? then None else Some(FromBigEndian(field.value.View()));
    }

    /** Reads the tag, then as many bytes as the tag asks for. */
    method ReadMessageLength() returns (r: LengthRead)
      requires Valid()
      modifies this`largest, stream`pending, buffer, buffer.buffer, buffer.buffer.data
      ensures Valid() && Keeps(old(buffer.frozen), buffer.frozen)
      ensures buffer.buffer == old(buffer.buffer) || (fresh(buffer.buffer) && fresh(buffer.buffer.data))
      ensures var all := old(Undelivered());
              match r
              case NoLength => stream.faulty || ParseLength(all).NeedMore?
              case BadSize => ParseLength(all).BadLength? && Undelivered() == all[ParseLength(all).used..]
              case Size(n) =>
                && ParseLength(all).Length? && n == ParseLength(all).size
                && Undelivered() == all[ParseLength(all).used..]
      ensures !r.NoLength? && old(Uncopied()) ==> Uncopied()
    {
      hide ParseLength, Judge, FieldWidth, FromBigEndian, Span, Valid, Undelivered, Uncopied;
      ghost var all := Undelivered();
      var tag, _ := TransferExactly(1);
      if tag.None? {
        assert all == [] ==> ParseLength(all).NeedMore? by { ParseNothing(); }
        return NoLength;
      }
      ParseLengthByParts(all);
      var t := tag.value.View()[0];
      var v := ReadField(FieldWidth(t));
      if v.None? {
        return NoLength;
      }
      assert all[1..][FieldWidth(t)..] == all[1 + FieldWidth(t)..];
      match Judge(t, v.value)
      case BadLength(_) => return BadSize;
      case Length(n, _) => return Size(n);
    }

    /** Receives one message. Whatever the chunks, it is the first frame of the undelivered bytes, and exactly its
        bytes are consumed; a sound socket fails it only when that frame is incomplete. */
    method ReceiveMessage() returns (r: Received)
      requires Valid()
      modifies this`largest, stream`pending, buffer, buffer.buffer, buffer.buffer.data
      ensures Valid() && Keeps(old(buffer.frozen), buffer.frozen)
      ensures buffer.buffer == old(buffer.buffer) || (fresh(buffer.buffer) && fresh(buffer.buffer.data))
      ensures r.Frame? ==> r.body.InBounds() && r.body in buffer.frozen && r.body.View() == buffer.frozen[r.body]
      ensures r.SocketFailed? ==> stream.faulty || Parse(old(Undelivered())).Incomplete?
      ensures !r.SocketFailed? ==>
                var p := Parse(old(Undelivered()));
                p.Cut? && Agrees(r, p.content) && Undelivered() == old(Undelivered())[p.used..]
      ensures !r.SocketFailed? && old(Uncopied()) ==> Uncopied()
    {
      hide ParseLength, Interpret, Agrees, Valid, Undelivered, Uncopied;
      ghost var all := Undelivered();
      var length := ReadMessageLength();
      if length.NoLength? {
        return SocketFailed;
      }
      if length.BadSize? {
        AgreesOnBadSize();
        return Rejected(MessageSize);
      }
      var transferred, _ := TransferExactly(length.n);
      if transferred.None? {
        return SocketFailed;
      }
      Regions(all, ParseLength(all).used, length.n);
      r := Cast(transferred.value);
    }

    /** The receive loop, with the messages so far matched against the recorded views. */
    method Drain() returns (frames: seq<Received>, ghost done: seq<Content>)
      requires Valid()
      modifies this`largest, stream`pending, buffer, buffer.buffer, buffer.buffer.data
      ensures Valid() && Keeps(old(buffer.frozen), buffer.frozen)
      ensures RecordedAll(frames, done, buffer.frozen)
      ensures done <= ParseAll(old(Undelivered()))
      ensures !stream.faulty ==> done == ParseAll(old(Undelivered()))
    {
      hide Parse, ParseAll, Valid, Undelivered, Recorded, RecordedAll, Keeps;
      frames, done := [], [];
      ghost var todo := Undelivered();
      RecordedNone(buffer.frozen);
      KeepsItself(buffer.frozen);
      while true
        invariant Valid() && Keeps(old(buffer.frozen), buffer.frozen)
        invariant buffer.buffer == old(buffer.buffer) || (fresh(buffer.buffer) && fresh(buffer.buffer.data))
        invariant todo == Undelivered() && ParseAll(old(Undelivered())) == done + ParseAll(todo)
        invariant RecordedAll(frames, done, buffer.frozen)
        decreases |todo|
      {
        hide Parse, ParseAll, Valid, Undelivered, Recorded, RecordedAll, Keeps;
        ghost var was := buffer.frozen;
        var r := ReceiveMessage();
        KeepsTransitive(old(buffer.frozen), was, buffer.frozen);
        RecordedKept(frames, done, was, buffer.frozen);
        if !r.Frame? {
          ParseAllStop(todo);
          break;
        }
        ghost var p := Parse(todo);
        RecordedMore(frames, done, buffer.frozen, r, p.content);
        ParseAllStep(done, todo);
        frames := frames + [r];
        done := done + [p.content];
        todo := todo[p.used..];
      }
    }

    /** Receives messages until something other than a message comes up, as the receive loop does. The frames,
        looked at when it is over, are the messages the parser finds in the whole stream: all of them if the
        socket is sound, the first few otherwise. */
    method ReceiveAll() returns (frames: seq<Received>)
      requires Valid()
      modifies this`largest, stream`pending, buffer, buffer.buffer, buffer.buffer.data
      ensures Valid() && Keeps(old(buffer.frozen), buffer.frozen)
      ensures forall i :: 0 <= i < |frames| ==> frames[i].Frame? && frames[i].body.InBounds()
      ensures var messages := ParseAll(old(Undelivered()));
              && |frames| <= |messages|
              && (forall i :: 0 <= i < |frames| ==> Agrees(frames[i], messages[i]))
              && (!stream.faulty ==> |frames| == |messages|)
    {
      hide ParseAll;
      ghost var done;
      frames, done := Drain();
      forall i | 0 <= i < |frames|
        ensures frames[i].Frame? && frames[i].body.InBounds() && Agrees(frames[i], done[i])
      {
        assert Recorded(frames[i], done[i], buffer.frozen);
        buffer.ViewIn(frames[i].body);
      }
    }

    /** Drops what is unread, as every connection attempt does. */
    method Clear()
      requires Valid()
      modifies buffer
      ensures Valid() && Undelivered() == stream.pending && buffer.frozen == old(buffer.frozen)
      ensures Drained() && Uncopied()
      ensures buffer.buffer == old(buffer.buffer) || (fresh(buffer.buffer) && fresh(buffer.buffer.data))
    {
      hide MutableBuffer.Blocks, MutableBuffer.Views, MutableBuffer.Contents;
      buffer.Clear();
      buffer.BlockIn();
      assert buffer.buffer.Ready() == |buffer.Contents()| == 0;
    }

    /** Unpacks the header of a delivered payload and slices off the body. */
    method Cast(payload: FrozenBuffer) returns (r: Received)
      requires Valid() && payload in buffer.frozen && payload.InBounds()
      modifies buffer`frozen
      ensures Valid() && Keeps(old(buffer.frozen), buffer.frozen)
      ensures Undelivered() == old(Undelivered()) && Uncopied() == old(Uncopied())
      ensures r.Frame? ==> r.body.InBounds() && r.body in buffer.frozen && r.body.View() == buffer.frozen[r.body]
      ensures !r.SocketFailed? && Agrees(r, Interpret(payload.View()))
    {
      hide Decode, Convert, MutableBuffer.Blocks, MutableBuffer.Views;
      buffer.ViewIn(payload);
      var unpacked := Decode(payload.View());
      if unpacked.Failed? {
        return Rejected(StateNotRecoverable);
      }
      var header := ConvertMap(unpacked.item);
      if header.None? {
        return Rejected(IllegalByteSequence);
      }
      if unpacked.used >= payload.size {
        return Aborted;
      }
      var body := buffer.Share(payload, unpacked.used);
      return Frame(header.value, body);
    }
  }

  /** Frame `r` is recorded among the views and shows the content `c` there. */
  ghost predicate Recorded(r: Received, c: Content, frozen: map<FrozenBuffer, seq<byte>>)
  {
    r.Frame? && r.body in frozen && c == Message(r.header, frozen[r.body])
  }

  ghost predicate RecordedAll(frames: seq<Received>, done: seq<Content>, frozen: map<FrozenBuffer, seq<byte>>)
  {
    |done| == |frames| && forall i :: 0 <= i < |frames| ==> Recorded(frames[i], done[i], frozen)
  }

  lemma RecordedNone(frozen: map<FrozenBuffer, seq<byte>>)
    ensures RecordedAll([], [], frozen)
  {
  }

  lemma RecordedKept(frames: seq<Received>, done: seq<Content>,
                     was: map<FrozenBuffer, seq<byte>>, now: map<FrozenBuffer, seq<byte>>)
    requires RecordedAll(frames, done, was) && Keeps(was, now)
    ensures RecordedAll(frames, done, now)
  {
    forall i | 0 <= i < |frames|
      ensures Recorded(frames[i], done[i], now)
    {
      assert Recorded(frames[i], done[i], was);
    }
  }

  lemma RecordedMore(frames: seq<Received>, done: seq<Content>, frozen: map<FrozenBuffer, seq<byte>>,
                     r: Received, c: Content)
    requires RecordedAll(frames, done, frozen) && r.Frame? && r.body.InBounds()
    requires r.body in frozen && r.body.View() == frozen[r.body] && Agrees(r, c)
    ensures RecordedAll(frames + [r], done + [c], frozen)
  {
  }

  lemma KeepsItself(a: map<FrozenBuffer, seq<byte>>)
    ensures Keeps(a, a)
  {
  }

  lemma KeepsTransitive(a: map<FrozenBuffer, seq<byte>>, b: map<FrozenBuffer, seq<byte>>,
                        c: map<FrozenBuffer, seq<byte>>)
    requires Keeps(a, b) && Keeps(b, c)
    ensures Keeps(a, c)
  {
  }

  /** What a completed `receive_message` must be, given what the parser makes of the same bytes. */
  ghost predicate Agrees(r: Received, c: Content)
    requires r.Frame? ==> r.body.InBounds()
    reads if r.Frame? then {r.body.buf.data} else {}
  {
    match r
    case SocketFailed => false
    case Rejected(code) => c == Refused(code)
    case Aborted => c.HeaderOnly?
    case Frame(header, body) => c == Message(header, body.View())
  }

  lemma AgreesOnBadSize()
    ensures Agrees(Rejected(MessageSize), Refused(MessageSize))
  {
  }

  /** The payload of a frame, reached by dropping the length first, is the slice the parser takes. */
  lemma Regions(s: seq<byte>, u: nat, n: nat)
    requires u + n <= |s|
    ensures s[u..][..n] == s[u..u + n] && s[u..][n..] == s[u + n..]
  {
  }

  /** Of the bytes counted, the first `n` were copied at most once and the others not at all. */
  ghost predicate CopiedWithin(counts: seq<nat>, n: nat)
  {
    forall i :: 0 <= i < |counts| ==> counts[i] <= if i < n then 1 else 0
  }

  lemma CopiedDivide(counts: seq<nat>, n: nat)
    requires n <= |counts|
    ensures CopiedWithin(counts, 0) ==> CopiedWithin(counts, n)
    ensures CopiedWithin(counts, n) ==> CopiedWithin(counts[..n], n) && CopiedWithin(counts[n..], 0)
  {
  }

  lemma CopiedExtend(was: seq<nat>, marks: seq<nat>, now: seq<nat>, n: nat)
    requires |was| < n && (marks == was || marks == Bumped(was))
    requires marks <= now && forall i :: |marks| <= i < |now| ==> now[i] == 0
    ensures CopiedWithin(was, 0) ==> CopiedWithin(now, n)
  {
  }

  /** Moving the first bytes of the wire behind the read-ahead changes nothing overall. */
  lemma Rejoin(a: seq<byte>, b: seq<byte>, k: nat)
    requires k <= |b|
    ensures (a + b[..k]) + b[k..] == a + b
  {
  }

  lemma Divide(a: seq<byte>, b: seq<byte>, n: nat)
    requires n <= |a|
    ensures (a + b)[..n] == a[..n] && (a + b)[n..] == a[n..] + b
  {
  }
}
