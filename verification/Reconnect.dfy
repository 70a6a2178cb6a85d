/** Establishing a connection: the greeting and the two places where the receive buffer is emptied. */
module Reconnect {
  import opened Bytes
  import opened ReceiveBuffer
  import opened Framing

  const HELLO_SIZE := 128
  const NEWLINE: byte := 10

  /** What lies behind one resolved address: nothing that answers, or a peer and all it will send. */
  datatype Attempt = Unreachable | Peer(sends: seq<byte>, faulty: bool)

  /** The greeting is two lines of 64 bytes; the second one starts with the salt. */
  predicate HelloOk(sends: seq<byte>) {
    |sends| >= HELLO_SIZE && sends[HELLO_SIZE / 2 - 1] == NEWLINE && sends[HELLO_SIZE - 1] == NEWLINE
  }

  predicate Greets(a: Attempt) {
    a.Peer? && HelloOk(a.sends)
  }

  /** 128 bytes, with a newline as the 64th and the last of them. */
  lemma HelloIff(sends: seq<byte>)
    ensures HELLO_SIZE == 128 && HELLO_SIZE / 2 == 64
    ensures HelloOk(sends) <==> |sends| >= 128 && sends[63] == 10 && sends[127] == 10
  {
  }

  /** Reads the greeting straight from the socket, not through the receive buffer. */
  method ReadHello(socket: Socket) returns (salt: Option<seq<byte>>)
    modifies socket`pending
    ensures salt.Some? ==>
              && HelloOk(old(socket.pending))
              && salt.value == old(socket.pending)[HELLO_SIZE / 2..HELLO_SIZE]
              && socket.pending == old(socket.pending)[HELLO_SIZE..]
    ensures salt.None? ==> socket.faulty || !HelloOk(old(socket.pending))
  {
    var hello := new byte[HELLO_SIZE](_ => 0);
    var ok, k := socket.ReadAtLeast(hello, 0, HELLO_SIZE, HELLO_SIZE);
    if !ok {
      return None;
    }
    assert hello[..] == hello[0..0 + k] == old(socket.pending)[..HELLO_SIZE];
    assert forall i :: 0 <= i < HELLO_SIZE ==> hello[i] == hello[..][i] == old(socket.pending)[i];
    if hello[HELLO_SIZE / 2 - 1] != NEWLINE || hello[HELLO_SIZE - 1] != NEWLINE {
      return None;
    }
    assert hello[HELLO_SIZE / 2..] == hello[..][HELLO_SIZE / 2..];
    return Some(hello[HELLO_SIZE / 2..]);
  }

  class Connection {
    const framing: IprotoFraming
    var salt: seq<byte>
    var open: bool

    constructor (f: IprotoFraming)
      ensures framing == f && salt == [] && !open
    {
      framing, salt, open := f, [], false;
    }

    /** The greeting of `a` has been read, and the framing stands at byte 128 of its stream, with nothing read ahead. */
    ghost predicate ConnectedTo(a: Attempt)
      requires framing.Valid()
      reads this, framing, framing.stream, framing.buffer, framing.buffer.owned
      reads set b: SharedBuffer | b in framing.buffer.owned :: b.data
    {
      && Greets(a) && open
      && framing.Undelivered() == a.sends[HELLO_SIZE..]
      && salt == a.sends[HELLO_SIZE / 2..HELLO_SIZE]
      && framing.Uncopied() && framing.Drained()
    }

    twostate predicate SameBlockOrNew()
      reads framing.buffer
    {
      var block := framing.buffer.buffer;
      block == old(framing.buffer.buffer) || (fresh(block) && fresh(block.data))
    }

    /** One turn of the address loop: empty the buffer, connect, read the greeting, empty the buffer again.
        Connecting opens the socket, and it stays open when connecting or the greeting fails. */
    method TryAddress(a: Attempt) returns (ok: bool)
      requires framing.Valid()
      modifies this, framing.stream, framing.buffer
      ensures framing.Valid() && framing.buffer.frozen == old(framing.buffer.frozen) && open
      ensures framing.Drained() && SameBlockOrNew()
      ensures ok ==> ConnectedTo(a)
      ensures !ok ==> salt == if a.Unreachable? then old(salt) else []
      ensures !ok ==> Greets(a) ==> a.faulty
    {
      hide HelloOk, IprotoFraming.Valid, IprotoFraming.Undelivered, IprotoFraming.Drained, IprotoFraming.Uncopied;
      framing.Clear();
      open := false;
      open := true;
      if a.Unreachable? {
        return false;
      }
      framing.stream.pending, framing.stream.faulty := a.sends, a.faulty;
      var hello := ReadHello(framing.stream);
      if hello.None? {
        salt := [];
        return false;
      }
      salt := hello.value;
      framing.Clear();
      return true;
    }

    /** Tries the resolved addresses in turn. Success leaves the framing at byte 128 of the new peer's stream, with
        nothing of the old one; over sound sockets it is the first address whose peer greets properly. Views handed
        out before keep their bytes either way. The socket may still be open on entry: a failed attempt at any address
        leaves it so, and the receive loop then connects again without closing it, although the code asserts on entry
        that it is closed. */
    method Connect(resolved: Option<seq<Attempt>>) returns (winner: Option<nat>)
      requires framing.Valid()
      modifies this, framing.stream, framing.buffer
      ensures framing.Valid() && framing.buffer.frozen == old(framing.buffer.frozen)
      ensures winner.Some? ==>
                && HasAddress(resolved) && winner.value < |resolved.value|
                && ConnectedTo(resolved.value[winner.value]) && Missed(resolved.value[..winner.value])
      ensures winner.None? && resolved.Some? ==> Missed(resolved.value)
      ensures winner.None? ==> (open <==> old(open) || HasAddress(resolved))
      ensures HasAddress(resolved) ==> open && framing.Drained()
      ensures SameBlockOrNew()
    {
      hide Greets, ConnectedTo, IprotoFraming.Valid, IprotoFraming.Undelivered, IprotoFraming.Drained;
      if resolved.None? {
        return None;
      }
      var addresses := resolved.value;
      for i := 0 to |addresses|
        invariant framing.Valid() && framing.buffer.frozen == old(framing.buffer.frozen)
        invariant Missed(addresses[..i]) && SameBlockOrNew()
        invariant open <==> old(open) || i > 0
        invariant i > 0 ==> framing.Drained()
      {
        hide Greets, ConnectedTo, IprotoFraming.Valid, IprotoFraming.Undelivered, IprotoFraming.Drained;
        var ok := TryAddress(addresses[i]);
        if ok {
          return Some(i);
        }
      }
      assert addresses[..|addresses|] == addresses;
      return None;
    }

    method Stop()
      modifies this`open
      ensures !open
    {
      open := false;
    }

    /** The loop's way of reconnecting: the reset closes the socket, then attempts follow one another with nothing in
        between. Without credentials the first success ends it, as good as if it had been the first attempt. With
        credentials a success does not: authentication is refused while the link is down, and the loop goes on to the
        next attempt with the socket open. `violated` is the first attempt that finds the socket open, against the
        assertion on its entry: it is the one after the first that was given an address, failed or not. Nothing else
        closes the socket meanwhile; a write completing in error would. */
    method Retry(credentials: bool, attempts: seq<Option<seq<Attempt>>>)
      returns (made: nat, winner: Option<nat>, violated: Option<nat>)
      requires framing.Valid()
      modifies this, framing.stream, framing.buffer
      ensures framing.Valid() && framing.buffer.frozen == old(framing.buffer.frozen)
      ensures made <= |attempts| && (credentials || winner.None? ==> made == |attempts|)
      ensures !credentials ==>
                forall k :: 0 <= k < (if winner.Some? then made - 1 else made) && attempts[k].Some? ==>
                              Missed(attempts[k].value)
      ensures winner.Some? ==>
                && 0 < made && HasAddress(attempts[made - 1])
                && var peers := attempts[made - 1].value;
                winner.value < |peers| && ConnectedTo(peers[winner.value]) && Missed(peers[..winner.value])
      ensures match violated
              case None => forall k :: 0 <= k < made - 1 ==> !HasAddress(attempts[k])
              case Some(v) => 0 < v < made && HasAddress(attempts[v - 1])
                              && forall k :: 0 <= k < v - 1 ==> !HasAddress(attempts[k])
    {
      hide ConnectedTo, Missed, IprotoFraming.Valid, IprotoFraming.Drained;
      Stop();
      winner, violated := None, None;
      for i := 0 to |attempts|
        invariant framing.Valid() && framing.buffer.frozen == old(framing.buffer.frozen)
        invariant !credentials ==>
                    winner.None? && forall k :: 0 <= k < i && attempts[k].Some? ==> Missed(attempts[k].value)
        invariant winner.Some? ==>
                    && 0 < i && HasAddress(attempts[i - 1])
                    && var peers := attempts[i - 1].value;
                    winner.value < |peers| && ConnectedTo(peers[winner.value]) && Missed(peers[..winner.value])
        invariant open <==> exists k :: 0 <= k < i && HasAddress(attempts[k])
        invariant violated.None? ==> forall k :: 0 <= k < i - 1 ==> !HasAddress(attempts[k])
        invariant violated.Some? ==>
                    && 0 < violated.value < i && HasAddress(attempts[violated.value - 1])
                    && forall k :: 0 <= k < violated.value - 1 ==> !HasAddress(attempts[k])
      {
        hide ConnectedTo, Missed, IprotoFraming.Valid, IprotoFraming.Drained;
        if open && violated.None? {
          violated := Some(i);
        }
        winner := Connect(attempts[i]);
        if winner.Some? && !credentials {
          return i + 1, winner, violated;
        }
      }
      made := |attempts|;
    }
  }

  predicate HasAddress(resolved: Option<seq<Attempt>>) {
    resolved.Some? && resolved.value != []
  }

  /** One address that does not answer is enough: the attempt fails, and the next one would find the socket open. */
  method FailsOpen(connection: Connection) returns (winner: Option<nat>)
    requires connection.framing.Valid()
    modifies connection, connection.framing.stream, connection.framing.buffer
    ensures winner.None? && connection.open
  {
    connection.Stop();
    winner := connection.Connect(Some([Unreachable]));
  }

  /** No address passed over had a sound peer that greets. */
  ghost predicate Missed(tried: seq<Attempt>)
  {
    forall i :: 0 <= i < |tried| && Greets(tried[i]) ==> tried[i].faulty
  }
}
