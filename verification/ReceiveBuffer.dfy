/** The receive buffer: a block of memory with a read and a write pointer, which is replaced by a larger one while
    frames already handed out still refer to the old one. */
module ReceiveBuffer {
  import opened Bytes

  class SharedBuffer {
    const size: nat
    const data: array<byte>
    var writePointer: nat
    var readPointer: nat

    ghost predicate Valid()
      reads this
    {
      data.Length == size && readPointer <= writePointer <= size
    }

    constructor (n: nat)
      ensures Valid() && fresh(data)
      ensures size == n && writePointer == 0 && readPointer == 0
    {
      size := n;
      data := new byte[n](_ => 0);
      writePointer, readPointer := 0, 0;
    }

    /** Bytes that can still be written. */
    function Free(): (n: nat)
      requires Valid()
      reads this
    {
      size - writePointer
    }

    /** Bytes written and not yet consumed. */
    function Ready(): (n: nat)
      requires Valid()
      reads this
    {
      writePointer - readPointer
    }

    ghost function Unread(): (s: seq<byte>)
      requires Valid()
      reads this, data
    {
      data[readPointer..writePointer]
    }

    /** Takes over the unread bytes of `other`; the two bounds are the ones the code asserts. */
    method CopyRestFrom(other: SharedBuffer)
      requires Valid() && other.Valid()
      requires other != this && other.data != data
      requires other.Ready() < size && writePointer + other.Ready() <= size
      modifies this`writePointer, data, other`readPointer
      ensures Valid() && other.Valid()
      ensures data[..old(other.Ready())] == old(other.Unread())
      ensures data[old(other.Ready())..] == old(data[other.Ready()..])
      ensures writePointer == old(writePointer) + old(other.Ready())
      ensures other.readPointer == other.writePointer
      ensures old(writePointer) == 0 ==> Unread() == old(other.Unread())
    {
      var n := other.Ready();
      forall i | 0 <= i < n {
        data[i] := other.data[other.readPointer + i];
      }
      AdvanceWriter(n);
      other.AdvanceReader(n);
    }

    method AdvanceReader(n: nat)
      requires Valid() && n <= Ready()
      modifies this`readPointer
      ensures Valid() && readPointer == old(readPointer) + n
      ensures data[old(readPointer)..readPointer] == old(Unread())[..n] && Unread() == old(Unread())[n..]
    {
      assert data[readPointer..writePointer][..n] == data[readPointer..readPointer + n];
      assert data[readPointer..writePointer][n..] == data[readPointer + n..writePointer];
      readPointer := readPointer + n;
    }

    method AdvanceWriter(n: nat)
      requires Valid() && n <= Free()
      modifies this`writePointer
      ensures Valid() && writePointer == old(writePointer) + n
      ensures Unread() == old(Unread()) + data[old(writePointer)..writePointer]
    {
      writePointer := writePointer + n;
    }
  }

  /** An immutable view of a region of a shared buffer; it keeps the buffer alive. */
  datatype FrozenBuffer = FrozenBuffer(buf: SharedBuffer, start: nat, size: nat) {
    ghost predicate InBounds() {
      start + size <= buf.data.Length
    }

    function View(): (s: seq<byte>)
      requires InBounds()
      reads buf.data
      ensures |s| == size
    {
      buf.data[start..start + size]
    }

    /** The remainder from `from` on; a remainder of no bytes is refused, as the code asserts. */
    function Slice(from: nat): (f: FrozenBuffer)
      requires InBounds() && from < size
      reads buf.data
      ensures f.InBounds() && f.View() == View()[from..]
    {
      FrozenBuffer(buf, start + from, size - from)
    }
  }

  /** Everything recorded in `a` is still recorded, with the same bytes, in `b`. */
  ghost predicate Keeps(a: map<FrozenBuffer, seq<byte>>, b: map<FrozenBuffer, seq<byte>>)
  {
    forall f :: f in a ==> f in b && b[f] == a[f]
  }

  /** The copy counts after one more copy of every byte. */
  ghost function Bumped(counts: seq<nat>): (r: seq<nat>)
    ensures |r| == |counts| && forall i :: 0 <= i < |r| ==> r[i] == counts[i] + 1
  {
    seq(|counts|, i requires 0 <= i < |counts| => counts[i] + 1)
  }

  class MutableBuffer {
    const defaultLength: nat
    var buffer: SharedBuffer
    /** Every block allocated so far, the abandoned ones included. */
    ghost var owned: set<SharedBuffer>
    /** Every view handed out so far, with the bytes it showed then. */
    ghost var frozen: map<FrozenBuffer, seq<byte>>
    /** For each unread byte, how often it has been copied from one block to another. */
    ghost var copies: seq<nat>

    /** A view lies wholly behind the reader of its block and still shows the bytes it showed at first. */
    ghost predicate Intact(f: FrozenBuffer, shown: seq<byte>)
      reads f.buf, f.buf.data
    {
      && f.buf.Valid()
      && f.start + f.size <= f.buf.readPointer
      && f.View() == shown
    }

    /** The blocks are in order and share no memory. */
    ghost predicate Blocks()
      reads this, owned
    {
      && buffer in owned
      && (forall b :: b in owned ==> b.Valid())
      && (forall b, c :: b in owned && c in owned && b != c ==> b.data != c.data)
    }

    /** Every view handed out is intact. */
    ghost predicate Views()
      reads this, owned, set b: SharedBuffer | b in owned :: b.data
    {
      forall f :: f in frozen ==> f.buf in owned && Intact(f, frozen[f])
    }

    ghost predicate Valid()
      reads this, owned, set b: SharedBuffer | b in owned :: b.data
    {
      Blocks() && Views() && |copies| == buffer.Ready()
    }

    lemma BlockIn()
      requires Blocks()
      ensures buffer in owned && buffer.Valid()
    {
    }

    /** Moving the pointers of the current block. */
    twostate lemma BlocksStay()
      requires old(Blocks()) && owned == old(owned) && buffer == old(buffer) && buffer.Valid()
      requires forall b :: b in owned && b != buffer ==> unchanged(b)
      ensures Blocks()
    {
    }

    /** A new block replaces the current one, of which at most the read pointer has moved. */
    twostate lemma BlocksGrow()
      requires old(Blocks()) && old(buffer).Valid() && buffer.Valid()
      requires fresh(buffer) && fresh(buffer.data) && owned == old(owned) + {buffer}
      requires forall b :: b in old(owned) && b != old(buffer) ==> unchanged(b)
      ensures Blocks()
    {
    }

    /** Neither a new block nor consuming more of the current one disturbs a view. */
    twostate lemma ViewsStay()
      requires old(Blocks()) && old(Views()) && Blocks() && frozen == old(frozen) && old(owned) <= owned
      requires forall b :: b in old(owned) && b != old(buffer) ==> unchanged(b)
      requires old(buffer.readPointer) <= old(buffer).readPointer
      requires forall b :: b in old(owned) ==> unchanged(b.data)
      ensures Views()
    {
      forall f | f in frozen
        ensures f.buf in owned && Intact(f, frozen[f])
      {
        assert old(Intact(f, frozen[f]));
      }
    }

    /** One more view, of bytes already consumed. */
    twostate lemma ViewsGrow(f: FrozenBuffer)
      requires old(Views()) && owned == old(owned)
      requires forall b :: b in owned ==> unchanged(b) && unchanged(b.data)
      requires Consumed(f) && frozen == old(frozen)[f := f.View()]
      ensures Views() && Keeps(old(frozen), frozen)
    {
      if f in old(frozen) {
        assert old(Intact(f, frozen[f]));
      }
      forall g | g in frozen
        ensures g.buf in owned && Intact(g, frozen[g])
      {
        if g != f {
          assert old(Intact(g, frozen[g]));
        }
      }
    }

    lemma ViewIn(f: FrozenBuffer)
      requires Views() && f in frozen
      ensures Consumed(f) && f.InBounds() && f.View() == frozen[f]
    {
      assert Intact(f, frozen[f]);
    }

    ghost function Contents(): (s: seq<byte>)
      requires Valid()
      reads this, owned, set b: SharedBuffer | b in owned :: b.data
      ensures |s| == buffer.Ready()
    {
      buffer.Unread()
    }

    constructor (n: nat)
      ensures Valid() && fresh(buffer) && fresh(buffer.data)
      ensures defaultLength == n && buffer.size == n && owned == {buffer}
      ensures Contents() == [] && frozen == map[] && copies == []
    {
      defaultLength := n;
      var block := new SharedBuffer(n);
      buffer := block;
      owned := {block};
      frozen := map[];
      copies := [];
    }

    /** Makes room for `n` more bytes, moving the unread ones to a new block if the current one is too short. */
    method Prepare(n: nat)
      requires Valid()
      modifies this, buffer
      ensures Valid() && buffer.Free() >= n
      ensures Contents() == old(Contents()) && frozen == old(frozen)
      ensures if old(buffer.Free()) >= n
              then buffer == old(buffer) && owned == old(owned) && copies == old(copies)
              else && fresh(buffer) && fresh(buffer.data) && owned == old(owned) + {buffer}
                   && buffer.size == old(buffer.Ready()) + n + defaultLength
                   && copies == Bumped(old(copies))
    {
      hide Blocks, Views, Bumped;
      BlockIn();
      if buffer.Free() >= n {
        return;
      }
      var block := new SharedBuffer(buffer.Ready() + n + defaultLength);
      block.CopyRestFrom(buffer);
      buffer := block;
      owned := owned + {block};
      copies := Bumped(copies);
      BlocksGrow();
      ViewsStay();
    }

    /** The writable rest of the block, as the interval [from, to) of its memory. */
    method GetReceiveBuffer() returns (mem: array<byte>, from: nat, to: nat)
      requires Valid()
      modifies this, buffer
      ensures Valid() && Contents() == old(Contents()) && frozen == old(frozen)
      ensures mem == buffer.data && from == buffer.writePointer && to == buffer.size
      ensures old(buffer.Free()) > 0 ==> unchanged(this) && unchanged(buffer)
      ensures old(buffer.Free()) == 0 ==> to - from >= defaultLength
      ensures buffer == old(buffer) || (fresh(buffer) && fresh(buffer.data))
    {
      if buffer.Free() == 0 {
        Prepare(defaultLength);
      }
      mem, from, to := buffer.data, buffer.writePointer, buffer.size;
    }

    /** Marks `n` bytes, already stored behind the write pointer, as received. */
    method AdvanceWriter(n: nat)
      requires Valid() && n <= buffer.Free()
      modifies this`copies, buffer`writePointer
      ensures Valid() && frozen == old(frozen)
      ensures Contents() == old(Contents()) + old(buffer.data[buffer.writePointer..buffer.writePointer + n])
      ensures copies == old(copies) + seq(n, _ => 0)
      ensures buffer.writePointer == old(buffer.writePointer) + n
    {
      hide Blocks, Views;
      BlockIn();
      buffer.AdvanceWriter(n);
      copies := copies + seq(n, _ => 0);
      BlocksStay();
      ViewsStay();
    }

    /** Consumes `n` bytes and hands out a view of them. */
    method AdvanceReader(n: nat) returns (f: FrozenBuffer)
      requires Valid() && n <= buffer.Ready()
      modifies this`frozen, this`copies, buffer`readPointer
      ensures Valid() && f.InBounds()
      ensures f.View() == old(Contents())[..n] && Contents() == old(Contents())[n..]
      ensures f in frozen && frozen[f] == f.View() && Keeps(old(frozen), frozen)
      ensures copies == old(copies)[n..]
    {
      hide Valid, Keeps;
      f := Consume(n);
      Record(f);
    }

    /** Moves the reader; the view lies behind it. */
    method Consume(n: nat) returns (f: FrozenBuffer)
      requires Valid() && n <= buffer.Ready()
      modifies this`copies, buffer`readPointer
      ensures Valid() && Consumed(f)
      ensures f.View() == old(Contents())[..n] && Contents() == old(Contents())[n..]
      ensures copies == old(copies)[n..]
    {
      hide Blocks, Views;
      BlockIn();
      f := FrozenBuffer(buffer, buffer.readPointer, n);
      buffer.AdvanceReader(n);
      copies := copies[n..];
      BlocksStay();
      ViewsStay();
    }

    /** The region of a view belongs to one of the blocks and has been consumed. */
    ghost predicate Consumed(f: FrozenBuffer)
      reads this, owned
    {
      f.buf in owned && f.buf.Valid() && f.start + f.size <= f.buf.readPointer
    }

    method Record(f: FrozenBuffer)
      requires Valid() && Consumed(f)
      modifies this`frozen
      ensures Valid() && Contents() == old(Contents())
      ensures f.InBounds() && f in frozen && frozen[f] == f.View() && Keeps(old(frozen), frozen)
    {
      hide Blocks, Views, Keeps;
      BlockIn();
      frozen := frozen[f := f.View()];
      BlocksStay();
      ViewsGrow(f);
    }

    /** Records the rest of a view as a view of its own. */
    method Share(f: FrozenBuffer, from: nat) returns (g: FrozenBuffer)
      requires Valid() && f in frozen && f.InBounds() && from < f.size
      modifies this`frozen
      ensures Valid() && Contents() == old(Contents())
      ensures g.InBounds() && g.View() == f.View()[from..]
      ensures g in frozen && frozen[g] == g.View() && Keeps(old(frozen), frozen)
    {
      hide Blocks, Views, Keeps;
      ViewIn(f);
      g := f.Slice(from);
      Record(g);
    }

    /** Forgets what is unread. A block that was never written to is kept. */
    method Clear()
      requires Valid()
      modifies this
      ensures Valid() && Contents() == [] && frozen == old(frozen) && copies == []
      ensures if old(buffer.writePointer) == 0
              then buffer == old(buffer) && owned == old(owned)
              else fresh(buffer) && fresh(buffer.data) && owned == old(owned) + {buffer} && buffer.size == defaultLength
    {
      hide Blocks, Views;
      BlockIn();
      if buffer.writePointer == 0 {
        return;
      }
      var block := new SharedBuffer(defaultLength);
      buffer := block;
      owned := owned + {block};
      copies := [];
      BlocksGrow();
      ViewsStay();
    }

    /** Stores behind the write pointer of the current block disturb neither the unread bytes nor any view. */
    twostate lemma StoresBehindWriter()
      requires old(Valid())
      requires unchanged(this) && forall b :: b in owned ==> unchanged(b)
      requires forall b :: b in owned && b != buffer ==> unchanged(b.data)
      requires buffer.data[..buffer.writePointer] == old(buffer.data[..buffer.writePointer])
      ensures Valid() && Contents() == old(Contents())
    {
      assert buffer in owned;
      assert unchanged(buffer) && buffer.Valid();
      ghost var was, now := old(buffer.data[..]), buffer.data[..];
      SamePrefix(was, now, buffer.writePointer, buffer.readPointer, buffer.writePointer);
      forall f | f in frozen
        ensures Intact(f, frozen[f])
      {
        assert old(Intact(f, frozen[f]));
        if f.buf == buffer {
          SamePrefix(was, now, buffer.writePointer, f.start, f.start + f.size);
        }
      }
    }
  }

  lemma SamePrefix(a: seq<byte>, b: seq<byte>, w: nat, i: nat, j: nat)
    requires i <= j <= w <= |a| == |b| && a[..w] == b[..w]
    ensures a[i..j] == b[i..j]
  {
    assert a[i..j] == a[..w][i..j] && b[i..j] == b[..w][i..j];
  }

  /** What the rest of the program can do to a buffer; `Store` is the socket writing into the receive area, followed by
      the marking of those bytes as received. */
  datatype Op = Reserve(n: nat) | Area | Store(bytes: seq<byte>) | Consume(n: nat) | Forget

  method Receive(b: MutableBuffer, bytes: seq<byte>)
    requires b.Valid() && |bytes| <= b.buffer.Free()
    modifies b`copies, b.buffer, b.buffer.data
    ensures b.Valid() && b.Contents() == old(b.Contents()) + bytes
    ensures b.frozen == old(b.frozen) && b.buffer == old(b.buffer)
  {
    var mem, at := b.buffer.data, b.buffer.writePointer;
    forall i | 0 <= i < |bytes| {
      mem[at + i] := bytes[i];
    }
    b.StoresBehindWriter();
    assert mem[at..at + |bytes|] == bytes;
    b.AdvanceWriter(|bytes|);
  }

  method Apply(b: MutableBuffer, op: Op)
    requires b.Valid()
    modifies b, b.buffer, b.buffer.data
    ensures b.Valid() && Keeps(old(b.frozen), b.frozen)
    ensures b.buffer == old(b.buffer) || (fresh(b.buffer) && fresh(b.buffer.data))
  {
    match op
    case Reserve(n) => b.Prepare(n);
    case Area => var _, _, _ := b.GetReceiveBuffer();
    case Store(bytes) => if |bytes| <= b.buffer.Free() { Receive(b, bytes); }
    case Consume(n) => if n <= b.buffer.Ready() { var _ := b.AdvanceReader(n); }
    case Forget => b.Clear();
  }

  /** Over any run of operations, every view handed out before it shows the same bytes after it, whether its block is
      still in use or was abandoned long ago. */
  method Play(b: MutableBuffer, ops: seq<Op>)
    requires b.Valid()
    modifies b, b.buffer, b.buffer.data
    ensures b.Valid() && Keeps(old(b.frozen), b.frozen)
    ensures forall f :: f in old(b.frozen) ==> f.InBounds() && f.View() == old(b.frozen)[f]
  {
    ghost var was := b.frozen;
    for i := 0 to |ops|
      invariant b.Valid() && Keeps(was, b.frozen)
      invariant b.buffer == old(b.buffer) || (fresh(b.buffer) && fresh(b.buffer.data))
    {
      hide MutableBuffer.Valid;
      Apply(b, ops[i]);
    }
    forall f | f in was
      ensures f.InBounds() && f.View() == was[f]
    {
      b.ViewIn(f);
    }
  }
}
