/** The read side of a connection (G2Handler.c): every read event drives the extractor over the receive
    buffer, saves a partly received packet and compacts the buffer. */
module Connection {
  import opened Buffers
  import opened Packets
  import opened Extraction
  import Seqs

  // ---------------------------------------------------------------------------------------------
  // What a connection has to keep in step with
  // ---------------------------------------------------------------------------------------------

  ghost predicate FollowsFor(input: seq<byte>, done: seq<Raw>, at: Progress, s: seq<byte>, maxLen: nat, t: seq<byte>) {
    ReadStream(AtControl, input + t, maxLen) == Prepend(done, ReadStream(at, s + t, maxLen))
  }

  /** Having received `input`, delivered `done` and come to `at` with s still buffered: whatever arrives
      next, reading the whole stream at once finds `done` and then what is read from here. */
  ghost predicate Follows(input: seq<byte>, done: seq<Raw>, at: Progress, s: seq<byte>, maxLen: nat) {
    forall t: seq<byte> :: FollowsFor(input, done, at, s, maxLen, t)
  }

  lemma FollowsStart(maxLen: nat)
    ensures Follows([], [], AtControl, [], maxLen)
  {
    forall t: seq<byte> ensures FollowsFor([], [], AtControl, [], maxLen, t) {
      var r := ReadStream(AtControl, [] + t, maxLen);
      assert [] + r.packets == r.packets;
    }
  }

  lemma FollowsForMoved(input: seq<byte>, done: seq<Raw>, at: Progress, s: seq<byte>, maxLen: nat, t: seq<byte>,
                        input': seq<byte>, s': seq<byte>, t': seq<byte>)
    requires FollowsFor(input, done, at, s, maxLen, t) && input + t == input' + t' && s + t == s' + t'
    ensures FollowsFor(input', done, at, s', maxLen, t')
  {
  }

  lemma FollowsChunk(input: seq<byte>, done: seq<Raw>, at: Progress, s: seq<byte>, chunk: seq<byte>, maxLen: nat)
    requires Follows(input, done, at, s, maxLen)
    ensures Follows(input + chunk, done, at, s + chunk, maxLen)
  {
    forall t: seq<byte> ensures FollowsFor(input + chunk, done, at, s + chunk, maxLen, t) {
      Seqs.Assoc(input, chunk, t);
      Seqs.Assoc(s, chunk, t);
      FollowsForMoved(input, done, at, s, maxLen, chunk + t, input + chunk, s + chunk, t);
    }
  }

  lemma ReadStreamSame(at: Progress, s: seq<byte>, at': Progress, s': seq<byte>, maxLen: nat)
    requires Read(at, s, maxLen) == Read(at', s', maxLen)
    ensures ReadStream(at, s, maxLen) == ReadStream(at', s', maxLen)
  {
  }

  /** f says nothing new: another point of progress with the same verdicts serves as well. */
  lemma FollowsMore(input: seq<byte>, done: seq<Raw>, f: seq<byte> -> Reading, at: Progress, s: seq<byte>,
                    at': Progress, s': seq<byte>, maxLen: nat)
    requires Follows(input, done, at, s, maxLen) && Agrees(f, at, s, maxLen) && Agrees(f, at', s', maxLen)
    ensures Follows(input, done, at', s', maxLen)
  {
    forall t: seq<byte> ensures FollowsFor(input, done, at', s', maxLen, t) {
      assert FollowsFor(input, done, at, s, maxLen, t);
      assert f(t) == Read(at, s + t, maxLen);
      ReadStreamSame(at, s + t, at', s' + t, maxLen);
    }
  }

  lemma FollowsPacket(input: seq<byte>, done: seq<Raw>, f: seq<byte> -> Reading, at: Progress, s: seq<byte>,
                      p: Raw, rest: seq<byte>, maxLen: nat)
    requires Follows(input, done, at, s, maxLen) && Agrees(f, at, s, maxLen) && f([]) == Got(p, rest)
    ensures Follows(input, done + [p], AtControl, rest, maxLen)
  {
    AgreesNow(f, at, s, maxLen);
    forall t: seq<byte> ensures FollowsFor(input, done + [p], AtControl, rest, maxLen, t) {
      assert FollowsFor(input, done, at, s, maxLen, t);
      ReadStable(at, s, t, maxLen);
      PrependTwice(done, [p], ReadStream(AtControl, rest + t, maxLen));
    }
  }

  lemma FollowsNow(input: seq<byte>, done: seq<Raw>, at: Progress, s: seq<byte>, maxLen: nat)
    requires Follows(input, done, at, s, maxLen)
    ensures ReadStream(AtControl, input, maxLen) == Prepend(done, ReadStream(at, s, maxLen))
  {
    assert FollowsFor(input, done, at, s, maxLen, []);
    assert input + [] == input && s + [] == s;
  }

  lemma ReadStreamStops(at: Progress, s: seq<byte>, maxLen: nat, v: Reading)
    requires v == Read(at, s, maxLen) && !v.Got?
    ensures ReadStream(at, s, maxLen) == StreamReading([], v.Bad?)
  {
  }

  lemma PrependNothing(done: seq<Raw>, bad: bool)
    ensures Prepend(done, StreamReading([], bad)) == StreamReading(done, bad)
  {
    assert done + [] == done;
  }

  /** Nothing more to be had from the buffer: the packets so far are those of the stream so far. */
  lemma FollowsVerdict(input: seq<byte>, done: seq<Raw>, f: seq<byte> -> Reading, at: Progress, s: seq<byte>,
                       maxLen: nat)
    requires Follows(input, done, at, s, maxLen) && Agrees(f, at, s, maxLen) && !f([]).Got?
    ensures ReadStream(AtControl, input, maxLen) == StreamReading(done, f([]).Bad?)
  {
    FollowsNow(input, done, at, s, maxLen);
    AgreesNow(f, at, s, maxLen);
    ReadStreamStops(at, s, maxLen, f([]));
    PrependNothing(done, f([]).Bad?);
  }

  // ---------------------------------------------------------------------------------------------
  // The connection
  // ---------------------------------------------------------------------------------------------

  class Connection {
    const recv: Buffer
    const maxLen: nat
    const knownType: seq<byte> -> bool
    /** A packet begun in an earlier read event. */
    var build: InPacket?
    var dismissed: bool
    /** The packets handed to the packet handlers, in order. */
    var delivered: seq<Raw>
    ghost var input: seq<byte>
    /** The packet in the making and its storage. */
    ghost var owned: set<object>

    constructor (capacity: nat, maxLen: nat, knownType: seq<byte> -> bool)
      ensures Valid() && input == [] && recv.data.Length == capacity && recv.pos == 0
      ensures fresh(recv) && fresh(recv.data)
    {
      recv := new Buffer(capacity);
      this.maxLen, this.knownType := maxLen, knownType;
      build, dismissed, delivered, input, owned := null, false, [], [], {};
      new;
      FollowsStart(maxLen);
      assert recv.data[..recv.pos] == [];
    }

    /** The packet in the making and its storage never overlap the receive buffer. */
    ghost predicate Ready()
      reads this, owned
    {
      this !in owned && recv !in owned && recv.data !in owned
      && (build != null ==>
            build in owned && build.inline in owned && build.trunk.data in owned && build.Inv() && !build.Done())
    }

    ghost function At(): Progress
      requires Ready()
      reads this, owned
    {
      if build == null then AtControl else build.At()
    }

    /** The packets and the verdict so far are those of one reading of everything received. */
    ghost predicate InStep()
      reads this
    {
      ReadStream(AtControl, input, maxLen) == StreamReading(delivered, dismissed)
    }

    /** Between two read events the buffer is open for writing behind what is still unread. */
    ghost predicate Valid()
      reads this, recv, recv.data, owned
    {
      recv.Valid() && Ready() && recv.limit == recv.data.Length && InStep()
      && (!dismissed ==> Follows(input, delivered, At(), recv.data[..recv.pos], maxLen))
    }

    /** The packet to go on with: the saved one, or a new one. */
    method Current() returns (packet: InPacket)
      requires Ready()
      ensures packet.Inv() && !packet.Done() && packet.trunk.data != recv.data && packet.inline != recv.data
      ensures packet.At() == At()
      ensures packet == build || (fresh(packet) && fresh(packet.inline) && packet.trunk.data == packet.inline)
    {
      if build == null {
        packet := new InPacket(knownType);
      } else {
        packet := build;
      }
    }

    /** The packet is complete: hand it on and forget it. */
    method Deliver(raw: Raw, ghost f: seq<byte> -> Reading, ghost at: Progress, ghost s: seq<byte>)
        returns (retry: bool)
      requires recv.Valid() && Follows(input, delivered, at, s, maxLen) && Agrees(f, at, s, maxLen)
      requires f([]) == Got(raw, recv.Unread())
      modifies this`delivered, this`build
      ensures build == null && Follows(input, delivered, AtControl, recv.Unread(), maxLen)
      ensures retry == (recv.Remaining() != 0)
      ensures delivered == old(delivered) + [raw]
    {
      FollowsPacket(input, delivered, f, at, s, raw, recv.Unread(), maxLen);
      delivered, build := delivered + [raw], null;
      retry := recv.Remaining() != 0;
    }

    /** The packet has to wait: keep it, unless it has not even begun. */
    method Save(packet: InPacket, ghost f: seq<byte> -> Reading, ghost at: Progress, ghost s: seq<byte>)
      requires recv.Valid() && packet.Inv() && !packet.Done()
      requires this !in owned && recv !in owned && recv.data !in owned
      requires packet in owned && packet.inline in owned && packet.trunk.data in owned
      requires Follows(input, delivered, at, s, maxLen) && Agrees(f, at, s, maxLen)
      requires Agrees(f, packet.At(), recv.Unread(), maxLen)
      modifies this`build
      ensures Ready()
      ensures Follows(input, delivered, At(), recv.Unread(), maxLen) && Agrees(f, At(), recv.Unread(), maxLen)
    {
      FollowsMore(input, delivered, f, at, s, packet.At(), recv.Unread(), maxLen);
      build := if packet.state == CheckControlByte then null else packet;
    }

    method ExtractCurrent(ghost f: seq<byte> -> Reading) returns (packet: InPacket, ok: bool)
      requires recv.Valid() && Ready() && Agrees(f, At(), recv.Unread(), maxLen)
      modifies recv`pos, this`owned, owned
      ensures recv.Valid() && packet.inline != recv.data && (ok ==> packet.Inv())
      ensures this !in owned && recv !in owned && recv.data !in owned && fresh(owned - old(owned))
      ensures !ok ==> f([]) == Bad
      ensures ok && packet.Done() ==> f([]) == Got(Raw(packet.header, packet.trunk.Unread()), recv.Unread())
      ensures ok && !packet.Done() ==>
                f([]).More? && Agrees(f, packet.At(), recv.Unread(), maxLen)
                && (recv.Remaining() < 8 || recv.Remaining() < recv.data.Length)
                && packet in owned && packet.inline in owned && packet.trunk.data in owned
    {
      packet := Current();
      ok := packet.Extract(recv, maxLen, false, f);
      if ok && !packet.Done() {
        owned := owned + {packet, packet.inline, packet.trunk.data};
      }
    }

    /** One pass of the reread loop: extraction for the packet at hand, then delivery or saving. */
    method HandleOne(ghost f: seq<byte> -> Reading, ghost v: Reading) returns (retry: bool)
      requires recv.Valid() && Ready() && !dismissed && Follows(input, delivered, At(), recv.Unread(), maxLen)
      requires Agrees(f, At(), recv.Unread(), maxLen) && v == f([])
      modifies this`build, this`dismissed, this`delivered, this`owned, recv`pos, owned
      ensures recv.Valid() && Ready() && fresh(owned - old(owned))
      ensures dismissed == v.Bad? && (!v.Got? ==> delivered == old(delivered))
      ensures !dismissed ==> Follows(input, delivered, At(), recv.Unread(), maxLen)
      ensures v.Got? ==> build == null && recv.Unread() == v.rest && retry == (recv.Remaining() != 0)
      ensures v.More? ==> !retry && Agrees(f, At(), recv.Unread(), maxLen)
                          && (recv.Remaining() < 8 || recv.Remaining() < recv.data.Length)
      ensures v.Bad? ==> !retry
    {
      ghost var at, s := At(), recv.Unread();
      var packet, ok := ExtractCurrent(f);
      retry := false;
      if !ok {
        dismissed, build := true, null;
      } else if packet.Done() {
        retry := Deliver(Raw(packet.header, packet.trunk.Unread()), f, at, s);
      } else {
        Save(packet, f, at, s);
      }
    }

    /** The reread loop over a flipped buffer. It ends with a verdict other than "got a packet", reached
        at (at, s) with everything before it delivered. */
    method HandleAll() returns (ghost f: seq<byte> -> Reading, ghost at: Progress, ghost s: seq<byte>)
      requires recv.Valid() && Ready() && !dismissed && Follows(input, delivered, At(), recv.Unread(), maxLen)
      modifies this`build, this`dismissed, this`delivered, this`owned, recv`pos, owned
      ensures recv.Valid() && Ready() && fresh(owned - old(owned))
      ensures Follows(input, delivered, at, s, maxLen) && Agrees(f, at, s, maxLen) && !f([]).Got?
      ensures dismissed == f([]).Bad?
      ensures !dismissed ==> Follows(input, delivered, At(), recv.Unread(), maxLen)
      ensures !dismissed ==> recv.Remaining() < 8 || recv.Remaining() < recv.data.Length
    {
      at, s := At(), recv.Unread();
      f := Verdicts(at, s, maxLen);
      var retry := HandleOne(f, f([]));
      while retry
        invariant recv.Valid() && Ready() && fresh(owned - old(owned))
        invariant !dismissed ==> Follows(input, delivered, At(), recv.Unread(), maxLen)
        invariant f([]).Got? ==> build == null && recv.Unread() == f([]).rest && retry == (recv.Remaining() != 0)
        invariant !f([]).Got? ==> !retry && Follows(input, delivered, at, s, maxLen) && Agrees(f, at, s, maxLen)
        invariant dismissed == f([]).Bad?
        invariant f([]).More? ==> recv.Remaining() < 8 || recv.Remaining() < recv.data.Length
        decreases retry, recv.Remaining()
      {
        at, s := AtControl, recv.Unread();
        f := Verdicts(at, s, maxLen);
        retry := HandleOne(f, f([]));
      }
      if f([]).Got? {
        at, s := AtControl, [];
        f := Verdicts(at, s, maxLen);
        AgreesNow(f, at, s, maxLen);
      }
    }

    /** A read event: the bytes `chunk` arrive in the receive buffer. Afterwards the delivered packets and
        the verdict are again those of the whole stream read at once, and a buffer that can hold the
        longest header field has room for the next read. */
    method OnRead(chunk: seq<byte>)
      requires Valid() && !dismissed && |chunk| <= recv.Remaining()
      modifies this, recv, recv.data, owned
      ensures Valid() && input == old(input) + chunk && fresh(owned - old(owned))
      ensures !dismissed && recv.data.Length >= 8 ==> recv.Remaining() > 0
    {
      Receive(chunk);
      ghost var f, at, s := HandleAll();
      Reopen();
      FollowsVerdict(input, delivered, f, at, s, maxLen);
    }

    /** One read event that takes some of the bytes from i on. */
    method ReceiveSome(stream: seq<byte>, i: nat, ghost before: seq<byte>) returns (j: nat)
      requires Valid() && !dismissed && recv.Remaining() > 0 && i < |stream| && input == before + stream[..i]
      modifies this, recv, recv.data, owned
      ensures Valid() && i < j <= |stream| && input == before + stream[..j]
      ensures fresh(owned - old(owned)) && (!dismissed && recv.data.Length >= 8 ==> recv.Remaining() > 0)
    {
      var n: nat :| 1 <= n <= recv.Remaining() && n <= |stream| - i;
      j := i + n;
      Cut(before, stream, i, j);
      OnRead(stream[i..j]);
    }

    /** A stream cut into read events in any way at all: the packets delivered and the failure, if any, are
        those of the stream read at once. */
    method ReceiveAll(stream: seq<byte>)
      requires Valid() && !dismissed && recv.data.Length >= 8 && recv.Remaining() > 0
      modifies this, recv, recv.data, owned
      ensures recv.Valid()
      ensures ReadStream(AtControl, old(input) + stream, maxLen) == StreamReading(delivered, dismissed)
    {
      ghost var before := input;
      var i := 0;
      while i < |stream| && !dismissed
        invariant 0 <= i <= |stream| && Valid() && input == before + stream[..i]
        invariant fresh(owned - old(owned)) && (!dismissed ==> recv.Remaining() > 0)
      {
        i := ReceiveSome(stream, i, before);
      }
      Conclude(before, stream, i);
    }

    /** The trees a peer sends, cut into read events in any way at all, are delivered, and the connection stays. */
    method ReceiveTrees(ghost ps: seq<Packet>, ghost levels: nat, stream: seq<byte>)
      requires Valid() && !dismissed && recv.data.Length >= 8 && recv.Remaining() > 0 && input == []
      requires stream == Kids(ps) && KidsEncodable(ps, levels) && forall p :: p in ps ==> |Encode(p)| <= maxLen
      modifies this, recv, recv.data, owned
      ensures !dismissed && AreTrees(delivered, ps)
    {
      StreamOfTrees(ps, levels, maxLen);
      assert [] + stream == stream;
      ReceiveAll(stream);
    }

    ghost method Conclude(before: seq<byte>, stream: seq<byte>, i: nat)
      requires i <= |stream| && input == before + stream[..i] && InStep() && (i == |stream| || dismissed)
      ensures ReadStream(AtControl, before + stream, maxLen) == StreamReading(delivered, dismissed)
    {
      assert before + stream == input + stream[i..];
      if dismissed {
        BadStays(AtControl, input, stream[i..], maxLen);
      } else {
        assert before + stream == input;
      }
    }

    /** Compacts the buffer for the next read. */
    method Reopen()
      requires recv.Valid() && Ready()
      requires !dismissed ==> Follows(input, delivered, At(), recv.Unread(), maxLen)
      modifies recv, recv.data
      ensures recv.Valid() && Ready() && recv.limit == recv.data.Length
      ensures recv.Remaining() == recv.data.Length - old(recv.Remaining())
      ensures !dismissed ==> Follows(input, delivered, At(), recv.data[..recv.pos], maxLen)
    {
      ghost var at := At();
      recv.Compact();
      assert At() == at;
    }

    /** do_read: the kernel puts bytes behind what is still unread. */
    method Receive(chunk: seq<byte>)
      requires recv.Valid() && Ready() && recv.limit == recv.data.Length && |chunk| <= recv.Remaining()
      requires Follows(input, delivered, At(), recv.data[..recv.pos], maxLen)
      modifies this`input, recv, recv.data
      ensures recv.Valid() && Ready() && input == old(input) + chunk
      ensures Follows(input, delivered, At(), recv.Unread(), maxLen)
    {
      ghost var s, at := recv.data[..recv.pos], At();
      FollowsChunk(input, delivered, at, s, chunk, maxLen);
      recv.PutBlock(chunk);
      input := input + chunk;
      assert recv.data[..recv.pos] == s + chunk;
      recv.Flip();
      assert recv.Unread() == s + chunk && At() == at;
    }
  }

  lemma Cut(before: seq<byte>, stream: seq<byte>, i: nat, j: nat)
    requires i <= j <= |stream|
    ensures before + stream[..j] == before + stream[..i] + stream[i..j]
  {
  }
}
