/** Taking a complete packet apart (G2PacketSerializer.c): header and payload of a child, and the walk over
    the children that the packet handlers perform. */
module Decoder {
  import opened Buffers
  import opened Options
  import opened Packets
  import opened Extraction

  /** g2_packet_decode: the buffer holds whole packets, so its length limits the packet's. */
  method Decode(source: Buffer) returns (r: Option<Raw>)
    requires source.Valid()
    modifies source`pos
    ensures source.Valid()
    ensures var d := DecodeOne(old(source.Unread()));
            if d.Got? then r == Some(d.packet) && source.Unread() == d.rest else r == None
  {
    ghost var d := DecodeOne(source.Unread());
    var target := new InPacket(_ => false);
    var ok := DecodeControl(source, target, d);
    if !ok {
      return None;
    }
    ok := DecodeLength(source, target, d);
    if !ok {
      return None;
    }
    ok := DecodeName(source, target, d);
    if !ok {
      return None;
    }
    var payload := TakePayload(source, target.header, d);
    return Some(Raw(target.header, payload));
  }

  /** d is what remains to be read, under some length limit. */
  ghost predicate Pending(d: Reading, source: Buffer, target: InPacket)
    requires source.Valid() && target.Inv()
    reads source, source.data, target, target.trunk.data
  {
    exists maxLen: nat :: d == Read(target.At(), source.Unread(), maxLen)
  }

  method DecodeControl(source: Buffer, target: InPacket, ghost d: Reading) returns (ok: bool)
    requires source.Valid() && d == DecodeOne(source.Unread())
    requires target.Inv() && target.state == CheckControlByte
    modifies target, source`pos
    ensures source.Valid() && (!ok ==> !d.Got?)
    ensures ok ==> target.Inv() && target.state == ReadLength
                   && d == Read(target.At(), source.Unread(), source.Remaining() + 1)
  {
    ghost var s, maxLen := source.Unread(), source.Remaining();
    var r := target.StageControlByte(source, maxLen);
    if r == 1 {
      SameNow(AtControl, s, target.At(), source.Unread(), maxLen);
    }
    return r == 1;
  }

  method DecodeLength(source: Buffer, target: InPacket, ghost d: Reading) returns (ok: bool)
    requires source.Valid() && target.Inv() && target.state == ReadLength
    requires d == Read(target.At(), source.Unread(), source.Remaining() + 1)
    modifies target, source`pos
    ensures source.Valid() && (!ok ==> !d.Got?)
    ensures ok ==> target.Inv() && target.state == ReadType && Pending(d, source, target)
                   && target.header.length + target.typeLength <= source.Remaining()
  {
    ghost var at, u := target.At(), source.Unread();
    var maxLen := source.Remaining() + 1;
    var r := target.StageLength(source, maxLen);
    if r == 1 {
      SameNow(at, u, target.At(), source.Unread(), maxLen);
    }
    return r == 1;
  }

  method DecodeName(source: Buffer, target: InPacket, ghost d: Reading) returns (ok: bool)
    requires source.Valid() && target.Inv() && target.state == ReadType
    requires target.header.length + target.typeLength <= source.Remaining()
    requires Pending(d, source, target)
    modifies target, source`pos
    ensures source.Valid() && (!ok ==> !d.Got?)
    ensures ok ==> target.header.length <= source.Remaining() && d == ReadPayload(target.header, source.Unread())
  {
    ghost var maxLen: nat :| d == Read(target.At(), source.Unread(), maxLen);
    ghost var at, u := target.At(), source.Unread();
    var r := target.StageType(source, maxLen);
    if r != 1 {
      return false;
    }
    SameNow(at, u, target.At(), source.Unread(), maxLen);
    assert [] + source.Unread() == source.Unread();
    return true;
  }

  method TakePayload(source: Buffer, h: Header, ghost d: Reading) returns (payload: seq<byte>)
    requires source.Valid() && h.length <= source.Remaining() && d == ReadPayload(h, source.Unread())
    modifies source`pos
    ensures source.Valid() && d == Got(Raw(h, payload), source.Unread())
  {
    ghost var u := source.Unread();
    payload := source.data[source.pos..source.pos + h.length];
    source.pos := source.pos + h.length;
    assert u[..h.length] == payload && u[h.length..] == source.Unread();
  }

  /** g2_packet_decode_from_packet in state GET_CHILD_PACKETS. */
  datatype ChildStep = Finished | Child(raw: Raw) | Broken

  method NextChild(trunk: Buffer) returns (step: ChildStep)
    requires trunk.Valid()
    modifies trunk`pos
    ensures trunk.Valid()
    ensures var s := old(trunk.Unread());
            match step
            case Finished => DecodeKids(s) == Some(([], trunk.Unread()))
            case Child(raw) => s != [] && s[0] != 0 && DecodeOne(s) == Got(raw, trunk.Unread())
            case Broken => DecodeKids(s) == None
  {
    ghost var s := trunk.Unread();
    var remaining := trunk.Remaining();
    if remaining == 0 {
      return Finished;
    }
    assert s[0] == trunk.data[trunk.pos];
    if trunk.data[trunk.pos] == 0 {
      trunk.pos := trunk.pos + 1;
      assert s[1..] == trunk.Unread();
      return Finished;
    }
    if 1 < remaining {
      var r := Decode(trunk);
      return if r.Some? then Child(r.value) else Broken;
    }
    trunk.pos := trunk.pos + 1;
    OneByteIsNoPacket(s);
    return Broken;
  }

  lemma OneByteIsNoPacket(s: seq<byte>)
    requires |s| == 1
    ensures !DecodeOne(s).Got?
  {
  }

  ghost function Behind(kids: seq<Packet>, r: Option<(seq<Packet>, seq<byte>)>): Option<(seq<Packet>, seq<byte>)> {
    match r
    case None => None
    case Some((more, data)) => Some((kids + more, data))
  }

  lemma BehindChild(kids: seq<Packet>, s: seq<byte>, raw: Raw, rest: seq<byte>)
    requires s != [] && s[0] != 0 && DecodeOne(s) == Got(raw, rest)
    ensures Behind(kids, DecodeKids(s))
            == if DecodeTree(raw).None? then None else Behind(kids + [DecodeTree(raw).value], DecodeKids(rest))
  {
    if DecodeTree(raw).Some? && DecodeKids(rest).Some? {
      var kid, more := DecodeTree(raw).value, DecodeKids(rest).value.0;
      assert kids + ([kid] + more) == kids + [kid] + more;
    }
  }

  method Load(payload: seq<byte>) returns (b: Buffer)
    ensures fresh(b) && fresh(b.data) && b.Valid() && b.Unread() == payload
  {
    b := new Buffer(|payload|);
    b.PutBlock(payload);
    b.Flip();
  }

  lemma BehindNothing(r: Option<(seq<Packet>, seq<byte>)>)
    ensures Behind([], r) == r
  {
    assert r.Some? ==> [] + r.value.0 == r.value.0;
  }

  /** What the children found so far and the rest of the payload amount to. */
  ghost predicate Ahead(all: Option<(seq<Packet>, seq<byte>)>, kids: seq<Packet>, s: seq<byte>) {
    all == Behind(kids, DecodeKids(s))
  }

  lemma AheadChild(all: Option<(seq<Packet>, seq<byte>)>, kids: seq<Packet>, s: seq<byte>, raw: Raw, rest: seq<byte>)
    requires Ahead(all, kids, s) && s != [] && s[0] != 0 && DecodeOne(s) == Got(raw, rest)
    ensures DecodeTree(raw).None? ==> all == None
    ensures DecodeTree(raw).Some? ==> Ahead(all, kids + [DecodeTree(raw).value], rest)
    ensures |raw.payload| < |s| && |rest| < |s|
  {
    BehindChild(kids, s, raw, rest);
  }

  lemma AheadFinished(all: Option<(seq<Packet>, seq<byte>)>, kids: seq<Packet>, s: seq<byte>, rest: seq<byte>)
    requires Ahead(all, kids, s) && DecodeKids(s) == Some(([], rest))
    ensures all == Some((kids, rest))
  {
    assert kids + [] == kids;
  }

  /** The walk of a packet handler: children until the packet is finished, each in the same way, and the
      rest as the packet's data. */
  method WalkFrom(trunk: Buffer, kids: seq<Packet>, ghost all: Option<(seq<Packet>, seq<byte>)>)
      returns (r: Option<(seq<Packet>, seq<byte>)>)
    requires trunk.Valid() && Ahead(all, kids, trunk.Unread())
    modifies trunk`pos
    ensures r == all
    decreases trunk.Remaining(), 0
  {
    ghost var s := trunk.Unread();
    var step := NextChild(trunk);
    match step
    case Finished =>
      AheadFinished(all, kids, s, trunk.Unread());
      return Some((kids, trunk.Unread()));
    case Broken =>
      return None;
    case Child(child) =>
      AheadChild(all, kids, s, child, trunk.Unread());
      var kid := Walk(child);
      if kid.None? {
        return None;
      }
      r := WalkFrom(trunk, kids + [kid.value], all);
  }

  method Walk(raw: Raw) returns (r: Option<Packet>)
    ensures r == DecodeTree(raw)
    decreases |raw.payload|, 1
  {
    var h := raw.header;
    if !h.compound {
      return Some(Packet(h.name, h.bigEndian, [], raw.payload));
    }
    var trunk := Load(raw.payload);
    ghost var all := DecodeKids(raw.payload);
    BehindNothing(all);
    var inner := WalkFrom(trunk, [], all);
    return if inner.None? then None else Some(Packet(h.name, h.bigEndian, inner.value.0, inner.value.1));
  }
}
