/** Putting a further child packet in front of a packet that is passed on as it came (forward_inject_fr of
    G2Packet.c). */
module Injection {
  import opened Buffers
  import opened Options
  import opened Packets
  import opened Extraction
  import opened Serializer

  // ---------------------------------------------------------------------------------------------
  // Meaning
  // ---------------------------------------------------------------------------------------------

  /** A further child in front: same children behind it, same data, or the same failure. */
  lemma FrontChild(fr: Packet, payload: seq<byte>)
    requires Encodable(fr, MAX_RECURSION)
    ensures DecodeKids(Encode(fr) + payload)
            == match DecodeKids(payload)
               case None => None
               case Some((kids, data)) => Some(([fr] + kids, data))
  {
    EncodedDecodesOne(fr, MAX_RECURSION, payload);
    RoundTrip(fr, MAX_RECURSION);
    var s := Encode(fr) + payload;
    assert s[0] == Encode(fr)[0] != 0;
  }

  /** The tree with a further child in front. */
  function WithFront(fr: Packet, p: Option<Packet>): (r: Option<Packet>) {
    match p
    case None => None
    case Some(p) => Some(p.(children := [fr] + p.children))
  }

  /** For the packet as a whole, whatever its header says about its length. */
  lemma InjectedMeaning(raw: Raw, fr: Packet, raw': Raw)
    requires raw.header.compound && Encodable(fr, MAX_RECURSION) && raw'.payload == Encode(fr) + raw.payload
    requires raw'.header.compound && raw'.header.name == raw.header.name
             && raw'.header.bigEndian == raw.header.bigEndian
    ensures DecodeTree(raw') == WithFront(fr, DecodeTree(raw))
  {
    FrontChild(fr, raw.payload);
  }

  // ---------------------------------------------------------------------------------------------
  // In the packet's buffers
  // ---------------------------------------------------------------------------------------------

  class Source {
    /** pd.out. */
    const out: array<byte>
    var trunk: PointerBuff
    var freeable: bool

    ghost predicate Valid()
      reads this
    {
      out.Length == INLINE_OUT && trunk.Inside() && (freeable ==> trunk.data != out)
    }

    /** A packet whose data lies where the caller says. */
    constructor (data: array<byte>, start: nat, length: nat, freeable: bool)
      requires start + length <= data.Length
      ensures Valid() && fresh(out) && trunk == PointerBuff(data, start, 0, length, length) && this.freeable == freeable
    {
      out := new byte[INLINE_OUT](_ => 0);
      trunk := PointerBuff(data, start, 0, length, length);
      this.freeable := freeable;
    }

    /** g2_packet_steal_data_space: the end of the packet's own storage, or new storage. */
    method StealDataSpace(bytes: nat)
      requires Valid()
      modifies this`trunk, this`freeable
      ensures Valid() && trunk.limit - trunk.pos == bytes && trunk.base == 0
      ensures if bytes <= INLINE_OUT then trunk.data == out else fresh(trunk.data)
    {
      if INLINE_OUT < bytes {
        var data := new byte[bytes](_ => 0);
        trunk := PointerBuff(data, 0, 0, bytes, bytes);
        freeable := true;
      } else {
        trunk := PointerBuff(out, 0, INLINE_OUT - bytes, INLINE_OUT, INLINE_OUT);
        freeable := false;
      }
    }

    /** my_memcpy: between different pieces of storage. */
    static method MemCpy(to: array<byte>, at: nat, from: array<byte>, start: nat, n: nat)
      requires at + n <= to.Length && start + n <= from.Length && to != from
      modifies to
      ensures to[..] == old(to[..at] + from[start..start + n] + to[at + n..])
    {
      var i := 0;
      while i < n
        invariant 0 <= i <= n && to[..] == old(to[..at] + from[start..start + i] + to[at + i..])
      {
        to[at + i] := from[start + i];
        i := i + 1;
      }
    }

    /** my_memmove: within one piece of storage, from the end that is not overwritten too early. */
    static method MemMove(a: array<byte>, at: nat, start: nat, n: nat)
      requires at + n <= a.Length && start + n <= a.Length
      modifies a
      ensures a[..] == old(a[..at] + a[start..start + n] + a[at + n..])
    {
      if at <= start {
        MoveDown(a, at, start, n);
      } else {
        MoveUp(a, at, start, n);
      }
    }

    static method MoveDown(a: array<byte>, at: nat, start: nat, n: nat)
      requires at <= start && start + n <= a.Length
      modifies a
      ensures a[..] == old(a[..at] + a[start..start + n] + a[at + n..])
    {
      ghost var was := a[..];
      var d, i := start - at, at;
      while i < at + n
        invariant at <= i <= at + n
        invariant forall k :: 0 <= k < at || i <= k < a.Length ==> a[k] == was[k]
        invariant forall k :: at <= k < i ==> a[k] == was[k + d]
      {
        a[i] := a[i + d];
        i := i + 1;
      }
      Shifted(was, a[..], at, start, n);
    }

    static method MoveUp(a: array<byte>, at: nat, start: nat, n: nat)
      requires start <= at && at + n <= a.Length
      modifies a
      ensures a[..] == old(a[..at] + a[start..start + n] + a[at + n..])
    {
      ghost var was := a[..];
      var d, i := at - start, at + n;
      while i > at
        invariant at <= i <= at + n
        invariant forall k :: 0 <= k < i || at + n <= k < a.Length ==> a[k] == was[k]
        invariant forall k :: i <= k < at + n ==> a[k] == was[k - d]
      {
        i := i - 1;
        a[i] := a[i - d];
      }
      Shifted(was, a[..], at, start, n);
    }

    /** forward_inject_fr: room is made in front of the packet's data, wherever that lies, and the child is
        written there. */
    method InjectFr(fr: Packet)
      requires Valid() && Encodable(fr, MAX_RECURSION)
      modifies this, out
      ensures Valid() && trunk.Unread() == Encode(fr) + old(trunk.Unread())
    {
      TreeAccepted(fr, 0);
      TreeWire(fr);
      var prepared := Prep(FromTree(fr), 0);
      var result := prepared.value.1;
      MakeRoom(result);
      WriteFront(fr, result);
    }

    /** The old data moved behind `result` bytes of room. */
    method MakeRoom(result: nat)
      requires Valid()
      modifies this, out
      ensures Valid() && trunk.base == 0 && trunk.limit - trunk.pos == result + |old(trunk.Unread())|
      ensures trunk.data == out || fresh(trunk.data)
      ensures trunk.data[trunk.pos + result..trunk.limit] == old(trunk.Unread())
    {
      var was := trunk;
      var n := was.limit - was.pos;
      var len := n + result;
      var inPlace := !freeable && len <= INLINE_OUT && was.data == out;
      StealDataSpace(len);
      if inPlace {
        MemMove(trunk.data, trunk.pos + result, was.base + was.pos, n);
      } else {
        MemCpy(trunk.data, trunk.pos + result, was.data, was.base + was.pos, n);
      }
    }

    method WriteFront(fr: Packet, result: nat)
      requires Valid() && Encodable(fr, MAX_RECURSION) && result == |Encode(fr)|
      requires trunk.base == 0 && result <= trunk.limit - trunk.pos
      modifies trunk.data
      ensures Valid() && trunk.Unread() == Encode(fr) + old(trunk.data[trunk.pos + result..trunk.limit])
    {
      WriteAt(fr, trunk.data, trunk.pos, result, trunk.limit);
    }

    /** The child written into a window of the storage. */
    static method WriteAt(fr: Packet, data: array<byte>, pos: nat, result: nat, ghost limit: nat)
      requires Encodable(fr, MAX_RECURSION) && result == |Encode(fr)| && pos + result <= limit <= data.Length
      modifies data
      ensures data[pos..limit] == Encode(fr) + old(data[pos + result..limit])
    {
      ghost var before, s := data[..], Encode(fr);
      var window := new Buffer.Over(data, pos, pos + result);
      Write(fr, window);
      WroteFront(before, data[..], pos, s, limit);
      assert data[pos..limit] == data[..][pos..limit] && before[pos + result..limit] == old(data[pos + result..limit]);
    }
  }

  lemma Shifted(was: seq<byte>, now: seq<byte>, at: nat, start: nat, n: nat)
    requires |now| == |was| && at + n <= |was| && start + n <= |was|
    requires forall k :: 0 <= k < at || at + n <= k < |was| ==> now[k] == was[k]
    requires forall k :: at <= k < at + n ==> now[k] == was[k - at + start]
    ensures now == was[..at] + was[start..start + n] + was[at + n..]
  {
  }

  lemma WroteFront(a: seq<byte>, b: seq<byte>, pos: nat, s: seq<byte>, limit: nat)
    requires Wrote(a, b, pos, s) && pos + |s| <= limit <= |a|
    ensures |b| == |a| && b[pos..limit] == s + a[pos + |s|..limit]
  {
  }

  // ---------------------------------------------------------------------------------------------
  // From the packet that came to the packet that goes on
  // ---------------------------------------------------------------------------------------------

  /** A compound packet to be written with its data as it is. */
  function Literal(name: seq<byte>, bigEndian: bool, data: seq<byte>): (p: OutPacket) {
    OutPacket(name, bigEndian, true, true, 0, 0, [], data, DecideEncode, false)
  }

  lemma LiteralReadsBack(name: seq<byte>, bigEndian: bool, data: seq<byte>)
    requires LegalName(name) && 0 < |data| <= MAX_INNER
    ensures DecodeOne(Wire(Literal(name, bigEndian, data)))
            == Got(Raw(Header(LengthLength(|data|), bigEndian, true, |data|, name), data), [])
  {
    var p := Literal(name, bigEndian, data);
    assert WireInner(p) == data;
    var s := Wire(p);
    assert s == HeaderBytes(name, bigEndian, true, |data|) + data;
    HeaderReadsBack(name, bigEndian, true, |data|, data, |s|);
    assert data[..|data|] == data && data[|data|..] == [];
  }

  method WriteLiteral(header: Header, data: seq<byte>, target: Buffer) returns (ok: bool, q: OutPacket)
    requires LegalName(header.name) && data != [] && target.Valid() && 12 + |data| <= target.Remaining()
    modifies target`pos, target.data
    ensures target.Valid() && (ok <==> |data| <= MAX_INNER) && target.pos >= old(target.pos)
    ensures ok ==> DecodeOne(target.data[old(target.pos)..target.pos])
                   == Got(Raw(Header(LengthLength(|data|), header.bigEndian, true, |data|, header.name), data), [])
  {
    var p := Literal(header.name, header.bigEndian, data);
    ghost var s, start, before := Wire(p), target.pos, target.data[..];
    ok, q := Serialize(p, target);
    if ok {
      WroteWhole(s, before, target.data[..], start, target.pos, target.limit);
      WroteFront(before, target.data[..], start, s, start + |s|);
      assert target.data[start..target.pos] == s;
      LiteralReadsBack(header.name, header.bigEndian, data);
    }
  }

  /** A compound packet with its data in `source` gets the child in front and goes on literally: what is written decodes
      to the same tree with that child as its first, or fails to decode as it did. */
  method Forward(source: Source, header: Header, fr: Packet, target: Buffer) returns (ok: bool)
    requires source.Valid() && header.compound && LegalName(header.name) && Encodable(fr, MAX_RECURSION)
    requires target.Valid() && target.data != source.out
    requires 12 + |Encode(fr)| + |source.trunk.Unread()| <= target.Remaining()
    modifies source, source.out, target`pos, target.data
    ensures target.Valid() && target.pos >= old(target.pos)
    ensures ok <==> |Encode(fr)| + |old(source.trunk.Unread())| <= MAX_INNER
    ensures ok ==> var r := DecodeOne(target.data[old(target.pos)..target.pos]);
                   r.Got? && r.rest == []
                   && DecodeTree(r.packet) == WithFront(fr, DecodeTree(Raw(header, old(source.trunk.Unread()))))
  {
    ghost var payload := source.trunk.Unread();
    source.InjectFr(fr);
    var data := source.trunk.Unread();
    var q;
    ok, q := WriteLiteral(header, data, target);
    if ok {
      InjectedMeaning(Raw(header, payload), fr, DecodeOne(target.data[old(target.pos)..target.pos]).packet);
    }
  }
}
