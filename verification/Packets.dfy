/** G2 packets as trees, their wire form, and the decoder's reading of that wire form
    (G2PacketSerializer.c). */
module Packets {
  import opened Buffers
  import opened Options

  const MAX_INNER := 0xFFFFFF
  const MAX_RECURSION := 20

  /** A packet as its sender means it: a type name, the byte order of its payload, child packets and
      data behind the children. */
  datatype Packet = Packet(name: seq<byte>, bigEndian: bool, children: seq<Packet>, data: seq<byte>)

  // ---------------------------------------------------------------------------------------------
  // Wire form
  // ---------------------------------------------------------------------------------------------

  /** read_type_p refuses control characters and anything outside ASCII. */
  predicate LegalName(name: seq<byte>) {
    1 <= |name| <= 8 && forall i :: 0 <= i < |name| ==> 0x20 <= name[i] < 0x80
  }

  /** The number of length bytes prep chooses for an inner size. */
  function LengthLength(size: nat): (n: nat)
    requires size <= MAX_INNER
    ensures n <= 3
  {
    if size == 0 then 0 else if size <= 0xFF then 1 else if size <= 0xFFFF then 2 else 3
  }

  /** create_control_byte. */
  function ControlByte(lengthLength: nat, typeLength: nat, bigEndian: bool, compound: bool): (c: byte)
    requires lengthLength <= 3 && 1 <= typeLength <= 8
    ensures c != 0
  {
    var c := lengthLength * 64 + (typeLength - 1) * 8
             + (if compound then 4 else 0) + (if bigEndian then 2 else 0);
    if c == 0 then 4 else c
  }

  function LengthBytes(size: nat, n: nat, bigEndian: bool): (s: seq<byte>)
    requires size <= MAX_INNER && n <= 3
    ensures |s| == n
  {
    var b0, b1, b2 := size % 256, size / 256 % 256, size / 65536 % 256;
    if n == 0 then [] else if n == 1 then [b0]
    else if n == 2 then if bigEndian then [b1, b0] else [b0, b1]
    else if bigEndian then [b2, b1, b0] else [b0, b1, b2]
  }

  /** What follows the children: a terminator byte, but only when there is data to set off. */
  function Tail(data: seq<byte>): (s: seq<byte>) {
    if data == [] then [] else [0] + data
  }

  function Inner(p: Packet): (s: seq<byte>)
    decreases p, 1
  {
    if p.children == [] then p.data else Kids(p.children) + Tail(p.data)
  }

  function Kids(ps: seq<Packet>): (s: seq<byte>)
    decreases ps, 0
  {
    if ps == [] then [] else Encode(ps[0]) + Kids(ps[1..])
  }

  function HeaderBytes(name: seq<byte>, bigEndian: bool, compound: bool, size: nat): (s: seq<byte>)
  {
    if size <= MAX_INNER && 1 <= |name| <= 8 then
      var n := LengthLength(size);
      [ControlByte(n, |name|, bigEndian, compound)] + LengthBytes(size, n, bigEndian) + name
    else []
  }

  /** The wire form of a packet tree. */
  function Encode(p: Packet): (s: seq<byte>)
    decreases p, 2
  {
    HeaderBytes(p.name, p.bigEndian, p.children != [], |Inner(p)|) + Inner(p)
  }

  /** The trees the serializer accepts: legal names, at most `levels` further levels of nesting and
      inner sizes that three length bytes can hold. */
  ghost predicate Encodable(p: Packet, levels: nat)
    decreases p, 1
  {
    LegalName(p.name) && |Inner(p)| <= MAX_INNER
    && (p.children != [] ==> levels > 0 && KidsEncodable(p.children, levels - 1))
  }

  ghost predicate KidsEncodable(ps: seq<Packet>, levels: nat)
    decreases ps, 0
  {
    ps == [] || (Encodable(ps[0], levels) && KidsEncodable(ps[1..], levels))
  }

  // ---------------------------------------------------------------------------------------------
  // Reading a packet, stage by stage
  // ---------------------------------------------------------------------------------------------

  /** What check_control_byte_p, read_length_p and read_type_p leave in a packet. */
  datatype Header = Header(lengthLength: nat, bigEndian: bool, compound: bool, length: nat, name: seq<byte>)

  /** A packet split into header and payload, its children not yet looked at. */
  datatype Raw = Raw(header: Header, payload: seq<byte>)

  /** Too few bytes, of which the last ones may be the beginning of a header field that is cut off and
      cannot be taken yet; illegal bytes; or a packet with the bytes behind it. */
  datatype Reading = More(cutOff: nat) | Bad | Got(packet: Raw, rest: seq<byte>)

  function ControlLengthLength(c: byte): (n: nat) ensures n <= 3 { c / 64 }
  function ControlTypeLength(c: byte): (n: nat) ensures 1 <= n <= 8 { c / 8 % 8 + 1 }
  predicate ControlCompound(c: byte) { c / 4 % 2 == 1 }
  predicate ControlBigEndian(c: byte) { c / 2 % 2 == 1 }

  /** The inner length, accumulated byte by byte in either order. */
  function LengthOf(s: seq<byte>, bigEndian: bool): (n: nat)
  {
    if s == [] then 0
    else if bigEndian then LengthOf(s[..|s| - 1], bigEndian) * 256 + s[|s| - 1]
    else s[0] + 256 * LengthOf(s[1..], bigEndian)
  }

  /** How far the reader of one packet has come; the length limit is the reader's, not the packet's. */
  datatype Progress =
    | AtControl
    | AtLength(lengthLength: nat, typeLength: nat, bigEndian: bool, compound: bool)
    | AtName(typeLength: nat, header: Header)
    | AtPayload(header: Header, got: seq<byte>)

  /** What reading s yields from the given point on. A packet that claims to be compound but has no
      payload is taken as not compound. */
  function Read(at: Progress, s: seq<byte>, maxLen: nat): (r: Reading)
    ensures r.Got? && at.AtControl? ==> |r.packet.payload| + |r.rest| + 2 <= |s|
  {
    match at
    case AtControl =>
      if |s| < 1 then More(0) else if s[0] == 0 then Bad else ReadLengthField(ControlFields(s[0]), s[1..], maxLen)
    case AtLength(_, _, _, _) => ReadLengthField(at, s, maxLen)
    case AtName(tl, h) => ReadName(tl, h, s)
    case AtPayload(h, got) => ReadPayload(h, got + s)
  }

  function ControlFields(c: byte): (at: Progress)
    ensures at.AtLength? && at.lengthLength <= 3 && 1 <= at.typeLength <= 8
  {
    AtLength(ControlLengthLength(c), ControlTypeLength(c), ControlBigEndian(c), ControlCompound(c))
  }

  function ReadLengthField(at: Progress, s: seq<byte>, maxLen: nat): (r: Reading)
    requires at.AtLength?
    ensures r.Got? ==> |r.packet.payload| + |r.rest| + at.typeLength <= |s|
  {
    var ll := at.lengthLength;
    if |s| < ll then More(|s|)
    else
      var len := LengthOf(s[..ll], at.bigEndian);
      if maxLen < len + ll + at.typeLength + 1 then Bad
      else ReadName(at.typeLength, Header(ll, at.bigEndian, at.compound && len > 0, len, []), s[ll..])
  }

  function ReadName(typeLength: nat, h: Header, s: seq<byte>): (r: Reading)
    ensures r.Got? ==> |r.packet.payload| + |r.rest| + typeLength <= |s|
  {
    if |s| < typeLength then More(|s|)
    else if LegalName(s[..typeLength]) then ReadPayload(h.(name := s[..typeLength]), s[typeLength..])
    else Bad
  }

  function ReadPayload(h: Header, s: seq<byte>): (r: Reading)
    ensures r.Got? ==> |r.packet.payload| + |r.rest| <= |s|
  {
    if |s| < h.length then More(0) else Got(Raw(h, s[..h.length]), s[h.length..])
  }

  // ---------------------------------------------------------------------------------------------
  // Decoding a complete packet and its children
  // ---------------------------------------------------------------------------------------------

  /** g2_packet_decode on a buffer that holds whole packets: the buffer itself is the length limit. */
  function DecodeOne(s: seq<byte>): (r: Reading)
    ensures r.Got? ==> |r.packet.payload| + |r.rest| + 2 <= |s|
  {
    Read(AtControl, s, |s|)
  }

  /** The tree a caller of g2_packet_decode_from_packet collects: it asks for children until the
      packet reports that it is finished, and finds the data behind them. */
  function DecodeTree(raw: Raw): (r: Option<Packet>)
    decreases |raw.payload|, 1
  {
    var h := raw.header;
    if !h.compound then Some(Packet(h.name, h.bigEndian, [], raw.payload))
    else match DecodeKids(raw.payload)
      case None => None
      case Some((kids, data)) => Some(Packet(h.name, h.bigEndian, kids, data))
  }

  function DecodeKids(s: seq<byte>): (r: Option<(seq<Packet>, seq<byte>)>)
    decreases |s|, 0
  {
    if |s| == 0 then Some(([], []))
    else if s[0] == 0 then Some(([], s[1..]))
    else match DecodeOne(s)
      case Got(raw, rest) =>
        (match DecodeTree(raw)
         case None => None
         case Some(kid) =>
           match DecodeKids(rest)
           case None => None
           case Some((kids, data)) => Some(([kid] + kids, data)))
      case _ => None
  }

  // ---------------------------------------------------------------------------------------------
  // Round trip
  // ---------------------------------------------------------------------------------------------

  lemma ControlByteFields(ll: nat, tl: nat, bigEndian: bool, compound: bool)
    requires ll <= 3 && 1 <= tl <= 8
    ensures var c := ControlByte(ll, tl, bigEndian, compound);
            ControlLengthLength(c) == ll && ControlTypeLength(c) == tl && ControlBigEndian(c) == bigEndian
            && (ControlCompound(c) == compound || (ll == 0 && ControlCompound(c)))
    ensures var c := ControlByte(ll, tl, bigEndian, compound);
            c / 64 == ll && c / 8 % 8 == tl - 1 && (c / 2 % 2 == 1 <==> bigEndian) && c % 2 == 0
            && (c / 4 % 2 == 1 <==> compound || (ll == 0 && tl == 1 && !bigEndian))
  {
  }

  /** Two packets that the source keeps ready made. */
  lemma ReadyMade()
    ensures Encode(Packet([0x50, 0x4F], false, [], [])) == [0x08, 0x50, 0x4F]
    ensures Encode(Packet([0x55, 0x50, 0x52, 0x4F, 0x43], false, [], [])) == [0x20, 0x55, 0x50, 0x52, 0x4F, 0x43]
  {
    var po, uproc := Packet([0x50, 0x4F], false, [], []), Packet([0x55, 0x50, 0x52, 0x4F, 0x43], false, [], []);
    assert Inner(po) == [] && Inner(uproc) == [];
  }

  /** The length field has the lowest byte first, or last in big-endian packets. */
  lemma LengthBytesAre(size: nat, bigEndian: bool, i: nat)
    requires size <= MAX_INNER && i < LengthLength(size)
    ensures var s, n := LengthBytes(size, LengthLength(size), bigEndian), LengthLength(size);
            s[if bigEndian then n - 1 - i else i]
            == if i == 0 then size % 256 else if i == 1 then size / 256 % 256 else size / 65536
  {
  }

  lemma LengthOfBytes(size: nat, n: nat, bigEndian: bool)
    requires size <= MAX_INNER && n == LengthLength(size)
    ensures LengthOf(LengthBytes(size, n, bigEndian), bigEndian) == size
  {
    LengthOfUnfolded(LengthBytes(size, n, bigEndian), bigEndian);
    ThreeDigits(size);
  }

  lemma ThreeDigits(size: nat)
    requires size <= MAX_INNER
    ensures size == size % 256 + size / 256 % 256 * 256 + size / 65536 % 256 * 65536
    ensures size <= 0xFFFF ==> size / 65536 % 256 == 0
    ensures size <= 0xFF ==> size / 256 % 256 == 0
  {
    assert size / 65536 == size / 256 / 256;
  }

  lemma LengthOfUnfolded(s: seq<byte>, bigEndian: bool)
    requires |s| <= 3
    ensures |s| == 1 ==> LengthOf(s, bigEndian) == s[0]
    ensures |s| == 2 ==> LengthOf(s, bigEndian) == if bigEndian then s[0] as int * 256 + s[1]
                                                   else s[0] + s[1] as int * 256
    ensures |s| == 3 ==> LengthOf(s, bigEndian) == if bigEndian then s[0] as int * 65536 + s[1] as int * 256 + s[2]
                                                   else s[0] + s[1] as int * 256 + s[2] as int * 65536
    decreases |s|
  {
    if |s| > 0 {
      LengthOfUnfolded(if bigEndian then s[..|s| - 1] else s[1..], bigEndian);
    }
  }

  lemma NameStage(h: Header, name: seq<byte>, rest: seq<byte>)
    requires LegalName(name)
    ensures ReadName(|name|, h, name + rest) == ReadPayload(h.(name := name), rest)
  {
    assert (name + rest)[..|name|] == name && (name + rest)[|name|..] == rest;
  }

  lemma LengthStage(at: Progress, size: nat, rest: seq<byte>, maxLen: nat)
    requires at.AtLength? && size <= MAX_INNER && at.lengthLength == LengthLength(size)
    requires maxLen >= 1 + at.lengthLength + at.typeLength + size
    ensures ReadLengthField(at, LengthBytes(size, at.lengthLength, at.bigEndian) + rest, maxLen)
            == ReadName(at.typeLength, Header(at.lengthLength, at.bigEndian, at.compound && size > 0, size, []), rest)
  {
    var n, lb := at.lengthLength, LengthBytes(size, at.lengthLength, at.bigEndian);
    LengthOfBytes(size, n, at.bigEndian);
    assert (lb + rest)[..n] == lb && (lb + rest)[n..] == rest;
  }

  /** A written header reads back, whatever follows it. */
  lemma HeaderReadsBack(name: seq<byte>, bigEndian: bool, compound: bool, size: nat, rest: seq<byte>, maxLen: nat)
    requires LegalName(name) && size <= MAX_INNER
    requires maxLen >= 1 + LengthLength(size) + |name| + size
    ensures Read(AtControl, HeaderBytes(name, bigEndian, compound, size) + rest, maxLen)
            == ReadPayload(Header(LengthLength(size), bigEndian, compound && size > 0, size, name), rest)
  {
    var n := LengthLength(size);
    var c, lb := ControlByte(n, |name|, bigEndian, compound), LengthBytes(size, n, bigEndian);
    ControlByteFields(n, |name|, bigEndian, compound);
    var s := HeaderBytes(name, bigEndian, compound, size) + rest;
    assert s[0] == c && s[1..] == lb + (name + rest);
    LengthStage(ControlFields(c), size, name + rest, maxLen);
    NameStage(Header(n, bigEndian, compound && size > 0, size, []), name, rest);
  }

  ghost function RawOf(p: Packet): Raw
    requires |Inner(p)| <= MAX_INNER
  {
    Raw(Header(LengthLength(|Inner(p)|), p.bigEndian, p.children != [] && Inner(p) != [], |Inner(p)|, p.name),
        Inner(p))
  }

  lemma PacketReadsBack(name: seq<byte>, bigEndian: bool, compound: bool, inner: seq<byte>, rest: seq<byte>,
                        s: seq<byte>, maxLen: nat)
    requires LegalName(name) && |inner| <= MAX_INNER && |s| - |rest| <= maxLen
    requires s == HeaderBytes(name, bigEndian, compound, |inner|) + inner + rest
    ensures Read(AtControl, s, maxLen)
            == Got(Raw(Header(LengthLength(|inner|), bigEndian, compound && inner != [], |inner|, name), inner), rest)
  {
    var hb := HeaderBytes(name, bigEndian, compound, |inner|);
    assert s == hb + (inner + rest);
    HeaderReadsBack(name, bigEndian, compound, |inner|, inner + rest, maxLen);
    assert (inner + rest)[..|inner|] == inner && (inner + rest)[|inner|..] == rest;
  }

  /** In front of any bytes, for any limit that it does not exceed. */
  lemma EncodedReads(p: Packet, levels: nat, rest: seq<byte>, maxLen: nat)
    requires Encodable(p, levels) && |Encode(p)| <= maxLen
    ensures Read(AtControl, Encode(p) + rest, maxLen) == Got(RawOf(p), rest)
  {
    PacketReadsBack(p.name, p.bigEndian, p.children != [], Inner(p), rest, Encode(p) + rest, maxLen);
  }

  lemma EncodedDecodesOne(p: Packet, levels: nat, rest: seq<byte>)
    requires Encodable(p, levels)
    ensures DecodeOne(Encode(p) + rest) == Got(RawOf(p), rest)
    ensures Encode(p) != [] && Encode(p)[0] != 0
  {
    EncodedReads(p, levels, rest, |Encode(p) + rest|);
  }

  lemma {:induction false} RoundTrip(p: Packet, levels: nat)
    requires Encodable(p, levels)
    ensures DecodeTree(RawOf(p)) == Some(p)
    decreases p, 1
  {
    if p.children != [] {
      TailDecodes(p.data);
      KidsBefore(p.children, levels - 1, Tail(p.data), p.data);
      EncodedDecodesOne(p.children[0], levels - 1, Kids(p.children[1..]) + Tail(p.data));
    }
  }

  lemma TailDecodes(data: seq<byte>)
    ensures DecodeKids(Tail(data)) == Some(([], data)) == DecodeKids([0] + data)
  {
    assert ([0] + data)[1..] == data;
  }

  /** One more child in front of a payload that decodes. */
  lemma DecodeKidsStep(first: seq<byte>, rest: seq<byte>, raw: Raw, kid: Packet, kids: seq<Packet>, data: seq<byte>)
    requires first != [] && first[0] != 0 && DecodeOne(first + rest) == Got(raw, rest)
    requires DecodeTree(raw) == Some(kid) && DecodeKids(rest) == Some((kids, data))
    ensures DecodeKids(first + rest) == Some(([kid] + kids, data))
  {
  }

  lemma KidsBeforeStep(ps: seq<Packet>, levels: nat, tail: seq<byte>, data: seq<byte>)
    requires ps != [] && Encodable(ps[0], levels) && DecodeTree(RawOf(ps[0])) == Some(ps[0])
    requires DecodeKids(Kids(ps[1..]) + tail) == Some((ps[1..], data))
    ensures DecodeKids(Encode(ps[0]) + (Kids(ps[1..]) + tail)) == Some((ps, data))
  {
    EncodedDecodesOne(ps[0], levels, Kids(ps[1..]) + tail);
    DecodeKidsStep(Encode(ps[0]), Kids(ps[1..]) + tail, RawOf(ps[0]), ps[0], ps[1..], data);
    assert [ps[0]] + ps[1..] == ps;
  }

  lemma KidsSplit(ps: seq<Packet>, tail: seq<byte>)
    requires ps != []
    ensures Kids(ps) + tail == Encode(ps[0]) + (Kids(ps[1..]) + tail)
  {
  }

  /** Children in front of bytes without children. */
  lemma {:induction false} KidsBefore(ps: seq<Packet>, levels: nat, tail: seq<byte>, data: seq<byte>)
    requires KidsEncodable(ps, levels) && DecodeKids(tail) == Some(([], data))
    ensures DecodeKids(Kids(ps) + tail) == Some((ps, data))
    decreases ps, 0
  {
    if ps == [] {
      assert Kids(ps) + tail == tail;
    } else {
      RoundTrip(ps[0], levels);
      KidsBefore(ps[1..], levels, tail, data);
      KidsSplit(ps, tail);
      KidsBeforeStep(ps, levels, tail, data);
    }
  }

  /** Children with data behind them, the terminator in between; without data it may be there or not. */
  lemma KidsRoundTrip(ps: seq<Packet>, levels: nat, data: seq<byte>)
    requires KidsEncodable(ps, levels)
    ensures DecodeKids(Kids(ps) + ([0] + data)) == Some((ps, data)) == DecodeKids(Kids(ps) + Tail(data))
  {
    TailDecodes(data);
    KidsBefore(ps, levels, [0] + data, data);
    KidsBefore(ps, levels, Tail(data), data);
  }

  /** Decoding the wire form of a tree gives the tree back and stops right behind it: header, children
      and data, both byte orders, the substituted control byte and the terminator rule included. */
  lemma WireRoundTrip(p: Packet, levels: nat, rest: seq<byte>)
    requires Encodable(p, levels)
    ensures var r := DecodeOne(Encode(p) + rest);
            r.Got? && r.rest == rest && DecodeTree(r.packet) == Some(p)
  {
    EncodedDecodesOne(p, levels, rest);
    RoundTrip(p, levels);
  }

  /** Two different trees never share a wire form. */
  lemma EncodeInjective(p: Packet, q: Packet, levels: nat)
    requires Encodable(p, levels) && Encodable(q, levels) && Encode(p) == Encode(q)
    ensures p == q
  {
    EncodedDecodesOne(p, levels, []);
    EncodedDecodesOne(q, levels, []);
    assert Encode(p) + [] == Encode(q) + [];
    RoundTrip(p, levels);
    RoundTrip(q, levels);
  }
}
