/** Breaking packets out of a byte stream that arrives in pieces: the one-shot reading of a stream, and
    the resumable extractor (G2PacketSerializer.c) that refines it. */
module Extraction {
  import opened Buffers
  import opened Options
  import opened Packets
  import Seqs

  /** sizeof(pd.out), and sizeof(pd.in.buf) behind the eight type bytes. */
  const INLINE_OUT := 48
  const INLINE_IN := 40

  // ---------------------------------------------------------------------------------------------
  // One-shot reading of a stream
  // ---------------------------------------------------------------------------------------------

  /** A whole stream: the packets it holds, whether it went bad behind them, and what is left over. */
  datatype StreamReading = StreamReading(packets: seq<Raw>, bad: bool)

  /** Reads a stream whose first packet has already been begun. */
  function ReadStream(at: Progress, s: seq<byte>, maxLen: nat): (r: StreamReading)
    decreases !at.AtControl?, |s|
  {
    match Read(at, s, maxLen)
    case More(_) => StreamReading([], false)
    case Bad => StreamReading([], true)
    case Got(p, rest) => Prepend([p], ReadStream(AtControl, rest, maxLen))
  }

  function Prepend(ps: seq<Raw>, r: StreamReading): (q: StreamReading) {
    r.(packets := ps + r.packets)
  }

  lemma PrependTwice(ps: seq<Raw>, qs: seq<Raw>, r: StreamReading)
    ensures Prepend(ps, Prepend(qs, r)) == Prepend(ps + qs, r)
  {
    assert ps + (qs + r.packets) == ps + qs + r.packets;
  }

  /** The packets are these trees, in order. */
  ghost predicate AreTrees(packets: seq<Raw>, ps: seq<Packet>) {
    |packets| == |ps| && forall i :: 0 <= i < |ps| ==> DecodeTree(packets[i]) == Some(ps[i])
  }

  /** A stream of encoded trees, none longer than a packet may be, is read as those trees. */
  lemma {:induction false} StreamOfTrees(ps: seq<Packet>, levels: nat, maxLen: nat)
    requires KidsEncodable(ps, levels) && forall p :: p in ps ==> |Encode(p)| <= maxLen
    ensures var r := ReadStream(AtControl, Kids(ps), maxLen); !r.bad && AreTrees(r.packets, ps)
    decreases |ps|
  {
    if ps != [] {
      assert ps[0] in ps;
      EncodedReads(ps[0], levels, Kids(ps[1..]), maxLen);
      RoundTrip(ps[0], levels);
      StreamOfTrees(ps[1..], levels, maxLen);
    }
  }

  /** Bytes that arrive later never change a verdict already reached. */
  lemma ReadStable(at: Progress, s: seq<byte>, t: seq<byte>, maxLen: nat)
    requires !Read(at, s, maxLen).More?
    ensures var r := Read(at, s, maxLen);
            Read(at, s + t, maxLen) == if r.Got? then r.(rest := r.rest + t) else r
  {
    match at
    case AtControl =>
      if s[0] != 0 {
        assert (s + t)[1..] == s[1..] + t;
        LengthStable(ControlFields(s[0]), s[1..], t, maxLen);
      }
    case AtLength(_, _, _, _) => LengthStable(at, s, t, maxLen);
    case AtName(tl, h) => NameStable(tl, h, s, t);
    case AtPayload(h, got) =>
      assert got + (s + t) == got + s + t;
      PayloadStable(h, got + s, t);
  }

  lemma LengthStable(at: Progress, s: seq<byte>, t: seq<byte>, maxLen: nat)
    requires at.AtLength? && !ReadLengthField(at, s, maxLen).More?
    ensures var r := ReadLengthField(at, s, maxLen);
            ReadLengthField(at, s + t, maxLen) == if r.Got? then r.(rest := r.rest + t) else r
  {
    var ll := at.lengthLength;
    assert (s + t)[..ll] == s[..ll] && (s + t)[ll..] == s[ll..] + t;
    var len := LengthOf(s[..ll], at.bigEndian);
    if len + ll + at.typeLength + 1 <= maxLen {
      NameStable(at.typeLength, Header(ll, at.bigEndian, at.compound && len > 0, len, []), s[ll..], t);
    }
  }

  lemma NameStable(tl: nat, h: Header, s: seq<byte>, t: seq<byte>)
    requires !ReadName(tl, h, s).More?
    ensures var r := ReadName(tl, h, s);
            ReadName(tl, h, s + t) == if r.Got? then r.(rest := r.rest + t) else r
  {
    assert (s + t)[..tl] == s[..tl] && (s + t)[tl..] == s[tl..] + t;
    if LegalName(s[..tl]) {
      PayloadStable(h.(name := s[..tl]), s[tl..], t);
    }
  }

  lemma PayloadStable(h: Header, s: seq<byte>, t: seq<byte>)
    requires |s| >= h.length
    ensures ReadPayload(h, s + t) == Got(Raw(h, s[..h.length]), s[h.length..] + t)
  {
    assert (s + t)[..h.length] == s[..h.length] && (s + t)[h.length..] == s[h.length..] + t;
  }

  /** A stream that went bad stays bad behind the same packets. */
  lemma {:induction false} BadStays(at: Progress, s: seq<byte>, t: seq<byte>, maxLen: nat)
    requires ReadStream(at, s, maxLen).bad
    ensures ReadStream(at, s + t, maxLen) == ReadStream(at, s, maxLen)
    decreases !at.AtControl?, |s|
  {
    ReadStable(at, s, t, maxLen);
    match Read(at, s, maxLen) {
      case Got(p, rest) => BadStays(AtControl, rest, t, maxLen);
      case _ =>
    }
  }

  /** Two points of progress that no continuation of the stream can tell apart. */
  ghost predicate Same(at: Progress, s: seq<byte>, at': Progress, s': seq<byte>, maxLen: nat) {
    forall t: seq<byte> :: Read(at, s + t, maxLen) == Read(at', s' + t, maxLen)
  }

  lemma SameNow(at: Progress, s: seq<byte>, at': Progress, s': seq<byte>, maxLen: nat)
    requires Same(at, s, at', s', maxLen)
    ensures Read(at, s, maxLen) == Read(at', s', maxLen)
  {
    assert s + [] == s && s' + [] == s';
  }

  /** f(t) is the verdict if the bytes t arrive next. */
  ghost predicate Agrees(f: seq<byte> -> Reading, at: Progress, s: seq<byte>, maxLen: nat) {
    forall t: seq<byte> :: f(t) == Read(at, s + t, maxLen)
  }

  lemma AgreesNow(f: seq<byte> -> Reading, at: Progress, s: seq<byte>, maxLen: nat)
    requires Agrees(f, at, s, maxLen)
    ensures f([]) == Read(at, s, maxLen)
  {
    assert s + [] == s;
  }

  lemma AgreesStep(f: seq<byte> -> Reading, at: Progress, s: seq<byte>, at': Progress, s': seq<byte>, maxLen: nat)
    requires Agrees(f, at, s, maxLen) && Same(at, s, at', s', maxLen)
    ensures Agrees(f, at', s', maxLen)
  {
    forall t: seq<byte> ensures f(t) == Read(at', s' + t, maxLen) {
      assert f(t) == Read(at, s + t, maxLen);
    }
  }

  lemma StepControl(s: seq<byte>, maxLen: nat)
    requires |s| >= 1 && s[0] != 0
    ensures Same(AtControl, s, ControlFields(s[0]), s[1..], maxLen)
  {
    forall t: seq<byte> ensures Read(AtControl, s + t, maxLen) == Read(ControlFields(s[0]), s[1..] + t, maxLen) {
      assert (s + t)[1..] == s[1..] + t;
    }
  }

  lemma StepLength(at: Progress, s: seq<byte>, maxLen: nat, h: Header)
    requires at.AtLength? && |s| >= at.lengthLength
    requires var len := LengthOf(s[..at.lengthLength], at.bigEndian);
             h == Header(at.lengthLength, at.bigEndian, at.compound && len > 0, len, [])
             && len + at.lengthLength + at.typeLength + 1 <= maxLen
    ensures Same(at, s, AtName(at.typeLength, h), s[at.lengthLength..], maxLen)
  {
    var ll := at.lengthLength;
    forall t: seq<byte> ensures Read(at, s + t, maxLen) == Read(AtName(at.typeLength, h), s[ll..] + t, maxLen) {
      assert (s + t)[..ll] == s[..ll] && (s + t)[ll..] == s[ll..] + t;
    }
  }

  lemma StepName(tl: nat, h: Header, s: seq<byte>, maxLen: nat)
    requires |s| >= tl && LegalName(s[..tl])
    ensures Same(AtName(tl, h), s, AtPayload(h.(name := s[..tl]), []), s[tl..], maxLen)
  {
    var at' := AtPayload(h.(name := s[..tl]), []);
    forall t: seq<byte> ensures Read(AtName(tl, h), s + t, maxLen) == Read(at', s[tl..] + t, maxLen) {
      assert (s + t)[..tl] == s[..tl] && (s + t)[tl..] == s[tl..] + t;
      assert [] + (s[tl..] + t) == s[tl..] + t;
    }
  }

  lemma StepPayload(h: Header, got: seq<byte>, s: seq<byte>, n: nat, maxLen: nat)
    requires n <= |s|
    ensures Same(AtPayload(h, got), s, AtPayload(h, got + s[..n]), s[n..], maxLen)
  {
    forall t: seq<byte>
      ensures Read(AtPayload(h, got), s + t, maxLen) == Read(AtPayload(h, got + s[..n]), s[n..] + t, maxLen)
    {
      Seqs.Regroup(got, s, n, t);
    }
  }

  // ---------------------------------------------------------------------------------------------
  // A packet being received
  // ---------------------------------------------------------------------------------------------

  datatype DecodeState =
    | CheckControlByte | ReadLength | ReadType | DecideDecode | StartExtract | StartExtractTrunk
    | ExtractFromStream | ExtractionComplete | DecodeFinished

  /** The number of turns of the extractor's switch that may still follow. */
  function Turns(state: DecodeState): (n: nat) {
    match state
    case CheckControlByte => 8
    case ReadLength => 7
    case ReadType => 6
    case DecideDecode => 5
    case StartExtract => 4
    case StartExtractTrunk => 3
    case ExtractFromStream => 2
    case ExtractionComplete => 1
    case DecodeFinished => 0
  }

  /** struct pointer_buff: a pointer (array and offset) with pos, limit and capacity. */
  datatype PointerBuff = PointerBuff(data: array<byte>, base: nat, pos: nat, limit: nat, capacity: nat) {
    ghost predicate Inside() {
      pos <= limit <= capacity && base + capacity <= data.Length
    }

    /** The bytes before pos. */
    ghost function Filled(): seq<byte>
      requires Inside()
      reads data
    {
      data[base..base + pos]
    }

    function Unread(): seq<byte>
      requires Inside()
      reads data
    {
      data[base + pos..base + limit]
    }
  }

  class InPacket {
    var state: DecodeState
    var typeLength: nat
    /** length_length, big_endian, is_compound, length and the type bytes. */
    var header: Header
    var moreBytesNeeded: bool
    var trunk: PointerBuff
    var trunkFreeable: bool
    /** pd: the storage inside the packet itself. */
    const inline: array<byte>
    /** Which type names the table of g2_packet_find_type knows. */
    const knownType: seq<byte> -> bool

    constructor (knownType: seq<byte> -> bool)
      ensures Inv() && At() == AtControl && fresh(inline) && trunk.data == inline && !trunkFreeable && !Done()
    {
      this.knownType := knownType;
      var pd := new byte[INLINE_OUT](_ => 0);
      inline := pd;
      trunk := PointerBuff(pd, 0, 0, 0, 0);
      state, typeLength, header := CheckControlByte, 0, Header(0, false, false, 0, []);
      moreBytesNeeded, trunkFreeable := false, false;
    }

    ghost predicate Inv()
      reads this
    {
      inline.Length == INLINE_OUT && header.lengthLength <= 3 && trunk.Inside()
      && (state == ReadLength || state == ReadType ==> 1 <= typeLength <= 8)
      && (state == ReadType ==> header.name == [])
      && (state == StartExtract || state == StartExtractTrunk ==> header.length > 0)
      && (state == ExtractFromStream ==> trunk.limit == header.length)
    }

    predicate Done()
      reads this
    {
      state == ExtractionComplete || state == DecodeFinished
    }

    /** How far the packet has come, as the one-shot reader would put it. */
    ghost function At(): Progress
      requires Inv()
      reads this, trunk.data
    {
      if state == CheckControlByte then AtControl
      else if state == ReadLength then AtLength(header.lengthLength, typeLength, header.bigEndian, header.compound)
      else if state == ReadType then AtName(typeLength, header)
      else AtPayload(header, if state == ExtractFromStream then trunk.Filled() else [])
    }

    // -------------------------------------------------------------------------------------------
    // Stages; 1 means done, 0 more bytes needed, -1 illegal
    // -------------------------------------------------------------------------------------------

    /** check_control_byte_p. */
    method StageControlByte(source: Buffer, ghost maxLen: nat) returns (r: int)
      requires source.Valid() && Inv() && state == CheckControlByte
      modifies this, source`pos
      ensures source.Valid() && source.pos >= old(source.pos) && unchanged(this`trunk)
      ensures r == -1 || r == 0 || r == 1
      ensures r == -1 ==> Read(AtControl, old(source.Unread()), maxLen) == Bad
      ensures r == 0 ==> unchanged(source, this`state) && Inv() && moreBytesNeeded && source.Remaining() == 0
      ensures r == 1 ==> state == ReadLength && Inv() && moreBytesNeeded == old(moreBytesNeeded)
                         && source.pos == old(source.pos) + 1
                         && Same(AtControl, old(source.Unread()), At(), source.Unread(), maxLen)
    {
      ghost var s := source.Unread();
      if 1 > source.Remaining() {
        moreBytesNeeded := true;
        r := 0;
      } else {
        var control := source.data[source.pos];
        source.pos := source.pos + 1;
        assert s[0] == control && s[1..] == source.Unread();
        if control == 0 {
          r := -1;
        } else {
          header := Header(control / 64, control / 2 % 2 == 1, control / 4 % 2 == 1, 0, []);
          typeLength := control / 8 % 8 + 1;
          state := ReadLength;
          assert At() == ControlFields(control);
          StepControl(s, maxLen);
          r := 1;
        }
      }
    }

    /** The loop of read_length_p. */
    method FetchLength(source: Buffer) returns (n: nat)
      requires source.Valid() && header.lengthLength <= source.Remaining() && header.lengthLength <= 3
      modifies source`pos
      ensures source.Valid() && source.pos == old(source.pos) + header.lengthLength
      ensures n == LengthOf(source.data[old(source.pos)..source.pos], header.bigEndian)
    {
      n := 0;
      var bigEndian := header.bigEndian;
      var i, start, weight := 0, source.pos, 1;
      while i < header.lengthLength
        invariant 0 <= i <= header.lengthLength && source.pos == start + i && source.Valid()
        invariant n == LengthOf(source.data[start..start + i], bigEndian)
        invariant weight == if i == 0 then 1 else if i == 1 then 256 else if i == 2 then 65536 else 16777216
      {
        var b := source.data[source.pos];
        source.pos := source.pos + 1;
        ghost var before := source.data[start..start + i];
        assert source.data[start..start + i + 1] == before + [b];
        LengthOfUnfolded(before, bigEndian);
        LengthOfUnfolded(before + [b], bigEndian);
        n := if !bigEndian then n + b as int * weight else n * 256 + b;
        i, weight := i + 1, weight * 256;
      }
    }

    /** read_length_p. */
    method StageLength(source: Buffer, maxLen: nat) returns (r: int)
      requires source.Valid() && Inv() && state == ReadLength
      modifies this, source`pos
      ensures source.Valid() && source.pos >= old(source.pos) && unchanged(this`trunk)
      ensures r == -1 || r == 0 || r == 1
      ensures r == -1 ==> Read(old(At()), old(source.Unread()), maxLen) == Bad
      ensures r == 0 ==> unchanged(source, this`state) && Inv() && moreBytesNeeded
                         && source.Remaining() < header.lengthLength && At() == old(At())
      ensures r == 1 ==> state == ReadType && Inv() && moreBytesNeeded == old(moreBytesNeeded)
                         && source.pos == old(source.pos) + header.lengthLength && unchanged(this`typeLength)
                         && header.length + header.lengthLength + typeLength + 1 <= maxLen
                         && Same(old(At()), old(source.Unread()), At(), source.Unread(), maxLen)
    {
      ghost var at, s := At(), source.Unread();
      var ll := header.lengthLength;
      if ll > source.Remaining() {
        moreBytesNeeded := true;
        r := 0;
      } else {
        var n := FetchLength(source);
        assert s[..ll] == source.data[old(source.pos)..source.pos];
        assert s[ll..] == source.Unread();
        if maxLen < n + ll + typeLength + 1 {
          r := -1;
        } else {
          header := header.(length := n, compound := header.compound && n != 0, name := []);
          state := ReadType;
          StepLength(at, s, maxLen, header);
          r := 1;
        }
      }
    }

    /** The loop of read_type_p. */
    method FetchName(source: Buffer) returns (legal: bool, fetched: seq<byte>)
      requires source.Valid() && typeLength <= source.Remaining()
      modifies source`pos
      ensures source.Valid() && source.pos == old(source.pos) + typeLength
      ensures var field := source.data[old(source.pos)..source.pos];
              (legal ==> fetched == field) && legal == forall k :: 0 <= k < |field| ==> 0x20 <= field[k] < 0x80
    {
      var start := source.pos;
      source.pos := start + typeLength;
      fetched := [];
      for i := 0 to typeLength
        invariant fetched == source.data[start..start + i]
        invariant forall k :: 0 <= k < i ==> 0x20 <= fetched[k] < 0x80
      {
        var c := source.data[start + i];
        if c < 0x20 || c >= 0x80 {
          assert source.data[start..source.pos][i] == c;
          return false, [];
        }
        fetched := fetched + [c];
      }
      return true, fetched;
    }

    /** read_type_p. */
    method StageType(source: Buffer, ghost maxLen: nat) returns (r: int)
      requires source.Valid() && Inv() && state == ReadType
      modifies this, source`pos
      ensures source.Valid() && source.pos >= old(source.pos) && unchanged(this`trunk)
      ensures r == -1 || r == 0 || r == 1
      ensures r == -1 ==> Read(old(At()), old(source.Unread()), maxLen) == Bad
      ensures r == 0 ==> unchanged(source, this`state) && Inv() && moreBytesNeeded && source.Remaining() < typeLength
                         && At() == old(At())
      ensures r == 1 ==> state == DecideDecode && Inv() && moreBytesNeeded == old(moreBytesNeeded)
                         && source.pos == old(source.pos) + typeLength && unchanged(this`typeLength)
                         && header == old(header).(name := header.name)
                         && Same(old(At()), old(source.Unread()), At(), source.Unread(), maxLen)
    {
      ghost var s := source.Unread();
      if typeLength > source.Remaining() {
        moreBytesNeeded := true;
        r := 0;
      } else {
        var legal, fetched := FetchName(source);
        assert s[..typeLength] == source.data[old(source.pos)..source.pos];
        assert s[typeLength..] == source.Unread();
        if !legal {
          r := -1;
        } else {
          StepName(typeLength, header, s, maxLen);
          header := header.(name := fetched);
          state := DecideDecode;
          r := 1;
        }
      }
    }

    // -------------------------------------------------------------------------------------------
    // Payload
    // -------------------------------------------------------------------------------------------

    /** START_EXTRACT_PACKET_FROM_STREAM: use the payload where it lies in the read buffer, or wait for
        the rest of it there, or go on to a trunk of the packet's own. */
    method StartPayload(source: Buffer, evict: bool)
      requires source.Valid() && Inv() && state == StartExtract && trunk.data != source.data
      modifies this, source`pos
      ensures source.Valid() && Inv() && unchanged(this`header, this`typeLength)
      ensures state == StartExtract || state == StartExtractTrunk || state == ExtractionComplete
      ensures state == StartExtract ==> unchanged(source, this`trunk) && moreBytesNeeded && !evict
                                        && source.Remaining() < header.length <= source.data.Length
      ensures state != StartExtract ==> moreBytesNeeded == old(moreBytesNeeded)
      ensures state == StartExtractTrunk ==> unchanged(source, this`trunk)
      ensures state == ExtractionComplete ==>
                trunk.data == source.data && trunk.pos == trunk.limit == header.length
                && source.pos == old(source.pos) + header.length
                && trunk.Filled() == source.data[old(source.pos)..source.pos]
      ensures var own := old(trunkFreeable) && old(trunk.capacity) != 0;
              state == if !own && header.length <= old(source.Remaining()) then ExtractionComplete
                       else if !own && !evict && header.length <= source.data.Length then StartExtract
                       else StartExtractTrunk
      ensures trunkFreeable == (old(trunkFreeable) && state != ExtractionComplete)
    {
      var length := header.length;
      if !trunkFreeable || trunk.capacity == 0 {
        if length <= source.Remaining() {
          trunkFreeable := false;
          trunk := PointerBuff(source.data, source.pos, length, length, length);
          source.pos := source.pos + length;
          state := ExtractionComplete;
          return;
        } else if !evict && length <= source.data.Length {
          moreBytesNeeded := true;
          return;
        }
      }
      state := StartExtractTrunk;
    }

    /** START_EXTRACT_PACKET_FROM_STREAM_TRUNK: find room for the payload, in the packet or on the heap. */
    method StartTrunk()
      requires Inv() && state == StartExtractTrunk
      modifies this
      ensures Inv() && state == ExtractFromStream && trunk.pos == 0
      ensures unchanged(this`header, this`typeLength, this`moreBytesNeeded)
      ensures trunk.data == old(trunk.data) || trunk.data == inline || fresh(trunk.data)
      ensures var room := if knownType(header.name) then INLINE_OUT else INLINE_IN;
              if header.length <= old(trunk.capacity)
              then trunk.data == old(trunk.data) && unchanged(this`trunkFreeable)
              else if old(trunkFreeable) || header.length > room then fresh(trunk.data) && trunkFreeable
              else trunk.data == inline && !trunkFreeable
    {
      var length := header.length;
      if length > trunk.capacity {
        var known := knownType(header.name);
        if trunkFreeable || (known && length > INLINE_OUT) || (!known && length > INLINE_IN) {
          var pds := new byte[length](_ => 0);
          trunk, trunkFreeable := PointerBuff(pds, 0, 0, 0, length), true;
        } else {
          trunkFreeable := false;
          trunk := if known then PointerBuff(inline, 0, 0, 0, INLINE_OUT)
                   else PointerBuff(inline, INLINE_OUT - INLINE_IN, 0, 0, INLINE_IN);
        }
      }
      trunk := trunk.(pos := 0, limit := length);
      state := ExtractFromStream;
    }

    /** my_memcpy from the read buffer into the trunk, both positions moving on. */
    method CopyPayload(source: Buffer, n: nat)
      requires source.Valid() && trunk.Inside() && trunk.data != source.data
      requires n <= source.Remaining() && n <= trunk.limit - trunk.pos
      modifies this`trunk, source`pos, trunk.data
      ensures source.Valid() && source.pos == old(source.pos) + n
      ensures trunk == old(trunk).(pos := old(trunk).pos + n)
      ensures trunk.Filled() == old(trunk.Filled()) + source.data[old(source.pos)..source.pos]
    {
      ghost var before := trunk.Filled();
      var base, to, from, i := trunk.base, trunk.base + trunk.pos, source.pos, 0;
      var dst, src := trunk.data, source.data;
      while i < n
        modifies dst
        invariant 0 <= i <= n
        invariant dst[base..to] == before
        invariant dst[to..to + i] == src[from..from + i]
      {
        dst[to + i] := src[from + i];
        i := i + 1;
      }
      assert dst[base..to + n] == dst[base..to] + dst[to..to + n];
      trunk := trunk.(pos := trunk.pos + n);
      source.pos := source.pos + n;
    }

    /** EXTRACT_PACKET_FROM_STREAM. */
    method GrabPayload(source: Buffer)
      requires source.Valid() && Inv() && state == ExtractFromStream && trunk.data != source.data
      modifies this, source`pos, trunk.data
      ensures source.Valid() && Inv() && unchanged(this`header, this`typeLength)
      ensures source.pos >= old(source.pos)
              && trunk == old(trunk).(pos := old(trunk).pos + source.pos - old(source.pos))
      ensures trunk.Filled() == old(trunk.Filled()) + source.data[old(source.pos)..source.pos]
      ensures if old(source.Remaining()) < header.length - old(trunk).pos
              then state == ExtractFromStream && moreBytesNeeded && source.Remaining() == 0
              else state == ExtractionComplete && moreBytesNeeded == old(moreBytesNeeded)
                   && trunk.pos == trunk.limit == header.length
    {
      if source.Remaining() < trunk.limit - trunk.pos {
        CopyPayload(source, source.Remaining());
        moreBytesNeeded := true;
      } else {
        CopyPayload(source, trunk.limit - trunk.pos);
        state := ExtractionComplete;
      }
    }

    // -------------------------------------------------------------------------------------------
    // The extractor
    // -------------------------------------------------------------------------------------------

    /** What the extractor has established, f being the verdicts its starting point allowed. */
    ghost predicate Reached(f: seq<byte> -> Reading, source: Buffer, maxLen: nat)
      requires source.Valid() && Inv()
      reads this, trunk.data, source, source.data
    {
      if state == DecodeFinished then
        trunk.Unread() == [] && f([]) == Got(Raw(header, []), source.Unread())
      else if state == ExtractionComplete then
        f([]) == Got(Raw(header, if moreBytesNeeded then trunk.Unread() else trunk.Filled()), source.Unread())
      else
        Agrees(f, At(), source.Unread(), maxLen) && (moreBytesNeeded ==> f([]).More?)
    }

    /** One turn of the switch, from a header state. */
    method StepHeader(source: Buffer, maxLen: nat, ghost f: seq<byte> -> Reading) returns (ok: bool)
      requires source.Valid() && Inv() && Reached(f, source, maxLen) && !moreBytesNeeded
      requires InHeader()
      modifies this, source`pos
      ensures source.Valid() && source.pos >= old(source.pos) && unchanged(this`trunk)
      ensures !ok ==> f([]) == Bad
      ensures ok ==> Inv() && Reached(f, source, maxLen)
      ensures ok && moreBytesNeeded ==> source.Remaining() < 8 && state == old(state)
                                        && f([]) == More(source.Remaining())
      ensures ok && !moreBytesNeeded ==> state == if old(state) == CheckControlByte then ReadLength
                                                  else if old(state) == ReadLength then ReadType else DecideDecode
    {
      ghost var at, s := At(), source.Unread();
      AgreesNow(f, at, s, maxLen);
      var r;
      if state == CheckControlByte {
        r := StageControlByte(source, maxLen);
      } else if state == ReadLength {
        r := StageLength(source, maxLen);
      } else {
        r := StageType(source, maxLen);
      }
      ok := r >= 0;
      if r == 1 {
        AgreesStep(f, at, s, At(), source.Unread(), maxLen);
      }
    }

    /** One turn of the switch, from DECIDE_DECODE. */
    method StepDecide(ghost source: Buffer, ghost maxLen: nat, ghost f: seq<byte> -> Reading)
      requires source.Valid() && Inv() && Reached(f, source, maxLen) && !moreBytesNeeded && state == DecideDecode
      modifies this
      ensures Inv() && Reached(f, source, maxLen) && trunk.data == old(trunk.data)
      ensures if header.length > 0 then state == StartExtract && !moreBytesNeeded else state == DecodeFinished
    {
      if 0 < header.length {
        state := StartExtract;
      } else {
        trunk := trunk.(pos := 0, limit := 0);
        PayloadHere(f, header, [], source.Unread(), source.Unread(), [], maxLen);
        moreBytesNeeded := true;
        state := DecodeFinished;
      }
    }

    /** One turn of the switch, from START_EXTRACT_PACKET_FROM_STREAM. */
    method StepStart(source: Buffer, evict: bool, ghost maxLen: nat, ghost f: seq<byte> -> Reading)
      requires source.Valid() && Inv() && Reached(f, source, maxLen) && !moreBytesNeeded && state == StartExtract
      requires trunk.data != source.data
      modifies this, source`pos
      ensures source.Valid() && Inv() && Reached(f, source, maxLen)
      ensures state == StartExtract || state == StartExtractTrunk || state == ExtractionComplete
      ensures state == StartExtract ==> moreBytesNeeded && !evict && source.Remaining() < source.data.Length
      ensures state != StartExtract ==> !moreBytesNeeded
      ensures if state == ExtractionComplete then trunk.data == source.data else unchanged(this`trunk)
    {
      ghost var u := source.Unread();
      StartPayload(source, evict);
      if state == ExtractionComplete {
        assert u == trunk.Filled() + source.Unread() && [] + u == u;
        PayloadHere(f, header, [], u, source.Unread(), trunk.Filled(), maxLen);
      } else if state == StartExtract {
        PayloadMissing(f, header, [], u, maxLen);
      }
    }

    /** One turn of the switch, from EXTRACT_PACKET_FROM_STREAM. */
    method StepGrab(source: Buffer, ghost maxLen: nat, ghost f: seq<byte> -> Reading)
      requires source.Valid() && Inv() && Reached(f, source, maxLen) && !moreBytesNeeded && state == ExtractFromStream
      requires trunk.data != source.data
      modifies this, source`pos, trunk.data
      ensures source.Valid() && Inv() && Reached(f, source, maxLen) && trunk.data == old(trunk.data)
      ensures (state == ExtractFromStream && moreBytesNeeded && source.Remaining() == 0)
              || (state == ExtractionComplete && !moreBytesNeeded)
    {
      ghost var got, u := trunk.Filled(), source.Unread();
      GrabPayload(source);
      ghost var n := source.pos - old(source.pos);
      assert u[..n] == source.data[old(source.pos)..source.pos] && u[n..] == source.Unread();
      if state == ExtractionComplete {
        PayloadHere(f, header, got, u, source.Unread(), trunk.Filled(), maxLen);
      } else {
        PayloadMissing(f, header, got, u, maxLen);
        StepPayload(header, got, u, n, maxLen);
        AgreesStep(f, AtPayload(header, got), u, At(), source.Unread(), maxLen);
      }
    }

    /** A packet that has to wait never leaves its buffer full, provided the buffer could hold the
        longest header field; evicting leaves just the beginning of a cut-off header field behind. */
    ghost predicate Waiting(f: seq<byte> -> Reading, source: Buffer, evict: bool)
      requires source.Valid()
      reads source
    {
      (source.Remaining() < 8 || source.Remaining() < source.data.Length)
      && (evict ==> f([]) == More(source.Remaining()))
    }

    /** One turn of the switch, from PACKET_EXTRACTION_COMPLETE or DECODE_FINISHED. */
    method StepDone(ghost source: Buffer, ghost maxLen: nat, ghost f: seq<byte> -> Reading)
      requires source.Valid() && Inv() && Reached(f, source, maxLen) && !moreBytesNeeded && Done()
      modifies this
      ensures Inv() && Reached(f, source, maxLen) && moreBytesNeeded && state == old(state)
              && trunk.data == old(trunk.data)
    {
      if state == ExtractionComplete {
        trunk := trunk.(limit := trunk.pos, pos := 0);
      }
      moreBytesNeeded := true;
    }

    predicate InHeader()
      reads this
    {
      state == CheckControlByte || state == ReadLength || state == ReadType
    }

    /** One turn of the switch, from the states that deal with the packet's own trunk. */
    method StepTrunkStates(source: Buffer, ghost evict: bool, ghost maxLen: nat, ghost f: seq<byte> -> Reading)
      requires source.Valid() && Inv() && Reached(f, source, maxLen) && !moreBytesNeeded
      requires Done() || state == StartExtractTrunk || state == ExtractFromStream
      requires inline != source.data && (!Done() ==> trunk.data != source.data)
      modifies this, source`pos, if state == ExtractFromStream then {trunk.data} else {}
      ensures source.Valid() && Inv() && Reached(f, source, maxLen) && !InHeader()
      ensures !Done() ==> trunk.data != source.data
      ensures !Done() && moreBytesNeeded ==> Waiting(f, source, evict)
      ensures !moreBytesNeeded ==> Turns(state) < Turns(old(state))
      ensures old(Done()) ==> state == old(state)
      ensures trunk.data == old(trunk.data) || trunk.data == inline || fresh(trunk.data)
    {
      if state == StartExtractTrunk {
        StartTrunk();
      } else if state == ExtractFromStream {
        StepGrab(source, maxLen, f);
      } else {
        StepDone(source, maxLen, f);
      }
    }

    /** One turn of the switch, from any state behind the header. */
    method StepPayloadStates(source: Buffer, evict: bool, ghost maxLen: nat, ghost f: seq<byte> -> Reading)
      requires source.Valid() && Inv() && Reached(f, source, maxLen) && !moreBytesNeeded && !InHeader()
      requires inline != source.data && (!Done() ==> trunk.data != source.data)
      modifies this, source`pos, if state == ExtractFromStream then {trunk.data} else {}
      ensures source.Valid() && Inv() && Reached(f, source, maxLen) && !InHeader()
      ensures !Done() ==> trunk.data != source.data
      ensures !Done() && moreBytesNeeded ==> Waiting(f, source, evict)
      ensures !moreBytesNeeded ==> Turns(state) < Turns(old(state))
      ensures old(Done()) ==> state == old(state)
      ensures trunk.data == old(trunk.data) || trunk.data == inline || fresh(trunk.data)
              || (trunk.data == source.data && state == ExtractionComplete)
    {
      if state == DecideDecode {
        StepDecide(source, maxLen, f);
      } else if state == StartExtract {
        StepStart(source, evict, maxLen, f);
      } else {
        StepTrunkStates(source, evict, maxLen, f);
      }
    }

    /** One turn of the switch. */
    method Step(source: Buffer, maxLen: nat, evict: bool, ghost f: seq<byte> -> Reading) returns (ok: bool)
      requires source.Valid() && Inv() && Reached(f, source, maxLen) && !moreBytesNeeded
      requires inline != source.data && (!Done() ==> trunk.data != source.data)
      modifies this, source`pos, if state == ExtractFromStream then {trunk.data} else {}
      ensures source.Valid() && (!ok ==> f([]) == Bad)
      ensures ok ==> Inv() && Reached(f, source, maxLen)
      ensures ok && !Done() ==> trunk.data != source.data
      ensures ok && !Done() && moreBytesNeeded ==> Waiting(f, source, evict)
      ensures ok && !moreBytesNeeded ==> Turns(state) < Turns(old(state))
      ensures ok && old(Done()) ==> state == old(state)
      ensures trunk.data == old(trunk.data) || trunk.data == inline || fresh(trunk.data)
              || (trunk.data == source.data && state == ExtractionComplete)
    {
      if InHeader() {
        ok := StepHeader(source, maxLen, f);
      } else {
        ok := true;
        StepPayloadStates(source, evict, maxLen, f);
      }
    }

    /** g2_packet_extract_from_stream_b. With f the verdicts of the one-shot reading of what the packet
        took earlier followed by what the buffer holds and then by what arrives next: the packet fails,
        completes or waits exactly as f says, and one that waits still agrees with f. */
    method Extract(source: Buffer, maxLen: nat, evict: bool, ghost f: seq<byte> -> Reading) returns (ok: bool)
      requires source.Valid() && Inv() && !Done() && Agrees(f, At(), source.Unread(), maxLen)
      requires trunk.data != source.data && inline != source.data
      modifies this, source`pos, inline, trunk.data
      ensures source.Valid()
      ensures !ok ==> f([]) == Bad
      ensures ok ==> Inv()
      ensures ok && Done() ==> f([]) == Got(Raw(header, trunk.Unread()), source.Unread())
      ensures ok && !Done() ==> f([]).More? && Agrees(f, At(), source.Unread(), maxLen)
                                && trunk.data != source.data && Waiting(f, source, evict)
      ensures trunk.data == old(trunk.data) || trunk.data == inline || fresh(trunk.data)
              || (trunk.data == source.data && Done())
    {
      moreBytesNeeded := false;
      ok := true;
      while ok && !moreBytesNeeded
        invariant source.Valid() && (!ok ==> f([]) == Bad)
        invariant ok ==> Inv() && Reached(f, source, maxLen)
        invariant ok && !Done() ==> trunk.data != source.data
        invariant trunk.data == old(trunk.data) || trunk.data == inline || fresh(trunk.data)
                  || (trunk.data == source.data && state == ExtractionComplete)
        invariant ok && moreBytesNeeded && !Done() ==> Waiting(f, source, evict)
        decreases ok, !moreBytesNeeded, Turns(state)
      {
        ok := Step(source, maxLen, evict, f);
      }
    }
  }

  lemma Verdicts(at: Progress, s: seq<byte>, maxLen: nat) returns (f: seq<byte> -> Reading)
    ensures Agrees(f, at, s, maxLen)
    ensures at.AtControl? && f([]).Got? ==> |f([]).rest| < |s|
  {
    f := t => Read(at, s + t, maxLen);
    AgreesNow(f, at, s, maxLen);
  }

  lemma PayloadMissing(f: seq<byte> -> Reading, h: Header, got: seq<byte>, u: seq<byte>, maxLen: nat)
    requires Agrees(f, AtPayload(h, got), u, maxLen) && |got| + |u| < h.length
    ensures f([]) == More(0)
  {
    AgreesNow(f, AtPayload(h, got), u, maxLen);
  }

  lemma PayloadHere(f: seq<byte> -> Reading, h: Header, got: seq<byte>, u: seq<byte>, rest: seq<byte>,
                    payload: seq<byte>, maxLen: nat)
    requires Agrees(f, AtPayload(h, got), u, maxLen)
    requires got + u == payload + rest && |payload| == h.length
    ensures f([]) == Got(Raw(h, payload), rest)
  {
    AgreesNow(f, AtPayload(h, got), u, maxLen);
    assert (got + u)[..h.length] == payload && (got + u)[h.length..] == rest;
  }
}
