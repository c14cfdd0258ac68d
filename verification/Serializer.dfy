/** Writing packets (G2PacketSerializer.c): the preparation pass that sizes a tree, and the resumable
    encoder that writes it into whatever room a target buffer offers. */
module Serializer {
  import opened Buffers
  import opened Options
  import opened Packets
  import Seqs

  datatype EncodeState =
    | DecideEncode | PreparedMin | Control | Length(nth: nat) | Type(nth: nat) | Prepared
    | BewareOfZero | SerializeDataPrep | SerializeData | EncodeFinished

  /** A packet to be sent. A literal packet carries its payload ready made in `data`. */
  datatype OutPacket = OutPacket(
    name: seq<byte>, bigEndian: bool, literal: bool, compound: bool, lengthLength: nat, length: nat,
    children: seq<OutPacket>, data: seq<byte>, state: EncodeState, moreBytesNeeded: bool)

  // ---------------------------------------------------------------------------------------------
  // What a packet means on the wire, prepared or not
  // ---------------------------------------------------------------------------------------------

  predicate HasKids(p: OutPacket) {
    !p.literal && p.children != []
  }

  function WireInner(p: OutPacket): (s: seq<byte>)
    decreases p, 1
  {
    if HasKids(p) then WireKids(p.children) + Tail(p.data) else p.data
  }

  function WireKids(ps: seq<OutPacket>): (s: seq<byte>)
    decreases ps, 0
  {
    if ps == [] then [] else Wire(ps[0]) + WireKids(ps[1..])
  }

  function WireCompound(p: OutPacket): bool {
    if p.literal then p.compound else p.children != []
  }

  function Wire(p: OutPacket): (s: seq<byte>)
    decreases p, 2
  {
    HeaderBytes(p.name, p.bigEndian, WireCompound(p), |WireInner(p)|) + WireInner(p)
  }

  /** Names come from an array of eight bytes. */
  predicate NamesFit(p: OutPacket)
    decreases p, 1
  {
    |p.name| <= 8 && KidsNamesFit(p.children)
  }

  predicate KidsNamesFit(ps: seq<OutPacket>)
    decreases ps, 0
  {
    ps == [] || (NamesFit(ps[0]) && KidsNamesFit(ps[1..]))
  }

  /** The trees that preparation accepts at a nesting depth of `recurs`. */
  ghost predicate Accepted(p: OutPacket, recurs: nat)
    decreases p, 1
  {
    recurs <= MAX_RECURSION && 1 <= |p.name| <= 8 && |WireInner(p)| <= MAX_INNER
    && (HasKids(p) ==> KidsAccepted(p.children, recurs + 1))
  }

  ghost predicate KidsAccepted(ps: seq<OutPacket>, recurs: nat)
    decreases ps, 0
  {
    ps == [] || (Accepted(ps[0], recurs) && KidsAccepted(ps[1..], recurs))
  }

  // ---------------------------------------------------------------------------------------------
  // Preparation
  // ---------------------------------------------------------------------------------------------

  /** The header fields agree with the payload, in this packet and all packets below it. */
  ghost predicate Ready(p: OutPacket)
    decreases p, 1
  {
    p.state == PreparedMin && 1 <= |p.name| <= 8 && p.length == |WireInner(p)| && p.length <= MAX_INNER
    && p.lengthLength == LengthLength(p.length) && p.compound == WireCompound(p)
    && (HasKids(p) ==> KidsReady(p.children))
  }

  ghost predicate KidsReady(ps: seq<OutPacket>)
    decreases ps, 0
  {
    ps == [] || (Ready(ps[0]) && KidsReady(ps[1..]))
  }

  lemma ReadyWire(p: OutPacket)
    requires Ready(p)
    ensures |Wire(p)| == 1 + p.lengthLength + |p.name| + p.length >= 2
  {
  }

  lemma {:induction false} ReadyAppend(ps: seq<OutPacket>, p: OutPacket)
    requires KidsReady(ps) && Ready(p)
    ensures KidsReady(ps + [p])
  {
    if ps != [] {
      ReadyAppend(ps[1..], p);
      assert (ps + [p])[1..] == ps[1..] + [p];
    }
  }

  lemma {:induction false} WireKidsAppend(ps: seq<OutPacket>, p: OutPacket)
    ensures WireKids(ps + [p]) == WireKids(ps) + Wire(p)
  {
    if ps != [] {
      WireKidsAppend(ps[1..], p);
      assert (ps + [p])[1..] == ps[1..] + [p];
    } else {
      assert ps + [p] == [p] && [p][1..] == [];
    }
  }

  lemma {:induction false} WireKidsNonEmpty(ps: seq<OutPacket>, recurs: nat)
    requires ps != [] && KidsAccepted(ps, recurs)
    ensures WireKids(ps) != []
  {
  }

  /** What is known of the children prepared so far. */
  ghost predicate PreparedSoFar(before: seq<OutPacket>, after: seq<OutPacket>, size: nat)
  {
    KidsReady(after) && WireKids(after) == WireKids(before) && size == |WireKids(before)|
    && |after| == |before|
  }

  lemma PreparedOneMore(before: seq<OutPacket>, after: seq<OutPacket>, size: nat, p: OutPacket, q: OutPacket)
    requires PreparedSoFar(before, after, size) && Ready(q) && Wire(q) == Wire(p)
    ensures PreparedSoFar(before + [p], after + [q], size + |Wire(p)|)
  {
    ReadyAppend(after, q);
    WireKidsAppend(after, q);
    WireKidsAppend(before, p);
  }

  lemma {:induction false} KidsAcceptedAt(ps: seq<OutPacket>, recurs: nat, i: nat)
    requires i < |ps|
    ensures KidsAccepted(ps, recurs) ==> Accepted(ps[i], recurs) && KidsAccepted(ps[i + 1..], recurs)
    ensures KidsNamesFit(ps) ==> NamesFit(ps[i])
    ensures KidsAccepted(ps, recurs) ==> KidsAccepted(ps[..i], recurs)
  {
    if i > 0 {
      KidsAcceptedAt(ps[1..], recurs, i - 1);
      assert ps[1..][i..] == ps[i + 1..];
      assert ps[..i][1..] == ps[1..][..i - 1];
    }
  }

  lemma {:induction false} KidsAcceptedAppend(ps: seq<OutPacket>, p: OutPacket, recurs: nat)
    requires KidsAccepted(ps, recurs) && Accepted(p, recurs)
    ensures KidsAccepted(ps + [p], recurs)
  {
    if ps != [] {
      KidsAcceptedAppend(ps[1..], p, recurs);
      assert (ps + [p])[1..] == ps[1..] + [p];
    } else {
      assert (ps + [p])[1..] == [];
    }
  }

  lemma PreparedNext(ps: seq<OutPacket>, i: nat, recurs: nat, qs: seq<OutPacket>, size: nat, q: OutPacket)
    requires i < |ps| && PreparedSoFar(ps[..i], qs, size) && KidsAccepted(ps[..i], recurs) && Accepted(ps[i], recurs)
    requires Ready(q) && Wire(q) == Wire(ps[i])
    ensures PreparedSoFar(ps[..i + 1], qs + [q], size + |Wire(ps[i])|) && KidsAccepted(ps[..i + 1], recurs)
  {
    var before, p := ps[..i], ps[i];
    PreparedOneMore(before, qs, size, p, q);
    KidsAcceptedAppend(before, p, recurs);
    Seqs.TakeNext(ps, i);
  }

  /** The loop of g2_packet_serialize_prep_internal over the children. */
  method PrepKids(ps: seq<OutPacket>, recurs: nat) returns (ok: bool, qs: seq<OutPacket>, size: nat)
    requires KidsNamesFit(ps)
    ensures ok <==> KidsAccepted(ps, recurs)
    ensures ok ==> PreparedSoFar(ps, qs, size)
    decreases ps, 0
  {
    qs, size := [], 0;
    var i := 0;
    while i < |ps|
      invariant 0 <= i <= |ps| && PreparedSoFar(ps[..i], qs, size) && KidsAccepted(ps[..i], recurs)
    {
      KidsAcceptedAt(ps, recurs, i);
      var r := Prep(ps[i], recurs);
      if r.None? {
        return false, [], 0;
      }
      PreparedNext(ps, i, recurs, qs, size, r.value.0);
      qs, size := qs + [r.value.0], size + r.value.1;
      i := i + 1;
    }
    assert ps[..i] == ps;
    ok := true;
  }

  /** g2_packet_serialize_prep_min. Succeeds exactly on the accepted trees; the size it returns is the
      number of bytes of the wire form, and the packet it leaves is ready to be written. */
  method Prep(p: OutPacket, recurs: nat) returns (r: Option<(OutPacket, nat)>)
    requires NamesFit(p)
    ensures r.Some? <==> Accepted(p, recurs)
    ensures r.Some? ==> Ready(r.value.0) && r.value.1 == |Wire(p)| && Wire(r.value.0) == Wire(p)
    ensures r.Some? ==> HasKids(r.value.0) == HasKids(p) && r.value.0.data == p.data
    decreases p, 1
  {
    if recurs > MAX_RECURSION {
      return None;
    }
    var q := p;
    var size, childSize := 0, 0;
    if !p.literal {
      if p.children != [] {
        var ok, kids, n := PrepKids(p.children, recurs + 1);
        if !ok {
          return None;
        }
        WireKidsNonEmpty(p.children, recurs + 1);
        childSize := n;
        q := q.(compound := true, children := kids);
        size := childSize;
      } else {
        q := q.(compound := false);
      }
    }
    if p.data != [] {
      size := size + if size != 0 then 1 else 0;
      size := size + |p.data|;
    }
    assert size == |WireInner(p)|;
    if size > MAX_INNER {
      var difference := size - childSize;
      if difference == 0 || difference >= |p.data| {
        return None;
      }
      // the data alone never falls short of the difference, so no oversized packet is ever cut down
      assert false;
    }
    if |p.name| == 0 {
      return None;
    }
    q := q.(length := size, lengthLength := LengthLength(size), state := PreparedMin);
    assert WireInner(q) == WireInner(p);
    return Some((q, size + q.lengthLength + |q.name| + 1));
  }

  // ---------------------------------------------------------------------------------------------
  // What is still to be written
  // ---------------------------------------------------------------------------------------------

  /** The fields the header is written from. */
  predicate HeaderSet(p: OutPacket) {
    1 <= |p.name| <= 8 && p.length <= MAX_INNER && p.lengthLength <= 3
  }

  function HeaderOf(p: OutPacket): (s: seq<byte>)
    requires HeaderSet(p)
    ensures |s| == 1 + p.lengthLength + |p.name|
  {
    [ControlByte(p.lengthLength, |p.name|, p.bigEndian, p.compound)]
    + LengthBytes(p.length, p.lengthLength, p.bigEndian) + p.name
  }

  predicate InHeader(p: OutPacket) {
    p.state == PreparedMin || p.state == Control || p.state.Length? || p.state.Type? || p.state == Prepared
  }

  /** How many header bytes have been written. */
  function HeaderDone(p: OutPacket): (n: nat)
    requires HeaderSet(p)
    ensures n <= 1 + p.lengthLength + |p.name|
  {
    match p.state
    case PreparedMin => 0
    case Control => 0
    case Length(nth) => 1 + if nth == 0 then 0 else Min(nth - 1, p.lengthLength)
    case Type(nth) => 1 + p.lengthLength + if nth == 0 then 0 else Min(nth - 1, |p.name|)
    case _ => 1 + p.lengthLength + |p.name|
  }

  ghost function Head(p: OutPacket): (s: seq<byte>)
    requires HeaderSet(p)
  {
    HeaderOf(p)[HeaderDone(p)..]
  }

  ghost function Body(p: OutPacket): (s: seq<byte>) {
    if InHeader(p) then WireInner(p) else AfterKids(p.state, p.data)
  }

  ghost function AfterKids(state: EncodeState, data: seq<byte>): (s: seq<byte>) {
    if state == BewareOfZero then Tail(data) else if state == EncodeFinished then [] else data
  }

  ghost function Pending(p: OutPacket): (s: seq<byte>)
    requires HeaderSet(p)
  {
    Head(p) + Body(p)
  }

  /** A packet the encoder can be called with. */
  ghost predicate Going(p: OutPacket) {
    HeaderSet(p) && p.state != DecideEncode
    && (p.state.Length? ==> 1 <= p.state.nth <= 3) && (p.state.Type? ==> 1 <= p.state.nth <= 8)
    && (HasKids(p) && InHeader(p) ==> KidsReady(p.children))
  }

  lemma ReadyPending(p: OutPacket)
    requires Ready(p)
    ensures Going(p) && Pending(p) == Wire(p)
  {
  }

  /** `after` is `before` with s written at pos. */
  ghost predicate Wrote(before: seq<byte>, after: seq<byte>, pos: nat, s: seq<byte>) {
    pos + |s| <= |before| && after == before[..pos] + s + before[pos + |s|..]
  }

  lemma WroteNothing(a: seq<byte>, pos: nat)
    requires pos <= |a|
    ensures Wrote(a, a, pos, [])
  {
  }

  lemma WroteBoth(a: seq<byte>, b: seq<byte>, c: seq<byte>, pos: nat, s: seq<byte>, t: seq<byte>)
    requires Wrote(a, b, pos, s) && Wrote(b, c, pos + |s|, t)
    ensures Wrote(a, c, pos, s + t)
  {
    assert b[..pos + |s|] == a[..pos] + s;
    assert b[pos + |s| + |t|..] == a[pos + |s| + |t|..];
  }

  // ---------------------------------------------------------------------------------------------
  // The encoder
  // ---------------------------------------------------------------------------------------------

  /** SERIALIZE_LENGTH1 to SERIALIZE_LENGTH3. */
  function LengthByte(p: OutPacket, nth: nat): (b: byte)
    requires HeaderSet(p) && 1 <= nth <= p.lengthLength
    ensures b == HeaderOf(p)[nth]
  {
    var low, middle, high := p.length % 256, p.length / 256 % 256, p.length / 65536 % 256;
    if nth == 1 then
      if !p.bigEndian then low
      else if p.lengthLength == 1 then low else if p.lengthLength == 2 then middle else high
    else if nth == 2 then
      if !p.bigEndian then middle else if p.lengthLength == 2 then low else middle
    else if !p.bigEndian then high else low
  }

  /** The next header byte, if the state has one to write, and the state behind it. */
  method HeaderStep(p: OutPacket) returns (b: Option<byte>, next: EncodeState)
    requires Going(p) && InHeader(p) && p.state != Prepared
    ensures var q := p.(state := next);
            Going(q) && InHeader(q) && HeaderDone(q) == HeaderDone(p) + (if b.Some? then 1 else 0)
    ensures b.Some? ==> HeaderDone(p) < |HeaderOf(p)| && b.value == HeaderOf(p)[HeaderDone(p)]
    ensures Rank(next) < Rank(p.state)
  {
    b := None;
    match p.state
    case PreparedMin =>
      next := Control;
    case Control =>
      b := Some(ControlByte(p.lengthLength, |p.name|, p.bigEndian, p.compound));
      next := Length(1);
    case Length(nth) =>
      if p.lengthLength >= nth {
        b := Some(LengthByte(p, nth));
      }
      next := if nth < 3 then Length(nth + 1) else Type(1);
    case Type(nth) =>
      if |p.name| >= nth {
        b := Some(p.name[nth - 1]);
      }
      next := if nth < 8 then Type(nth + 1) else Prepared;
  }

  function Rank(s: EncodeState): (n: int) {
    match s
    case PreparedMin => 13
    case Control => 12
    case Length(nth) => 12 - nth
    case Type(nth) => 9 - nth
    case _ => 0
  }

  /** Writes src behind what has been written since `start`. */
  method Append(target: Buffer, src: seq<byte>, ghost before: seq<byte>, ghost start: nat, ghost s: seq<byte>)
    requires target.Valid() && target.pos == start + |s| && Wrote(before, target.data[..], start, s)
    requires |src| <= target.Remaining()
    modifies target`pos, target.data
    ensures target.Valid() && target.pos == start + |s + src| && Wrote(before, target.data[..], start, s + src)
  {
    ghost var middle := target.data[..];
    target.PutBlock(src);
    WroteBoth(before, middle, target.data[..], start, s, src);
  }

  /** Writes the next byte of h. */
  method PutNext(target: Buffer, b: byte, ghost before: seq<byte>, ghost start: nat, ghost h: seq<byte>,
                 ghost from: nat, ghost done: nat)
    requires target.Valid() && target.Remaining() > 0 && from <= done < |h| && h[done] == b
    requires target.pos == start + done - from && Wrote(before, target.data[..], start, h[from..done])
    modifies target`pos, target.data
    ensures target.Valid() && target.pos == start + done + 1 - from
    ensures Wrote(before, target.data[..], start, h[from..done + 1])
  {
    Append(target, [b], before, start, h[from..done]);
    assert h[from..done + 1] == h[from..done] + [b];
  }

  lemma HeaderStateOnly(p: OutPacket, state: EncodeState, more: bool)
    requires HeaderSet(p)
    ensures var q := p.(state := state, moreBytesNeeded := more);
            HeaderSet(q) && HeaderOf(q) == HeaderOf(p) && WireInner(q) == WireInner(p)
  {
  }

  /** Bytes from..done of the header h have been written since start. */
  ghost predicate HeaderWritten(h: seq<byte>, from: nat, done: nat, before: seq<byte>, after: seq<byte>, start: nat,
                                pos: nat) {
    from <= done <= |h| && pos == start + done - from && Wrote(before, after, start, h[from..done])
  }

  /** q is p at another point of its header h, done bytes of which are written. */
  ghost predicate AtHeader(p: OutPacket, q: OutPacket, h: seq<byte>, done: nat) {
    Going(q) && InHeader(q) && q == p.(state := q.state, moreBytesNeeded := q.moreBytesNeeded)
    && h == HeaderOf(q) && done == HeaderDone(q)
  }

  lemma HeaderMoves(p: OutPacket, q: OutPacket, h: seq<byte>, done: nat, q': OutPacket, done': nat)
    requires AtHeader(p, q, h, done) && q' == q.(state := q'.state, moreBytesNeeded := q'.moreBytesNeeded)
    requires Going(q') && InHeader(q') && done' == HeaderDone(q')
    ensures AtHeader(p, q', h, done')
  {
  }

  /** The next byte of the header h, if the state has one to write, and the packet behind it. */
  method HeaderNext(ghost p: OutPacket, q: OutPacket, ghost h: seq<byte>, ghost done: nat)
      returns (b: Option<byte>, q': OutPacket)
    requires AtHeader(p, q, h, done) && q.state != Prepared && !q.moreBytesNeeded
    ensures AtHeader(p, q', h, done + (if b.Some? then 1 else 0)) && !q'.moreBytesNeeded
            && Rank(q'.state) < Rank(q.state)
    ensures b.Some? ==> done < |h| && b.value == h[done]
  {
    var next;
    b, next := HeaderStep(q);
    q' := q.(state := next);
    HeaderMoves(p, q, h, done, q', HeaderDone(q'));
  }

  lemma HeaderWaits(p: OutPacket, q: OutPacket, h: seq<byte>, done: nat)
    requires AtHeader(p, q, h, done)
    ensures AtHeader(p, q.(moreBytesNeeded := true), h, done)
  {
    HeaderMoves(p, q, h, done, q.(moreBytesNeeded := true), done);
  }

  /** Between two of the header states. */
  ghost predicate MidHeader(p: OutPacket, q: OutPacket, h: seq<byte>, from: nat, done: nat, before: seq<byte>,
                            after: seq<byte>, start: nat, pos: nat, limit: nat) {
    AtHeader(p, q, h, done) && HeaderWritten(h, from, done, before, after, start, pos)
    && (q.moreBytesNeeded ==> done < |h| && pos == limit)
  }

  /** One header state. */
  method HeaderTurn(ghost p: OutPacket, q: OutPacket, target: Buffer, ghost before: seq<byte>, ghost start: nat,
                    ghost h: seq<byte>, ghost from: nat, ghost done: nat) returns (q': OutPacket, ghost done': nat)
    requires q.state != Prepared && !q.moreBytesNeeded && target.Valid()
    requires MidHeader(p, q, h, from, done, before, target.data[..], start, target.pos, target.limit)
    modifies target`pos, target.data
    ensures target.Valid() && (q'.moreBytesNeeded || Rank(q'.state) < Rank(q.state))
    ensures MidHeader(p, q', h, from, done', before, target.data[..], start, target.pos, target.limit)
  {
    var b, next := HeaderNext(p, q, h, done);
    if b.None? {
      return next, done;
    }
    if target.Remaining() == 0 {
      HeaderWaits(p, q, h, done);
      return q.(moreBytesNeeded := true), done;
    }
    PutNext(target, b.value, before, start, h, from, done);
    return next, done + 1;
  }

  /** What the header states do with the room from start to limit. */
  ghost predicate HeaderOutcome(p: OutPacket, q: OutPacket, before: seq<byte>, after: seq<byte>, start: nat, pos: nat,
                                limit: nat)
    requires Going(p)
  {
    q == p.(state := q.state, moreBytesNeeded := q.moreBytesNeeded)
    && Going(q) && InHeader(q) && HeaderDone(p) <= HeaderDone(q) && pos == start + HeaderDone(q) - HeaderDone(p)
    && Wrote(before, after, start, HeaderOf(p)[HeaderDone(p)..HeaderDone(q)])
    && if q.moreBytesNeeded then HeaderDone(q) < |HeaderOf(p)| && pos == limit else q.state == Prepared
  }

  lemma HeaderOutcomeIs(p: OutPacket, q: OutPacket, h: seq<byte>, from: nat, done: nat, before: seq<byte>,
                        after: seq<byte>, start: nat, pos: nat, limit: nat)
    requires Going(p) && h == HeaderOf(p) && from == HeaderDone(p) && (q.moreBytesNeeded || q.state == Prepared)
    requires MidHeader(p, q, h, from, done, before, after, start, pos, limit)
    ensures HeaderOutcome(p, q, before, after, start, pos, limit)
  {
  }

  lemma HeaderBegins(p: OutPacket, h: seq<byte>, from: nat, before: seq<byte>, start: nat, limit: nat)
    requires Going(p) && InHeader(p) && h == HeaderOf(p) && from == HeaderDone(p) && start <= |before|
    ensures MidHeader(p, p.(moreBytesNeeded := false), h, from, from, before, before, start, start, limit)
  {
    WroteNothing(before, start);
    assert h[from..from] == [];
    HeaderMoves(p, p, h, from, p.(moreBytesNeeded := false), from);
  }

  /** The header states, up to the end of the header or of the room. */
  method EmitHeader(p: OutPacket, target: Buffer) returns (q: OutPacket)
    requires Going(p) && InHeader(p) && target.Valid()
    modifies target`pos, target.data
    ensures target.Valid()
    ensures HeaderOutcome(p, q, old(target.data[..]), target.data[..], old(target.pos), target.pos, target.limit)
  {
    q := p.(moreBytesNeeded := false);
    ghost var before, start, h, from := target.data[..], target.pos, HeaderOf(p), HeaderDone(p);
    ghost var done: nat := from;
    HeaderBegins(p, h, from, before, start, target.limit);
    while q.state != Prepared && !q.moreBytesNeeded
      invariant target.Valid() && MidHeader(p, q, h, from, done, before, target.data[..], start, target.pos,
                                            target.limit)
      decreases !q.moreBytesNeeded, Rank(q.state) + 20
    {
      q, done := HeaderTurn(p, q, target, before, start, h, from, done);
    }
    HeaderOutcomeIs(p, q, h, from, done, before, target.data[..], start, target.pos, target.limit);
  }

  /** SERIALIZE_DATA: as much of the data as fits. */
  method EmitData(p: OutPacket, target: Buffer) returns (q: OutPacket)
    requires p.state == SerializeData && target.Valid()
    modifies target`pos, target.data
    ensures target.Valid() && target.pos >= old(target.pos)
    ensures var k := target.pos - old(target.pos);
            k == Min(old(target.Remaining()), |p.data|)
            && Wrote(old(target.data[..]), target.data[..], old(target.pos), p.data[..k])
            && q == p.(data := p.data[k..], state := if k == |p.data| then EncodeFinished else SerializeData,
                       moreBytesNeeded := true)
  {
    var len := if |p.data| < target.Remaining() then |p.data| else target.Remaining();
    Append(target, p.data[..len], target.data[..], target.pos, []);
    assert [] + p.data[..len] == p.data[..len];
    q := p.(data := p.data[len..]);
    if |q.data| == 0 {
      q := q.(state := EncodeFinished);
    }
    q := q.(moreBytesNeeded := true);
  }

  /** BEWARE_OF_ZERO and SERIALIZE_DATA_PREP: the terminator, if children came before and data follows. */
  method EmitZero(p: OutPacket, target: Buffer) returns (q: OutPacket)
    requires (p.state == BewareOfZero || p.state == SerializeDataPrep) && target.Valid()
    modifies target`pos, target.data
    ensures target.Valid() && target.pos >= old(target.pos)
    ensures if p.data == []
            then q == p.(moreBytesNeeded := true, state := EncodeFinished) && unchanged(target, target.data)
            else if p.state == SerializeDataPrep then q == p.(state := SerializeData) && unchanged(target, target.data)
            else if old(target.Remaining()) == 0 then q == p.(moreBytesNeeded := true) && unchanged(target, target.data)
            else q == p.(state := SerializeData) && target.pos == old(target.pos) + 1
                 && Wrote(old(target.data[..]), target.data[..], old(target.pos), [0])
  {
    if p.data == [] {
      q := p.(moreBytesNeeded := true, state := EncodeFinished);
    } else if p.state == BewareOfZero && target.Remaining() == 0 {
      q := p.(moreBytesNeeded := true);
    } else {
      if p.state == BewareOfZero {
        target.Put(0);
      }
      q := p.(state := SerializeData);
    }
  }

  predicate BehindKids(state: EncodeState) {
    state == BewareOfZero || state == SerializeDataPrep || state == SerializeData || state == EncodeFinished
  }

  /** Taking k more bytes of what follows the children leads from (state, data) to (state', data'). */
  ghost predicate TailTaken(state: EncodeState, data: seq<byte>, k: nat, state': EncodeState, data': seq<byte>) {
    BehindKids(state') && k <= |AfterKids(state, data)| && AfterKids(state', data') == AfterKids(state, data)[k..]
    && (state' == EncodeFinished <==> AfterKids(state', data') == [])
  }

  lemma TailSlices(data: seq<byte>, k: nat)
    requires k <= |data|
    ensures ([0] + data)[..k + 1] == [0] + data[..k] && ([0] + data)[k + 1..] == data[k..]
    ensures data[0..] == data && ([0] + data)[0..] == [0] + data
  {
  }

  /** What writing s into the room from start to limit leaves in the target: s, or as much as fits. */
  ghost predicate Filled(s: seq<byte>, before: seq<byte>, after: seq<byte>, start: nat, pos: nat, limit: nat) {
    start <= pos && pos - start == Min(limit - start, |s|) && Wrote(before, after, start, s[..pos - start])
  }

  /** What the states behind the children do to packet and target, given room from start to limit. */
  ghost predicate TailOutcome(p: OutPacket, q: OutPacket, before: seq<byte>, after: seq<byte>, start: nat, pos: nat,
                              limit: nat)
  {
    q == p.(data := q.data, state := q.state, moreBytesNeeded := true)
    && Filled(AfterKids(p.state, p.data), before, after, start, pos, limit)
    && TailTaken(p.state, p.data, pos - start, q.state, q.data)
  }

  lemma TailStays(p: OutPacket, q: OutPacket, before: seq<byte>, start: nat, limit: nat)
    requires start <= limit && start <= |before| && BehindKids(p.state)
    requires q == p.(state := q.state, moreBytesNeeded := true)
    requires if AfterKids(p.state, p.data) == [] then q.state == EncodeFinished
             else start == limit && q.state == p.state
    ensures TailOutcome(p, q, before, before, start, start, limit)
  {
    WroteNothing(before, start);
    TailSlices(p.data, 0);
  }

  /** The terminator, if there has to be one, and the data. */
  method EmitZeroAndData(p: OutPacket, target: Buffer) returns (q: OutPacket)
    requires (p.state == BewareOfZero || p.state == SerializeDataPrep) && target.Valid()
    modifies target`pos, target.data
    ensures target.Valid()
    ensures TailOutcome(p, q, old(target.data[..]), target.data[..], old(target.pos), target.pos, target.limit)
  {
    ghost var before, start := target.data[..], target.pos;
    q := EmitZero(p, target);
    if q.state == SerializeData {
      q := EmitDataAfter(p, q, target, before, start);
    } else {
      TailStays(p, q, before, start, target.limit);
    }
  }

  /** The states behind the children. */
  method EmitTail(p: OutPacket, target: Buffer) returns (q: OutPacket)
    requires BehindKids(p.state) && target.Valid()
    modifies target`pos, target.data
    ensures target.Valid()
    ensures TailOutcome(p, q, old(target.data[..]), target.data[..], old(target.pos), target.pos, target.limit)
  {
    ghost var before, start := target.data[..], target.pos;
    if p.state == EncodeFinished {
      q := p.(moreBytesNeeded := true);
      TailStays(p, q, before, start, target.limit);
    } else if p.state == SerializeData {
      q := EmitDataAfter(p, p, target, before, start);
    } else {
      q := EmitZeroAndData(p, target);
    }
  }

  /** Data written right away. */
  lemma PlainData(p: OutPacket, q: OutPacket, before: seq<byte>, after: seq<byte>, start: nat, pos: nat, limit: nat,
                  k: nat)
    requires AfterKids(p.state, p.data) == p.data && start <= limit && pos == start + k
             && k == Min(limit - start, |p.data|)
    requires Wrote(before, after, start, p.data[..k])
    requires q == p.(data := p.data[k..], state := if k == |p.data| then EncodeFinished else SerializeData,
                     moreBytesNeeded := true)
    ensures TailOutcome(p, q, before, after, start, pos, limit)
  {
  }

  /** Data written behind the terminator. */
  lemma DataBehindZero(p: OutPacket, q: OutPacket, before: seq<byte>, middle: seq<byte>, after: seq<byte>, start: nat,
                       pos: nat, limit: nat, k: nat)
    requires p.state == BewareOfZero && p.data != [] && start < limit && pos == start + 1 + k
    requires k == Min(limit - start - 1, |p.data|) && Wrote(before, middle, start, [0])
             && Wrote(middle, after, start + 1, p.data[..k])
    requires q == p.(data := p.data[k..], state := if k == |p.data| then EncodeFinished else SerializeData,
                     moreBytesNeeded := true)
    ensures TailOutcome(p, q, before, after, start, pos, limit)
  {
    WroteBoth(before, middle, after, start, [0], p.data[..k]);
    TailSlices(p.data, k);
  }

  method EmitDataAfter(ghost p: OutPacket, p': OutPacket, target: Buffer, ghost before: seq<byte>, ghost start: nat)
      returns (q: OutPacket)
    requires p'.state == SerializeData && p' == p.(state := SerializeData) && target.Valid()
    requires if p.state == BewareOfZero
             then p.data != [] && target.pos == start + 1 && Wrote(before, target.data[..], start, [0])
             else AfterKids(p.state, p.data) == p.data && target.pos == start && target.data[..] == before
    modifies target`pos, target.data
    ensures target.Valid() && TailOutcome(p, q, before, target.data[..], start, target.pos, target.limit)
  {
    ghost var middle, mid := target.data[..], target.pos;
    q := EmitData(p', target);
    if p.state == BewareOfZero {
      DataBehindZero(p, q, before, middle, target.data[..], start, target.pos, target.limit, target.pos - mid);
    } else {
      PlainData(p, q, before, target.data[..], start, target.pos, target.limit, target.pos - mid);
    }
  }

  /** The stop inside the children: the header fits the room, the children do not. */
  ghost predicate Loses(p: OutPacket, room: nat)
    requires HeaderSet(p)
  {
    InHeader(p) && HasKids(p) && |Head(p)| <= room < |Head(p)| + |WireKids(p.children)|
  }

  /** A call with `room` bytes of room for the pending bytes s writes k bytes and leaves q; if children are
      lost it goes on with what follows them. */
  ghost predicate Leaves(s: seq<byte>, lost: bool, data: seq<byte>, room: nat, k: nat, q: OutPacket) {
    k == Min(room, |s|) && Going(q) && Pending(q) == (if lost then Tail(data) else s[k..])
    && (q.state == EncodeFinished <==> Pending(q) == [])
    && (|s| <= room ==> q.state == EncodeFinished)
  }

  /** One call with `room` bytes of room writes k bytes and leaves q. A packet stopped inside its
      children does not come back to them, and one whose header is out does not come back to that. */
  ghost predicate Emitted(p: OutPacket, room: nat, k: nat, q: OutPacket)
    requires HeaderSet(p)
  {
    Leaves(Pending(p), Loses(p, room), p.data, room, k, q) && (HasKids(q) ==> HasKids(p))
    && HeaderOut(p, room, q)
  }

  ghost predicate HeaderOut(p: OutPacket, room: nat, q: OutPacket)
    requires HeaderSet(p)
  {
    |Head(p)| <= room ==> !InHeader(q)
  }

  lemma FilledBoth(s: seq<byte>, t: seq<byte>, a: seq<byte>, b: seq<byte>, c: seq<byte>, start: nat, mid: nat, pos: nat,
                   limit: nat)
    requires start <= limit && Filled(s, a, b, start, mid, limit) && Filled(t, b, c, mid, pos, limit)
    ensures Filled(s + t, a, c, start, pos, limit)
  {
    var n, m := mid - start, pos - mid;
    WroteBoth(a, b, c, start, s[..n], t[..m]);
    assert (s + t)[..n + m] == s[..n] + t[..m];
  }

  lemma FilledNothing(a: seq<byte>, start: nat, limit: nat)
    requires start <= limit && start <= |a|
    ensures Filled([], a, a, start, start, limit)
  {
    WroteNothing(a, start);
  }

  lemma FilledStop(s: seq<byte>, t: seq<byte>, a: seq<byte>, b: seq<byte>, start: nat, pos: nat, limit: nat)
    requires start <= limit && Filled(s, a, b, start, pos, limit) && limit - start < |s|
    ensures Filled(s + t, a, b, start, pos, limit)
  {
    assert (s + t)[..pos - start] == s[..pos - start];
  }

  /** One call of the encoder, with room from start to limit. */
  ghost predicate CallOutcome(p: OutPacket, q: OutPacket, before: seq<byte>, after: seq<byte>, start: nat, pos: nat,
                              limit: nat)
    requires HeaderSet(p)
  {
    start <= limit && Filled(Pending(p), before, after, start, pos, limit) && Emitted(p, limit - start, pos - start, q)
  }

  lemma {:induction false} WireKidsSplit(ps: seq<OutPacket>, i: nat)
    requires i < |ps|
    ensures WireKids(ps[i..]) == Wire(ps[i]) + WireKids(ps[i + 1..])
    ensures WireKids(ps[..i + 1]) == WireKids(ps[..i]) + Wire(ps[i])
  {
    assert ps[i..][1..] == ps[i + 1..];
    assert ps[..i + 1] == ps[..i] + [ps[i]];
    WireKidsAppend(ps[..i], ps[i]);
  }

  lemma {:induction false} WireKidsPrefix(ps: seq<OutPacket>, i: nat)
    requires i <= |ps|
    ensures WireKids(ps) == WireKids(ps[..i]) + WireKids(ps[i..])
  {
    if i > 0 {
      WireKidsPrefix(ps, i - 1);
      WireKidsSplit(ps, i - 1);
    } else {
      assert ps[..0] == [] && ps[0..] == ps;
    }
  }

  lemma {:induction false} KidsReadyAt(ps: seq<OutPacket>, i: nat)
    requires i < |ps| && KidsReady(ps)
    ensures Ready(ps[i]) && |Wire(ps[i])| >= 2
  {
    if i > 0 {
      KidsReadyAt(ps[1..], i - 1);
    } else {
      ReadyWire(ps[0]);
    }
  }

  lemma FilledOneMore(s: seq<byte>, w: seq<byte>, t: seq<byte>, a: seq<byte>, b: seq<byte>, c: seq<byte>,
                      start: nat, mid: nat, pos: nat, limit: nat, finished: bool)
    requires start <= limit && mid <= limit && Filled(s, a, b, start, mid, limit) && Filled(w, b, c, mid, pos, limit)
    requires !finished ==> limit - mid < |w|
    ensures Filled(s + w, a, c, start, pos, limit)
    ensures !finished ==> Filled(s + w + t, a, c, start, pos, limit)
  {
    FilledBoth(s, w, a, b, c, start, mid, pos, limit);
    if !finished {
      FilledStop(s + w, t, a, c, start, pos, limit);
    }
  }

  method EmitKid(p: OutPacket, target: Buffer) returns (finished: bool)
    requires Ready(p) && target.Valid()
    modifies target`pos, target.data
    ensures target.Valid()
    ensures Filled(Wire(p), old(target.data[..]), target.data[..], old(target.pos), target.pos, target.limit)
    ensures !finished ==> target.limit - old(target.pos) < |Wire(p)|
    decreases p, 2
  {
    ReadyPending(p);
    var child := SerializePrepared(p, target);
    finished := child.state == EncodeFinished;
  }

  /** One more child written, or what fitted of it. */
  lemma KidsFilled(ps: seq<OutPacket>, i: nat, a: seq<byte>, b: seq<byte>, c: seq<byte>, start: nat, mid: nat, pos: nat,
                   limit: nat, finished: bool)
    requires i < |ps| && start <= limit && mid <= limit && Filled(WireKids(ps[..i]), a, b, start, mid, limit)
    requires Filled(Wire(ps[i]), b, c, mid, pos, limit) && (!finished ==> limit - mid < |Wire(ps[i])|)
    ensures Filled(WireKids(ps[..i + 1]), a, c, start, pos, limit)
    ensures !finished ==> Filled(WireKids(ps), a, c, start, pos, limit)
  {
    WireKidsSplit(ps, i);
    WireKidsPrefix(ps, i + 1);
    FilledOneMore(WireKids(ps[..i]), Wire(ps[i]), WireKids(ps[i + 1..]), a, b, c, start, mid, pos, limit, finished);
  }

  /** SERIALIZE_CHILDREN: the children are written and freed one after the other until one of them does
      not finish. */
  method EmitKids(ps: seq<OutPacket>, target: Buffer)
    requires KidsReady(ps) && target.Valid()
    modifies target`pos, target.data
    ensures target.Valid()
    ensures Filled(WireKids(ps), old(target.data[..]), target.data[..], old(target.pos), target.pos, target.limit)
    decreases ps, 0
  {
    var i := 0;
    ghost var before, start := target.data[..], target.pos;
    assert ps[..0] == [];
    FilledNothing(before, start, target.limit);
    while i < |ps|
      invariant target.Valid() && i <= |ps|
      invariant Filled(WireKids(ps[..i]), before, target.data[..], start, target.pos, target.limit)
    {
      KidsReadyAt(ps, i);
      ghost var middle, mid := target.data[..], target.pos;
      var finished := EmitKid(ps[i], target);
      KidsFilled(ps, i, before, middle, target.data[..], start, mid, target.pos, target.limit, finished);
      if !finished {
        return;
      }
      i := i + 1;
    }
    assert ps[..i] == ps;
  }

  lemma TailPending(p: OutPacket)
    requires HeaderSet(p) && BehindKids(p.state)
    ensures Going(p) && Pending(p) == AfterKids(p.state, p.data)
  {
    assert Head(p) == [];
  }

  lemma TailEmitted(p: OutPacket, q: OutPacket, before: seq<byte>, after: seq<byte>, start: nat, pos: nat, limit: nat)
    requires HeaderSet(p) && BehindKids(p.state) && start <= limit
             && TailOutcome(p, q, before, after, start, pos, limit)
    ensures CallOutcome(p, q, before, after, start, pos, limit)
  {
    TailLeaves(p, q, limit - start, pos - start);
    TailPending(p);
    OutcomeIs(p, q, before, after, start, pos, limit);
  }

  lemma OutcomeIs(p: OutPacket, q: OutPacket, before: seq<byte>, after: seq<byte>, start: nat, pos: nat, limit: nat)
    requires HeaderSet(p) && start <= limit && Filled(Pending(p), before, after, start, pos, limit)
    requires Emitted(p, limit - start, pos - start, q)
    ensures CallOutcome(p, q, before, after, start, pos, limit)
  {
  }

  lemma TailLeaves(p: OutPacket, q: OutPacket, room: nat, k: nat)
    requires HeaderSet(p) && BehindKids(p.state) && q == p.(data := q.data, state := q.state, moreBytesNeeded := true)
    requires k == Min(room, |AfterKids(p.state, p.data)|) && TailTaken(p.state, p.data, k, q.state, q.data)
    ensures Emitted(p, room, k, q)
  {
    TailPending(p);
    TailPending(q);
    assert Pending(q) == Pending(p)[k..];
  }

  lemma HeaderStopped(p: OutPacket, q: OutPacket, before: seq<byte>, after: seq<byte>, start: nat, pos: nat, limit: nat)
    requires Going(p) && InHeader(p) && HeaderOutcome(p, q, before, after, start, pos, limit) && q.moreBytesNeeded
             && start <= limit
    ensures CallOutcome(p, q, before, after, start, pos, limit)
  {
    HeaderStateOnly(p, q.state, q.moreBytesNeeded);
    var k := pos - start;
    assert Head(p)[..k] == HeaderOf(p)[HeaderDone(p)..HeaderDone(q)] && Head(p)[k..] == Head(q);
    assert Pending(p)[..k] == Head(p)[..k] && Pending(p)[k..] == Head(p)[k..] + Body(p);
  }

  lemma HeaderPassed(p: OutPacket, q: OutPacket, before: seq<byte>, after: seq<byte>, start: nat, pos: nat, limit: nat)
    requires Going(p) && InHeader(p) && HeaderOutcome(p, q, before, after, start, pos, limit) && !q.moreBytesNeeded
    ensures q == p.(state := Prepared, moreBytesNeeded := false)
    ensures pos == start + |Head(p)| && Wrote(before, after, start, Head(p))
    ensures HasKids(q) ==> KidsReady(q.children)
  {
  }

  /** What a packet whose header is written does with the room from start to limit. */
  ghost predicate InnerOutcome(h: OutPacket, q: OutPacket, before: seq<byte>, after: seq<byte>, start: nat, pos: nat,
                               limit: nat)
  {
    Filled(WireInner(h), before, after, start, pos, limit) && start <= limit
    && InnerTaken(h, q, limit - start, pos - start)
  }

  /** What it leaves, when `taken` of its bytes have gone into the room. */
  ghost predicate InnerTaken(h: OutPacket, q: OutPacket, room: nat, taken: nat) {
    taken == Min(room, |WireInner(h)|)
    && q == h.(data := q.data, state := q.state, moreBytesNeeded := true) && BehindKids(q.state)
    && (q.state == EncodeFinished <==> AfterKids(q.state, q.data) == [])
    && AfterKids(q.state, q.data)
       == if HasKids(h) && room < |WireKids(h.children)| then Tail(h.data) else WireInner(h)[taken..]
  }

  lemma InnerWithKids(h: OutPacket, q: OutPacket, b: seq<byte>, c: seq<byte>, d: seq<byte>, m: nat, n: nat, pos: nat,
                      limit: nat)
    requires HasKids(h) && m <= limit && n <= limit && Filled(WireKids(h.children), b, c, m, n, limit)
    requires TailOutcome(h.(state := BewareOfZero), q, c, d, n, pos, limit)
    ensures InnerOutcome(h, q, b, d, m, pos, limit)
  {
    var kids, tail := WireKids(h.children), Tail(h.data);
    FilledBoth(kids, tail, b, c, d, m, n, pos, limit);
    assert WireInner(h) == kids + tail;
    if |kids| <= limit - m {
      assert (kids + tail)[pos - m..] == tail[pos - n..];
    }
  }

  lemma InnerWithoutKids(h: OutPacket, q: OutPacket, b: seq<byte>, d: seq<byte>, m: nat, pos: nat, limit: nat)
    requires !HasKids(h) && m <= limit && TailOutcome(h.(state := SerializeDataPrep), q, b, d, m, pos, limit)
    ensures InnerOutcome(h, q, b, d, m, pos, limit)
  {
    assert WireInner(h) == h.data;
  }

  /** SERIALIZATION_PREPARED and what follows. */
  method SerializeInner(h: OutPacket, target: Buffer) returns (q: OutPacket)
    requires h.state == Prepared && (HasKids(h) ==> KidsReady(h.children)) && target.Valid()
    modifies target`pos, target.data
    ensures target.Valid()
    ensures InnerOutcome(h, q, old(target.data[..]), target.data[..], old(target.pos), target.pos, target.limit)
    decreases h.children
  {
    ghost var b, m := target.data[..], target.pos;
    if h.literal || h.children == [] {
      q := EmitTail(h.(state := SerializeDataPrep), target);
      InnerWithoutKids(h, q, b, target.data[..], m, target.pos, target.limit);
    } else {
      EmitKids(h.children, target);
      ghost var c, n := target.data[..], target.pos;
      q := EmitTail(h.(state := BewareOfZero), target);
      InnerWithKids(h, q, b, c, target.data[..], m, n, target.pos, target.limit);
    }
  }

  lemma HeadThenInner(head: seq<byte>, inner: seq<byte>, a: seq<byte>, b: seq<byte>, d: seq<byte>,
                      start: nat, m: nat, pos: nat, limit: nat)
    requires start <= m <= limit && m == start + |head|
    requires Wrote(a, b, start, head) && Filled(inner, b, d, m, pos, limit)
    ensures Filled(head + inner, a, d, start, pos, limit)
    ensures (head + inner)[pos - start..] == inner[pos - m..]
  {
    assert head[..|head|] == head;
    FilledBoth(head, inner, a, b, d, start, m, pos, limit);
  }

  /** The packet whose header is out, seen from its beginning. */
  lemma InnerLeaves(h: OutPacket, q: OutPacket, left: nat, taken: nat, s: seq<byte>, room: nat, k: nat, lost: bool)
    requires HeaderSet(h) && InnerTaken(h, q, left, taken)
    requires k <= |s| && s[k..] == WireInner(h)[taken..] && room - k == left - taken && k == Min(room, |s|)
    requires lost == (HasKids(h) && left < |WireKids(h.children)|)
    ensures Leaves(s, lost, h.data, room, k, q)
  {
    TailPending(q);
  }

  lemma LosesIff(p: OutPacket, room: nat, left: nat)
    requires HeaderSet(p) && InHeader(p) && room == |Head(p)| + left
    ensures Loses(p, room) == (HasKids(p) && left < |WireKids(p.children)|)
  {
  }

  lemma WholeEmitted(p: OutPacket, h: OutPacket, q: OutPacket, a: seq<byte>, b: seq<byte>, d: seq<byte>,
                     start: nat, m: nat, pos: nat, limit: nat, head: seq<byte>, inner: seq<byte>)
    requires HeaderSet(p) && InHeader(p) && start <= m <= limit && m == start + |head|
    requires h == p.(state := Prepared, moreBytesNeeded := h.moreBytesNeeded)
    requires head == Head(p) && inner == WireInner(p) == WireInner(h) && head + inner == Pending(p)
    requires Wrote(a, b, start, head) && Filled(inner, b, d, m, pos, limit) && InnerOutcome(h, q, b, d, m, pos, limit)
    ensures CallOutcome(p, q, a, d, start, pos, limit)
  {
    HeadThenInner(head, inner, a, b, d, start, m, pos, limit);
    WholeLeaves(p, h, q, limit - m, pos - m, head + inner, limit - start, pos - start);
  }

  lemma WholeLeaves(p: OutPacket, h: OutPacket, q: OutPacket, left: nat, taken: nat, s: seq<byte>, room: nat, k: nat)
    requires HeaderSet(p) && InHeader(p) && room == |Head(p)| + left && k == |Head(p)| + taken
    requires HeaderSet(h) && h.children == p.children && h.data == p.data && h.literal == p.literal
    requires InnerTaken(h, q, left, taken) && s == Pending(p) && k == Min(room, |s|) && s[k..] == WireInner(h)[taken..]
    ensures Emitted(p, room, k, q)
  {
    var lost := HasKids(p) && left < |WireKids(p.children)|;
    LosesIff(p, room, left);
    InnerLeaves(h, q, left, taken, s, room, k, lost);
    EmittedIs(p, q, s, lost, h.data, room, k);
  }

  lemma EmittedIs(p: OutPacket, q: OutPacket, s: seq<byte>, lost: bool, data: seq<byte>, room: nat, k: nat)
    requires HeaderSet(p) && s == Pending(p) && lost == Loses(p, room) && data == p.data
             && Leaves(s, lost, data, room, k, q)
    requires q.children == p.children && q.literal == p.literal && BehindKids(q.state)
    ensures Emitted(p, room, k, q)
  {
  }

  /** g2_packet_serialize_to_buff_p on a prepared packet. */
  method SerializePrepared(p: OutPacket, target: Buffer) returns (q: OutPacket)
    requires Going(p) && target.Valid()
    modifies target`pos, target.data
    ensures target.Valid()
    ensures CallOutcome(p, q, old(target.data[..]), target.data[..], old(target.pos), target.pos, target.limit)
    decreases p, 1
  {
    ghost var a, start := target.data[..], target.pos;
    if !InHeader(p) {
      q := EmitTail(p, target);
      TailEmitted(p, q, a, target.data[..], start, target.pos, target.limit);
    } else {
      q := SerializeWhole(p, target);
    }
  }

  method SerializeWhole(p: OutPacket, target: Buffer) returns (q: OutPacket)
    requires Going(p) && InHeader(p) && target.Valid()
    modifies target`pos, target.data
    ensures target.Valid()
    ensures CallOutcome(p, q, old(target.data[..]), target.data[..], old(target.pos), target.pos, target.limit)
    decreases p, 0
  {
    ghost var a, start := target.data[..], target.pos;
    var h := EmitHeader(p, target);
    ghost var b, m := target.data[..], target.pos;
    if h.moreBytesNeeded {
      q := h;
      HeaderStopped(p, h, a, b, start, m, target.limit);
    } else {
      HeaderPassed(p, h, a, b, start, m, target.limit);
      q := SerializeInner(h, target);
      HeaderStateOnly(p, h.state, h.moreBytesNeeded);
      WholeEmitted(p, h, q, a, b, target.data[..], start, m, target.pos, target.limit, Head(p), WireInner(p));
    }
  }

  /** g2_packet_serialize_to_buff: a packet nobody has prepared yet is prepared first. */
  method Serialize(p: OutPacket, target: Buffer) returns (ok: bool, q: OutPacket)
    requires p.state == DecideEncode && NamesFit(p) && target.Valid()
    modifies target`pos, target.data
    ensures target.Valid() && (ok <==> Accepted(p, 0))
    ensures !ok ==> q == p && unchanged(target, target.data)
    ensures ok ==> Filled(Wire(p), old(target.data[..]), target.data[..], old(target.pos), target.pos, target.limit)
    ensures ok && |Wire(p)| <= target.limit - old(target.pos) ==> q.state == EncodeFinished
  {
    var r := Prep(p, 0);
    if r.None? {
      return false, p;
    }
    ReadyPending(r.value.0);
    q := SerializePrepared(r.value.0, target);
    ok := true;
  }

  // ---------------------------------------------------------------------------------------------
  // Resuming
  // ---------------------------------------------------------------------------------------------

  /** A call leaves exactly the unwritten rest to be written, if and only if the room did not end inside
      the children. */
  lemma ResumesExactly(p: OutPacket, room: nat, k: nat, q: OutPacket)
    requires HeaderSet(p) && Emitted(p, room, k, q)
    ensures Pending(q) == Pending(p)[k..] <==> !Loses(p, room)
  {
    if Loses(p, room) {
      PendingLength(p);
    }
  }

  lemma PendingLength(p: OutPacket)
    requires HeaderSet(p) && InHeader(p) && HasKids(p)
    ensures |Pending(p)| == |Head(p)| + |WireKids(p.children)| + |Tail(p.data)|
  {
  }

  /** A packet "A" around a packet "B". */
  function AroundB(): (p: OutPacket) {
    var kid := OutPacket([0x42], false, false, false, 0, 0, [], [], PreparedMin, false);
    OutPacket([0x41], false, false, true, 1, 2, [kid], [], PreparedMin, false)
  }

  lemma AroundBIs()
    ensures var p := AroundB(); Ready(p) && |Wire(p)| == 5 && |Head(p)| == 3 && Loses(p, 3) && HasKids(p)
  {
    var p := AroundB();
    var kid := p.children[0];
    assert WireInner(kid) == [] && |Wire(kid)| == 2;
    assert [kid][1..] == [];
    assert WireKids([kid]) == Wire(kid) + WireKids([]) == Wire(kid);
    assert KidsReady([kid]) && Ready(p);
  }

  /** Given room for its header only, one call and the encoder reports that it is finished, with the child never
      written. */
  method StopInsideChildrenLosesThem() returns (written: seq<byte>, q: OutPacket)
    ensures Ready(AroundB()) && |Wire(AroundB())| == 5 && written == Wire(AroundB())[..3] && q.state == EncodeFinished
  {
    AroundBIs();
    ReadyPending(AroundB());
    var target := new Buffer(3);
    q := SerializePrepared(AroundB(), target);
    written := target.data[..target.pos];
  }

  /** A packet that writes no children resumes anywhere. */
  lemma LeafResumes(p: OutPacket, room: nat, k: nat, q: OutPacket)
    requires HeaderSet(p) && !HasKids(p) && Emitted(p, room, k, q)
    ensures Pending(q) == Pending(p)[k..] && k == Min(room, |Pending(p)|)
    ensures q.state == EncodeFinished <==> |Pending(p)| <= room
  {
  }

  function Sum(windows: seq<nat>): (n: nat) {
    if windows == [] then 0 else windows[0] + Sum(windows[1..])
  }

  /** One target of its own for each window. */
  method EmitOne(p: OutPacket, window: nat) returns (out: seq<byte>, q: OutPacket)
    requires Going(p) && !HasKids(p)
    ensures Going(q) && !HasKids(q) && |out| == Min(window, |Pending(p)|)
    ensures out == Pending(p)[..|out|] && Pending(q) == Pending(p)[|out|..]
            && (q.state == EncodeFinished <==> Pending(q) == [])
  {
    var target := new Buffer(window);
    q := SerializePrepared(p, target);
    out := target.data[..target.pos];
  }

  lemma PrefixOfRest(s: seq<byte>, first: seq<byte>, t: seq<byte>, rest: seq<byte>)
    requires |first| <= |s| && first == s[..|first|] && t == s[|first|..] && |rest| <= |t| && rest == t[..|rest|]
    ensures first + rest == s[..|first| + |rest|]
  {
  }

  /** Any sequence of windows, however small: what they hold together is what a single write would have begun
      with, and the packet is finished as soon as they have room for all of it. */
  method EmitThrough(p: OutPacket, windows: seq<nat>) returns (out: seq<byte>, q: OutPacket)
    requires Going(p) && !HasKids(p)
    ensures Going(q) && |out| == Min(Sum(windows), |Pending(p)|) && out == Pending(p)[..|out|]
    ensures windows != [] ==> (q.state == EncodeFinished <==> |Pending(p)| <= Sum(windows))
    decreases |windows|
  {
    if windows == [] {
      return [], p;
    }
    ghost var s := Pending(p);
    var first, rest;
    first, q := EmitOne(p, windows[0]);
    ghost var t := Pending(q);
    if |windows| > 1 {
      rest, q := EmitThrough(q, windows[1..]);
      out := first + rest;
      PrefixOfRest(s, first, t, rest);
    } else {
      assert Sum(windows) == windows[0];
      out := first;
    }
  }

  // ---------------------------------------------------------------------------------------------
  // From trees to bytes and back
  // ---------------------------------------------------------------------------------------------

  function FromTree(p: Packet): (o: OutPacket)
    decreases p, 1
  {
    OutPacket(p.name, p.bigEndian, false, false, 0, 0, FromTrees(p.children), p.data, DecideEncode, false)
  }

  function FromTrees(ps: seq<Packet>): (os: seq<OutPacket>)
    ensures |os| == |ps|
    decreases ps, 0
  {
    if ps == [] then [] else [FromTree(ps[0])] + FromTrees(ps[1..])
  }

  lemma {:induction false} TreeWire(p: Packet)
    ensures Wire(FromTree(p)) == Encode(p) && WireInner(FromTree(p)) == Inner(p)
    decreases p, 1
  {
    TreesWire(p.children);
  }

  lemma {:induction false} TreesWire(ps: seq<Packet>)
    ensures WireKids(FromTrees(ps)) == Kids(ps)
    decreases ps, 0
  {
    if ps != [] {
      TreeWire(ps[0]);
      TreesWire(ps[1..]);
      assert FromTrees(ps)[1..] == FromTrees(ps[1..]);
    }
  }

  lemma {:induction false} TreeAccepted(p: Packet, recurs: nat)
    requires recurs <= MAX_RECURSION && Encodable(p, MAX_RECURSION - recurs)
    ensures Accepted(FromTree(p), recurs) && NamesFit(FromTree(p))
    decreases p, 1
  {
    TreeWire(p);
    if p.children != [] {
      TreesAccepted(p.children, recurs + 1);
    }
  }

  lemma {:induction false} TreesAccepted(ps: seq<Packet>, recurs: nat)
    requires recurs <= MAX_RECURSION && KidsEncodable(ps, MAX_RECURSION - recurs)
    ensures KidsAccepted(FromTrees(ps), recurs) && KidsNamesFit(FromTrees(ps))
    decreases ps, 0
  {
    if ps != [] {
      TreeAccepted(ps[0], recurs);
      TreesAccepted(ps[1..], recurs);
      assert FromTrees(ps)[1..] == FromTrees(ps[1..]);
    }
  }

  /** A tree written into a large enough target. */
  method Write(p: Packet, target: Buffer)
    requires Encodable(p, MAX_RECURSION) && target.Valid() && |Encode(p)| <= target.Remaining()
    modifies target`pos, target.data
    ensures target.Valid() && target.pos == old(target.pos) + |Encode(p)|
    ensures Wrote(old(target.data[..]), target.data[..], old(target.pos), Encode(p))
  {
    TreeAccepted(p, 0);
    TreeWire(p);
    var ok, q := Serialize(FromTree(p), target);
    WroteWhole(Encode(p), old(target.data[..]), target.data[..], old(target.pos), target.pos, target.limit);
  }

  /** Every encodable tree, written into a buffer with room for it, is there in its wire form, and
      decoding that wire form gives the tree back. */
  method WriteTree(p: Packet, target: Buffer)
    requires Encodable(p, MAX_RECURSION) && target.Valid() && |Encode(p)| <= target.Remaining()
    modifies target`pos, target.data
    ensures target.Valid() && target.pos == old(target.pos) + |Encode(p)|
    ensures var r := DecodeOne(target.data[old(target.pos)..target.pos]);
            r.Got? && r.rest == [] && DecodeTree(r.packet) == Some(p)
  {
    Write(p, target);
    assert target.data[old(target.pos)..target.pos] == Encode(p) + [];
    WireRoundTrip(p, MAX_RECURSION, []);
  }

  lemma WroteWhole(s: seq<byte>, a: seq<byte>, b: seq<byte>, start: nat, pos: nat, limit: nat)
    requires start + |s| <= limit && Filled(s, a, b, start, pos, limit)
    ensures pos == start + |s| && pos <= |b| && b[start..pos] == s && Wrote(a, b, start, s)
  {
    assert s[..pos - start] == s;
  }
}
