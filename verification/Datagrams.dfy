/** Sending packets as sets of datagrams (G2UDP.c). */
module Datagrams {
  import opened Arithmetic
  import opened Buffers
  import opened Packets
  import opened Serializer

  const UDP_MTU := 500
  const UDP6_MTU := 1000
  const UDP_RELIABLE_LENGTH := 8

  /** The largest datagram, and how much of it is payload. */
  predicate IsMtu(mtu: nat) {
    mtu == UDP_MTU || mtu == UDP6_MTU
  }

  /** What the header of a datagram says. */
  function GndHeader(sequence: nat, part: byte, count: byte, flags: byte): (h: seq<byte>)
    ensures |h| == UDP_RELIABLE_LENGTH
  {
    [0x47, 0x4E, 0x44, flags, sequence % 256, sequence / 256 % 256, part, count]
  }

  /** A byte string cut into windows of w. */
  function Windows(s: seq<byte>, w: nat): (r: seq<seq<byte>>)
    requires w > 0
    decreases |s|
  {
    if s == [] then [] else if |s| <= w then [s] else [s[..w]] + Windows(s[w..], w)
  }

  /** The datagrams for these payloads, from part `first` on. */
  function Dressed(payloads: seq<seq<byte>>, first: nat, sequence: nat, count: byte, flags: byte): (r: seq<seq<byte>>)
    requires first + |payloads| <= 256
    ensures |r| == |payloads|
    decreases |payloads|
  {
    if payloads == [] then []
    else
      [GndHeader(sequence, first, count, flags) + payloads[0]]
      + Dressed(payloads[1..], first + 1, sequence, count, flags)
  }

  // ---------------------------------------------------------------------------------------------
  // What the windows are
  // ---------------------------------------------------------------------------------------------

  function Joined(parts: seq<seq<byte>>): (s: seq<byte>) {
    if parts == [] then [] else parts[0] + Joined(parts[1..])
  }

  lemma {:induction false} WindowsJoin(s: seq<byte>, w: nat)
    requires w > 0
    ensures Joined(Windows(s, w)) == s
    decreases |s|
  {
    if s != [] && |s| > w {
      WindowsJoin(s[w..], w);
      assert Windows(s, w)[1..] == Windows(s[w..], w);
    } else if s != [] {
      assert Windows(s, w)[1..] == [];
    }
  }

  lemma {:induction false} WindowsCount(s: seq<byte>, w: nat)
    requires w > 0
    ensures |Windows(s, w)| == DivRoundUp(|s|, w)
    ensures forall i :: 0 <= i < |Windows(s, w)| ==>
              if i < |Windows(s, w)| - 1 then |Windows(s, w)[i]| == w else 0 < |Windows(s, w)[i]| <= w
    decreases |s|
  {
    if s == [] {
      DivisionIs(w - 1, w, 0, w - 1);
    } else if |s| <= w {
      DivisionIs(|s| + w - 1, w, 1, |s| - 1);
    } else {
      WindowsCount(s[w..], w);
      DivisionStep(|s| - 1, w);
    }
  }

  lemma {:induction false} DressedAt(payloads: seq<seq<byte>>, first: nat, sequence: nat, count: byte, flags: byte,
                                     i: nat)
    requires first + |payloads| <= 256 && i < |payloads|
    ensures |Dressed(payloads, first, sequence, count, flags)| == |payloads|
    ensures Dressed(payloads, first, sequence, count, flags)[i]
            == GndHeader(sequence, first + i, count, flags) + payloads[i]
    decreases |payloads|
  {
    if |payloads| > 1 {
      DressedAt(payloads[1..], first + 1, sequence, count, flags, if i > 0 then i - 1 else 0);
    }
  }

  /** For any payload that needs at most 255 parts, the datagrams have the parts 1..count, none is larger than
      the MTU, and behind their headers they make up the payload. */
  lemma DatagramsAre(s: seq<byte>, mtu: nat, sequence: nat, flags: byte, i: nat)
    requires IsMtu(mtu) && DivRoundUp(|s|, mtu - UDP_RELIABLE_LENGTH) <= 255
    requires i < DivRoundUp(|s|, mtu - UDP_RELIABLE_LENGTH)
    ensures var w := mtu - UDP_RELIABLE_LENGTH;
            var count := DivRoundUp(|s|, w);
            |Windows(s, w)| == count && Joined(Windows(s, w)) == s
            && (var sent := Dressed(Windows(s, w), 1, sequence, count, flags);
                |sent| == count && sent[i] == GndHeader(sequence, i + 1, count, flags) + Windows(s, w)[i]
                && |sent[i]| <= mtu)
  {
    var w := mtu - UDP_RELIABLE_LENGTH;
    WindowsJoin(s, w);
    WindowsCount(s, w);
    DressedAt(Windows(s, w), 1, sequence, DivRoundUp(|s|, w), flags, i);
  }

  // ---------------------------------------------------------------------------------------------
  // Overlaying headers on bytes already sent
  // ---------------------------------------------------------------------------------------------

  /** Exactly the datagrams of s, in order. */
  ghost predicate IsSet(sent: seq<seq<byte>>, s: seq<byte>, mtu: nat, sequence: nat, flags: byte)
    requires IsMtu(mtu)
  {
    var windows := Windows(s, mtu - UDP_RELIABLE_LENGTH);
    |windows| <= 255 && sent == Dressed(windows, 1, sequence, |windows|, flags)
  }

  /** What has been sent and what is still to be sent make up the whole set. */
  ghost predicate Under(all: seq<seq<byte>>, sent: seq<seq<byte>>, rest: seq<byte>, w: nat, sequence: nat, count: byte,
                        flags: byte)
    requires w > 0
  {
    |sent| + 1 + |Windows(rest, w)| <= 256
    && all == sent + Dressed(Windows(rest, w), |sent| + 1, sequence, count, flags)
  }

  lemma UnderNext(all: seq<seq<byte>>, sent: seq<seq<byte>>, rest: seq<byte>, w: nat, sequence: nat, count: byte,
                  flags: byte, n: nat, datagram: seq<byte>)
    requires w > 0 && rest != [] && n == Min(w, |rest|) && Under(all, sent, rest, w, sequence, count, flags)
    requires datagram == GndHeader(sequence, |sent| + 1, count, flags) + rest[..n]
    ensures Under(all, sent + [datagram], rest[n..], w, sequence, count, flags)
  {
    var ws := Windows(rest, w);
    assert |rest| <= w ==> rest[..n] == rest && rest[n..] == [];
    assert ws == [rest[..n]] + Windows(rest[n..], w);
    assert ws[1..] == Windows(rest[n..], w);
    assert Dressed(ws, |sent| + 1, sequence, count, flags)
           == [datagram] + Dressed(ws[1..], |sent| + 2, sequence, count, flags);
  }

  /** The set is out exactly when nothing is left. */
  lemma UnderLeft(all: seq<seq<byte>>, sent: seq<seq<byte>>, rest: seq<byte>, w: nat, sequence: nat, count: byte,
                  flags: byte)
    requires w > 0 && Under(all, sent, rest, w, sequence, count, flags)
    ensures |sent| < |all| <==> rest != []
    ensures rest == [] ==> all == sent
  {
  }

  /** memcpy of the eight header bytes to `at`. */
  method PutHeader(c: array<byte>, at: nat, h: seq<byte>)
    requires |h| == UDP_RELIABLE_LENGTH && at + UDP_RELIABLE_LENGTH <= c.Length
    modifies c
    ensures c[at..at + UDP_RELIABLE_LENGTH] == h
    ensures forall k :: 0 <= k < c.Length && !(at <= k < at + UDP_RELIABLE_LENGTH) ==> c[k] == old(c[k])
  {
    for i := 0 to UDP_RELIABLE_LENGTH
      invariant c[at..at + i] == h[..i]
      invariant forall k :: 0 <= k < c.Length && !(at <= k < at + i) ==> c[k] == old(c[k])
    {
      c[at + i] := h[i];
    }
  }

  /** One turn of the loop: the header goes over the last eight bytes sent. */
  method SendNext(c: array<byte>, pos: nat, len: nat, mtu: nat, h: seq<byte>, ghost rest: seq<byte>)
      returns (datagram: seq<byte>, end: nat)
    requires UDP_RELIABLE_LENGTH <= pos < len <= c.Length && IsMtu(mtu) && |h| == UDP_RELIABLE_LENGTH
    requires c[pos..len] == rest
    modifies c
    ensures var n := Min(mtu - UDP_RELIABLE_LENGTH, |rest|);
            end == pos + n && datagram == h + rest[..n] && c[end..len] == rest[n..]
  {
    var start := pos - UDP_RELIABLE_LENGTH;
    PutHeader(c, start, h);
    end := if len - start > mtu then start + mtu else len;
    datagram := c[start..end];
    assert c[pos..len] == rest;
    assert c[start..end] == c[start..pos] + c[pos..end];
    assert c[pos..end] == c[pos..len][..end - pos] && c[end..len] == c[pos..len][end - pos..];
  }

  /** The sending half of udp_writeout_packet_c, every send being complete: the first datagram is put together
      in a buffer of its own; the others are sent from where their payload lies, with the header written over
      bytes that are already out. */
  method SendOverlaid(c: array<byte>, len: nat, mtu: nat, sequence: nat, flags: byte) returns (sent: seq<seq<byte>>)
    requires 0 < len <= c.Length && IsMtu(mtu) && DivRoundUp(len, mtu - UDP_RELIABLE_LENGTH) <= 255
    modifies c
    ensures IsSet(sent, old(c[..len]), mtu, sequence, flags)
  {
    var w := mtu - UDP_RELIABLE_LENGTH;
    var count := DivRoundUp(len, w);
    ghost var s := c[..len];
    WindowsCount(s, w);
    ghost var all := Dressed(Windows(s, w), 1, sequence, count, flags);
    assert Under(all, [], s, w, sequence, count, flags);
    var pos := Min(w, len);
    var datagram := GndHeader(sequence, 1, count, flags) + c[..pos];
    assert c[..pos] == s[..pos];
    UnderNext(all, [], s, w, sequence, count, flags, pos, datagram);
    sent := [datagram];
    while |sent| < count
      invariant 0 < pos <= len && (pos < len ==> UDP_RELIABLE_LENGTH <= pos)
      invariant Under(all, sent, c[pos..len], w, sequence, count, flags)
      decreases count - |sent|
    {
      UnderLeft(all, sent, c[pos..len], w, sequence, count, flags);
      ghost var rest := c[pos..len];
      var end;
      datagram, end := SendNext(c, pos, len, mtu, GndHeader(sequence, |sent| + 1, count, flags), rest);
      UnderNext(all, sent, rest, w, sequence, count, flags, end - pos, datagram);
      sent, pos := sent + [datagram], end;
    }
    UnderLeft(all, sent, c[pos..len], w, sequence, count, flags);
  }

  // ---------------------------------------------------------------------------------------------
  // Writing a packet window by window
  // ---------------------------------------------------------------------------------------------

  /** The next n windows of s, empty ones once s is used up. */
  ghost function Slices(s: seq<byte>, w: nat, n: nat): (r: seq<seq<byte>>)
    ensures |r| == n
    decreases n
  {
    if n == 0 then [] else var k := Min(w, |s|); [s[..k]] + Slices(s[k..], w, n - 1)
  }

  lemma {:induction false} SlicesAreWindows(s: seq<byte>, w: nat)
    requires w > 0
    ensures Slices(s, w, |Windows(s, w)|) == Windows(s, w)
    decreases |s|
  {
    if |s| > w {
      SlicesAreWindows(s[w..], w);
    } else if s != [] {
      assert s[..|s|] == s && s[|s|..] == [];
      assert Slices([], w, 0) == [];
    }
  }

  lemma {:induction false} SlicesJoin(s: seq<byte>, w: nat, n: nat)
    requires w > 0
    ensures |Joined(Slices(s, w, n))| <= |s|
    decreases n
  {
    if n > 0 {
      var k := Min(w, |s|);
      SlicesJoin(s[k..], w, n - 1);
      assert Slices(s, w, n)[1..] == Slices(s[k..], w, n - 1);
    }
  }

  /** What is to be sent behind the first window of a packet: the rest, or only what follows the children if the window
      ends inside them. */
  ghost function Behind(p: OutPacket, w: nat): (s: seq<byte>)
    requires Going(p)
  {
    if Loses(p, w) then Tail(p.data) else Pending(p)[Min(w, |Pending(p)|)..]
  }

  /** The payloads of the datagrams of a packet. */
  ghost function Pieces(p: OutPacket, w: nat, count: nat): (r: seq<seq<byte>>)
    requires Going(p) && count > 0
  {
    [Pending(p)[..Min(w, |Pending(p)|)]] + Slices(Behind(p, w), w, count - 1)
  }

  /** Cutting off what is left behind a first window is cutting the whole. */
  lemma CutBehind(s: seq<byte>, w: nat, count: nat)
    requires w > 0 && s != [] && count == DivRoundUp(|s|, w)
    ensures count > 0
    ensures var n := Min(w, |s|); [s[..n]] + Slices(s[n..], w, count - 1) == Windows(s, w)
  {
    WindowsCount(s, w);
    SlicesAreWindows(s, w);
  }

  /** A packet that loses its children comes out shorter. */
  lemma LostIsShorter(p: OutPacket, w: nat, count: nat)
    requires Going(p) && Loses(p, w) && w > 0 && count > 0
    ensures |Joined(Pieces(p, w, count))| < |Pending(p)|
  {
    PendingLength(p);
    SlicesJoin(Tail(p.data), w, count - 1);
    assert Pieces(p, w, count)[1..] == Slices(Tail(p.data), w, count - 1);
  }

  /** They are the windows of the packet, and so the packet, just if the first window does not end inside the
      children. */
  lemma PiecesAreWhole(p: OutPacket, w: nat, count: nat)
    requires Ready(p) && w >= 12 && count == DivRoundUp(|Wire(p)|, w)
    ensures Going(p) && count > 0
    ensures !Loses(p, w) ==> Pieces(p, w, count) == Windows(Wire(p), w)
    ensures Joined(Pieces(p, w, count)) == Wire(p) <==> !Loses(p, w)
    ensures Loses(p, w) ==> |Joined(Pieces(p, w, count))| < |Wire(p)|
  {
    ReadyPending(p);
    ReadyWire(p);
    CutBehind(Wire(p), w, count);
    if Loses(p, w) {
      LostIsShorter(p, w, count);
    } else {
      WindowsJoin(Wire(p), w);
    }
  }

  lemma {:induction false} SlicesFit(s: seq<byte>, w: nat, n: nat)
    ensures forall i :: 0 <= i < n ==> |Slices(s, w, n)[i]| <= w
    decreases n
  {
    if n > 0 {
      SlicesFit(s[Min(w, |s|)..], w, n - 1);
    }
  }

  lemma WindowBytes(s: seq<byte>, h: seq<byte>, before: seq<byte>, after: seq<byte>, pos: nat, limit: nat)
    requires |h| == UDP_RELIABLE_LENGTH <= limit && UDP_RELIABLE_LENGTH <= |before|
             && before[..UDP_RELIABLE_LENGTH] == h
    requires Filled(s, before, after, UDP_RELIABLE_LENGTH, pos, limit)
    ensures pos <= |after| && after[..pos] == h + s[..Min(limit - UDP_RELIABLE_LENGTH, |s|)]
  {
  }

  lemma WindowRest(p: OutPacket, q: OutPacket, w: nat, k: nat)
    requires HeaderSet(p) && Going(p) && w >= 12 && Emitted(p, w, k, q)
    ensures Going(q) && Pending(q) == Behind(p, w) && !InHeader(q) && (q.state == EncodeFinished <==> Pending(q) == [])
  {
    assert |Head(p)| <= 12;
  }

  /** The datagram in the buffer: header, then what the encoder wrote. */
  method FillWindow(p: OutPacket, d: Buffer, mtu: nat, h: seq<byte>) returns (q: OutPacket, datagram: seq<byte>)
    requires Going(p) && d.Valid() && IsMtu(mtu) && mtu <= d.data.Length && |h| == UDP_RELIABLE_LENGTH
    modifies d, d.data
    ensures var w := mtu - UDP_RELIABLE_LENGTH;
            d.Valid() && Going(q) && datagram == h + Pending(p)[..Min(w, |Pending(p)|)] && Pending(q) == Behind(p, w)
            && !InHeader(q) && (q.state == EncodeFinished <==> Pending(q) == [])
  {
    d.pos, d.limit := 0, mtu;
    d.PutBlock(h);
    ghost var before := d.data[..];
    q := SerializePrepared(p, d);
    WindowBytes(Pending(p), h, before, d.data[..], d.pos, mtu);
    WindowRest(p, q, mtu - UDP_RELIABLE_LENGTH, d.pos - UDP_RELIABLE_LENGTH);
    datagram := d.data[..d.pos];
  }

  /** What has been sent and the windows still to come make up all that is to be sent. */
  ghost predicate Sending(all: seq<seq<byte>>, sent: seq<seq<byte>>, rest: seq<byte>, w: nat, sequence: nat,
                          count: byte) {
    |sent| <= count
    && all == sent + Dressed(Slices(rest, w, count - |sent|), |sent| + 1, sequence, count, 0)
  }

  /** The first datagram of several payloads, and those behind it. */
  lemma DressedFirst(payload: seq<byte>, more: seq<seq<byte>>, first: nat, sequence: nat, count: byte)
    requires first + 1 + |more| <= 256
    ensures Dressed([payload] + more, first, sequence, count, 0)
            == [GndHeader(sequence, first, count, 0) + payload] + Dressed(more, first + 1, sequence, count, 0)
  {
    assert ([payload] + more)[1..] == more;
  }

  lemma SendingNext(all: seq<seq<byte>>, sent: seq<seq<byte>>, rest: seq<byte>, w: nat, sequence: nat, count: byte,
                    datagram: seq<byte>, rest': seq<byte>)
    requires Sending(all, sent, rest, w, sequence, count) && |sent| < count && rest' == rest[Min(w, |rest|)..]
    requires datagram == GndHeader(sequence, |sent| + 1, count, 0) + rest[..Min(w, |rest|)]
    ensures Sending(all, sent + [datagram], rest', w, sequence, count)
  {
    var payload, more := rest[..Min(w, |rest|)], Slices(rest', w, count - |sent| - 1);
    assert Slices(rest, w, count - |sent|) == [payload] + more;
    DressedFirst(payload, more, |sent| + 1, sequence, count);
    var tail := Dressed(more, |sent| + 2, sequence, count, 0);
    assert all == sent + ([datagram] + tail);
    assert sent + ([datagram] + tail) == (sent + [datagram]) + tail;
  }

  lemma SendingFirst(p: OutPacket, w: nat, sequence: nat, count: byte, datagram: seq<byte>)
    requires Going(p) && count > 0 && datagram == GndHeader(sequence, 1, count, 0) + Pending(p)[..Min(w, |Pending(p)|)]
    ensures Sending(Dressed(Pieces(p, w, count), 1, sequence, count, 0), [datagram], Behind(p, w), w, sequence, count)
  {
    DressedFirst(Pending(p)[..Min(w, |Pending(p)|)], Slices(Behind(p, w), w, count - 1), 1, sequence, count);
  }

  /** udp_writeout_packet_uc, every send being complete, for any packet of at most 255 windows: the encoder, driven
      window by window, sends these pieces. */
  method WriteoutUc(p: OutPacket, d: Buffer, mtu: nat, sequence: nat, resLen: nat)
      returns (sent: seq<seq<byte>>, q: OutPacket)
    requires Ready(p) && d.Valid() && IsMtu(mtu) && mtu <= d.data.Length
    requires resLen == |Wire(p)| && DivRoundUp(resLen, mtu - UDP_RELIABLE_LENGTH) <= 255
    modifies d, d.data
    ensures d.Valid() && Going(p)
    ensures var w := mtu - UDP_RELIABLE_LENGTH;
            var count := DivRoundUp(resLen, w);
            count > 0 && sent == Dressed(Pieces(p, w, count), 1, sequence, count, 0)
            && (!Loses(p, w) ==> IsSet(sent, Wire(p), mtu, sequence, 0))
  {
    var w := mtu - UDP_RELIABLE_LENGTH;
    var count := DivRoundUp(resLen, w);
    PiecesAreWhole(p, w, count);
    WindowsCount(Wire(p), w);
    ghost var all := Dressed(Pieces(p, w, count), 1, sequence, count, 0);
    q, sent := p, [];
    while |sent| < count
      invariant d.Valid() && Underway(p, q, sent, w, sequence, count)
      decreases count - |sent|
    {
      q, sent := SendWindow(p, q, sent, d, mtu, sequence, count);
    }
    assert all == sent;
  }

  /** Where the sender of p is when these datagrams are out. */
  ghost predicate Underway(p: OutPacket, q: OutPacket, sent: seq<seq<byte>>, w: nat, sequence: nat, count: byte)
    requires Going(p) && count > 0
  {
    Going(q) && |sent| <= count
    && if |sent| == 0 then q == p
       else
         !InHeader(q)
         && Sending(Dressed(Pieces(p, w, count), 1, sequence, count, 0), sent, Pending(q), w, sequence, count)
  }

  /** The next datagram is out. */
  lemma UnderwayNext(p: OutPacket, q: OutPacket, sent: seq<seq<byte>>, w: nat, sequence: nat, count: byte,
                     q': OutPacket, datagram: seq<byte>)
    requires Going(p) && |sent| < count && Underway(p, q, sent, w, sequence, count)
    requires datagram == GndHeader(sequence, |sent| + 1, count, 0) + Pending(q)[..Min(w, |Pending(q)|)]
    requires Going(q') && !InHeader(q') && Pending(q') == Behind(q, w)
    ensures Underway(p, q', sent + [datagram], w, sequence, count)
  {
    if |sent| == 0 {
      SendingFirst(p, w, sequence, count, datagram);
      assert [] + [datagram] == [datagram];
    } else {
      var all := Dressed(Pieces(p, w, count), 1, sequence, count, 0);
      SendingNext(all, sent, Pending(q), w, sequence, count, datagram, Pending(q'));
    }
  }

  /** One turn of the sending loop. */
  method SendWindow(ghost p: OutPacket, q: OutPacket, sent: seq<seq<byte>>, d: Buffer, mtu: nat, sequence: nat,
                    count: byte)
      returns (q': OutPacket, sent': seq<seq<byte>>)
    requires Going(p) && |sent| < count && d.Valid() && IsMtu(mtu) && mtu <= d.data.Length
    requires Underway(p, q, sent, mtu - UDP_RELIABLE_LENGTH, sequence, count)
    modifies d, d.data
    ensures d.Valid() && |sent'| == |sent| + 1 && Underway(p, q', sent', mtu - UDP_RELIABLE_LENGTH, sequence, count)
  {
    var datagram;
    q', datagram := FillWindow(q, d, mtu, GndHeader(sequence, |sent| + 1, count, 0));
    sent' := sent + [datagram];
    UnderwayNext(p, q, sent, mtu - UDP_RELIABLE_LENGTH, sequence, count, q', datagram);
  }

  const SMALL := 320

  /** udp_writeout_packet for a packet that is not worth compressing: any tree that preparation accepts goes out
      in a single datagram. */
  method WriteoutSmall(p: OutPacket, d: Buffer, mtu: nat, sequence: nat) returns (sent: seq<seq<byte>>)
    requires p.state == DecideEncode && NamesFit(p) && d.Valid() && IsMtu(mtu) && mtu <= d.data.Length
    requires |Wire(p)| <= SMALL
    modifies d, d.data
    ensures sent == if Accepted(p, 0) then [GndHeader(sequence, 1, 1, 0) + Wire(p)] else []
  {
    var r := Prep(p, 0);
    if r.None? {
      return [];
    }
    var prepared, result := r.value.0, r.value.1;
    ReadyWire(prepared);
    DivisionIs(result + mtu - UDP_RELIABLE_LENGTH - 1, mtu - UDP_RELIABLE_LENGTH, 1, result - 1);
    var q;
    sent, q := WriteoutUc(prepared, d, mtu, sequence, result);
  }
}
