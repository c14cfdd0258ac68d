/** From a packet on one side, through datagrams in any order, to the packet on the other side (G2UDP.c,
    G2PacketSerializer.c). */
module EndToEnd {
  import opened Arithmetic
  import opened Buffers
  import opened Options
  import opened Packets
  import opened Knots
  import opened Reassembly
  import opened ReasRuns
  import opened ReasCache
  import opened Reception
  import D = Datagrams
  import S = Serializer

  /** The payload of part i of a byte string cut into windows of w. */
  ghost function PartOf(windows: seq<seq<byte>>): (content: nat -> seq<byte>) {
    (i: nat) => if 1 <= i <= |windows| then windows[i - 1] else []
  }

  lemma {:induction false} JoinedNext(parts: seq<seq<byte>>, k: nat)
    requires k < |parts|
    ensures D.Joined(parts[..k + 1]) == D.Joined(parts[..k]) + parts[k]
  {
    if k == 0 {
      assert parts[..1][1..] == [];
    } else {
      JoinedNext(parts[1..], k - 1);
      assert parts[..k + 1][1..] == parts[1..][..k] && parts[..k][1..] == parts[1..][..k - 1];
    }
  }

  lemma {:induction false} PayloadOfWindows(windows: seq<seq<byte>>, k: nat)
    requires k <= |windows|
    ensures Payload(PartOf(windows), k) == D.Joined(windows[..k])
  {
    if k > 0 {
      PayloadOfWindows(windows, k - 1);
      JoinedNext(windows, k - 1);
    }
  }

  /** A packet's header lies in the first window, if windows hold the longest header. */
  lemma HeaderInWindow(p: Packet, w: nat)
    requires Encodable(p, MAX_RECURSION) && w >= 12
    ensures Encode(p) != [] && HeaderIn(D.Windows(Encode(p), w)[0])
  {
    var s, n := Encode(p), LengthLength(|Inner(p)|);
    ControlByteFields(n, |p.name|, p.bigEndian, p.children != []);
    assert |s| >= 1 + n + |p.name|;
    assert D.Windows(s, w)[0][0] == s[0];
  }

  lemma EncodedParses(p: Packet, maxLen: nat)
    requires Encodable(p, MAX_RECURSION) && |Encode(p)| <= maxLen
    ensures Parsed(Encode(p), maxLen) == Some(RawOf(p))
  {
    EncodedReads(p, MAX_RECURSION, [], maxLen);
    assert Encode(p) + [] == Encode(p);
  }

  lemma SetIsWhole(p: Packet, w: nat)
    requires Encodable(p, MAX_RECURSION) && 12 <= w <= KNOT_ROOM && |D.Windows(Encode(p), w)| <= MAX_PARTS
    ensures var windows := D.Windows(Encode(p), w);
            Sendable(PartOf(windows), |windows|) && Payload(PartOf(windows), |windows|) == Encode(p)
  {
    var s := Encode(p);
    var windows := D.Windows(s, w);
    D.WindowsCount(s, w);
    D.WindowsJoin(s, w);
    HeaderInWindow(p, w);
    PayloadOfWindows(windows, |windows|);
    assert windows[..|windows|] == windows;
  }

  // ---------------------------------------------------------------------------------------------
  // Over the wire
  // ---------------------------------------------------------------------------------------------

  /** The payloads of a set: at most 255 that fit their buffers, the header of the packet in the first. */
  predicate Payloads(ws: seq<seq<byte>>) {
    1 <= |ws| <= 255 && HeaderIn(ws[0])
    && forall i :: 0 <= i < |ws| ==> |ws[i]| <= KNOT_ROOM - D.UDP_RELIABLE_LENGTH
  }

  /** The datagrams of such a set, uncompressed. */
  predicate Carries(sent: seq<seq<byte>>, ws: seq<seq<byte>>, sequence: nat) {
    Payloads(ws) && sent == D.Dressed(ws, 1, sequence, |ws|, 0)
  }

  /** The set of a packet carries its windows. */
  lemma SetCarries(p: Packet, mtu: nat, sequence: nat, sent: seq<seq<byte>>)
    requires Encodable(p, MAX_RECURSION) && D.IsMtu(mtu) && D.IsSet(sent, Encode(p), mtu, sequence, 0)
    ensures Carries(sent, D.Windows(Encode(p), mtu - D.UDP_RELIABLE_LENGTH), sequence)
  {
    D.WindowsCount(Encode(p), mtu - D.UDP_RELIABLE_LENGTH);
    HeaderInWindow(p, mtu - D.UDP_RELIABLE_LENGTH);
  }

  /** Behind the header of this datagram comes what looks like the header of another. */
  predicate TwoTags(datagram: seq<byte>) {
    |datagram| >= D.UDP_RELIABLE_LENGTH && Tagged(datagram[D.UDP_RELIABLE_LENGTH..])
  }

  /** The encoder never sets the lowest bit of a control byte, so the first part of a set never looks so. */
  lemma FirstPartHasOneTag(p: Packet, mtu: nat, sequence: nat, sent: seq<seq<byte>>)
    requires Encodable(p, MAX_RECURSION) && D.IsMtu(mtu) && D.IsSet(sent, Encode(p), mtu, sequence, 0)
    ensures sent != [] && !TwoTags(sent[0])
  {
    HeaderInWindow(p, mtu - D.UDP_RELIABLE_LENGTH);
    var windows := D.Windows(Encode(p), mtu - D.UDP_RELIABLE_LENGTH);
    D.DressedAt(windows, 1, sequence, |windows|, 0, 0);
    assert Encode(p)[0] % 2 == 0;
    assert windows[0][0] == Encode(p)[0] && sent[0][D.UDP_RELIABLE_LENGTH..] == windows[0];
  }

  /** A later part can: a packet of 495 bytes whose last three are the tag. */
  lemma LaterPartMayHaveTwo() returns (p: Packet, sent: seq<seq<byte>>)
    ensures Encodable(p, MAX_RECURSION) && D.IsSet(sent, Encode(p), D.UDP_MTU, 0, 0)
    ensures |sent| == 2 && TwoTags(sent[1])
  {
    var data := seq(488, i => 0) + [0x47, 0x4E, 0x44];
    p := Packet([0x41], false, [], data);
    var s := Encode(p);
    assert |Inner(p)| == 491;
    assert |s| == 495 && s[492..] == [0x47, 0x4E, 0x44];
    var windows := D.Windows(s, 492);
    assert D.Windows(s[492..], 492) == [s[492..]];
    assert windows == [s[..492]] + D.Windows(s[492..], 492);
    sent := D.Dressed(windows, 1, 0, 2, 0);
    D.DressedAt(windows, 1, 0, 2, 0, 1);
    assert sent[1][8..] == s[492..];
  }

  /** A datagram of the set reads back, unless it is empty or has two tags. */
  lemma SentOpens(ws: seq<seq<byte>>, sequence: nat, sent: seq<seq<byte>>, i: nat)
    requires Carries(sent, ws, sequence) && sequence < 65536 && i < |ws|
    ensures |sent| == |ws|
    ensures Opened(sent[i]) == if ws[i] == [] || TwoTags(sent[i]) then None
                               else Some(Arrival(sequence, i + 1, |ws|, false, false, ws[i]))
  {
    D.DressedAt(ws, 1, sequence, |ws|, 0, i);
    DatagramReadsBack(sequence, i + 1, |ws|, 0, ws[i]);
    assert sent[i][8..] == ws[i];
  }

  /** The set that was sent, as the receiver watches it. */
  ghost function SetOf(ws: seq<seq<byte>>, key: int, keys: set<int>): (w: Watched) {
    Watched(key, PartOf(ws), |ws|, keys)
  }

  /** An event of a run in which the set of the key is the one that was sent; what else arrives is of any kind, but for
      part 0 of several. */
  ghost predicate Orderly(e: Event, keyOf: KeyOf, key: int, keys: set<int>, sent: seq<seq<byte>>) {
    (IsKey(e, keyOf, key) ==> e.datagram in sent)
    && (e.Arrives? && Opened(e.datagram).Some? ==>
          var a := Opened(e.datagram).value; (a.count > 1 ==> a.part >= 1) && keyOf(e.from, a.sequence) in keys)
  }

  ghost predicate OrderlyAll(events: seq<Event>, keyOf: KeyOf, key: int, keys: set<int>, sent: seq<seq<byte>>) {
    forall e :: e in events ==> Orderly(e, keyOf, key, keys, sent)
  }

  lemma OrderlyFits(ws: seq<seq<byte>>, sequence: nat, sent: seq<seq<byte>>, e: Event, keyOf: KeyOf, key: int,
                    keys: set<int>)
    requires Carries(sent, ws, sequence) && sequence < 65536 && Orderly(e, keyOf, key, keys, sent)
    ensures Fitting(e, keyOf, SetOf(ws, key, keys))
  {
    if IsKey(e, keyOf, key) {
      var i :| 0 <= i < |sent| && sent[i] == e.datagram;
      SentOpens(ws, sequence, sent, i);
    }
  }

  lemma {:induction false} SeenAre(events: seq<Event>, keyOf: KeyOf, key: int, part: nat)
    ensures part in Seen(Mine(events, keyOf, key)) <==>
              exists e :: e in events && IsKey(e, keyOf, key) && Opened(e.datagram).value.part == part
  {
    if events != [] {
      var rest := Mine(events[1..], keyOf, key);
      SeenAre(events[1..], keyOf, key, part);
      assert forall e :: e in events <==> e == events[0] || e in events[1..];
      if IsKey(events[0], keyOf, key) {
        assert Mine(events, keyOf, key)[1..] == rest;
      } else {
        assert Mine(events, keyOf, key) == rest;
      }
    }
  }

  /** The datagram arrived from a sender with the set's key. */
  ghost predicate Arrived(events: seq<Event>, keyOf: KeyOf, key: int, sequence: nat, datagram: seq<byte>) {
    exists e :: e in events && e.Arrives? && e.datagram == datagram && keyOf(e.from, sequence) == key
  }

  /** Datagram i arrived, and is one that is looked at. */
  ghost predicate Came(events: seq<Event>, keyOf: KeyOf, key: int, sequence: nat, sent: seq<seq<byte>>, i: nat)
    requires i < |sent|
  {
    Arrived(events, keyOf, key, sequence, sent[i]) && !TwoTags(sent[i])
  }

  /** All datagrams did. */
  ghost predicate AllCame(events: seq<Event>, keyOf: KeyOf, key: int, sequence: nat, sent: seq<seq<byte>>) {
    forall i :: 0 <= i < |sent| ==> Came(events, keyOf, key, sequence, sent, i)
  }

  lemma PartSeenIff(ws: seq<seq<byte>>, sequence: nat, sent: seq<seq<byte>>, events: seq<Event>, keyOf: KeyOf, key: int,
                    keys: set<int>, i: nat)
    requires Carries(sent, ws, sequence) && sequence < 65536 && i < |ws| && |sent| == |ws|
    requires OrderlyAll(events, keyOf, key, keys, sent)
    ensures i + 1 in Seen(Mine(events, keyOf, key)) <==> Came(events, keyOf, key, sequence, sent, i) && ws[i] != []
  {
    SeenAre(events, keyOf, key, i + 1);
    SentOpens(ws, sequence, sent, i);
    if i + 1 in Seen(Mine(events, keyOf, key)) {
      var e :| e in events && IsKey(e, keyOf, key) && Opened(e.datagram).value.part == i + 1;
      assert Orderly(e, keyOf, key, keys, sent);
      var j :| 0 <= j < |sent| && sent[j] == e.datagram;
      SentOpens(ws, sequence, sent, j);
      assert j == i;
    }
  }

  lemma AllSeenIff(ws: seq<seq<byte>>, sequence: nat, sent: seq<seq<byte>>, events: seq<Event>, keyOf: KeyOf, key: int,
                   keys: set<int>)
    requires Carries(sent, ws, sequence) && sequence < 65536 && OrderlyAll(events, keyOf, key, keys, sent)
    requires Seen(Mine(events, keyOf, key)) <= All(|ws|)
    ensures Seen(Mine(events, keyOf, key)) == All(|ws|) <==>
              AllCame(events, keyOf, key, sequence, sent) && [] !in ws
  {
    var seen := Seen(Mine(events, keyOf, key));
    forall i | 0 <= i < |ws|
      ensures i + 1 in seen <==> Came(events, keyOf, key, sequence, sent, i) && ws[i] != []
    {
      PartSeenIff(ws, sequence, sent, events, keyOf, key, keys, i);
    }
    if AllCame(events, keyOf, key, sequence, sent) && [] !in ws {
      forall q | q in All(|ws|) ensures q in seen {
        assert Came(events, keyOf, key, sequence, sent, q - 1);
      }
    }
  }

  /** The datagrams of a set, from the socket to the packet, in any order, with any losses and repetitions, among
      datagrams of any other sets and with expiry in between: something comes out just if all arrive, none has two
      tags and none is empty, and then always what is at the head of the payloads. */
  method TransmitSet(cache: Cache, keyOf: KeyOf, events: seq<Event>, maxLen: nat, knownType: seq<byte> -> bool,
                     inflate: seq<byte> -> Option<Raw>, ghost ws: seq<seq<byte>>, ghost sequence: nat,
                     ghost sent: seq<seq<byte>>, ghost key: int, ghost keys: set<int>)
      returns (out: seq<(int, Option<Raw>)>)
    requires cache.Valid() && key !in cache.entries && cache.entries.Keys + {key} <= keys && |keys| <= cache.size
    requires Carries(sent, ws, sequence) && sequence < 65536
    requires OrderlyAll(events, keyOf, key, keys, sent) && Timely(events, keyOf, key, |ws|, {}, 0)
    modifies cache, cache.owned
    ensures Of(out, key) != [] <==> AllCame(events, keyOf, key, sequence, sent) && [] !in ws
    ensures AllAre(Of(out, key), Goal(SetOf(ws, key, keys), maxLen))
  {
    ghost var w := SetOf(ws, key, keys);
    forall e | e in events ensures Fitting(e, keyOf, w) {
      OrderlyFits(ws, sequence, sent, e, keyOf, key, keys);
    }
    assert 1 in All(w.count);
    out := HandleAll(cache, keyOf, events, maxLen, knownType, inflate, w, {}, 0, Goal(w, maxLen));
    MineAreOneSet(events, keyOf, w);
    SeenBounded(Mine(events, keyOf, key), w.content, w.count, false);
    AllSeenIff(ws, sequence, sent, events, keyOf, key, keys);
    FiresIff(Mine(events, keyOf, key), w.content, w.count, false);
  }

  /** The packet decodes to this tree. */
  predicate IsPacket(packet: Option<Raw>, p: Packet) {
    packet.Some? && DecodeTree(packet.value) == Some(p)
  }

  /** What is to come out for the packet: something just if all its datagrams arrived and none has two tags, and then
      nothing else. */
  ghost predicate Delivered(out: seq<(int, Option<Raw>)>, p: Packet, events: seq<Event>, keyOf: KeyOf, key: int,
                            sequence: nat, sent: seq<seq<byte>>) {
    (Of(out, key) != [] <==> AllCame(events, keyOf, key, sequence, sent))
    && forall packet :: packet in Of(out, key) ==> IsPacket(packet, p)
  }

  /** The same for the datagrams of a packet. */
  method Transmit(cache: Cache, keyOf: KeyOf, events: seq<Event>, maxLen: nat, knownType: seq<byte> -> bool,
                  inflate: seq<byte> -> Option<Raw>, ghost p: Packet, ghost mtu: nat, ghost sequence: nat,
                  ghost sent: seq<seq<byte>>, ghost key: int, ghost keys: set<int>)
      returns (out: seq<(int, Option<Raw>)>)
    requires cache.Valid() && key !in cache.entries && cache.entries.Keys + {key} <= keys && |keys| <= cache.size
    requires Encodable(p, MAX_RECURSION) && |Encode(p)| <= maxLen && D.IsMtu(mtu) && sequence < 65536
    requires D.IsSet(sent, Encode(p), mtu, sequence, 0)
    requires OrderlyAll(events, keyOf, key, keys, sent) && Timely(events, keyOf, key, |sent|, {}, 0)
    modifies cache, cache.owned
    ensures Delivered(out, p, events, keyOf, key, sequence, sent)
  {
    ghost var windows := D.Windows(Encode(p), mtu - D.UDP_RELIABLE_LENGTH);
    SetCarries(p, mtu, sequence, sent);
    D.WindowsCount(Encode(p), mtu - D.UDP_RELIABLE_LENGTH);
    out := TransmitSet(cache, keyOf, events, maxLen, knownType, inflate, windows, sequence, sent, key, keys);
    GoalIsPacket(p, mtu, key, keys, maxLen);
  }

  lemma GoalIsPacket(p: Packet, mtu: nat, key: int, keys: set<int>, maxLen: nat)
    requires Encodable(p, MAX_RECURSION) && |Encode(p)| <= maxLen && D.IsMtu(mtu)
    requires |D.Windows(Encode(p), mtu - D.UDP_RELIABLE_LENGTH)| <= MAX_PARTS
    ensures IsPacket(Goal(SetOf(D.Windows(Encode(p), mtu - D.UDP_RELIABLE_LENGTH), key, keys), maxLen), p)
  {
    var w := SetOf(D.Windows(Encode(p), mtu - D.UDP_RELIABLE_LENGTH), key, keys);
    SetIsWhole(p, mtu - D.UDP_RELIABLE_LENGTH);
    RoundTrip(p, MAX_RECURSION);
    assert w.count == 1 ==> Payload(w.content, 1) == w.content(1) by {
      assert Payload(w.content, 0) == [];
    }
    EncodedParses(p, if w.count == 1 then |w.content(1)| else maxLen);
  }

  // ---------------------------------------------------------------------------------------------
  // From the sender's tree to the receiver's
  // ---------------------------------------------------------------------------------------------

  /** The first window of the packet does not end inside its children. */
  ghost predicate KidsFit(p: Packet, w: nat) {
    p.children == [] || |Encode(p)| - |Tail(p.data)| <= w
  }

  /** What preparation makes of a tree. */
  ghost predicate Prepared(p: Packet, q: S.OutPacket) {
    S.Ready(q) && S.Wire(q) == Encode(p) && q.data == p.data && (S.HasKids(q) <==> p.children != [])
  }

  /** The encoder loses something of a tree just if its children do not fit so. */
  lemma LosesIffKids(p: Packet, q: S.OutPacket, w: nat)
    requires Prepared(p, q) && w >= 12
    ensures S.Going(q) && (S.Loses(q, w) <==> !KidsFit(p, w))
  {
    S.ReadyPending(q);
    if S.HasKids(q) {
      S.PendingLength(q);
    }
  }

  /** The payloads that are sent for a tree, whether or not its children fit. */
  lemma PiecesArePayloads(p: Packet, q: S.OutPacket, w: nat, count: nat)
    requires Encodable(p, MAX_RECURSION) && Prepared(p, q) && 12 <= w <= KNOT_ROOM - D.UDP_RELIABLE_LENGTH
    requires count == DivRoundUp(|Encode(p)|, w) && 1 <= count <= 255 && S.Going(q)
    ensures Payloads(D.Pieces(q, w, count)) && |D.Pieces(q, w, count)| == count
    ensures D.Pieces(q, w, count)[0] == Encode(p)[..Min(w, |Encode(p)|)]
  {
    S.ReadyPending(q);
    FirstWindow(p, w);
    PiecesFit(q, w, count, Encode(p)[..Min(w, |Encode(p)|)]);
  }

  lemma PiecesFit(q: S.OutPacket, w: nat, count: nat, first: seq<byte>)
    requires S.Going(q) && w <= KNOT_ROOM - D.UDP_RELIABLE_LENGTH && 1 <= count <= 255
    requires HeaderIn(first) && first == S.Pending(q)[..Min(w, |S.Pending(q)|)]
    ensures Payloads(D.Pieces(q, w, count)) && |D.Pieces(q, w, count)| == count && D.Pieces(q, w, count)[0] == first
  {
    D.SlicesFit(D.Behind(q, w), w, count - 1);
  }

  lemma FirstWindow(p: Packet, w: nat)
    requires Encodable(p, MAX_RECURSION) && w >= 12
    ensures HeaderIn(Encode(p)[..Min(w, |Encode(p)|)])
  {
    HeaderInWindow(p, w);
    assert |Encode(p)| <= w ==> Encode(p)[..|Encode(p)|] == Encode(p);
    assert D.Windows(Encode(p), w)[0] == Encode(p)[..Min(w, |Encode(p)|)];
  }

  /** The header of a packet with less behind it than it says is no packet. */
  lemma CutShort(p: Packet, s: seq<byte>, w: nat, maxLen: nat)
    requires Encodable(p, MAX_RECURSION) && |Encode(p)| <= maxLen && 12 <= w <= |s| < |Encode(p)|
    requires s[..w] == Encode(p)[..w]
    ensures Parsed(s, maxLen) == None
  {
    var h := HeaderBytes(p.name, p.bigEndian, p.children != [], |Inner(p)|);
    assert |h| <= 12;
    assert s[..|h|] == s[..w][..|h|] == Encode(p)[..w][..|h|] == h;
    assert s == h + s[|h|..];
    HeaderReadsBack(p.name, p.bigEndian, p.children != [], |Inner(p)|, s[|h|..], maxLen);
  }

  /** So of a tree whose children do not fit no packet is made. */
  lemma LostIsNoPacket(p: Packet, q: S.OutPacket, w: nat, count: nat, key: int, keys: set<int>, maxLen: nat)
    requires Encodable(p, MAX_RECURSION) && Prepared(p, q) && 12 <= w <= KNOT_ROOM - D.UDP_RELIABLE_LENGTH
    requires count == DivRoundUp(|Encode(p)|, w) && 1 <= count <= 255 && S.Going(q)
    requires |Encode(p)| <= maxLen && !KidsFit(p, w)
    ensures Goal(SetOf(D.Pieces(q, w, count), key, keys), maxLen) == None
  {
    var pieces := D.Pieces(q, w, count);
    LosesIffKids(p, q, w);
    PiecesArePayloads(p, q, w, count);
    D.PiecesAreWhole(q, w, count);
    D.WindowsCount(Encode(p), w);
    assert count > 1;
    PayloadOfWindows(pieces, count);
    assert pieces[..count] == pieces;
    CutShort(p, D.Joined(pieces), w, maxLen);
  }

  /** And of any other the packet it was. */
  lemma FittingPieces(p: Packet, q: S.OutPacket, mtu: nat, w: nat, key: int, keys: set<int>, maxLen: nat,
                      pieces: seq<seq<byte>>)
    requires Encodable(p, MAX_RECURSION) && Prepared(p, q) && D.IsMtu(mtu) && |Encode(p)| <= maxLen && S.Going(q)
    requires w == mtu - D.UDP_RELIABLE_LENGTH && KidsFit(p, w) && 1 <= DivRoundUp(|Encode(p)|, w) <= 255
    requires pieces == D.Pieces(q, w, DivRoundUp(|Encode(p)|, w))
    ensures [] !in pieces && IsPacket(Goal(SetOf(pieces, key, keys), maxLen), p)
  {
    LosesIffKids(p, q, w);
    D.PiecesAreWhole(q, w, DivRoundUp(|Encode(p)|, w));
    D.WindowsCount(Encode(p), w);
    GoalIsPacket(p, mtu, key, keys, maxLen);
  }

  /** The sender's half: the whole set, if the children fit. */
  method Send(p: Packet, d: Buffer, mtu: nat, sequence: nat) returns (sent: seq<seq<byte>>, ghost q: S.OutPacket)
    requires Encodable(p, MAX_RECURSION) && D.IsMtu(mtu)
    requires DivRoundUp(|Encode(p)|, mtu - D.UDP_RELIABLE_LENGTH) <= 255 && d.Valid() && mtu <= d.data.Length
    modifies d, d.data
    ensures var w := mtu - D.UDP_RELIABLE_LENGTH;
            var count := DivRoundUp(|Encode(p)|, w);
            Prepared(p, q) && S.Going(q) && count > 0 && Carries(sent, D.Pieces(q, w, count), sequence)
            && (KidsFit(p, w) ==> D.IsSet(sent, Encode(p), mtu, sequence, 0))
  {
    S.TreeAccepted(p, 0);
    S.TreeWire(p);
    var r := S.Prep(S.FromTree(p), 0);
    q := r.value.0;
    LosesIffKids(p, q, mtu - D.UDP_RELIABLE_LENGTH);
    var last;
    sent, last := D.WriteoutUc(r.value.0, d, mtu, sequence, r.value.1);
    PiecesArePayloads(p, q, mtu - D.UDP_RELIABLE_LENGTH, DivRoundUp(|Encode(p)|, mtu - D.UDP_RELIABLE_LENGTH));
  }

  /** Any encodable tree, prepared, written and sent, then anything the network does with its datagrams: if its children
      fit the first window the receiver ends up with that tree just if all arrive and none has two tags; if they do not,
      it ends up with no packet. */
  method Convey(p: Packet, d: Buffer, mtu: nat, sequence: nat, network: seq<seq<byte>> -> seq<Event>, cache: Cache,
                keyOf: KeyOf, maxLen: nat, knownType: seq<byte> -> bool, inflate: seq<byte> -> Option<Raw>,
                ghost key: int, ghost keys: set<int>)
      returns (sent: seq<seq<byte>>, out: seq<(int, Option<Raw>)>)
    requires Encodable(p, MAX_RECURSION) && |Encode(p)| <= maxLen && D.IsMtu(mtu) && sequence < 65536
    requires DivRoundUp(|Encode(p)|, mtu - D.UDP_RELIABLE_LENGTH) <= 255 && d.Valid() && mtu <= d.data.Length
    requires cache.Valid() && key !in cache.entries && cache.entries.Keys + {key} <= keys && |keys| <= cache.size
    requires forall s :: OrderlyAll(network(s), keyOf, key, keys, s) && Timely(network(s), keyOf, key, |s|, {}, 0)
    modifies d, d.data, cache, cache.owned
    ensures KidsFit(p, mtu - D.UDP_RELIABLE_LENGTH) ==>
              D.IsSet(sent, Encode(p), mtu, sequence, 0) && Delivered(out, p, network(sent), keyOf, key, sequence, sent)
    ensures !KidsFit(p, mtu - D.UDP_RELIABLE_LENGTH) ==> AllAre(Of(out, key), None)
  {
    ghost var q;
    sent, q := Send(p, d, mtu, sequence);
    ghost var w := mtu - D.UDP_RELIABLE_LENGTH;
    ghost var pieces := D.Pieces(q, w, DivRoundUp(|Encode(p)|, w));
    out := TransmitSet(cache, keyOf, network(sent), maxLen, knownType, inflate, pieces, sequence, sent, key, keys);
    if KidsFit(p, w) {
      FittingPieces(p, q, mtu, w, key, keys, maxLen, pieces);
    } else {
      LostIsNoPacket(p, q, w, DivRoundUp(|Encode(p)|, w), key, keys, maxLen);
    }
  }
}
