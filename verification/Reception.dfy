/** What handle_udp_packet does with a datagram around reassembly: reading its header, handing on a packet that
    came in one piece, and whole runs of datagrams from many senders (G2UDP.c). */
module Reception {
  import opened Bits
  import opened Buffers
  import opened Options
  import opened Packets
  import opened Extraction
  import opened Decoder
  import opened Knots
  import opened Reassembly
  import opened ReasRuns
  import opened ReasCache
  import D = Datagrams
  import Sets

  /** A datagram whose header was read. */
  datatype Arrival = Arrival(sequence: nat, part: nat, count: nat, deflate: bool, ackMe: bool, payload: seq<byte>)

  predicate Tagged(s: seq<byte>) {
    |s| >= 3 && s[0] == 0x47 && s[1] == 0x4E && s[2] == 0x44
  }

  /** FLAG_CRITICAL: the flags whose meaning has to be known. */
  predicate Critical(flags: byte) {
    flags / 4 % 4 != 0
  }

  /** The datagrams that are looked at: with a tag, no unknown critical flag, a payload that does not itself
      begin with the tag, and a part that the count allows. A count of 0 is an acknowledgement. */
  function Opened(s: seq<byte>): (r: Option<Arrival>) {
    if |s| < D.UDP_RELIABLE_LENGTH || !Tagged(s) || Critical(s[3]) || s[7] == 0 || s[7] < s[6]
       || s[8..] == [] || Tagged(s[8..]) then None
    else Some(Arrival(s[4] + s[5] as int * 256, s[6], s[7], s[3] % 2 == 1, s[3] / 2 % 2 == 1, s[8..]))
  }

  /** A header reads back, and exactly these datagrams are looked at. */
  lemma DatagramReadsBack(sequence: nat, part: byte, count: byte, flags: byte, payload: seq<byte>)
    requires sequence < 65536
    ensures Opened(D.GndHeader(sequence, part, count, flags) + payload)
            == if part <= count && count > 0 && !Critical(flags) && payload != [] && !Tagged(payload)
               then Some(Arrival(sequence, part, count, flags % 2 == 1, flags / 2 % 2 == 1, payload))
               else None
  {
    var s := D.GndHeader(sequence, part, count, flags) + payload;
    assert s[8..] == payload;
    assert s[0] == 0x47 && s[1] == 0x4E && s[2] == 0x44 && s[3] == flags && s[6] == part && s[7] == count;
    assert s[4] == sequence % 256 && s[5] == sequence / 256 % 256;
  }

  /** Datagrams of several parts that are looked at go into reassembly, and there the bitmap is accessed inside its
      words just if the part is not 0. */
  lemma BitmapAccess(s: seq<byte>)
    requires Opened(s).Some?
    ensures var a := Opened(s).value;
            a.part <= a.count <= MAX_PARTS && (BitIndex(a.part) / WORD_BITS < WORDS <==> a.part >= 1)
  {
    IndexInside(Opened(s).value.part);
  }

  /** A datagram with part 0 that is looked at. */
  lemma PartZeroIsOpened()
    ensures Opened(D.GndHeader(7, 0, 2, 0) + [0x41]) == Some(Arrival(7, 0, 2, false, false, [0x41]))
    ensures BitIndex(0) / WORD_BITS >= WORDS
  {
    DatagramReadsBack(7, 0, 2, 0, [0x41]);
  }

  /** The first half of handle_udp_packet, on the buffer of the datagram. */
  method Open(d: Buffer) returns (r: Option<Arrival>)
    requires d.Valid()
    modifies d`pos
    ensures d.Valid() && r == Opened(old(d.Unread()))
    ensures r.Some? ==> r.value.payload == d.Unread()
  {
    ghost var s := d.Unread();
    if d.Remaining() < D.UDP_RELIABLE_LENGTH {
      return None;
    }
    if d.data[d.pos] != 0x47 || d.data[d.pos + 1] != 0x4E || d.data[d.pos + 2] != 0x44 {
      return None;
    }
    d.pos := d.pos + 3;
    var flags := d.data[d.pos];
    d.pos := d.pos + 1;
    if Critical(flags) {
      return None;
    }
    var sequence := d.data[d.pos] + d.data[d.pos + 1] as int * 256;
    d.pos := d.pos + 2;
    var part := d.data[d.pos];
    d.pos := d.pos + 1;
    var count := d.data[d.pos];
    d.pos := d.pos + 1;
    assert d.Unread() == s[8..] && part == s[6] && count == s[7] && flags == s[3]
           && sequence == s[4] + s[5] as int * 256;
    OpenedIs(s);
    var ok := Proper(d, part, count);
    if !ok {
      return None;
    }
    return Some(Arrival(sequence, part, count, flags % 2 == 1, flags / 2 % 2 == 1, d.data[d.pos..d.limit]));
  }

  lemma OpenedIs(s: seq<byte>)
    requires |s| >= D.UDP_RELIABLE_LENGTH && Tagged(s) && !Critical(s[3])
    ensures Opened(s) == if s[7] != 0 && s[8..] != [] && !Tagged(s[8..]) && s[6] <= s[7]
                         then Some(Arrival(s[4] + s[5] as int * 256, s[6], s[7], s[3] % 2 == 1, s[3] / 2 % 2 == 1,
                                           s[8..]))
                         else None
  {
  }

  /** The checks behind the header. */
  method Proper(d: Buffer, part: byte, count: byte) returns (ok: bool)
    requires d.Valid()
    ensures ok == (count != 0 && d.Unread() != [] && !Tagged(d.Unread()) && part <= count)
  {
    assert forall k :: 0 <= k < |d.Unread()| ==> d.data[d.pos + k] == d.Unread()[k];
    if count == 0 {
      return false;
    }
    if d.Remaining() == 0 {
      return false;
    }
    if d.Remaining() >= 3 && d.data[d.pos] == 0x47 && d.data[d.pos + 1] == 0x4E && d.data[d.pos + 2] == 0x44 {
      return false;
    }
    return count >= part;
  }

  /** A datagram that is a packet by itself: the extractor gets one chance. */
  method Single(d: Buffer, knownType: seq<byte> -> bool) returns (r: Option<Raw>)
    requires d.Valid()
    modifies d`pos
    ensures r == Parsed(old(d.Unread()), |old(d.Unread())|)
  {
    var target := new InPacket(knownType);
    ghost var f := Verdicts(AtControl, d.Unread(), d.Remaining());
    AgreesNow(f, AtControl, d.Unread(), d.Remaining());
    var ok := target.Extract(d, d.Remaining(), false, f);
    if ok && target.Done() {
      return Some(Raw(target.header, target.trunk.Unread()));
    }
    return None;
  }

  // ---------------------------------------------------------------------------------------------
  // Runs
  // ---------------------------------------------------------------------------------------------

  /** A datagram comes from a sender, or the sets that have waited too long are dropped. */
  datatype Event = Arrives(from: nat, datagram: seq<byte>, now: int) | Expires(now: int)

  /** The key of a sender and a sequence number in the cache. */
  type KeyOf = (nat, nat) -> int

  /** The uncompressed set whose fate is followed: its key and content, and the keys of all sets there are. */
  datatype Watched = Watched(key: int, content: nat -> seq<byte>, count: nat, keys: set<int>)

  ghost predicate Sound(w: Watched) {
    Sendable(w.content, w.count)
    && forall p :: 1 <= p <= w.count ==> |w.content(p)| <= KNOT_ROOM - D.UDP_RELIABLE_LENGTH
  }

  predicate IsKey(e: Event, keyOf: KeyOf, key: int) {
    e.Arrives? && Opened(e.datagram).Some? && keyOf(e.from, Opened(e.datagram).value.sequence) == key
  }

  /** An event of the run: no datagram has part 0 of several, and one that has the key of the set is a datagram of the
      set. */
  ghost predicate Fitting(e: Event, keyOf: KeyOf, w: Watched) {
    e.Arrives? && Opened(e.datagram).Some? ==>
      var a := Opened(e.datagram).value;
      (a.count > 1 ==> a.part >= 1) && keyOf(e.from, a.sequence) in w.keys
      && (IsKey(e, keyOf, w.key) ==>
            a == Arrival(a.sequence, a.part, w.count, false, a.ackMe, w.content(a.part)) && a.part >= 1)
  }

  ghost predicate FittingAll(events: seq<Event>, keyOf: KeyOf, w: Watched) {
    forall e :: e in events ==> Fitting(e, keyOf, w)
  }

  /** What of the set is there after an event. */
  ghost function NextParts(e: Event, keyOf: KeyOf, key: int, count: nat, ps: set<nat>): (next: set<nat>) {
    if !IsKey(e, keyOf, key) then ps
    else
      var got := ps + {Opened(e.datagram).value.part};
      if got == All(count) then {} else got
  }

  /** And when it was last added to. */
  ghost function NextWhen(e: Event, keyOf: KeyOf, key: int, ps: set<nat>, when: int): (next: int) {
    if IsKey(e, keyOf, key) && Opened(e.datagram).value.part !in ps then e.now else when
  }

  /** Whenever sets are expired, the set with the key has no parts, or its last new one came within the timeout. */
  ghost predicate Timely(events: seq<Event>, keyOf: KeyOf, key: int, count: nat, ps: set<nat>, when: int)
    decreases |events|
  {
    events != [] ==>
      var e := events[0];
      (e.Expires? ==> ps == {} || when >= e.now - UDP_REAS_TIMEOUT)
      && Timely(events[1..], keyOf, key, count, NextParts(e, keyOf, key, count, ps), NextWhen(e, keyOf, key, ps, when))
  }

  /** The datagrams of the set among the events. */
  ghost function Mine(events: seq<Event>, keyOf: KeyOf, key: int): (ds: seq<Datagram>) {
    if events == [] then []
    else
      (if IsKey(events[0], keyOf, key)
       then var a := Opened(events[0].datagram).value; [Datagram(a.part, a.count, a.deflate, a.payload)] else [])
      + Mine(events[1..], keyOf, key)
  }

  /** The cache has room for all sets, and of the watched one it has the parts ps, the last of them since `when`. */
  ghost predicate Watching(cache: Cache, w: Watched, ps: set<nat>, when: int)
    reads cache, cache.owned
  {
    cache.Valid() && cache.entries.Keys <= w.keys && w.key in w.keys && |w.keys| <= cache.size && ps < All(w.count)
    && cache.At(w.key) == Having(ps, w.content, w.count, false) && (ps != {} ==> cache.When(w.key) == Some(when))
  }

  /** The packet of the set: a single datagram is itself the limit for its packet. */
  ghost function Goal(w: Watched, maxLen: nat): (r: Option<Raw>) {
    Parsed(Payload(w.content, w.count), if w.count == 1 then |w.content(1)| else maxLen)
  }

  /** What comes of a datagram: `mine` says that it was one of the set. */
  ghost predicate Followed(w: Watched, ps: set<nat>, mine: bool, part: nat, r: Answer, next: set<nat>,
                           goal: Option<Raw>) {
    if mine then
      var got := ps + {part};
      (r.Parse? <==> got == All(w.count)) && (r.Parse? ==> r.packet == goal)
      && next == if got == All(w.count) then {} else got
    else next == ps
  }

  lemma RoomForKey(entries: map<int, ReasEntry>, keys: set<int>, key: int, size: nat)
    requires entries.Keys <= keys && key in keys && |keys| <= size
    ensures key in entries || |entries| < size
  {
    if key !in entries {
      Sets.SubsetCard(entries.Keys, keys - {key});
    }
  }

  /** A datagram of several parts. */
  method HandlePart(cache: Cache, key: int, d: Datagram, now: int, maxLen: nat, knownType: seq<byte> -> bool,
                    inflate: seq<byte> -> Option<Raw>, ghost w: Watched, ghost ps: set<nat>, ghost when: int)
      returns (r: Answer, ghost next: set<nat>)
    requires Watching(cache, w, ps, when) && Sound(w) && key in w.keys
    requires 1 <= d.part <= d.count <= MAX_PARTS && d.count > 1 && |d.payload| <= KNOT_ROOM
    requires key == w.key ==> d == Datagram(d.part, w.count, false, w.content(d.part))
    modifies cache, cache.owned
    ensures Followed(w, ps, key == w.key, d.part, r, next, Goal(w, maxLen)) && fresh(cache.owned - old(cache.owned))
    ensures Watching(cache, w, next, if key == w.key && d.part !in ps then now else when)
  {
    RoomForKey(cache.entries, w.keys, key, cache.size);
    ghost var before := cache.entries;
    ghost var victim;
    r, victim := Receive(cache, key, d, now, maxLen, knownType, inflate);
    next := ps;
    if key == w.key {
      MyPart(w, ps, d, r, maxLen, inflate);
      next := if ps + {d.part} == All(w.count) then {} else ps + {d.part};
    } else {
      assert w.key in before ==> cache.Stays(w.key);
    }
  }

  /** A datagram of the set takes the step that the set takes. */
  lemma MyPart(w: Watched, ps: set<nat>, d: Datagram, r: Answer, maxLen: nat, inflate: seq<byte> -> Option<Raw>)
    requires Sound(w) && ps < All(w.count) && w.count > 1 && 1 <= d.part <= w.count
    requires d == Datagram(d.part, w.count, false, w.content(d.part))
    requires Answers(r, Having(ps, w.content, w.count, false), d, maxLen, inflate)
    ensures var got := ps + {d.part};
            (r.Parse? <==> got == All(w.count)) && !r.Astray? && (r.Parse? ==> r.packet == Goal(w, maxLen))
            && Step(Having(ps, w.content, w.count, false), d).0
               == Having(if got == All(w.count) then {} else got, w.content, w.count, false)
    ensures !r.Parse? ==> ps + {d.part} < All(w.count)
    ensures {} < All(w.count)
  {
    assert OneSet([d], w.content, w.count, false);
    StepHaving(ps, d, w.content, w.count, false);
    assert 1 in All(w.count);
    if r.Parse? {
      var parts := Filled(All(w.count), w.content);
      var knots :| Holds(parts, knots) && r.packet == Outcome(knots, maxLen);
      SetParsed(knots, w.content, w.count, maxLen);
    }
  }

  /** A datagram that is a packet by itself, compressed or not. */
  method HandleSingle(a: Arrival, d: Buffer, ghost maxLen: nat, knownType: seq<byte> -> bool,
                      inflate: seq<byte> -> Option<Raw>, ghost mine: bool, ghost w: Watched, ghost ps: set<nat>)
      returns (r: Answer)
    requires d.Valid() && d.Unread() == a.payload && ps < All(w.count)
    requires mine ==> w.count == 1 && a == Arrival(a.sequence, 1, 1, false, a.ackMe, w.content(1))
    modifies d`pos
    ensures Followed(w, ps, mine, a.part, r, ps, Goal(w, maxLen)) && (mine ==> ps == {})
    ensures r == Parse(if a.deflate then inflate(a.payload) else Parsed(a.payload, |a.payload|))
  {
    var packet;
    if a.deflate {
      packet := inflate(a.payload);
    } else {
      packet := Single(d, knownType);
    }
    if mine {
      OnePart(w, ps);
    }
    return Parse(packet);
  }

  lemma OnePart(w: Watched, ps: set<nat>)
    requires w.count == 1 && ps < All(1)
    ensures ps == {} && {1} == All(1) && Payload(w.content, 1) == w.content(1)
  {
    assert 1 in All(1);
    assert Payload(w.content, 0) == [];
  }

  /** The second half of handle_udp_packet, for a datagram that is looked at: one that fills its buffer so far that a
      knot does not fit behind it is not put together with others. */
  method HandleOpened(cache: Cache, key: int, a: Arrival, d: Buffer, now: int, maxLen: nat,
                      knownType: seq<byte> -> bool, inflate: seq<byte> -> Option<Raw>, ghost w: Watched,
                      ghost ps: set<nat>, ghost when: int)
      returns (r: Answer, ghost next: set<nat>)
    requires Watching(cache, w, ps, when) && Sound(w) && key in w.keys
    requires d.Valid() && d.Unread() == a.payload && 1 <= a.count <= MAX_PARTS && a.part <= a.count
    requires a.count > 1 ==> a.part >= 1
    requires key == w.key ==>
               a == Arrival(a.sequence, a.part, w.count, false, a.ackMe, w.content(a.part)) && a.part >= 1
    modifies cache, cache.owned, d`pos
    ensures Followed(w, ps, key == w.key, a.part, r, next, Goal(w, maxLen)) && fresh(cache.owned - old(cache.owned))
    ensures Watching(cache, w, next, if key == w.key && a.part !in ps then now else when)
  {
    next := ps;
    if a.count > 1 {
      if D.UDP_RELIABLE_LENGTH + |a.payload| > KNOT_ROOM {
        return Waiting, next;
      }
      var part := Datagram(a.part, a.count, a.deflate, a.payload);
      r, next := HandlePart(cache, key, part, now, maxLen, knownType, inflate, w, ps, when);
    } else {
      r := HandleSingle(a, d, maxLen, knownType, inflate, key == w.key, w, ps);
    }
  }

  /** What an event means for the set: ps has arrived before it. */
  ghost predicate Told(w: Watched, ps: set<nat>, e: Event, keyOf: KeyOf, r: Option<(int, Option<Raw>)>,
                       goal: Option<Raw>) {
    if IsKey(e, keyOf, w.key) then
      (r.Some? <==> ps + {Opened(e.datagram).value.part} == All(w.count)) && (r.Some? ==> r.value == (w.key, goal))
    else r.Some? ==> r.value.0 != w.key
  }

  /** Sets are expired; the watched one is not. */
  method Expire(cache: Cache, now: int, ghost w: Watched, ghost ps: set<nat>, ghost when: int)
    requires Watching(cache, w, ps, when) && (ps == {} || when >= now - UDP_REAS_TIMEOUT)
    modifies cache`entries
    ensures Watching(cache, w, ps, when)
  {
    cache.Timeout(now);
    assert forall k :: k in cache.entries ==> k in w.keys;
  }

  /** A datagram arrives. */
  method Arrive(cache: Cache, keyOf: KeyOf, e: Event, maxLen: nat, knownType: seq<byte> -> bool,
                inflate: seq<byte> -> Option<Raw>, ghost w: Watched, ghost ps: set<nat>, ghost when: int,
                ghost goal: Option<Raw>)
      returns (r: Option<(int, Option<Raw>)>)
    requires e.Arrives? && Watching(cache, w, ps, when) && Sound(w) && Fitting(e, keyOf, w) && goal == Goal(w, maxLen)
    modifies cache, cache.owned
    ensures fresh(cache.owned - old(cache.owned)) && Told(w, ps, e, keyOf, r, goal)
    ensures Watching(cache, w, NextParts(e, keyOf, w.key, w.count, ps), NextWhen(e, keyOf, w.key, ps, when))
  {
    var d := Load(e.datagram);
    var a := Open(d);
    if a.None? {
      return None;
    }
    var key := keyOf(e.from, a.value.sequence);
    var answer, next := HandleOpened(cache, key, a.value, d, e.now, maxLen, knownType, inflate, w, ps, when);
    return if answer.Parse? then Some((key, answer.packet)) else None;
  }

  /** One event; a packet comes with the key of its set. */
  method HandleEvent(cache: Cache, keyOf: KeyOf, e: Event, maxLen: nat, knownType: seq<byte> -> bool,
                     inflate: seq<byte> -> Option<Raw>, ghost w: Watched, ghost ps: set<nat>, ghost when: int,
                     ghost goal: Option<Raw>)
      returns (r: Option<(int, Option<Raw>)>)
    requires Watching(cache, w, ps, when) && Sound(w) && Fitting(e, keyOf, w) && goal == Goal(w, maxLen)
    requires e.Expires? ==> ps == {} || when >= e.now - UDP_REAS_TIMEOUT
    modifies cache, cache.owned
    ensures fresh(cache.owned - old(cache.owned)) && Told(w, ps, e, keyOf, r, goal)
    ensures Watching(cache, w, NextParts(e, keyOf, w.key, w.count, ps), NextWhen(e, keyOf, w.key, ps, when))
  {
    if e.Expires? {
      Expire(cache, e.now, w, ps, when);
      r := None;
    } else {
      r := Arrive(cache, keyOf, e, maxLen, knownType, inflate, w, ps, when, goal);
    }
  }

  /** The packets that came with a key. */
  ghost function Of(out: seq<(int, Option<Raw>)>, key: int): (r: seq<Option<Raw>>) {
    if out == [] then [] else (if out[0].0 == key then [out[0].1] else []) + Of(out[1..], key)
  }

  lemma RunNext(ps: set<nat>, ds: seq<Datagram>, w: Watched)
    requires ds != [] && OneSet([ds[0]], w.content, w.count, false) && ps < All(w.count)
    ensures var all := ps + {ds[0].part};
            |Run(Having(ps, w.content, w.count, false), ds)|
            == if all == All(w.count) then 1 + |Run(None, ds[1..])|
               else |Run(Having(all, w.content, w.count, false), ds[1..])|
  {
    StepHaving(ps, ds[0], w.content, w.count, false);
  }

  lemma {:induction false} MineAreOneSet(events: seq<Event>, keyOf: KeyOf, w: Watched)
    requires FittingAll(events, keyOf, w)
    ensures OneSet(Mine(events, keyOf, w.key), w.content, w.count, false)
  {
    if events != [] {
      assert Fitting(events[0], keyOf, w);
      MineAreOneSet(events[1..], keyOf, w);
    }
  }

  /** A run of datagrams from any senders, of any sets and with expiry in between, in a cache with room for all of them:
      of the watched set, if it is not expired, as many packets come out as its own datagrams have completions, each
      the packet at the head of the contents in part order. */
  method HandleAll(cache: Cache, keyOf: KeyOf, events: seq<Event>, maxLen: nat, knownType: seq<byte> -> bool,
                   inflate: seq<byte> -> Option<Raw>, ghost w: Watched, ghost ps: set<nat>, ghost when: int,
                   ghost goal: Option<Raw>)
      returns (out: seq<(int, Option<Raw>)>)
    requires Watching(cache, w, ps, when) && Sound(w) && FittingAll(events, keyOf, w) && goal == Goal(w, maxLen)
    requires Timely(events, keyOf, w.key, w.count, ps, when)
    modifies cache, cache.owned
    ensures |Of(out, w.key)| == |Run(Having(ps, w.content, w.count, false), Mine(events, keyOf, w.key))|
    ensures AllAre(Of(out, w.key), goal)
    decreases |events|
  {
    if events == [] {
      return [];
    }
    FittingSplit(events, keyOf, w);
    var r := HandleEvent(cache, keyOf, events[0], maxLen, knownType, inflate, w, ps, when, goal);
    ghost var next := NextParts(events[0], keyOf, w.key, w.count, ps);
    ghost var since := NextWhen(events[0], keyOf, w.key, ps, when);
    var rest := HandleAll(cache, keyOf, events[1..], maxLen, knownType, inflate, w, next, since, goal);
    out := (if r.Some? then [r.value] else []) + rest;
    OneMore(w, ps, events, keyOf, r, goal, rest);
  }

  lemma FittingSplit(events: seq<Event>, keyOf: KeyOf, w: Watched)
    requires events != [] && FittingAll(events, keyOf, w)
    ensures Fitting(events[0], keyOf, w) && FittingAll(events[1..], keyOf, w)
  {
    assert events[0] in events;
  }

  lemma OfCons(x: (int, Option<Raw>), out: seq<(int, Option<Raw>)>, key: int, goal: Option<Raw>)
    requires AllAre(Of(out, key), goal) && (x.0 == key ==> x.1 == goal)
    ensures AllAre(Of([x] + out, key), goal)
    ensures |Of([x] + out, key)| == |Of(out, key)| + if x.0 == key then 1 else 0
  {
    assert ([x] + out)[1..] == out;
  }

  lemma OneMore(w: Watched, ps: set<nat>, events: seq<Event>, keyOf: KeyOf, r: Option<(int, Option<Raw>)>,
                goal: Option<Raw>, rest: seq<(int, Option<Raw>)>)
    requires events != [] && FittingAll(events, keyOf, w) && ps < All(w.count)
    requires Told(w, ps, events[0], keyOf, r, goal) && AllAre(Of(rest, w.key), goal)
    requires |Of(rest, w.key)|
             == |Run(Having(NextParts(events[0], keyOf, w.key, w.count, ps), w.content, w.count, false),
                     Mine(events[1..], keyOf, w.key))|
    ensures var out := (if r.Some? then [r.value] else []) + rest;
            |Of(out, w.key)| == |Run(Having(ps, w.content, w.count, false), Mine(events, keyOf, w.key))|
            && AllAre(Of(out, w.key), goal)
  {
    RunsOn(w, ps, events, keyOf);
    if r.Some? {
      OfCons(r.value, rest, w.key, goal);
    } else {
      assert [] + rest == rest;
    }
  }

  /** Whether the event completes the set. */
  ghost predicate Completing(e: Event, keyOf: KeyOf, w: Watched, ps: set<nat>) {
    IsKey(e, keyOf, w.key) && ps + {Opened(e.datagram).value.part} == All(w.count)
  }

  lemma RunsOn(w: Watched, ps: set<nat>, events: seq<Event>, keyOf: KeyOf)
    requires events != [] && FittingAll(events, keyOf, w) && ps < All(w.count)
    ensures |Run(Having(ps, w.content, w.count, false), Mine(events, keyOf, w.key))|
            == |Run(Having(NextParts(events[0], keyOf, w.key, w.count, ps), w.content, w.count, false),
                    Mine(events[1..], keyOf, w.key))|
               + if Completing(events[0], keyOf, w, ps) then 1 else 0
  {
    MineAreOneSet(events, keyOf, w);
    var ds, rest := Mine(events, keyOf, w.key), Mine(events[1..], keyOf, w.key);
    if IsKey(events[0], keyOf, w.key) {
      assert ds[1..] == rest;
      OneSetSplit(ds, w.content, w.count, false);
      RunNext(ps, ds, w);
    } else {
      assert ds == rest;
    }
  }
}
