/** The reassembly cache (G2UDP.c): the sets being collected, keyed by sender and sequence number, with
    eviction of the oldest and expiry. */
module ReasCache {
  import opened Buffers
  import opened Options
  import opened Packets
  import opened Knots
  import opened Reassembly
  import opened ReasRuns
  import Sets

  const UDP_REAS_TIMEOUT := 30

  lemma StepFromNothing(d: Datagram)
    ensures Step(Some(Collected(map[], d.count, d.deflate)), d) == Step(None, d)
  {
  }

  /** What comes of a datagram: an access outside the bitmap, nothing yet, or a complete set. */
  datatype Reply = Outside | Nothing | Whole(knots: seq<Knot>)

  /** The datagram belongs to the set that is being collected, if there is one. */
  predicate Belongs(s: Option<Collected>, d: Datagram) {
    s.None? || (s.value.deflate == d.deflate && s.value.count == d.count)
  }

  /** When a set was last added to, after a datagram: now, unless its part was there already. */
  ghost function Renewed(s: Option<Collected>, d: Datagram, was: int, now: int): (when: int) {
    if s.Some? && d.part in s.value.parts then was else now
  }

  /** A datagram that belongs to the set, and is not of part 0. */
  lemma StepOfSet(c: Collected, d: Datagram, parts: Parts)
    requires c.deflate == d.deflate && c.count == d.count
    requires parts == if d.part in c.parts then c.parts else c.parts[d.part := d.payload]
    ensures Step(Some(c), d) == if d.part !in c.parts && AllThere(parts, c.count) then (None, Some(parts))
                                else (Some(c.(parts := parts)), None)
  {
  }

  /** What a datagram does to its own set s, which was last added to at `was`: the set and its time afterwards. Part 0
      of a set it belongs to is looked up outside the bitmap. */
  ghost predicate After(s: Option<Collected>, was: int, d: Datagram, now: int, r: Reply, at: Option<Collected>,
                        when: Option<int>) {
    if d.part == 0 && Belongs(s, d) then r.Outside?
    else
      var (s', fired) := Step(s, d);
      at == s' && !r.Outside? && (r.Whole? <==> fired.Some?) && (r.Whole? ==> Holds(fired.value, r.knots))
      && when == if s'.Some? then Some(Renewed(s, d, was, now)) else None
  }

  /** A datagram of a set it belongs to, after the entry has taken the part. */
  lemma AfterPart(c: Collected, was: int, d: Datagram, now: int, complete: bool, parts: Parts, when: int, r: Reply)
    requires c.deflate == d.deflate && c.count == d.count && d.part != 0
    requires parts == if d.part in c.parts then c.parts else c.parts[d.part := d.payload]
    requires when == (if d.part in c.parts then was else now)
    requires complete == (d.part !in c.parts && AllThere(parts, c.count))
    requires r.Nothing? || r.Whole?
    requires r.Whole? <==> complete
    requires r.Whole? ==> Holds(parts, r.knots)
    ensures After(Some(c), was, d, now, r, if complete then None else Some(c.(parts := parts)),
                  if complete then None else Some(when))
  {
    StepOfSet(c, d, parts);
  }

  /** Every set has an entry of its own. */
  ghost predicate Apart(entries: map<int, ReasEntry>, owned: set<ReasEntry>) {
    (forall k :: k in entries ==> entries[k] in owned)
    && forall j, k :: j in entries && k in entries && entries[j] == entries[k] ==> j == k
  }

  class Cache {
    const size: nat
    var entries: map<int, ReasEntry>
    ghost var owned: set<ReasEntry>

    constructor (size: nat)
      ensures Valid() && entries == map[] && this.size == size && owned == {}
    {
      this.size, entries, owned := size, map[], {};
    }

    ghost predicate Valid()
      reads this, owned
    {
      |entries| <= size && Apart(entries, owned) && forall e :: e in owned ==> e.Valid()
    }

    ghost function At(key: int): Option<Collected>
      reads this, owned
    {
      if key in entries && entries[key] in owned
      then Some(Collected(entries[key].parts, entries[key].partCount, entries[key].deflate)) else None
    }

    /** The tree's last entry: one that is older than no other. */
    method Oldest() returns (key: int)
      requires entries.Keys != {}
      ensures key in entries && forall k :: k in entries ==> entries[key].when <= entries[k].when
    {
      key := Sets.Pick(entries.Keys);
      var todo := entries.Keys - {key};
      while todo != {}
        invariant key in entries && todo <= entries.Keys
        invariant forall k :: k in entries && k !in todo ==> entries[key].when <= entries[k].when
        decreases |todo|
      {
        var k := Sets.Pick(todo);
        if entries[k].when < entries[key].when {
          key := k;
        }
        todo := todo - {k};
      }
    }

    /** When the set with the key was last added to. */
    ghost function When(key: int): (when: Option<int>)
      reads this, owned
    {
      if key in entries && entries[key] in owned then Some(entries[key].when) else None
    }

    /** A set, as it was. */
    twostate predicate Stays(k: int)
      reads this, owned
    {
      k in entries && k in old(entries) && entries[k] == old(entries[k]) && At(k) == old(At(k))
      && When(k) == old(When(k))
    }

    /** All sets of `before` but the one with the key are as they were, and there are no others. */
    twostate predicate OthersStay(key: int, before: map<int, ReasEntry>)
      reads this, owned
    {
      entries.Keys <= before.Keys + {key} && forall k :: k in before && k != key ==> Stays(k)
    }

    /** A part for one set leaves the others alone. */
    method PartInto(key: int, d: Datagram, now: int) returns (added: Added)
      requires Valid() && key in entries && d.part <= entries[key].partCount && |d.payload| <= KNOT_ROOM
      modifies entries[key]
      ensures Valid() && OthersStay(key, entries) && (added.NoBit? <==> d.part == 0)
      ensures var e := entries[key];
              e.parts == (if d.part == 0 || d.part in old(e.parts) then old(e.parts)
                          else old(e.parts)[d.part := d.payload])
              && e.when == (if d.part == 0 || d.part in old(e.parts) then old(e.when) else now)
              && (added.Kept? ==> added.complete == (d.part !in old(e.parts) && AllThere(e.parts, e.partCount)))
    {
      added := entries[key].AddPart(d.part, d.payload, now);
      forall k | k in entries && k != key ensures Stays(k) {
        assert entries[k] != entries[key];
      }
    }

    /** g2_udp_reas_add for a set that is being collected. */
    method AddKnown(key: int, d: Datagram, now: int, ghost s: Option<Collected>) returns (r: Reply)
      requires Valid() && key in entries && d.part <= d.count <= MAX_PARTS && |d.payload| <= KNOT_ROOM
      requires s == At(key)
      modifies this`entries, entries[key]
      ensures Valid() && owned == old(owned) && (key in entries ==> entries[key] == old(entries[key]))
      ensures After(s, old(entries[key].when), d, now, r, At(key), When(key)) && OthersStay(key, old(entries))
    {
      if entries[key].deflate != d.deflate || entries[key].partCount != d.count {
        Drop(key);
        return Nothing;
      }
      r := AddMatching(key, d, now, s);
    }

    method AddMatching(key: int, d: Datagram, now: int, ghost s: Option<Collected>) returns (r: Reply)
      requires Valid() && key in entries && d.part <= d.count <= MAX_PARTS && |d.payload| <= KNOT_ROOM
      requires s == At(key) && entries[key].deflate == d.deflate && entries[key].partCount == d.count
      modifies this`entries, entries[key]
      ensures Valid() && owned == old(owned) && (key in entries ==> entries[key] == old(entries[key]))
      ensures After(s, old(entries[key].when), d, now, r, At(key), When(key)) && OthersStay(key, old(entries))
    {
      var e := entries[key];
      var added := PartInto(key, d, now);
      if added.NoBit? {
        return Outside;
      }
      r := if added.complete then Whole(e.first) else Nothing;
      AfterPart(s.value, old(e.when), d, now, added.complete, e.parts, e.when, r);
      if added.complete {
        label there:
        Drop(key);
        forall k | k in old(entries) && k != key ensures Stays(k) {
          assert Stays@there(k);
        }
      }
    }

    method Drop(key: int)
      requires Valid() && key in entries
      modifies this`entries
      ensures Valid() && key !in entries && OthersStay(key, old(entries))
    {
      FewerEntries(entries, {key});
      entries := entries - {key};
    }

    /** A new set, for which there is room. */
    method Begin(key: int, d: Datagram, now: int)
      requires Valid() && key !in entries && |entries| < size && 1 <= d.count <= MAX_PARTS
      modifies this
      ensures Valid() && key in entries && fresh(entries[key]) && owned == old(owned) + {entries[key]}
      ensures entries == old(entries)[key := entries[key]] && At(key) == Some(Collected(map[], d.count, d.deflate))
      ensures entries[key].when == now
    {
      var e := new ReasEntry(d.count, d.deflate, now);
      entries, owned := entries[key := e], owned + {e};
    }

    /** A full cache gives up its oldest set, if that is older than now. */
    method Evict(now: int) returns (victim: Option<int>)
      requires Valid() && |entries| == size
      modifies this`entries
      ensures Valid()
      ensures victim.None? ==> entries == old(entries) && forall k :: k in entries ==> entries[k].when >= now
      ensures victim.Some? ==> victim.value in old(entries) && entries == old(entries) - {victim.value}
                               && old(entries[victim.value].when) < now && |entries| < size
                               && forall k :: k in entries ==> old(entries[victim.value].when) <= entries[k].when
    {
      if entries.Keys == {} {
        return None;
      }
      var v := Oldest();
      if entries[v].when >= now {
        return None;
      }
      entries := entries - {v};
      return Some(v);
    }

    method AddNew(key: int, d: Datagram, now: int) returns (r: Reply)
      requires Valid() && key !in entries && |entries| < size
      requires d.part <= d.count <= MAX_PARTS && d.count >= 1 && |d.payload| <= KNOT_ROOM
      modifies this
      ensures Valid() && fresh(owned - old(owned)) && old(owned) <= owned
      ensures After(None, now, d, now, r, At(key), When(key)) && OthersStay(key, old(entries))
    {
      Begin(key, d, now);
      label begun:
      StepFromNothing(d);
      r := AddKnown(key, d, now, At(key));
      forall k | k in old(entries) && k != key ensures Stays(k) {
        assert Stays@begun(k);
      }
    }

    /** g2_udp_reas_add, for every datagram that gets there. The set of the datagram goes on as the datagrams alone
        determine, and no other set changes, but for the oldest one making room in a full cache; if even that one is
        not older than now the datagram is dropped. */
    method Add(key: int, d: Datagram, now: int) returns (r: Reply, ghost victim: Option<int>)
      requires Valid() && d.part <= d.count <= MAX_PARTS && d.count >= 1 && |d.payload| <= KNOT_ROOM
      modifies this, owned
      ensures Valid() && fresh(owned - old(owned))
      ensures victim.Some? ==> key !in old(entries) && |old(entries)| == size && victim.value in old(entries)
      ensures var before := if victim.Some? then old(entries) - {victim.value} else old(entries);
              OthersStay(key, before)
              && if key in old(entries) || |before| < size
                 then After(old(At(key)), old(if key in entries then entries[key].when else now), d, now, r, At(key),
                            When(key))
                 else entries == before && r == Nothing
    {
      victim := None;
      if key in entries {
        r := AddKnown(key, d, now, At(key));
        return;
      }
      if |entries| == size {
        var v := Evict(now);
        victim := v;
        if v.None? {
          return Nothing, victim;
        }
      }
      r := AddNew(key, d, now);
    }

    /** The sets that have waited too long. */
    method Expired(now: int) returns (gone: set<int>)
      ensures forall k :: k in gone <==> k in entries && entries[k].when < now - UDP_REAS_TIMEOUT
    {
      var todo := entries.Keys;
      gone := {};
      while todo != {}
        invariant todo <= entries.Keys
        invariant forall k :: k in gone <==> k in entries && k !in todo && entries[k].when < now - UDP_REAS_TIMEOUT
        decreases |todo|
      {
        var k := Sets.Pick(todo);
        if entries[k].when < now - UDP_REAS_TIMEOUT {
          gone := gone + {k};
        }
        todo := todo - {k};
      }
    }

    /** g2_udp_reas_timeout: the sets that have waited too long go, the others stay. */
    method Timeout(now: int)
      requires Valid()
      modifies this`entries
      ensures Valid()
      ensures forall k :: k in entries <==> k in old(entries) && old(entries[k].when) >= now - UDP_REAS_TIMEOUT
      ensures forall k :: k in entries ==> entries[k] == old(entries[k])
    {
      var gone := Expired(now);
      FewerEntries(entries, gone);
      entries := entries - gone;
    }
  }

  lemma FewerEntries(entries: map<int, ReasEntry>, gone: set<int>)
    ensures |entries - gone| <= |entries|
  {
    Sets.SubsetCard((entries - gone).Keys, entries.Keys);
  }

  /** A set that the receiver can put together: at most 255 parts that fit their buffers, the header in the first. */
  ghost predicate Sendable(content: nat -> seq<byte>, count: nat) {
    1 <= count <= MAX_PARTS && (forall p :: 1 <= p <= count ==> |content(p)| <= KNOT_ROOM) && HeaderIn(content(1))
  }

  lemma SetParsed(knots: seq<Knot>, content: nat -> seq<byte>, count: nat, maxLen: nat)
    requires Sendable(content, count) && Holds(Filled(All(count), content), knots)
    ensures Outcome(knots, maxLen) == Parsed(Payload(content, count), maxLen)
  {
    assert 1 in All(count);
    FilledPayload(content, count, MAX_PARTS);
    ParsedSet(Filled(All(count), content), knots, maxLen);
  }

  /** Some list of buffers holds the parts, and the packet is what reassembly makes of it. */
  ghost predicate FromParts(packet: Option<Raw>, parts: Parts, maxLen: nat) {
    exists knots :: Holds(parts, knots) && packet == Outcome(knots, maxLen)
  }

  /** What comes of a datagram with reassembly: an access outside the bitmap, nothing yet, or what its complete set
      is parsed to. */
  datatype Answer = Astray | Waiting | Parse(packet: Option<Raw>)

  /** The answer that the parts call for: of a compressed set, what its payloads in part order inflate to. */
  ghost predicate Answers(r: Answer, s: Option<Collected>, d: Datagram, maxLen: nat,
                          inflate: seq<byte> -> Option<Raw>) {
    if d.part == 0 && Belongs(s, d) then r == Astray
    else
      var fired := Step(s, d).1;
      (r.Parse? <==> fired.Some?) && !r.Astray?
      && (r.Parse? ==> if d.deflate then r.packet == inflate(UpTo(fired.value, MAX_PARTS))
                       else FromParts(r.packet, fired.value, maxLen))
  }

  /** Any datagram, with reassembly if its set is then complete. */
  method Receive(cache: Cache, key: int, d: Datagram, now: int, maxLen: nat, knownType: seq<byte> -> bool,
                 inflate: seq<byte> -> Option<Raw>)
      returns (r: Answer, ghost victim: Option<int>)
    requires cache.Valid() && d.part <= d.count <= MAX_PARTS && d.count >= 1 && |d.payload| <= KNOT_ROOM
    modifies cache, cache.owned
    ensures cache.Valid() && fresh(cache.owned - old(cache.owned))
    ensures victim.Some? ==> key !in old(cache.entries) && |old(cache.entries)| == cache.size
                             && victim.value in old(cache.entries)
    ensures var before := if victim.Some? then old(cache.entries) - {victim.value} else old(cache.entries);
            var s := old(cache.At(key));
            cache.OthersStay(key, before)
            && if key in old(cache.entries) || |before| < cache.size
               then Answers(r, s, d, maxLen, inflate)
                    && (!r.Astray? ==> cache.At(key) == Step(s, d).0)
                    && (cache.At(key).Some? && !r.Astray? ==>
                          cache.When(key)
                          == Some(Renewed(s, d, old(if key in cache.entries then cache.entries[key].when else now),
                                          now)))
               else cache.entries == before && r == Waiting
  {
    var reply;
    reply, victim := cache.Add(key, d, now);
    match reply
    case Outside => r := Astray;
    case Nothing => r := Waiting;
    case Whole(knots) =>
      var packet := Reassembled(knots, d.deflate, maxLen, knownType, inflate);
      r := Parse(packet);
  }

  method Reassembled(knots: seq<Knot>, deflate: bool, maxLen: nat, knownType: seq<byte> -> bool,
                     inflate: seq<byte> -> Option<Raw>)
      returns (packet: Option<Raw>)
    ensures packet == if deflate then inflate(Bytes(knots)) else Outcome(knots, maxLen)
  {
    if deflate {
      packet := inflate(Bytes(knots));
    } else {
      packet := PacketReasamble(knots, maxLen, knownType);
    }
  }

  ghost predicate AllAre<T(!new)>(s: seq<T>, x: T) {
    forall y :: y in s ==> y == x
  }
}
