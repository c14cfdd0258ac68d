/** Putting a datagram set together again (G2UDP.c): the part bitmap, the entry that collects the parts,
    and the parse of the complete set. */
module Reassembly {
  import opened Buffers
  import opened Options
  import opened Packets
  import opened Extraction
  import opened Bits
  import opened Knots
  import opened Decoder
  import Seqs

  // ---------------------------------------------------------------------------------------------
  // The part bitmap
  // ---------------------------------------------------------------------------------------------

  const WORDS := 4

  predicate BitSet(words: seq<nat>, p: nat)
    requires |words| == WORDS && 1 <= p <= WORDS * WORD_BITS
  {
    TestBit(words[(p - 1) / WORD_BITS], (p - 1) % WORD_BITS)
  }

  /** The words have their 64 bits and nothing above, and bit p - 1 is set for exactly the parts p. */
  ghost predicate Bitmap(words: seq<nat>, m: Parts) {
    |words| == WORDS
    && (forall i, j: nat :: 0 <= i < WORDS && j >= WORD_BITS ==> !TestBit(words[i], j))
    && forall p :: 1 <= p <= WORDS * WORD_BITS ==> (BitSet(words, p) <==> p in m)
  }

  lemma BitmapSet(words: seq<nat>, m: Parts, p: nat, d: seq<byte>)
    requires Bitmap(words, m) && 1 <= p <= WORDS * WORD_BITS
    ensures var i := (p - 1) / WORD_BITS;
            Bitmap(words[i := SetBit(words[i], (p - 1) % WORD_BITS)], m[p := d])
  {
    var i, b := (p - 1) / WORD_BITS, (p - 1) % WORD_BITS;
    var words' := words[i := SetBit(words[i], b)];
    forall k, j: nat | 0 <= k < WORDS && j >= WORD_BITS ensures !TestBit(words'[k], j) {
      SetBitTests(words[i], b, j);
    }
    forall q | 1 <= q <= WORDS * WORD_BITS ensures BitSet(words', q) <==> q in m[p := d] {
      SetBitTests(words[i], b, (q - 1) % WORD_BITS);
    }
  }

  /** The bit number that TST_BIT and SET_BIT are given: part - 1, in unsigned arithmetic. */
  function BitIndex(part: nat): (i: nat) {
    (part - 1) % 0x1_0000_0000_0000_0000
  }

  /** For any part number that fits its byte the bitmap is accessed inside its words just for the parts from 1 on. */
  lemma IndexInside(part: nat)
    requires part <= MAX_PARTS
    ensures BitIndex(part) / WORD_BITS < WORDS <==> part >= 1
    ensures part >= 1 ==> BitIndex(part) == part - 1
  {
  }

  /** How many of the first count bits fall into a word that begins at bit `from`. */
  function InWord(count: nat, from: nat): (n: nat)
    ensures n <= WORD_BITS
  {
    if count <= from then 0 else if count - from >= WORD_BITS then WORD_BITS else count - from
  }

  /** Word i of the bitmap with the first count bits set. */
  function Wanted(count: nat, i: nat): (w: nat) {
    Ones(InWord(count, WORD_BITS * i))
  }

  /** mask | (want ^ word). */
  method Compare(mask: nat, want: nat, word: nat) returns (r: nat)
    ensures r == 0 <==> mask == 0 && word == want
  {
    XorZero(want, word);
    OrZero(mask, Xor(want, word));
    r := Or(mask, Xor(want, word));
  }

  /** The first i words are as wanted. */
  ghost predicate AsWanted(words: seq<nat>, count: nat, i: nat)
    requires i <= |words|
  {
    forall j :: 0 <= j < i ==> words[j] == Wanted(count, j)
  }

  lemma AsWantedNext(words: seq<nat>, count: nat, i: nat)
    requires i < |words|
    ensures AsWanted(words, count, i + 1) <==> AsWanted(words, count, i) && words[i] == Wanted(count, i)
  {
  }

  /** The "all parts received" mask. */
  method RecvMask(words: seq<nat>, count: nat) returns (mask: nat)
    requires |words| == WORDS && count <= MAX_PARTS
    ensures mask == 0 <==> AsWanted(words, count, WORDS)
  {
    mask := 0;
    var pc, i, width := count, 0, WORD_BITS;
    while pc >= WORD_BITS && i < WORDS
      invariant 0 <= i <= WORDS && 0 <= pc == count - WORD_BITS * i
      invariant mask == 0 <==> AsWanted(words, count, i)
    {
      AsWantedNext(words, count, i);
      mask := Compare(mask, Ones(width), words[i]);
      pc, i := pc - WORD_BITS, i + 1;
    }
    if i < WORDS {
      AsWantedNext(words, count, i);
      mask := Compare(mask, Ones(pc), words[i]);
      i := i + 1;
      while i < WORDS
        invariant 0 <= i <= WORDS && count < WORD_BITS * i
        invariant mask == 0 <==> AsWanted(words, count, i)
      {
        AsWantedNext(words, count, i);
        mask := Compare(mask, 0, words[i]);
        i := i + 1;
      }
    }
  }

  lemma WantedTests(count: nat, i: nat, j: nat)
    ensures TestBit(Wanted(count, i), j) <==> j < WORD_BITS && WORD_BITS * i + j < count
  {
    OnesTests(InWord(count, WORD_BITS * i), j);
  }

  ghost predicate AllThere(m: Parts, count: nat) {
    forall p :: p in m <==> 1 <= p <= count
  }

  /** The bit of a part, in words as they are wanted. */
  lemma WantedPart(words: seq<nat>, m: Parts, count: nat, p: nat)
    requires Bitmap(words, m) && AsWanted(words, count, WORDS) && 1 <= p <= MAX_PARTS
    ensures p in m <==> p <= count
  {
    WantedTests(count, (p - 1) / WORD_BITS, (p - 1) % WORD_BITS);
    assert BitSet(words, p) <==> p in m;
  }

  /** A word, when the parts that are there are those that are wanted. */
  lemma WordOfParts(words: seq<nat>, m: Parts, count: nat, i: nat)
    requires Bitmap(words, m) && AllThere(m, count) && i < WORDS && count <= MAX_PARTS
    ensures words[i] == Wanted(count, i)
  {
    forall j: nat ensures TestBit(words[i], j) == TestBit(Wanted(count, i), j) {
      WantedTests(count, i, j);
      if j < WORD_BITS {
        var p := WORD_BITS * i + j + 1;
        assert BitSet(words, p) <==> p in m;
      }
    }
    SameBits(words[i], Wanted(count, i));
  }

  /** The bitmap has the wanted words just when exactly the parts 1..count are there. */
  lemma MaskExact(words: seq<nat>, m: Parts, count: nat)
    requires Bitmap(words, m) && count <= MAX_PARTS && forall p :: p in m ==> 1 <= p <= MAX_PARTS
    ensures AsWanted(words, count, WORDS) <==> AllThere(m, count)
  {
    if AsWanted(words, count, WORDS) {
      forall p | 1 <= p <= MAX_PARTS ensures p in m <==> p <= count {
        WantedPart(words, m, count, p);
      }
    }
    if AllThere(m, count) {
      forall i | 0 <= i < WORDS ensures words[i] == Wanted(count, i) {
        WordOfParts(words, m, count, i);
      }
    }
  }

  // ---------------------------------------------------------------------------------------------
  // The entry of one datagram set
  // ---------------------------------------------------------------------------------------------

  /** What comes of a part: the bitmap would be accessed outside, or the part is there, and perhaps all are. */
  datatype Added = NoBit | Kept(complete: bool)

  class ReasEntry {
    var partsRecv: seq<nat>
    var first: seq<Knot>
    var when: int
    const partCount: nat
    const deflate: bool
    /** The payload each received part arrived with. */
    ghost var parts: Parts

    constructor (partCount: nat, deflate: bool, when: int)
      requires 1 <= partCount <= MAX_PARTS
      ensures Valid() && parts == map[] && this.partCount == partCount && this.deflate == deflate && this.when == when
    {
      partsRecv, first := seq(WORDS, _ => 0), [];
      this.when, this.partCount, this.deflate := when, partCount, deflate;
      parts := map[];
      new;
      forall j: nat ensures !TestBit(0, j) {
        NoBits(j);
      }
      UpToGap(map[], 0, MAX_PARTS + 1);
    }

    ghost predicate Valid()
      reads this
    {
      1 <= partCount <= MAX_PARTS && Bitmap(partsRecv, parts) && Holds(parts, first)
      && forall p :: p in parts ==> 1 <= p <= partCount
    }

    /** The insertion loop: before the first knot of a higher number. */
    method Insert(k: Knot)
      modifies this`first
      ensures first == Inserted(old(first), k)
    {
      var passed: seq<Knot>, ahead := [], first;
      while ahead != [] && ahead[0].nr <= k.nr
        invariant first == old(first) && Inserted(first, k) == passed + Inserted(ahead, k)
        decreases |ahead|
      {
        InsertedPast(passed, ahead, k);
        passed, ahead := passed + [ahead[0]], ahead[1..];
      }
      first := passed + ([k] + ahead);
    }

    /** reas_knots_optimize. */
    method Optimize()
      requires Fit(first)
      modifies this`first
      ensures first == Optimized(old(first))
    {
      var passed: seq<Knot>, ahead := [], first;
      while |ahead| > 1
        invariant first == old(first) && Fit(ahead) && Optimized(first) == passed + Optimized(ahead)
        decreases |ahead|
      {
        var two := MergeTwo(ahead[0], ahead[1]);
        var merged := two + ahead[2..];
        OptimizedPast(passed, ahead, merged);
        passed, ahead := passed + [merged[0]], merged[1..];
      }
      first := passed + ahead;
    }

    static method MergeTwo(x: Knot, y: Knot) returns (r: seq<Knot>)
      requires |x.bytes| <= KNOT_ROOM && |y.bytes| <= KNOT_ROOM
      ensures r == MergedTwo(x, y)
    {
      if KNOT_ROOM - |x.bytes| == 0 || (x.end + 1 != y.nr && x.end != y.nr) {
        return [x, y];
      }
      var n := Min(KNOT_ROOM - |x.bytes|, |y.bytes|);
      var bytes, left := x.bytes + y.bytes[..n], y.bytes[n..];
      if |left| != 0 {
        return [Knot(x.nr, y.nr, bytes), y.(bytes := left)];
      } else {
        assert y.bytes[..n] == y.bytes;
        return [Knot(x.nr, y.end, bytes)];
      }
    }

    /** Taking in one part: a known part changes nothing; a new one is put in its place, and the set is
        complete just when the parts 1..partCount are there. Part 0 has no bit. */
    method AddPart(part: nat, payload: seq<byte>, now: int) returns (r: Added)
      requires Valid() && part <= partCount && |payload| <= KNOT_ROOM
      modifies this
      ensures Valid() && (r.NoBit? <==> part == 0)
      ensures part == 0 || part in old(parts) ==> unchanged(this) && (r.Kept? ==> !r.complete)
      ensures part != 0 && part !in old(parts) ==> parts == old(parts)[part := payload] && when == now
                                                   && r.complete == AllThere(parts, partCount)
      ensures part != 0 && part !in old(parts) ==>
                Fit(old(first)) && first == TakenIn(old(first), Knot(part, part, payload), r.complete)
    {
      IndexInside(part);
      var i, b := BitIndex(part) / WORD_BITS, BitIndex(part) % WORD_BITS;
      if i >= WORDS {
        return NoBit;
      }
      assert BitSet(partsRecv, part) <==> part in parts;
      if TestBit(partsRecv[i], b) {
        return Kept(false);
      }
      var complete := AddNewPart(part, payload, now);
      return Kept(complete);
    }

    method AddNewPart(part: nat, payload: seq<byte>, now: int) returns (complete: bool)
      requires Valid() && 1 <= part <= partCount && part !in parts && |payload| <= KNOT_ROOM
      modifies this
      ensures Valid() && parts == old(parts)[part := payload] && when == now && complete == AllThere(parts, partCount)
      ensures Fit(old(first)) && first == TakenIn(old(first), Knot(part, part, payload), complete)
    {
      OptimizeKeeps(parts, first);
      var i, b := (part - 1) / WORD_BITS, (part - 1) % WORD_BITS;
      BitmapSet(partsRecv, parts, part, payload);
      InsertKeeps(parts, first, part, payload);
      partsRecv := partsRecv[i := SetBit(partsRecv[i], b)];
      when := now;
      var mask := RecvMask(partsRecv, partCount);
      Insert(Knot(part, part, payload));
      parts := parts[part := payload];
      OptimizeKeeps(parts, first);
      Optimize();
      if mask == 0 && |first| > 1 {
        OptimizeKeeps(parts, first);
        Optimize();
      }
      MaskExact(partsRecv, parts, partCount);
      return mask == 0;
    }
  }

  // ---------------------------------------------------------------------------------------------
  // Parsing the complete set
  // ---------------------------------------------------------------------------------------------

  /** The reading of everything up to buffer i. */
  ghost function ReadTo(knots: seq<Knot>, i: nat, maxLen: nat): (v: Reading)
    requires i <= |knots|
  {
    Read(AtControl, Bytes(knots[..i]), maxLen)
  }

  /** No buffer ends inside the length field or the type field of the packet. */
  ghost predicate FieldsUncut(knots: seq<Knot>, maxLen: nat) {
    forall i :: 0 < i < |knots| ==> (var v := ReadTo(knots, i, maxLen); v.More? ==> v.cutOff == 0)
  }

  lemma {:induction false} BytesSplit(a: seq<Knot>, b: seq<Knot>)
    ensures Bytes(a + b) == Bytes(a) + Bytes(b)
  {
    if a == [] {
      assert a + b == b;
    } else {
      BytesSplit(a[1..], b);
      assert (a + b)[0] == a[0] && (a + b)[1..] == a[1..] + b;
      Seqs.Assoc(a[0].bytes, Bytes(a[1..]), Bytes(b));
    }
  }

  lemma BytesNext(knots: seq<Knot>, i: nat)
    requires i < |knots|
    ensures Bytes(knots[..i + 1]) == Bytes(knots[..i]) + knots[i].bytes
  {
    BytesSplit(knots[..i], [knots[i]]);
    assert knots[..i + 1] == knots[..i] + [knots[i]];
  }

  /** A verdict reached early is the verdict on the whole. */
  lemma EarlyVerdict(knots: seq<Knot>, i: nat, maxLen: nat)
    requires i <= |knots| && !ReadTo(knots, i, maxLen).More?
    ensures var v, w := ReadTo(knots, i, maxLen), ReadTo(knots, |knots|, maxLen);
            if v.Got? then w.Got? && w.packet == v.packet else w == Bad
    ensures knots[..|knots|] == knots
  {
    BytesSplit(knots[..i], knots[i..]);
    assert knots[..i] + knots[i..] == knots == knots[..|knots|];
    ReadStable(AtControl, Bytes(knots[..i]), Bytes(knots[i..]), maxLen);
  }

  lemma EarlyUncut(knots: seq<Knot>, i: nat, maxLen: nat)
    requires i < |knots| && !ReadTo(knots, i + 1, maxLen).More?
    requires forall j :: 0 < j <= i ==> ReadTo(knots, j, maxLen).More? && ReadTo(knots, j, maxLen).cutOff == 0
    ensures FieldsUncut(knots, maxLen)
  {
    forall j | i < j < |knots| ensures !ReadTo(knots, j, maxLen).More? {
      assert knots[..j][..i + 1] == knots[..i + 1];
      EarlyVerdict(knots[..j], i + 1, maxLen);
    }
  }

  /** What packet_reasamble is to return. */
  ghost function Outcome(knots: seq<Knot>, maxLen: nat): (r: Option<Raw>) {
    var v := ReadTo(knots, |knots|, maxLen);
    if v.Got? && FieldsUncut(knots, maxLen) then Some(v.packet) else None
  }

  /** What the loop over the buffers returns when it stops at buffer i. */
  lemma StopsAt(knots: seq<Knot>, i: nat, maxLen: nat, v: Reading)
    requires i < |knots| && v == ReadTo(knots, i + 1, maxLen) && v != More(0)
    requires forall j :: 0 < j <= i ==> ReadTo(knots, j, maxLen) == More(0)
    ensures Outcome(knots, maxLen) == if v.Got? then Some(v.packet) else None
  {
    if v.Got? {
      StopsGot(knots, i, maxLen, v);
    } else if v.Bad? {
      EarlyVerdict(knots, i + 1, maxLen);
    } else {
      StopsCut(knots, i, maxLen, v);
    }
  }

  lemma StopsGot(knots: seq<Knot>, i: nat, maxLen: nat, v: Reading)
    requires i < |knots| && v == ReadTo(knots, i + 1, maxLen) && v.Got?
    requires forall j :: 0 < j <= i ==> ReadTo(knots, j, maxLen) == More(0)
    ensures Outcome(knots, maxLen) == Some(v.packet)
  {
    EarlyVerdict(knots, i + 1, maxLen);
    EarlyUncut(knots, i, maxLen);
  }

  lemma StopsCut(knots: seq<Knot>, i: nat, maxLen: nat, v: Reading)
    requires i < |knots| && v == ReadTo(knots, i + 1, maxLen) && v.More? && v.cutOff > 0
    ensures Outcome(knots, maxLen) == None
  {
  }

  lemma NeverStops(knots: seq<Knot>, maxLen: nat)
    requires forall j :: 0 < j <= |knots| ==> ReadTo(knots, j, maxLen) == More(0)
    ensures Outcome(knots, maxLen) == None
  {
    if |knots| == 0 {
      assert Bytes(knots[..0]) == [];
    }
  }

  /** The verdicts after a further buffer. */
  lemma Further(f: seq<byte> -> Reading, at: Progress, done: seq<byte>, b: seq<byte>, maxLen: nat)
      returns (g: seq<byte> -> Reading)
    requires Agrees(f, AtControl, done, maxLen) && Agrees(f, at, [], maxLen)
    ensures Agrees(g, AtControl, done + b, maxLen) && Agrees(g, at, b, maxLen)
  {
    g := t => f(b + t);
    FurtherAgrees(f, g, AtControl, done, b, maxLen);
    FurtherAgrees(f, g, at, [], b, maxLen);
    assert [] + b == b;
  }

  lemma FurtherAgrees(f: seq<byte> -> Reading, g: seq<byte> -> Reading, at: Progress, s: seq<byte>, b: seq<byte>,
                      maxLen: nat)
    requires Agrees(f, at, s, maxLen) && forall t :: g(t) == f(b + t)
    ensures Agrees(g, at, s + b, maxLen)
  {
    forall t: seq<byte> ensures g(t) == Read(at, s + b + t, maxLen) {
      Seqs.Assoc(s, b, t);
    }
  }

  /** All buffers before i were taken in, f being the verdicts from there on. */
  ghost predicate SoFar(knots: seq<Knot>, i: nat, f: seq<byte> -> Reading, maxLen: nat) {
    i <= |knots| && Agrees(f, AtControl, Bytes(knots[..i]), maxLen)
    && forall j :: 0 < j <= i ==> ReadTo(knots, j, maxLen) == More(0)
  }

  lemma AtStart(knots: seq<Knot>, maxLen: nat) returns (f: seq<byte> -> Reading)
    ensures SoFar(knots, 0, f, maxLen) && Agrees(f, AtControl, [], maxLen)
  {
    f := Verdicts(AtControl, [], maxLen);
  }

  lemma SoFarNext(knots: seq<Knot>, i: nat, f: seq<byte> -> Reading, g: seq<byte> -> Reading, maxLen: nat)
    requires i < |knots| && SoFar(knots, i, f, maxLen) && Agrees(g, AtControl, Bytes(knots[..i + 1]), maxLen)
    requires ReadTo(knots, i + 1, maxLen) == More(0)
    ensures SoFar(knots, i + 1, g, maxLen)
  {
  }

  /** The next buffer, and what its verdict means for the whole. */
  lemma NextBuffer(knots: seq<Knot>, i: nat, f: seq<byte> -> Reading, at: Progress, maxLen: nat)
      returns (g: seq<byte> -> Reading, v: Reading)
    requires i < |knots| && SoFar(knots, i, f, maxLen) && Agrees(f, at, [], maxLen)
    ensures Agrees(g, at, knots[i].bytes, maxLen) && v == g([])
    ensures if v == More(0) then SoFar(knots, i + 1, g, maxLen)
            else Outcome(knots, maxLen) == if v.Got? then Some(v.packet) else None
  {
    BytesNext(knots, i);
    g := Further(f, at, Bytes(knots[..i]), knots[i].bytes, maxLen);
    v := g([]);
    AgreesNow(g, AtControl, Bytes(knots[..i + 1]), maxLen);
    assert v == ReadTo(knots, i + 1, maxLen);
    if v == More(0) {
      SoFarNext(knots, i, f, g, maxLen);
    } else {
      StopsAt(knots, i, maxLen, v);
    }
  }

  /** A packet in the making that goes on with `bytes`. */
  ghost predicate Taking(target: InPacket, f: seq<byte> -> Reading, bytes: seq<byte>, maxLen: nat)
    reads target, target.trunk.data
  {
    target.Inv() && !target.Done() && Agrees(f, target.At(), bytes, maxLen)
  }

  /** One buffer through the extractor, in the mode that empties the buffer. */
  method Feed(target: InPacket, bytes: seq<byte>, maxLen: nat, ghost f: seq<byte> -> Reading, ghost v: Reading)
      returns (r: Option<Raw>, failed: bool)
    requires Taking(target, f, bytes, maxLen) && v == f([])
    modifies target, target.inline, target.trunk.data
    ensures r.Some? ==> v.Got? && r.value == v.packet && !failed
    ensures r.None? ==> failed == (v.Bad? || (v.More? && v.cutOff > 0))
    ensures r.None? && !failed ==> v == More(0) && Taking(target, f, [], maxLen)
                                   && (target.trunk.data == old(target.trunk.data)
                                       || target.trunk.data == target.inline || fresh(target.trunk.data))
  {
    var source := Load(bytes);
    var ok := target.Extract(source, maxLen, true, f);
    if !ok {
      return None, true;
    }
    if target.Done() {
      return Some(Raw(target.header, target.trunk.Unread())), false;
    }
    if source.Remaining() != 0 {
      return None, true;
    }
    assert source.Unread() == [];
    return None, false;
  }

  /** packet_reasamble, uncompressed: it yields the packet at the head of the concatenated buffers just
      when there is one and no buffer ends inside a header field. */
  method PacketReasamble(knots: seq<Knot>, maxLen: nat, knownType: seq<byte> -> bool) returns (r: Option<Raw>)
    ensures r == Outcome(knots, maxLen)
  {
    var target := new InPacket(knownType);
    var i := 0;
    ghost var f := AtStart(knots, maxLen);
    while i < |knots|
      invariant 0 <= i <= |knots| && fresh(target) && fresh(target.inline) && fresh(target.trunk.data)
      invariant Taking(target, f, [], maxLen) && SoFar(knots, i, f, maxLen)
    {
      ghost var v;
      f, v := NextBuffer(knots, i, f, target.At(), maxLen);
      var failed;
      r, failed := Feed(target, knots[i].bytes, maxLen, f, v);
      if r.Some? || failed {
        return;
      }
      i := i + 1;
    }
    NeverStops(knots, maxLen);
    return None;
  }

  /** A header that lies in part 1 is never cut: the packet of a complete set is then the packet at the
      head of the payloads in part order. */
  lemma HeaderInFirstPart(m: Parts, knots: seq<Knot>, maxLen: nat)
    requires Holds(m, knots) && 1 in m && HeaderIn(m[1])
    ensures FieldsUncut(knots, maxLen)
  {
    FirstPart(m, knots);
    forall i | 0 < i < |knots| && ReadTo(knots, i, maxLen).More? ensures ReadTo(knots, i, maxLen).cutOff == 0 {
      BytesSplit(knots[..1], knots[1..i]);
      assert knots[..1] + knots[1..i] == knots[..i];
      assert Bytes(knots[..1]) == knots[0].bytes + Bytes([]);
      var rest := knots[0].bytes[|m[1]|..] + Bytes(knots[1..i]);
      assert Bytes(knots[..i]) == m[1] + rest;
      HeaderStays(m[1], rest, maxLen);
    }
  }

  /** s holds a whole packet header. */
  predicate HeaderIn(s: seq<byte>) {
    |s| > 0 && |s| >= 1 + ControlLengthLength(s[0]) + ControlTypeLength(s[0])
  }

  lemma HeaderStays(s: seq<byte>, t: seq<byte>, maxLen: nat)
    requires HeaderIn(s)
    ensures var v := Read(AtControl, s + t, maxLen); v.More? ==> v.cutOff == 0
  {
  }

  /** The packet at the head of a byte string, if there is one. */
  ghost function Parsed(s: seq<byte>, maxLen: nat): (r: Option<Raw>) {
    var v := Read(AtControl, s, maxLen);
    if v.Got? then Some(v.packet) else None
  }

  lemma ParsedSet(m: Parts, knots: seq<Knot>, maxLen: nat)
    requires Holds(m, knots) && 1 in m && HeaderIn(m[1])
    ensures Outcome(knots, maxLen) == Parsed(UpTo(m, MAX_PARTS), maxLen)
  {
    HeaderInFirstPart(m, knots, maxLen);
    assert knots[..|knots|] == knots;
  }

  /** Without that the packet can be lost: the same bytes, cut inside the type name. */
  lemma CutNameIsLost()
    ensures Parsed([8, 0x41, 0x42], 100) == Some(Raw(Header(0, false, false, 0, [0x41, 0x42]), []))
    ensures var knots := [Knot(1, 1, [8, 0x41]), Knot(2, 2, [0x42])];
            Bytes(knots) == [8, 0x41, 0x42] && Outcome(knots, 100) == None
  {
    var s: seq<byte>, t: seq<byte>, u: seq<byte> := [8, 0x41, 0x42], [0x41, 0x42], [8, 0x41];
    assert ControlFields(8) == AtLength(0, 2, false, false);
    assert s[1..] == t && t[0..] == t && t[..0] == [] && t[..2] == t && t[2..] == [];
    var knots := [Knot(1, 1, u), Knot(2, 2, [0x42])];
    assert knots[1..] == [Knot(2, 2, [0x42])] && Bytes(knots[1..]) == [0x42];
    assert knots[..1] == [Knot(1, 1, u)] && Bytes(knots[..1]) == u;
    assert u[1..][0..] == [0x41];
    assert ReadTo(knots, 1, 100) == More(1);
  }
}
