/** The ordered list of buffers in which the parts of a datagram set wait for each other (G2UDP.c). */
module Knots {
  import opened Buffers
  import Seqs

  const MAX_PARTS := 255
  /** NORM_BUFF_CAPACITY less the knot that lies at the end of each buffer. */
  const KNOT_ROOM := 4072 - 16

  /** A buffer: it was begun by part nr and is followed by whatever part end allows. */
  datatype Knot = Knot(nr: nat, end: nat, bytes: seq<byte>)

  type Parts = map<nat, seq<byte>>

  /** The payloads of the received parts 1..k, in part order. */
  ghost function UpTo(m: Parts, k: nat): (s: seq<byte>) {
    if k == 0 then [] else UpTo(m, k - 1) + (if k in m then m[k] else [])
  }

  function Bytes(knots: seq<Knot>): (s: seq<byte>) {
    if knots == [] then [] else knots[0].bytes + Bytes(knots[1..])
  }

  /** No part strictly between e and n has been received. */
  ghost predicate Gap(m: Parts, e: nat, n: nat) {
    forall p :: e < p < n ==> p !in m
  }

  ghost predicate Whole(m: Parts, a: nat, b: nat) {
    forall p :: a <= p <= b ==> p in m
  }

  /** Where a buffer begins, off bytes behind the first part: cleanly at its first part, or, if the
      previous buffer's end names that part too, somewhere behind the part's first byte. */
  ghost predicate Joint(m: Parts, e: nat, off: nat, nr: nat)
    requires nr > 0
  {
    (e < nr && Gap(m, e, nr) && off == |UpTo(m, e)|) || (e == nr && |UpTo(m, nr - 1)| <= off)
  }

  /** The list from one buffer on, the previous one having the numbers prev and e and ending at off. */
  ghost predicate Threaded(m: Parts, prev: nat, e: nat, off: nat, knots: seq<Knot>)
    decreases |knots|
  {
    if knots == [] then Joint(m, e, off, MAX_PARTS + 1)
    else
      var k := knots[0];
      prev < k.nr <= k.end <= MAX_PARTS && |k.bytes| <= KNOT_ROOM && Joint(m, e, off, k.nr) && Whole(m, k.nr, k.end)
      && Threaded(m, k.nr, k.end, off + |k.bytes|, knots[1..])
  }

  /** The list is in order and holds exactly the received payloads, in part order. */
  ghost predicate Holds(m: Parts, knots: seq<Knot>) {
    Threaded(m, 0, 0, 0, knots) && Bytes(knots) == UpTo(m, MAX_PARTS)
  }

  // ---------------------------------------------------------------------------------------------
  // Prefixes of the received payloads
  // ---------------------------------------------------------------------------------------------

  lemma {:induction false} UpToGrows(m: Parts, j: nat, k: nat)
    requires j <= k
    ensures UpTo(m, j) <= UpTo(m, k)
  {
    if j < k {
      UpToGrows(m, j, k - 1);
    }
  }

  lemma {:induction false} UpToGap(m: Parts, e: nat, n: nat)
    requires e < n && Gap(m, e, n)
    ensures UpTo(m, n - 1) == UpTo(m, e)
  {
    if e + 1 < n {
      UpToGap(m, e, n - 1);
    }
  }

  lemma {:induction false} UpToBefore(m: Parts, p: nat, d: seq<byte>, k: nat)
    requires k < p
    ensures UpTo(m[p := d], k) == UpTo(m, k)
  {
    if k > 0 {
      UpToBefore(m, p, d, k - 1);
    }
  }

  /** A new part puts its payload between the earlier and the later ones. */
  lemma {:induction false} UpToBehind(m: Parts, p: nat, d: seq<byte>, k: nat)
    requires 0 < p <= k && p !in m
    ensures |UpTo(m, p - 1)| <= |UpTo(m, k)|
    ensures UpTo(m[p := d], k) == UpTo(m, p - 1) + d + UpTo(m, k)[|UpTo(m, p - 1)|..]
  {
    if p == k {
      UpToBefore(m, p, d, k - 1);
    } else {
      UpToBehind(m, p, d, k - 1);
    }
  }

  // ---------------------------------------------------------------------------------------------
  // Inserting
  // ---------------------------------------------------------------------------------------------

  /** The list with a knot put before the first one of a higher number. */
  function Inserted(knots: seq<Knot>, k: Knot): (r: seq<Knot>) {
    if knots == [] || knots[0].nr > k.nr then [k] + knots else [knots[0]] + Inserted(knots[1..], k)
  }

  lemma InsertedPast(passed: seq<Knot>, ahead: seq<Knot>, k: Knot)
    requires ahead != [] && ahead[0].nr <= k.nr
    ensures passed + Inserted(ahead, k) == passed + [ahead[0]] + Inserted(ahead[1..], k)
  {
    Seqs.Assoc(passed, [ahead[0]], Inserted(ahead[1..], k));
  }

  /** Buffers behind a new part move by its length. */
  lemma {:induction false} ShiftThreaded(m: Parts, prev: nat, e: nat, off: nat, knots: seq<Knot>, p: nat, d: seq<byte>)
    requires Threaded(m, prev, e, off, knots) && 0 < p < e && p !in m && e <= MAX_PARTS
    ensures Threaded(m[p := d], prev, e, off + |d|, knots)
    decreases |knots|
  {
    UpToBehind(m, p, d, e);
    UpToBehind(m, p, d, e - 1);
    if knots != [] {
      ShiftThreaded(m, knots[0].nr, knots[0].end, off + |knots[0].bytes|, knots[1..], p, d);
    }
  }

  /** A missing part lies behind every buffer that begins before it. */
  lemma {:induction false} OffBefore(m: Parts, prev: nat, e: nat, off: nat, knots: seq<Knot>, p: nat)
    requires Threaded(m, prev, e, off, knots) && e < p <= MAX_PARTS && p !in m
    ensures off <= |UpTo(m, p - 1)|
    decreases |knots|
  {
    UpToGrows(m, e, p - 1);
    if knots != [] && e == knots[0].nr {
      OffBefore(m, knots[0].nr, knots[0].end, off + |knots[0].bytes|, knots[1..], p);
    }
  }

  lemma {:induction false} InsertThreaded(m: Parts, prev: nat, e: nat, off: nat, knots: seq<Knot>, p: nat, d: seq<byte>)
    requires Threaded(m, prev, e, off, knots) && prev <= e < p <= MAX_PARTS && p !in m && |d| <= KNOT_ROOM
    ensures Threaded(m[p := d], prev, e, off, Inserted(knots, Knot(p, p, d)))
    decreases |knots|
  {
    UpToBefore(m, p, d, e);
    if knots == [] || knots[0].nr > p {
      InsertHere(m, prev, e, off, knots, p, d);
    } else {
      var k := knots[0];
      UpToBefore(m, p, d, k.nr - 1);
      InsertThreaded(m, k.nr, k.end, off + |k.bytes|, knots[1..], p, d);
      assert Inserted(knots, Knot(p, p, d))[1..] == Inserted(knots[1..], Knot(p, p, d));
    }
  }

  lemma InsertHere(m: Parts, prev: nat, e: nat, off: nat, knots: seq<Knot>, p: nat, d: seq<byte>)
    requires Threaded(m, prev, e, off, knots) && prev <= e < p <= MAX_PARTS && p !in m && |d| <= KNOT_ROOM
    requires knots == [] || knots[0].nr > p
    ensures Threaded(m[p := d], prev, e, off, [Knot(p, p, d)] + knots)
  {
    UpToBefore(m, p, d, e);
    UpToGap(m, e, p);
    UpToBehind(m, p, d, p);
    if knots != [] {
      ShiftThreaded(m, knots[0].nr, knots[0].end, off + |knots[0].bytes|, knots[1..], p, d);
    }
    assert ([Knot(p, p, d)] + knots)[1..] == knots;
  }

  /** s with d put in at offset at. */
  ghost function Spliced(s: seq<byte>, at: nat, d: seq<byte>): seq<byte>
    requires at <= |s|
  {
    s[..at] + d + s[at..]
  }

  lemma SplicedHere(s: seq<byte>, at: nat, d: seq<byte>, knots: seq<Knot>, k: Knot)
    requires at <= |s| && Bytes(knots) == s[at..] && k.bytes == d
    ensures Bytes([k] + knots) == Spliced(s, at, d)[at..]
  {
    assert ([k] + knots)[1..] == knots;
    assert Spliced(s, at, d)[at..] == d + s[at..];
  }

  lemma SplicedLater(s: seq<byte>, at: nat, d: seq<byte>, off: nat, bytes: seq<byte>, rest: seq<byte>)
    requires off + |bytes| <= at <= |s| && bytes + rest == s[off..]
    ensures Spliced(s, at, d)[off..] == bytes + Spliced(s, at, d)[off + |bytes|..]
  {
    var t, off' := Spliced(s, at, d), off + |bytes|;
    assert bytes == (bytes + rest)[..|bytes|] == s[off..off'] == t[off..off'];
    assert t[off..] == t[off..off'] + t[off'..];
  }

  lemma DropFront(s: seq<byte>, off: nat, x: seq<byte>, rest: seq<byte>)
    requires off <= |s| && s[off..] == x + rest
    ensures off + |x| <= |s| && s[off + |x|..] == rest
  {
    assert s[off + |x|..] == s[off..][|x|..];
  }

  lemma BytesCons(x: Knot, rest: seq<Knot>)
    ensures Bytes([x] + rest) == x.bytes + Bytes(rest)
  {
    Seqs.Tail(x, rest);
  }

  lemma JoinSpliced(k: Knot, rest: seq<Knot>, after: seq<Knot>, s: seq<byte>, at: nat, d: seq<byte>, off: nat)
    requires off + |k.bytes| <= at <= |s| && k.bytes + Bytes(rest) == s[off..]
    requires Bytes(after) == Spliced(s, at, d)[off + |k.bytes|..]
    ensures Bytes([k] + after) == Spliced(s, at, d)[off..]
  {
    SplicedLater(s, at, d, off, k.bytes, Bytes(rest));
    BytesCons(k, after);
  }

  /** A missing part lies behind a buffer that was begun by an earlier one. */
  lemma PastKnot(m: Parts, prev: nat, e: nat, off: nat, knots: seq<Knot>, p: nat)
    requires Threaded(m, prev, e, off, knots) && p <= MAX_PARTS && p !in m && knots != [] && knots[0].nr <= p
    ensures knots[0].end < p && Threaded(m, knots[0].nr, knots[0].end, off + |knots[0].bytes|, knots[1..])
  {
  }

  lemma {:induction false} InsertBytes(m: Parts, prev: nat, e: nat, off: nat, knots: seq<Knot>, p: nat, d: seq<byte>,
                                       s: seq<byte>)
    requires Threaded(m, prev, e, off, knots) && e < p <= MAX_PARTS && p !in m
    requires off <= |s| && Bytes(knots) == s[off..] && |UpTo(m, p - 1)| <= |s|
    ensures off <= |UpTo(m, p - 1)|
    ensures Bytes(Inserted(knots, Knot(p, p, d))) == Spliced(s, |UpTo(m, p - 1)|, d)[off..]
    decreases |knots|
  {
    OffBefore(m, prev, e, off, knots, p);
    if knots == [] || knots[0].nr > p {
      UpToGap(m, e, p);
      SplicedHere(s, off, d, knots, Knot(p, p, d));
    } else {
      var k, rest := knots[0], knots[1..];
      PastKnot(m, prev, e, off, knots, p);
      DropFront(s, off, k.bytes, Bytes(rest));
      InsertBytes(m, k.nr, k.end, off + |k.bytes|, rest, p, d, s);
      JoinSpliced(k, rest, Inserted(rest, Knot(p, p, d)), s, |UpTo(m, p - 1)|, d, off);
    }
  }

  /** Inserting a part that was missing keeps the list in order and adds the payload at its place. */
  lemma InsertKeeps(m: Parts, knots: seq<Knot>, p: nat, d: seq<byte>)
    requires Holds(m, knots) && 1 <= p <= MAX_PARTS && p !in m && |d| <= KNOT_ROOM
    ensures Holds(m[p := d], Inserted(knots, Knot(p, p, d)))
  {
    InsertThreaded(m, 0, 0, 0, knots, p, d);
    var s := UpTo(m, MAX_PARTS);
    UpToBehind(m, p, d, MAX_PARTS);
    UpToGrows(m, p - 1, MAX_PARTS);
    InsertBytes(m, 0, 0, 0, knots, p, d, s);
    assert s[..|UpTo(m, p - 1)|] == UpTo(m, p - 1);
  }

  // ---------------------------------------------------------------------------------------------
  // Merging
  // ---------------------------------------------------------------------------------------------

  predicate Fit(knots: seq<Knot>) {
    forall k :: k in knots ==> |k.bytes| <= KNOT_ROOM
  }

  predicate Adjacent(x: Knot, y: Knot) {
    x.end + 1 == y.nr || x.end == y.nr
  }

  /** Two neighbours after the first has taken in what it can of the second. */
  function MergedTwo(x: Knot, y: Knot): (r: seq<Knot>)
    requires |x.bytes| <= KNOT_ROOM && |y.bytes| <= KNOT_ROOM
    ensures 1 <= |r| <= 2 && Fit(r)
  {
    var n := Min(KNOT_ROOM - |x.bytes|, |y.bytes|);
    if |x.bytes| == KNOT_ROOM || !Adjacent(x, y) then [x, y]
    else if n < |y.bytes| then [Knot(x.nr, y.nr, x.bytes + y.bytes[..n]), y.(bytes := y.bytes[n..])]
    else [Knot(x.nr, y.end, x.bytes + y.bytes)]
  }

  function Merged(knots: seq<Knot>): (r: seq<Knot>)
    requires |knots| >= 2 && Fit(knots)
    ensures r != [] && |r| <= |knots| && Fit(r)
  {
    MergedTwo(knots[0], knots[1]) + knots[2..]
  }

  /** The list after a merge pass. */
  function Optimized(knots: seq<Knot>): (r: seq<Knot>)
    requires Fit(knots)
    decreases |knots|
  {
    if |knots| < 2 then knots
    else
      var r := Merged(knots);
      [r[0]] + Optimized(r[1..])
  }

  /** One turn of the merge loop, `passed` lying behind the cursor. */
  lemma OptimizedPast(passed: seq<Knot>, ahead: seq<Knot>, merged: seq<Knot>)
    requires |ahead| >= 2 && Fit(ahead) && merged == Merged(ahead)
    ensures passed + Optimized(ahead) == passed + [merged[0]] + Optimized(merged[1..]) && Fit(merged[1..])
  {
    Seqs.Assoc(passed, [merged[0]], Optimized(merged[1..]));
  }

  lemma {:induction false} ThreadedFit(m: Parts, prev: nat, e: nat, off: nat, knots: seq<Knot>)
    requires Threaded(m, prev, e, off, knots)
    ensures Fit(knots)
    decreases |knots|
  {
    if knots != [] {
      ThreadedFit(m, knots[0].nr, knots[0].end, off + |knots[0].bytes|, knots[1..]);
    }
  }

  /** What Threaded says about the buffer in front of a list. */
  ghost predicate Front(m: Parts, prev: nat, e: nat, off: nat, x: Knot) {
    prev < x.nr <= x.end <= MAX_PARTS && |x.bytes| <= KNOT_ROOM && Joint(m, e, off, x.nr) && Whole(m, x.nr, x.end)
  }

  lemma ThreadedSplit(m: Parts, prev: nat, e: nat, off: nat, x: Knot, rest: seq<Knot>)
    requires Threaded(m, prev, e, off, [x] + rest)
    ensures Front(m, prev, e, off, x) && Threaded(m, x.nr, x.end, off + |x.bytes|, rest)
  {
    Seqs.Tail(x, rest);
  }

  /** Numbers of earlier buffers matter only as lower bounds. */
  lemma ThreadedLower(m: Parts, prev': nat, prev: nat, e: nat, off: nat, knots: seq<Knot>)
    requires Threaded(m, prev, e, off, knots) && prev' <= prev
    ensures Threaded(m, prev', e, off, knots)
  {
  }

  /** Putting a buffer in front of a list. */
  lemma ThreadedCons(m: Parts, prev: nat, e: nat, off: nat, x: Knot, rest: seq<Knot>)
    requires Front(m, prev, e, off, x) && Threaded(m, x.nr, x.end, off + |x.bytes|, rest)
    ensures Threaded(m, prev, e, off, [x] + rest)
  {
    Seqs.Tail(x, rest);
  }

  /** A buffer that takes over the beginning of the next one: its end then names the first part of that one. */
  lemma PartMerged(m: Parts, prev: nat, e: nat, off: nat, x: Knot, y: Knot, x': Knot, y': Knot, n: nat)
    requires Front(m, prev, e, off, x) && Front(m, x.nr, x.end, off + |x.bytes|, y) && Adjacent(x, y)
    requires n < |y.bytes| && |x.bytes| + n <= KNOT_ROOM
    requires x' == Knot(x.nr, y.nr, x.bytes + y.bytes[..n]) && y' == y.(bytes := y.bytes[n..])
    ensures Front(m, prev, e, off, x') && Front(m, x'.nr, x'.end, off + |x'.bytes|, y')
  {
    UpToGrows(m, x.end, y.nr);
  }

  lemma WholeMerged(m: Parts, prev: nat, e: nat, off: nat, x: Knot, y: Knot, x': Knot)
    requires Front(m, prev, e, off, x) && Front(m, x.nr, x.end, off + |x.bytes|, y) && Adjacent(x, y)
    requires |x.bytes| + |y.bytes| <= KNOT_ROOM && x' == Knot(x.nr, y.end, x.bytes + y.bytes)
    ensures Front(m, prev, e, off, x')
  {
  }

  lemma ThreadedPart(m: Parts, prev: nat, e: nat, off: nat, x: Knot, y: Knot, z: seq<Knot>, n: nat, x': Knot, y': Knot)
    requires Front(m, prev, e, off, x) && Front(m, x.nr, x.end, off + |x.bytes|, y) && Adjacent(x, y)
    requires Threaded(m, y.nr, y.end, off + |x.bytes| + |y.bytes|, z) && n < |y.bytes| && |x.bytes| + n <= KNOT_ROOM
    requires x' == Knot(x.nr, y.nr, x.bytes + y.bytes[..n]) && y' == y.(bytes := y.bytes[n..])
    ensures Threaded(m, prev, e, off, [x'] + ([y'] + z))
  {
    PartMerged(m, prev, e, off, x, y, x', y', n);
    ThreadedCons(m, x'.nr, x'.end, off + |x'.bytes|, y', z);
    ThreadedCons(m, prev, e, off, x', [y'] + z);
  }

  lemma ThreadedWhole(m: Parts, prev: nat, e: nat, off: nat, x: Knot, y: Knot, z: seq<Knot>, x': Knot)
    requires Front(m, prev, e, off, x) && Front(m, x.nr, x.end, off + |x.bytes|, y) && Adjacent(x, y)
    requires Threaded(m, y.nr, y.end, off + |x.bytes| + |y.bytes|, z) && |x.bytes| + |y.bytes| <= KNOT_ROOM
    requires x' == Knot(x.nr, y.end, x.bytes + y.bytes)
    ensures Threaded(m, prev, e, off, [x'] + z)
  {
    WholeMerged(m, prev, e, off, x, y, x');
    ThreadedLower(m, x.nr, y.nr, y.end, off + |x.bytes| + |y.bytes|, z);
    ThreadedCons(m, prev, e, off, x', z);
  }

  /** The first two buffers merged, in part or whole. */
  lemma TwoMerged(m: Parts, prev: nat, e: nat, off: nat, x: Knot, y: Knot, z: seq<Knot>)
    requires Front(m, prev, e, off, x) && Front(m, x.nr, x.end, off + |x.bytes|, y)
    requires Threaded(m, y.nr, y.end, off + |x.bytes| + |y.bytes|, z) && |x.bytes| < KNOT_ROOM && Adjacent(x, y)
    ensures Threaded(m, prev, e, off, MergedTwo(x, y) + z)
  {
    var n := Min(KNOT_ROOM - |x.bytes|, |y.bytes|);
    if n < |y.bytes| {
      var x', y' := Knot(x.nr, y.nr, x.bytes + y.bytes[..n]), y.(bytes := y.bytes[n..]);
      ThreadedPart(m, prev, e, off, x, y, z, n, x', y');
      assert [x', y'] + z == [x'] + ([y'] + z);
    } else {
      ThreadedWhole(m, prev, e, off, x, y, z, Knot(x.nr, y.end, x.bytes + y.bytes));
    }
  }

  lemma MergedThreaded(m: Parts, prev: nat, e: nat, off: nat, knots: seq<Knot>)
    requires |knots| >= 2 && Fit(knots) && Threaded(m, prev, e, off, knots)
    ensures Threaded(m, prev, e, off, Merged(knots))
  {
    var x, y, z := knots[0], knots[1], knots[2..];
    if |x.bytes| < KNOT_ROOM && Adjacent(x, y) {
      assert knots == [x] + ([y] + z);
      ThreadedSplit(m, prev, e, off, x, [y] + z);
      ThreadedSplit(m, x.nr, x.end, off + |x.bytes|, y, z);
      TwoMerged(m, prev, e, off, x, y, z);
    } else {
      assert [x, y] + z == knots;
    }
  }

  lemma TwoBytes(x: Knot, y: Knot, z: seq<Knot>)
    ensures Bytes([x, y] + z) == x.bytes + y.bytes + Bytes(z)
  {
    assert ([x, y] + z)[1..] == [y] + z && ([y] + z)[1..] == z;
    assert Bytes([y] + z) == y.bytes + Bytes(z);
    assert x.bytes + (y.bytes + Bytes(z)) == x.bytes + y.bytes + Bytes(z);
  }

  lemma SplitBytes(x: Knot, y: Knot, x': Knot, y': Knot, n: nat, z: seq<Knot>)
    requires n <= |y.bytes| && x'.bytes == x.bytes + y.bytes[..n] && y'.bytes == y.bytes[n..]
    ensures Bytes([x', y'] + z) == Bytes([x, y] + z)
  {
    TwoBytes(x, y, z);
    TwoBytes(x', y', z);
    assert x'.bytes + y'.bytes == x.bytes + y.bytes;
  }

  lemma JoinBytes(x: Knot, y: Knot, x': Knot, z: seq<Knot>)
    requires x'.bytes == x.bytes + y.bytes
    ensures Bytes([x'] + z) == Bytes([x, y] + z)
  {
    TwoBytes(x, y, z);
    assert ([x'] + z)[1..] == z;
  }

  lemma MergedBytes(x: Knot, y: Knot, z: seq<Knot>)
    requires |x.bytes| <= KNOT_ROOM && |y.bytes| <= KNOT_ROOM
    ensures Bytes(MergedTwo(x, y) + z) == Bytes([x, y] + z)
  {
    var r := MergedTwo(x, y);
    if |r| == 1 {
      JoinBytes(x, y, r[0], z);
    } else if r != [x, y] {
      SplitBytes(x, y, r[0], r[1], KNOT_ROOM - |x.bytes|, z);
      assert [r[0], r[1]] + z == r + z;
    }
  }

  lemma {:induction false} OptimizeThreaded(m: Parts, prev: nat, e: nat, off: nat, knots: seq<Knot>)
    requires Fit(knots) && Threaded(m, prev, e, off, knots)
    ensures Threaded(m, prev, e, off, Optimized(knots))
    decreases |knots|
  {
    if |knots| >= 2 {
      var r := Merged(knots);
      MergedThreaded(m, prev, e, off, knots);
      OptimizeThreaded(m, r[0].nr, r[0].end, off + |r[0].bytes|, r[1..]);
      ThreadedCons(m, prev, e, off, r[0], Optimized(r[1..]));
    }
  }

  lemma {:induction false} OptimizeBytes(knots: seq<Knot>)
    requires Fit(knots)
    ensures Bytes(Optimized(knots)) == Bytes(knots)
    decreases |knots|
  {
    if |knots| >= 2 {
      var r := Merged(knots);
      MergedBytes(knots[0], knots[1], knots[2..]);
      assert [knots[0], knots[1]] + knots[2..] == knots;
      OptimizeBytes(r[1..]);
      BytesCons(r[0], Optimized(r[1..]));
    }
  }

  /** A merge pass moves bytes between buffers but changes neither order nor content. */
  lemma OptimizeKeeps(m: Parts, knots: seq<Knot>)
    requires Holds(m, knots)
    ensures Fit(knots) && Holds(m, Optimized(knots))
  {
    ThreadedFit(m, 0, 0, 0, knots);
    OptimizeThreaded(m, 0, 0, 0, knots);
    OptimizeBytes(knots);
  }

  /** A pass over buffers that follow each other and fit together two by two halves their number. */
  lemma {:induction false} PassHalves(knots: seq<Knot>)
    requires Fit(knots)
    requires forall i :: 0 <= i < |knots| - 1 ==>
               Adjacent(knots[i], knots[i + 1]) && |knots[i].bytes| + |knots[i + 1].bytes| <= KNOT_ROOM
               && |knots[i].bytes| < KNOT_ROOM
    ensures |Optimized(knots)| == (|knots| + 1) / 2
    decreases |knots|
  {
    if |knots| >= 2 {
      var x, y, z := knots[0], knots[1], knots[2..];
      assert Adjacent(knots[0], knots[1]);
      var m := Knot(x.nr, y.end, x.bytes + y.bytes);
      assert Merged(knots) == [m] + z;
      assert ([m] + z)[1..] == z;
      forall i | 0 <= i < |z| - 1
        ensures Adjacent(z[i], z[i + 1]) && |z[i].bytes| + |z[i + 1].bytes| <= KNOT_ROOM && |z[i].bytes| < KNOT_ROOM
      {
        assert z[i] == knots[i + 2] && z[i + 1] == knots[i + 3];
        assert Adjacent(knots[i + 2], knots[i + 2 + 1]);
      }
      PassHalves(z);
    }
  }

  /** A buffer that took in only the beginning of the next one can go on with it in the next pass. */
  lemma StayAdjacent(x: Knot, y: Knot)
    requires |x.bytes| < KNOT_ROOM && |y.bytes| <= KNOT_ROOM < |x.bytes| + |y.bytes| && Adjacent(x, y)
    ensures var r := MergedTwo(x, y);
            |r| == 2 && |r[0].bytes| == KNOT_ROOM && Adjacent(r[0], r[1])
            && r[0].bytes + r[1].bytes == x.bytes + y.bytes
  {
    var n := KNOT_ROOM - |x.bytes|;
    assert y.bytes == y.bytes[..n] + y.bytes[n..];
    Seqs.Assoc(x.bytes, y.bytes[..n], y.bytes[n..]);
  }

  /** The list after a new part: put in its place, a merge pass, and if the set is then complete a second one. */
  ghost function TakenIn(knots: seq<Knot>, k: Knot, complete: bool): (r: seq<Knot>)
    requires Fit(knots) && |k.bytes| <= KNOT_ROOM
  {
    InsertedFit(knots, k);
    var once := Optimized(Inserted(knots, k));
    if complete && |once| > 1 then OptimizedFit(Inserted(knots, k)); Optimized(once) else once
  }

  lemma {:induction false} InsertedFit(knots: seq<Knot>, k: Knot)
    requires Fit(knots) && |k.bytes| <= KNOT_ROOM
    ensures Fit(Inserted(knots, k))
    decreases |knots|
  {
    if knots != [] && knots[0].nr <= k.nr {
      InsertedFit(knots[1..], k);
    }
  }

  lemma {:induction false} OptimizedFit(knots: seq<Knot>)
    requires Fit(knots)
    ensures Fit(Optimized(knots))
    decreases |knots|
  {
    if |knots| >= 2 {
      OptimizedFit(Merged(knots)[1..]);
    }
  }

  /** When part 1 is there, the first buffer begins with all of it. */
  lemma FirstPart(m: Parts, knots: seq<Knot>)
    requires Holds(m, knots) && 1 in m
    ensures knots != [] && m[1] <= knots[0].bytes
  {
    assert UpTo(m, 1) == m[1];
    UpToGrows(m, 1, MAX_PARTS);
    if knots != [] {
      var k := knots[0];
      assert k.nr == 1;
      UpToGrows(m, 1, k.end);
      if k.end > 1 {
        UpToGrows(m, 1, k.end - 1);
      }
      assert Threaded(m, k.nr, k.end, |k.bytes|, knots[1..]);
      assert |k.bytes| >= |m[1]|;
      assert k.bytes == Bytes(knots)[..|k.bytes|];
    }
  }
}
