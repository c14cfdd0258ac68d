/** Searching the tree of query hash tables (G2ConRegistry.c, G2QHT.c). */
module QhtSearch {
  import opened Arithmetic
  import opened Bits
  import opened Options
  import opened QhtTables
  import Seqs

  /** Hashes are sorted before a search. */
  predicate Ascending(hs: seq<nat>) {
    |hs| < 2 || (hs[0] <= hs[1] && Ascending(hs[1..]))
  }

  lemma {:induction false} AscendsTo(hs: seq<nat>, i: nat, j: nat)
    requires Ascending(hs) && i <= j < |hs|
    ensures hs[i] <= hs[j]
  {
    if i > 0 {
      AscendsTo(hs[1..], i - 1, j - 1);
    } else if j > 0 {
      AscendsTo(hs[1..], 0, j - 1);
    }
  }

  /** The hashes that go on below a table. */
  function Survivors(t: Table, hs: seq<nat>): (r: seq<nat>)
    ensures |r| <= |hs|
  {
    if hs == [] then []
    else (if Passes(t, hs[0]) then [hs[0]] else []) + Survivors(t, hs[1..])
  }

  /** A search finds a leaf that it looks at. */
  predicate Finds(x: Leaf, hs: seq<nat>, maxPromille: nat) {
    Searched(x, maxPromille) && exists h :: h in hs && Tested(x.qht, h)
  }

  function FoundInChain(leaves: seq<Leaf>, hs: seq<nat>, maxPromille: nat): (ids: seq<nat>) {
    if leaves == [] then []
    else (if Finds(leaves[0], hs, maxPromille) then [leaves[0].id] else []) + FoundInChain(leaves[1..], hs, maxPromille)
  }

  function FoundIn(t: Tree, hs: seq<nat>, maxPromille: nat): (ids: seq<nat>)
    decreases t, 1
  {
    var left := Survivors(t.qht, hs);
    if left == [] then []
    else match t
      case Chain(_, _, leaves, _) => FoundInChain(leaves, left, maxPromille)
      case Bucket(_, _, kids, _) => FoundInKids(kids, left, maxPromille)
  }

  function FoundInKids(kids: seq<Tree>, hs: seq<nat>, maxPromille: nat): (ids: seq<nat>)
    decreases kids, 0
  {
    if kids == [] then [] else FoundIn(kids[0], hs, maxPromille) + FoundInKids(kids[1..], hs, maxPromille)
  }

  lemma {:induction false} SurvivorsNext(t: Table, hs: seq<nat>, i: nat)
    requires i < |hs|
    ensures Survivors(t, hs[..i + 1]) == Survivors(t, hs[..i]) + (if Passes(t, hs[i]) then [hs[i]] else [])
  {
    if i > 0 {
      SurvivorsNext(t, hs[1..], i - 1);
      assert hs[..i + 1][1..] == hs[1..][..i] && hs[..i][1..] == hs[1..][..i - 1];
    }
  }

  lemma {:induction false} SurvivorsAre(t: Table, hs: seq<nat>, h: nat)
    ensures h in Survivors(t, hs) <==> h in hs && Passes(t, h)
  {
    if hs != [] {
      SurvivorsAre(t, hs[1..], h);
    }
  }

  lemma {:induction false} SurvivorsAscend(t: Table, hs: seq<nat>)
    requires Ascending(hs)
    ensures Ascending(Survivors(t, hs))
  {
    if hs != [] {
      SurvivorsAscend(t, hs[1..]);
      var rest := Survivors(t, hs[1..]);
      if rest != [] {
        SurvivorsAre(t, hs[1..], rest[0]);
        var i :| 0 <= i < |hs[1..]| && hs[1..][i] == rest[0];
        AscendsTo(hs, 0, i + 1);
      }
      assert ([hs[0]] + rest)[1..] == rest && [] + rest == rest;
    }
  }

  lemma {:induction false} NoneBehind(t: Table, hs: seq<nat>, i: nat)
    requires i <= |hs| && forall k :: i <= k < |hs| ==> !Passes(t, hs[k])
    ensures Survivors(t, hs) == Survivors(t, hs[..i])
    decreases |hs| - i
  {
    if i < |hs| {
      NoneBehind(t, hs, i + 1);
      SurvivorsNext(t, hs, i);
    } else {
      assert hs[..i] == hs;
    }
  }

  lemma NoSurvivors(t: Table, hs: seq<nat>)
    requires !Usable(t) || t.value.coded
    ensures Survivors(t, hs) == []
  {
    NoneBehind(t, hs, 0);
  }

  /** From a hash that is too large on none survives. */
  lemma TooLarge(t: Table, hs: seq<nat>, i: nat)
    requires Ascending(hs) && i <= |hs| && Usable(t) && !t.value.coded && (i < |hs| ==> hs[i] > t.value.entries)
    ensures Survivors(t, hs) == Survivors(t, hs[..i])
  {
    forall k | i <= k < |hs| ensures !Passes(t, hs[k]) {
      AscendsTo(hs, i, k);
    }
    NoneBehind(t, hs, i);
  }

  /** The k survivors found so far lie from `at` on. */
  ghost predicate Holds(hashes: array<nat>, at: nat, found: seq<nat>)
    reads hashes
  {
    at + |found| <= hashes.Length && forall k :: 0 <= k < |found| ==> hashes[at + k] == found[k]
  }

  /** A plain table. */
  ghost function Plain(entries: nat, absent: seq<bool>): (t: Table) {
    Some(Qht(false, false, entries, absent))
  }

  /** g2_qht_global_search_bucket: the hashes that pass the table go behind the hashes looked at. The loop ends at the
      first hash that is greater than the number of entries. */
  method Condense(entries: nat, absent: seq<bool>, hashes: array<nat>, off: nat, num: nat, ghost hs: seq<nat>)
      returns (n: nat)
    requires off + 2 * num <= hashes.Length && hs == hashes[off..off + num] && Ascending(hs) && Reaches(absent, entries)
    modifies hashes
    ensures n <= num && (forall i :: 0 <= i < off + num ==> hashes[i] == old(hashes[i]))
    ensures hashes[off + num..off + num + n] == Survivors(Plain(entries, absent), hs)
  {
    ghost var t := Plain(entries, absent);
    var i, behind := 0, off + num;
    n := 0;
    while i < num && hashes[off + i] <= entries
      invariant 0 <= i <= num && n <= i
      invariant forall k :: 0 <= k < behind ==> hashes[k] == old(hashes[k])
      invariant n == |Survivors(t, hs[..i])| && Holds(hashes, behind, Survivors(t, hs[..i]))
    {
      n := Keep(entries, absent, hashes, behind, n, hashes[off + i], hs, i);
      i := i + 1;
    }
    assert i < num ==> hs[i] > entries;
    TooLarge(t, hs, i);
  }

  /** One turn of the condensing loop. */
  method Keep(entries: nat, absent: seq<bool>, hashes: array<nat>, at: nat, n: nat, h: nat, ghost hs: seq<nat>,
              ghost i: nat)
      returns (n': nat)
    requires i < |hs| && hs[i] == h <= entries && Reaches(absent, entries) && at + n < hashes.Length
    requires n == |Survivors(Plain(entries, absent), hs[..i])|
             && Holds(hashes, at, Survivors(Plain(entries, absent), hs[..i]))
    modifies hashes
    ensures forall k :: 0 <= k < at ==> hashes[k] == old(hashes[k])
    ensures var kept := Survivors(Plain(entries, absent), hs[..i + 1]);
            n' == |kept| <= n + 1 && Holds(hashes, at, kept)
  {
    SurvivorsNext(Plain(entries, absent), hs, i);
    n' := n;
    if !absent[h] {
      hashes[at + n] := h;
      n' := n + 1;
    }
  }

  /** The test of one leaf in g2_qht_global_search_chain: the loop over a plain table, and bitfield_lookup in an
      encoded one, which has no bits behind its last byte. */
  method MatchLeaf(q: Qht, hashes: array<nat>, off: nat, num: nat, ghost hs: seq<nat>) returns (found: bool)
    requires off + num <= hashes.Length && hs == hashes[off..off + num] && Ascending(hs)
    requires !q.reset && Reaches(q.absent, q.entries)
    ensures found == exists h :: h in hs && Tested(Some(q), h)
  {
    for i := 0 to num
      invariant forall k :: 0 <= k < i ==> !Tested(Some(q), hs[k])
    {
      var h := hashes[off + i];
      assert hs[i] == h && h in hs;
      if !q.coded && h > q.entries {
        forall k | i <= k < |hs| ensures !Tested(Some(q), hs[k]) {
          AscendsTo(hs, i, k);
        }
        return false;
      }
      if (q.coded ==> h < Rounded(q.entries)) && !q.absent[h] {
        assert Tested(Some(q), h);
        return true;
      }
    }
    return false;
  }

  /** do_global_search_chain. */
  method SearchChain(leaves: seq<Leaf>, hashes: array<nat>, off: nat, num: nat, maxPromille: nat, ghost hs: seq<nat>)
      returns (found: seq<nat>)
    requires off + num <= hashes.Length && hs == hashes[off..off + num] && Ascending(hs)
    requires forall x :: x in leaves ==> Mapped(x.qht)
    ensures found == FoundInChain(leaves, hs, maxPromille)
  {
    found := [];
    for i := 0 to |leaves|
      invariant found + FoundInChain(leaves[i..], hs, maxPromille) == FoundInChain(leaves, hs, maxPromille)
    {
      var x := leaves[i];
      assert x in leaves && leaves[i..][1..] == leaves[i + 1..];
      if Usable(x.qht) && !x.upeer && !x.dismissed && x.used < maxPromille {
        var hit := MatchLeaf(x.qht.value, hashes, off, num, hs);
        assert x.qht == Some(x.qht.value);
        if hit {
          found := found + [x.id];
        }
      }
    }
  }

  /** The scratch buffer has room for the survivors of `levels` further levels. */
  predicate Roomy(length: nat, off: nat, num: nat, levels: nat) {
    off + num * (levels + 1) <= length
  }

  lemma RoomBelow(length: nat, off: nat, num: nat, levels: nat, n: nat)
    requires Roomy(length, off, num, levels) && levels > 0 && n <= num
    ensures off + 2 * num <= length && Roomy(length, off + num, n, levels - 1)
  {
    assert num * (levels + 1) == num + num * levels;
    assert num * 1 <= num * levels;
    assert n * levels <= num * levels;
  }

  lemma RoomStays(length: nat, num: nat, levels: nat, n: nat)
    requires Roomy(length, 0, num, levels) && n <= num
    ensures Roomy(length, 0, n, levels)
  {
    assert n * (levels + 1) <= num * (levels + 1);
  }

  lemma {:induction false} FoundInKidsNext(kids: seq<Tree>, i: nat, hs: seq<nat>, maxPromille: nat, found: seq<nat>)
    requires i < |kids|
    requires found + FoundInKids(kids[i..], hs, maxPromille) == FoundInKids(kids, hs, maxPromille)
    ensures found + FoundIn(kids[i], hs, maxPromille) + FoundInKids(kids[i + 1..], hs, maxPromille)
            == FoundInKids(kids, hs, maxPromille)
  {
    assert kids[i..][1..] == kids[i + 1..];
  }

  /** One turn of do_global_search: a bucket or chain whose table none of the hashes passes is skipped. */
  method SearchTree(t: Tree, hashes: array<nat>, off: nat, num: nat, maxPromille: nat, ghost hs: seq<nat>,
                    ghost entries: nat, ghost levels: nat) returns (found: seq<nat>)
    requires Deep([t], levels) && Sized(t, entries) && Roomy(hashes.Length, off, num, levels)
    requires off + num <= hashes.Length && hs == hashes[off..off + num] && Ascending(hs)
    modifies hashes
    ensures forall i :: 0 <= i < off + num ==> hashes[i] == old(hashes[i])
    ensures found == FoundIn(t, hs, maxPromille)
    decreases levels, 0
  {
    assert t in [t];
    if !Usable(t.qht) || t.qht.value.coded {
      NoSurvivors(t.qht, hs);
      return [];
    }
    RoomBelow(hashes.Length, off, num, levels, num);
    var n := Condense(t.qht.value.entries, t.qht.value.absent, hashes, off, num, hs);
    assert t.qht == Plain(t.qht.value.entries, t.qht.value.absent);
    ghost var left := Survivors(t.qht, hs);
    if n == 0 {
      return [];
    }
    RoomBelow(hashes.Length, off, num, levels, n);
    SurvivorsAscend(t.qht, hs);
    found := SearchBelow(t, hashes, off + num, n, maxPromille, left, entries, levels);
  }

  /** With the hashes that are left. */
  method SearchBelow(t: Tree, hashes: array<nat>, off: nat, num: nat, maxPromille: nat, ghost left: seq<nat>,
                     ghost entries: nat, ghost levels: nat) returns (found: seq<nat>)
    requires Deep([t], levels) && Sized(t, entries) && (levels > 1 ==> Roomy(hashes.Length, off, num, levels - 1))
    requires off + num <= hashes.Length && left == hashes[off..off + num] && Ascending(left)
    modifies hashes
    ensures forall i :: 0 <= i < off + num ==> hashes[i] == old(hashes[i])
    ensures found == match t
                     case Chain(_, _, leaves, _) => FoundInChain(leaves, left, maxPromille)
                     case Bucket(_, _, kids, _) => FoundInKids(kids, left, maxPromille)
    decreases levels - 1, 2
  {
    assert t in [t];
    match t
    case Chain(_, _, leaves, _) => found := SearchChain(leaves, hashes, off, num, maxPromille, left);
    case Bucket(_, _, kids, _) => found := SearchKids(kids, hashes, off, num, maxPromille, left, entries, levels - 1);
  }

  /** do_global_search: every level keeps its hashes while the levels below it use the space behind them. */
  method SearchKids(kids: seq<Tree>, hashes: array<nat>, off: nat, num: nat, maxPromille: nat, ghost hs: seq<nat>,
                    ghost entries: nat, ghost levels: nat) returns (found: seq<nat>)
    requires Deep(kids, levels) && (forall k :: k in kids ==> Sized(k, entries))
             && Roomy(hashes.Length, off, num, levels)
    requires off + num <= hashes.Length && hs == hashes[off..off + num] && Ascending(hs)
    modifies hashes
    ensures forall i :: 0 <= i < off + num ==> hashes[i] == old(hashes[i])
    ensures found == FoundInKids(kids, hs, maxPromille)
    decreases levels, 1
  {
    found := [];
    for i := 0 to |kids|
      invariant forall k :: 0 <= k < off + num ==> hashes[k] == old(hashes[k])
      invariant found + FoundInKids(kids[i..], hs, maxPromille) == FoundInKids(kids, hs, maxPromille)
    {
      assert kids[i] in kids;
      assert hs == hashes[off..off + num];
      FoundInKidsNext(kids, i, hs, maxPromille, found);
      var some := SearchTree(kids[i], hashes, off, num, maxPromille, hs, entries, levels);
      found := found + some;
    }
  }

  /** The condensing loop of g2_qht_match_leafs, in place. */
  method CondenseFront(entries: nat, absent: seq<bool>, hashes: array<nat>, num: nat, ghost hs: seq<nat>)
      returns (n: nat)
    requires num <= hashes.Length && hs == hashes[..num] && Ascending(hs) && Reaches(absent, entries)
    modifies hashes
    ensures n <= num && hashes[..n] == Survivors(Plain(entries, absent), hs)
  {
    ghost var t := Plain(entries, absent);
    n := 0;
    var i := 0;
    while i < num && hashes[i] <= entries
      invariant 0 <= n <= i <= num && forall k :: i <= k < num ==> hashes[k] == hs[k]
      invariant hashes[..n] == Survivors(t, hs[..i])
    {
      var h := hashes[i];
      assert hs[i] == h;
      SurvivorsNext(t, hs, i);
      if !absent[h] {
        hashes[n] := h;
        n := n + 1;
        assert hashes[..n] == Survivors(t, hs[..i]) + [h];
      }
      i := i + 1;
    }
    assert i < num ==> hs[i] > entries;
    TooLarge(t, hs, i);
  }

  /** g2_qht_match_leafs: the master table first, then the tree below it. */
  method MatchLeafs(root: Tree, hashes: array<nat>, num: nat, maxPromille: nat, ghost hs: seq<nat>, ghost entries: nat,
                    ghost levels: nat) returns (found: seq<nat>)
    requires root.Bucket? && Deep(root.kids, levels) && Sized(root, entries) && Roomy(hashes.Length, 0, num, levels)
    requires num <= hashes.Length && hs == hashes[..num] && Ascending(hs)
    modifies hashes
    ensures found == FoundIn(root, hs, maxPromille)
  {
    if !Usable(root.qht) || root.qht.value.coded {
      NoSurvivors(root.qht, hs);
      return [];
    }
    var n := CondenseFront(root.qht.value.entries, root.qht.value.absent, hashes, num, hs);
    assert root.qht == Plain(root.qht.value.entries, root.qht.value.absent);
    if n == 0 {
      return [];
    }
    SurvivorsAscend(root.qht, hs);
    RoomStays(hashes.Length, num, levels, n);
    ghost var left := Survivors(root.qht, hs);
    assert hashes[0..0 + n] == left;
    found := SearchKids(root.kids, hashes, 0, n, maxPromille, left, entries, levels);
  }

  const QHT_DEFAULT_BYTES := 131072

  /** g2_qht_search_prepare: as many hashes as leave room for every level's survivors behind them, the
      buffer's two counters taking 16 bytes. */
  function ScratchSize(levels: nat): (n: int) {
    (QHT_DEFAULT_BYTES / (levels + 1) - 16) / 4
  }

  /** Every level's share of the bytes holds the counters and the hashes, and not one hash more. */
  lemma ScratchShare(levels: nat, num: nat)
    ensures num <= ScratchSize(levels) <==> (4 * num + 16) * (levels + 1) <= QHT_DEFAULT_BYTES
  {
    QuotientAtLeast(QHT_DEFAULT_BYTES, levels + 1, 4 * num + 16);
  }

  lemma ScratchFits(levels: nat, num: nat)
    requires num <= ScratchSize(levels)
    ensures Roomy((QHT_DEFAULT_BYTES - 16) / 4, 0, num, levels)
  {
    var share := QHT_DEFAULT_BYTES / (levels + 1);
    assert share * (levels + 1) <= QHT_DEFAULT_BYTES;
    assert 4 * num <= share - 16;
    assert (4 * num + 16) * (levels + 1) <= share * (levels + 1);
    assert (4 * num + 16) * (levels + 1) == 4 * (num * (levels + 1)) + 16 * (levels + 1);
  }

  /** The low word of the product. */
  function Scrambled(h: nat): (n: nat)
    ensures n < WORD
  {
    h * 0x4F1BBCDC % WORD
  }

  function ShiftRight(n: nat, k: nat): (r: nat) {
    Quotient(n, Pow2(k))
  }

  /** g2_qht_hnumber, with its 64-bit product shifted up and down again. */
  function HashNumber(h: nat, bits: nat): (n: nat)
    requires bits <= 32
  {
    ShiftRight(Scrambled(h) * WORD, 64 - bits)
  }

  lemma {:induction false} PowSum(a: nat, b: nat)
    ensures Pow2(a + b) == Pow2(a) * Pow2(b)
  {
    if a > 0 {
      PowSum(a - 1, b);
    }
  }

  lemma PowWord()
    ensures Pow2(32) == WORD && Pow2(64) == WORD * WORD
  {
    assert Pow2(8) == 256;
    PowSum(8, 8);
    PowSum(16, 16);
    PowSum(32, 32);
  }

  /** Hash numbers fit a table of 2^bits entries. */
  lemma HashBelow(h: nat, bits: nat)
    requires bits <= 32
    ensures HashNumber(h, bits) < Pow2(bits)
  {
    var low := Scrambled(h);
    PowWord();
    PowSum(64 - bits, bits);
    QuotientBelow(low * WORD, Pow2(64 - bits), Pow2(bits));
  }

  /** They are the highest bits of the low word of the product. */
  lemma HashNumberIs(h: nat, bits: nat)
    requires bits <= 32
    ensures var n, low := HashNumber(h, bits), h * 0x4F1BBCDC % 0x1_0000_0000;
            n * Pow2(32 - bits) <= low < (n + 1) * Pow2(32 - bits)
  {
    PowWord();
    PowSum(32, 32 - bits);
    QuotientReduced(Scrambled(h), WORD, Pow2(32 - bits), HashNumber(h, bits));
  }

  // ---------------------------------------------------------------------------------------------
  // What a search finds
  // ---------------------------------------------------------------------------------------------

  /** A leaf that goes into the tables of the tree. */
  predicate Eligible(x: Leaf, maxPromille: nat) {
    Usable(x.qht) && !x.upeer && x.used < maxPromille
  }

  /** The chain's table has everything its eligible leaves have. */
  ghost predicate UpToDate(t: Tree, entries: nat, maxPromille: nat)
    requires t.Chain?
  {
    forall x :: x in t.leaves && Eligible(x, maxPromille) ==> Over(t.qht, x.qht, entries)
  }

  /** A leaf with the tables on the way to it; `marked` says that an update pass will renew them all: the
      buckets are dirty, and the chain is dirty or its table has everything its eligible leaves have. */
  datatype Spot = Spot(path: seq<Table>, leaf: Leaf, marked: bool)

  ghost function Under(q: Table, dirty: bool, spots: seq<Spot>): (r: seq<Spot>)
    ensures |r| == |spots|
    ensures forall i :: 0 <= i < |spots| ==> r[i] == Spot([q] + spots[i].path, spots[i].leaf, dirty && spots[i].marked)
  {
    seq(|spots|, i requires 0 <= i < |spots| => Spot([q] + spots[i].path, spots[i].leaf, dirty && spots[i].marked))
  }

  ghost function LeafSpots(leaves: seq<Leaf>, marked: bool): (r: seq<Spot>)
    ensures |r| == |leaves| && forall i :: 0 <= i < |leaves| ==> r[i] == Spot([], leaves[i], marked)
  {
    seq(|leaves|, i requires 0 <= i < |leaves| => Spot([], leaves[i], marked))
  }

  ghost function Spots(t: Tree, entries: nat, maxPromille: nat): (r: seq<Spot>)
    decreases t, 1
  {
    match t
    case Chain(qht, dirty, leaves, _) => Under(qht, true, LeafSpots(leaves, dirty || UpToDate(t, entries, maxPromille)))
    case Bucket(qht, dirty, kids, _) => Under(qht, dirty, KidSpots(kids, entries, maxPromille))
  }

  ghost function KidSpots(kids: seq<Tree>, entries: nat, maxPromille: nat): (r: seq<Spot>)
    decreases kids, 0
  {
    if kids == [] then [] else Spots(kids[0], entries, maxPromille) + KidSpots(kids[1..], entries, maxPromille)
  }

  ghost predicate AllPass(path: seq<Table>, h: nat) {
    forall i :: 0 <= i < |path| ==> Passes(path[i], h)
  }

  ghost predicate Hit(x: Spot, hs: seq<nat>, maxPromille: nat) {
    Searched(x.leaf, maxPromille) && exists h :: h in hs && AllPass(x.path, h) && Tested(x.leaf.qht, h)
  }

  ghost function Hits(spots: seq<Spot>, hs: seq<nat>, maxPromille: nat): (ids: seq<nat>) {
    if spots == [] then []
    else (if Hit(spots[0], hs, maxPromille) then [spots[0].leaf.id] else []) + Hits(spots[1..], hs, maxPromille)
  }

  lemma {:induction false} HitsJoin(a: seq<Spot>, b: seq<Spot>, hs: seq<nat>, maxPromille: nat)
    ensures Hits(a + b, hs, maxPromille) == Hits(a, hs, maxPromille) + Hits(b, hs, maxPromille)
  {
    if a == [] {
      assert a + b == b;
    } else {
      HitsJoin(a[1..], b, hs, maxPromille);
      assert (a + b)[0] == a[0] && (a + b)[1..] == a[1..] + b;
      var x := if Hit(a[0], hs, maxPromille) then [a[0].leaf.id] else [];
      Seqs.Assoc(x, Hits(a[1..], hs, maxPromille), Hits(b, hs, maxPromille));
    }
  }

  lemma {:induction false} HitsNone(spots: seq<Spot>, maxPromille: nat)
    ensures Hits(spots, [], maxPromille) == []
  {
    if spots != [] {
      HitsNone(spots[1..], maxPromille);
    }
  }

  lemma HitUnder(q: Table, x: Spot, y: Spot, hs: seq<nat>, maxPromille: nat)
    requires y.path == [q] + x.path && y.leaf == x.leaf
    ensures Hit(y, hs, maxPromille) <==> Hit(x, Survivors(q, hs), maxPromille)
  {
    forall h ensures h in hs && AllPass(y.path, h) <==> h in Survivors(q, hs) && AllPass(x.path, h) {
      SurvivorsAre(q, hs, h);
      if AllPass(y.path, h) {
        assert Passes(y.path[0], h);
        forall i | 0 <= i < |x.path| ensures Passes(x.path[i], h) {
          assert Passes(y.path[i + 1], h);
        }
      }
    }
  }

  lemma {:induction false} HitsUnder(q: Table, dirty: bool, spots: seq<Spot>, hs: seq<nat>, maxPromille: nat)
    ensures Hits(Under(q, dirty, spots), hs, maxPromille) == Hits(spots, Survivors(q, hs), maxPromille)
  {
    if spots != [] {
      HitsUnder(q, dirty, spots[1..], hs, maxPromille);
      assert Under(q, dirty, spots)[1..] == Under(q, dirty, spots[1..]);
      HitUnder(q, spots[0], Under(q, dirty, spots)[0], hs, maxPromille);
    }
  }

  lemma {:induction false} HitsLeaves(leaves: seq<Leaf>, marked: bool, hs: seq<nat>, maxPromille: nat)
    ensures Hits(LeafSpots(leaves, marked), hs, maxPromille) == FoundInChain(leaves, hs, maxPromille)
  {
    if leaves != [] {
      HitsLeaves(leaves[1..], marked, hs, maxPromille);
      assert LeafSpots(leaves, marked)[1..] == LeafSpots(leaves[1..], marked);
      var x := LeafSpots(leaves, marked)[0];
      assert Hit(x, hs, maxPromille) <==> Finds(leaves[0], hs, maxPromille) by {
        assert forall h :: AllPass(x.path, h);
      }
    }
  }

  /** The recursive search finds, in tree order and each once, exactly the leaves that some hash leads to: one
      that passes every table on the way, and the leaf's own. */
  lemma {:induction false} SearchIsFlat(t: Tree, entries: nat, hs: seq<nat>, maxPromille: nat)
    ensures FoundIn(t, hs, maxPromille) == Hits(Spots(t, entries, maxPromille), hs, maxPromille)
    decreases t, 1
  {
    var left := Survivors(t.qht, hs);
    match t
    case Chain(qht, dirty, leaves, _) =>
      var spots := LeafSpots(leaves, dirty || UpToDate(t, entries, maxPromille));
      HitsUnder(qht, true, spots, hs, maxPromille);
      HitsLeaves(leaves, dirty || UpToDate(t, entries, maxPromille), left, maxPromille);
      HitsNone(spots, maxPromille);
    case Bucket(qht, dirty, kids, _) =>
      HitsUnder(qht, dirty, KidSpots(kids, entries, maxPromille), hs, maxPromille);
      KidsAreFlat(kids, entries, left, maxPromille);
      HitsNone(KidSpots(kids, entries, maxPromille), maxPromille);
  }

  lemma {:induction false} KidsAreFlat(kids: seq<Tree>, entries: nat, hs: seq<nat>, maxPromille: nat)
    ensures FoundInKids(kids, hs, maxPromille) == Hits(KidSpots(kids, entries, maxPromille), hs, maxPromille)
    decreases kids, 0
  {
    if kids != [] {
      SearchIsFlat(kids[0], entries, hs, maxPromille);
      KidsAreFlat(kids[1..], entries, hs, maxPromille);
      HitsJoin(Spots(kids[0], entries, maxPromille), KidSpots(kids[1..], entries, maxPromille), hs, maxPromille);
    }
  }

  ghost predicate DistinctLeaves(spots: seq<Spot>) {
    forall i, j :: 0 <= i < j < |spots| ==> spots[i].leaf.id != spots[j].leaf.id
  }

  /** Each leaf that is hit is named exactly once, and no other. */
  lemma {:induction false} HitsOnce(spots: seq<Spot>, hs: seq<nat>, maxPromille: nat, id: nat)
    requires DistinctLeaves(spots)
    ensures multiset(Hits(spots, hs, maxPromille))[id]
            == if exists i :: 0 <= i < |spots| && spots[i].leaf.id == id && Hit(spots[i], hs, maxPromille) then 1 else 0
  {
    if spots != [] {
      var rest := spots[1..];
      HitsOnce(rest, hs, maxPromille, id);
      assert Hits(spots, hs, maxPromille)
             == (if Hit(spots[0], hs, maxPromille) then [spots[0].leaf.id] else []) + Hits(rest, hs, maxPromille);
      if i :| 0 <= i < |rest| && rest[i].leaf.id == id && Hit(rest[i], hs, maxPromille) {
        assert spots[i + 1] == rest[i] && spots[0].leaf.id != id;
      } else if i :| 0 <= i < |spots| && spots[i].leaf.id == id && Hit(spots[i], hs, maxPromille) {
        assert i == 0;
      }
    }
  }
}
