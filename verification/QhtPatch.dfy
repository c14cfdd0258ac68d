/** Sending a query hash table as the difference to an earlier one (G2QHT.c, uncompressed): cutting the
    difference into fragments, collecting them, and patching. */
module QhtPatch {
  import opened Arithmetic
  import opened Bits
  import opened Buffers
  import opened Options
  import Seqs

  // ---------------------------------------------------------------------------------------------
  // memxor, memneg
  // ---------------------------------------------------------------------------------------------

  function XorByte(a: byte, b: byte): (r: byte) {
    XorBelow(a, b, 8); Xor(a, b)
  }

  function XorBytes(a: seq<byte>, b: seq<byte>): (r: seq<byte>)
    requires |a| == |b|
    ensures |r| == |a| && forall i :: 0 <= i < |a| ==> r[i] == XorByte(a[i], b[i])
  {
    seq(|a|, i requires 0 <= i < |a| => XorByte(a[i], b[i]))
  }

  function NegByte(a: byte): (r: byte) {
    255 - a
  }

  function NegBytes(a: seq<byte>): (r: seq<byte>)
    ensures |r| == |a| && forall i :: 0 <= i < |a| ==> r[i] == NegByte(a[i])
  {
    seq(|a|, i requires 0 <= i < |a| => NegByte(a[i]))
  }

  lemma XorBytesTwice(a: seq<byte>, b: seq<byte>)
    requires |a| == |b|
    ensures XorBytes(a, XorBytes(a, b)) == b
  {
    forall i | 0 <= i < |a| ensures XorBytes(a, XorBytes(a, b))[i] == b[i] {
      XorTwice(a[i], b[i]);
    }
  }

  // ---------------------------------------------------------------------------------------------
  // Cutting a difference into fragments
  // ---------------------------------------------------------------------------------------------

  /** NORM_BUFF_CAPACITY less the patch header. */
  const FRAG_ROOM := 4072 - 5

  datatype Compression = CompNone | CompDeflate | CompOther

  /** A fragment; its data begins behind the header. */
  datatype Fragment = Fragment(nr: nat, count: nat, compressed: Compression, data: seq<byte>)

  function Joined(frags: seq<Fragment>): (s: seq<byte>) {
    if frags == [] then [] else frags[0].data + Joined(frags[1..])
  }

  lemma {:induction false} JoinedSplit(a: seq<Fragment>, b: seq<Fragment>)
    ensures Joined(a + b) == Joined(a) + Joined(b)
  {
    if a == [] {
      assert a + b == b;
    } else {
      JoinedSplit(a[1..], b);
      assert (a + b)[1..] == a[1..] + b && (a + b)[0] == a[0];
      Seqs.Assoc(a[0].data, Joined(a[1..]), Joined(b));
    }
  }

  /** The bytes of a table in which the two tables differ, or, without an old table, the new one negated. */
  function Delta(org: Option<seq<byte>>, table: seq<byte>): (d: seq<byte>)
    ensures |d| == if org.Some? then Min(|org.value|, |table|) else |table|
  {
    if org.None? then NegBytes(table)
    else
      var n := Min(|org.value|, |table|);
      XorBytes(org.value[..n], table[..n])
  }

  /** The fragments are numbered from 1, know their number, and are full but for the last. */
  ghost predicate WellCut(frags: seq<Fragment>, d: seq<byte>) {
    frags != [] && Joined(frags) == d
    && forall i :: 0 <= i < |frags| ==>
         frags[i].nr == i + 1 && frags[i].count == |frags| && frags[i].compressed == CompNone
         && (if i < |frags| - 1 then |frags[i].data| == FRAG_ROOM else |frags[i].data| <= FRAG_ROOM)
  }

  function Reversed(s: seq<Fragment>): (r: seq<Fragment>)
    ensures |r| == |s| && forall i :: 0 <= i < |s| ==> r[i] == s[|s| - 1 - i]
  {
    seq(|s|, i requires 0 <= i < |s| => s[|s| - 1 - i])
  }

  /** The fragments while they are being made, newest first and without their number. */
  ghost predicate Cutting(list: seq<Fragment>, d: seq<byte>, pos: nat) {
    pos <= |d| && Joined(Reversed(list)) == d[..pos]
    && forall i :: 0 <= i < |list| ==>
         list[i].nr == |list| - i && list[i].compressed == CompNone
         && (if pos < |d| || i > 0 then |list[i].data| == FRAG_ROOM else |list[i].data| <= FRAG_ROOM)
  }

  lemma CutOne(list: seq<Fragment>, d: seq<byte>, pos: nat, frag: Fragment)
    requires Cutting(list, d, pos) && (list == [] || pos < |d|)
    requires frag == Fragment(|list| + 1, 0, CompNone, d[pos..pos + Min(FRAG_ROOM, |d| - pos)])
    ensures Cutting([frag] + list, d, pos + |frag.data|)
  {
    var list' := [frag] + list;
    assert Reversed(list') == Reversed(list) + [frag];
    JoinedSplit(Reversed(list), [frag]);
    assert Joined([frag]) == frag.data;
    assert d[..pos] + frag.data == d[..pos + |frag.data|];
  }

  /** One call of memneg or memxorcpy. */
  function Piece(org: Option<seq<byte>>, table: seq<byte>, pos: nat, n: nat): (r: seq<byte>)
    requires pos + n <= |Delta(org, table)|
    ensures r == Delta(org, table)[pos..pos + n]
  {
    if org.None? then NegBytes(table[pos..pos + n]) else XorBytes(org.value[pos..pos + n], table[pos..pos + n])
  }

  lemma CutAll(list: seq<Fragment>, d: seq<byte>, frags: seq<Fragment>)
    requires list != [] && Cutting(list, d, |d|)
    requires |frags| == |list| && forall i :: 0 <= i < |list| ==> frags[i] == Reversed(list)[i].(count := |list|)
    ensures WellCut(frags, d)
  {
    JoinedSame(frags, Reversed(list));
    assert d[..|d|] == d;
  }

  /** g2_qht_diff_get_frag: the first loop builds the list backwards, the second turns it round and fills in
      the number of fragments. */
  method DiffFragments(org: Option<seq<byte>>, table: seq<byte>) returns (frags: seq<Fragment>)
    ensures WellCut(frags, Delta(org, table))
  {
    ghost var d := Delta(org, table);
    var len := if org.Some? then Min(|org.value|, |table|) else |table|;
    var list: seq<Fragment>, pos := [], 0;
    while len > 0 || list == []
      invariant 0 <= len == |d| - pos && 0 <= pos && Cutting(list, d, pos)
      decreases len, list == []
    {
      var n := if len > FRAG_ROOM then FRAG_ROOM else len;
      var frag := Fragment(|list| + 1, 0, CompNone, Piece(org, table, pos, n));
      CutOne(list, d, pos, frag);
      list := [frag] + list;
      len, pos := len - n, pos + n;
    }
    frags := TurnRound(list);
    CutAll(list, d, frags);
  }

  method TurnRound(list: seq<Fragment>) returns (frags: seq<Fragment>)
    ensures |frags| == |list|
    ensures forall i :: 0 <= i < |list| ==> frags[i] == Reversed(list)[i].(count := |list|)
  {
    frags := [];
    var i := 0;
    while i < |list|
      invariant 0 <= i <= |list| && |frags| == i
      invariant forall k :: 0 <= k < i ==> frags[k] == list[i - 1 - k].(count := |list|)
    {
      frags := [list[i].(count := |list|)] + frags;
      i := i + 1;
    }
  }

  lemma {:induction false} JoinedSame(a: seq<Fragment>, b: seq<Fragment>)
    requires |a| == |b| && forall i :: 0 <= i < |a| ==> a[i].data == b[i].data
    ensures Joined(a) == Joined(b)
  {
    if a != [] {
      JoinedSame(a[1..], b[1..]);
    }
  }

  // ---------------------------------------------------------------------------------------------
  // The receiving table
  // ---------------------------------------------------------------------------------------------

  /** The bytes with p xored over their beginning. */
  function XorOver(was: seq<byte>, p: seq<byte>): (r: seq<byte>)
    requires |p| <= |was|
  {
    XorBytes(was[..|p|], p) + was[|p|..]
  }

  function NegOver(was: seq<byte>, p: seq<byte>): (r: seq<byte>)
    requires |p| <= |was|
  {
    NegBytes(p) + was[|p|..]
  }

  /** What a run of fragments does to the bytes it is applied to. */
  function Applied(reset: bool, was: seq<byte>, p: seq<byte>): (r: seq<byte>)
    requires |p| <= |was|
    ensures |r| == |was|
  {
    if reset then NegOver(was, p) else XorOver(was, p)
  }

  lemma AppliedNext(reset: bool, was: seq<byte>, p: seq<byte>, q: seq<byte>, r: seq<byte>)
    requires |p| + |q| <= |was| && |r| == |was|
    requires forall i :: 0 <= i < |was| ==>
               r[i] == if |p| <= i < |p| + |q| then (if reset then NegByte(q[i - |p|]) else XorByte(was[i], q[i - |p|]))
                       else Applied(reset, was, p)[i]
    ensures r == Applied(reset, was, p + q)
  {
    var all := p + q;
    forall i | 0 <= i < |was| ensures r[i] == Applied(reset, was, all)[i] {
      if i < |p| {
        assert all[i] == p[i];
      } else if i < |all| {
        assert all[i] == q[i - |p|];
      }
    }
  }

  /** When g2_qht_add_frag takes a fragment: the first must be number 1; later ones must agree with it in
      count and compression; none may make the collection larger than the table. */
  ghost predicate Takes(fragments: seq<Fragment>, entries: nat, frag: Fragment) {
    frag.compressed != CompOther
    && (if fragments == [] then frag.nr == 1
        else frag.count == fragments[0].count && frag.compressed == fragments[0].compressed)
    && |Joined(fragments)| + |frag.data| <= DivRoundUp(entries, 8)
  }

  class QhTable {
    const entries: nat
    /** The table's bytes; `rle` says that they are kept run-length encoded. */
    const data: array<byte>
    var rle: bool
    var resetNeeded: bool
    var fragments: seq<Fragment>
    /** The thread's scratch pad, whatever was left in it. */
    const scratch: array<byte>

    /** g2_qht_reset: a new table, its bytes not yet meaning anything. */
    constructor (entries: nat)
      ensures Valid() && this.entries == entries && resetNeeded && !rle && fragments == []
      ensures fresh(data) && fresh(scratch)
    {
      this.entries := entries;
      data := new byte[DivRoundUp(entries, 8)](_ => 0);
      scratch := new byte[DivRoundUp(entries, 8)](_ => 0);
      rle, resetNeeded, fragments := false, true, [];
    }

    /** What has been collected never exceeds the table. */
    ghost predicate Valid()
      reads this
    {
      data.Length == scratch.Length == DivRoundUp(entries, 8) && data != scratch && |Joined(fragments)| <= data.Length
    }

    ghost predicate Accepts(frag: Fragment)
      reads this
    {
      Takes(fragments, entries, frag)
    }

    method TotalLength() returns (n: nat)
      ensures n == |Joined(fragments)|
    {
      n := 0;
      for i := 0 to |fragments|
        invariant n + |Joined(fragments[i..])| == |Joined(fragments)|
      {
        assert fragments[i..][1..] == fragments[i + 1..];
        n := n + |fragments[i].data|;
      }
    }

    /** g2_qht_add_frag: -1 refused, 0 more to come, 1 complete. */
    method AddFrag(frag: Fragment) returns (r: int)
      requires Valid()
      modifies this`fragments
      ensures Valid()
      ensures r == -1 <==> !old(Accepts(frag))
      ensures r == -1 ==> fragments == old(fragments)
      ensures r != -1 ==> fragments == old(fragments) + [frag] && r == (if frag.nr >= frag.count then 1 else 0)
    {
      if frag.compressed != CompNone && frag.compressed != CompDeflate {
        return -1;
      }
      if fragments != [] {
        if frag.count != fragments[0].count || frag.compressed != fragments[0].compressed {
          return -1;
        }
      } else if frag.nr != 1 {
        return -1;
      }
      var total := TotalLength();
      if total + |frag.data| > DivRoundUp(entries, 8) {
        return -1;
      }
      JoinedSplit(fragments, [frag]);
      assert Joined([frag]) == frag.data;
      fragments := fragments + [frag];
      return if frag.nr >= frag.count then 1 else 0;
    }

    /** memneg or memxor of one fragment. */
    method ApplyAt(target: array<byte>, pos: nat, q: seq<byte>, ghost was: seq<byte>, ghost p: seq<byte>)
      requires |was| == target.Length && pos == |p| && pos + |q| <= target.Length
      requires target[..] == Applied(resetNeeded, was, p)
      modifies target
      ensures target[..] == Applied(resetNeeded, was, p + q)
    {
      ghost var now := target[..];
      var i := 0;
      while i < |q|
        invariant 0 <= i <= |q|
        invariant forall k :: 0 <= k < target.Length ==>
                    target[k] == if pos <= k < pos + i
                                 then (if resetNeeded then NegByte(q[k - pos]) else XorByte(was[k], q[k - pos]))
                                 else now[k]
      {
        assert target[pos + i] == now[pos + i] == Applied(resetNeeded, was, p)[pos + i] == was[pos + i];
        target[pos + i] := if resetNeeded then NegByte(q[i]) else XorByte(target[pos + i], q[i]);
        i := i + 1;
      }
      AppliedNext(resetNeeded, was, p, q, target[..]);
    }

    /** The loop of g2_qht_patch over uncompressed fragments. */
    method ApplyAll(target: array<byte>)
      requires Valid() && target.Length == data.Length
      modifies target
      ensures target[..] == Applied(resetNeeded, old(target[..]), Joined(fragments))
    {
      ghost var was := target[..];
      var pos, i := 0, 0;
      while i < |fragments|
        invariant 0 <= i <= |fragments| && pos == |Joined(fragments[..i])| <= target.Length
        invariant target[..] == Applied(resetNeeded, was, Joined(fragments[..i]))
      {
        JoinedNext(fragments, i);
        ApplyAt(target, pos, fragments[i].data, was, Joined(fragments[..i]));
        pos, i := pos + |fragments[i].data|, i + 1;
      }
      assert fragments[..i] == fragments;
    }

    static method Copy(to: array<byte>, from: array<byte>)
      requires to.Length == from.Length && to != from
      modifies to
      ensures to[..] == old(from[..])
    {
      for i := 0 to to.Length
        invariant to[..i] == old(from[..i]) && from[..] == old(from[..])
      {
        to[i] := from[i];
      }
    }

    /** Whether what g2_qht_patch works out also gets into the table. */
    predicate Sticks(compressInternal: bool)
      reads this
    {
      compressInternal || (!rle && !resetNeeded)
    }

    /** g2_qht_patch. A table that is kept encoded or is to be reset is patched in the scratch pad and stored
        from there, run-length encoded if that is smaller, but only when the internal compression is on. */
    method Patch(compressInternal: bool, smaller: bool)
      requires Valid()
      modifies this`rle, this`resetNeeded, data, scratch
      ensures Valid() && !resetNeeded
      ensures data[..] == old(if !Sticks(compressInternal) then data[..]
                              else Applied(resetNeeded,
                                           if resetNeeded then scratch[..] else data[..], Joined(fragments)))
      ensures rle == if compressInternal && old(rle || resetNeeded) then smaller else old(rle)
    {
      if rle || resetNeeded {
        if rle && !resetNeeded {
          Copy(scratch, data);
        }
        ApplyAll(scratch);
        if compressInternal {
          Copy(data, scratch);
          rle := smaller;
        }
      } else {
        ApplyAll(data);
      }
      resetNeeded := false;
    }
  }

  lemma JoinedNext(frags: seq<Fragment>, i: nat)
    requires i < |frags|
    ensures Joined(frags[..i + 1]) == Joined(frags[..i]) + frags[i].data
    ensures |Joined(frags[..i + 1])| <= |Joined(frags)|
  {
    assert frags[..i + 1] == frags[..i] + [frags[i]];
    JoinedSplit(frags[..i], [frags[i]]);
    assert Joined([frags[i]]) == frags[i].data;
    assert frags == frags[..i + 1] + frags[i + 1..];
    JoinedSplit(frags[..i + 1], frags[i + 1..]);
  }

  // ---------------------------------------------------------------------------------------------
  // Which fragments are collected
  // ---------------------------------------------------------------------------------------------

  /** Fragments that are all taken: number 1 comes first, all have the same count and compression, and together they are
      no larger than the table. Other numbers play no part. */
  ghost predicate Collectable(frags: seq<Fragment>, entries: nat) {
    (frags != [] ==> frags[0].nr == 1 && frags[0].compressed != CompOther)
    && (forall i :: 0 <= i < |frags| ==> frags[i].count == frags[0].count && frags[i].compressed == frags[0].compressed)
    && |Joined(frags)| <= DivRoundUp(entries, 8)
  }

  /** And that the last of them is reported as the last. */
  ghost predicate Completes(frags: seq<Fragment>, entries: nat) {
    frags != [] && Collectable(frags, entries)
    && forall i :: 0 <= i < |frags| ==> (frags[i].nr >= frags[i].count <==> i == |frags| - 1)
  }

  ghost predicate NoneIsLast(frags: seq<Fragment>) {
    forall i :: 0 <= i < |frags| ==> frags[i].nr < frags[i].count
  }

  lemma CollectableNext(frags: seq<Fragment>, entries: nat, k: nat)
    requires k < |frags| && Collectable(frags[..k], entries)
    ensures Collectable(frags[..k + 1], entries) <==> Takes(frags[..k], entries, frags[k])
  {
    JoinedNext(frags, k);
    assert frags[..k + 1] == frags[..k] + [frags[k]];
    if Collectable(frags[..k + 1], entries) && k > 0 {
      assert frags[..k + 1][k].count == frags[..k + 1][0].count;
      assert frags[..k][0] == frags[..k + 1][0];
    }
  }

  /** Any fragments offered in turn, until one is refused or reported as the last: they are reported complete just if
      they come to a point where they complete in that sense. */
  method Offer(target: QhTable, frags: seq<Fragment>) returns (r: int, k: nat)
    requires target.Valid() && target.fragments == []
    modifies target`fragments
    ensures target.Valid() && k <= |frags|
    ensures r == 1 <==> exists n :: 0 < n <= |frags| && Completes(frags[..n], target.entries)
    ensures r == 1 ==> Completes(frags[..k], target.entries) && target.fragments == frags[..k]
  {
    r, k := 0, 0;
    while r == 0 && k < |frags|
      invariant 0 <= k <= |frags| && target.Valid() && -1 <= r <= 1
      invariant r == 0 ==>
                  target.fragments == frags[..k] && Collectable(frags[..k], target.entries) && NoneIsLast(frags[..k])
      invariant r == 1 ==> target.fragments == frags[..k] && k > 0 && Completes(frags[..k], target.entries)
      invariant r == -1 ==> k > 0 && !Collectable(frags[..k], target.entries) && NoneIsLast(frags[..k - 1])
      decreases r == 0, |frags| - k
    {
      CollectableNext(frags, target.entries, k);
      r := target.AddFrag(frags[k]);
      k := k + 1;
      assert frags[..k] == frags[..k - 1] + [frags[k - 1]];
    }
    if r != 1 {
      forall n | 0 < n <= |frags| ensures !Completes(frags[..n], target.entries) {
        NeverCompletes(frags, target.entries, k, r, n);
      }
    }
  }

  lemma NeverCompletes(frags: seq<Fragment>, entries: nat, k: nat, r: int, n: nat)
    requires 0 < n <= |frags| && k <= |frags|
    requires (r == 0 && k == |frags| && NoneIsLast(frags[..k]))
             || (r == -1 && k > 0 && !Collectable(frags[..k], entries) && NoneIsLast(frags[..k - 1]))
    ensures !Completes(frags[..n], entries)
  {
    if n < k || r == 0 {
      assert frags[..n][n - 1] == (if r == 0 then frags[..k] else frags[..k - 1])[n - 1];
    } else if Collectable(frags[..n], entries) {
      CollectablePrefix(frags, entries, k, n);
    }
  }

  lemma CollectablePrefix(frags: seq<Fragment>, entries: nat, k: nat, n: nat)
    requires k <= n <= |frags| && Collectable(frags[..n], entries)
    ensures Collectable(frags[..k], entries)
  {
    assert frags[..n] == frags[..k] + frags[k..n];
    JoinedSplit(frags[..k], frags[k..n]);
    forall i | 0 <= i < k ensures frags[..k][i] == frags[..n][i] {
    }
  }

  /** Fragment 3 of 3 right behind fragment 1 completes a patch, and the table that is patched with the two is not the
      table that the three were made for. */
  lemma GapIsNotSeen()
    ensures var sent := [Fragment(1, 3, CompNone, [1]), Fragment(2, 3, CompNone, [2]), Fragment(3, 3, CompNone, [3])];
            Completes([sent[0], sent[2]], 24) && Completes(sent, 24)
            && Applied(false, [0, 0, 0], Joined(sent)) != Applied(false, [0, 0, 0], Joined([sent[0], sent[2]]))
  {
    var sent := [Fragment(1, 3, CompNone, [1]), Fragment(2, 3, CompNone, [2]), Fragment(3, 3, CompNone, [3])];
    var got := [sent[0], sent[2]];
    assert sent[1..][1..] == [sent[2]] && sent[2..][1..] == [] && got[1..] == [sent[2]] && [sent[2]][1..] == [];
    assert sent[1..] == [sent[1], sent[2]];
    assert Joined([sent[2]]) == [3] + [] == [3];
    assert Joined(got) == [1] + [3] == [1, 3];
    assert Joined(sent[1..]) == [2] + [3] == [2, 3];
    assert Joined(sent) == [1] + [2, 3] == [1, 2, 3];
    XorNothing();
    assert Applied(false, [0, 0, 0], Joined(sent))[1] == XorByte(0, 2) == 2;
    assert Applied(false, [0, 0, 0], Joined(got))[1] == XorByte(0, 3) == 3;
  }

  lemma XorNothing()
    ensures XorByte(0, 2) == 2 && XorByte(0, 3) == 3
  {
  }

  // ---------------------------------------------------------------------------------------------
  // From one table to the other
  // ---------------------------------------------------------------------------------------------

  /** Applying the difference to the old table, or the negated table to anything, gives the new table. */
  lemma AppliedDelta(org: Option<seq<byte>>, table: seq<byte>, was: seq<byte>)
    requires |was| == |table| && (org.Some? ==> org.value == was)
    ensures Applied(org.None?, was, Delta(org, table)) == table
  {
    if org.Some? {
      assert was[..|was|] == was && table[..|table|] == table;
      XorBytesTwice(was, table);
    }
  }

  /** A bit of the difference is set where the tables differ, and without an old table where the new one has none. */
  lemma DeltaBits(org: Option<seq<byte>>, table: seq<byte>, k: nat, i: nat)
    requires k < |Delta(org, table)| && i < 8
    ensures TestBit(Delta(org, table)[k], i)
            == if org.None? then !TestBit(table[k], i) else TestBit(org.value[k], i) != TestBit(table[k], i)
  {
    if org.None? {
      NegBits(table[k], i);
    } else {
      XorTests(org.value[k], table[k], i);
    }
  }

  /** Where the patch reaches, the bits that it has are flipped, or in a table that was reset they are the ones that are
      not set; behind it nothing changes. */
  lemma AppliedBits(reset: bool, was: seq<byte>, p: seq<byte>, k: nat, i: nat)
    requires |p| <= |was| && k < |was| && i < 8
    ensures TestBit(Applied(reset, was, p)[k], i)
            == if k >= |p| then TestBit(was[k], i)
               else if reset then !TestBit(p[k], i) else TestBit(was[k], i) != TestBit(p[k], i)
  {
    if k < |p| {
      if reset {
        NegBits(p[k], i);
      } else {
        XorTests(was[k], p[k], i);
      }
    }
  }

  lemma NegBits(a: byte, i: nat)
    requires i < 8
    ensures TestBit(NegByte(a), i) != TestBit(a, i)
  {
    NegTests(a, 8, i, 255);
  }

  lemma {:induction false} NegTests(a: nat, n: nat, i: nat, all: nat)
    requires i < n && a <= all == Pow2(n) - 1
    ensures TestBit(all - a, i) != TestBit(a, i)
    decreases n
  {
    var half := Pow2(n - 1) - 1;
    assert all == 2 * half + 1;
    assert (all - a) / 2 == half - a / 2 && (all - a) % 2 != a % 2;
    if i > 0 {
      NegTests(a / 2, n - 1, i - 1, half);
    }
  }

  /** For fragments of any content that were collected: the patched table is the new one just if they are the beginning
      of the difference and the tables do not differ behind them. */
  lemma PatchedIff(org: Option<seq<byte>>, table: seq<byte>, was: seq<byte>, p: seq<byte>)
    requires |was| == |table| && |p| <= |was| && (org.Some? ==> org.value == was)
    ensures Applied(org.None?, was, p) == table <==> p == Delta(org, table)[..|p|] && was[|p|..] == table[|p|..]
  {
    var r, d := Applied(org.None?, was, p), Delta(org, table);
    AppliedDelta(org, table, was);
    if r == table {
      forall i | 0 <= i < |p| ensures p[i] == d[i] {
        ByteDecides(org, table, was, p, i);
      }
      assert was[|p|..] == r[|p|..];
    }
    if p == d[..|p|] && was[|p|..] == table[|p|..] {
      forall i | 0 <= i < |was| ensures r[i] == table[i] {
        if i >= |p| {
          assert r[i] == was[i] == was[|p|..][i - |p|] == table[|p|..][i - |p|];
        } else {
          assert p[i] == d[i] && r[i] == Applied(org.None?, was, d)[i];
        }
      }
    }
  }

  lemma ByteDecides(org: Option<seq<byte>>, table: seq<byte>, was: seq<byte>, p: seq<byte>, i: nat)
    requires |was| == |table| && |p| <= |was| && (org.Some? ==> org.value == was) && i < |p|
    requires Applied(org.None?, was, p)[i] == table[i]
    ensures p[i] == Delta(org, table)[i]
  {
    if org.Some? {
      assert was[..|was|] == was && table[..|table|] == table;
      XorBytesTwice([was[i]], [p[i]]);
      assert XorBytes([was[i]], [p[i]])[0] == table[i];
      assert XorBytes([was[i]], XorBytes([was[i]], [p[i]]))[0] == p[i];
    }
  }

  lemma {:induction false} FullFragments(frags: seq<Fragment>, i: nat)
    requires i < |frags| && forall k :: 0 <= k < i ==> |frags[k].data| == FRAG_ROOM
    ensures |Joined(frags[..i])| == i * FRAG_ROOM
  {
    if i > 0 {
      FullFragments(frags, i - 1);
      JoinedNext(frags, i - 1);
    }
  }

  /** The fragments of the largest legal table can be numbered in one byte. */
  lemma FragmentsFitByte(frags: seq<Fragment>, d: seq<byte>)
    requires WellCut(frags, d) && |d| <= 512 * 1024
    ensures |frags| <= 255
  {
    FullFragments(frags, |frags| - 1);
    JoinedNext(frags, |frags| - 1);
    assert frags[..|frags| - 1 + 1] == frags;
  }

  /** Giving the fragments in order to a table that has collected none: each is taken, and only the last is
      reported as such. */
  method Collect(target: QhTable, frags: seq<Fragment>, ghost d: seq<byte>)
    requires target.Valid() && target.fragments == [] && WellCut(frags, d) && |d| <= DivRoundUp(target.entries, 8)
    modifies target`fragments
    ensures target.Valid() && target.fragments == frags
  {
    var i := 0;
    while i < |frags|
      invariant 0 <= i <= |frags| && target.Valid() && target.fragments == frags[..i]
    {
      JoinedNext(frags, i);
      var r := target.AddFrag(frags[i]);
      assert r == if i == |frags| - 1 then 1 else 0;
      assert frags[..i + 1] == frags[..i] + [frags[i]];
      i := i + 1;
    }
    assert frags[..i] == frags;
  }

  /** A table sent as its difference to the receiver's, or whole to a receiver that was reset, is what the
      receiver has afterwards, if and only if the patch sticks or changes nothing. */
  method Transfer(org: Option<seq<byte>>, table: seq<byte>, target: QhTable, compressInternal: bool, smaller: bool)
    requires target.Valid() && target.fragments == [] && |table| == target.data.Length
    requires if org.Some? then org.value == target.data[..] && !target.resetNeeded else target.resetNeeded
    modifies target, target.data, target.scratch
    ensures target.Valid() && target.fragments == [] && !target.resetNeeded
    ensures target.data[..] == if old(target.Sticks(compressInternal)) then table else old(target.data[..])
  {
    var frags := DiffFragments(org, table);
    ghost var d := Delta(org, table);
    AppliedDelta(org, table, if org.Some? then target.data[..] else target.scratch[..]);
    Collect(target, frags, d);
    target.Patch(compressInternal, smaller);
    target.fragments := [];
  }

  /** Without internal compression a table that has been reset never gets its content. */
  method ResetPatchIsLost() returns (t: QhTable, table: seq<byte>)
    ensures t.data[..] != table && !t.resetNeeded
  {
    t := new QhTable(8);
    assert t.data.Length == 1;
    table := if t.data[0] == 0 then [1] else [0];
    ghost var was := t.data[..];
    Transfer(None, table, t, false, false);
    assert t.data[..] == was;
  }
}
