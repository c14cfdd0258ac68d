/** The fixed-size caches of G2KHL.c and G2QueryKey.c: entries ordered by age in a tree, found by address
    in a hash table, and recycled through a free list. */
module AgedCache {
  import opened Options
  import opened Seqs
  import Sets

  /** An address; addresses are numbered in the order of combo_addr_cmp. */
  type Addr = int

  datatype Slot<V> = Slot(addr: Addr, when: int, value: V)

  /** khl_entry_cmp, qk_entry_cmp. */
  predicate Older<V>(a: Slot<V>, b: Slot<V>) {
    a.when < b.when || (a.when == b.when && a.addr < b.addr)
  }

  /** The tree in order, newest first; it holds numbers of entries. */
  ghost predicate Sorted<V>(entries: seq<Slot<V>>, tree: seq<nat>) {
    (forall i :: 0 <= i < |tree| ==> tree[i] < |entries|)
    && forall i, j :: 0 <= i < j < |tree| ==> Older(entries[tree[j]], entries[tree[i]])
  }

  /** Every entry but `out` is in the tree or, and then just once, in the free list. */
  ghost predicate Parted(size: nat, tree: seq<nat>, free: seq<nat>, out: set<nat>) {
    NoRepeats(free)
    && (forall x :: x in free ==> x < size && x !in tree && x !in out)
    && (forall x :: x in out ==> x < size && x !in tree)
    && forall x: nat :: x < size ==> x in tree || x in free || x in out
  }

  /** Every bucket holds just the tree's entries with its hash, once each. */
  ghost predicate Hashed<V>(entries: seq<Slot<V>>, tree: seq<nat>, ht: seq<seq<nat>>, hash: Addr -> nat) {
    |ht| > 0 && forall b :: 0 <= b < |ht| ==> Bucket(entries, tree, ht[b], hash, |ht|, b)
  }

  ghost predicate Bucket<V>(entries: seq<Slot<V>>, tree: seq<nat>, bucket: seq<nat>, hash: Addr -> nat, n: nat, b: nat)
    requires n > 0
  {
    NoRepeats(bucket)
    && (forall x :: x in bucket ==> x < |entries| && x in tree && hash(entries[x].addr) % n == b)
    && forall x :: x in tree && x < |entries| && hash(entries[x].addr) % n == b ==> x in bucket
  }

  ghost predicate OneEach<V>(entries: seq<Slot<V>>, tree: seq<nat>) {
    forall x, y :: x in tree && y in tree && x < |entries| && y < |entries| && entries[x].addr == entries[y].addr ==>
      x == y
  }

  // ---------------------------------------------------------------------------------------------
  // Sequences with one element more or less
  // ---------------------------------------------------------------------------------------------

  function Without(s: seq<nat>, p: nat): (r: seq<nat>)
    requires p < |s|
  {
    s[..p] + s[p + 1..]
  }

  function With(s: seq<nat>, p: nat, x: nat): (r: seq<nat>)
    requires p <= |s|
  {
    s[..p] + [x] + s[p..]
  }

  lemma WithoutMembers(s: seq<nat>, p: nat)
    requires p < |s| && NoRepeats(s)
    ensures NoRepeats(Without(s, p))
    ensures forall y :: y in Without(s, p) <==> y in s && y != s[p]
  {
    var r := Without(s, p);
    forall y | y in s && y != s[p] ensures y in r {
      var i :| 0 <= i < |s| && s[i] == y;
      assert i < p ==> r[i] == y;
      assert i > p ==> r[i - 1] == y;
    }
  }

  lemma WithMembers(s: seq<nat>, p: nat, x: nat)
    requires p <= |s|
    ensures forall y :: y in With(s, p, x) <==> y in s || y == x
  {
    var r := With(s, p, x);
    assert r[p] == x;
    forall y | y in s ensures y in r {
      var i :| 0 <= i < |s| && s[i] == y;
      assert i < p ==> r[i] == y;
      assert i >= p ==> r[i + 1] == y;
    }
  }

  lemma PartedAlloc(size: nat, tree: seq<nat>, free: seq<nat>)
    requires Parted(size, tree, free, {}) && free != []
    ensures Parted(size, tree, free[1..], {free[0]}) && free[0] !in tree
  {
    var x, rest := free[0], free[1..];
    assert x in free && free == [x] + rest;
    forall y | y in rest ensures y < size && y !in tree && y != x {
      var k :| 0 <= k < |rest| && rest[k] == y;
      assert free[k + 1] == y && y in free;
    }
  }

  lemma SortedDistinct<V>(entries: seq<Slot<V>>, tree: seq<nat>)
    requires Sorted(entries, tree)
    ensures NoRepeats(tree)
  {
    forall i, j | 0 <= i < j < |tree| ensures tree[i] != tree[j] {
      assert Older(entries[tree[j]], entries[tree[i]]);
    }
  }

  lemma SortedWith<V>(entries: seq<Slot<V>>, tree: seq<nat>, p: nat, x: nat)
    requires Sorted(entries, tree) && p <= |tree| && x < |entries|
    requires forall i :: 0 <= i < p ==> Older(entries[x], entries[tree[i]])
    requires forall i :: p <= i < |tree| ==> Older(entries[tree[i]], entries[x])
    ensures Sorted(entries, With(tree, p, x))
  {
  }

  /** An entry outside the tree may change without the tree noticing. */
  lemma SortedElsewhere<V>(entries: seq<Slot<V>>, tree: seq<nat>, x: nat, e: Slot<V>)
    requires Sorted(entries, tree) && x < |entries| && x !in tree
    ensures Sorted(entries[x := e], tree)
  {
  }

  lemma HashedElsewhere<V>(entries: seq<Slot<V>>, tree: seq<nat>, ht: seq<seq<nat>>, hash: Addr -> nat, x: nat,
                           e: Slot<V>)
    requires Hashed(entries, tree, ht, hash) && x < |entries| && x !in tree
    ensures Hashed(entries[x := e], tree, ht, hash)
  {
    forall b | 0 <= b < |ht| ensures Bucket(entries[x := e], tree, ht[b], hash, |ht|, b) {
      assert Bucket(entries, tree, ht[b], hash, |ht|, b);
    }
  }

  lemma HashedWithout<V>(entries: seq<Slot<V>>, tree: seq<nat>, ht: seq<seq<nat>>, hash: Addr -> nat, p: nat, b: nat,
                         q: nat)
    requires Hashed(entries, tree, ht, hash) && Sorted(entries, tree) && p < |tree|
    requires b == hash(entries[tree[p]].addr) % |ht| && q < |ht[b]| && ht[b][q] == tree[p]
    ensures Hashed(entries, Without(tree, p), ht[b := Without(ht[b], q)], hash)
  {
    SortedDistinct(entries, tree);
    WithoutMembers(tree, p);
    assert Bucket(entries, tree, ht[b], hash, |ht|, b);
    WithoutMembers(ht[b], q);
    var ht' := ht[b := Without(ht[b], q)];
    forall c | 0 <= c < |ht'| ensures Bucket(entries, Without(tree, p), ht'[c], hash, |ht'|, c) {
      assert Bucket(entries, tree, ht[c], hash, |ht|, c);
    }
  }

  lemma HashedWith<V>(entries: seq<Slot<V>>, tree: seq<nat>, ht: seq<seq<nat>>, hash: Addr -> nat, p: nat, x: nat,
                      b: nat)
    requires Hashed(entries, tree, ht, hash) && p <= |tree| && x < |entries| && x !in tree
    requires b == hash(entries[x].addr) % |ht|
    ensures Hashed(entries, With(tree, p, x), ht[b := [x] + ht[b]], hash)
  {
    WithMembers(tree, p, x);
    var ht' := ht[b := [x] + ht[b]];
    forall c | 0 <= c < |ht'| ensures Bucket(entries, With(tree, p, x), ht'[c], hash, |ht'|, c) {
      assert Bucket(entries, tree, ht[c], hash, |ht|, c);
    }
  }

  // ---------------------------------------------------------------------------------------------
  // The cache
  // ---------------------------------------------------------------------------------------------

  /** The unbounded map the cache stands for: for each address the newest report. */
  function Newest<V>(m: map<Addr, Slot<V>>, e: Slot<V>): (r: map<Addr, Slot<V>>) {
    if e.addr in m && m[e.addr].when >= e.when then m else m[e.addr := e]
  }

  ghost predicate Kept<V>(entries: seq<Slot<V>>, tree: seq<nat>, a: Addr) {
    exists x :: x in tree && x < |entries| && entries[x].addr == a
  }

  /** The tree's entries are the newest reports, and any address that is missing was last reported no
      later than any that is there, and is missing only because the cache is full. */
  ghost predicate Top<V>(entries: seq<Slot<V>>, tree: seq<nat>, full: bool, newest: map<Addr, Slot<V>>) {
    (forall x :: x in tree && x < |entries| ==> entries[x].addr in newest && newest[entries[x].addr] == entries[x])
    && forall a :: a in newest && !Kept(entries, tree, a) ==> full && BelowAll(entries, tree, newest[a].when)
  }

  ghost predicate BelowAll<V>(entries: seq<Slot<V>>, tree: seq<nat>, when: int) {
    forall x :: x in tree && x < |entries| ==> when <= entries[x].when
  }

  /** The members of a tree after entry x has been put in its place. */
  ghost predicate Joined(tree: seq<nat>, rest: seq<nat>, x: nat) {
    forall y :: y in tree <==> y in rest || y == x
  }

  /** A newer report for an address that is there. */
  lemma TopRenewed<V>(entries: seq<Slot<V>>, tree: seq<nat>, full: bool, newest: map<Addr, Slot<V>>, x: nat, e: Slot<V>,
                      tree': seq<nat>)
    requires Top(entries, tree, full, newest) && OneEach(entries, tree)
    requires x < |entries| && x in tree && entries[x].addr == e.addr && entries[x].when < e.when
             && Joined(tree', tree, x)
    ensures Top(entries[x := e], tree', full, Newest(newest, e))
  {
    var entries', newest' := entries[x := e], Newest(newest, e);
    forall a | a in newest' && !Kept(entries', tree', a)
      ensures full && BelowAll(entries', tree', newest'[a].when)
    {
    }
  }

  /** A report that finds no room: nothing in a full cache is older. */
  lemma TopRefused<V>(entries: seq<Slot<V>>, tree: seq<nat>, newest: map<Addr, Slot<V>>, e: Slot<V>)
    requires Top(entries, tree, true, newest) && !Kept(entries, tree, e.addr) && BelowAll(entries, tree, e.when)
    ensures Top(entries, tree, true, Newest(newest, e))
  {
  }

  /** A report for a new address, in a free entry or in place of the oldest. */
  lemma TopTaken<V>(entries: seq<Slot<V>>, tree: seq<nat>, full: bool, newest: map<Addr, Slot<V>>, x: nat, e: Slot<V>,
                    tree': seq<nat>, full': bool)
    requires Top(entries, tree, full, newest) && !Kept(entries, tree, e.addr) && x < |entries|
    requires x in tree ==> full && full' && entries[x].when < e.when && BelowAll(entries, tree, entries[x].when)
                           && OneEach(entries, tree)
    requires x !in tree ==> !full
    requires Joined(tree', tree, x)
    ensures Top(entries[x := e], tree', full', Newest(newest, e))
  {
    var entries', newest' := entries[x := e], Newest(newest, e);
    assert newest' == newest[e.addr := e];
    assert x in tree' && entries'[x].addr == e.addr;
    forall a | a in newest' && !Kept(entries', tree', a)
      ensures full' && BelowAll(entries', tree', newest'[a].when)
    {
      if Kept(entries, tree, a) {
        var y :| y in tree && y < |entries| && entries[y].addr == a;
        assert y in tree' && y == x;
      }
    }
    forall y | y in tree' && y < |entries'|
      ensures entries'[y].addr in newest' && newest'[entries'[y].addr] == entries'[y]
    {
      if y != x {
        assert Kept(entries, tree, entries[y].addr);
      }
    }
  }

  // ---------------------------------------------------------------------------------------------
  // What is kept
  // ---------------------------------------------------------------------------------------------

  /** The entries in the tree. */
  ghost function SlotsOf<V>(entries: seq<Slot<V>>, tree: seq<nat>): (r: set<Slot<V>>) {
    set x | x in tree && x < |entries| :: entries[x]
  }

  /** The one that khl_cache_last finds. */
  ghost predicate IsLast<V>(k: Slot<V>, kept: set<Slot<V>>) {
    k in kept && forall o :: o in kept && o != k ==> Older(k, o)
  }

  /** What is kept after a further report. A newer one for an address that is there takes the place of the older one;
      one for a new address takes a free place; in a full cache it takes the place of the last one, if that is strictly
      older; any other report changes nothing. */
  ghost function KeptAfter<V>(kept: set<Slot<V>>, size: nat, e: Slot<V>): (r: set<Slot<V>>) {
    if k :| k in kept && k.addr == e.addr then (if k.when < e.when then kept - {k} + {e} else kept)
    else if |kept| < size then kept + {e}
    else if last :| last in kept && IsLast(last, kept) then (if last.when < e.when then kept - {last} + {e} else kept)
    else kept
  }

  /** Only a strictly newer report drives anything out, and what it drives out has its address or is the oldest of a
      full cache, of equally old ones that with the lowest address. */
  lemma TiesStay<V>(kept: set<Slot<V>>, size: nat, e: Slot<V>, k: Slot<V>)
    requires k in kept && k !in KeptAfter(kept, size, e)
    ensures k.when < e.when && e in KeptAfter(kept, size, e)
    ensures k.addr == e.addr || (IsLast(k, kept) && |kept| >= size)
    ensures k.addr == e.addr ||
            forall o :: o in kept ==> k.when < o.when || (k.when == o.when && k.addr <= o.addr)
  {
  }

  /** The entry x gets new content and its place in the tree. */
  lemma SlotsPlaced<V>(entries: seq<Slot<V>>, tree: seq<nat>, x: nat, e: Slot<V>, tree': seq<nat>)
    requires Sorted(entries, tree) && OneEach(entries, tree) && x < |entries| && Joined(tree', tree, x)
    ensures SlotsOf(entries[x := e], tree') == SlotsOf(entries, tree) - (if x in tree then {entries[x]} else {}) + {e}
  {
    var was, now := SlotsOf(entries, tree), SlotsOf(entries[x := e], tree');
    forall k | k in was - (if x in tree then {entries[x]} else {}) + {e} ensures k in now {
      if k == e {
        assert x in tree' && entries[x := e][x] == e;
      } else {
        var y :| y in tree && y < |entries| && entries[y] == k;
        assert y != x && entries[x := e][y] == k;
      }
    }
    forall k | k in now ensures k in was - (if x in tree then {entries[x]} else {}) + {e} {
      var y :| y in tree' && y < |entries| && entries[x := e][y] == k;
      if y != x {
        assert y in tree && entries[y] == k;
      }
    }
  }

  lemma {:induction false} SlotsCount<V>(entries: seq<Slot<V>>, tree: seq<nat>)
    requires Sorted(entries, tree)
    ensures |SlotsOf(entries, tree)| == |tree|
  {
    if tree != [] {
      var n := |tree| - 1;
      SlotsCount(entries, tree[..n]);
      var rest, k := SlotsOf(entries, tree[..n]), entries[tree[n]];
      assert k !in rest;
      assert SlotsOf(entries, tree) == rest + {k} by {
        assert tree == tree[..n] + [tree[n]];
      }
    }
  }

  lemma LastOfTree<V>(entries: seq<Slot<V>>, tree: seq<nat>)
    requires Sorted(entries, tree) && tree != []
    ensures IsLast(entries[tree[|tree| - 1]], SlotsOf(entries, tree))
  {
    var kept, n := SlotsOf(entries, tree), |tree| - 1;
    assert tree[n] in tree;
    forall o | o in kept && o != entries[tree[n]] ensures Older(entries[tree[n]], o) {
      var y :| y in tree && y < |entries| && entries[y] == o;
      var i :| 0 <= i < |tree| && tree[i] == y;
    }
  }

  lemma RenewedKept<V>(entries: seq<Slot<V>>, tree: seq<nat>, x: nat, e: Slot<V>, size: nat)
    requires Sorted(entries, tree) && OneEach(entries, tree) && x in tree && x < |entries| && entries[x].addr == e.addr
    ensures var kept := SlotsOf(entries, tree);
            KeptAfter(kept, size, e) == if entries[x].when < e.when then kept - {entries[x]} + {e} else kept
  {
    var kept := SlotsOf(entries, tree);
    assert entries[x] in kept;
    forall k | k in kept && k.addr == e.addr ensures k == entries[x] {
      var y :| y in tree && y < |entries| && entries[y] == k;
    }
  }

  lemma EnteredKept<V>(entries: seq<Slot<V>>, tree: seq<nat>, e: Slot<V>, size: nat)
    requires Sorted(entries, tree) && !Kept(entries, tree, e.addr)
    ensures var kept := SlotsOf(entries, tree);
            KeptAfter(kept, size, e)
            == if |tree| < size then kept + {e}
               else if |tree| > 0 && entries[tree[|tree| - 1]].when < e.when
               then kept - {entries[tree[|tree| - 1]]} + {e}
               else kept
  {
    var kept := SlotsOf(entries, tree);
    SlotsCount(entries, tree);
    forall k | k in kept ensures k.addr != e.addr {
      var y :| y in tree && y < |entries| && entries[y] == k;
    }
    if |tree| > 0 {
      LastOfTree(entries, tree);
      var last := entries[tree[|tree| - 1]];
      assert forall k :: k in kept && IsLast(k, kept) ==> k == last;
    }
  }

  class Cache<V(0)> {
    const size: nat
    const hash: Addr -> nat
    const isPublic: Addr -> bool
    var entries: seq<Slot<V>>
    var tree: seq<nat>
    var ht: seq<seq<nat>>
    var free: seq<nat>
    var num: nat
    /** Everything ever reported. */
    ghost var newest: map<Addr, Slot<V>>

    constructor (size: nat, buckets: nat, hash: Addr -> nat, isPublic: Addr -> bool, blank: V)
      requires buckets > 0
      ensures Valid() && newest == map[] && this.size == size && this.isPublic == isPublic
    {
      this.size, this.hash, this.isPublic := size, hash, isPublic;
      entries := seq(size, _ => Slot(0, 0, blank));
      tree, ht, num, newest := [], seq(buckets, _ => []), 0, map[];
      free := seq(size, i requires 0 <= i < size => (size - 1 - i) as nat);
      new;
      forall x: nat | x < size ensures x in free {
        assert free[size - 1 - x] == x;
      }
    }

    /** The tree, the hash table and the free list agree, the entries `out` being in none of them. */
    ghost predicate Consistent(out: set<nat>)
      reads this
    {
      |entries| == size && Sorted(entries, tree) && OneEach(entries, tree) && Parted(size, tree, free, out)
      && Hashed(entries, tree, ht, hash)
    }

    ghost predicate Valid()
      reads this
    {
      Consistent({}) && num == |tree| && Top(entries, tree, free == [], newest)
    }

    /** cache_ht_lookup. */
    method HtLookup(addr: Addr) returns (found: bool, x: nat)
      requires Consistent({})
      ensures found ==> x in tree && x < size && entries[x].addr == addr
      ensures !found ==> forall y :: y in tree ==> y < size && entries[y].addr != addr
    {
      var b := hash(addr) % |ht|;
      var bucket := ht[b];
      assert Bucket(entries, tree, bucket, hash, |ht|, b);
      for i := 0 to |bucket|
        invariant forall j :: 0 <= j < i ==> bucket[j] in bucket && entries[bucket[j]].addr != addr
      {
        var x := bucket[i];
        assert x in bucket;
        if entries[x].addr == addr {
          return true, x;
        }
      }
      return false, 0;
    }

    static method IndexOf(s: seq<nat>, x: nat) returns (p: nat)
      requires x in s
      ensures p < |s| && s[p] == x
    {
      p := 0;
      while s[p] != x
        invariant p < |s| && x in s[p..]
        decreases |s| - p
      {
        p := p + 1;
      }
    }

    /** khl_rb_cache_remove: out of the tree and out of the hash table. */
    method TreeRemove(x: nat)
      requires Consistent({}) && x in tree
      modifies this`tree, this`ht
      ensures Consistent({x}) && x < size
      ensures forall y :: y in tree <==> y in old(tree) && y != x
      ensures |tree| == |old(tree)| - 1
    {
      SortedDistinct(entries, tree);
      var p := IndexOf(tree, x);
      var b := hash(entries[x].addr) % |ht|;
      assert Bucket(entries, tree, ht[b], hash, |ht|, b);
      var q := IndexOf(ht[b], x);
      WithoutMembers(tree, p);
      HashedWithout(entries, tree, ht, hash, p, b, q);
      tree, ht := Without(tree, p), ht[b := Without(ht[b], q)];
    }

    /** khl_rb_cache_insert; equal keys cannot occur, as each address has one entry. */
    method TreeInsert(x: nat)
      requires Consistent({x}) && forall y :: y in tree ==> y < size && entries[y].addr != entries[x].addr
      modifies this`tree, this`ht
      ensures Consistent({})
      ensures forall y :: y in tree <==> y in old(tree) || y == x
      ensures |tree| == |old(tree)| + 1
    {
      var p := 0;
      while p < |tree| && !Older(entries[tree[p]], entries[x])
        invariant 0 <= p <= |tree|
        invariant forall i :: 0 <= i < p ==> Older(entries[x], entries[tree[i]])
      {
        assert tree[p] in tree;
        p := p + 1;
      }
      BehindIsOlder(p, x);
      var b := hash(entries[x].addr) % |ht|;
      SortedWith(entries, tree, p, x);
      HashedWith(entries, tree, ht, hash, p, x, b);
      WithMembers(tree, p, x);
      tree, ht := With(tree, p, x), ht[b := [x] + ht[b]];
    }

    lemma BehindIsOlder(p: nat, x: nat)
      requires |entries| == size && Sorted(entries, tree) && p <= |tree| && x < size
      requires p < |tree| ==> Older(entries[tree[p]], entries[x])
      ensures forall i :: p <= i < |tree| ==> Older(entries[tree[i]], entries[x])
    {
    }

    /** The entry's new content, and its place in tree and table. */
    method Place(x: nat, e: Slot<V>)
      requires Consistent({x}) && !Kept(entries, tree, e.addr)
      modifies this`entries, this`tree, this`ht
      ensures Consistent({}) && entries == old(entries)[x := e] && Joined(tree, old(tree), x)
      ensures |tree| == |old(tree)| + 1
    {
      SortedElsewhere(entries, tree, x, e);
      HashedElsewhere(entries, tree, ht, hash, x, e);
      entries := entries[x := e];
      forall y | y in tree ensures y < size && old(entries)[y].addr != e.addr {
      }
      TreeInsert(x);
    }

    /** khl_cache_entry_alloc, the free list not being empty. */
    method Alloc() returns (x: nat)
      requires Consistent({}) && free != []
      modifies this`free, this`num
      ensures Consistent({x}) && num == old(num) + 1 && x !in tree
    {
      x := free[0];
      PartedAlloc(size, tree, free);
      free, num := free[1..], num + 1;
    }

    /** What the cache keeps. */
    ghost function Slots(): (r: set<Slot<V>>)
      reads this
    {
      SlotsOf(entries, tree)
    }

    /** g2_khl_add, g2_qk_add: the cache stays the newest part of everything reported so far, and of equally new reports
        keeps what was there. */
    method Add(addr: Addr, when: int, value: V)
      requires Valid()
      modifies this
      ensures Valid()
      ensures Slots() == if isPublic(addr) then KeptAfter(old(Slots()), size, Slot(addr, when, value)) else old(Slots())
      ensures newest == if isPublic(addr) then Newest(old(newest), Slot(addr, when, value)) else old(newest)
    {
      if !isPublic(addr) {
        return;
      }
      var e := Slot(addr, when, value);
      var found, x := HtLookup(addr);
      if found {
        Renew(x, e);
      } else {
        Enter(e);
      }
    }

    method Renew(x: nat, e: Slot<V>)
      requires Valid() && x in tree && x < size && entries[x].addr == e.addr
      modifies this
      ensures Valid() && newest == Newest(old(newest), e) && Slots() == KeptAfter(old(Slots()), size, e)
    {
      RenewedKept(entries, tree, x, e, size);
      if entries[x].when >= e.when {
        return;
      }
      ghost var was := tree;
      TreeRemove(x);
      Place(x, e);
      TopRenewed(old(entries), was, free == [], newest, x, e, tree);
      SlotsPlaced(old(entries), was, x, e, tree);
      newest := Newest(newest, e);
    }

    method Enter(e: Slot<V>)
      requires Valid() && !Kept(entries, tree, e.addr)
      modifies this
      ensures Valid() && newest == Newest(old(newest), e) && Slots() == KeptAfter(old(Slots()), size, e)
    {
      EnteredKept(entries, tree, e, size);
      SortedDistinct(entries, tree);
      PartedCount(size, tree, free);
      if |tree| > 0 && entries[tree[|tree| - 1]].when < e.when && free == [] {
        Replace(e);
      } else if free == [] {
        if |tree| > 0 {
          LastIsOldest();
        }
        TopRefused(entries, tree, newest, e);
        newest := Newest(newest, e);
      } else {
        Take(e);
      }
    }

    /** The report takes the place of the last entry. */
    method Replace(e: Slot<V>)
      requires Valid() && !Kept(entries, tree, e.addr) && free == [] && |tree| > 0 && tree[|tree| - 1] < size
      requires entries[tree[|tree| - 1]].when < e.when
      modifies this
      ensures Valid() && newest == Newest(old(newest), e)
      ensures Slots() == old(Slots() - {entries[tree[|tree| - 1]]}) + {e}
    {
      ghost var was := tree;
      var x := tree[|tree| - 1];
      LastIsOldest();
      TreeRemove(x);
      Place(x, e);
      TopTaken(old(entries), was, true, newest, x, e, tree, free == []);
      SlotsPlaced(old(entries), was, x, e, tree);
      newest := Newest(newest, e);
    }

    /** The report takes a free entry. */
    method Take(e: Slot<V>)
      requires Valid() && !Kept(entries, tree, e.addr) && free != []
      modifies this
      ensures Valid() && newest == Newest(old(newest), e) && Slots() == old(Slots()) + {e}
    {
      ghost var was := tree;
      var x := Alloc();
      Place(x, e);
      TopTaken(old(entries), was, false, newest, x, e, tree, free == []);
      SlotsPlaced(old(entries), was, x, e, tree);
      newest := Newest(newest, e);
    }

    lemma NothingKept()
      requires Valid() && newest == map[]
      ensures Slots() == {}
    {
    }

    lemma LastIsOldest()
      requires |entries| == size && Sorted(entries, tree) && |tree| > 0
      ensures BelowAll(entries, tree, entries[tree[|tree| - 1]].when)
    {
      var last := tree[|tree| - 1];
      forall x | x in tree ensures entries[last].when <= entries[x].when {
        var i :| 0 <= i < |tree| && tree[i] == x;
      }
    }

    /** The tree holds min(size, number of addresses) entries; with Top this makes it the newest `size`
        addresses of everything reported. */
    lemma CountsTop()
      requires Valid()
      ensures num == |tree| && num + |free| == size
      ensures num == if |newest| < size then |newest| else size
    {
      SortedDistinct(entries, tree);
      PartedCount(size, tree, free);
      var addrs := Addrs(entries, tree);
      AddrsDistinct(entries, tree, addrs);
      DistinctCard(addrs);
      assert Members(addrs) <= newest.Keys by {
        forall a | a in addrs ensures a in newest.Keys {
          var i :| 0 <= i < |addrs| && addrs[i] == a;
          assert tree[i] in tree;
        }
      }
      Sets.SubsetCard(Members(addrs), newest.Keys);
      if free != [] {
        forall a | a in newest.Keys ensures a in addrs {
          assert Kept(entries, tree, a);
          var x :| x in tree && x < |entries| && entries[x].addr == a;
          var i :| 0 <= i < |tree| && tree[i] == x;
          assert addrs[i] == a;
        }
        assert Members(addrs) == newest.Keys;
      }
    }

    /** g2_qk_lookup: there is an answer just if the cache has the address, and it is the newest report for it; no
        answer means there is none, or the cache is full of addresses reported no earlier. */
    method Lookup(addr: Addr) returns (r: Option<V>)
      requires Valid()
      ensures r.Some? <==> isPublic(addr) && Kept(entries, tree, addr)
      ensures r.Some? ==> isPublic(addr) && addr in newest && r.value == newest[addr].value
      ensures r.None? && isPublic(addr) && addr in newest ==>
                num == size && forall x :: x in tree ==> x < size && newest[addr].when <= entries[x].when
    {
      if !isPublic(addr) {
        return None;
      }
      var found, x := HtLookup(addr);
      if found {
        return Some(entries[x].value);
      }
      CountsTop();
      return None;
    }

    /** g2_khl_fill_p, g2_khl_fill_s: the wanted entries, newest first, then once more from the start, until
        there are len of them. */
    method Fill(want: Slot<V> -> bool, len: nat) returns (p: seq<Slot<V>>)
      requires Valid()
      ensures var wanted := Selected(entries, tree, want);
              p == Twice(wanted, len)
    {
      p := FillFrom(entries, tree, want, len);
    }

    static method FillFrom(entries: seq<Slot<V>>, tree: seq<nat>, want: Slot<V> -> bool, len: nat)
        returns (p: seq<Slot<V>>)
      requires forall i :: 0 <= i < |tree| ==> tree[i] < |entries|
      ensures p == Twice(Selected(entries, tree, want), len)
    {
      ghost var wanted := Selected(entries, tree, want);
      p := [];
      var n, wrapped := 0, false;
      while |p| < len
        invariant 0 <= n <= |tree| && |p| <= len
        invariant p == (if wrapped then wanted else []) + Selected(entries, tree[..n], want)
        decreases !wrapped, |tree| - n
      {
        if n == |tree| {
          assert tree[..n] == tree;
          if wrapped || |tree| == 0 {
            return;
          }
          n, wrapped := 0, true;
        }
        var e := entries[tree[n]];
        SelectedNext(entries, tree, n, want);
        if want(e) {
          p := p + [e];
        }
        n := n + 1;
      }
      SelectedPrefix(entries, tree, n, want);
      TwicePrefix(wanted, Selected(entries, tree[..n], want), wrapped, p);
    }

    /** Any run of reports: the cache ends up with the newest part of them, and among equally new ones with what its
        rule for one report at a time leaves. */
    method AddAll(reports: seq<Slot<V>>)
      requires Valid() && newest == map[]
      modifies this
      ensures Valid() && newest == History(reports, isPublic) && Slots() == KeptFrom(reports, size, isPublic)
    {
      NothingKept();
      for i := 0 to |reports|
        invariant Valid() && newest == History(reports[..i], isPublic)
                  && Slots() == KeptFrom(reports[..i], size, isPublic)
      {
        assert reports[..i + 1][..i] == reports[..i];
        Add(reports[i].addr, reports[i].when, reports[i].value);
      }
      assert reports[..|reports|] == reports;
    }
  }

  /** What a run of reports leaves in a cache that was empty. */
  ghost function KeptFrom<V>(reports: seq<Slot<V>>, size: nat, isPublic: Addr -> bool): (kept: set<Slot<V>>) {
    if reports == [] then {}
    else
      var n := |reports| - 1;
      var kept := KeptFrom(reports[..n], size, isPublic);
      if isPublic(reports[n].addr) then KeptAfter(kept, size, reports[n]) else kept
  }

  function Twice<T>(s: seq<T>, len: nat): (r: seq<T>) {
    if len <= 2 * |s| then (s + s)[..len] else s + s
  }

  lemma TwicePrefix<T>(s: seq<T>, part: seq<T>, wrapped: bool, p: seq<T>)
    requires part <= s && p == (if wrapped then s else []) + part
    ensures p == Twice(s, |p|)
  {
  }

  function Selected<V>(entries: seq<Slot<V>>, tree: seq<nat>, want: Slot<V> -> bool): (r: seq<Slot<V>>)
    requires forall i :: 0 <= i < |tree| ==> tree[i] < |entries|
  {
    if tree == [] then []
    else
      var n := |tree| - 1;
      Selected(entries, tree[..n], want) + (if want(entries[tree[n]]) then [entries[tree[n]]] else [])
  }

  lemma SelectedNext<V>(entries: seq<Slot<V>>, tree: seq<nat>, n: nat, want: Slot<V> -> bool)
    requires n < |tree| && forall i :: 0 <= i < |tree| ==> tree[i] < |entries|
    ensures Selected(entries, tree[..n + 1], want)
            == Selected(entries, tree[..n], want) + (if want(entries[tree[n]]) then [entries[tree[n]]] else [])
  {
    assert tree[..n + 1][..n] == tree[..n];
  }

  lemma {:induction false} SelectedPrefix<V>(entries: seq<Slot<V>>, tree: seq<nat>, n: nat, want: Slot<V> -> bool)
    requires n <= |tree| && forall i :: 0 <= i < |tree| ==> tree[i] < |entries|
    ensures Selected(entries, tree[..n], want) <= Selected(entries, tree, want)
    decreases |tree| - n
  {
    if n == |tree| {
      assert tree[..n] == tree;
    } else {
      SelectedNext(entries, tree, n, want);
      SelectedPrefix(entries, tree, n + 1, want);
    }
  }

  /** What a run of reports amounts to. */
  ghost function History<V>(reports: seq<Slot<V>>, isPublic: Addr -> bool): (m: map<Addr, Slot<V>>) {
    if reports == [] then map[]
    else
      var n := |reports| - 1;
      var m := History(reports[..n], isPublic);
      if isPublic(reports[n].addr) then Newest(m, reports[n]) else m
  }

  /** Report i is the newest one for its address, and the first of those equally new. */
  ghost predicate IsNewest<V>(reports: seq<Slot<V>>, i: nat)
    requires i < |reports|
  {
    forall j :: 0 <= j < |reports| && reports[j].addr == reports[i].addr ==>
      reports[j].when <= reports[i].when && (j < i ==> reports[j].when < reports[i].when)
  }

  /** The map holds, for exactly the public addresses reported, the newest report and the first of those
      equally new. */
  lemma {:induction false} HistoryIsNewest<V>(reports: seq<Slot<V>>, isPublic: Addr -> bool, a: Addr)
    ensures a in History(reports, isPublic) <==> isPublic(a) && exists i :: 0 <= i < |reports| && reports[i].addr == a
    ensures a in History(reports, isPublic) ==>
              exists i :: 0 <= i < |reports| && reports[i] == History(reports, isPublic)[a] && reports[i].addr == a
                          && IsNewest(reports, i)
  {
    if reports != [] {
      var n := |reports| - 1;
      var before := reports[..n];
      HistoryIsNewest(before, isPublic, a);
      if a in History(before, isPublic) {
        var i :| 0 <= i < n && before[i] == History(before, isPublic)[a] && before[i].addr == a && IsNewest(before, i);
        assert reports[i] == before[i];
        forall j | 0 <= j < n && reports[j].addr == a
          ensures reports[j].when <= reports[i].when && (j < i ==> reports[j].when < reports[i].when)
        {
          assert before[j] == reports[j];
        }
        if reports[n].addr == a && reports[i].when < reports[n].when {
          assert IsNewest(reports, n);
        } else {
          assert IsNewest(reports, i);
        }
      } else if isPublic(a) {
        forall j | 0 <= j < n ensures reports[j].addr != a {
          assert before[j] == reports[j];
        }
      }
    }
  }

  function Members<T>(s: seq<T>): (r: set<T>) {
    set x | x in s
  }

  lemma {:induction false} DistinctCard<T>(s: seq<T>)
    requires NoRepeats(s)
    ensures |Members(s)| == |s|
  {
    if s != [] {
      DistinctCard(s[1..]);
      assert Members(s) == {s[0]} + Members(s[1..]);
      assert s[0] !in s[1..];
    }
  }

  ghost function Below(n: nat): (r: set<nat>)
    ensures |r| == n && forall x: nat :: x in r <==> x < n
  {
    if n == 0 then {} else Below(n - 1) + {n - 1}
  }

  ghost function Addrs<V>(entries: seq<Slot<V>>, tree: seq<nat>): (r: seq<Addr>)
    requires Sorted(entries, tree)
    ensures |r| == |tree| && forall i :: 0 <= i < |tree| ==> r[i] == entries[tree[i]].addr
  {
    seq(|tree|, i requires 0 <= i < |tree| => entries[tree[i]].addr)
  }

  lemma PartedCount(size: nat, tree: seq<nat>, free: seq<nat>)
    requires NoRepeats(tree) && Parted(size, tree, free, {}) && forall x :: x in tree ==> x < size
    ensures |tree| + |free| == size
  {
    DistinctCard(tree);
    DistinctCard(free);
    assert Members(tree) + Members(free) == Below(size);
    assert Members(tree) !! Members(free);
  }

  lemma AddrsDistinct<V>(entries: seq<Slot<V>>, tree: seq<nat>, addrs: seq<Addr>)
    requires Sorted(entries, tree) && OneEach(entries, tree)
    requires |addrs| == |tree| && forall i :: 0 <= i < |tree| ==> addrs[i] == entries[tree[i]].addr
    ensures NoRepeats(addrs)
  {
    SortedDistinct(entries, tree);
    forall i, j | 0 <= i < j < |addrs| ensures addrs[i] != addrs[j] {
      assert tree[i] in tree && tree[j] in tree;
    }
  }
}
