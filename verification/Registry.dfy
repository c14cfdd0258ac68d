/** The 4-ary hash tree of the connection registry (G2ConRegistry.c): how it is laid out in two blocks of
    storage, and how hashes lead to its chains. */
module Registry {
  import opened Arithmetic

  const LEVEL_SIZE := 4

  function Pow4(n: nat): (r: nat)
    ensures r > 0
  {
    if n == 0 then 1 else 4 * Pow4(n - 1)
  }

  /** The number of buckets below a bucket with n levels of buckets beneath it. */
  function Below(n: nat): (r: nat) {
    if n == 0 then 0 else 4 * (1 + Below(n - 1))
  }

  /** The loop of g2_conreg_init that adds up the buckets, `levels` being LEVEL_COUNT. */
  method CountBuckets(levels: nat) returns (count: nat)
    requires levels > 0
    ensures count == Below(levels - 1)
  {
    count := 0;
    for i := 0 to levels - 1
      invariant count == Below(i)
    {
      BelowSum(i);
      count := count + Pow4(i + 1);
    }
  }

  lemma {:induction false} BelowSum(n: nat)
    ensures Below(n + 1) == Below(n) + Pow4(n + 1)
  {
    if n > 0 {
      BelowSum(n - 1);
    }
  }

  /** The root bucket is not part of the block. */
  const ROOT := -1

  type Links = map<int, seq<nat>>

  /** Where the i-th child of a bucket lies whose subtree begins at from. */
  function Child(from: nat, i: nat, n: nat): (r: nat)
    requires n > 0
  {
    from + i * (1 + Below(n - 1))
  }

  /** The bucket `fill` is the root of a complete tree with n further levels of buckets, laid out from `from`
      on, over chains laid out from `fromC` on. */
  ghost predicate Built(links: Links, fill: int, from: nat, fromC: nat, n: nat)
    decreases n
  {
    fill in links && |links[fill]| == LEVEL_SIZE
    && forall i: nat :: i < LEVEL_SIZE ==> BuiltChild(links, fill, from, fromC, n, i)
  }

  ghost predicate BuiltChild(links: Links, fill: int, from: nat, fromC: nat, n: nat, i: nat)
    requires fill in links && i < |links[fill]|
    decreases n, 0
  {
    if n == 0 then links[fill][i] == fromC + i
    else links[fill][i] == Child(from, i, n)
         && Built(links, Child(from, i, n), Child(from, i, n) + 1, fromC + i * Pow4(n), n - 1)
  }

  /** Only the given links matter. */
  lemma {:induction false} BuiltFrame(links: Links, links': Links, fill: int, from: nat, fromC: nat, n: nat)
    requires Built(links, fill, from, fromC, n)
    requires fill in links' && links'[fill] == links[fill]
    requires forall b :: from <= b < from + Below(n) && b in links ==> b in links' && links'[b] == links[b]
    ensures Built(links', fill, from, fromC, n)
    decreases n
  {
    forall i: nat | i < LEVEL_SIZE ensures BuiltChild(links', fill, from, fromC, n, i) {
      assert BuiltChild(links, fill, from, fromC, n, i);
      if n > 0 {
        ChildInside(from, i, n);
        var c := Child(from, i, n);
        BuiltFrame(links, links', c, c + 1, fromC + i * Pow4(n), n - 1);
      }
    }
  }

  lemma ChildInside(from: nat, i: nat, n: nat)
    requires n > 0 && i < LEVEL_SIZE
    ensures from <= Child(from, i, n) && Child(from, i, n) + 1 + Below(n - 1) <= from + Below(n)
    ensures Child(from, i + 1, n) == Child(from, i, n) + 1 + Below(n - 1)
  {
    var w := 1 + Below(n - 1);
    assert (i + 1) * w == i * w + w;
    assert (i + 1) * w <= 4 * w;
  }

  class Tree {
    var links: Links

    constructor ()
      ensures links == map[]
    {
      links := map[];
    }

    /** init_alloc_bucket: depth first, taking buckets and chains from the front of what is left. */
    method InitBucket(fill: int, from0: nat, fromC0: nat, n: nat) returns (from: nat, fromC: nat)
      requires fill < from0
      modifies this
      ensures from == from0 + Below(n) && fromC == fromC0 + Pow4(n + 1)
      ensures Built(links, fill, from0, fromC0, n)
      ensures forall b :: b != fill && !(from0 <= b < from) ==> (b in links <==> b in old(links))
      ensures forall b :: b != fill && !(from0 <= b < from) && b in links ==> links[b] == old(links[b])
      decreases n
    {
      if n == 0 {
        links := links[fill := [fromC0, fromC0 + 1, fromC0 + 2, fromC0 + 3]];
        return from0, fromC0 + LEVEL_SIZE;
      }
      from, fromC := from0, fromC0;
      var kids: seq<nat> := [];
      var i := 0;
      while i < LEVEL_SIZE
        invariant 0 <= i <= LEVEL_SIZE && |kids| == i
        invariant from == Child(from0, i, n) && fromC == fromC0 + i * Pow4(n)
        invariant KidsBuilt(links, kids, from0, fromC0, n, i)
        invariant forall b :: !(from0 <= b < from) ==> (b in links <==> b in old(links))
        invariant forall b :: !(from0 <= b < from) && b in links ==> links[b] == old(links[b])
      {
        ghost var before := links;
        ChildInside(from0, i, n);
        kids := kids + [from];
        from, fromC := InitBucket(from, from + 1, fromC, n - 1);
        KidsStay(before, links, kids, from0, fromC0, n, i);
        assert (i + 1) * Pow4(n) == i * Pow4(n) + Pow4(n);
        i := i + 1;
      }
      ghost var before := links;
      links := links[fill := kids];
      KidsAreBuilt(before, links, fill, kids, from0, fromC0, n);
    }
  }

  /** g2_conreg_init: the storage it computes is what laying out the tree uses up, to the last bucket and chain. */
  method Init(tree: Tree, levels: nat) returns (countB: nat, countC: nat)
    requires levels > 0
    modifies tree
    ensures Built(tree.links, ROOT, 0, 0, levels - 1)
    ensures countC == Pow4(levels) && countB == Below(levels - 1)
  {
    countB := CountBuckets(levels);
    countC := Pow4(levels);
    var from, fromC := tree.InitBucket(ROOT, 0, 0, levels - 1);
    assert from == countB && fromC == countC;
  }

  /** The first i children are there. */
  ghost predicate KidsBuilt(links: Links, kids: seq<nat>, from: nat, fromC: nat, n: nat, i: nat)
    requires n > 0
  {
    |kids| >= i
    && forall j: nat :: j < i ==> kids[j] == Child(from, j, n)
                                  && Built(links, Child(from, j, n), Child(from, j, n) + 1, fromC + j * Pow4(n), n - 1)
  }

  lemma {:induction false} ChildrenApart(from: nat, i: nat, j: nat, n: nat)
    requires n > 0 && i < j
    ensures Child(from, i, n) + 1 + Below(n - 1) <= Child(from, j, n)
    decreases j
  {
    if i + 1 == j {
      assert (i + 1) * (1 + Below(n - 1)) == i * (1 + Below(n - 1)) + (1 + Below(n - 1));
    } else {
      ChildrenApart(from, i, j - 1, n);
      assert (j - 1 + 1) * (1 + Below(n - 1)) == (j - 1) * (1 + Below(n - 1)) + (1 + Below(n - 1));
    }
  }

  /** Making the next child leaves the earlier ones alone. */
  lemma KidsStay(before: Links, links: Links, kids: seq<nat>, from: nat, fromC: nat, n: nat, i: nat)
    requires n > 0 && |kids| == i + 1 && kids[i] == Child(from, i, n) && i < LEVEL_SIZE
    requires KidsBuilt(before, kids[..i], from, fromC, n, i)
    requires Built(links, Child(from, i, n), Child(from, i, n) + 1, fromC + i * Pow4(n), n - 1)
    requires forall b :: b < Child(from, i, n) ==> (b in links <==> b in before)
    requires forall b :: b < Child(from, i, n) && b in links ==> links[b] == before[b]
    ensures KidsBuilt(links, kids, from, fromC, n, i + 1)
  {
    forall j: nat | j < i
      ensures kids[j] == Child(from, j, n)
              && Built(links, Child(from, j, n), Child(from, j, n) + 1, fromC + j * Pow4(n), n - 1)
    {
      ChildrenApart(from, j, i, n);
      assert kids[j] == kids[..i][j];
      BuiltFrame(before, links, Child(from, j, n), Child(from, j, n) + 1, fromC + j * Pow4(n), n - 1);
    }
  }

  lemma KidsAreBuilt(before: Links, links: Links, fill: int, kids: seq<nat>, from: nat, fromC: nat, n: nat)
    requires n > 0 && |kids| == LEVEL_SIZE && KidsBuilt(before, kids, from, fromC, n, LEVEL_SIZE) && fill < from
    requires links == before[fill := kids]
    ensures Built(links, fill, from, fromC, n)
  {
    forall i: nat | i < LEVEL_SIZE ensures BuiltChild(links, fill, from, fromC, n, i) {
      ChildInside(from, i, n);
      BuiltFrame(before, links, Child(from, i, n), Child(from, i, n) + 1, fromC + i * Pow4(n), n - 1);
    }
  }

  // ---------------------------------------------------------------------------------------------
  // From hashes to chains
  // ---------------------------------------------------------------------------------------------

  predicate IsPath(path: seq<nat>) {
    forall i :: 0 <= i < |path| ==> path[i] < LEVEL_SIZE
  }

  /** The chain a path leads to. */
  ghost function Walk(links: Links, b: int, path: seq<nat>): (c: nat)
    decreases |path|
  {
    if path == [] || b !in links || path[0] >= |links[b]| then 0
    else if |path| == 1 then links[b][path[0]]
    else Walk(links, links[b][path[0]], path[1..])
  }

  /** A path read as a number, the first step being the most significant. */
  function Value(path: seq<nat>): (v: nat) {
    if path == [] then 0 else path[0] * Pow4(|path| - 1) + Value(path[1..])
  }

  /** The steps a hash gives: two bits at a time, the lowest first. */
  function Digits(h: nat, n: nat): (path: seq<nat>)
    ensures |path| == n && IsPath(path)
  {
    if n == 0 then [] else [h % 4] + Digits(h / 4, n - 1)
  }

  lemma {:induction false} WalkIs(links: Links, fill: int, from: nat, fromC: nat, n: nat, path: seq<nat>)
    requires Built(links, fill, from, fromC, n) && |path| == n + 1 && IsPath(path)
    ensures Walk(links, fill, path) == fromC + Value(path)
    decreases n
  {
    var i := path[0];
    assert BuiltChild(links, fill, from, fromC, n, i);
    if n == 0 {
      assert Value(path) == path[0] * Pow4(0) + Value(path[1..]);
    } else {
      var c := Child(from, i, n);
      assert IsPath(path[1..]);
      WalkIs(links, c, c + 1, fromC + i * Pow4(n), n - 1, path[1..]);
    }
  }

  lemma {:induction false} ValueBelow(path: seq<nat>)
    requires IsPath(path)
    ensures Value(path) < Pow4(|path|)
  {
    if path != [] {
      ValueBelow(path[1..]);
      Carry(path[0], LEVEL_SIZE, Pow4(|path| - 1), Value(path[1..]));
    }
  }

  lemma {:induction false} ValueInjective(p: seq<nat>, q: seq<nat>)
    requires IsPath(p) && IsPath(q) && |p| == |q| && Value(p) == Value(q)
    ensures p == q
  {
    if p != [] {
      ValueBelow(p[1..]);
      ValueBelow(q[1..]);
      var n := Pow4(|p| - 1);
      if p[0] < q[0] {
        Carry(p[0], q[0], n, Value(p[1..]));
      } else if q[0] < p[0] {
        Carry(q[0], p[0], n, Value(q[1..]));
      }
      ValueInjective(p[1..], q[1..]);
      assert p == [p[0]] + p[1..] && q == [q[0]] + q[1..];
    }
  }

  /** The path to a given chain. */
  lemma {:induction false} ValueOnto(v: nat, n: nat) returns (path: seq<nat>)
    requires v < Pow4(n)
    ensures |path| == n && IsPath(path) && Value(path) == v
    decreases n
  {
    if n == 0 {
      path := [];
    } else {
      var w := Pow4(n - 1);
      var i := if v < w then 0 else if v < 2 * w then 1 else if v < 3 * w then 2 else 3;
      var rest := ValueOnto(v - i * w, n - 1);
      path := [i] + rest;
      assert path[1..] == rest;
    }
  }

  lemma {:induction false} DigitsInjective(g: nat, h: nat, n: nat)
    ensures Digits(g, n) == Digits(h, n) <==> g % Pow4(n) == h % Pow4(n)
  {
    if n > 0 {
      DigitsInjective(g / 4, h / 4, n - 1);
      assert Digits(g, n)[0] == g % 4 && Digits(h, n)[0] == h % 4;
      assert Digits(g, n)[1..] == Digits(g / 4, n - 1) && Digits(h, n)[1..] == Digits(h / 4, n - 1);
      ModSplit(g, n);
      ModSplit(h, n);
    }
  }

  /** The remainder by 4^n from the lowest digit and the remainder of the rest. */
  lemma ModSplit(h: nat, n: nat)
    requires n > 0
    ensures h % Pow4(n) == h / 4 % Pow4(n - 1) * 4 + h % 4
  {
    var w := Pow4(n - 1);
    var r := h / 4 % w;
    assert h / 4 == h / 4 / w * w + r;
    assert h == h / 4 * 4 + h % 4;
    assert h == h / 4 / w * (4 * w) + (r * 4 + h % 4) by {
      assert h / 4 / w * w * 4 == h / 4 / w * (4 * w);
    }
    DivisionIs(h, 4 * w, h / 4 / w, r * 4 + h % 4);
  }

  lemma {:induction false} DigitsOnto(path: seq<nat>) returns (h: nat)
    requires IsPath(path)
    ensures h < Pow4(|path|) && Digits(h, |path|) == path
  {
    if path == [] {
      h := 0;
    } else {
      var rest := DigitsOnto(path[1..]);
      h := rest * 4 + path[0];
      assert h % 4 == path[0] && h / 4 == rest;
      assert path == [path[0]] + path[1..];
    }
  }

  /** With the tree built, hashes lead to the same chain exactly when they agree modulo 4^levels, every hash
      leads to a chain of the block, and every chain of the block is reached. */
  lemma HashesToChains(links: Links, levels: nat, g: nat, h: nat)
    requires levels > 0 && Built(links, ROOT, 0, 0, levels - 1)
    ensures Walk(links, ROOT, Digits(h, levels)) < Pow4(levels)
    ensures Walk(links, ROOT, Digits(g, levels)) == Walk(links, ROOT, Digits(h, levels)) <==>
              g % Pow4(levels) == h % Pow4(levels)
  {
    var p, q := Digits(g, levels), Digits(h, levels);
    WalkIs(links, ROOT, 0, 0, levels - 1, p);
    WalkIs(links, ROOT, 0, 0, levels - 1, q);
    ValueBelow(q);
    if Value(p) == Value(q) {
      ValueInjective(p, q);
    }
    DigitsInjective(g, h, levels);
  }

  lemma EveryChainReached(links: Links, levels: nat, c: nat) returns (h: nat)
    requires levels > 0 && Built(links, ROOT, 0, 0, levels - 1) && c < Pow4(levels)
    ensures h < Pow4(levels) && Walk(links, ROOT, Digits(h, levels)) == c
  {
    var path := ValueOnto(c, levels);
    h := DigitsOnto(path);
    WalkIs(links, ROOT, 0, 0, levels - 1, path);
  }

  // ---------------------------------------------------------------------------------------------
  // The two walks
  // ---------------------------------------------------------------------------------------------

  /** The bucket at the end of a path of buckets. */
  ghost function BucketAt(links: Links, b: int, path: seq<nat>): (r: int)
    decreases |path|
  {
    if path == [] || b !in links || path[0] >= |links[b]| then b
    else BucketAt(links, links[b][path[0]], path[1..])
  }

  /** g2_conreg_find_chain. */
  method FindChain(links: Links, levels: nat, hash: nat) returns (c: nat)
    requires levels > 0 && Built(links, ROOT, 0, 0, levels - 1)
    ensures c == Walk(links, ROOT, Digits(hash, levels))
  {
    var b, h, i := ROOT, hash, 0;
    ghost var from, fromC := 0, 0;
    while i < levels - 1
      invariant 0 <= i <= levels - 1 && from >= 0 && fromC >= 0 && Built(links, b, from, fromC, levels - 1 - i)
      invariant Walk(links, b, Digits(h, levels - i)) == Walk(links, ROOT, Digits(hash, levels))
    {
      var d, n := h % 4, levels - 1 - i;
      assert BuiltChild(links, b, from, fromC, n, d);
      assert Digits(h, levels - i)[1..] == Digits(h / 4, levels - i - 1);
      ghost var next := Child(from, d, n);
      b, h := links[b][d], h / 4;
      from, fromC := next + 1, fromC + d * Pow4(n);
      i := i + 1;
    }
    assert BuiltChild(links, b, from, fromC, 0, h % 4);
    assert |Digits(h, 1)| == 1 && Digits(h, 1)[0] == h % 4;
    return links[b][h % 4];
  }

  /** find_chain_and_mark_dirty_rec: the chain that is handed to the callback, and the buckets that are marked
      behind it, in order. */
  method MarkDirty(links: Links, b: int, hash: nat, n: nat, ghost from: nat, ghost fromC: nat)
      returns (c: nat, marked: seq<int>)
    requires Built(links, b, from, fromC, n)
    ensures c == Walk(links, b, Digits(hash, n + 1))
    ensures |marked| == n + 1
    ensures forall k :: 0 <= k <= n ==> marked[k] == BucketAt(links, b, Digits(hash, n + 1)[..n - k])
    decreases n
  {
    var d := hash % 4;
    ghost var path := Digits(hash, n + 1);
    assert BuiltChild(links, b, from, fromC, n, d);
    if n > 0 {
      ghost var next := Child(from, d, n);
      c, marked := MarkDirty(links, links[b][d], hash / 4, n - 1, next + 1, fromC + d * Pow4(n));
      assert path[1..] == Digits(hash / 4, n);
      forall k | 0 <= k < n ensures marked[k] == BucketAt(links, b, path[..n - k]) {
        assert path[..n - k][1..] == path[1..][..n - 1 - k];
      }
    } else {
      c, marked := links[b][d], [];
      assert |path| == 1;
    }
    marked := marked + [b];
    assert path[..0] == [];
  }

  // ---------------------------------------------------------------------------------------------
  // Distinct buckets
  // ---------------------------------------------------------------------------------------------

  lemma {:induction false} BucketInside(links: Links, fill: int, from: nat, fromC: nat, n: nat, path: seq<nat>)
    requires Built(links, fill, from, fromC, n) && |path| <= n && IsPath(path) && path != []
    ensures from <= BucketAt(links, fill, path) < from + Below(n)
    decreases n
  {
    var i := path[0];
    assert BuiltChild(links, fill, from, fromC, n, i);
    ChildInside(from, i, n);
    if |path| > 1 {
      assert IsPath(path[1..]);
      BucketInside(links, Child(from, i, n), Child(from, i, n) + 1, fromC + i * Pow4(n), n - 1, path[1..]);
    } else {
      assert path[1..] == [];
    }
  }

  /** Different paths lead to different buckets, all of them in the block: the tree uses every bucket once. */
  lemma {:induction false} BucketsDistinct(links: Links, fill: int, from: nat, fromC: nat, n: nat, p: seq<nat>,
                                           q: seq<nat>)
    requires Built(links, fill, from, fromC, n) && fill < from && |p| <= n && |q| <= n && IsPath(p) && IsPath(q)
             && p != q
    ensures BucketAt(links, fill, p) != BucketAt(links, fill, q)
    decreases n
  {
    if p == [] {
      BucketInside(links, fill, from, fromC, n, q);
    } else if q == [] {
      BucketInside(links, fill, from, fromC, n, p);
    } else if p[0] == q[0] {
      var i := p[0];
      assert BuiltChild(links, fill, from, fromC, n, i);
      var c := Child(from, i, n);
      assert p == [i] + p[1..] && q == [i] + q[1..];
      BucketsDistinct(links, c, c + 1, fromC + i * Pow4(n), n - 1, p[1..], q[1..]);
    } else {
      BucketUnder(links, fill, from, fromC, n, p);
      BucketUnder(links, fill, from, fromC, n, q);
      if p[0] < q[0] {
        ChildrenApart(from, p[0], q[0], n);
      } else {
        ChildrenApart(from, q[0], p[0], n);
      }
    }
  }

  lemma BucketUnder(links: Links, fill: int, from: nat, fromC: nat, n: nat, path: seq<nat>)
    requires Built(links, fill, from, fromC, n) && 0 < |path| <= n && IsPath(path)
    ensures var c := Child(from, path[0], n); c <= BucketAt(links, fill, path) < c + 1 + Below(n - 1)
  {
    var i := path[0];
    assert BuiltChild(links, fill, from, fromC, n, i);
    if |path| > 1 {
      assert IsPath(path[1..]);
      BucketInside(links, Child(from, i, n), Child(from, i, n) + 1, fromC + i * Pow4(n), n - 1, path[1..]);
    } else {
      assert path[1..] == [];
    }
  }
}
