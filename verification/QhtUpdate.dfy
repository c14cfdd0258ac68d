/** Updating the tree of query hash tables (G2ConRegistry.c, G2QHT.c), and what a search finds afterwards. */
module QhtUpdate {
  import opened Options
  import opened QhtTables
  import opened QhtSearch
  import Registry

  // ---------------------------------------------------------------------------------------------
  // Update
  // ---------------------------------------------------------------------------------------------

  /** g2_qht_reset without compression: a table in new storage, whose content means nothing yet. */
  function Blank(entries: nat, spare: seq<bool>): (q: Qht) {
    Qht(true, false, entries, spare)
  }

  function Aggregate(to: Qht, leaves: seq<Leaf>, maxPromille: nat): (r: Qht)
    decreases |leaves|
  {
    if leaves == [] then to
    else
      var next := if Eligible(leaves[0], maxPromille) then Combine(to, leaves[0].qht) else to;
      Aggregate(next, leaves[1..], maxPromille)
  }

  /** do_global_update_chain and do_global_update: the tree afterwards, and what goes into the table above. A
      clean chain hands on its table; a clean bucket hands on nothing. */
  function Update(t: Tree, entries: nat, maxPromille: nat): (r: (Tree, Table))
    decreases t, 1
  {
    match t
    case Chain(qht, dirty, leaves, spare) =>
      if leaves == [] then (Chain(None, dirty, [], spare), None)
      else if dirty then
        var table := Aggregate(Blank(entries, spare), leaves, maxPromille);
        (Chain(Some(table), false, leaves, spare), Some(table))
      else (t, qht)
    case Bucket(qht, dirty, kids, spare) =>
      if dirty then
        var (kids', table) := UpdateKids(Blank(entries, spare), kids, entries, maxPromille);
        (Bucket(Some(table), false, kids', spare), Some(table))
      else (t, None)
  }

  function UpdateKids(to: Qht, kids: seq<Tree>, entries: nat, maxPromille: nat): (r: (seq<Tree>, Qht))
    decreases kids, 0
  {
    if kids == [] then ([], to)
    else
      var (kid, table) := Update(kids[0], entries, maxPromille);
      var (rest, all) := UpdateKids(Combine(to, table), kids[1..], entries, maxPromille);
      ([kid] + rest, all)
  }

  /** The root's table is filled in even when there is nothing below. */
  function Filled(q: Qht): (r: Qht) {
    if !q.reset then q
    else
      q.(reset := false,
         absent := seq(|q.absent|, i requires 0 <= i < |q.absent| => i < Rounded(q.entries) || q.absent[i]))
  }

  function UpdateRoot(t: Tree, entries: nat, maxPromille: nat): (r: Tree)
    requires t.Bucket?
  {
    if !t.dirty then t
    else
      var (kids, table) := UpdateKids(Blank(entries, t.spare), t.kids, entries, maxPromille);
      Bucket(Some(Filled(table)), false, kids, t.spare)
  }

  // ---------------------------------------------------------------------------------------------
  // A search after an update
  // ---------------------------------------------------------------------------------------------

  /** An aggregated table has everything its eligible leaves have, whatever sizes their tables have, in whatever
      order they come and whatever was in the new table's storage. */
  lemma {:induction false} AggregateOver(to: Qht, leaves: seq<Leaf>, entries: nat, maxPromille: nat)
    requires Standard(Some(to), entries) && forall x :: x in leaves ==> Mapped(x.qht)
    ensures var r := Some(Aggregate(to, leaves, maxPromille));
            Standard(r, entries) && Over(r, Some(to), entries)
            && forall x :: x in leaves && Eligible(x, maxPromille) ==> Over(r, x.qht, entries)
    decreases |leaves|
  {
    if leaves != [] {
      var x := leaves[0];
      assert x in leaves;
      var next := if Eligible(x, maxPromille) then Combine(to, x.qht) else to;
      CombineOver(to, x.qht, entries);
      AggregateOver(next, leaves[1..], entries, maxPromille);
      var r := Some(Aggregate(next, leaves[1..], maxPromille));
      OverTrans(r, Some(next), Some(to), entries);
      if Eligible(x, maxPromille) {
        OverTrans(r, Some(next), x.qht, entries);
      }
      forall y | y in leaves && Eligible(y, maxPromille) ensures Over(r, y.qht, entries) {
        if y != x {
          assert y in leaves[1..];
        }
      }
    }
  }

  /** The leaf whose table is copied into the new one. */
  ghost function First(leaves: seq<Leaf>, maxPromille: nat): (r: Option<Leaf>) {
    if leaves == [] then None
    else if Eligible(leaves[0], maxPromille) then Some(leaves[0]) else First(leaves[1..], maxPromille)
  }

  ghost predicate SomeShows(leaves: seq<Leaf>, maxPromille: nat, h: nat) {
    exists x :: x in leaves && Eligible(x, maxPromille) && Shows(x.qht, h)
  }

  lemma SomeShowsNext(leaves: seq<Leaf>, maxPromille: nat, h: nat)
    requires leaves != []
    ensures SomeShows(leaves, maxPromille, h) <==>
              (Eligible(leaves[0], maxPromille) && Shows(leaves[0].qht, h)) || SomeShows(leaves[1..], maxPromille, h)
  {
    if SomeShows(leaves, maxPromille, h) {
      var x :| x in leaves && Eligible(x, maxPromille) && Shows(x.qht, h);
      assert x == leaves[0] || x in leaves[1..];
    }
  }

  /** Further leaves add what they show, and nothing else. */
  lemma {:induction false} AggregateAdds(to: Qht, leaves: seq<Leaf>, entries: nat, maxPromille: nat, h: nat)
    requires !to.reset && Standard(Some(to), entries) && h < entries && forall x :: x in leaves ==> Mapped(x.qht)
    ensures Has(Some(Aggregate(to, leaves, maxPromille)), h) <==>
              Has(Some(to), h) || SomeShows(leaves, maxPromille, h)
    decreases |leaves|
  {
    if leaves != [] {
      var x := leaves[0];
      assert x in leaves;
      SomeShowsNext(leaves, maxPromille, h);
      if Eligible(x, maxPromille) {
        CombineExact(to, x.qht, h);
        AggregateAdds(Combine(to, x.qht), leaves[1..], entries, maxPromille, h);
      } else {
        AggregateAdds(to, leaves[1..], entries, maxPromille, h);
      }
    }
  }

  /** What the table of a chain shows: what an eligible leaf shows, and where the first of them has no bytes what
      happened to be in the storage. */
  ghost predicate Gathered(spare: seq<bool>, leaves: seq<Leaf>, maxPromille: nat, h: nat)
    requires h < |spare|
  {
    var first := First(leaves, maxPromille);
    SomeShows(leaves, maxPromille, h)
    || (first.Some? && Usable(first.value.qht) && Rounded(first.value.qht.value.entries) <= h && !spare[h])
  }

  /** Exactly that, for leaves with tables of any size and any storage. */
  lemma {:induction false} AggregateExact(entries: nat, spare: seq<bool>, leaves: seq<Leaf>, maxPromille: nat, h: nat)
    requires Reaches(spare, entries) && h < entries && forall x :: x in leaves ==> Mapped(x.qht)
    ensures Has(Some(Aggregate(Blank(entries, spare), leaves, maxPromille)), h) <==>
              Gathered(spare, leaves, maxPromille, h)
    decreases |leaves|
  {
    if leaves != [] {
      var x, blank := leaves[0], Blank(entries, spare);
      assert x in leaves;
      SomeShowsNext(leaves, maxPromille, h);
      if Eligible(x, maxPromille) {
        CombineExact(blank, x.qht, h);
        AggregateAdds(Combine(blank, x.qht), leaves[1..], entries, maxPromille, h);
      } else {
        AggregateExact(entries, spare, leaves[1..], maxPromille, h);
      }
    }
  }

  /** For leaves of the tree's size: the table has just what an eligible leaf has, whatever was in the storage. */
  lemma AggregateSameSize(entries: nat, spare: seq<bool>, leaves: seq<Leaf>, maxPromille: nat, h: nat)
    requires Reaches(spare, entries) && h < entries
    requires forall x :: x in leaves ==> Mapped(x.qht) && (x.qht.Some? ==> x.qht.value.entries == entries)
    ensures Has(Some(Aggregate(Blank(entries, spare), leaves, maxPromille)), h) <==>
              exists x :: x in leaves && Eligible(x, maxPromille) && Has(x.qht, h)
  {
    AggregateExact(entries, spare, leaves, maxPromille, h);
    FirstIsThere(leaves, maxPromille);
    forall x | x in leaves ensures Shows(x.qht, h) <==> Has(x.qht, h) {
      ShowsIsHas(x.qht, h);
    }
  }

  lemma {:induction false} FirstIsThere(leaves: seq<Leaf>, maxPromille: nat)
    ensures First(leaves, maxPromille).Some? ==> First(leaves, maxPromille).value in leaves
  {
    if leaves != [] {
      FirstIsThere(leaves[1..], maxPromille);
    }
  }

  /** What goes up from a node: from a clean bucket nothing. */
  ghost predicate Below(t: Tree, maxPromille: nat, h: nat) {
    match t
    case Chain(qht, dirty, leaves, spare) =>
      leaves != [] && if dirty then h < |spare| && Gathered(spare, leaves, maxPromille, h) else Has(qht, h)
    case Bucket(_, dirty, kids, _) => dirty && exists k :: k in kids && Below(k, maxPromille, h)
  }

  /** The table that goes up has exactly that, and so has the new table of the node. */
  lemma {:induction false} UpdateExact(t: Tree, entries: nat, maxPromille: nat, h: nat)
    requires Sized(t, entries) && h < entries
    ensures var (t', up) := Update(t, entries, maxPromille);
            (Has(up, h) <==> Below(t, maxPromille, h)) && (t.Chain? || t.dirty ==> t'.qht == up)
    decreases t, 1
  {
    match t
    case Chain(_, dirty, leaves, spare) =>
      if dirty && leaves != [] {
        AggregateExact(entries, spare, leaves, maxPromille, h);
      }
    case Bucket(_, dirty, kids, spare) =>
      if dirty {
        KidsExact(Blank(entries, spare), kids, entries, maxPromille, h);
      }
  }

  lemma {:induction false} KidsExact(to: Qht, kids: seq<Tree>, entries: nat, maxPromille: nat, h: nat)
    requires Standard(Some(to), entries) && h < entries && forall k :: k in kids ==> Sized(k, entries)
    ensures Has(Some(UpdateKids(to, kids, entries, maxPromille).1), h) <==>
              Has(Some(to), h) || exists k :: k in kids && Below(k, maxPromille, h)
    decreases kids, 0
  {
    if kids != [] {
      assert kids[0] in kids;
      UpdateExact(kids[0], entries, maxPromille, h);
      UpdateSized(kids[0], entries, maxPromille);
      var table := Update(kids[0], entries, maxPromille).1;
      CombineOver(to, table, entries);
      CombineSameSize(to, table, entries, h);
      KidsExact(Combine(to, table), kids[1..], entries, maxPromille, h);
      assert forall k :: k in kids <==> k == kids[0] || k in kids[1..];
    }
  }

  /** After an update the root's table has exactly what went up to it. */
  lemma RootExact(t: Tree, entries: nat, maxPromille: nat, h: nat)
    requires t.Bucket? && t.dirty && Sized(t, entries) && h < entries
    ensures Has(UpdateRoot(t, entries, maxPromille).qht, h) <==> exists k :: k in t.kids && Below(k, maxPromille, h)
  {
    KidsExact(Blank(entries, t.spare), t.kids, entries, maxPromille, h);
    KidsSized(Blank(entries, t.spare), t.kids, entries, maxPromille);
    FilledHasTheSame(UpdateKids(Blank(entries, t.spare), t.kids, entries, maxPromille).1, h);
  }

  lemma FilledHasTheSame(q: Qht, h: nat)
    requires Reaches(q.absent, q.entries) && h < q.entries
    ensures Has(Some(Filled(q)), h) <==> Has(Some(q), h)
  {
    assert h < Rounded(q.entries) <= |q.absent|;
    assert q.reset ==> Filled(q).absent[h];
  }

  /** Everything is marked, and the tables of all leaves have the tree's size. */
  ghost predicate Uniform(t: Tree, entries: nat) {
    t.dirty
    && match t
       case Chain(_, _, leaves, _) => forall x :: x in leaves && x.qht.Some? ==> x.qht.value.entries == entries
       case Bucket(_, _, kids, _) => forall k :: k in kids ==> Uniform(k, entries)
  }

  ghost predicate SomeHas(spots: seq<Spot>, maxPromille: nat, h: nat) {
    exists i :: 0 <= i < |spots| && Eligible(spots[i].leaf, maxPromille) && Has(spots[i].leaf.qht, h)
  }

  lemma SomeHasJoin(a: seq<Spot>, b: seq<Spot>, maxPromille: nat, h: nat)
    ensures SomeHas(a + b, maxPromille, h) <==> SomeHas(a, maxPromille, h) || SomeHas(b, maxPromille, h)
  {
    if SomeHas(b, maxPromille, h) {
      var i :| 0 <= i < |b| && Eligible(b[i].leaf, maxPromille) && Has(b[i].leaf.qht, h);
      assert (a + b)[|a| + i] == b[i];
    }
    if SomeHas(a, maxPromille, h) {
      var i :| 0 <= i < |a| && Eligible(a[i].leaf, maxPromille) && Has(a[i].leaf.qht, h);
      assert (a + b)[i] == a[i];
    }
  }

  lemma SomeHasUnder(q: Table, dirty: bool, spots: seq<Spot>, maxPromille: nat, h: nat)
    ensures SomeHas(Under(q, dirty, spots), maxPromille, h) <==> SomeHas(spots, maxPromille, h)
  {
    if SomeHas(spots, maxPromille, h) {
      var i :| 0 <= i < |spots| && Eligible(spots[i].leaf, maxPromille) && Has(spots[i].leaf.qht, h);
      assert Under(q, dirty, spots)[i].leaf == spots[i].leaf;
    }
  }

  lemma {:induction false} BelowIsLeaves(t: Tree, entries: nat, maxPromille: nat, h: nat)
    requires Sized(t, entries) && Uniform(t, entries) && h < entries
    ensures Below(t, maxPromille, h) <==> SomeHas(Spots(t, entries, maxPromille), maxPromille, h)
    decreases t, 1
  {
    match t
    case Chain(qht, dirty, leaves, spare) =>
      AggregateExact(entries, spare, leaves, maxPromille, h);
      AggregateSameSize(entries, spare, leaves, maxPromille, h);
      var spots := Spots(t, entries, maxPromille);
      if exists x :: x in leaves && Eligible(x, maxPromille) && Has(x.qht, h) {
        var x :| x in leaves && Eligible(x, maxPromille) && Has(x.qht, h);
        var i :| 0 <= i < |leaves| && leaves[i] == x;
        assert spots[i].leaf == x;
      }
    case Bucket(qht, dirty, kids, _) =>
      KidsBelowAreLeaves(kids, entries, maxPromille, h);
      SomeHasUnder(qht, dirty, KidSpots(kids, entries, maxPromille), maxPromille, h);
  }

  lemma {:induction false} KidsBelowAreLeaves(kids: seq<Tree>, entries: nat, maxPromille: nat, h: nat)
    requires (forall k :: k in kids ==> Sized(k, entries) && Uniform(k, entries)) && h < entries
    ensures (exists k :: k in kids && Below(k, maxPromille, h)) <==>
              SomeHas(KidSpots(kids, entries, maxPromille), maxPromille, h)
    decreases kids, 0
  {
    if kids != [] {
      assert kids[0] in kids;
      BelowIsLeaves(kids[0], entries, maxPromille, h);
      KidsBelowAreLeaves(kids[1..], entries, maxPromille, h);
      SomeHasJoin(Spots(kids[0], entries, maxPromille), KidSpots(kids[1..], entries, maxPromille), maxPromille, h);
      assert forall k :: k in kids <==> k == kids[0] || k in kids[1..];
    }
  }

  /** When everything is marked and all tables have the tree's size the root's new table has exactly the hashes that
      some eligible leaf has. */
  lemma RootHasLeaves(t: Tree, entries: nat, maxPromille: nat, h: nat)
    requires t.Bucket? && Sized(t, entries) && Uniform(t, entries) && h < entries
    ensures Has(UpdateRoot(t, entries, maxPromille).qht, h) <==>
              SomeHas(Spots(t, entries, maxPromille), maxPromille, h)
  {
    RootExact(t, entries, maxPromille, h);
    BelowIsLeaves(t, entries, maxPromille, h);
  }

  /** Whatever leaves send, the tables of the tree keep their form. */
  lemma {:induction false} UpdateSized(t: Tree, entries: nat, maxPromille: nat)
    requires Sized(t, entries)
    ensures var (t', up) := Update(t, entries, maxPromille); Sized(t', entries) && Standard(up, entries)
    decreases t, 1
  {
    match t
    case Chain(qht, dirty, leaves, spare) => AggregateOver(Blank(entries, spare), leaves, entries, maxPromille);
    case Bucket(qht, dirty, kids, spare) => KidsSized(Blank(entries, spare), kids, entries, maxPromille);
  }

  lemma {:induction false} KidsSized(to: Qht, kids: seq<Tree>, entries: nat, maxPromille: nat)
    requires Standard(Some(to), entries) && forall k :: k in kids ==> Sized(k, entries)
    ensures var (kids', all) := UpdateKids(to, kids, entries, maxPromille);
            Standard(Some(all), entries) && forall k :: k in kids' ==> Sized(k, entries)
    decreases kids, 0
  {
    if kids != [] {
      assert kids[0] in kids;
      UpdateSized(kids[0], entries, maxPromille);
      var table := Update(kids[0], entries, maxPromille).1;
      CombineOver(to, table, entries);
      KidsSized(Combine(to, table), kids[1..], entries, maxPromille);
    }
  }

  lemma RootSized(t: Tree, entries: nat, maxPromille: nat)
    requires t.Bucket? && Sized(t, entries)
    ensures Sized(UpdateRoot(t, entries, maxPromille), entries)
  {
    KidsSized(Blank(entries, t.spare), t.kids, entries, maxPromille);
  }

  /** Every table on the path has everything the leaf has. */
  ghost predicate Covered(path: seq<Table>, x: Leaf, entries: nat) {
    forall i :: 0 <= i < |path| ==> Standard(path[i], entries) && Over(path[i], x.qht, entries)
  }

  /** The spots before and after an update: the leaves are the same, and where all was marked the new tables
      cover the leaf, as does the table that goes up. */
  ghost predicate Renewed(before: seq<Spot>, after: seq<Spot>, up: Table, entries: nat, maxPromille: nat) {
    |before| == |after|
    && forall i :: 0 <= i < |before| ==>
         after[i].leaf == before[i].leaf
         && (before[i].marked && Eligible(before[i].leaf, maxPromille) ==>
               Over(up, before[i].leaf.qht, entries) && Covered(after[i].path, before[i].leaf, entries))
  }

  lemma {:induction false} UpdateRenews(t: Tree, entries: nat, maxPromille: nat)
    requires Sized(t, entries)
    ensures var (t', up) := Update(t, entries, maxPromille);
            Standard(up, entries)
            && Renewed(Spots(t, entries, maxPromille), Spots(t', entries, maxPromille), up, entries, maxPromille)
    decreases t, 1
  {
    match t
    case Chain(qht, dirty, leaves, spare) => ChainRenews(t, entries, maxPromille);
    case Bucket(qht, dirty, kids, spare) =>
      if dirty {
        var to := Blank(entries, spare);
        KidsRenew(to, kids, entries, maxPromille);
        var (kids', table) := UpdateKids(to, kids, entries, maxPromille);
        UnderRenews(qht, Some(table), KidSpots(kids, entries, maxPromille), KidSpots(kids', entries, maxPromille),
                    entries, maxPromille);
      }
  }

  lemma ChainRenews(t: Tree, entries: nat, maxPromille: nat)
    requires t.Chain? && Sized(t, entries)
    ensures var (t', up) := Update(t, entries, maxPromille);
            Standard(up, entries)
            && Renewed(Spots(t, entries, maxPromille), Spots(t', entries, maxPromille), up, entries, maxPromille)
  {
    if t.leaves != [] && t.dirty {
      AggregateOver(Blank(entries, t.spare), t.leaves, entries, maxPromille);
    }
    var (t', up) := Update(t, entries, maxPromille);
    var b, a := Spots(t, entries, maxPromille), Spots(t', entries, maxPromille);
    forall i | 0 <= i < |b| && b[i].marked && Eligible(b[i].leaf, maxPromille)
      ensures Over(up, b[i].leaf.qht, entries) && Covered(a[i].path, b[i].leaf, entries)
    {
      assert b[i].leaf == t.leaves[i] && a[i].path == [t'.qht];
    }
  }

  lemma UnderRenews(was: Table, up: Table, before: seq<Spot>, after: seq<Spot>, entries: nat, maxPromille: nat)
    requires Renewed(before, after, up, entries, maxPromille) && Standard(up, entries)
    ensures Renewed(Under(was, true, before), Under(up, false, after), up, entries, maxPromille)
  {
    var b, a := Under(was, true, before), Under(up, false, after);
    forall i | 0 <= i < |b| && b[i].marked && Eligible(b[i].leaf, maxPromille)
      ensures Covered(a[i].path, b[i].leaf, entries)
    {
      assert before[i].marked && Covered(after[i].path, before[i].leaf, entries);
    }
  }

  lemma {:induction false} KidsRenew(to: Qht, kids: seq<Tree>, entries: nat, maxPromille: nat)
    requires Standard(Some(to), entries) && forall k :: k in kids ==> Sized(k, entries)
    ensures var (kids', all) := UpdateKids(to, kids, entries, maxPromille);
            Standard(Some(all), entries) && Over(Some(all), Some(to), entries)
            && Renewed(KidSpots(kids, entries, maxPromille), KidSpots(kids', entries, maxPromille), Some(all), entries,
                       maxPromille)
    decreases kids, 0
  {
    if kids != [] {
      assert kids[0] in kids;
      UpdateRenews(kids[0], entries, maxPromille);
      var (kid, table) := Update(kids[0], entries, maxPromille);
      var next := Combine(to, table);
      CombineOver(to, table, entries);
      KidsRenew(next, kids[1..], entries, maxPromille);
      var (rest, all) := UpdateKids(next, kids[1..], entries, maxPromille);
      OverTrans(Some(all), Some(next), Some(to), entries);
      OverTrans(Some(all), Some(next), table, entries);
      assert ([kid] + rest)[1..] == rest;
      JoinRenews(Spots(kids[0], entries, maxPromille), Spots(kid, entries, maxPromille), table,
                 KidSpots(kids[1..], entries, maxPromille), KidSpots(rest, entries, maxPromille), Some(all),
                 entries, maxPromille);
    }
  }

  lemma JoinRenews(b1: seq<Spot>, a1: seq<Spot>, up1: Table, b2: seq<Spot>, a2: seq<Spot>, up: Table, entries: nat,
                   maxPromille: nat)
    requires Renewed(b1, a1, up1, entries, maxPromille) && Renewed(b2, a2, up, entries, maxPromille)
             && Over(up, up1, entries)
    ensures Renewed(b1 + b2, a1 + a2, up, entries, maxPromille)
  {
    forall i | 0 <= i < |b1| && b1[i].marked && Eligible(b1[i].leaf, maxPromille)
      ensures Over(up, b1[i].leaf.qht, entries)
    {
      OverTrans(up, up1, b1[i].leaf.qht, entries);
    }
  }

  lemma RootRenews(t: Tree, entries: nat, maxPromille: nat)
    requires t.Bucket? && t.dirty && Sized(t, entries)
    ensures var t' := UpdateRoot(t, entries, maxPromille);
            Renewed(Spots(t, entries, maxPromille), Spots(t', entries, maxPromille), t'.qht, entries, maxPromille)
  {
    var to := Blank(entries, t.spare);
    KidsRenew(to, t.kids, entries, maxPromille);
    var (kids, table) := UpdateKids(to, t.kids, entries, maxPromille);
    var t' := UpdateRoot(t, entries, maxPromille);
    assert Standard(t'.qht, entries) && Over(t'.qht, Some(table), entries);
    JoinRenews(KidSpots(t.kids, entries, maxPromille), KidSpots(kids, entries, maxPromille), Some(table), [], [],
               t'.qht, entries, maxPromille);
    assert KidSpots(t.kids, entries, maxPromille) + [] == KidSpots(t.kids, entries, maxPromille);
    assert KidSpots(kids, entries, maxPromille) + [] == KidSpots(kids, entries, maxPromille);
    UnderRenews(t.qht, t'.qht, KidSpots(t.kids, entries, maxPromille), KidSpots(kids, entries, maxPromille), entries,
                maxPromille);
  }

  /** Only leaves that want queries get them: no hub, no one who dismissed them, no one without a usable table or with
      too full a one. */
  lemma FoundAreServed(t: Tree, entries: nat, hs: seq<nat>, maxPromille: nat, id: nat)
    requires id in FoundIn(t, hs, maxPromille)
    ensures var spots := Spots(t, entries, maxPromille);
            exists i :: 0 <= i < |spots| && spots[i].leaf.id == id && Serves(spots[i].leaf, maxPromille)
  {
    SearchIsFlat(t, entries, hs, maxPromille);
    OnlyServed(Spots(t, entries, maxPromille), hs, maxPromille, id);
  }

  lemma {:induction false} OnlyServed(spots: seq<Spot>, hs: seq<nat>, maxPromille: nat, id: nat)
    requires id in Hits(spots, hs, maxPromille)
    ensures exists i :: 0 <= i < |spots| && spots[i].leaf.id == id && Serves(spots[i].leaf, maxPromille)
    decreases |spots|
  {
    if !(spots[0].leaf.id == id && Hit(spots[0], hs, maxPromille)) {
      OnlyServed(spots[1..], hs, maxPromille, id);
      var i :| 0 <= i < |spots[1..]| && spots[1..][i].leaf.id == id && Serves(spots[1..][i].leaf, maxPromille);
      assert spots[i + 1] == spots[1..][i];
    }
  }

  predicate Serves(x: Leaf, maxPromille: nat) {
    x.qht.Some? && !x.qht.value.reset && !x.upeer && !x.dismissed && x.used < maxPromille
  }

  /** And only leaves that go into tables are in them. */
  lemma {:induction false} HubsStayOut(to: Qht, leaves: seq<Leaf>, maxPromille: nat, j: nat)
    requires j < |leaves|
    requires leaves[j].upeer || leaves[j].used >= maxPromille || leaves[j].qht.None? || leaves[j].qht.value.reset
    ensures Aggregate(to, leaves, maxPromille) == Aggregate(to, leaves[..j] + leaves[j + 1..], maxPromille)
    decreases |leaves|
  {
    var others := leaves[..j] + leaves[j + 1..];
    if j == 0 {
      assert others == leaves[1..];
    } else {
      var next := if Eligible(leaves[0], maxPromille) then Combine(to, leaves[0].qht) else to;
      assert others[1..] == leaves[1..][..j - 1] + leaves[1..][j..];
      HubsStayOut(next, leaves[1..], maxPromille, j - 1);
    }
  }

  /** A search is led to the leaf by a hash that its table is too short for. */
  ghost predicate Strayed(x: Spot, hs: seq<nat>, maxPromille: nat) {
    Searched(x.leaf, maxPromille)
    && exists h :: h in hs && x.leaf.qht.value.entries <= h && AllPass(x.path, h) && Tested(x.leaf.qht, h)
  }

  lemma CoveredHit(x: Spot, hs: seq<nat>, entries: nat, maxPromille: nat)
    requires Covered(x.path, x.leaf, entries) && forall h :: h in hs ==> h < entries
    ensures Hit(x, hs, maxPromille) <==> Matches(x.leaf, hs, maxPromille) || Strayed(x, hs, maxPromille)
  {
    if Matches(x.leaf, hs, maxPromille) {
      var h :| h in hs && Has(x.leaf.qht, h);
      assert AllPass(x.path, h) && Tested(x.leaf.qht, h);
    }
    if Hit(x, hs, maxPromille) {
      var h :| h in hs && AllPass(x.path, h) && Tested(x.leaf.qht, h);
      assert h < x.leaf.qht.value.entries ==> Has(x.leaf.qht, h);
    }
  }

  lemma ClearDoesNotStray(x: Spot, hs: seq<nat>, maxPromille: nat)
    requires Clear(x.leaf.qht, hs)
    ensures !Strayed(x, hs, maxPromille)
  {
  }

  /** Right after an update pass, for any leaf whose way was marked all along and hashes that the tree's tables are
      long enough for: the search finds the leaf exactly when a flat test of all hashes against the leaf's own table
      does, or a hash that its table is too short for leads there. */
  lemma SearchAfterUpdate(t: Tree, hs: seq<nat>, entries: nat, maxPromille: nat, i: nat)
    requires t.Bucket? && t.dirty && Sized(t, entries) && i < |Spots(t, entries, maxPromille)|
    requires forall h :: h in hs ==> h < entries
    ensures var t' := UpdateRoot(t, entries, maxPromille);
            var before, after := Spots(t, entries, maxPromille), Spots(t', entries, maxPromille);
            |after| == |before| && FoundIn(t', hs, maxPromille) == Hits(after, hs, maxPromille)
            && after[i].leaf == before[i].leaf
            && (before[i].marked && Searched(before[i].leaf, maxPromille) ==>
                  (Hit(after[i], hs, maxPromille) <==>
                     Matches(before[i].leaf, hs, maxPromille) || Strayed(after[i], hs, maxPromille)))
  {
    var t' := UpdateRoot(t, entries, maxPromille);
    RootRenews(t, entries, maxPromille);
    SearchIsFlat(t', entries, hs, maxPromille);
    if Spots(t, entries, maxPromille)[i].marked && Searched(Spots(t, entries, maxPromille)[i].leaf, maxPromille) {
      CoveredHit(Spots(t', entries, maxPromille)[i], hs, entries, maxPromille);
    }
  }

  /** How often such a leaf gets the query. */
  lemma DeliveredExactly(t: Tree, hs: seq<nat>, entries: nat, maxPromille: nat, i: nat)
    requires t.Bucket? && t.dirty && Sized(t, entries) && DistinctLeaves(Spots(t, entries, maxPromille))
    requires forall h :: h in hs ==> h < entries
    requires i < |Spots(t, entries, maxPromille)| && Spots(t, entries, maxPromille)[i].marked
    requires Searched(Spots(t, entries, maxPromille)[i].leaf, maxPromille)
    ensures var t', leaf := UpdateRoot(t, entries, maxPromille), Spots(t, entries, maxPromille)[i].leaf;
            i < |Spots(t', entries, maxPromille)| && Spots(t', entries, maxPromille)[i].leaf == leaf
            && multiset(FoundIn(t', hs, maxPromille))[leaf.id]
               == if Matches(leaf, hs, maxPromille) || Strayed(Spots(t', entries, maxPromille)[i], hs, maxPromille)
                  then 1 else 0
  {
    var before := Spots(t, entries, maxPromille);
    var after := Spots(UpdateRoot(t, entries, maxPromille), entries, maxPromille);
    SearchAfterUpdate(t, hs, entries, maxPromille, i);
    forall j | 0 <= j < |before| ensures after[j].leaf == before[j].leaf {
      SearchAfterUpdate(t, hs, entries, maxPromille, j);
    }
    HitsOnce(after, hs, maxPromille, before[i].leaf.id);
  }

  /** Tables of the tree's own size are always clear. */
  lemma SameSizeIsClear(t: Table, hs: seq<nat>, entries: nat)
    requires (forall h :: h in hs ==> h < entries) && (t.Some? ==> t.value.entries == entries)
    ensures Clear(t, hs)
  {
  }

  /** A leaf gets the query once if its own table has one of the hashes, and otherwise not at all, if its table has the
      tree's size, or any other and no hash is one that the search would look up behind the end of it. */
  lemma DeliveredOnce(t: Tree, hs: seq<nat>, entries: nat, maxPromille: nat, i: nat)
    requires t.Bucket? && t.dirty && Sized(t, entries) && DistinctLeaves(Spots(t, entries, maxPromille))
    requires forall h :: h in hs ==> h < entries
    requires i < |Spots(t, entries, maxPromille)| && Spots(t, entries, maxPromille)[i].marked
    requires Searched(Spots(t, entries, maxPromille)[i].leaf, maxPromille)
    requires var table := Spots(t, entries, maxPromille)[i].leaf.qht; table.value.entries == entries || Clear(table, hs)
    ensures var leaf := Spots(t, entries, maxPromille)[i].leaf;
            multiset(FoundIn(UpdateRoot(t, entries, maxPromille), hs, maxPromille))[leaf.id]
            == if Matches(leaf, hs, maxPromille) then 1 else 0
  {
    var table := Spots(t, entries, maxPromille)[i].leaf.qht;
    if table.value.entries == entries {
      SameSizeIsClear(table, hs, entries);
    }
    DeliveredExactly(t, hs, entries, maxPromille, i);
    ClearDoesNotStray(Spots(UpdateRoot(t, entries, maxPromille), entries, maxPromille)[i], hs, maxPromille);
  }

  // ---------------------------------------------------------------------------------------------
  // Any number of updates
  // ---------------------------------------------------------------------------------------------

  /** Between update passes connections come, go and replace their tables, and nodes are marked; the tables in the tree
      stay. */
  ghost predicate Kept(t: Tree, t': Tree) {
    t'.qht == t.qht && |t'.spare| == |t.spare|
    && match t
       case Chain(_, _, _, _) => t'.Chain? && forall x :: x in t'.leaves ==> Mapped(x.qht)
       case Bucket(_, _, kids, _) =>
         t'.Bucket? && |t'.kids| == |kids| && forall i :: 0 <= i < |kids| ==> Kept(kids[i], t'.kids[i])
  }

  lemma {:induction false} KeptSized(t: Tree, t': Tree, entries: nat)
    requires Kept(t, t') && Sized(t, entries)
    ensures Sized(t', entries)
    decreases t
  {
    if t.Bucket? {
      forall i | 0 <= i < |t.kids| ensures Sized(t'.kids[i], entries) {
        assert t.kids[i] in t.kids;
        KeptSized(t.kids[i], t'.kids[i], entries);
      }
    }
  }

  /** The tree over time. */
  ghost predicate Life(trees: seq<Tree>, entries: nat, maxPromille: nat) {
    trees != [] && trees[0].Bucket? && Sized(trees[0], entries)
    && forall n :: 0 < n < |trees| ==> trees[n].Bucket? && Next(trees[n - 1], trees[n], entries, maxPromille)
  }

  ghost predicate Next(t: Tree, t': Tree, entries: nat, maxPromille: nat) {
    (t.Bucket? && t' == UpdateRoot(t, entries, maxPromille)) || Kept(t, t')
  }

  lemma {:induction false} LifeSized(trees: seq<Tree>, entries: nat, maxPromille: nat, n: nat)
    requires Life(trees, entries, maxPromille) && n < |trees|
    ensures trees[n].Bucket? && Sized(trees[n], entries)
  {
    if n > 0 {
      LifeSized(trees, entries, maxPromille, n - 1);
      assert Next(trees[n - 1], trees[n], entries, maxPromille);
      if trees[n] == UpdateRoot(trees[n - 1], entries, maxPromille) {
        RootSized(trees[n - 1], entries, maxPromille);
      } else {
        KeptSized(trees[n - 1], trees[n], entries);
      }
    }
  }

  /** Whatever passes and changes there were before, a search behind the next pass finds such a leaf as the leaf's own
      table says. */
  lemma DeliveredThroughout(trees: seq<Tree>, n: nat, hs: seq<nat>, entries: nat, maxPromille: nat, i: nat)
    requires Life(trees, entries, maxPromille) && n < |trees| && trees[n].dirty
    requires DistinctLeaves(Spots(trees[n], entries, maxPromille)) && forall h :: h in hs ==> h < entries
    requires i < |Spots(trees[n], entries, maxPromille)| && Spots(trees[n], entries, maxPromille)[i].marked
    requires Searched(Spots(trees[n], entries, maxPromille)[i].leaf, maxPromille)
    ensures trees[n].Bucket?
    ensures var t', leaf := UpdateRoot(trees[n], entries, maxPromille), Spots(trees[n], entries, maxPromille)[i].leaf;
            var found := multiset(FoundIn(t', hs, maxPromille))[leaf.id];
            i < |Spots(t', entries, maxPromille)| && Spots(t', entries, maxPromille)[i].leaf == leaf
            && (found
                == if Matches(leaf, hs, maxPromille) || Strayed(Spots(t', entries, maxPromille)[i], hs, maxPromille)
                   then 1 else 0)
            && (leaf.qht.value.entries == entries || Clear(leaf.qht, hs) ==>
                  found == if Matches(leaf, hs, maxPromille) then 1 else 0)
  {
    LifeSized(trees, entries, maxPromille, n);
    DeliveredExactly(trees[n], hs, entries, maxPromille, i);
    var leaf := Spots(trees[n], entries, maxPromille)[i].leaf;
    if leaf.qht.value.entries == entries || Clear(leaf.qht, hs) {
      DeliveredOnce(trees[n], hs, entries, maxPromille, i);
    }
  }

  // ---------------------------------------------------------------------------------------------
  // Where it fails
  // ---------------------------------------------------------------------------------------------

  function Bits(n: nat, clear: set<nat>): (r: seq<bool>)
    ensures |r| == n && forall i :: 0 <= i < n ==> r[i] == (i !in clear)
  {
    seq(n, i requires 0 <= i < n => i !in clear)
  }

  /** A chain and a bucket that nothing is in. */
  function NoLeaves(spare: seq<bool>): (t: Tree) {
    Chain(None, false, [], spare)
  }

  function NoChains(dirty: bool, spare: seq<bool>): (t: Tree) {
    var none := NoLeaves(spare);
    Bucket(None, dirty, [none, none, none, none], spare)
  }

  lemma {:induction false} NoLeavesBelow(to: Qht, kids: seq<Tree>, spare: seq<bool>, entries: nat, maxPromille: nat,
                                         hs: seq<nat>)
    requires forall i :: 0 <= i < |kids| ==> kids[i] == NoLeaves(spare)
    ensures UpdateKids(to, kids, entries, maxPromille) == (kids, to) && FoundInKids(kids, hs, maxPromille) == []
    decreases |kids|
  {
    if kids != [] {
      NoLeavesBelow(to, kids[1..], spare, entries, maxPromille, hs);
      SurvivorsOfNone(hs);
      assert [kids[0]] + kids[1..] == kids;
    }
  }

  lemma {:induction false} SurvivorsOfNone(hs: seq<nat>)
    ensures Survivors(None, hs) == []
  {
    if hs != [] {
      SurvivorsOfNone(hs[1..]);
    }
  }

  lemma TwoFound(a: Leaf, b: Leaf, hs: seq<nat>, maxPromille: nat)
    requires Finds(a, hs, maxPromille) && Finds(b, hs, maxPromille)
    ensures FoundInChain([a, b], hs, maxPromille) == [a.id, b.id]
  {
    assert [a, b][1..] == [b] && [b][1..] == [];
    assert FoundInChain([b], hs, maxPromille) == [b.id];
  }

  lemma AggregateTwo(to: Qht, a: Leaf, b: Leaf, maxPromille: nat)
    requires Eligible(a, maxPromille) && Eligible(b, maxPromille)
    ensures Aggregate(to, [a, b], maxPromille) == Combine(Combine(to, a.qht), b.qht)
  {
    assert [a, b][1..] == [b] && [b][1..] == [];
    assert Aggregate(Combine(to, a.qht), [b], maxPromille) == Combine(Combine(to, a.qht), b.qht);
  }

  /** The tree of one marked chain with two leaves. */
  function TwoLeaves(a: Leaf, b: Leaf, spare: seq<bool>): (t: Tree)
    ensures t.Bucket? && |t.kids| == Registry.LEVEL_SIZE
  {
    var none := NoLeaves(spare);
    Bucket(None, true, [Chain(None, true, [a, b], spare), none, none, none], spare)
  }

  /** Nothing comes of the three children without leaves. */
  lemma OneKid(to: Qht, kid: Tree, spare: seq<bool>, entries: nat, maxPromille: nat, hs: seq<nat>)
    ensures var none := NoLeaves(spare);
            var (kid', up) := Update(kid, entries, maxPromille);
            UpdateKids(to, [kid, none, none, none], entries, maxPromille) == ([kid', none, none, none], Combine(to, up))
            && FoundInKids([kid, none, none, none], hs, maxPromille) == FoundIn(kid, hs, maxPromille)
  {
    var none := NoLeaves(spare);
    var (kid', up) := Update(kid, entries, maxPromille);
    var rest := [none, none, none];
    assert [kid, none, none, none][1..] == rest && [kid'] + rest == [kid', none, none, none];
    NoLeavesBelow(Combine(to, up), rest, spare, entries, maxPromille, hs);
  }

  /** The tables of the chain and of the root have what a leaf has, so a hash that leads to both gets the query to
      both. */
  lemma BothFound(a: Leaf, b: Leaf, spare: seq<bool>, entries: nat, maxPromille: nat, h: nat)
    requires Eligible(a, maxPromille) && Eligible(b, maxPromille) && Mapped(a.qht) && Mapped(b.qht)
    requires Reaches(spare, entries) && h < entries && Has(b.qht, h)
    requires Finds(a, [h], maxPromille) && Finds(b, [h], maxPromille)
    ensures FoundIn(UpdateRoot(TwoLeaves(a, b, spare), entries, maxPromille), [h], maxPromille) == [a.id, b.id]
  {
    var blank := Blank(entries, spare);
    AggregateTwo(blank, a, b, maxPromille);
    var one := Combine(blank, a.qht);
    var both := Combine(one, b.qht);
    CombineOver(blank, a.qht, entries);
    CombineOver(one, b.qht, entries);
    CombineOver(blank, Some(both), entries);
    var chain, chain' := Chain(None, true, [a, b], spare), Chain(Some(both), false, [a, b], spare);
    OneKid(blank, chain, spare, entries, maxPromille, [h]);
    OneKid(blank, chain', spare, entries, maxPromille, [h]);
    var top := Filled(Combine(blank, Some(both)));
    assert Has(Some(both), h) && Has(Some(top), h);
    assert Survivors(Some(both), [h]) == [h] == Survivors(Some(top), [h]);
    TwoFound(a, b, [h], maxPromille);
  }

  /** A leaf whose table has 8 entries and none of them, with a cleared bit behind the table, next to a leaf of the
      tree's size that has hash 8: the guard lets hash 8 pass, and the query goes to both. */
  lemma ShortTableIsOverrun()
    ensures var short := Leaf(1, Some(Qht(false, false, 8, Bits(16, {8}))), false, false, 0);
            var full := Leaf(2, Some(Qht(false, false, 16, Bits(24, {8}))), false, false, 0);
            var root := TwoLeaves(short, full, Bits(24, {}));
            Sized(root, 16) && Deep(root.kids, 1) && !Matches(short, [8], 1000)
            && FoundIn(UpdateRoot(root, 16, 1000), [8], 1000) == [1, 2]
  {
    var short := Leaf(1, Some(Qht(false, false, 8, Bits(16, {8}))), false, false, 0);
    var full := Leaf(2, Some(Qht(false, false, 16, Bits(24, {8}))), false, false, 0);
    var spare := Bits(24, {});
    assert 8 in [8] && Tested(short.qht, 8) && Has(full.qht, 8);
    assert Sized(NoLeaves(spare), 16);
    BothFound(short, full, spare, 16, 1000, 8);
  }

  /** A leaf with a table of 8 entries that has only hash 3. */
  function OnlyThree(): (x: Leaf) {
    Leaf(1, Some(Qht(false, false, 8, Bits(16, {3}))), false, false, 0)
  }

  /** In a tree of that size nothing of the storage shows; in a larger one what was behind the leaf's bytes does, though
      no leaf has it. */
  lemma LeftoverShows()
    ensures !Has(Some(Aggregate(Blank(8, Bits(16, {5})), [OnlyThree()], 1000)), 5)
    ensures Has(Some(Aggregate(Blank(16, Bits(24, {9})), [OnlyThree()], 1000)), 9) && !Has(OnlyThree().qht, 9)
  {
    var x := OnlyThree();
    assert [x][1..] == [];
    AggregateExact(8, Bits(16, {5}), [x], 1000, 5);
    AggregateExact(16, Bits(24, {9}), [x], 1000, 9);
    assert First([x], 1000) == Some(x);
  }

  /** A clean bucket hands nothing on: the table above comes out as if the bucket were not there. */
  lemma {:induction false} CleanBucketIsHidden(to: Qht, kids: seq<Tree>, j: nat, entries: nat, maxPromille: nat)
    requires j < |kids| && kids[j].Bucket? && !kids[j].dirty
    ensures UpdateKids(to, kids, entries, maxPromille).1
            == UpdateKids(to, kids[..j] + kids[j + 1..], entries, maxPromille).1
    decreases |kids|
  {
    if j == 0 {
      assert kids[..j] + kids[j + 1..] == kids[1..];
    } else {
      var others := kids[..j] + kids[j + 1..];
      assert others[1..] == kids[1..][..j - 1] + kids[1..][j..];
      CleanBucketIsHidden(Combine(to, Update(kids[0], entries, maxPromille).1), kids[1..], j - 1, entries, maxPromille);
    }
  }

  /** A clean bucket with one leaf, whose table it has. */
  function CleanBucket(leaf: Leaf, spare: seq<bool>): (t: Tree) {
    var none := NoLeaves(spare);
    Bucket(leaf.qht, false, [Chain(leaf.qht, false, [leaf], spare), none, none, none], spare)
  }

  lemma BucketsAreSized(leaf: Leaf, dirty: bool, spare: seq<bool>, entries: nat)
    requires Standard(leaf.qht, entries) && Reaches(spare, entries)
    ensures Sized(CleanBucket(leaf, spare), entries) && Deep(CleanBucket(leaf, spare).kids, 1)
    ensures Sized(NoChains(dirty, spare), entries) && Deep(NoChains(dirty, spare).kids, 1)
  {
    assert Sized(NoLeaves(spare), entries) && Sized(Chain(leaf.qht, false, [leaf], spare), entries);
  }

  lemma MarkedGivesNothing(spare: seq<bool>, entries: nat, maxPromille: nat)
    ensures Combine(Blank(entries, spare), Update(NoChains(true, spare), entries, maxPromille).1)
            == Blank(entries, spare)
  {
    NoLeavesBelow(Blank(entries, spare), NoChains(true, spare).kids, spare, entries, maxPromille, []);
  }

  /** So a leaf below a clean bucket can be missed although its own table matches: here another bucket was marked, and
      has nothing in it. */
  lemma CleanBucketIsMissed()
    ensures var spare := Bits(8, {});
            var leaf := Leaf(7, Some(Qht(false, false, 1, Bits(8, {0}))), false, false, 0);
            var idle := NoChains(false, spare);
            var root := Bucket(None, true, [CleanBucket(leaf, spare), NoChains(true, spare), idle, idle], spare);
            Sized(root, 1) && Deep(root.kids, 2) && |root.kids| == Registry.LEVEL_SIZE && Matches(leaf, [0], 1000)
            && FoundIn(UpdateRoot(root, 1, 1000), [0], 1000) == []
  {
    var spare := Bits(8, {});
    var leaf := Leaf(7, Some(Qht(false, false, 1, Bits(8, {0}))), false, false, 0);
    assert Has(leaf.qht, 0) && 0 in [0];
    var idle := NoChains(false, spare);
    var kids := [CleanBucket(leaf, spare), NoChains(true, spare), idle, idle];
    BucketsAreSized(leaf, true, spare, 1);
    BucketsAreSized(leaf, false, spare, 1);
    MarkedGivesNothing(spare, 1, 1000);
    KidsGiveNothing(Blank(1, spare), kids, 1, 1000);
    var t' := UpdateRoot(Bucket(None, true, kids, spare), 1, 1000);
    assert !Passes(t'.qht, 0);
    assert Survivors(t'.qht, [0]) == [];
  }

  lemma {:induction false} KidsGiveNothing(to: Qht, kids: seq<Tree>, entries: nat, maxPromille: nat)
    requires forall k :: k in kids ==> Combine(to, Update(k, entries, maxPromille).1) == to
    ensures UpdateKids(to, kids, entries, maxPromille).1 == to
    decreases |kids|
  {
    if kids != [] {
      assert kids[0] in kids;
      KidsGiveNothing(to, kids[1..], entries, maxPromille);
    }
  }

  // ---------------------------------------------------------------------------------------------
  // The update as it runs
  // ---------------------------------------------------------------------------------------------

  /** do_global_update_chain's loop over the connections. */
  method AggregateChain(blank: Qht, leaves: seq<Leaf>, maxPromille: nat) returns (table: Qht)
    ensures table == Aggregate(blank, leaves, maxPromille)
  {
    table := blank;
    for i := 0 to |leaves|
      invariant Aggregate(table, leaves[i..], maxPromille) == Aggregate(blank, leaves, maxPromille)
    {
      var x := leaves[i];
      assert leaves[i..][1..] == leaves[i + 1..];
      if Usable(x.qht) && !x.upeer && x.used < maxPromille {
        table := Combine(table, x.qht);
      }
    }
  }

  /** do_global_update_chain. */
  method UpdateChain(t: Tree, entries: nat, maxPromille: nat) returns (t': Tree, up: Table)
    requires t.Chain?
    ensures (t', up) == Update(t, entries, maxPromille)
  {
    if t.leaves == [] {
      return Chain(None, t.dirty, [], t.spare), None;
    }
    if !t.dirty {
      return t, t.qht;
    }
    var table := AggregateChain(Blank(entries, t.spare), t.leaves, maxPromille);
    return Chain(Some(table), false, t.leaves, t.spare), Some(table);
  }

  lemma UpdateKidsNext(to: Qht, kids: seq<Tree>, i: nat, done: seq<Tree>, all: (seq<Tree>, Qht), entries: nat,
                       maxPromille: nat)
    requires i < |kids|
    requires var (rest, table) := UpdateKids(to, kids[i..], entries, maxPromille); all == (done + rest, table)
    ensures var (kid, up) := Update(kids[i], entries, maxPromille);
            var (rest, table) := UpdateKids(Combine(to, up), kids[i + 1..], entries, maxPromille);
            all == (done + [kid] + rest, table)
  {
    assert kids[i..][1..] == kids[i + 1..];
    var (kid, up) := Update(kids[i], entries, maxPromille);
    var (rest, table) := UpdateKids(Combine(to, up), kids[i + 1..], entries, maxPromille);
    assert done + ([kid] + rest) == done + [kid] + rest;
  }

  /** do_global_update below the root: a dirty bucket is cleared and its children are visited in turn. */
  method UpdateTree(t: Tree, entries: nat, maxPromille: nat) returns (t': Tree, up: Table)
    ensures (t', up) == Update(t, entries, maxPromille)
    decreases t, 1
  {
    match t
    case Chain(_, _, _, _) => t', up := UpdateChain(t, entries, maxPromille);
    case Bucket(qht, dirty, kids, spare) =>
      if !dirty {
        return t, None;
      }
      var kids', table := UpdateAll(Blank(entries, spare), kids, entries, maxPromille);
      return Bucket(Some(table), false, kids', spare), Some(table);
  }

  method UpdateAll(blank: Qht, kids: seq<Tree>, entries: nat, maxPromille: nat) returns (kids': seq<Tree>, table: Qht)
    ensures (kids', table) == UpdateKids(blank, kids, entries, maxPromille)
    decreases kids, 0
  {
    kids', table := [], blank;
    ghost var all := UpdateKids(blank, kids, entries, maxPromille);
    assert kids[0..] == kids && [] + all.0 == all.0;
    for i := 0 to |kids|
      invariant var (rest, whole) := UpdateKids(table, kids[i..], entries, maxPromille); all == (kids' + rest, whole)
    {
      UpdateKidsNext(table, kids, i, kids', all, entries, maxPromille);
      var kid, up := UpdateTree(kids[i], entries, maxPromille);
      kids', table := kids' + [kid], Combine(table, up);
    }
    assert kids' + [] == kids';
  }

  /** g2_qht_global_update: the tree from its root. */
  method UpdateFromRoot(t: Tree, entries: nat, maxPromille: nat) returns (t': Tree)
    requires t.Bucket?
    ensures t' == UpdateRoot(t, entries, maxPromille)
  {
    if !t.dirty {
      return t;
    }
    var kids, table := UpdateAll(Blank(entries, t.spare), t.kids, entries, maxPromille);
    return Bucket(Some(Filled(table)), false, kids, t.spare);
  }
}
