/** Dirty marks in the tree of query hash tables (G2ConRegistry.c): many threads change leaves and mark the
    path to the root from below, while one updater clears marks from above and rebuilds the tables. */
module DirtyMarks {
  import Registry

  /** A node is the way to it from the root; with L levels of buckets, chains have length L. */
  type Node = seq<nat>
  type Leaf = nat
  type Version = nat
  type Id = nat

  predicate IsNode(levels: nat, n: Node) {
    |n| <= levels && forall i :: 0 <= i < |n| ==> n[i] < Registry.LEVEL_SIZE
  }

  predicate IsChain(levels: nat, n: Node) {
    IsNode(levels, n) && |n| == levels
  }

  function Parent(n: Node): (r: Node)
    requires n != []
  {
    n[..|n| - 1]
  }

  function Last(n: Node): (r: nat)
    requires n != []
  {
    n[|n| - 1]
  }

  /** A thread that has changed a leaf and has yet to mark the chain, or that has yet to mark bucket n and
      everything above it. */
  datatype Marker = AtChain(c: Node) | Climbing(n: Node)

  /** The updater: not running, about to look at node p, or reading the leaves of a chain. */
  datatype Updater = Idle | Visit(p: Node) | Scan(c: Node, todo: set<Leaf>, got: map<Leaf, Version>)

  datatype State = State(
    dirty: set<Node>,
    /** The leaves of each chain and the current version of their tables. */
    members: map<Node, map<Leaf, Version>>,
    /** What went into each chain's table. */
    tables: map<Node, map<Leaf, Version>>,
    markers: map<Id, Marker>,
    updater: Updater)

  function At(m: map<Node, map<Leaf, Version>>, c: Node): (r: map<Leaf, Version>) {
    if c in m then m[c] else map[]
  }

  datatype Action =
    | ChangeLeaf(id: Id, c: Node, x: Leaf, v: Version)
    | MarkChain(id: Id)
    | AddLeaf(id: Id, c: Node, x: Leaf, v: Version)
    | RemoveLeaf(id: Id, c: Node, x: Leaf)
    | Climb(id: Id)
    | StartUpdate
    | Look
    | ReadLeaf(x: Leaf)
    | Publish

  predicate Scanning(s: State, c: Node) {
    s.updater.Scan? && s.updater.c == c
  }

  /** Adding and removing leaves needs the chain's lock exclusively, so not while the updater reads it. */
  predicate Enabled(levels: nat, s: State, a: Action) {
    match a
    case ChangeLeaf(id, c, x, _) => id !in s.markers && IsChain(levels, c) && x in At(s.members, c)
    case MarkChain(id) => id in s.markers && s.markers[id].AtChain?
    case AddLeaf(id, c, x, _) => id !in s.markers && IsChain(levels, c) && x !in At(s.members, c) && !Scanning(s, c)
    case RemoveLeaf(id, c, x) => id !in s.markers && IsChain(levels, c) && x in At(s.members, c) && !Scanning(s, c)
    case Climb(id) => id in s.markers && s.markers[id].Climbing?
    case StartUpdate => s.updater.Idle?
    case Look => s.updater.Visit?
    case ReadLeaf(x) => s.updater.Scan? && x in s.updater.todo && x in At(s.members, s.updater.c)
    case Publish => s.updater.Scan? && s.updater.todo == {}
  }

  /** Where the updater goes from node p when it is done with it. */
  function After(p: Node): (u: Updater) {
    if p == [] then Idle
    else if Last(p) + 1 < Registry.LEVEL_SIZE then Visit(Parent(p) + [Last(p) + 1])
    else After(Parent(p))
  }

  /** chain_callback_dirty, chain_callback_add, chain_callback_remove: the chain is marked, its bucket next. */
  function Marked(s: State, id: Id, c: Node): (r: State)
    requires c != []
  {
    s.(dirty := s.dirty + {c}, markers := s.markers[id := Climbing(Parent(c))])
  }

  function Apply(levels: nat, s: State, a: Action): (r: State)
    requires levels > 0 && Placed(levels, s) && Enabled(levels, s, a)
  {
    match a
    case ChangeLeaf(id, c, x, v) =>
      s.(members := s.members[c := At(s.members, c)[x := v]], markers := s.markers[id := AtChain(c)])
    case MarkChain(id) => Marked(s, id, s.markers[id].c)
    case AddLeaf(id, c, x, v) => Marked(s.(members := s.members[c := At(s.members, c)[x := v]]), id, c)
    case RemoveLeaf(id, c, x) => Marked(s.(members := s.members[c := At(s.members, c) - {x}]), id, c)
    case Climb(id) =>
      var n := s.markers[id].n;
      s.(dirty := s.dirty + {n},
         markers := if n == [] then s.markers - {id} else s.markers[id := Climbing(Parent(n))])
    case StartUpdate => s.(updater := Visit([]))
    case Look => Looked(levels, s, s.updater.p)
    case ReadLeaf(x) =>
      var u := s.updater;
      s.(updater := Scan(u.c, u.todo - {x}, u.got[x := At(s.members, u.c)[x]]))
    case Publish => s.(tables := s.tables[s.updater.c := s.updater.got], updater := After(s.updater.c))
  }

  /** do_global_update and do_global_update_chain on arriving at node p. */
  function Looked(levels: nat, s: State, p: Node): (r: State) {
    if |p| < levels then
      if p in s.dirty then s.(dirty := s.dirty - {p}, updater := Visit(p + [0])) else s.(updater := After(p))
    else if At(s.members, p) == map[] then s.(tables := s.tables[p := map[]], updater := After(p))
    else if p in s.dirty then
      s.(dirty := s.dirty - {p}, updater := Scan(p, At(s.members, p).Keys, map[]))
    else s.(updater := After(p))
  }

  // ---------------------------------------------------------------------------------------------
  // Invariant
  // ---------------------------------------------------------------------------------------------

  /** Markers and updater are where they can be. */
  ghost predicate Placed(levels: nat, s: State) {
    (forall n :: n in s.dirty ==> IsNode(levels, n))
    && (forall id :: id in s.markers ==>
          match s.markers[id]
          case AtChain(c) => IsChain(levels, c)
          case Climbing(n) => IsNode(levels, n) && |n| < levels)
    && match s.updater
       case Idle => true
       case Visit(p) => IsNode(levels, p)
       case Scan(c, todo, got) =>
         IsChain(levels, c) && todo <= At(s.members, c).Keys && got.Keys == At(s.members, c).Keys - todo
  }

  /** The updater has cleared the parent of n and will still come to n. */
  ghost predicate Unvisited(u: Updater, n: Node)
    requires n != []
  {
    match u
    case Idle => false
    case Visit(p) => p == n || Behind(p, n)
    case Scan(c, _, _) => Behind(c, n)
  }

  /** n is a later child of one of the buckets on the way to p. */
  ghost predicate Behind(p: Node, n: Node)
    requires n != []
  {
    var q := Parent(n);
    |q| < |p| && p[..|q|] == q && p[|q|] < Last(n)
  }

  /** Chains count only while they have leaves or a table. */
  ghost predicate Counts(levels: nat, s: State, n: Node) {
    n in s.dirty && n != [] && (|n| == levels ==> At(s.members, n) != map[] || At(s.tables, n) != map[])
  }

  ghost predicate ClimbingTo(s: State, n: Node) {
    exists id :: id in s.markers && s.markers[id] == Climbing(n)
  }

  /** The mark on n is not lost: its bucket is marked too, or a marker is about to mark the bucket, or the
      updater has cleared the bucket and will still come to n. */
  ghost predicate Safe(s: State, n: Node)
    requires n != []
  {
    Parent(n) in s.dirty || ClimbingTo(s, Parent(n)) || Unvisited(s.updater, n)
  }

  ghost predicate NothingLost(levels: nat, s: State) {
    forall n :: Counts(levels, s, n) ==> Safe(s, n)
  }

  ghost predicate Pending(s: State, c: Node) {
    exists id :: id in s.markers && s.markers[id] == AtChain(c)
  }

  /** A chain with leaves that is clean, with no mark on its way, has an up-to-date table, or one being
      built from up-to-date leaves; one without leaves that still has a table is marked. */
  ghost predicate Fresh(s: State, c: Node) {
    if At(s.members, c) == map[] then At(s.tables, c) != map[] ==> c in s.dirty
    else
      c !in s.dirty && !Pending(s, c) ==>
        if Scanning(s, c)
        then forall x :: x in s.updater.got ==> x in At(s.members, c) && s.updater.got[x] == At(s.members, c)[x]
        else At(s.tables, c) == At(s.members, c)
  }

  ghost predicate AllFresh(levels: nat, s: State) {
    forall c :: IsChain(levels, c) ==> Fresh(s, c)
  }

  ghost predicate Inv(levels: nat, s: State) {
    Placed(levels, s) && NothingLost(levels, s) && AllFresh(levels, s)
  }

  // ---------------------------------------------------------------------------------------------
  // Every step keeps the invariant
  // ---------------------------------------------------------------------------------------------

  /** Leaving a node, the updater still comes to everything behind it. */
  lemma {:induction false} AfterUnvisited(levels: nat, p: Node, n: Node)
    requires n != [] && IsNode(levels, n) && Behind(p, n)
    ensures Unvisited(After(p), n)
    decreases |p|
  {
    var q := Parent(n);
    if Last(p) + 1 < Registry.LEVEL_SIZE {
      var p' := Parent(p) + [Last(p) + 1];
      if q == Parent(p) {
        if Last(n) == Last(p) + 1 {
          assert n == q + [Last(n)] == p';
        }
      } else {
        assert p'[..|q|] == q && p'[|q|] == p[|q|];
      }
    } else {
      assert Last(n) <= Last(p) && |q| < |p| - 1;
      assert Parent(p)[..|q|] == q;
      AfterUnvisited(levels, Parent(p), n);
    }
  }

  lemma {:induction false} AfterPlaced(levels: nat, p: Node)
    requires IsNode(levels, p)
    ensures !After(p).Scan? && (After(p).Visit? ==> IsNode(levels, After(p).p))
    decreases |p|
  {
    if p != [] {
      AfterPlaced(levels, Parent(p));
    }
  }

  lemma MarkedPlaced(levels: nat, s: State, id: Id, c: Node)
    requires levels > 0 && Placed(levels, s) && IsChain(levels, c)
    ensures Placed(levels, Marked(s, id, c))
  {
  }

  lemma LookPlaced(levels: nat, s: State)
    requires levels > 0 && Placed(levels, s) && s.updater.Visit?
    ensures Placed(levels, Apply(levels, s, Look))
  {
    AfterPlaced(levels, s.updater.p);
  }

  lemma PlacedKept(levels: nat, s: State, a: Action)
    requires levels > 0 && Placed(levels, s) && Enabled(levels, s, a)
    ensures Placed(levels, Apply(levels, s, a))
  {
    match a
    case MarkChain(id) => MarkedPlaced(levels, s, id, s.markers[id].c);
    case AddLeaf(id, c, x, v) =>
      var t := s.(members := s.members[c := At(s.members, c)[x := v]]);
      assert Placed(levels, t);
      MarkedPlaced(levels, t, id, c);
    case RemoveLeaf(id, c, x) =>
      var t := s.(members := s.members[c := At(s.members, c) - {x}]);
      assert Placed(levels, t);
      MarkedPlaced(levels, t, id, c);
    case Look => LookPlaced(levels, s);
    case Publish => AfterPlaced(levels, s.updater.c);
    case ReadLeaf(x) => ReadPlaced(levels, s, x);
    case ChangeLeaf(id, c, x, v) => ChangePlaced(levels, s, id, c, x, v);
    case Climb(id) => ClimbPlaced(levels, s, id);
    case StartUpdate =>
  }

  lemma ReadPlaced(levels: nat, s: State, x: Leaf)
    requires levels > 0 && Placed(levels, s) && Enabled(levels, s, ReadLeaf(x))
    ensures Placed(levels, Apply(levels, s, ReadLeaf(x)))
  {
  }

  lemma ChangePlaced(levels: nat, s: State, id: Id, c: Node, x: Leaf, v: Version)
    requires levels > 0 && Placed(levels, s) && Enabled(levels, s, ChangeLeaf(id, c, x, v))
    ensures Placed(levels, Apply(levels, s, ChangeLeaf(id, c, x, v)))
  {
    assert At(s.members, c)[x := v].Keys == At(s.members, c).Keys;
  }

  lemma ClimbPlaced(levels: nat, s: State, id: Id)
    requires levels > 0 && Placed(levels, s) && Enabled(levels, s, Climb(id))
    ensures Placed(levels, Apply(levels, s, Climb(id)))
  {
  }

  /** A node whose mark was safe stays safe when markers and marks only grow. */
  lemma SafeGrows(s: State, s': State, n: Node)
    requires n != [] && Safe(s, n) && s.dirty <= s'.dirty
    requires Unvisited(s.updater, n) ==> Unvisited(s'.updater, n)
    requires ClimbingTo(s, Parent(n)) ==> ClimbingTo(s', Parent(n)) || Parent(n) in s'.dirty
    ensures Safe(s', n)
  {
  }

  lemma MarkedSafe(levels: nat, s: State, id: Id, c: Node)
    requires c != [] && NothingLost(levels, s) && (id in s.markers ==> s.markers[id].AtChain?)
    ensures NothingLost(levels, Marked(s, id, c))
  {
    var s' := Marked(s, id, c);
    forall n | Counts(levels, s', n) ensures Safe(s', n) {
      if n == c {
        assert s'.markers[id] == Climbing(Parent(c));
      } else {
        assert Counts(levels, s, n);
        ClimbingKept(s, s', id, Parent(n));
        SafeGrows(s, s', n);
      }
    }
  }

  /** Other markers go on climbing. */
  lemma ClimbingKept(s: State, s': State, id: Id, n: Node)
    requires forall j :: j in s.markers && j != id ==> j in s'.markers && s'.markers[j] == s.markers[j]
    requires id in s.markers && s.markers[id] == Climbing(n) ==> n in s'.dirty
    ensures ClimbingTo(s, n) ==> ClimbingTo(s', n) || n in s'.dirty
  {
    if ClimbingTo(s, n) {
      var j :| j in s.markers && s.markers[j] == Climbing(n);
      if j != id {
        assert s'.markers[j] == Climbing(n);
      }
    }
  }

  lemma ClimbSafe(levels: nat, s: State, id: Id)
    requires levels > 0 && Placed(levels, s) && NothingLost(levels, s) && Enabled(levels, s, Climb(id))
    ensures NothingLost(levels, Apply(levels, s, Climb(id)))
  {
    var s', b := Apply(levels, s, Climb(id)), s.markers[id].n;
    forall n | Counts(levels, s', n) ensures Safe(s', n) {
      if n == b {
        assert s'.markers[id] == Climbing(Parent(b));
      } else {
        assert Counts(levels, s, n);
        ClimbingKept(s, s', id, Parent(n));
        SafeGrows(s, s', n);
      }
    }
  }

  /** The updater clears node p and goes on inside it, or leaves it. */
  lemma LookSafe(levels: nat, s: State)
    requires levels > 0 && Placed(levels, s) && NothingLost(levels, s) && s.updater.Visit?
    ensures NothingLost(levels, Apply(levels, s, Look))
  {
    var s', p := Apply(levels, s, Look), s.updater.p;
    forall n | Counts(levels, s', n) ensures Safe(s', n) {
      assert Counts(levels, s, n);
      if Unvisited(s.updater, n) {
        BehindUnvisited(levels, p, n, s'.updater);
      } else if Parent(n) in s.dirty {
        if Parent(n) == p && p !in s'.dirty {
          ClearedUnvisited(levels, p, n);
        }
      }
    }
  }

  /** Every child of a bucket is ahead when the updater enters it. */
  lemma ClearedUnvisited(levels: nat, p: Node, n: Node)
    requires n != [] && Parent(n) == p
    ensures Unvisited(Visit(p + [0]), n)
  {
    if Last(n) == 0 {
      assert n == p + [0];
    }
  }

  /** Wherever the updater goes from node p, into it, to its leaves or past it, what was behind p is still ahead. */
  lemma BehindUnvisited(levels: nat, p: Node, n: Node, u: Updater)
    requires n != [] && IsNode(levels, n) && Behind(p, n)
    requires u == Visit(p + [0]) || (u.Scan? && u.c == p) || u == After(p)
    ensures Unvisited(u, n)
  {
    if u == After(p) {
      AfterUnvisited(levels, p, n);
    } else {
      var q := Parent(n);
      assert (p + [0])[..|q|] == p[..|q|];
    }
  }

  lemma SafeKept(levels: nat, s: State, a: Action)
    requires levels > 0 && Placed(levels, s) && NothingLost(levels, s) && Enabled(levels, s, a)
    ensures NothingLost(levels, Apply(levels, s, a))
  {
    var s' := Apply(levels, s, a);
    match a
    case MarkChain(id) => MarkedSafe(levels, s, id, s.markers[id].c);
    case AddLeaf(id, c, x, v) => AddSafe(levels, s, s.(members := s'.members), id, c);
    case RemoveLeaf(id, c, x) => AddSafe(levels, s, s.(members := s'.members), id, c);
    case Climb(id) => ClimbSafe(levels, s, id);
    case Look => LookSafe(levels, s);
    case ChangeLeaf(id, c, x, v) => OtherSafe(levels, s, s');
    case StartUpdate => OtherSafe(levels, s, s');
    case ReadLeaf(x) => OtherSafe(levels, s, s');
    case Publish => PublishSafe(levels, s);
  }

  /** Only the leaves of chain c differ. */
  ghost predicate OnlyMembers(s: State, t: State, c: Node) {
    t == s.(members := t.members) && forall d: Node :: d != c ==> At(t.members, d) == At(s.members, d)
  }

  lemma AddSafe(levels: nat, s: State, t: State, id: Id, c: Node)
    requires c != [] && NothingLost(levels, s) && id !in s.markers && OnlyMembers(s, t, c)
    ensures NothingLost(levels, Marked(t, id, c))
  {
    var s' := Marked(t, id, c);
    forall n | Counts(levels, s', n) ensures Safe(s', n) {
      if n == c {
        assert s'.markers[id] == Climbing(Parent(c));
      } else {
        assert Counts(levels, s, n);
        ClimbingKept(s, s', id, Parent(n));
        SafeGrows(s, s', n);
      }
    }
  }

  /** Marks stay, no chain gets its first leaf, the markers go on and the updater passes nothing by. */
  ghost predicate Harmless(s: State, s': State) {
    s'.dirty == s.dirty && s'.tables == s.tables
    && (forall c: Node :: At(s'.members, c) != map[] ==> At(s.members, c) != map[])
    && (forall j: Id :: j in s.markers ==> j in s'.markers && s'.markers[j] == s.markers[j])
    && forall n: Node :: n != [] && Unvisited(s.updater, n) ==> Unvisited(s'.updater, n)
  }

  lemma OtherSafe(levels: nat, s: State, s': State)
    requires NothingLost(levels, s) && Harmless(s, s')
    ensures NothingLost(levels, s')
  {
    forall n | Counts(levels, s', n) ensures Safe(s', n) {
      assert Counts(levels, s, n);
      if ClimbingTo(s, Parent(n)) {
        var j :| j in s.markers && s.markers[j] == Climbing(Parent(n));
        assert s'.markers[j] == Climbing(Parent(n));
      }
      SafeGrows(s, s', n);
    }
  }

  lemma PublishSafe(levels: nat, s: State)
    requires levels > 0 && Placed(levels, s) && NothingLost(levels, s) && Enabled(levels, s, Publish)
    ensures NothingLost(levels, Apply(levels, s, Publish))
  {
    var s' := Apply(levels, s, Publish);
    forall n | Counts(levels, s', n) ensures Safe(s', n) {
      assert Counts(levels, s, n);
      if Unvisited(s.updater, n) {
        AfterUnvisited(levels, s.updater.c, n);
      }
    }
  }

  /** Nothing that concerns the chain has changed for the worse. */
  lemma FreshElsewhere(s: State, s': State, c: Node)
    requires Fresh(s, c) && At(s'.members, c) == At(s.members, c) && At(s'.tables, c) == At(s.tables, c)
    requires c in s.dirty ==> c in s'.dirty
    requires Pending(s, c) ==> Pending(s', c) || c in s'.dirty
    requires Scanning(s, c) == Scanning(s', c) && (Scanning(s, c) ==> s'.updater == s.updater)
    ensures Fresh(s', c)
  {
  }

  lemma PendingKept(s: State, s': State, id: Id, c: Node)
    requires forall j :: j in s.markers && j != id ==> j in s'.markers && s'.markers[j] == s.markers[j]
    requires id in s.markers && s.markers[id] == AtChain(c) ==> c in s'.dirty
    ensures Pending(s, c) ==> Pending(s', c) || c in s'.dirty
  {
    if Pending(s, c) {
      var j :| j in s.markers && s.markers[j] == AtChain(c);
      if j != id {
        assert s'.markers[j] == AtChain(c);
      }
    }
  }

  /** A thread's step leaves every chain fresh: one it changes is marked or about to be. */
  lemma ThreadFresh(levels: nat, s: State, a: Action, id: Id, c: Node)
    requires levels > 0 && Placed(levels, s) && Enabled(levels, s, a) && Fresh(s, c)
    requires (a.ChangeLeaf? || a.MarkChain? || a.AddLeaf? || a.RemoveLeaf? || a.Climb?) && a.id == id
    ensures Fresh(Apply(levels, s, a), c)
  {
    var s' := Apply(levels, s, a);
    if (a.AddLeaf? || a.RemoveLeaf?) && a.c == c {
      assert c in s'.dirty;
    } else if a.ChangeLeaf? && a.c == c {
      assert s'.markers[id] == AtChain(c);
    } else {
      PendingKept(s, s', id, c);
      FreshElsewhere(s, s', c);
    }
  }

  /** Looking at a node: a chain that is cleared starts out with nothing read. */
  lemma LookFresh(levels: nat, s: State, c: Node)
    requires levels > 0 && Placed(levels, s) && s.updater.Visit? && Fresh(s, c) && IsChain(levels, c)
    ensures Fresh(Apply(levels, s, Look), c)
  {
    AfterPlaced(levels, s.updater.p);
    if s.updater.p != c {
      LookElsewhere(levels, s, c);
    }
  }

  lemma LookElsewhere(levels: nat, s: State, c: Node)
    requires levels > 0 && Placed(levels, s) && s.updater.Visit? && Fresh(s, c) && IsChain(levels, c)
             && s.updater.p != c
    ensures Fresh(Apply(levels, s, Look), c)
  {
    AfterPlaced(levels, s.updater.p);
    FreshElsewhere(s, Apply(levels, s, Look), c);
  }

  lemma ReadFresh(levels: nat, s: State, x: Leaf, c: Node)
    requires levels > 0 && Placed(levels, s) && Enabled(levels, s, ReadLeaf(x)) && Fresh(s, c)
    ensures Fresh(Apply(levels, s, ReadLeaf(x)), c)
  {
  }

  lemma PublishFresh(levels: nat, s: State, c: Node)
    requires levels > 0 && Placed(levels, s) && Enabled(levels, s, Publish) && Fresh(s, c)
    ensures Fresh(Apply(levels, s, Publish), c)
  {
    var s', u := Apply(levels, s, Publish), s.updater;
    AfterPlaced(levels, u.c);
    if u.c == c {
      if At(s.members, c) != map[] && c !in s.dirty && !Pending(s, c) {
        assert u.got.Keys == At(s.members, c).Keys;
        assert u.got == At(s.members, c);
      }
    } else {
      FreshElsewhere(s, s', c);
    }
  }

  lemma FreshKept(levels: nat, s: State, a: Action)
    requires levels > 0 && Placed(levels, s) && AllFresh(levels, s) && Enabled(levels, s, a)
    ensures AllFresh(levels, Apply(levels, s, a))
  {
    forall c | IsChain(levels, c) ensures Fresh(Apply(levels, s, a), c) {
      match a
      case StartUpdate => FreshElsewhere(s, Apply(levels, s, a), c);
      case Look => LookFresh(levels, s, c);
      case ReadLeaf(x) => ReadFresh(levels, s, x, c);
      case Publish => PublishFresh(levels, s, c);
      case _ => ThreadFresh(levels, s, a, a.id, c);
    }
  }

  lemma StepKeeps(levels: nat, s: State, a: Action)
    requires levels > 0 && Inv(levels, s) && Enabled(levels, s, a)
    ensures Inv(levels, Apply(levels, s, a))
  {
    PlacedKept(levels, s, a);
    SafeKept(levels, s, a);
    FreshKept(levels, s, a);
  }
}
