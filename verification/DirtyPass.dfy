/** That an update pass over the tree of query hash tables comes to an end (G2ConRegistry.c): the updater visits
    the nodes in the order of their rank. */
module DirtyPass {
  import opened Arithmetic
  import opened DirtyMarks
  import opened DirtyRuns
  import Registry
  import Sets

  ghost function Power(levels: nat): (n: nat)
    ensures n > 0
  {
    if levels == 0 then 1 else (Registry.LEVEL_SIZE + 1) * Power(levels - 1)
  }

  /** Nodes numbered in the order the updater comes to them. */
  ghost function Rank(levels: nat, p: Node): (n: nat)
    decreases levels
  {
    if levels == 0 || p == [] then 0 else (p[0] + 1) * Power(levels - 1) + Rank(levels - 1, p[1..])
  }

  lemma {:induction false} RankBelow(levels: nat, p: Node)
    requires IsNode(levels, p)
    ensures Rank(levels, p) < Power(levels)
    decreases levels
  {
    if p != [] {
      RankBelow(levels - 1, p[1..]);
      Carry(p[0] + 1, Registry.LEVEL_SIZE + 1, Power(levels - 1), Rank(levels - 1, p[1..]));
    }
  }

  lemma {:induction false} RankInside(levels: nat, p: Node)
    requires |p| < levels
    ensures Rank(levels, p) < Rank(levels, p + [0])
    decreases levels
  {
    if p != [] {
      RankInside(levels - 1, p[1..]);
      assert (p + [0])[1..] == p[1..] + [0];
    }
  }

  /** Of two nodes that part at depth k the one with the larger step comes later. */
  lemma {:induction false} RankAcross(levels: nat, p: Node, n: Node, k: nat)
    requires IsNode(levels, p) && IsNode(levels, n) && k < |p| && k < |n| && p[..k] == n[..k] && p[k] < n[k]
    ensures Rank(levels, p) < Rank(levels, n)
    decreases levels
  {
    if k == 0 {
      RankBelow(levels - 1, p[1..]);
      Carry(p[0] + 1, n[0] + 1, Power(levels - 1), Rank(levels - 1, p[1..]));
    } else {
      assert p[0] == p[..k][0] == n[0];
      assert p[1..][..k - 1] == p[..k][1..] && n[1..][..k - 1] == n[..k][1..];
      RankAcross(levels - 1, p[1..], n[1..], k - 1);
    }
  }

  lemma {:induction false} AfterRank(levels: nat, p: Node, top: Node)
    requires IsNode(levels, p) && IsNode(levels, top) && p <= top && After(p).Visit?
    ensures Rank(levels, top) < Rank(levels, After(p).p)
    decreases |p|
  {
    AfterPlaced(levels, p);
    if Last(p) + 1 < Registry.LEVEL_SIZE {
      var k := |p| - 1;
      assert top[..k] == p[..k] == After(p).p[..k];
      RankAcross(levels, top, After(p).p, k);
    } else {
      AfterRank(levels, Parent(p), top);
    }
  }

  ghost function Where(u: Updater): (p: Node)
    requires !u.Idle?
  {
    if u.Visit? then u.p else u.c
  }

  ghost function Ahead(levels: nat, u: Updater): (n: nat)
  {
    if u.Idle? || Rank(levels, Where(u)) >= Power(levels) then 0 else Power(levels) - Rank(levels, Where(u))
  }

  /** The updater's next action, and that it gets on. */
  lemma NextAction(levels: nat, s: State) returns (a: Action)
    requires levels > 0 && Placed(levels, s) && !s.updater.Idle?
    ensures UpdaterOnly(a) && Enabled(levels, s, a)
    ensures var u := Apply(levels, s, a).updater;
            u.Idle? || Ahead(levels, u) < Ahead(levels, s.updater)
            || (Ahead(levels, u) == Ahead(levels, s.updater) && s.updater.Visit? && u.Scan?)
            || (Ahead(levels, u) == Ahead(levels, s.updater) && s.updater.Scan? && u.Scan?
                && |u.todo| < |s.updater.todo|)
  {
    var p := Where(s.updater);
    RankBelow(levels, p);
    AfterPlaced(levels, p);
    if After(p).Visit? {
      AfterRank(levels, p, p);
    }
    if s.updater.Visit? {
      if |p| < levels {
        RankInside(levels, p);
      }
      a := Look;
    } else if s.updater.todo == {} {
      a := Publish;
    } else {
      var x := Sets.Witness(s.updater.todo);
      a := ReadLeaf(x);
    }
  }

  /** From any point of a pass the updater, left alone, comes to the end of it. */
  lemma {:induction false} PassEnds(levels: nat, s: State) returns (states: seq<State>, actions: seq<Action>)
    requires levels > 0 && Placed(levels, s)
    ensures IsRun(levels, states, actions) && states[0] == s && states[|actions|].updater.Idle?
    ensures forall j :: 0 <= j < |actions| ==> UpdaterOnly(actions[j])
    decreases !s.updater.Idle?, Ahead(levels, s.updater), s.updater.Visit?,
              if s.updater.Scan? then |s.updater.todo| else 0
  {
    if s.updater.Idle? {
      return [s], [];
    }
    var a := NextAction(levels, s);
    PlacedKept(levels, s, a);
    states, actions := PassEnds(levels, Apply(levels, s, a));
    states, actions := [s] + states, [a] + actions;
  }
}
