/** Dirty marks over whole runs (G2ConRegistry.c): what holds in every state of every interleaving of one updater
    and many markers, and what an update pass achieves. */
module DirtyRuns {
  import opened DirtyMarks

  function Init(): (s: State) {
    State({}, map[], map[], map[], Idle)
  }

  /** A run: each state follows from the one before by an enabled action. */
  ghost predicate IsRun(levels: nat, states: seq<State>, actions: seq<Action>) {
    levels > 0 && |states| == |actions| + 1
    && forall i :: 0 <= i < |actions| ==>
         Placed(levels, states[i]) && Enabled(levels, states[i], actions[i])
         && states[i + 1] == Apply(levels, states[i], actions[i])
  }

  /** Over any interleaving of any number of marking threads with the updater, no dirty mark is lost, and
      a clean chain with no mark on its way is fresh. */
  lemma {:induction false} RunKeeps(levels: nat, states: seq<State>, actions: seq<Action>, i: nat)
    requires IsRun(levels, states, actions) && Inv(levels, states[0]) && i < |states|
    ensures Inv(levels, states[i])
  {
    if i > 0 {
      RunKeeps(levels, states, actions, i - 1);
      StepKeeps(levels, states[i - 1], actions[i - 1]);
    }
  }

  lemma InitHolds(levels: nat)
    ensures Inv(levels, Init())
  {
  }

  /** With nobody at work, a dirty chain that has leaves or a table is dirty all the way up. */
  lemma {:induction false} DirtyToTheRoot(levels: nat, s: State, n: Node, k: nat)
    requires Inv(levels, s) && s.updater.Idle? && s.markers == map[]
    requires Counts(levels, s, n) && IsNode(levels, n) && k < |n|
    ensures n[..k] in s.dirty
    decreases |n| - k
  {
    assert Safe(s, n);
    if k < |n| - 1 {
      var q := Parent(n);
      assert q[..k] == n[..k];
      DirtyToTheRoot(levels, s, q, k);
    }
  }

  predicate UpdaterOnly(a: Action) {
    a.Look? || a.ReadLeaf? || a.Publish?
  }

  /** The root, once cleared, stays clean while only the updater works. */
  lemma {:induction false} RootStaysClean(levels: nat, states: seq<State>, actions: seq<Action>, i: nat)
    requires IsRun(levels, states, actions) && 0 < i < |states| && states[0].updater == Visit([])
    requires forall j :: 0 <= j < |actions| ==> UpdaterOnly(actions[j])
    ensures [] !in states[i].dirty && states[i].markers == states[0].markers && states[i].members == states[0].members
  {
    if i > 1 {
      RootStaysClean(levels, states, actions, i - 1);
    }
    assert UpdaterOnly(actions[i - 1]);
  }

  /** An update pass that nobody interrupts leaves every chain with the table of its leaves, none if it has no leaves,
      and every chain that has leaves clean. */
  lemma PassCleansAll(levels: nat, states: seq<State>, actions: seq<Action>, c: Node)
    requires IsRun(levels, states, actions) && Inv(levels, states[0]) && IsChain(levels, c)
    requires states[0].updater == Visit([]) && states[0].markers == map[]
    requires forall j :: 0 <= j < |actions| ==> UpdaterOnly(actions[j])
    requires states[|actions|].updater.Idle?
    ensures var s := states[|actions|];
            s.members == states[0].members
            && At(s.tables, c) == At(s.members, c) && (At(s.members, c) != map[] ==> c !in s.dirty)
  {
    var s := states[|actions|];
    RunKeeps(levels, states, actions, |actions|);
    RootStaysClean(levels, states, actions, |actions|);
    if Counts(levels, s, c) {
      DirtyToTheRoot(levels, s, c, 0);
      assert false;
    }
    assert Fresh(s, c);
  }
}
