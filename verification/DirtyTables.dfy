/** The clean chains of the marking protocol and the up-to-date chains of the search are the same (G2ConRegistry.c). */
module DirtyTables {
  import opened Options
  import opened QhtTables
  import opened QhtSearch
  import opened QhtUpdate
  import D = DirtyMarks
  import R = DirtyRuns

  /** What a leaf is in a version of its table. */
  type Reading = (D.Leaf, D.Version) -> Leaf

  /** The leaves are those of m, each in the version m has of it. */
  ghost predicate Lists(leaves: seq<Leaf>, m: map<D.Leaf, D.Version>, reading: Reading) {
    forall x :: x in leaves <==> exists k :: k in m && x == reading(k, m[k])
  }

  /** The chain c of the state s: its leaves, and a table aggregated from what the updater last read. */
  ghost predicate Shows(t: Tree, s: D.State, c: D.Node, reading: Reading, read: seq<Leaf>, junk: seq<bool>,
                        entries: nat, maxPromille: nat) {
    t.Chain? && Lists(t.leaves, D.At(s.members, c), reading) && Lists(read, D.At(s.tables, c), reading)
    && Reaches(junk, entries) && (forall x :: x in read ==> Mapped(x.qht))
    && t.qht == Some(Aggregate(Blank(entries, junk), read, maxPromille))
  }

  /** In every state of every run: a chain with leaves that is clean, not being scanned and with no mark on its way is
      up to date, as a search after an update wants it. */
  lemma CleanIsUpToDate(levels: nat, states: seq<D.State>, actions: seq<D.Action>, i: nat, c: D.Node, t: Tree,
                        reading: Reading, read: seq<Leaf>, junk: seq<bool>, entries: nat, maxPromille: nat)
    requires R.IsRun(levels, states, actions) && states[0] == R.Init() && i < |states| && D.IsChain(levels, c)
    requires D.At(states[i].members, c) != map[] && c !in states[i].dirty
    requires !D.Pending(states[i], c) && !D.Scanning(states[i], c)
    requires Shows(t, states[i], c, reading, read, junk, entries, maxPromille)
    ensures UpToDate(t, entries, maxPromille)
  {
    R.InitHolds(levels);
    R.RunKeeps(levels, states, actions, i);
    assert D.Fresh(states[i], c);
    AggregateOver(Blank(entries, junk), read, entries, maxPromille);
    forall x | x in t.leaves && Eligible(x, maxPromille) ensures Over(t.qht, x.qht, entries) {
      assert x in read;
    }
  }
}
