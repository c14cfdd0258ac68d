/** Query hash tables (G2QHT.c) and the tree they stand in (G2ConRegistry.c). A cleared bit means that something
    with that hash is there; tables are combined by AND. The tables of the tree all have the same number of
    entries, the tables that leaves send have any number. */
module QhtTables {
  import opened Arithmetic
  import opened Buffers
  import opened Options

  /** A table means nothing while a reset is still due. `absent` are the bits in memory from the table's data on:
      they go at least to the end of the byte in which bit number `entries` lies, which is the last byte of the
      table or the one behind it. A table that is kept run-length encoded has its decoded bits here. */
  datatype Qht = Qht(reset: bool, coded: bool, entries: nat, absent: seq<bool>)

  /** Perhaps there is no table. */
  type Table = Option<Qht>

  predicate Reaches(absent: seq<bool>, entries: nat) {
    |absent| >= 8 * (entries / 8 + 1)
  }

  predicate Mapped(t: Table) {
    t.Some? ==> Reaches(t.value.absent, t.value.entries)
  }

  /** The bits in the bytes of a table. */
  function Rounded(entries: nat): (n: nat)
    ensures entries <= n <= 8 * (entries / 8 + 1)
  {
    8 * DivRoundUp(entries, 8)
  }

  predicate Usable(t: Table) {
    t.Some? && !t.value.reset
  }

  /** The table has the hash. */
  predicate Has(t: Table, h: nat) {
    Usable(t) && h < t.value.entries && h < |t.value.absent| && !t.value.absent[h]
  }

  /** Hashes from here on are not looked up: in a plain table those that are greater than the number of entries, in
      an encoded one those behind its last byte. */
  function Limit(q: Qht): (n: nat)
    ensures q.entries <= n
  {
    if q.coded then Rounded(q.entries) else q.entries + 1
  }

  /** A search takes the table to have the hash. */
  predicate Tested(t: Table, h: nat) {
    Usable(t) && h < Limit(t.value) && h < |t.value.absent| && !t.value.absent[h]
  }

  /** For a table of the tree: one that is encoded is not looked at. */
  predicate Passes(t: Table, h: nat) {
    Tested(t, h) && !t.value.coded
  }

  datatype Leaf = Leaf(id: nat, qht: Table, upeer: bool, dismissed: bool, used: nat)

  /** `spare` is what the storage for the node's next table happens to hold. */
  datatype Tree =
    | Chain(qht: Table, dirty: bool, leaves: seq<Leaf>, spare: seq<bool>)
    | Bucket(qht: Table, dirty: bool, kids: seq<Tree>, spare: seq<bool>)

  /** A table of the tree. */
  predicate Standard(t: Table, entries: nat) {
    t.Some? ==> t.value.entries == entries && !t.value.coded && Reaches(t.value.absent, entries)
  }

  predicate Sized(t: Tree, entries: nat) {
    Standard(t.qht, entries) && Reaches(t.spare, entries)
    && match t
       case Chain(_, _, leaves, _) => forall x :: x in leaves ==> Mapped(x.qht)
       case Bucket(_, _, kids, _) => forall k :: k in kids ==> Sized(k, entries)
  }

  /** Chains lie exactly `levels` below the given kids' bucket. */
  predicate Deep(kids: seq<Tree>, levels: nat)
    decreases levels
  {
    levels > 0 && forall k :: k in kids ==> if levels == 1 then k.Chain? else k.Bucket? && Deep(k.kids, levels - 1)
  }

  /** A leaf that searches look at. */
  predicate Searched(x: Leaf, maxPromille: nat) {
    Usable(x.qht) && !x.upeer && !x.dismissed && x.used < maxPromille
  }

  /** The flat test of all hashes against the leaf's own table. */
  predicate Matches(x: Leaf, hs: seq<nat>, maxPromille: nat) {
    Searched(x, maxPromille) && exists h :: h in hs && Has(x.qht, h)
  }

  /** No hash is one that a search would look up although the table does not have that many entries. */
  predicate Clear(t: Table, hs: seq<nat>) {
    t.Some? ==> forall h :: h in hs ==> !(t.value.entries <= h < Limit(t.value))
  }

  /** Where Clear holds the search looks up what the table has. */
  lemma ClearIsExact(t: Table, hs: seq<nat>, h: nat)
    requires Clear(t, hs) && h in hs
    ensures Tested(t, h) <==> Has(t, h)
  {
  }

  // ---------------------------------------------------------------------------------------------
  // Combining tables
  // ---------------------------------------------------------------------------------------------

  /** g2_qht_aggregate and its copies in the registry, over the bytes of the shorter table: a table that is still to
      be reset takes over the other's, any other is combined with it. What the shorter table does not reach stays
      as it was in memory. */
  function Combine(to: Qht, from: Table): (r: Qht)
    ensures r.entries == to.entries && r.coded == to.coded && |r.absent| == |to.absent|
  {
    if !Usable(from) then to
    else
      var n := Min(Min(Rounded(to.entries), Rounded(from.value.entries)), |from.value.absent|);
      to.(reset := false,
          absent := seq(|to.absent|, i requires 0 <= i < |to.absent| =>
            if i < n then from.value.absent[i] && (to.reset || to.absent[i]) else to.absent[i]))
  }

  /** One table has everything the other has, as far as the tables of the tree go. */
  ghost predicate Over(big: Table, small: Table, entries: nat) {
    forall h: nat :: h < entries && Has(small, h) ==> Has(big, h)
  }

  lemma CombineOver(to: Qht, from: Table, entries: nat)
    requires Standard(Some(to), entries) && Mapped(from)
    ensures Standard(Some(Combine(to, from)), entries)
    ensures Over(Some(Combine(to, from)), from, entries) && Over(Some(Combine(to, from)), Some(to), entries)
  {
    var r := Combine(to, from);
    forall h: nat | h < entries && (Has(from, h) || Has(Some(to), h)) ensures Has(Some(r), h) {
      assert h < Rounded(to.entries) <= |to.absent|;
      assert Has(from, h) ==> h < Rounded(from.value.entries);
    }
  }

  /** A bit in the bytes of a usable table is clear. */
  predicate Shows(t: Table, h: nat) {
    Usable(t) && h < Rounded(t.value.entries) && h < |t.value.absent| && !t.value.absent[h]
  }

  /** Below its entries that is what the table has. */
  lemma ShowsIsHas(t: Table, h: nat)
    requires t.Some? ==> h < t.value.entries
    ensures Shows(t, h) <==> Has(t, h)
  {
  }

  /** What a combined table has: within the bytes of the other table what either shows, the table still to be reset
      showing nothing; behind them what its storage held. */
  lemma CombineExact(to: Qht, from: Table, h: nat)
    requires Usable(from) && Mapped(from) && Reaches(to.absent, to.entries) && h < to.entries
    ensures Has(Some(Combine(to, from)), h) <==>
              if h < Rounded(from.value.entries) then Shows(from, h) || Has(Some(to), h) else !to.absent[h]
  {
    assert h < Rounded(to.entries) && Rounded(from.value.entries) <= |from.value.absent|;
  }

  /** So tables of one size come together exactly. */
  lemma CombineSameSize(to: Qht, from: Table, entries: nat, h: nat)
    requires Standard(Some(to), entries) && Standard(from, entries) && h < entries
    ensures Has(Some(Combine(to, from)), h) <==> Has(from, h) || Has(Some(to), h)
  {
    if Usable(from) {
      CombineExact(to, from, h);
      ShowsIsHas(from, h);
    }
  }

  lemma OverTrans(a: Table, b: Table, c: Table, entries: nat)
    requires Over(a, b, entries) && Over(b, c, entries)
    ensures Over(a, c, entries)
  {
  }
}
