/** The generated packet type table: how G2PacketTyperGenerator.c builds it, and how g2_packet_find_type of
    G2Packet.c looks a name up in it. */
module TypeTable {
  import opened Bits
  import opened Buffers
  import opened Options
  import opened Packets
  import opened Seqs

  /** The two words of a name padded to eight bytes; the type of a name is its place in the list, from 1. */
  datatype Name = Name(w0: nat, w1: nat)

  const PT_UNKNOWN := 0

  /** The fourth character of a name, in the top byte of a little-endian word. */
  function Fourth(w0: nat): (c: nat) {
    w0 / 0x100_0000
  }

  /** Different names of at most seven characters: one without a fourth character has nothing behind it. */
  ghost predicate ValidNames(names: seq<Name>) {
    (forall i, j :: 0 <= i < j < |names| ==> names[i] != names[j])
    && forall i :: 0 <= i < |names| ==> Fourth(names[i].w0) == 0 ==> names[i].w1 == 0
  }

  /** A row of the table: a word, the type or PT_UNKNOWN, and the row to go on with or 0. */
  datatype P = P(start: nat, typ: nat, idx: nat)

  // ---------------------------------------------------------------------------------------------
  // What a table says
  // ---------------------------------------------------------------------------------------------

  /** A base row with the second words and types chained to it. */
  datatype Row = Row(start: nat, typ: nat, chain: seq<(nat, nat)>)

  ghost predicate InRow(row: Row, w0: nat, w1: nat, t: nat) {
    row.start == w0 && if row.typ != PT_UNKNOWN then w1 == 0 && t == row.typ else (w1, t) in row.chain
  }

  ghost predicate In(rows: seq<Row>, w0: nat, w1: nat, t: nat) {
    exists r :: 0 <= r < |rows| && InRow(rows[r], w0, w1, t)
  }

  /** The rows say exactly what the list of names says. */
  ghost predicate Says(rows: seq<Row>, names: seq<Name>) {
    forall w0: nat, w1: nat, t: nat :: In(rows, w0, w1, t) <==> 1 <= t <= |names| && names[t - 1] == Name(w0, w1)
  }

  /** Starting at idx the rows `path` are linked to each other and hold the words and types of `chain`. */
  ghost predicate Linked(f: seq<P>, idx: nat, path: seq<nat>, chain: seq<(nat, nat)>)
    decreases |path|
  {
    if path == [] then idx == 0 && chain == []
    else
      idx == path[0] && 0 < idx < |f| && chain != [] && f[idx].start == chain[0].0 && f[idx].typ == chain[0].1
      && Linked(f, f[idx].idx, path[1..], chain[1..])
  }

  /** The rows of the chains lie behind the base rows, and no row is in two places. */
  ghost predicate Apart(paths: seq<seq<nat>>, base: nat, used: nat) {
    (forall r, x :: 0 <= r < |paths| && x in paths[r] ==> base <= x < used)
    && (forall r :: 0 <= r < |paths| ==> NoRepeats(paths[r]))
    && forall r, q, x :: 0 <= r < |paths| && 0 <= q < |paths| && x in paths[r] && x in paths[q] ==> r == q
  }

  ghost predicate RowIs(f: seq<P>, r: nat, path: seq<nat>, row: Row)
    requires r < |f|
  {
    f[r].start == row.start && f[r].typ == row.typ && Linked(f, f[r].idx, path, row.chain)
  }

  ghost predicate Represents(f: seq<P>, paths: seq<seq<nat>>, rows: seq<Row>) {
    |paths| == |rows| <= |f| && Apart(paths, |rows|, |f|)
    && forall r :: 0 <= r < |rows| ==> RowIs(f, r, paths[r], rows[r])
  }

  /** No two rows point to the same row. */
  ghost predicate OnePointer(f: seq<P>) {
    forall x, y :: 0 <= x < |f| && 0 <= y < |f| && f[x].idx == f[y].idx != 0 ==> x == y
  }

  /** A row has a type of its own or a chain. */
  ghost predicate Proper(rows: seq<Row>) {
    forall r :: 0 <= r < |rows| ==> (rows[r].typ != PT_UNKNOWN <==> rows[r].chain == [])
  }

  /** Rows chain exactly when there is a fourth character. */
  ghost predicate ByFourth(rows: seq<Row>) {
    forall r :: 0 <= r < |rows| ==> (rows[r].typ == PT_UNKNOWN <==> Fourth(rows[r].start) != 0)
  }

  ghost predicate OwnTypes(rows: seq<Row>) {
    forall i, j :: 0 <= i < j < |rows| && rows[i].typ != PT_UNKNOWN ==> rows[i].typ != rows[j].typ
  }

  // ---------------------------------------------------------------------------------------------
  // Chains under renumbering
  // ---------------------------------------------------------------------------------------------

  /** A renumbering of rows; 0 stays 0. */
  function Move(move: nat -> nat, idx: nat): (r: nat) {
    if idx == 0 then 0 else move(idx)
  }

  function Moved(move: nat -> nat, path: seq<nat>): (r: seq<nat>)
    ensures |r| == |path| && forall k :: 0 <= k < |path| ==> r[k] == move(path[k])
  {
    seq(|path|, k requires 0 <= k < |path| => move(path[k]))
  }

  lemma {:induction false} LinkedMoves(f: seq<P>, f': seq<P>, move: nat -> nat, idx: nat, path: seq<nat>,
                                       chain: seq<(nat, nat)>)
    requires Linked(f, idx, path, chain)
    requires forall k :: 0 <= k < |path| ==>
               var x := path[k]; x < |f| && 0 < move(x) < |f'| && f'[move(x)] == f[x].(idx := Move(move, f[x].idx))
    ensures Linked(f', Move(move, idx), Moved(move, path), chain)
    decreases |path|
  {
    if path != [] {
      assert f'[move(path[0])] == f[path[0]].(idx := Move(move, f[path[0]].idx));
      forall k | 0 <= k < |path[1..]|
        ensures var x := path[1..][k];
                x < |f| && 0 < move(x) < |f'| && f'[move(x)] == f[x].(idx := Move(move, f[x].idx))
      {
        assert path[1..][k] == path[k + 1];
      }
      LinkedMoves(f, f', move, f[idx].idx, path[1..], chain[1..]);
      assert Moved(move, path)[1..] == Moved(move, path[1..]);
    }
  }

  lemma {:induction false} LinkedSame(f: seq<P>, f': seq<P>, idx: nat, path: seq<nat>, chain: seq<(nat, nat)>)
    requires Linked(f, idx, path, chain)
    requires forall k :: 0 <= k < |path| ==> path[k] < |f| && path[k] < |f'| && f'[path[k]] == f[path[k]]
    ensures Linked(f', idx, path, chain)
    decreases |path|
  {
    if path != [] {
      assert f'[path[0]] == f[path[0]];
      forall k | 0 <= k < |path[1..]|
        ensures path[1..][k] < |f| && path[1..][k] < |f'| && f'[path[1..][k]] == f[path[1..][k]]
      {
        assert path[1..][k] == path[k + 1];
      }
      LinkedSame(f, f', f[idx].idx, path[1..], chain[1..]);
    }
  }

  lemma {:induction false} LinkedInside(f: seq<P>, idx: nat, path: seq<nat>, chain: seq<(nat, nat)>, k: nat)
    requires Linked(f, idx, path, chain) && k < |path|
    ensures |chain| == |path| && 0 < path[k] < |f|
    ensures f[path[k]].start == chain[k].0 && f[path[k]].typ == chain[k].1
    ensures f[path[k]].idx == if k + 1 < |path| then path[k + 1] else 0
    decreases |path|
  {
    if |path| > 1 {
      LinkedInside(f, f[idx].idx, path[1..], chain[1..], if k > 0 then k - 1 else 0);
    }
  }

  /** Linking the end of one chain to the beginning of another joins them. */
  lemma {:induction false} LinkedJoin(f: seq<P>, idx: nat, path: seq<nat>, chain: seq<(nat, nat)>, idx2: nat,
                                      path2: seq<nat>, chain2: seq<(nat, nat)>, f': seq<P>)
    requires path != [] && Linked(f, idx, path, chain) && Linked(f', idx2, path2, chain2) && |f'| == |f|
    requires forall k :: 0 <= k < |path| ==>
               path[k] < |f| && f'[path[k]] == if k + 1 < |path| then f[path[k]] else f[path[k]].(idx := idx2)
    ensures Linked(f', idx, path + path2, chain + chain2)
    decreases |path|
  {
    assert f'[path[0]] == if 1 < |path| then f[path[0]] else f[path[0]].(idx := idx2);
    assert (path + path2)[1..] == path[1..] + path2 && (chain + chain2)[1..] == chain[1..] + chain2;
    if |path| == 1 {
      assert path[1..] + path2 == path2 && chain[1..] + chain2 == chain2;
    } else {
      forall k | 0 <= k < |path[1..]|
        ensures var x := path[1..][k];
                x < |f| && f'[x] == if k + 1 < |path[1..]| then f[x] else f[x].(idx := idx2)
      {
        assert path[1..][k] == path[k + 1];
      }
      LinkedJoin(f, f[idx].idx, path[1..], chain[1..], idx2, path2, chain2, f');
    }
  }

  // ---------------------------------------------------------------------------------------------
  // Steps of the generator, as far as meaning goes
  // ---------------------------------------------------------------------------------------------

  ghost function RowOf(names: seq<Name>, i: nat): (row: Row)
    requires i < |names|
  {
    var n := names[i];
    if Fourth(n.w0) != 0 then Row(n.w0, PT_UNKNOWN, [(n.w1, i + 1)]) else Row(n.w0, i + 1, [])
  }

  ghost function RowsOf(names: seq<Name>): (rows: seq<Row>)
    ensures |rows| == |names| && forall i :: 0 <= i < |names| ==> rows[i] == RowOf(names, i)
  {
    seq(|names|, i requires 0 <= i < |names| => RowOf(names, i))
  }

  lemma RowsOfSay(names: seq<Name>)
    requires ValidNames(names)
    ensures Says(RowsOf(names), names) && Proper(RowsOf(names)) && ByFourth(RowsOf(names))
  {
    var rows := RowsOf(names);
    forall w0: nat, w1: nat, t: nat | 1 <= t <= |names| && names[t - 1] == Name(w0, w1) ensures In(rows, w0, w1, t) {
      assert InRow(rows[t - 1], w0, w1, t);
    }
  }

  /** order[i] is the row that comes to place i. */
  ghost predicate IsOrder(order: seq<nat>, n: nat) {
    |order| == n && (forall i :: 0 <= i < n ==> order[i] < n)
    && (forall i, j :: 0 <= i < j < n ==> order[i] != order[j])
    && forall r: nat :: r < n ==> r in order
  }

  function Permuted<T>(s: seq<T>, order: seq<nat>): (r: seq<T>)
    requires forall i :: 0 <= i < |order| ==> order[i] < |s|
    ensures |r| == |order| && forall i :: 0 <= i < |order| ==> r[i] == s[order[i]]
  {
    seq(|order|, i requires 0 <= i < |order| => s[order[i]])
  }

  lemma PermutedSays(rows: seq<Row>, names: seq<Name>, order: seq<nat>)
    requires IsOrder(order, |rows|) && Says(rows, names)
    ensures Says(Permuted(rows, order), names)
  {
    forall w0: nat, w1: nat, t: nat ensures In(rows, w0, w1, t) <==> In(Permuted(rows, order), w0, w1, t) {
      if In(rows, w0, w1, t) {
        var r :| 0 <= r < |rows| && InRow(rows[r], w0, w1, t);
        assert r in order;
        var i :| 0 <= i < |order| && order[i] == r;
        assert InRow(Permuted(rows, order)[i], w0, w1, t);
      }
    }
  }

  /** Rows i - 1 and i, which have the same word, made into one. */
  ghost function MergedRows(rows: seq<Row>, i: nat): (r: seq<Row>)
    requires 0 < i < |rows|
  {
    rows[..i - 1] + [Row(rows[i - 1].start, PT_UNKNOWN, rows[i - 1].chain + rows[i].chain)] + rows[i + 1..]
  }

  lemma MergedSays(rows: seq<Row>, names: seq<Name>, i: nat)
    requires 0 < i < |rows| && rows[i - 1].start == rows[i].start
    requires rows[i - 1].typ == rows[i].typ == PT_UNKNOWN && Says(rows, names)
    ensures Says(MergedRows(rows, i), names)
  {
    var rows' := MergedRows(rows, i);
    forall w0: nat, w1: nat, t: nat ensures In(rows, w0, w1, t) <==> In(rows', w0, w1, t) {
      if In(rows, w0, w1, t) {
        var r :| 0 <= r < |rows| && InRow(rows[r], w0, w1, t);
        assert InRow(rows'[if r < i then r else r - 1], w0, w1, t);
      }
      if In(rows', w0, w1, t) {
        var r :| 0 <= r < |rows'| && InRow(rows'[r], w0, w1, t);
        if r != i - 1 {
          assert InRow(rows[if r < i then r else r + 1], w0, w1, t);
        } else if (w1, t) in rows[i - 1].chain {
          assert InRow(rows[i - 1], w0, w1, t);
        } else {
          assert InRow(rows[i], w0, w1, t);
        }
      }
    }
  }

  lemma InlinedSays(rows: seq<Row>, names: seq<Name>, r: nat)
    requires r < |rows| && rows[r].typ == PT_UNKNOWN && |rows[r].chain| == 1 && rows[r].chain[0].0 == 0
    requires rows[r].chain[0].1 != PT_UNKNOWN && Says(rows, names)
    ensures Says(rows[r := Row(rows[r].start, rows[r].chain[0].1, [])], names)
  {
    var rows' := rows[r := Row(rows[r].start, rows[r].chain[0].1, [])];
    forall w0: nat, w1: nat, t: nat ensures In(rows, w0, w1, t) <==> In(rows', w0, w1, t) {
      assert InRow(rows[r], w0, w1, t) <==> InRow(rows'[r], w0, w1, t) by {
        assert rows[r].chain == [rows[r].chain[0]];
      }
      if In(rows, w0, w1, t) {
        var q :| 0 <= q < |rows| && InRow(rows[q], w0, w1, t);
        assert InRow(rows'[q], w0, w1, t);
      }
      if In(rows', w0, w1, t) {
        var q :| 0 <= q < |rows'| && InRow(rows'[q], w0, w1, t);
        assert InRow(rows[q], w0, w1, t);
      }
    }
  }

  /** Two rows with the same word both have chains. */
  lemma SameStartChains(rows: seq<Row>, names: seq<Name>, i: nat, j: nat)
    requires Says(rows, names) && Proper(rows) && ByFourth(rows) && ValidNames(names)
    requires i < j < |rows| && rows[i].start == rows[j].start
    requires OwnTypes(rows)
    ensures rows[i].typ == rows[j].typ == PT_UNKNOWN
  {
    if rows[i].typ != PT_UNKNOWN {
      var w, ti, tj := rows[i].start, rows[i].typ, rows[j].typ;
      assert InRow(rows[i], w, 0, ti) && InRow(rows[j], w, 0, tj);
      assert In(rows, w, 0, ti) && In(rows, w, 0, tj);
    }
  }

  // ---------------------------------------------------------------------------------------------
  // The generator
  // ---------------------------------------------------------------------------------------------

  /** The words are in order; strictly so once there are no duplicates. */
  ghost predicate Ordered(rows: seq<Row>) {
    forall i, j :: 0 <= i < j < |rows| ==> rows[i].start <= rows[j].start
  }

  ghost predicate Strict(rows: seq<Row>, upTo: nat) {
    forall i, j :: 0 <= i < j < |rows| && i < upTo ==> rows[i].start < rows[j].start
  }

  /** The number of rows chained to the first n. */
  ghost function Links(rows: seq<Row>, n: nat): (k: nat)
    requires n <= |rows|
  {
    if n == 0 then 0 else Links(rows, n - 1) + |rows[n - 1].chain|
  }

  lemma {:induction false} LinksSame(rows: seq<Row>, rows': seq<Row>, n: nat)
    requires n <= |rows| && n <= |rows'| && forall i :: 0 <= i < n ==> rows'[i] == rows[i]
    ensures Links(rows', n) == Links(rows, n)
  {
    if n > 0 {
      LinksSame(rows, rows', n - 1);
    }
  }

  lemma {:induction false} LinksUpdated(rows: seq<Row>, r: nat, row: Row, n: nat)
    requires r < n <= |rows|
    ensures Links(rows[r := row], n) == Links(rows, n) - |rows[r].chain| + |row.chain|
    decreases n
  {
    if r == n - 1 {
      LinksSame(rows, rows[r := row], n - 1);
    } else {
      LinksUpdated(rows, r, row, n - 1);
    }
  }

  lemma {:induction false} LinksMerged(rows: seq<Row>, i: nat, n: nat)
    requires 0 < i < n <= |rows|
    ensures Links(MergedRows(rows, i), n - 1) == Links(rows, n)
    decreases n
  {
    if i == n - 1 {
      LinksSame(rows, MergedRows(rows, i), i - 1);
    } else {
      LinksMerged(rows, i, n - 1);
    }
  }

  /** One row less. */
  lemma {:induction false} LinksWithout(all: seq<Row>, p: nat, most: seq<Row>, n: nat)
    requires p < n == |most| + 1 <= |all|
    requires forall i :: 0 <= i < |most| ==> most[i] == all[if i < p then i else i + 1]
    ensures Links(all, n) == Links(most, n - 1) + |all[p].chain|
    decreases n
  {
    if p == n - 1 {
      LinksSame(all, most, n - 1);
    } else {
      LinksWithout(all, p, most[..n - 2], n - 1);
      LinksSame(most, most[..n - 2], n - 2);
    }
  }

  lemma {:induction false} LinksPermuted(rows: seq<Row>, order: seq<nat>, n: nat)
    requires n <= |rows| && IsOrder(order, n)
    ensures Links(Permuted(rows, order), n) == Links(rows, n)
    decreases n
  {
    if n > 0 {
      var p := PlaceOf(order, n, n - 1);
      var others := order[..p] + order[p + 1..];
      OthersAreOrder(order, n, p, others);
      LinksPermuted(rows, others, n - 1);
      PermutedWithout(rows, order, p, others);
    }
  }

  lemma PlaceOf(order: seq<nat>, n: nat, r: nat) returns (p: nat)
    requires IsOrder(order, n) && r < n
    ensures p < n && order[p] == r
  {
    assert r in order;
    p :| 0 <= p < n && order[p] == r;
  }

  lemma PermutedWithout(rows: seq<Row>, order: seq<nat>, p: nat, others: seq<nat>)
    requires p < |order| && (forall i :: 0 <= i < |order| ==> order[i] < |rows|)
    requires others == order[..p] + order[p + 1..] && forall i :: 0 <= i < |others| ==> others[i] < |rows|
    ensures Links(Permuted(rows, order), |order|) == Links(Permuted(rows, others), |others|) + |rows[order[p]].chain|
  {
    var all, most := Permuted(rows, order), Permuted(rows, others);
    forall i | 0 <= i < |others| ensures most[i] == all[if i < p then i else i + 1] {
      assert others[i] == order[if i < p then i else i + 1];
    }
    LinksWithout(all, p, most, |order|);
  }

  lemma OthersAreOrder(order: seq<nat>, n: nat, p: nat, others: seq<nat>)
    requires IsOrder(order, n) && p < n && order[p] == n - 1 && others == order[..p] + order[p + 1..]
    ensures IsOrder(others, n - 1)
  {
    forall r: nat | r < n - 1 ensures r in others {
      assert r in order;
      var i :| 0 <= i < n && order[i] == r;
      assert others[if i < p then i else i - 1] == r;
    }
  }

  /** A base row with nothing but an empty second word behind it. */
  ghost predicate Needless(row: Row) {
    row.typ == PT_UNKNOWN && |row.chain| == 1 && row.chain[0].0 == 0
  }

  /** What every step keeps. */
  ghost predicate Good(f: seq<P>, paths: seq<seq<nat>>, rows: seq<Row>, names: seq<Name>) {
    Represents(f, paths, rows) && OnePointer(f) && Says(rows, names) && Proper(rows) && ValidNames(names)
  }

  lemma {:induction false} RenumberRow(f: seq<P>, f': seq<P>, move: nat -> nat, r: nat, r': nat, path: seq<nat>,
                                       row: Row)
    requires r < |f| && r' < |f'| && RowIs(f, r, path, row) && f'[r'] == f[r].(idx := Move(move, f[r].idx))
    requires forall k :: 0 <= k < |path| ==>
               var x := path[k]; x < |f| && 0 < move(x) < |f'| && f'[move(x)] == f[x].(idx := Move(move, f[x].idx))
    ensures RowIs(f', r', Moved(move, path), row)
  {
    LinkedMoves(f, f', move, f[r].idx, path, row.chain);
  }

  /** The first loop: base rows in front, second words behind. */
  method Fill(names: seq<Name>) returns (f: seq<P>, ghost paths: seq<seq<nat>>)
    requires ValidNames(names)
    ensures Represents(f, paths, RowsOf(names)) && OnePointer(f) && |f| == |names| + Links(RowsOf(names), |names|)
  {
    var n := |names|;
    var base: seq<P>, back: seq<P> := [], [];
    paths := [];
    for i := 0 to n
      invariant Filling(names, i, base, paths, back)
    {
      var name := names[i];
      if Fourth(name.w0) != 0 {
        ChainedRow(names, i, base, paths, back);
        paths := paths + [[n + |back|]];
        base, back := base + [P(name.w0, PT_UNKNOWN, n + |back|)], back + [P(name.w1, i + 1, 0)];
      } else {
        SingleRow(names, i, base, paths, back);
        base, paths := base + [P(name.w0, i + 1, 0)], paths + [[]];
      }
    }
    f := base + back;
    forall r | 0 <= r < n ensures RowIs(f, r, paths[r], RowsOf(names)[r]) {
      assert Filled(names, r, base[r], paths[r], back, n);
      FilledIsRow(names, r, f, paths[r], base, back);
    }
    FilledPointers(names, f, paths, base, back);
  }

  /** The first i names are in the table. */
  ghost predicate Filling(names: seq<Name>, i: nat, base: seq<P>, paths: seq<seq<nat>>, back: seq<P>) {
    i <= |names| && |base| == |paths| == i && Apart(paths, |names|, |names| + |back|)
    && (forall r :: 0 <= r < i ==> Filled(names, r, base[r], paths[r], back, |names|))
    && (forall k :: 0 <= k < |back| ==> back[k].idx == 0) && |back| == Links(RowsOf(names), i)
  }

  lemma ChainedRow(names: seq<Name>, i: nat, base: seq<P>, paths: seq<seq<nat>>, back: seq<P>)
    requires i < |names| && Fourth(names[i].w0) != 0 && Filling(names, i, base, paths, back)
    ensures var n, name := |names|, names[i];
            Filling(names, i + 1, base + [P(name.w0, PT_UNKNOWN, n + |back|)], paths + [[n + |back|]],
                    back + [P(name.w1, i + 1, 0)])
  {
    var n, name := |names|, names[i];
    var base', paths', back' := base + [P(name.w0, PT_UNKNOWN, n + |back|)], paths + [[n + |back|]],
                                back + [P(name.w1, i + 1, 0)];
    forall r | 0 <= r < i + 1 ensures Filled(names, r, base'[r], paths'[r], back', n) {
      if r < i {
        assert Filled(names, r, base[r], paths[r], back, n);
      }
    }
  }

  lemma SingleRow(names: seq<Name>, i: nat, base: seq<P>, paths: seq<seq<nat>>, back: seq<P>)
    requires i < |names| && Fourth(names[i].w0) == 0 && Filling(names, i, base, paths, back)
    ensures Filling(names, i + 1, base + [P(names[i].w0, i + 1, 0)], paths + [[]], back)
  {
    var base', paths' := base + [P(names[i].w0, i + 1, 0)], paths + [[]];
    forall r | 0 <= r < i + 1 ensures Filled(names, r, base'[r], paths'[r], back, |names|) {
      if r < i {
        assert Filled(names, r, base[r], paths[r], back, |names|);
      }
    }
  }

  lemma FilledPointers(names: seq<Name>, f: seq<P>, paths: seq<seq<nat>>, base: seq<P>, back: seq<P>)
    requires |base| == |names| == |paths| && f == base + back && Apart(paths, |base|, |f|)
    requires forall r :: 0 <= r < |names| ==> Filled(names, r, base[r], paths[r], back, |base|)
    requires forall k :: 0 <= k < |back| ==> back[k].idx == 0
    ensures OnePointer(f)
  {
    forall x, y | 0 <= x < |f| && 0 <= y < |f| && f[x].idx == f[y].idx != 0 ensures x == y {
      assert x < |base| && y < |base|;
      assert Filled(names, x, base[x], paths[x], back, |base|) && Filled(names, y, base[y], paths[y], back, |base|);
      assert paths[x][0] in paths[x] && paths[y][0] in paths[y];
    }
  }

  ghost predicate Filled(names: seq<Name>, r: nat, p: P, path: seq<nat>, back: seq<P>, n: nat)
    requires r < |names|
  {
    var name := names[r];
    if Fourth(name.w0) != 0 then
      |path| == 1 && n <= path[0] < n + |back| && p == P(name.w0, PT_UNKNOWN, path[0])
      && back[path[0] - n] == P(name.w1, r + 1, 0)
    else path == [] && p == P(name.w0, r + 1, 0)
  }

  lemma FilledIsRow(names: seq<Name>, r: nat, f: seq<P>, path: seq<nat>, base: seq<P>, back: seq<P>)
    requires r < |names| == |base| && f == base + back && Filled(names, r, base[r], path, back, |base|)
    ensures RowIs(f, r, path, RowOf(names, r))
  {
    if path != [] {
      assert f[path[0]] == back[path[0] - |base|];
      assert Linked(f, 0, path[1..], RowOf(names, r).chain[1..]);
    }
  }

  /** qsort over the base rows, `order` being the order it leaves them in. */
  method Sort(f: seq<P>, order: seq<nat>, ghost paths: seq<seq<nat>>, ghost rows: seq<Row>)
      returns (f': seq<P>, ghost paths': seq<seq<nat>>)
    requires Represents(f, paths, rows) && OnePointer(f) && IsOrder(order, |rows|)
    ensures Represents(f', paths', Permuted(rows, order)) && OnePointer(f')
    ensures |f'| == |f| && Links(Permuted(rows, order), |order|) == Links(rows, |rows|)
  {
    LinksPermuted(rows, order, |rows|);
    f' := Permuted(f, order) + f[|order|..];
    paths' := Permuted(paths, order);
    forall i | 0 <= i < |order| ensures RowIs(f', i, paths'[i], rows[order[i]]) {
      var r := order[i];
      assert RowIs(f, r, paths[r], rows[r]);
      forall k | 0 <= k < |paths[r]|
        ensures paths[r][k] < |f| && paths[r][k] < |f'| && f'[paths[r][k]] == f[paths[r][k]]
      {
        assert paths[r][k] in paths[r];
      }
      LinkedSame(f, f', f[r].idx, paths[r], rows[r].chain);
    }
    PermutedApart(paths, order, |rows|, |f|);
    PermutedPointers(f, order, f');
  }

  lemma PermutedPointers(f: seq<P>, order: seq<nat>, f': seq<P>)
    requires OnePointer(f) && |order| <= |f| && IsOrder(order, |order|) && f' == Permuted(f, order) + f[|order|..]
    ensures OnePointer(f')
  {
    forall x, y | 0 <= x < |f'| && 0 <= y < |f'| && f'[x].idx == f'[y].idx != 0 ensures x == y {
      var x', y' := if x < |order| then order[x] else x, if y < |order| then order[y] else y;
      assert f'[x] == f[x'] && f'[y] == f[y'];
    }
  }

  lemma PermutedApart(paths: seq<seq<nat>>, order: seq<nat>, base: nat, used: nat)
    requires IsOrder(order, |paths|) && Apart(paths, base, used)
    ensures Apart(Permuted(paths, order), base, used)
  {
  }

  function Down(x: nat): (r: nat) {
    if x > 0 then x - 1 else 0
  }

  function AllDown(f: seq<P>): (r: seq<P>)
    ensures |r| == |f| && forall k :: 0 <= k < |f| ==> r[k] == f[k].(idx := Move(Down, f[k].idx))
  {
    seq(|f|, k requires 0 <= k < |f| => f[k].(idx := Move(Down, f[k].idx)))
  }

  /** The last row of a chain. */
  method LastOf(f: seq<P>, idx: nat, ghost path: seq<nat>, ghost chain: seq<(nat, nat)>) returns (j: nat)
    requires path != [] && Linked(f, idx, path, chain)
    ensures j == path[|path| - 1] && j < |f| && f[j].idx == 0
  {
    j := idx;
    ghost var k := 0;
    LinkedInside(f, idx, path, chain, 0);
    while f[j].idx != 0
      invariant 0 <= k < |path| && j == path[k] < |f|
      invariant f[j].idx == if k + 1 < |path| then path[k + 1] else 0
      decreases |path| - k
    {
      j, k := f[j].idx, k + 1;
      LinkedInside(f, idx, path, chain, k);
    }
    if k + 1 < |path| {
      LinkedInside(f, idx, path, chain, k + 1);
    }
  }

  ghost function MovedAll(move: nat -> nat, paths: seq<seq<nat>>): (r: seq<seq<nat>>)
    ensures |r| == |paths| && forall q :: 0 <= q < |paths| ==> r[q] == Moved(move, paths[q])
  {
    seq(|paths|, q requires 0 <= q < |paths| => Moved(move, paths[q]))
  }

  /** The renumbering keeps the rows from base to used apart and puts them between base' and used'. */
  ghost predicate Keeps(move: nat -> nat, paths: seq<seq<nat>>, base': nat, used': nat) {
    (forall r, x :: 0 <= r < |paths| && x in paths[r] ==> base' <= move(x) < used')
    && forall r, q, x, y ::
         0 <= r < |paths| && 0 <= q < |paths| && x in paths[r] && y in paths[q] && move(x) == move(y) ==> x == y
  }

  lemma MovedMember(move: nat -> nat, path: seq<nat>, z: nat) returns (x: nat)
    requires z in Moved(move, path)
    ensures x in path && move(x) == z
  {
    var k :| 0 <= k < |path| && Moved(move, path)[k] == z;
    x := path[k];
  }

  lemma MovedApart(move: nat -> nat, paths: seq<seq<nat>>, base: nat, used: nat, base': nat, used': nat)
    requires Apart(paths, base, used) && Keeps(move, paths, base', used')
    ensures Apart(MovedAll(move, paths), base', used')
  {
    var ps := MovedAll(move, paths);
    forall r, z | 0 <= r < |ps| && z in ps[r] ensures base' <= z < used' {
      var x := MovedMember(move, paths[r], z);
    }
    forall r | 0 <= r < |ps| ensures NoRepeats(ps[r]) {
      forall k, l | 0 <= k < l < |ps[r]| ensures ps[r][k] != ps[r][l] {
        assert paths[r][k] in paths[r] && paths[r][l] in paths[r];
      }
    }
    forall r, q, z | 0 <= r < |ps| && 0 <= q < |ps| && z in ps[r] && z in ps[q] ensures r == q {
      var x := MovedMember(move, paths[r], z);
      var y := MovedMember(move, paths[q], z);
    }
  }

  // Duplicates --------------------------------------------------------------------------------------

  /** The chain of row i handed over to row i - 1. */
  ghost function HandedPaths(paths: seq<seq<nat>>, i: nat): (r: seq<seq<nat>>)
    requires 0 < i < |paths|
  {
    paths[i - 1 := paths[i - 1] + paths[i]][i := []]
  }

  ghost function HandedRows(rows: seq<Row>, i: nat): (r: seq<Row>)
    requires 0 < i < |rows|
  {
    rows[i - 1 := Row(rows[i - 1].start, PT_UNKNOWN, rows[i - 1].chain + rows[i].chain)][i := rows[i].(chain := [])]
  }

  lemma HandedApart(paths: seq<seq<nat>>, i: nat, base: nat, used: nat)
    requires 0 < i < |paths| && Apart(paths, base, used)
    ensures Apart(HandedPaths(paths, i), base, used)
  {
    var p, q := paths[i - 1], paths[i];
    assert NoRepeats(p + q) by {
      forall k, l | 0 <= k < l < |p + q| ensures (p + q)[k] != (p + q)[l] {
        if k < |p| <= l {
          assert p[k] in p && q[l - |p|] in q;
        }
      }
    }
  }

  lemma HandedOver(f: seq<P>, paths: seq<seq<nat>>, rows: seq<Row>, i: nat, j: nat, f1: seq<P>)
    requires Represents(f, paths, rows) && 0 < i < |rows| && paths[i - 1] != [] && j == paths[i - 1][|paths[i - 1]| - 1]
    requires rows[i - 1].typ == PT_UNKNOWN && j < |f| && f1 == f[j := f[j].(idx := f[i].idx)][i := f[i].(idx := 0)]
    ensures Represents(f1, HandedPaths(paths, i), HandedRows(rows, i))
  {
    HandedApart(paths, i, |rows|, |f|);
    assert j in paths[i - 1];
    forall r | 0 <= r < |rows| ensures RowIs(f1, r, HandedPaths(paths, i)[r], HandedRows(rows, i)[r]) {
      HandedRow(f, paths, rows, i, j, f1, r);
    }
  }

  lemma HandedRow(f: seq<P>, paths: seq<seq<nat>>, rows: seq<Row>, i: nat, j: nat, f1: seq<P>, r: nat)
    requires Represents(f, paths, rows) && 0 < i < |rows| && paths[i - 1] != [] && j == paths[i - 1][|paths[i - 1]| - 1]
    requires rows[i - 1].typ == PT_UNKNOWN && j < |f| && f1 == f[j := f[j].(idx := f[i].idx)][i := f[i].(idx := 0)]
    requires r < |rows|
    ensures RowIs(f1, r, HandedPaths(paths, i)[r], HandedRows(rows, i)[r])
  {
    assert j in paths[i - 1];
    assert RowIs(f, r, paths[r], rows[r]) && RowIs(f, i, paths[i], rows[i]);
    if r == i - 1 {
      Untouched(f, f1, paths[i], i, j);
      LinkedSame(f, f1, f[i].idx, paths[i], rows[i].chain);
      forall k | 0 <= k < |paths[r]|
        ensures paths[r][k] < |f| && f1[paths[r][k]] == if k + 1 < |paths[r]| then f[paths[r][k]]
                                                        else f[paths[r][k]].(idx := f[i].idx)
      {
        assert paths[r][k] in paths[r];
        assert NoRepeats(paths[r]);
      }
      LinkedJoin(f, f[r].idx, paths[r], rows[r].chain, f[i].idx, paths[i], rows[i].chain, f1);
    } else if r != i {
      Untouched(f, f1, paths[r], i, j);
      LinkedSame(f, f1, f[r].idx, paths[r], rows[r].chain);
    }
  }

  lemma Untouched(f: seq<P>, f1: seq<P>, path: seq<nat>, i: nat, j: nat)
    requires |f1| == |f| && (forall x :: 0 <= x < |f| && x != i && x != j ==> f1[x] == f[x])
    requires i !in path && j !in path && forall x :: x in path ==> x < |f|
    ensures forall k :: 0 <= k < |path| ==> path[k] < |f| && path[k] < |f1| && f1[path[k]] == f[path[k]]
  {
    forall k | 0 <= k < |path| ensures path[k] < |f| && f1[path[k]] == f[path[k]] {
      assert path[k] in path;
    }
  }

  /** A base row without a chain taken out, all rows behind it moving up. */
  lemma RowRemoved(f: seq<P>, paths: seq<seq<nat>>, rows: seq<Row>, i: nat, f': seq<P>)
    requires Represents(f, paths, rows) && i < |rows| && paths[i] == [] && f' == AllDown(f[..i] + f[i + 1..])
    ensures Represents(f', MovedAll(Down, paths[..i] + paths[i + 1..]), rows[..i] + rows[i + 1..])
  {
    var ps, rs := paths[..i] + paths[i + 1..], rows[..i] + rows[i + 1..];
    RemovedApart(paths, i, |rows|, |f|);
    MovedApart(Down, ps, |rows|, |f|, |rs|, |f'|);
    forall q | 0 <= q < |rs| ensures RowIs(f', q, MovedAll(Down, ps)[q], rs[q]) {
      var r := if q < i then q else q + 1;
      assert ps[q] == paths[r] && rs[q] == rows[r];
      RowMovedUp(f, paths, rows, i, f', r, q);
    }
  }

  lemma RowMovedUp(f: seq<P>, paths: seq<seq<nat>>, rows: seq<Row>, i: nat, f': seq<P>, r: nat, q: nat)
    requires Represents(f, paths, rows) && i < |rows| && f' == AllDown(f[..i] + f[i + 1..])
    requires r < |rows| && r != i && q == if r < i then r else r - 1
    ensures RowIs(f', q, Moved(Down, paths[r]), rows[r])
  {
    assert RowIs(f, r, paths[r], rows[r]);
    forall k | 0 <= k < |paths[r]|
      ensures var x := paths[r][k]; x < |f| && 0 < Down(x) < |f'| && f'[Down(x)] == f[x].(idx := Move(Down, f[x].idx))
    {
      assert paths[r][k] in paths[r];
    }
    RenumberRow(f, f', Down, r, q, paths[r], rows[r]);
  }

  lemma RemovedApart(paths: seq<seq<nat>>, i: nat, base: nat, used: nat)
    requires i < |paths| <= base <= used && Apart(paths, base, used)
    ensures var ps := paths[..i] + paths[i + 1..];
            Apart(ps, base, used) && Keeps(Down, ps, base - 1, used - 1)
  {
  }

  lemma ChainedKeeps(f: seq<P>, paths: seq<seq<nat>>, rows: seq<Row>, names: seq<Name>, i: nat, j: nat, f': seq<P>)
      returns (paths': seq<seq<nat>>)
    requires Good(f, paths, rows, names) && 0 < i < |rows| && rows[i - 1].start == rows[i].start
    requires rows[i - 1].typ == rows[i].typ == PT_UNKNOWN
    requires paths[i - 1] != [] && j == paths[i - 1][|paths[i - 1]| - 1] && j < |f| && f[j].idx == 0
    requires var f1 := f[j := f[j].(idx := f[i].idx)]; f' == AllDown(f1[..i] + f1[i + 1..])
    ensures Good(f', paths', MergedRows(rows, i), names)
  {
    var f1 := f[j := f[j].(idx := f[i].idx)];
    var f2 := f1[i := f[i].(idx := 0)];
    HandedOver(f, paths, rows, i, j, f2);
    assert f1[..i] + f1[i + 1..] == f2[..i] + f2[i + 1..];
    var ps, rs := HandedPaths(paths, i), HandedRows(rows, i);
    RowRemoved(f2, ps, rs, i, f');
    paths' := MovedAll(Down, ps[..i] + ps[i + 1..]);
    assert rs[..i] + rs[i + 1..] == MergedRows(rows, i);
    MergedSays(rows, names, i);
    ChainedPointers(f, i, j, f');
    MergedProper(rows, i);
  }

  lemma MergedProper(rows: seq<Row>, i: nat)
    requires Proper(rows) && 0 < i < |rows| && rows[i - 1].typ == PT_UNKNOWN
    ensures Proper(MergedRows(rows, i))
  {
  }

  lemma ChainedPointers(f: seq<P>, i: nat, j: nat, f': seq<P>)
    requires OnePointer(f) && i < |f| && j < |f| && f[j].idx == 0
    requires var f1 := f[j := f[j].(idx := f[i].idx)]; f' == AllDown(f1[..i] + f1[i + 1..])
    ensures OnePointer(f')
  {
    forall x, y | 0 <= x < |f'| && 0 <= y < |f'| && f'[x].idx == f'[y].idx != 0 ensures x == y {
      var x', y' := if x < i then x else x + 1, if y < i then y else y + 1;
      var x2, y2 := if x' == j then i else x', if y' == j then i else y';
      assert f[x2].idx == f[y2].idx != 0;
    }
  }

  lemma MergedKeeps(rows: seq<Row>, i: nat)
    requires 0 < i < |rows| && rows[i - 1].start == rows[i].start && rows[i - 1].typ == rows[i].typ == PT_UNKNOWN
    requires Shaped(rows, i)
    ensures Shaped(MergedRows(rows, i), i)
  {
  }

  lemma PathOfChain(f: seq<P>, paths: seq<seq<nat>>, rows: seq<Row>, r: nat)
    requires Represents(f, paths, rows) && Proper(rows) && r < |rows|
    ensures Linked(f, f[r].idx, paths[r], rows[r].chain) && (rows[r].typ == PT_UNKNOWN <==> paths[r] != [])
    ensures |paths[r]| == |rows[r].chain|
  {
    assert RowIs(f, r, paths[r], rows[r]);
    if paths[r] != [] {
      LinkedInside(f, f[r].idx, paths[r], rows[r].chain, 0);
    }
  }

  /** Removing duplicates: neighbours with the same word become one row with a longer chain. */
  method ChainDuplicates(f0: seq<P>, ghost paths0: seq<seq<nat>>, ghost rows0: seq<Row>, base0: nat,
                         ghost names: seq<Name>)
      returns (f: seq<P>, ghost paths: seq<seq<nat>>, ghost rows: seq<Row>, base: nat)
    requires Good(f0, paths0, rows0, names) && base0 == |rows0|
    requires ByFourth(rows0) && OwnTypes(rows0) && Ordered(rows0)
    ensures Good(f, paths, rows, names) && base == |rows| && Strict(rows, |rows|) && ByFourth(rows)
    ensures (rows0 != [] ==> rows != []) && base <= base0
    ensures |f| - base == |f0| - base0 && Links(rows, base) == Links(rows0, base0)
  {
    f, paths, rows, base := f0, paths0, rows0, base0;
    var i := 1;
    while i < base
      invariant 1 <= i && base == |rows| <= base0 && (rows0 != [] ==> i <= base)
      invariant Good(f, paths, rows, names) && Shaped(rows, i)
      invariant |f| - base == |f0| - base0 && Links(rows, base) == Links(rows0, base0)
      decreases base - i
    {
      StartsAre(f, paths, rows, i);
      if f[i - 1].start != f[i].start {
        ShapedOn(rows, i);
        i := i + 1;
      } else {
        SameStartChains(rows, names, i - 1, i);
        MergedKeeps(rows, i);
        LinksMerged(rows, i, base);
        f, paths := ChainOne(f, paths, rows, i, names);
        rows, base := MergedRows(rows, i), base - 1;
      }
    }
  }

  /** The rows before i are done. */
  ghost predicate Shaped(rows: seq<Row>, i: nat) {
    i > 0 && ByFourth(rows) && OwnTypes(rows) && Ordered(rows) && Strict(rows, i - 1)
  }

  lemma ShapedOn(rows: seq<Row>, i: nat)
    requires Shaped(rows, i) && i < |rows| && rows[i - 1].start != rows[i].start
    ensures Shaped(rows, i + 1)
  {
  }

  lemma StartsAre(f: seq<P>, paths: seq<seq<nat>>, rows: seq<Row>, i: nat)
    requires Represents(f, paths, rows) && 0 < i < |rows|
    ensures |rows| <= |f| && f[i - 1].start == rows[i - 1].start && f[i].start == rows[i].start
  {
    assert RowIs(f, i - 1, paths[i - 1], rows[i - 1]) && RowIs(f, i, paths[i], rows[i]);
  }

  /** Row i goes into the chain of row i - 1. */
  method ChainOne(f: seq<P>, ghost paths: seq<seq<nat>>, ghost rows: seq<Row>, i: nat, ghost names: seq<Name>)
      returns (f': seq<P>, ghost paths': seq<seq<nat>>)
    requires Good(f, paths, rows, names) && 0 < i < |rows| && rows[i - 1].start == rows[i].start
    requires rows[i - 1].typ == rows[i].typ == PT_UNKNOWN
    ensures Good(f', paths', MergedRows(rows, i), names) && |f'| == |f| - 1
  {
    PathOfChain(f, paths, rows, i - 1);
    var j := LastOf(f, f[i - 1].idx, paths[i - 1], rows[i - 1].chain);
    assert j in paths[i - 1];
    var f1 := f[j := f[j].(idx := f[i].idx)];
    f' := AllDown(f1[..i] + f1[i + 1..]);
    paths' := ChainedKeeps(f, paths, rows, names, i, j, f');
  }

  // Second words that need not be looked at ---------------------------------------------------------

  /** Rows behind row j move up by one. */
  function Behind(j: nat, x: nat): (r: nat) {
    if x > j then x - 1 else x
  }

  /** The renumbering loop: what points at or behind row j points one row up. */
  function BehindDown(f: seq<P>, j: nat): (r: seq<P>)
    ensures |r| == |f|
    ensures forall k :: 0 <= k < |f| ==> r[k] == if f[k].idx < j || f[k].idx == 0 then f[k]
                                                 else f[k].(idx := f[k].idx - 1)
  {
    seq(|f|, k requires 0 <= k < |f| => if f[k].idx < j || f[k].idx == 0 then f[k] else f[k].(idx := f[k].idx - 1))
  }

  lemma BehindKeeps(paths: seq<seq<nat>>, j: nat, move: nat -> nat, base: nat, used: nat)
    requires Apart(paths, base, used) && base <= j < used && forall x: nat :: move(x) == Behind(j, x)
    requires forall r :: 0 <= r < |paths| ==> j !in paths[r]
    ensures Keeps(move, paths, base, used - 1)
  {
  }

  /** A row that belongs to no chain taken out. */
  lemma BackRemoved(f: seq<P>, paths: seq<seq<nat>>, rows: seq<Row>, j: nat, f': seq<P>)
    requires Represents(f, paths, rows) && |rows| <= j < |f| && 0 < j && f' == BehindDown(f[..j] + f[j + 1..], j)
    requires forall r :: 0 <= r < |paths| ==> j !in paths[r]
    ensures Represents(f', MovedAll(x => Behind(j, x), paths), rows)
  {
    var move := (x: nat) => Behind(j, x);
    BehindKeeps(paths, j, move, |rows|, |f|);
    MovedApart(move, paths, |rows|, |f|, |rows|, |f'|);
    forall r | 0 <= r < |rows| ensures RowIs(f', r, MovedAll(move, paths)[r], rows[r]) {
      BackRemovedRow(f, paths, rows, j, f', r, move);
    }
  }

  lemma BackRemovedRow(f: seq<P>, paths: seq<seq<nat>>, rows: seq<Row>, j: nat, f': seq<P>, r: nat, move: nat -> nat)
    requires Represents(f, paths, rows) && |rows| <= j < |f| && 0 < j && f' == BehindDown(f[..j] + f[j + 1..], j)
    requires r < |rows| && j !in paths[r] && forall x: nat :: move(x) == Behind(j, x)
    ensures RowIs(f', r, Moved(move, paths[r]), rows[r])
  {
    assert RowIs(f, r, paths[r], rows[r]);
    var path := paths[r];
    if path != [] {
      assert path[0] in path;
    }
    forall k | 0 <= k < |path|
      ensures var x := path[k]; x < |f| && 0 < move(x) < |f'| && f'[move(x)] == f[x].(idx := Move(move, f[x].idx))
    {
      assert path[k] in path;
      LinkedInside(f, f[r].idx, path, rows[r].chain, k);
      if k + 1 < |path| {
        assert path[k + 1] in path;
      }
    }
    RenumberRow(f, f', move, r, r, path, rows[r]);
  }

  lemma ChainTypes(rows: seq<Row>, names: seq<Name>, r: nat)
    requires Says(rows, names) && r < |rows| && rows[r].typ == PT_UNKNOWN && rows[r].chain != []
    ensures rows[r].chain[0].1 != PT_UNKNOWN
  {
    var c := rows[r].chain[0];
    assert InRow(rows[r], rows[r].start, c.0, c.1);
    assert In(rows, rows[r].start, c.0, c.1);
  }

  /** One turn of the second loop: a chain of one row with an empty second word goes into the base row. */
  lemma InlinedKeeps(f: seq<P>, paths: seq<seq<nat>>, rows: seq<Row>, names: seq<Name>, r: nat, j: nat, f': seq<P>)
      returns (paths': seq<seq<nat>>, rows': seq<Row>)
    requires Good(f, paths, rows, names) && r < |rows| && rows[r].typ == PT_UNKNOWN
    requires j == f[r].idx && 0 < j < |f| && f[j].start == 0 && f[j].idx == 0
    requires var f1 := f[r := P(f[r].start, f[j].typ, 0)]; f' == BehindDown(f1[..j] + f1[j + 1..], j)
    ensures Good(f', paths', rows', names)
    ensures |rows'| == |rows| && rows' == rows[r := rows'[r]] && rows'[r].start == rows[r].start
    ensures rows'[r].typ != PT_UNKNOWN && Links(rows', |rows|) == Links(rows, |rows|) - 1 && |f'| == |f| - 1
  {
    PathOfChain(f, paths, rows, r);
    LinkedInside(f, f[r].idx, paths[r], rows[r].chain, 0);
    var path := paths[r];
    assert path[0] == j && j in path;
    assert |path| == 1 by {
      assert forall k :: 0 <= k < |path| ==> path[k] in path;
    }
    ChainTypes(rows, names, r);
    rows' := rows[r := Row(rows[r].start, rows[r].chain[0].1, [])];
    InlinedSays(rows, names, r);
    LinksUpdated(rows, r, rows'[r], |rows|);
    var f1, ps := f[r := P(f[r].start, f[j].typ, 0)], paths[r := []];
    ClearedRow(f, paths, rows, r, f1, rows');
    forall q | 0 <= q < |ps| ensures j !in ps[q] {
    }
    BackRemoved(f1, ps, rows', j, f');
    paths' := MovedAll(x => Behind(j, x), ps);
    InlinedPointers(f, r, j, f1, f');
  }

  lemma InlinedPointers(f: seq<P>, r: nat, j: nat, f1: seq<P>, f': seq<P>)
    requires OnePointer(f) && r < |f| && j == f[r].idx && 0 < j < |f| && f1 == f[r := P(f[r].start, f[j].typ, 0)]
    requires f' == BehindDown(f1[..j] + f1[j + 1..], j)
    ensures OnePointer(f')
  {
    forall x, y | 0 <= x < |f'| && 0 <= y < |f'| && f'[x].idx == f'[y].idx != 0 ensures x == y {
      var x', y' := if x < j then x else x + 1, if y < j then y else y + 1;
      assert x' != r && y' != r && f[x'].idx != j && f[y'].idx != j;
      assert f[x'].idx == f[y'].idx;
    }
  }

  lemma ClearedRow(f: seq<P>, paths: seq<seq<nat>>, rows: seq<Row>, r: nat, f1: seq<P>, rows': seq<Row>)
    requires Represents(f, paths, rows) && r < |rows| == |rows'| && f1 == f[r := P(rows[r].start, rows'[r].typ, 0)]
    requires rows' == rows[r := Row(rows[r].start, rows'[r].typ, [])]
    ensures Represents(f1, paths[r := []], rows')
  {
    var ps := paths[r := []];
    forall q | 0 <= q < |rows| ensures RowIs(f1, q, ps[q], rows'[q]) {
      if q != r {
        assert RowIs(f, q, paths[q], rows[q]);
        forall k | 0 <= k < |paths[q]| ensures paths[q][k] < |f| && f1[paths[q][k]] == f[paths[q][k]] {
          assert paths[q][k] in paths[q];
        }
        LinkedSame(f, f1, f[q].idx, paths[q], rows[q].chain);
      }
    }
  }

  /** One base row: its chain goes if it is not needed. */
  method InlineOne(f: seq<P>, ghost paths: seq<seq<nat>>, ghost rows: seq<Row>, r: nat, ghost names: seq<Name>)
      returns (f': seq<P>, ghost paths': seq<seq<nat>>, ghost rows': seq<Row>)
    requires Good(f, paths, rows, names) && r < |rows| && Strict(rows, |rows|)
    requires rows[r].typ == PT_UNKNOWN <==> Fourth(rows[r].start) != 0
    ensures Good(f', paths', rows', names) && |rows'| == |rows| && Strict(rows', |rows|) && !Needless(rows'[r])
    ensures |f'| - Links(rows', |rows|) == |f| - Links(rows, |rows|)
    ensures forall q :: 0 <= q < |rows| && q != r ==> rows'[q] == rows[q]
  {
    f', paths', rows' := f, paths, rows;
    assert RowIs(f, r, paths[r], rows[r]);
    if Fourth(f[r].start) != 0 {
      var j := f[r].idx;
      PathOfChain(f, paths, rows, r);
      LinkedInside(f, f[r].idx, paths[r], rows[r].chain, 0);
      if f[j].start == 0 && f[j].idx == 0 {
        var f1 := f[r := P(f[r].start, f[j].typ, 0)];
        f' := BehindDown(f1[..j] + f1[j + 1..], j);
        paths', rows' := InlinedKeeps(f, paths, rows, names, r, j, f');
      }
    }
  }

  /** Chains that are not needed go, but the loop stops before the last base row. */
  method Inline(f0: seq<P>, ghost paths0: seq<seq<nat>>, ghost rows0: seq<Row>, base: nat, ghost names: seq<Name>)
      returns (f: seq<P>, ghost paths: seq<seq<nat>>, ghost rows: seq<Row>)
    requires Good(f0, paths0, rows0, names) && base == |rows0| && Strict(rows0, |rows0|) && ByFourth(rows0)
    ensures Good(f, paths, rows, names) && base == |rows| && Strict(rows, |rows|)
    ensures |f| - Links(rows, base) == |f0| - Links(rows0, base)
    ensures forall q :: 0 <= q < base - 1 ==> !Needless(rows[q])
  {
    f, paths, rows := f0, paths0, rows0;
    var i := 1;
    while i < base
      invariant 1 <= i && Good(f, paths, rows, names) && base == |rows| && Strict(rows, |rows|)
      invariant forall q :: i - 1 <= q < base ==> (rows[q].typ == PT_UNKNOWN <==> Fourth(rows[q].start) != 0)
      invariant |f| - Links(rows, base) == |f0| - Links(rows0, base)
      invariant forall q :: 0 <= q < i - 1 && q < base ==> !Needless(rows[q])
    {
      f, paths, rows := InlineOne(f, paths, rows, i - 1, names);
      i := i + 1;
    }
  }

  // The second tier in order ------------------------------------------------------------------------

  function Swap(a: nat, b: nat, x: nat): (r: nat) {
    if x == a then b else if x == b then a else x
  }

  /** Rows a and b exchanged, and everything that points to them adjusted. */
  function Transposed(f: seq<P>, a: nat, b: nat): (r: seq<P>)
    requires a < |f| && b < |f| && a > 0 && b > 0
    ensures |r| == |f|
    ensures forall x :: 0 <= x < |f| ==> r[x] == (var y := f[Swap(a, b, x)]; y.(idx := Swap(a, b, y.idx)))
  {
    seq(|f|, x requires 0 <= x < |f| => (var y := f[Swap(a, b, x)]; y.(idx := Swap(a, b, y.idx))))
  }

  /** The exchange as it is done: swap the rows, turn the one pointer to b round to a, and point row p, which
      pointed to a, to b. */
  method Exchange(f: seq<P>, p: nat, b: nat) returns (f': seq<P>)
    requires OnePointer(f) && p < b < |f| && b <= f[p].idx < |f| && 0 < b
    ensures f' == Transposed(f, f[p].idx, b)
  {
    var a := f[p].idx;
    if a == b {
      assert f == Transposed(f, a, b);
      return f;
    }
    f' := f[b := f[a]][a := f[b]];
    var j := 0;
    while j < |f'| && f'[j].idx != b
      invariant 0 <= j <= |f'| && forall x :: 0 <= x < j ==> f'[x].idx != b
    {
      j := j + 1;
    }
    ghost var swapped := f';
    assert forall x :: 0 <= x < |f| ==> swapped[x] == f[Swap(a, b, x)];
    if j < |f'| {
      f' := f'[j := f'[j].(idx := a)];
    }
    f' := f'[p := f'[p].(idx := b)];
    ExchangeIs(f, a, b, p, j, swapped, f');
  }

  lemma ExchangeIs(f: seq<P>, a: nat, b: nat, p: nat, j: nat, swapped: seq<P>, f': seq<P>)
    requires OnePointer(f) && p < b < |f| && a == f[p].idx && b < a < |f| && |swapped| == |f| && 0 < b
    requires forall x :: 0 <= x < |f| ==> swapped[x] == f[Swap(a, b, x)]
    requires j <= |f| && (forall x :: 0 <= x < j ==> swapped[x].idx != b) && (j < |f| ==> swapped[j].idx == b)
    requires var f1 := if j < |f| then swapped[j := swapped[j].(idx := a)] else swapped;
             f' == f1[p := f1[p].(idx := b)]
    ensures f' == Transposed(f, a, b)
  {
    var t := Transposed(f, a, b);
    forall x | 0 <= x < |f| ensures f'[x] == t[x] {
      assert swapped[x] == f[Swap(a, b, x)];
      assert swapped[x].idx == b && j < |f| ==> f[Swap(a, b, x)].idx == f[Swap(a, b, j)].idx;
      assert swapped[x].idx == a ==> f[Swap(a, b, x)].idx == f[p].idx;
    }
  }

  lemma SwapKeeps(paths: seq<seq<nat>>, a: nat, b: nat, move: nat -> nat, base: nat, used: nat)
    requires Apart(paths, base, used) && base <= a < used && base <= b < used
             && forall x: nat :: move(x) == Swap(a, b, x)
    ensures Keeps(move, paths, base, used)
  {
  }

  lemma TransposedOnePointer(f: seq<P>, a: nat, b: nat)
    requires OnePointer(f) && 0 < a < |f| && 0 < b < |f|
    ensures OnePointer(Transposed(f, a, b))
  {
    var t := Transposed(f, a, b);
    forall x, y | 0 <= x < |f| && 0 <= y < |f| && t[x].idx == t[y].idx != 0 ensures x == y {
      assert f[Swap(a, b, x)].idx == f[Swap(a, b, y)].idx;
    }
  }

  lemma TransposedRow(f: seq<P>, paths: seq<seq<nat>>, rows: seq<Row>, a: nat, b: nat, r: nat, move: nat -> nat)
    requires Represents(f, paths, rows) && |rows| <= a < |f| && |rows| <= b < |f| && r < |rows|
    requires forall x: nat :: move(x) == Swap(a, b, x)
    ensures RowIs(Transposed(f, a, b), r, Moved(move, paths[r]), rows[r])
  {
    var t, path := Transposed(f, a, b), paths[r];
    assert RowIs(f, r, path, rows[r]);
    forall k | 0 <= k < |path|
      ensures var x := path[k]; x < |f| && 0 < move(x) < |t| && t[move(x)] == f[x].(idx := Move(move, f[x].idx))
    {
      assert path[k] in path;
    }
    RenumberRow(f, t, move, r, r, path, rows[r]);
  }

  lemma TransposedRepresents(f: seq<P>, paths: seq<seq<nat>>, rows: seq<Row>, a: nat, b: nat)
    requires Represents(f, paths, rows) && |rows| <= a < |f| && |rows| <= b < |f| && rows != []
    ensures Represents(Transposed(f, a, b), MovedAll(x => Swap(a, b, x), paths), rows)
  {
    var move := (x: nat) => Swap(a, b, x);
    SwapKeeps(paths, a, b, move, |rows|, |f|);
    MovedApart(move, paths, |rows|, |f|, |rows|, |f|);
    forall r | 0 <= r < |rows| ensures RowIs(Transposed(f, a, b), r, MovedAll(move, paths)[r], rows[r]) {
      TransposedRow(f, paths, rows, a, b, r, move);
    }
  }

  /** The number of chained rows of the first q base rows. */
  ghost function Total(paths: seq<seq<nat>>, q: nat): (n: nat)
    requires q <= |paths|
  {
    if q == 0 then 0 else Total(paths, q - 1) + |paths[q - 1]|
  }

  lemma {:induction false} TotalMoved(move: nat -> nat, paths: seq<seq<nat>>, q: nat)
    requires q <= |paths|
    ensures Total(MovedAll(move, paths), q) == Total(paths, q)
  {
    if q > 0 {
      TotalMoved(move, paths, q - 1);
    }
  }

  /** Whether element l of chain q is where it should be once k rows of chain i have been laid. */
  ghost predicate Lies(paths: seq<seq<nat>>, base: nat, i: nat, k: nat, q: nat, l: nat)
    requires q < |paths| && l < |paths[q]| && i <= |paths|
  {
    if q < i || (q == i && l < k) then paths[q][l] == base + Total(paths, q) + l
    else base + Total(paths, i) + k <= paths[q][l]
  }

  /** The chains of the base rows before i, and k rows of the chain of row i, follow each other from base on;
      all others lie behind them. */
  ghost predicate Laid(paths: seq<seq<nat>>, base: nat, i: nat, k: nat) {
    i <= |paths| && (i < |paths| ==> k <= |paths[i]|) && (i == |paths| ==> k == 0)
    && forall q: nat, l: nat {:trigger Lies(paths, base, i, k, q, l)} ::
         q < |paths| && l < |paths[q]| ==> Lies(paths, base, i, k, q, l)
  }

  lemma LaidOne(paths: seq<seq<nat>>, base: nat, used: nat, i: nat, k: nat, b: nat, move: nat -> nat, q: nat, l: nat,
                ps: seq<seq<nat>>, next: nat)
    requires Laid(paths, base, i, k) && i < |paths| && k < |paths[i]| && Apart(paths, base, used)
    requires b == base + Total(paths, i) + k && (forall x: nat :: move(x) == Swap(paths[i][k], b, x))
    requires q < |paths| && l < |paths[q]| && ps == MovedAll(move, paths) && next == k + 1
    ensures Lies(ps, base, i, next, q, l)
  {
    var a, x := paths[i][k], paths[q][l];
    assert Lies(paths, base, i, k, i, k);
    TotalMoved(move, paths, i);
    TotalMoved(move, paths, q);
    assert ps[q][l] == move(x) == Swap(a, b, x);
    if q < i || (q == i && l < k) {
      LaidBefore(paths, base, i, k, b, q, l);
    } else if q != i || l != k {
      LaidBehind(paths, base, used, i, k, q, l);
    }
  }

  /** The rows that are laid lie before the next place. */
  lemma LaidBefore(paths: seq<seq<nat>>, base: nat, i: nat, k: nat, b: nat, q: nat, l: nat)
    requires Laid(paths, base, i, k) && i < |paths| && k < |paths[i]| && b == base + Total(paths, i) + k
    requires q < |paths| && l < |paths[q]| && (q < i || (q == i && l < k))
    ensures paths[q][l] == base + Total(paths, q) + l < b
  {
    assert Lies(paths, base, i, k, q, l);
    if q < i {
      TotalGrows(paths, q + 1, i);
    }
  }

  /** The others at it or behind it, and none where the next one is now. */
  lemma LaidBehind(paths: seq<seq<nat>>, base: nat, used: nat, i: nat, k: nat, q: nat, l: nat)
    requires Laid(paths, base, i, k) && i < |paths| && k < |paths[i]| && Apart(paths, base, used)
    requires q < |paths| && l < |paths[q]| && !(q < i || (q == i && l <= k))
    ensures base + Total(paths, i) + k <= paths[q][l] != paths[i][k]
  {
    assert Lies(paths, base, i, k, q, l);
    assert paths[q][l] in paths[q] && paths[i][k] in paths[i] && NoRepeats(paths[i]);
  }

  lemma LaidNext(paths: seq<seq<nat>>, base: nat, used: nat, i: nat, k: nat, b: nat, move: nat -> nat,
                 ps: seq<seq<nat>>)
    requires Laid(paths, base, i, k) && i < |paths| && k < |paths[i]| && Apart(paths, base, used)
    requires b == base + Total(paths, i) + k && (forall x: nat :: move(x) == Swap(paths[i][k], b, x))
    requires ps == MovedAll(move, paths)
    ensures Laid(ps, base, i, k + 1)
  {
    var next := k + 1;
    forall q: nat, l: nat | q < |ps| && l < |ps[q]| ensures Lies(ps, base, i, next, q, l) {
      LaidOne(paths, base, used, i, k, b, move, q, l, ps, next);
    }
  }

  lemma {:induction false} TotalGrows(paths: seq<seq<nat>>, q: nat, i: nat)
    requires q <= |paths| && i <= |paths|
    ensures q <= i ==> Total(paths, q) <= Total(paths, i)
    decreases i
  {
    if q < i {
      TotalGrows(paths, q, i - 1);
    }
  }

  lemma LaidRow(paths: seq<seq<nat>>, base: nat, i: nat)
    requires i < |paths| && Laid(paths, base, i, |paths[i]|)
    ensures Laid(paths, base, i + 1, 0)
  {
    var next := i + 1;
    forall q: nat, l: nat | q < |paths| && l < |paths[q]| ensures Lies(paths, base, next, 0, q, l) {
      assert Lies(paths, base, i, |paths[i]|, q, l);
    }
  }

  /** What the last loop keeps. */
  ghost predicate Laying(f: seq<P>, paths: seq<seq<nat>>, rows: seq<Row>, i: nat, k: nat, back: nat) {
    Represents(f, paths, rows) && OnePointer(f) && Laid(paths, |rows|, i, k) && rows != []
    && back == |rows| + Total(paths, i) + k
  }

  /** One row of a chain moved to its place. */
  method LayOne(f: seq<P>, p: nat, back: nat, ghost paths: seq<seq<nat>>, ghost rows: seq<Row>, ghost i: nat,
                ghost k: nat)
      returns (f': seq<P>, ghost paths': seq<seq<nat>>)
    requires Laying(f, paths, rows, i, k, back) && i < |rows| && k < |paths[i]|
    requires p == (if k == 0 then i else paths[i][k - 1]) && p < |f|
    ensures Laying(f', paths', rows, i, k + 1, back + 1) && |paths'[i]| == |paths[i]|
    ensures paths'[i][k] == back < |f'| == |f| && f'[p].idx == back
  {
    ghost var a := paths[i][k];
    assert RowIs(f, i, paths[i], rows[i]);
    LinkedInside(f, f[i].idx, paths[i], rows[i].chain, k);
    if k > 0 {
      LinkedInside(f, f[i].idx, paths[i], rows[i].chain, k - 1);
      assert Lies(paths, |rows|, i, k, i, k - 1);
    }
    assert f[p].idx == a;
    ghost var move := (x: nat) => Swap(a, back, x);
    paths' := MovedAll(move, paths);
    assert a in paths[i] && Lies(paths, |rows|, i, k, i, k);
    LaidNext(paths, |rows|, |f|, i, k, back, move, paths');
    f' := Exchange(f, p, back);
    TransposedRepresents(f, paths, rows, a, back);
    TransposedOnePointer(f, a, back);
    TotalMoved(move, paths, i);
    assert paths' == MovedAll(x => Swap(a, back, x), paths);
  }

  /** The last loop: chain by chain, the second tier is brought into the order of the base rows. */
  method Reorder(f0: seq<P>, ghost paths0: seq<seq<nat>>, ghost rows: seq<Row>, base: nat)
      returns (f: seq<P>, ghost paths: seq<seq<nat>>)
    requires Represents(f0, paths0, rows) && OnePointer(f0) && base == |rows| > 0
    ensures Represents(f, paths, rows) && OnePointer(f) && Laid(paths, base, base, 0) && |f| == |f0|
  {
    f, paths := f0, paths0;
    var back, i := base, 0;
    LaidStart(paths, base, |f|);
    while i < base
      invariant 0 <= i <= base && Laying(f, paths, rows, i, 0, back) && |f| == |f0|
    {
      f, paths, back := LayChain(f, i, back, paths, rows);
      i := i + 1;
    }
  }

  lemma LaidStart(paths: seq<seq<nat>>, base: nat, used: nat)
    requires Apart(paths, base, used) && |paths| > 0
    ensures Laid(paths, base, 0, 0)
  {
    forall q: nat, l: nat | q < |paths| && l < |paths[q]| ensures Lies(paths, base, 0, 0, q, l) {
      assert paths[q][l] in paths[q];
    }
  }

  method LayChain(f0: seq<P>, i: nat, back0: nat, ghost paths0: seq<seq<nat>>, ghost rows: seq<Row>)
      returns (f: seq<P>, ghost paths: seq<seq<nat>>, back: nat)
    requires Laying(f0, paths0, rows, i, 0, back0) && i < |rows|
    ensures Laying(f, paths, rows, i + 1, 0, back) && |f| == |f0|
  {
    f, paths, back := f0, paths0, back0;
    var p := i;
    ghost var k, left := 0, |paths0[i]|;
    PointsOn(f, paths, rows, i, 0, p);
    while f[p].idx != 0
      invariant At(f, paths, rows, i, k, back, p) && left == |paths[i]| - k && |f| == |f0|
      decreases left
    {
      f, paths, p := LayNext(f, p, back, paths, rows, i, k);
      back, k, left := back + 1, k + 1, left - 1;
    }
    EndOfChain(f, paths, rows, i, k, back, p);
  }

  /** One turn of the loop along a chain. */
  method LayNext(f: seq<P>, p: nat, back: nat, ghost paths: seq<seq<nat>>, ghost rows: seq<Row>, ghost i: nat,
                 ghost k: nat)
      returns (f': seq<P>, ghost paths': seq<seq<nat>>, p': nat)
    requires At(f, paths, rows, i, k, back, p) && f[p].idx != 0
    ensures At(f', paths', rows, i, k + 1, back + 1, p') && |paths'[i]| == |paths[i]| && |f'| == |f|
  {
    f', paths' := LayOne(f, p, back, paths, rows, i, k);
    p' := f'[p].idx;
    PointsOn(f', paths', rows, i, k + 1, p');
  }

  /** Row p is the last one laid of chain i, or the base row itself, and points on. */
  ghost predicate At(f: seq<P>, paths: seq<seq<nat>>, rows: seq<Row>, i: nat, k: nat, back: nat, p: nat) {
    Laying(f, paths, rows, i, k, back) && i < |rows| && k <= |paths[i]|
    && p == (if k == 0 then i else paths[i][k - 1]) && p < |f|
    && f[p].idx == if k < |paths[i]| then paths[i][k] else 0
  }

  lemma EndOfChain(f: seq<P>, paths: seq<seq<nat>>, rows: seq<Row>, i: nat, k: nat, back: nat, p: nat)
    requires At(f, paths, rows, i, k, back, p) && f[p].idx == 0
    ensures Laying(f, paths, rows, i + 1, 0, back)
  {
    assert forall l :: 0 <= l < |paths[i]| ==> paths[i][l] in paths[i];
    LaidRow(paths, |rows|, i);
  }

  lemma PointsOn(f: seq<P>, paths: seq<seq<nat>>, rows: seq<Row>, i: nat, k: nat, p: nat)
    requires Represents(f, paths, rows) && i < |rows| && k <= |paths[i]| && p == if k == 0 then i else paths[i][k - 1]
    ensures p < |f| && f[p].idx == if k < |paths[i]| then paths[i][k] else 0
  {
    assert RowIs(f, i, paths[i], rows[i]);
    if k > 0 {
      LinkedInside(f, f[i].idx, paths[i], rows[i].chain, k - 1);
    }
  }

  // ---------------------------------------------------------------------------------------------
  // The whole generator, and looking a name up
  // ---------------------------------------------------------------------------------------------

  /** A finished table: sorted base rows, each name where find_type looks for it. */
  ghost predicate Finished(f: seq<P>, paths: seq<seq<nat>>, rows: seq<Row>, base: nat, names: seq<Name>) {
    Good(f, paths, rows, names) && base == |rows| && Strict(rows, base)
  }

  /** new_p_table, `order` being a way to sort the names by their first word. */
  method Generate(names: seq<Name>, order: seq<nat>)
      returns (f: seq<P>, base: nat, ghost paths: seq<seq<nat>>, ghost rows: seq<Row>)
    requires ValidNames(names) && names != [] && IsOrder(order, |names|)
    requires forall i, j :: 0 <= i < j < |names| ==> names[order[i]].w0 <= names[order[j]].w0
    ensures Finished(f, paths, rows, base, names) && 0 < base <= |f| && base <= |names| && Laid(paths, base, base, 0)
    ensures base == |rows| && |f| == base + Links(rows, base) && forall q :: 0 <= q < base - 1 ==> !Needless(rows[q])
  {
    f, paths := Fill(names);
    RowsOfSay(names);
    rows := RowsOf(names);
    PermutedSays(rows, names, order);
    PermutedShape(names, rows, order);
    f, paths := Sort(f, order, paths, rows);
    rows := Permuted(rows, order);
    f, paths, rows, base := ChainDuplicates(f, paths, rows, |names|, names);
    f, paths, rows := Inline(f, paths, rows, base, names);
    f, paths := Reorder(f, paths, rows, base);
  }

  lemma PermutedShape(names: seq<Name>, rows: seq<Row>, order: seq<nat>)
    requires rows == RowsOf(names) && IsOrder(order, |names|)
    requires forall i, j :: 0 <= i < j < |names| ==> names[order[i]].w0 <= names[order[j]].w0
    ensures var rs := Permuted(rows, order);
            Proper(rs) && ByFourth(rs) && OwnTypes(rs) && Ordered(rs)
  {
    var rs := Permuted(rows, order);
    forall i | 0 <= i < |rs| ensures rs[i] == RowOf(names, order[i]) {
    }
  }

  /** What a linear scan of the names returns. */
  function LinearScan(names: seq<Name>, name: Name): (t: nat)
    ensures t <= |names| && (t != PT_UNKNOWN ==> names[t - 1] == name)
    ensures t == PT_UNKNOWN ==> name !in names
  {
    if names == [] then PT_UNKNOWN
    else if names[|names| - 1] == name then |names|
    else LinearScan(names[..|names| - 1], name)
  }

  /** How the binary search of g2_packet_find_type goes on: with high taken below 0 it leaves the table. */
  datatype Bisection = At0(mid: nat) | Absent | LeavesTable

  ghost function Bisect(f: seq<P>, low: nat, high: nat, key: nat): (b: Bisection)
    requires low <= high < |f|
    decreases high - low
  {
    var mid := (low + high) / 2;
    if f[mid].start < key then if mid + 1 <= high then Bisect(f, mid + 1, high, key) else Absent
    else if f[mid].start > key then
      if mid == 0 then LeavesTable else if low <= mid - 1 then Bisect(f, low, mid - 1, key) else Absent
    else At0(mid)
  }

  ghost predicate Increasing(f: seq<P>, base: nat) {
    base <= |f| && forall i, j :: 0 <= i < j < base ==> f[i].start < f[j].start
  }

  ghost predicate Bisected(f: seq<P>, base: nat, key: nat, b: Bisection)
    requires 0 < base <= |f|
  {
    (b.LeavesTable? <==> key < f[0].start)
    && match b
       case At0(mid) => mid < base && f[mid].start == key
       case Absent => forall i :: 0 <= i < base ==> f[i].start != key
       case LeavesTable => true
  }

  /** The key can only be between low and high. */
  ghost predicate Between(f: seq<P>, base: nat, low: nat, high: nat, key: nat)
    requires base <= |f|
  {
    forall i :: 0 <= i < base && !(low <= i <= high) ==> f[i].start != key
  }

  lemma Halved(f: seq<P>, base: nat, low: nat, high: nat, mid: nat, key: nat)
    requires Increasing(f, base) && low <= mid <= high < base && Between(f, base, low, high, key)
    ensures f[mid].start < key ==> Between(f, base, mid + 1, high, key)
    ensures f[mid].start > key && mid > 0 ==> Between(f, base, low, mid - 1, key)
  {
  }

  /** The search leaves the table exactly for keys below the first word, and finds every word that is there. */
  lemma {:induction false} BisectIs(f: seq<P>, base: nat, low: nat, high: nat, key: nat)
    requires Increasing(f, base) && low <= high < base && Between(f, base, low, high, key)
    requires low > 0 ==> f[0].start < key
    ensures Bisected(f, base, key, Bisect(f, low, high, key))
    decreases high - low
  {
    var mid := (low + high) / 2;
    Halved(f, base, low, high, mid, key);
    assert f[0].start <= f[mid].start;
    if f[mid].start < key {
      if mid + 1 <= high {
        BisectIs(f, base, mid + 1, high, key);
      }
    } else if f[mid].start > key && mid > 0 && low <= mid - 1 {
      BisectIs(f, base, low, mid - 1, key);
    }
  }

  /** The binary search as it runs, in unsigned arithmetic; the model ends where it would look at a row that is none of
      the base rows. */
  method Search(f: seq<P>, base: nat, key: nat) returns (b: Bisection)
    requires Increasing(f, base) && 0 < base < WORD / 2
    ensures Bisected(f, base, key, b)
  {
    var low, high := 0, base - 1;
    var mid := (low + high) / 2;
    while f[mid].start != key
      invariant 0 <= low <= mid <= high < base && Between(f, base, low, high, key) && (low > 0 ==> f[0].start < key)
      decreases high - low
    {
      Halved(f, base, low, high, mid, key);
      assert f[0].start <= f[mid].start;
      if f[mid].start < key {
        low := mid + 1;
      } else {
        high := (mid + WORD - 1) % WORD;
      }
      if low > high {
        return Absent;
      }
      mid := (low + high) / 2;
      if mid >= base {
        return LeavesTable;
      }
    }
    return At0(mid);
  }

  lemma ScanIs(names: seq<Name>, name: Name, t: nat)
    requires ValidNames(names) && 1 <= t <= |names| && names[t - 1] == name
    ensures LinearScan(names, name) == t
  {
    assert name in names;
    var u := LinearScan(names, name);
    assert u == t || u - 1 < t - 1 || t - 1 < u - 1;
  }

  /** With base rows all different, the row with the first word decides. */
  lemma RowDecides(rows: seq<Row>, names: seq<Name>, r: nat, w1: nat, t: nat)
    requires Says(rows, names) && Strict(rows, |rows|) && ValidNames(names) && r < |rows|
    ensures InRow(rows[r], rows[r].start, w1, t) ==> LinearScan(names, Name(rows[r].start, w1)) == t
    ensures (forall u: nat :: !InRow(rows[r], rows[r].start, w1, u)) ==>
              LinearScan(names, Name(rows[r].start, w1)) == PT_UNKNOWN
  {
    var w0 := rows[r].start;
    if InRow(rows[r], w0, w1, t) {
      assert In(rows, w0, w1, t);
      ScanIs(names, Name(w0, w1), t);
    }
    if forall u: nat :: !InRow(rows[r], w0, w1, u) {
      var u := LinearScan(names, Name(w0, w1));
      forall q | 0 <= q < |rows| ensures !InRow(rows[q], w0, w1, u) {
        assert q == r || rows[q].start != w0;
      }
      assert !In(rows, w0, w1, u);
    }
  }

  lemma NoRow(rows: seq<Row>, names: seq<Name>, w0: nat, w1: nat)
    requires Says(rows, names) && forall r :: 0 <= r < |rows| ==> rows[r].start != w0
    ensures LinearScan(names, Name(w0, w1)) == PT_UNKNOWN
  {
    assert !In(rows, w0, w1, LinearScan(names, Name(w0, w1)));
  }

  /** The walk along a chain. */
  method Walk(f: seq<P>, idx: nat, key: nat, ghost path: seq<nat>, ghost chain: seq<(nat, nat)>) returns (t: nat)
    requires path != [] && Linked(f, idx, path, chain)
    ensures (key, t) in chain || (t == PT_UNKNOWN && forall u: nat :: (key, u) !in chain)
  {
    var mid := idx;
    ghost var k := 0;
    LinkedInside(f, idx, path, chain, 0);
    while f[mid].start != key && f[mid].idx != 0
      invariant 0 <= k < |path| == |chain| && mid == path[k] < |f|
      invariant f[mid].start == chain[k].0 && f[mid].typ == chain[k].1
      invariant f[mid].idx == if k + 1 < |path| then path[k + 1] else 0
      invariant forall l :: 0 <= l < k ==> chain[l].0 != key
      decreases |path| - k
    {
      mid, k := f[mid].idx, k + 1;
      LinkedInside(f, idx, path, chain, k);
    }
    if f[mid].start == key {
      assert chain[k] == (key, f[mid].typ);
      return f[mid].typ;
    }
    if k + 1 < |path| {
      LinkedInside(f, idx, path, chain, k + 1);
    }
    return PT_UNKNOWN;
  }

  /** g2_packet_find_type on a generated table: for a name whose first word is below the first of the table the search
      leaves the table, for every other it returns what a linear scan of the names returns. */
  method FindType(f: seq<P>, base: nat, name: Name, ghost paths: seq<seq<nat>>, ghost rows: seq<Row>,
                  ghost names: seq<Name>)
      returns (t: Option<nat>)
    requires Finished(f, paths, rows, base, names) && 0 < base < WORD / 2
    ensures t == if name.w0 < f[0].start then None else Some(LinearScan(names, name))
  {
    assert Increasing(f, base) by {
      assert forall r :: 0 <= r < base ==> RowIs(f, r, paths[r], rows[r]) && f[r].start == rows[r].start;
    }
    var b := Search(f, base, name.w0);
    if b.LeavesTable? {
      return None;
    }
    if b.Absent? {
      NoRow(rows, names, name.w0, name.w1);
      return Some(PT_UNKNOWN);
    }
    var found := FindInRow(f, b.mid, base, name, paths, rows, names);
    return Some(found);
  }

  /** The row of the first word decides, alone or with its chain. */
  method FindInRow(f: seq<P>, mid: nat, base: nat, name: Name, ghost paths: seq<seq<nat>>, ghost rows: seq<Row>,
                   ghost names: seq<Name>)
      returns (t: nat)
    requires Finished(f, paths, rows, base, names) && mid < base && f[mid].start == name.w0
    ensures t == LinearScan(names, name)
  {
    PathOfChain(f, paths, rows, mid);
    if f[mid].typ != PT_UNKNOWN {
      t := if name.w1 == 0 then f[mid].typ else PT_UNKNOWN;
    } else {
      t := Walk(f, f[mid].idx, name.w1, paths[mid], rows[mid].chain);
    }
    RowDecides(rows, names, mid, name.w1, t);
  }

  /** The table that is made and the lookup in it, together, for any name: a name below the smallest first word leads
      the search out of the table, and for every other it finds what a linear scan finds. */
  method TypeOf(names: seq<Name>, order: seq<nat>, name: Name) returns (t: Option<nat>)
    requires ValidNames(names) && 0 < |names| < WORD / 2 && IsOrder(order, |names|)
    requires forall i, j :: 0 <= i < j < |names| ==> names[order[i]].w0 <= names[order[j]].w0
    ensures t == if name.w0 < names[order[0]].w0 then None else Some(LinearScan(names, name))
  {
    var f, base, paths, rows := Generate(names, order);
    FirstRow(f, paths, rows, base, names, order);
    t := FindType(f, base, name, paths, rows, names);
  }

  /** A character of a name, which is padded with zeros. */
  function CharAt(name: seq<byte>, i: nat): (c: nat) {
    if i < |name| then name[i] else 0
  }

  /** The name as two little-endian words. */
  function Packed(name: seq<byte>): (n: Name) {
    Name(CharAt(name, 0) + 0x100 * CharAt(name, 1) + 0x1_0000 * CharAt(name, 2) + 0x100_0000 * CharAt(name, 3),
         CharAt(name, 4) + 0x100 * CharAt(name, 5) + 0x1_0000 * CharAt(name, 6) + 0x100_0000 * CharAt(name, 7))
  }

  /** A legal name of a packet, a single space, in a table for the name "A": the search leaves the table, where a linear
      scan says that the type is not known. */
  method SearchMayLeave() returns (t: Option<nat>)
    ensures LegalName([0x20]) && LinearScan([Packed([0x41])], Packed([0x20])) == PT_UNKNOWN && t == None
  {
    t := TypeOf([Packed([0x41])], [0], Packed([0x20]));
  }

  /** The table begins with the smallest first word of the names. */
  lemma FirstRow(f: seq<P>, paths: seq<seq<nat>>, rows: seq<Row>, base: nat, names: seq<Name>, order: seq<nat>)
    requires Finished(f, paths, rows, base, names) && 0 < base && IsOrder(order, |names|) && names != []
    requires forall i, j :: 0 <= i < j < |names| ==> names[order[i]].w0 <= names[order[j]].w0
    ensures f[0].start == names[order[0]].w0
  {
    assert RowIs(f, 0, paths[0], rows[0]);
    var row, least := rows[0], names[order[0]];
    var w1 := if row.typ != PT_UNKNOWN then 0 else row.chain[0].0;
    var t := if row.typ != PT_UNKNOWN then row.typ else row.chain[0].1;
    assert InRow(row, row.start, w1, t) && In(rows, row.start, w1, t);
    assert t - 1 in order;
    assert In(rows, least.w0, least.w1, order[0] + 1);
  }
}
