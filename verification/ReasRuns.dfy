/** What the reassembly of one datagram set amounts to over a whole run of datagrams, whatever their order
    and however often they are repeated (G2UDP.c). */
module ReasRuns {
  import opened Buffers
  import opened Options
  import opened Knots
  import opened Reassembly

  /** A set being collected. */
  datatype Collected = Collected(parts: Parts, count: nat, deflate: bool)

  datatype Datagram = Datagram(part: nat, count: nat, deflate: bool, payload: seq<byte>)

  /** One datagram: the set afterwards, and the parts if it became complete. A datagram that does not fit
      the set ends it; a complete set is gone; a repeated part changes nothing. */
  ghost function Step(s: Option<Collected>, d: Datagram): (r: (Option<Collected>, Option<Parts>)) {
    var c := if s.Some? then s.value else Collected(map[], d.count, d.deflate);
    if c.deflate != d.deflate || c.count != d.count then (None, None)
    else if d.part in c.parts then (Some(c), None)
    else
      var parts := c.parts[d.part := d.payload];
      if AllThere(parts, c.count) then (None, Some(parts)) else (Some(c.(parts := parts)), None)
  }

  /** The complete sets of a run. */
  ghost function Run(s: Option<Collected>, ds: seq<Datagram>): (r: seq<Parts>)
    decreases |ds|
  {
    if ds == [] then []
    else
      var (s', fired) := Step(s, ds[0]);
      (if fired.Some? then [fired.value] else []) + Run(s', ds[1..])
  }

  /** Datagrams of one set: the parts 1..count, each always with the same content. */
  ghost predicate OneSet(ds: seq<Datagram>, content: nat -> seq<byte>, count: nat, deflate: bool) {
    forall d :: d in ds ==> 1 <= d.part <= count && d == Datagram(d.part, count, deflate, content(d.part))
  }

  ghost function Seen(ds: seq<Datagram>): (r: set<nat>) {
    if ds == [] then {} else {ds[0].part} + Seen(ds[1..])
  }

  ghost function All(count: nat): (r: set<nat>)
    ensures forall p :: p in r <==> 1 <= p <= count
  {
    if count == 0 then {} else All(count - 1) + {count}
  }

  /** The parts ps with their content. */
  ghost function Filled(ps: set<nat>, content: nat -> seq<byte>): (m: Parts) {
    map p | p in ps :: content(p)
  }

  ghost function Having(ps: set<nat>, content: nat -> seq<byte>, count: nat, deflate: bool): Option<Collected> {
    if ps == {} then None else Some(Collected(Filled(ps, content), count, deflate))
  }

  /** One datagram of the set. */
  lemma StepHaving(ps: set<nat>, d: Datagram, content: nat -> seq<byte>, count: nat, deflate: bool)
    requires ps < All(count) && OneSet([d], content, count, deflate)
    ensures var all := ps + {d.part};
            Step(Having(ps, content, count, deflate), d)
            == if all == All(count) then (None, Some(Filled(all, content)))
               else (Having(all, content, count, deflate), None)
  {
    assert d in [d];
    var all := ps + {d.part};
    assert Filled({}, content) == map[];
    assert Filled(all, content) == Filled(ps, content)[d.part := d.payload];
    if d.part in ps {
      assert all == ps;
    } else {
      assert Filled(all, content).Keys == all;
      if AllThere(Filled(all, content), count) {
        forall p: nat ensures p in all <==> p in All(count) {
          assert p in all <==> p in Filled(all, content);
        }
      }
    }
  }

  lemma OneSetSplit(ds: seq<Datagram>, content: nat -> seq<byte>, count: nat, deflate: bool)
    requires ds != [] && OneSet(ds, content, count, deflate)
    ensures OneSet([ds[0]], content, count, deflate) && OneSet(ds[1..], content, count, deflate)
    ensures 1 <= ds[0].part <= count
  {
    assert ds[0] in ds;
  }

  lemma {:induction false} SeenBounded(ds: seq<Datagram>, content: nat -> seq<byte>, count: nat, deflate: bool)
    requires OneSet(ds, content, count, deflate)
    ensures Seen(ds) <= All(count)
  {
    if ds != [] {
      OneSetSplit(ds, content, count, deflate);
      SeenBounded(ds[1..], content, count, deflate);
    }
  }

  lemma {:induction false} SeenGrows(ds: seq<Datagram>, j: nat, k: nat)
    requires j <= k <= |ds|
    ensures Seen(ds[..j]) <= Seen(ds[..k])
    decreases |ds|
  {
    if j > 0 {
      SeenGrows(ds[1..], j - 1, k - 1);
      SeenNext(ds, j);
      SeenNext(ds, k);
    }
  }

  lemma SeenNext(ds: seq<Datagram>, k: nat)
    requires 0 < k <= |ds|
    ensures Seen(ds[..k]) == {ds[0].part} + Seen(ds[1..][..k - 1])
  {
    var front := ds[..k];
    assert front[1..] == ds[1..][..k - 1];
  }

  /** Without all the parts the set never completes. */
  lemma {:induction false} NeverFires(ps: set<nat>, ds: seq<Datagram>, content: nat -> seq<byte>, count: nat,
                                      deflate: bool)
    requires ps < All(count) && OneSet(ds, content, count, deflate) && ps + Seen(ds) != All(count)
    ensures Run(Having(ps, content, count, deflate), ds) == []
    decreases |ds|
  {
    if ds != [] {
      OneSetSplit(ds, content, count, deflate);
      StepHaving(ps, ds[0], content, count, deflate);
      SeenBounded(ds[1..], content, count, deflate);
      var all := ps + {ds[0].part};
      assert all + Seen(ds[1..]) == ps + Seen(ds);
      NeverFires(all, ds[1..], content, count, deflate);
    }
  }

  /** Where the parts ps, collected before, become complete. */
  ghost predicate Completes(ps: set<nat>, ds: seq<Datagram>, count: nat, k: nat) {
    0 < k <= |ds| && ps + Seen(ds[..k]) == All(count) && ps + Seen(ds[..k - 1]) != All(count)
  }

  lemma CompletesNow(ps: set<nat>, ds: seq<Datagram>, count: nat)
    requires ds != [] && ps != All(count) && ps + {ds[0].part} == All(count)
    ensures Completes(ps, ds, count, 1)
  {
    assert ds[..1] == [ds[0]] && ds[..0] == [] && ps + {} == ps;
    assert Seen([ds[0]]) == {ds[0].part} + Seen([]);
  }

  lemma CompletesLater(ps: set<nat>, ds: seq<Datagram>, count: nat, k: nat)
    requires ds != [] && Completes(ps + {ds[0].part}, ds[1..], count, k)
    ensures Completes(ps, ds, count, k + 1)
  {
    var all := ps + {ds[0].part};
    assert ds[..k + 1][1..] == ds[1..][..k] && ds[..k][1..] == ds[1..][..k - 1];
    assert all + Seen(ds[1..][..k]) == ps + Seen(ds[..k + 1]);
    assert all + Seen(ds[1..][..k - 1]) == ps + Seen(ds[..k]);
  }

  /** With all the parts it completes as soon as the last missing one arrives, and starts over. */
  lemma {:induction false} Fires(ps: set<nat>, ds: seq<Datagram>, content: nat -> seq<byte>, count: nat, deflate: bool)
      returns (k: nat)
    requires ps < All(count) && OneSet(ds, content, count, deflate) && ps + Seen(ds) == All(count)
    ensures Completes(ps, ds, count, k)
    ensures Run(Having(ps, content, count, deflate), ds) == [Filled(All(count), content)] + Run(None, ds[k..])
    decreases |ds|
  {
    assert ps + {} == ps;
    OneSetSplit(ds, content, count, deflate);
    StepHaving(ps, ds[0], content, count, deflate);
    var all := ps + {ds[0].part};
    if all == All(count) {
      CompletesNow(ps, ds, count);
      k := 1;
    } else {
      assert all + Seen(ds[1..]) == ps + Seen(ds);
      k := Fires(all, ds[1..], content, count, deflate);
      CompletesLater(ps, ds, count, k);
      assert ds[1..][k..] == ds[k + 1..];
      k := k + 1;
    }
  }

  lemma CompletesOnce(ds: seq<Datagram>, content: nat -> seq<byte>, count: nat, deflate: bool, j: nat, k: nat)
    requires OneSet(ds, content, count, deflate) && Completes({}, ds, count, j) && Completes({}, ds, count, k)
    ensures j == k
  {
    SeenBounded(ds[..j - 1], content, count, deflate);
    SeenBounded(ds[..k - 1], content, count, deflate);
    if j < k {
      SeenGrows(ds, j, k - 1);
    } else if k < j {
      SeenGrows(ds, k, j - 1);
    }
  }

  /** A run of datagrams of one set, in any order and with any repetitions: the set completes if and only
      if every part occurs, and the completed set has every part's content. */
  lemma FiresIff(ds: seq<Datagram>, content: nat -> seq<byte>, count: nat, deflate: bool)
    requires count >= 1 && OneSet(ds, content, count, deflate)
    ensures Run(None, ds) != [] <==> Seen(ds) == All(count)
    ensures Run(None, ds) != [] ==> Run(None, ds)[0] == Filled(All(count), content)
  {
    assert 1 in All(count) && {} + Seen(ds) == Seen(ds);
    if Seen(ds) != All(count) {
      NeverFires({}, ds, content, count, deflate);
    } else {
      var k := Fires({}, ds, content, count, deflate);
    }
  }

  /** It completes just once if and only if what arrives after the first completion, at datagram k, does
      not contain every part again. */
  lemma FiresOnce(ds: seq<Datagram>, content: nat -> seq<byte>, count: nat, deflate: bool, k: nat)
    requires count >= 1 && OneSet(ds, content, count, deflate) && Completes({}, ds, count, k)
    ensures |Run(None, ds)| == 1 <==> Seen(ds[k..]) != All(count)
  {
    assert {} + Seen(ds[..k]) == Seen(ds[..k]) && {} + Seen(ds) == Seen(ds);
    SeenGrows(ds, k, |ds|);
    assert ds[..|ds|] == ds;
    SeenBounded(ds, content, count, deflate);
    assert 1 in All(count);
    var j := Fires({}, ds, content, count, deflate);
    CompletesOnce(ds, content, count, deflate, j, k);
    FiresIff(ds[k..], content, count, deflate);
  }

  /** The contents of parts 1..count, in order. */
  ghost function Payload(content: nat -> seq<byte>, count: nat): (s: seq<byte>) {
    if count == 0 then [] else Payload(content, count - 1) + content(count)
  }

  /** A set of two whose datagrams come twice completes twice. */
  lemma SecondCompletion(content: nat -> seq<byte>)
    ensures var one, two := Datagram(1, 2, false, content(1)), Datagram(2, 2, false, content(2));
            |Run(None, [one, two, one, two])| == 2
  {
    var one, two := Datagram(1, 2, false, content(1)), Datagram(2, 2, false, content(2));
    var ds := [one, two, one, two];
    TwiceEach(content, one, two, [one, two]);
    TwiceEach(content, one, two, []);
    assert ds == [one, two] + [one, two] && [one, two] + [] == [one, two];
  }

  lemma TwiceEach(content: nat -> seq<byte>, one: Datagram, two: Datagram, rest: seq<Datagram>)
    requires one == Datagram(1, 2, false, content(1)) && two == Datagram(2, 2, false, content(2))
    ensures |Run(None, [one, two] + rest)| == 1 + |Run(None, rest)|
  {
    var ds := [one, two] + rest;
    assert ds[1..][1..] == rest && {} + {1} == {1} && {1} + {2} == All(2) && {1} != All(2);
    assert 2 in All(2) && 1 in All(2);
    StepHaving({}, one, content, 2, false);
    StepHaving({1}, two, content, 2, false);
  }


  lemma {:induction false} FilledPayload(content: nat -> seq<byte>, count: nat, k: nat)
    ensures UpTo(Filled(All(count), content), k) == Payload(content, Min(k, count))
  {
    if k > 0 {
      FilledPayload(content, count, k - 1);
    }
  }
}
