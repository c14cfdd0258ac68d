/** Query keys (G2QueryKey.c): a key is a hash of the source address with the salt of the current time slot,
    its low bits naming the slot. */
module QueryKeys {
  import opened Arithmetic
  import opened Bits

  const TIME_SLOT_COUNT := 8
  const TIME_SLOT_ELEM := 64
  const TIME_SLOT_SECS := 3600

  /** The salts of one time slot: 64 pairs, and the pair that chooses among them. */
  type Slot = s: seq<(nat, nat)> | |s| == TIME_SLOT_ELEM + 1
    witness seq(TIME_SLOT_ELEM + 1, _ => (1, 1))

  /** hthash32_mod over the words of an address and two salts. */
  type Hash = (nat, nat, nat) -> nat

  function Fold(h: nat): (r: nat) {
    var a := Xor(h, h / 0x1_0000);
    var b := Xor(a, a / 0x100);
    Xor(b, b / 0x10)
  }

  /** addr_hash_generate with the salts of one slot. */
  function AddrHash(hash: Hash, slot: Slot, source: nat): (h: nat) {
    var master := slot[TIME_SLOT_ELEM];
    var chosen := slot[Fold(hash(source, master.0, master.1)) % TIME_SLOT_ELEM];
    hash(source, chosen.0, chosen.1)
  }

  /** What a key says beside the slot. */
  function Upper(key: nat): (r: nat)
    ensures r <= key && r % TIME_SLOT_COUNT == 0
  {
    key / TIME_SLOT_COUNT * TIME_SLOT_COUNT
  }

  class Keys {
    const hash: Hash
    var salts: seq<Slot>
    var actSalt: nat
    var lastUpdate: int

    ghost predicate Valid()
      reads this
    {
      |salts| == TIME_SLOT_COUNT && actSalt < TIME_SLOT_COUNT
    }

    constructor (hash: Hash, salts: seq<Slot>, actSalt: nat, now: int)
      requires |salts| == TIME_SLOT_COUNT
      ensures Valid() && this.hash == hash && this.salts == salts && this.actSalt == actSalt % TIME_SLOT_COUNT
    {
      this.hash, this.salts, this.actSalt, lastUpdate := hash, salts, actSalt % TIME_SLOT_COUNT, now;
    }

    /** g2_qk_tick: after long enough the next slot gets new salts and becomes the current one. */
    method Tick(now: int, renewed: Slot) returns (rotated: bool)
      requires Valid()
      modifies this`salts, this`actSalt, this`lastUpdate
      ensures Valid() && rotated == (now - old(lastUpdate) >= TIME_SLOT_SECS || old(lastUpdate) - now >= TIME_SLOT_SECS)
      ensures if rotated then (salts, actSalt) == Rotated(old(salts), old(actSalt), renewed) && lastUpdate == now
              else unchanged(this)
    {
      var diff := now - lastUpdate;
      diff := if diff >= 0 then diff else -diff;
      if diff < TIME_SLOT_SECS {
        return false;
      }
      var next := (actSalt + 1) % TIME_SLOT_COUNT;
      salts := salts[next := renewed];
      actSalt, lastUpdate := next, now;
      return true;
    }

    /** g2_qk_generate. */
    function Generate(source: nat): (key: nat)
      requires Valid()
      reads this
      ensures key % TIME_SLOT_COUNT == actSalt
    {
      GenerateKey(hash, salts, actSalt, source)
    }

    /** g2_qk_check. */
    predicate Check(source: nat, key: nat)
      requires Valid()
      reads this
    {
      CheckKey(hash, salts, source, key)
    }
  }

  predicate CheckKey(hash: Hash, salts: seq<Slot>, source: nat, key: nat)
    requires |salts| == TIME_SLOT_COUNT
  {
    Upper(AddrHash(hash, salts[key % TIME_SLOT_COUNT], source)) == Upper(key)
  }

  function GenerateKey(hash: Hash, salts: seq<Slot>, actSalt: nat, source: nat): (key: nat)
    requires |salts| == TIME_SLOT_COUNT && actSalt < TIME_SLOT_COUNT
  {
    Upper(AddrHash(hash, salts[actSalt], source)) + actSalt
  }

  // ---------------------------------------------------------------------------------------------
  // Runs of rotations
  // ---------------------------------------------------------------------------------------------

  function Rotated(salts: seq<Slot>, actSalt: nat, renewed: Slot): (r: (seq<Slot>, nat))
    requires |salts| == TIME_SLOT_COUNT
    ensures |r.0| == TIME_SLOT_COUNT && r.1 < TIME_SLOT_COUNT
  {
    var next := (actSalt + 1) % TIME_SLOT_COUNT;
    (salts[next := renewed], next)
  }

  function RotatedAll(salts: seq<Slot>, actSalt: nat, slots: seq<Slot>): (r: (seq<Slot>, nat))
    requires |salts| == TIME_SLOT_COUNT && actSalt < TIME_SLOT_COUNT
    ensures |r.0| == TIME_SLOT_COUNT && r.1 < TIME_SLOT_COUNT
  {
    if slots == [] then (salts, actSalt)
    else
      var (before, act) := RotatedAll(salts, actSalt, slots[..|slots| - 1]);
      Rotated(before, act, slots[|slots| - 1])
  }

  /** What a slot holds that had these salts when it was the current one: they are renewed by every eighth rotation
      after that. */
  function Held(salts: Slot, slots: seq<Slot>): (slot: Slot) {
    if |slots| < TIME_SLOT_COUNT then salts else slots[TIME_SLOT_COUNT * (|slots| / TIME_SLOT_COUNT) - 1]
  }

  lemma RingStep(at: nat, n: nat)
    requires at < TIME_SLOT_COUNT && n > 0
    ensures ((at + n - 1) % TIME_SLOT_COUNT + 1) % TIME_SLOT_COUNT == (at + n) % TIME_SLOT_COUNT
    ensures (at + n) % TIME_SLOT_COUNT == at <==> n % TIME_SLOT_COUNT == 0
  {
  }

  lemma Eights(n: nat)
    requires n > 0
    ensures if n % TIME_SLOT_COUNT == 0 then TIME_SLOT_COUNT * (n / TIME_SLOT_COUNT) == n && n >= TIME_SLOT_COUNT
            else n / TIME_SLOT_COUNT == (n - 1) / TIME_SLOT_COUNT && n != TIME_SLOT_COUNT
  {
  }

  lemma HeldNext(salts: Slot, slots: seq<Slot>)
    requires slots != []
    ensures var n := |slots|;
            Held(salts, slots) == if n % TIME_SLOT_COUNT == 0 then slots[n - 1] else Held(salts, slots[..n - 1])
  {
    Eights(|slots|);
  }

  /** Any number of rotations go round and round the ring, and come back to a slot every eight. */
  lemma {:induction false} RotationAt(salts: seq<Slot>, actSalt: nat, slots: seq<Slot>)
    requires |salts| == TIME_SLOT_COUNT && actSalt < TIME_SLOT_COUNT
    ensures var (now, act) := RotatedAll(salts, actSalt, slots);
            act == (actSalt + |slots|) % TIME_SLOT_COUNT && now[actSalt] == Held(salts[actSalt], slots)
    decreases |slots|
  {
    if slots != [] {
      RotationAt(salts, actSalt, slots[..|slots| - 1]);
      RingStep(actSalt, |slots|);
      HeldNext(salts[actSalt], slots);
    }
  }

  lemma UpperOfSum(u: nat, slot: nat)
    requires u % TIME_SLOT_COUNT == 0 && slot < TIME_SLOT_COUNT
    ensures Upper(u + slot) == u && (u + slot) % TIME_SLOT_COUNT == slot
  {
  }

  // ---------------------------------------------------------------------------------------------
  // What a key is made of
  // ---------------------------------------------------------------------------------------------

  /** Whether an odd number of the n bits j, j + 4, j + 8, ... is set. */
  predicate Parity(h: nat, j: nat, n: nat) {
    n > 0 && Parity(h, j, n - 1) != TestBit(h, j + 4 * (n - 1))
  }

  /** Every bit of the folded word is the parity of eight bits, one of every four. */
  lemma FoldBits(h: nat, j: nat)
    ensures TestBit(Fold(h), j) == Parity(h, j, 8)
  {
    Powers();
    var a := Xor(h, Quotient(h, 0x1_0000));
    var b := Xor(a, Quotient(a, 0x100));
    assert Fold(h) == Xor(b, Quotient(b, 0x10));
    FoldedOnce(b, 4, 0x10, j);
    FoldedTwice(h, a, b, j);
    FoldedTwice(h, a, b, j + 4);
    ParityOfEight(h, j);
  }

  lemma FoldedTwice(h: nat, a: nat, b: nat, j: nat)
    requires a == Xor(h, Quotient(h, 0x1_0000)) && b == Xor(a, Quotient(a, 0x100))
    ensures TestBit(b, j)
            == ((TestBit(h, j) != TestBit(h, j + 16)) != (TestBit(h, j + 8) != TestBit(h, j + 24)))
  {
    Powers();
    FoldedOnce(a, 8, 0x100, j);
    FoldedOnce(h, 16, 0x1_0000, j);
    FoldedOnce(h, 16, 0x1_0000, j + 8);
  }

  lemma ParityOfEight(h: nat, j: nat)
    ensures Parity(h, j, 8)
            == (((TestBit(h, j) != TestBit(h, j + 16)) != (TestBit(h, j + 8) != TestBit(h, j + 24)))
                != ((TestBit(h, j + 4) != TestBit(h, j + 20)) != (TestBit(h, j + 12) != TestBit(h, j + 28))))
  {
    assert !Parity(h, j, 0);
    assert Parity(h, j, 1) == TestBit(h, j);
    assert Parity(h, j, 2) == (Parity(h, j, 1) != TestBit(h, j + 4));
    assert Parity(h, j, 3) == (Parity(h, j, 2) != TestBit(h, j + 8));
    assert Parity(h, j, 4) == (Parity(h, j, 3) != TestBit(h, j + 12));
    assert Parity(h, j, 5) == (Parity(h, j, 4) != TestBit(h, j + 16));
    assert Parity(h, j, 6) == (Parity(h, j, 5) != TestBit(h, j + 20));
    assert Parity(h, j, 7) == (Parity(h, j, 6) != TestBit(h, j + 24));
    assert Parity(h, j, 8) == (Parity(h, j, 7) != TestBit(h, j + 28));
  }

  lemma Powers()
    ensures Pow2(4) == 0x10 && Pow2(8) == 0x100 && Pow2(16) == 0x1_0000
  {
    assert Pow2(4) == 0x10;
    assert Pow2(8) == 0x100;
    assert Pow2(12) == 0x1000;
  }

  lemma FoldedOnce(h: nat, k: nat, p: nat, j: nat)
    requires p == Pow2(k)
    ensures TestBit(Xor(h, Quotient(h, p)), j) == (TestBit(h, j) != TestBit(h, j + k))
  {
    XorTests(h, Quotient(h, p), j);
    ShiftTests(h, k, j);
  }

  /** Which pair of salts an address gets: only its hash with the last pair decides. */
  function Chosen(hash: Hash, slot: Slot, source: nat): (i: nat)
    ensures i < TIME_SLOT_ELEM
  {
    Fold(hash(source, slot[TIME_SLOT_ELEM].0, slot[TIME_SLOT_ELEM].1)) % TIME_SLOT_ELEM
  }

  /** The key of an address is its hash with that pair, with the slot in place of the three lowest bits. */
  lemma KeyIs(hash: Hash, salts: seq<Slot>, actSalt: nat, source: nat)
    requires |salts| == TIME_SLOT_COUNT && actSalt < TIME_SLOT_COUNT
    ensures var slot, key := salts[actSalt], GenerateKey(hash, salts, actSalt, source);
            var i := Chosen(hash, slot, source);
            key / TIME_SLOT_COUNT == hash(source, slot[i].0, slot[i].1) / TIME_SLOT_COUNT
            && key % TIME_SLOT_COUNT == actSalt
  {
    UpperOfSum(Upper(AddrHash(hash, salts[actSalt], source)), actSalt);
  }

  /** Two addresses agree in all but the slot. */
  ghost predicate Agree(hash: Hash, slot: Slot, source: nat, slot': Slot, other: nat) {
    var i, j := Chosen(hash, slot, source), Chosen(hash, slot', other);
    hash(source, slot[i].0, slot[i].1) / TIME_SLOT_COUNT == hash(other, slot'[j].0, slot'[j].1) / TIME_SLOT_COUNT
  }

  /** When a key made for one address passes for this or another one: what is now in the slot it names gives that
      address the same upper bits. */
  lemma KeyPassesIff(hash: Hash, salts: seq<Slot>, actSalt: nat, source: nat, now: seq<Slot>, other: nat)
    requires |salts| == |now| == TIME_SLOT_COUNT && actSalt < TIME_SLOT_COUNT
    ensures CheckKey(hash, now, other, GenerateKey(hash, salts, actSalt, source)) <==>
              Agree(hash, salts[actSalt], source, now[actSalt], other)
  {
    KeyIs(hash, salts, actSalt, source);
    var h := AddrHash(hash, now[actSalt], other);
    assert Upper(h) / TIME_SLOT_COUNT == h / TIME_SLOT_COUNT;
  }

  /** A hash that only multiplies by eight. */
  function Eightfold(source: nat, first: nat, second: nat): (h: nat) {
    8 * source
  }

  /** The pairs of salts that decide. */
  lemma PassesWith(hash: Hash, salts: seq<Slot>, actSalt: nat, source: nat, other: nat) returns (i: nat, j: nat)
    requires |salts| == TIME_SLOT_COUNT && actSalt < TIME_SLOT_COUNT
    ensures i < TIME_SLOT_ELEM && j < TIME_SLOT_ELEM
    ensures var slot, key := salts[actSalt], GenerateKey(hash, salts, actSalt, source);
            key == hash(source, slot[i].0, slot[i].1) / TIME_SLOT_COUNT * TIME_SLOT_COUNT + actSalt
            && (CheckKey(hash, salts, other, key) <==>
                  hash(source, slot[i].0, slot[i].1) / TIME_SLOT_COUNT
                  == hash(other, slot[j].0, slot[j].1) / TIME_SLOT_COUNT)
  {
    i, j := Chosen(hash, salts[actSalt], source), Chosen(hash, salts[actSalt], other);
    KeyIs(hash, salts, actSalt, source);
    KeyPassesIff(hash, salts, actSalt, source, salts, other);
  }

  /** With it a key passes for no address but its own: that of address 1 is refused for address 2. */
  lemma OtherIsRefused(salts: seq<Slot>, actSalt: nat, source: nat, other: nat)
    requires |salts| == TIME_SLOT_COUNT && actSalt < TIME_SLOT_COUNT
    ensures var key := GenerateKey(Eightfold, salts, actSalt, source);
            key == 8 * source + actSalt && (CheckKey(Eightfold, salts, other, key) <==> source == other)
  {
    var i, j := PassesWith(Eightfold, salts, actSalt, source, other);
    Eighths(source);
    Eighths(other);
  }

  lemma Eighths(source: nat)
    ensures forall a: nat, b: nat :: Eightfold(source, a, b) / TIME_SLOT_COUNT == source
  {
  }

  /** A key passes the check for its address through any run with fewer than eight rotations. */
  lemma KeyLasts(hash: Hash, salts: seq<Slot>, actSalt: nat, slots: seq<Slot>, source: nat)
    requires |salts| == TIME_SLOT_COUNT && actSalt < TIME_SLOT_COUNT && |slots| < TIME_SLOT_COUNT
    ensures CheckKey(hash, RotatedAll(salts, actSalt, slots).0, source, GenerateKey(hash, salts, actSalt, source))
  {
    RotationAt(salts, actSalt, slots);
    KeyPassesIff(hash, salts, actSalt, source, RotatedAll(salts, actSalt, slots).0, source);
  }

  /** From the eighth rotation on a key passes just if the salts of the last renewal of its slot happen to give it
      again. */
  lemma KeyDecays(hash: Hash, salts: seq<Slot>, actSalt: nat, slots: seq<Slot>, source: nat, other: nat)
    requires |salts| == TIME_SLOT_COUNT && actSalt < TIME_SLOT_COUNT && |slots| >= TIME_SLOT_COUNT
    ensures CheckKey(hash, RotatedAll(salts, actSalt, slots).0, other, GenerateKey(hash, salts, actSalt, source)) <==>
              Agree(hash, salts[actSalt], source, slots[TIME_SLOT_COUNT * (|slots| / TIME_SLOT_COUNT) - 1], other)
  {
    RotationAt(salts, actSalt, slots);
    KeyPassesIff(hash, salts, actSalt, source, RotatedAll(salts, actSalt, slots).0, other);
  }

  // ---------------------------------------------------------------------------------------------
  // Runs of ticks
  // ---------------------------------------------------------------------------------------------

  /** A tick: the time, and the salts there would be for the next slot. */
  datatype Beat = Beat(now: int, renewed: Slot)

  /** The salts that come into use over a run of ticks, and the time of the last rotation. */
  ghost function Used(last: int, beats: seq<Beat>): (r: (seq<Slot>, int)) {
    if beats == [] then ([], last)
    else
      var n := |beats| - 1;
      var (slots, at) := Used(last, beats[..n]);
      if beats[n].now - at >= TIME_SLOT_SECS || at - beats[n].now >= TIME_SLOT_SECS
      then (slots + [beats[n].renewed], beats[n].now) else (slots, at)
  }

  /** Any run of ticks, rotating or not. */
  method TickAll(keys: Keys, beats: seq<Beat>)
    requires keys.Valid()
    modifies keys`salts, keys`actSalt, keys`lastUpdate
    ensures keys.Valid() && keys.lastUpdate == Used(old(keys.lastUpdate), beats).1
    ensures (keys.salts, keys.actSalt)
            == RotatedAll(old(keys.salts), old(keys.actSalt), Used(old(keys.lastUpdate), beats).0)
  {
    for i := 0 to |beats|
      invariant keys.Valid() && keys.lastUpdate == Used(old(keys.lastUpdate), beats[..i]).1
      invariant (keys.salts, keys.actSalt)
                == RotatedAll(old(keys.salts), old(keys.actSalt), Used(old(keys.lastUpdate), beats[..i]).0)
    {
      assert beats[..i + 1][..i] == beats[..i];
      ghost var slots := Used(old(keys.lastUpdate), beats[..i]).0;
      var rotated := keys.Tick(beats[i].now, beats[i].renewed);
      assert (slots + [beats[i].renewed])[..|slots|] == slots;
    }
    assert beats[..|beats|] == beats;
  }

  /** A key made now for one address and checked after any run of ticks for the same or another one: it passes just if
      what its slot then holds gives that address the same upper bits, and so for its own address at least until the
      eighth rotation. */
  method MakeAndCheck(keys: Keys, source: nat, beats: seq<Beat>, other: nat) returns (ok: bool)
    requires keys.Valid()
    modifies keys`salts, keys`actSalt, keys`lastUpdate
    ensures var slots, slot := Used(old(keys.lastUpdate), beats).0, old(keys.salts[keys.actSalt]);
            (ok <==> Agree(keys.hash, slot, source, Held(slot, slots), other))
            && (source == other && |slots| < TIME_SLOT_COUNT ==> ok)
  {
    ghost var salts, act, slots := keys.salts, keys.actSalt, Used(keys.lastUpdate, beats).0;
    var key := keys.Generate(source);
    TickAll(keys, beats);
    ok := keys.Check(other, key);
    RotationAt(salts, act, slots);
    KeyPassesIff(keys.hash, salts, act, source, keys.salts, other);
  }

  /** With a clock that does not go back rotations are at least a slot's time apart, so a key passes for as long as
      eight slots take. */
  lemma {:induction false} RotationsTakeTime(last: int, beats: seq<Beat>)
    requires forall i :: 0 <= i < |beats| ==> last <= beats[i].now
    requires forall i, j :: 0 <= i < j < |beats| ==> beats[i].now <= beats[j].now
    ensures var (slots, at) := Used(last, beats);
            |slots| * TIME_SLOT_SECS <= at - last && (beats != [] ==> at <= beats[|beats| - 1].now)
            && (beats == [] ==> at == last)
  {
    if beats != [] {
      var n := |beats| - 1;
      RotationsTakeTime(last, beats[..n]);
      assert n > 0 ==> beats[..n][n - 1].now <= beats[n].now;
    }
  }
}
