/** One round of sensor readings: every stored sensor is asked for, batch by batch, and its reading collected. */
module SensorRound {
  import opened Common
  import Frc = SensorFrc

  /** A sensor of the network: device, quantity and index among the device's sensors of that quantity. */
  datatype Key = Key(address: u8, quantity: u8, index: u8)

  /** A collected reading; a sensor that gave none is filled in without a value. */
  datatype Sensor = Sensor(key: Key, value: Option<int>)

  /** The readings of each registered address. */
  type Data = map<u8, seq<Sensor>>

  /** What the network answers, and the quantities the repository cache knows. */
  datatype Net = Net(field: map<Key, int>, known: set<u8>)

  const FIRST_ANSWER: nat := 55
  const FULL_ANSWER: nat := 64

  // ---------------------------------------------------------------- batches and answers

  function DeviceCount(quantity: u8): Option<nat> {
    if 0x01 <= quantity <= 0x7F then Some(31)
    else if 0x80 <= quantity <= 0x9F then Some(63)
    else if 0xA0 <= quantity <= 0xBF then Some(15)
    else None
  }

  /** Bytes per device of the FRC command for a quantity. */
  function Width(quantity: u8): Option<nat> {
    if 0x01 <= quantity <= 0x1D then Some(2)
    else if 0x80 <= quantity <= 0x85 then Some(1)
    else if 0xA0 <= quantity <= 0xA7 then Some(4)
    else None
  }

  /** Bytes of so many slots. */
  function Bytes(width: nat, slots: nat): nat {
    match width
    case 1 => slots
    case 2 => 2 * slots
    case _ => 4 * slots
  }

  function ExtraResultRequired(width: nat, count: nat): bool {
    match width
    case 1 => count > 55
    case 2 => count > 27
    case _ => count > 13
  }

  /** A full batch with the coordinator's slot fills the two answers and never overflows them. */
  lemma BatchFits(quantity: u8)
    requires Width(quantity).Some?
    ensures DeviceCount(quantity).Some?
    ensures Bytes(Width(quantity).value, DeviceCount(quantity).value + 1) == FULL_ANSWER
  {
  }

  function Received(width: nat, count: nat): nat {
    if ExtraResultRequired(width, count) then FULL_ANSWER else FIRST_ANSWER
  }

  /** Within a batch the answer holds the slot of the k-th device unless it is the last one of 55, 27 or 13. */
  lemma SlotReceivedIff(quantity: u8, count: nat, k: nat)
    requires Width(quantity).Some? && 1 <= k <= count <= DeviceCount(quantity).value
    ensures Bytes(Width(quantity).value, k + 1) <= Received(Width(quantity).value, count) <==>
              !(k == count == match Width(quantity).value case 1 => 55 case 2 => 27 case _ => 13)
  {
    BatchFits(quantity);
  }

  /** Of 55 devices of a one-byte quantity the last one's byte is the 56th, and only 55 are fetched. */
  lemma LastSlotMissedExample()
    ensures Width(0x80) == Some(1) && Received(1, 55) == 55 && Bytes(1, 55 + 1) == 56
  {
  }

  /** What the k-th device of a batch reports, counted from 0. */
  function Reading(net: Net, quantity: u8, index: u8, order: seq<u8>, k: nat): Option<int>
    requires k < |order| && Width(quantity).Some?
  {
    var key := Key(order[k], quantity, index);
    var width := Width(quantity).value;
    if key in net.field && Bytes(width, k + 2) <= Received(width, |order|) then Some(net.field[key]) else None
  }

  /** The readings of the first `n` devices, or the placeholders for those without one. */
  ghost function Part(net: Net, quantity: u8, index: u8, order: seq<u8>, n: nat, answered: bool): seq<Sensor>
    requires n <= |order| && Width(quantity).Some?
  {
    if n == 0 then []
    else Part(net, quantity, index, order, n - 1, answered) + One(net, quantity, index, order, n - 1, answered)
  }

  /** What the k-th device contributes. */
  ghost function One(net: Net, quantity: u8, index: u8, order: seq<u8>, k: nat, answered: bool): seq<Sensor>
    requires k < |order| && Width(quantity).Some?
  {
    var r := Reading(net, quantity, index, order, k);
    if r.Some? == answered then [Sensor(Key(order[k], quantity, index), r)] else []
  }

  /** The decoded answer: the coordinator's slot, then one slot per device. */
  function Answer(net: Net, quantity: u8, index: u8, order: seq<u8>): (slots: Frc.Slots)
    requires Width(quantity).Some?
    ensures |slots| == |order| + 1 && slots[0] == None
    ensures forall k :: 0 <= k < |order| ==> slots[k + 1] == Reading(net, quantity, index, order, k)
  {
    [None] + seq(|order|, k requires 0 <= k < |order| => Reading(net, quantity, index, order, k))
  }

  /** A reported reading as an entry of the result. */
  function Entered(quantity: u8, index: u8, x: Frc.Sensor): Sensor {
    Sensor(Key(x.address % 0x100, quantity, index), Some(x.reading))
  }

  ghost function EnteredAll(quantity: u8, index: u8, xs: seq<Frc.Sensor>): seq<Sensor> {
    if xs == [] then []
    else EnteredAll(quantity, index, xs[..|xs| - 1]) + [Entered(quantity, index, xs[|xs| - 1])]
  }

  /** The readings of a batch, attributed by the position of their slots. */
  ghost function Seen(net: Net, quantity: u8, index: u8, order: seq<u8>): seq<Sensor>
    requires Width(quantity).Some?
  {
    EnteredAll(quantity, index, Frc.Readings(Answer(net, quantity, index, order), order, |order|))
  }

  ghost function Handled(list: seq<Sensor>): set<u8> {
    set s | s in list :: s.key.address
  }

  /** Placeholders for those of the first `n` devices that are not handled. */
  ghost function Missing(quantity: u8, index: u8, order: seq<u8>, n: nat, handled: set<u8>): seq<Sensor>
    requires n <= |order|
  {
    if n == 0 then []
    else Missing(quantity, index, order, n - 1, handled) +
         if order[n - 1] in handled then [] else [Sensor(Key(order[n - 1], quantity, index), None)]
  }

  /** What the code puts together for a batch. */
  ghost function Assembled(net: Net, quantity: u8, index: u8, order: seq<u8>): seq<Sensor>
    requires Width(quantity).Some?
  {
    var seen := Seen(net, quantity, index, order);
    seen + if quantity in net.known then Missing(quantity, index, order, |order|, Handled(seen)) else []
  }

  /** What a batch is meant to yield: every device's own reading, and placeholders for the others. */
  ghost function Collected(net: Net, quantity: u8, index: u8, order: seq<u8>): seq<Sensor>
    requires Width(quantity).Some?
  {
    Part(net, quantity, index, order, |order|, true) +
    if quantity in net.known then Part(net, quantity, index, order, |order|, false) else []
  }

  /** The traversal order of a set built from part of an address list. */
  function Batch(addresses: seq<u8>): seq<u8> {
    Ascending(set a | a in addresses)
  }

  /** An address list cut into `passes` batches of the full size, and one of what remains. */
  ghost function Chunks(addresses: seq<u8>, size: nat, passes: nat): seq<seq<u8>>
    requires size > 0
    decreases passes
  {
    if addresses == [] then []
    else if passes == 0 || |addresses| < size then [addresses]
    else [addresses[..size]] + Chunks(addresses[size..], size, passes - 1)
  }

  /** How many full batches a list holds. */
  function Quotient(n: nat, size: nat): nat
    requires size > 0
    decreases n
  {
    if n < size then 0 else 1 + Quotient(n - size, size)
  }

  // ---------------------------------------------------------------- attribution within a batch

  lemma EnteredNext(quantity: u8, index: u8, slots: Frc.Slots, order: seq<u8>, n: nat)
    requires 0 < n <= |order| && |slots| == |order| + 1
    ensures EnteredAll(quantity, index, Frc.Readings(slots, order, n)) ==
            EnteredAll(quantity, index, Frc.Readings(slots, order, n - 1)) +
            if slots[n].Some? then [Sensor(Key(order[n - 1], quantity, index), slots[n])] else []
  {
    var xs, ys := Frc.Readings(slots, order, n), Frc.Readings(slots, order, n - 1);
    if slots[n].Some? {
      assert xs[..|xs| - 1] == ys;
    } else {
      assert xs == ys;
    }
  }

  lemma {:induction false} SeenIsPart(net: Net, quantity: u8, index: u8, order: seq<u8>, n: nat)
    requires n <= |order| && Width(quantity).Some?
    ensures var slots := Answer(net, quantity, index, order);
      EnteredAll(quantity, index, Frc.Readings(slots, order, n)) == Part(net, quantity, index, order, n, true)
  {
    if n > 0 {
      SeenIsPart(net, quantity, index, order, n - 1);
      EnteredNext(quantity, index, Answer(net, quantity, index, order), order, n);
    }
  }

  /** An entry is in a part exactly when it is the reading, or the placeholder, of one of its devices. */
  lemma {:induction false} PartMembers(net: Net, quantity: u8, index: u8, order: seq<u8>, n: nat, answered: bool,
                                       s: Sensor)
    requires n <= |order| && Width(quantity).Some?
    ensures s in Part(net, quantity, index, order, n, answered) <==>
              exists k :: 0 <= k < n && s in One(net, quantity, index, order, k, answered)
  {
    if n > 0 {
      PartMembers(net, quantity, index, order, n - 1, answered, s);
    }
  }

  lemma HandledIff(net: Net, quantity: u8, index: u8, order: seq<u8>, k: nat)
    requires k < |order| && Width(quantity).Some? && Distinct(order)
    ensures order[k] in Handled(Seen(net, quantity, index, order)) <==>
            Reading(net, quantity, index, order, k).Some?
  {
    var seen := Seen(net, quantity, index, order);
    SeenIsPart(net, quantity, index, order, |order|);
    var own := Sensor(Key(order[k], quantity, index), Reading(net, quantity, index, order, k));
    PartMembers(net, quantity, index, order, |order|, true, own);
    if own.value.Some? {
      assert own in One(net, quantity, index, order, k, true);
      assert own in seen;
    }
    forall s | s in seen && s.key.address == order[k] ensures own.value.Some? {
      PartMembers(net, quantity, index, order, |order|, true, s);
    }
  }

  lemma {:induction false} MissingIsPart(net: Net, quantity: u8, index: u8, order: seq<u8>, n: nat, handled: set<u8>)
    requires n <= |order| && Width(quantity).Some?
    requires forall k :: 0 <= k < n ==> (order[k] in handled <==> Reading(net, quantity, index, order, k).Some?)
    ensures Missing(quantity, index, order, n, handled) == Part(net, quantity, index, order, n, false)
  {
    if n > 0 {
      MissingIsPart(net, quantity, index, order, n - 1, handled);
    }
  }

  /** Attribution by position gives every device its own reading. */
  lemma AssembledIsCollected(net: Net, quantity: u8, index: u8, order: seq<u8>)
    requires Width(quantity).Some? && Distinct(order)
    ensures Assembled(net, quantity, index, order) == Collected(net, quantity, index, order)
  {
    var handled := Handled(Seen(net, quantity, index, order));
    forall k | 0 <= k < |order| ensures order[k] in handled <==> Reading(net, quantity, index, order, k).Some? {
      HandledIff(net, quantity, index, order, k);
    }
    MissingIsPart(net, quantity, index, order, |order|, handled);
    SeenIsPart(net, quantity, index, order, |order|);
  }

  /** Whatever a batch collects for a device is what that device reports: its own value exactly when it has one and its
      slot was fetched. */
  lemma CollectedOwn(net: Net, quantity: u8, index: u8, order: seq<u8>, s: Sensor)
    requires Width(quantity).Some? && s in Collected(net, quantity, index, order)
    ensures exists k :: 0 <= k < |order| && s.key == Key(order[k], quantity, index) &&
                        s.value == Reading(net, quantity, index, order, k)
  {
    PartMembers(net, quantity, index, order, |order|, true, s);
    PartMembers(net, quantity, index, order, |order|, false, s);
  }

  /** Of so many devices of a quantity, the k-th one's slot is fetched and decoded: a batch of 27 two-byte, 55 one-byte
      or 13 four-byte devices loses its last, and no more than 31, 63 or 15 have a slot at all. */
  ghost predicate Arrives(quantity: u8, count: nat, k: nat) {
    if quantity <= 0x7F then k < 31 && !(k + 1 == count == 27)
    else if quantity <= 0x9F then k < 63 && !(k + 1 == count == 55)
    else k < 15 && !(k + 1 == count == 13)
  }

  /** The k-th device delivers the value `v`. */
  ghost predicate Delivers(net: Net, key: Key, order: seq<u8>, k: nat, v: int) {
    && k < |order| && order[k] == key.address && Arrives(key.quantity, |order|, k)
    && key in net.field && net.field[key] == v
  }

  ghost predicate DeliversIn(net: Net, key: Key, order: seq<u8>, v: int) {
    exists k: nat :: Delivers(net, key, order, k, v)
  }

  /** A list has a value of a sensor of this quantity and index exactly when a device of the batch delivers it. */
  ghost predicate ValuesOf(net: Net, quantity: u8, index: u8, order: seq<u8>, list: seq<Sensor>) {
    forall key, v :: Sensor(key, Some(v)) in list <==>
                     key.quantity == quantity && key.index == index && DeliversIn(net, key, order, v)
  }

  lemma ReadingIff(net: Net, quantity: u8, index: u8, order: seq<u8>, k: nat, v: int)
    requires k < |order| && Width(quantity).Some?
    ensures Reading(net, quantity, index, order, k) == Some(v) <==>
            Delivers(net, Key(order[k], quantity, index), order, k, v)
  {
  }

  lemma PartValueIff(net: Net, quantity: u8, index: u8, order: seq<u8>, key: Key, v: int)
    requires Width(quantity).Some?
    ensures Sensor(key, Some(v)) in Part(net, quantity, index, order, |order|, true) <==>
            key.quantity == quantity && key.index == index && DeliversIn(net, key, order, v)
    ensures Sensor(key, Some(v)) !in Part(net, quantity, index, order, |order|, false)
  {
    var s := Sensor(key, Some(v));
    PartMembers(net, quantity, index, order, |order|, true, s);
    PartMembers(net, quantity, index, order, |order|, false, s);
    if s in Part(net, quantity, index, order, |order|, true) {
      var k :| 0 <= k < |order| && s in One(net, quantity, index, order, k, true);
      ReadingIff(net, quantity, index, order, k, v);
      assert Delivers(net, key, order, k, v);
    }
    if key.quantity == quantity && key.index == index && DeliversIn(net, key, order, v) {
      var k: nat :| Delivers(net, key, order, k, v);
      ReadingIff(net, quantity, index, order, k, v);
      assert s in One(net, quantity, index, order, k, true);
    }
  }

  ghost predicate NoValues(list: seq<Sensor>) {
    forall key, v :: Sensor(key, Some(v)) !in list
  }

  lemma PartValues(net: Net, quantity: u8, index: u8, order: seq<u8>)
    requires Width(quantity).Some?
    ensures ValuesOf(net, quantity, index, order, Part(net, quantity, index, order, |order|, true))
    ensures NoValues(Part(net, quantity, index, order, |order|, false))
  {
    forall key, v
      ensures Sensor(key, Some(v)) in Part(net, quantity, index, order, |order|, true) <==>
              key.quantity == quantity && key.index == index && DeliversIn(net, key, order, v)
    {
      PartValueIff(net, quantity, index, order, key, v);
    }
    forall key, v ensures Sensor(key, Some(v)) !in Part(net, quantity, index, order, |order|, false) {
      PartValueIff(net, quantity, index, order, key, v);
    }
  }

  lemma ValuesJoin(net: Net, quantity: u8, index: u8, order: seq<u8>, a: seq<Sensor>, b: seq<Sensor>)
    requires ValuesOf(net, quantity, index, order, a) && NoValues(b)
    ensures ValuesOf(net, quantity, index, order, a + b)
  {
  }

  /** A batch yields a value of a sensor exactly when the device of that address has it and its slot arrives, with or
      without placeholders. */
  lemma BatchValueIff(net: Net, quantity: u8, index: u8, order: seq<u8>)
    requires Width(quantity).Some?
    ensures ValuesOf(net, quantity, index, order, Collected(net, quantity, index, order))
    ensures ValuesOf(net, quantity, index, order, Seen(net, quantity, index, order))
  {
    var part := Part(net, quantity, index, order, |order|, true);
    SeenIsPart(net, quantity, index, order, |order|);
    PartValues(net, quantity, index, order);
    var rest := if quantity in net.known then Part(net, quantity, index, order, |order|, false) else [];
    ValuesJoin(net, quantity, index, order, part, rest);
    assert Collected(net, quantity, index, order) == part + rest;
    assert Seen(net, quantity, index, order) == part;
  }

  /** All 31 devices of a two-byte quantity arrive, and the last of 27 does not. */
  lemma ArrivesExample()
    ensures Arrives(1, 31, 30) && Arrives(1, 26, 25) && !Arrives(1, 27, 26)
  {
  }

  // ---------------------------------------------------------------- counting readings

  /** How often `key` has a reading in a list. */
  ghost function Tally(list: seq<Sensor>, key: Key): nat {
    if list == [] then 0 else Tally(list[..|list| - 1], key) + if list[|list| - 1].key == key then 1 else 0
  }

  ghost function Total(data: Data, key: Key): nat {
    if key.address in data then Tally(data[key.address], key) else 0
  }

  lemma {:induction false} TallyConcat(a: seq<Sensor>, b: seq<Sensor>, key: Key)
    ensures Tally(a + b, key) == Tally(a, key) + Tally(b, key)
    decreases |b|
  {
    if b == [] {
      assert a + b == a;
    } else {
      var n := |b| - 1;
      assert (a + b)[..|a + b| - 1] == a + b[..n];
      TallyConcat(a, b[..n], key);
    }
  }

  lemma TallyOne(s: Sensor, key: Key)
    ensures Tally([s], key) == if s.key == key then 1 else 0
  {
    assert [s][..0] == [];
  }

  ghost predicate Distinct(order: seq<u8>) {
    forall i, j :: 0 <= i < j < |order| ==> order[i] != order[j]
  }

  /** Whether `key` is a sensor of one of the first `n` devices. */
  ghost function Asks(quantity: u8, index: u8, order: seq<u8>, n: nat, key: Key): nat
    requires n <= |order|
  {
    if n == 0 then 0
    else Asks(quantity, index, order, n - 1, key) + if key == Key(order[n - 1], quantity, index) then 1 else 0
  }

  /** The k-th device gives a reading of `key`, or none. */
  ghost predicate Gives(net: Net, quantity: u8, index: u8, order: seq<u8>, k: nat, key: Key, answered: bool)
    requires k < |order| && Width(quantity).Some?
  {
    Reading(net, quantity, index, order, k).Some? == answered && key == Key(order[k], quantity, index)
  }

  /** Readings of `key` among the first `n` devices, or placeholders for it. */
  ghost function Given(net: Net, quantity: u8, index: u8, order: seq<u8>, n: nat, key: Key, answered: bool): nat
    requires n <= |order| && Width(quantity).Some?
  {
    if n == 0 then 0
    else Given(net, quantity, index, order, n - 1, key, answered) +
         if Gives(net, quantity, index, order, n - 1, key, answered) then 1 else 0
  }

  lemma TallyOf(net: Net, quantity: u8, index: u8, order: seq<u8>, k: nat, answered: bool, key: Key)
    requires k < |order| && Width(quantity).Some?
    ensures Tally(One(net, quantity, index, order, k, answered), key) ==
            if Gives(net, quantity, index, order, k, key, answered) then 1 else 0
  {
    TallyOne(Sensor(Key(order[k], quantity, index), Reading(net, quantity, index, order, k)), key);
  }

  lemma {:induction false} PartGiven(net: Net, quantity: u8, index: u8, order: seq<u8>, n: nat, answered: bool,
                                     key: Key)
    requires n <= |order| && Width(quantity).Some?
    ensures Tally(Part(net, quantity, index, order, n, answered), key) ==
        Given(net, quantity, index, order, n, key, answered)
  {
    if n > 0 {
      var part, one := Part(net, quantity, index, order, n - 1, answered),
          One(net, quantity, index, order, n - 1, answered);
      PartGiven(net, quantity, index, order, n - 1, answered, key);
      TallyOf(net, quantity, index, order, n - 1, answered, key);
      TallyConcat(part, one, key);
    }
  }

  /** Each of the first `n` devices is answered for or filled in. */
  lemma {:induction false} GivenIsAsks(net: Net, quantity: u8, index: u8, order: seq<u8>, n: nat, key: Key)
    requires n <= |order| && Width(quantity).Some?
    ensures Given(net, quantity, index, order, n, key, true) + Given(net, quantity, index, order, n, key, false) ==
            Asks(quantity, index, order, n, key)
  {
    if n > 0 {
      GivenIsAsks(net, quantity, index, order, n - 1, key);
    }
  }

  lemma PrefixMember(order: seq<u8>, n: nat, a: u8)
    requires n < |order| && Distinct(order)
    ensures a in order[..n + 1] <==> a in order[..n] || a == order[n]
    ensures order[n] !in order[..n]
  {
    assert order[..n + 1] == order[..n] + [order[n]];
  }

  /** Different devices are asked for once each. */
  lemma {:induction false} AsksOnce(quantity: u8, index: u8, order: seq<u8>, n: nat, key: Key)
    requires n <= |order| && Distinct(order)
    ensures Asks(quantity, index, order, n, key) ==
            if key.quantity == quantity && key.index == index && key.address in order[..n] then 1 else 0
  {
    if n > 0 {
      AsksOnce(quantity, index, order, n - 1, key);
      PrefixMember(order, n - 1, key.address);
    }
  }

  /** A batch yields exactly one reading for each of its devices when the quantity is known, and none for others. */
  lemma BatchTally(net: Net, quantity: u8, index: u8, order: seq<u8>, key: Key)
    requires Width(quantity).Some? && quantity in net.known && Distinct(order)
    ensures Tally(Collected(net, quantity, index, order), key) ==
            if key.quantity == quantity && key.index == index && key.address in order then 1 else 0
  {
    PartGiven(net, quantity, index, order, |order|, true, key);
    PartGiven(net, quantity, index, order, |order|, false, key);
    GivenIsAsks(net, quantity, index, order, |order|, key);
    AsksOnce(quantity, index, order, |order|, key);
    TallyConcat(Part(net, quantity, index, order, |order|, true), Part(net, quantity, index, order, |order|, false),
        key);
    assert order[..|order|] == order;
  }

  // ---------------------------------------------------------------- storing readings

  function Append(data: Data, s: Sensor): Data {
    data[s.key.address := (if s.key.address in data then data[s.key.address] else []) + [s]]
  }

  /** Storing a list: an unknown address is registered, and then the rest of the list is dropped. */
  ghost function Added(data: Data, list: seq<Sensor>): Data
    decreases |list|
  {
    if list == [] then data
    else if list[0].key.address !in data then Append(data, list[0])
    else Added(Append(data, list[0]), list[1..])
  }

  ghost predicate Registered(data: Data, list: seq<Sensor>) {
    forall i :: 0 <= i < |list| ==> list[i].key.address in data
  }

  /** All of the list but its last entry is registered. */
  ghost predicate NoneDropped(data: Data, list: seq<Sensor>) {
    forall i :: 0 <= i < |list| - 1 ==> list[i].key.address in data
  }

  /** A list is stored whole exactly when all its addresses but possibly the last are registered. */
  lemma {:induction false} StoredWholeIff(data: Data, list: seq<Sensor>)
    ensures (forall key :: Total(Added(data, list), key) == Total(data, key) + Tally(list, key)) <==>
        NoneDropped(data, list)
    decreases |list|
  {
    if list == [] {
    } else {
      var s, rest := list[0], list[1..];
      forall key ensures Tally(list, key) == Tally(rest, key) + if s.key == key then 1 else 0 {
        assert list == [s] + rest;
        TallyConcat([s], rest, key);
        TallyOne(s, key);
      }
      forall key ensures Total(Append(data, s), key) == Total(data, key) + if s.key == key then 1 else 0 {
        AppendTotal(data, s, key);
      }
      if s.key.address in data {
        StoredWholeIff(Append(data, s), rest);
        assert NoneDropped(Append(data, s), rest) <==> NoneDropped(data, list) by {
          assert forall i :: 0 < i < |list| ==> rest[i - 1] == list[i];
          assert Append(data, s).Keys == data.Keys;
        }
      } else if rest != [] {
        var key := rest[|rest| - 1].key;
        TallyPositive(rest);
        assert Total(Added(data, list), key) != Total(data, key) + Tally(list, key);
        assert list[0].key.address !in data;
      }
    }
  }

  /** A reading of an unregistered node 1 is stored, the one of the registered node 2 behind it is dropped. */
  lemma DroppedExample(s: Sensor, t: Sensor)
    requires s.key.address == 1 && t.key.address == 2
    ensures Added(map[2 := []], [s, t]) == map[1 := [s], 2 := []]
  {
    assert [s, t][0] == s && [] + [s] == [s];
  }

  lemma AppendTotal(data: Data, s: Sensor, key: Key)
    ensures Total(Append(data, s), key) == Total(data, key) + if s.key == key then 1 else 0
  {
    var was := if s.key.address in data then data[s.key.address] else [];
    TallyConcat(was, [s], key);
    TallyOne(s, key);
  }

  lemma TallyPositive(list: seq<Sensor>)
    requires list != []
    ensures Tally(list, list[|list| - 1].key) > 0
  {
  }

  /** With all addresses registered nothing is dropped and no address is added. */
  lemma {:induction false} AddedTotal(data: Data, list: seq<Sensor>, key: Key)
    requires Registered(data, list)
    ensures Added(data, list).Keys == data.Keys
    ensures Total(Added(data, list), key) == Total(data, key) + Tally(list, key)
    decreases |list|
  {
    if list != [] {
      var s, rest := list[0], list[1..];
      assert list == [s] + rest;
      AppendTotal(data, s, key);
      TallyConcat([s], rest, key);
      TallyOne(s, key);
      assert Append(data, s).Keys == data.Keys;
      AddedTotal(Append(data, s), rest, key);
    }
  }

  // ---------------------------------------------------------------- all batches of one index

  ghost function Collect(data: Data, net: Net, quantity: u8, index: u8, chunks: seq<seq<u8>>): Data
    requires chunks != [] ==> Width(quantity).Some?
    decreases |chunks|
  {
    if chunks == [] then data
    else Collect(Added(data, Collected(net, quantity, index, Batch(chunks[0]))), net, quantity, index, chunks[1..])
  }

  /** How many batches ask a device. */
  ghost function Containing(chunks: seq<seq<u8>>, address: u8): nat {
    if chunks == [] then 0 else (if address in chunks[0] then 1 else 0) + Containing(chunks[1..], address)
  }

  ghost predicate AllIn(addresses: seq<u8>, data: Data) {
    forall a :: a in addresses ==> a in data
  }

  /** One batch with registered devices adds one reading for each of them. */
  lemma OneBatch(data: Data, net: Net, quantity: u8, index: u8, chunk: seq<u8>, key: Key)
    requires Width(quantity).Some? && quantity in net.known && AllIn(chunk, data)
    ensures var after := Added(data, Collected(net, quantity, index, Batch(chunk)));
      && after.Keys == data.Keys
      && Total(after, key) == Total(data, key) +
           if key.quantity == quantity && key.index == index && key.address in chunk then 1 else 0
  {
    var order := Batch(chunk);
    forall s | s in Collected(net, quantity, index, order) ensures s.key.address in data {
      CollectedOwn(net, quantity, index, order, s);
      assert s.key.address in order;
      assert s.key.address in chunk;
    }
    AddedTotal(data, Collected(net, quantity, index, order), key);
    BatchTally(net, quantity, index, order, key);
  }

  /** Every device gets as many readings as batches ask it. */
  lemma {:induction false} CollectTotal(data: Data, net: Net, quantity: u8, index: u8, chunks: seq<seq<u8>>, key: Key)
    requires chunks != [] ==> Width(quantity).Some? && quantity in net.known
    requires forall i :: 0 <= i < |chunks| ==> AllIn(chunks[i], data)
    ensures var after := Collect(data, net, quantity, index, chunks);
      && after.Keys == data.Keys
      && Total(after, key) == Total(data, key) +
           if key.quantity == quantity && key.index == index then Containing(chunks, key.address) else 0
    decreases |chunks|
  {
    if chunks != [] {
      OneBatch(data, net, quantity, index, chunks[0], key);
      CollectTotal(Added(data, Collected(net, quantity, index, Batch(chunks[0]))), net, quantity, index, chunks[1..],
          key);
    }
  }

  /** The batches ask exactly the devices of the list. */
  lemma {:induction false} ChunksCover(addresses: seq<u8>, size: nat, passes: nat, a: u8)
    requires size > 0
    ensures Containing(Chunks(addresses, size, passes), a) > 0 <==> a in addresses
    ensures forall c :: c in Chunks(addresses, size, passes) ==> c != [] && forall x :: x in c ==> x in addresses
    decreases passes
  {
    var chunks := Chunks(addresses, size, passes);
    if addresses != [] && (passes == 0 || |addresses| < size) {
      assert chunks[1..] == [];
    } else if addresses != [] {
      assert chunks[1..] == Chunks(addresses[size..], size, passes - 1);
      ChunksCover(addresses[size..], size, passes - 1, a);
      assert addresses == addresses[..size] + addresses[size..];
    }
  }

  /** None exceeds the size when there are as many passes as the list holds full batches. */
  lemma {:induction false} ChunkSizes(addresses: seq<u8>, size: nat, passes: nat)
    requires size > 0 && passes >= Quotient(|addresses|, size)
    ensures forall c :: c in Chunks(addresses, size, passes) ==> |c| <= size
    decreases passes
  {
    if passes > 0 && |addresses| >= size {
      ChunkSizes(addresses[size..], size, passes - 1);
    }
  }

  ghost function BatchIndex(i: nat, size: nat, passes: nat): nat
    requires size > 0
    decreases passes
  {
    if passes == 0 || i < size then 0 else 1 + BatchIndex(i - size, size, passes - 1)
  }

  /** All occurrences of a device fall into one batch. */
  ghost predicate InOneBatch(addresses: seq<u8>, size: nat, passes: nat, a: u8)
    requires size > 0
  {
    forall i, j :: 0 <= i < |addresses| && 0 <= j < |addresses| && addresses[i] == a && addresses[j] == a ==>
      BatchIndex(i, size, passes) == BatchIndex(j, size, passes)
  }

  lemma InOneBatchTail(addresses: seq<u8>, size: nat, passes: nat, a: u8)
    requires 0 < size <= |addresses| && passes > 0
    ensures InOneBatch(addresses, size, passes, a) <==>
              InOneBatch(addresses[size..], size, passes - 1, a) && !(a in addresses[..size] && a in addresses[size..])
  {
    var tail := addresses[size..];
    forall i | 0 <= i < |tail|
      ensures tail[i] == addresses[i + size] &&
          BatchIndex(i + size, size, passes) == 1 + BatchIndex(i, size, passes - 1)
    {
    }
    if InOneBatch(addresses, size, passes, a) {
      forall i, j | 0 <= i < |tail| && 0 <= j < |tail| && tail[i] == a && tail[j] == a
        ensures BatchIndex(i, size, passes - 1) == BatchIndex(j, size, passes - 1)
      {
        assert addresses[i + size] == a && addresses[j + size] == a;
      }
      forall i, j | 0 <= i < size && 0 <= j < |tail| ensures !(addresses[i] == a && tail[j] == a) {
        assert BatchIndex(i, size, passes) == 0 && BatchIndex(j + size, size, passes) > 0;
        assert addresses[j + size] == tail[j];
      }
    }
    if InOneBatch(tail, size, passes - 1, a) && !(a in addresses[..size] && a in tail) {
      forall i, j | 0 <= i < |addresses| && 0 <= j < |addresses| && addresses[i] == a && addresses[j] == a
        ensures BatchIndex(i, size, passes) == BatchIndex(j, size, passes)
      {
        assert i >= size ==> tail[i - size] == a;
        assert j >= size ==> tail[j - size] == a;
        assert i < size ==> addresses[..size][i] == a;
        assert j < size ==> addresses[..size][j] == a;
      }
    }
  }

  /** A device is asked at most once exactly when its occurrences fall into one batch. */
  lemma {:induction false} AskedOnceIff(addresses: seq<u8>, size: nat, passes: nat, a: u8)
    requires size > 0
    ensures Containing(Chunks(addresses, size, passes), a) <= 1 <==> InOneBatch(addresses, size, passes, a)
    decreases passes
  {
    var chunks := Chunks(addresses, size, passes);
    if addresses != [] && (passes == 0 || |addresses| < size) {
      assert chunks[1..] == [];
    } else if addresses != [] {
      assert chunks[1..] == Chunks(addresses[size..], size, passes - 1);
      AskedOnceIff(addresses[size..], size, passes - 1, a);
      ChunksCover(addresses[size..], size, passes - 1, a);
      InOneBatchTail(addresses, size, passes, a);
    }
  }

  /** The addresses 1 to n. */
  function UpTo(n: u8): (r: seq<u8>)
    ensures |r| == n as nat && forall k :: 0 <= k < |r| ==> r[k] == k + 1
  {
    if n == 0 then [] else UpTo(n - 1) + [n]
  }

  /** A sensor of a two-byte quantity stored in the rows 30 and 31 of its list is read twice. */
  lemma ReadTwiceExample()
    ensures Quotient(32, SizeOf(1)) == 1 && Containing(Chunks(UpTo(31) + [31], SizeOf(1), 1), 31) == 2
  {
    var addresses := UpTo(31) + [31];
    var chunks := Chunks(addresses, 31, 1);
    assert addresses[31..] == [31] && 31 in addresses[..31] by { assert addresses[..31][30] == 31; }
    assert chunks == [addresses[..31], [31]] by {
      assert Chunks([31], 31, 0) == [[31]];
    }
    assert chunks[1..] == [[31]] && [[31]][1..] == [];
    assert Containing([[31]], 31) == 1;
  }

  // ---------------------------------------------------------------- reading a byte of memory from many devices

  /** The devices of one memory read. */
  type Piece = s: seq<u8> | |s| < FULL_ANSWER witness []

  /** Whatever follows the first answer in memory. */
  type Remains = s: seq<u8> | |s| == FULL_ANSWER witness Zeros(FULL_ANSWER)

  function Zeros(n: nat): (r: seq<u8>)
    ensures |r| == n
  {
    if n == 0 then [] else Zeros(n - 1) + [0]
  }

  /** The bytes of the nodes, in order; a node that does not answer counts as 0. */
  ghost function Values(nodes: seq<u8>, memory: map<u8, u8>): (r: seq<u8>)
    ensures |r| == |nodes|
    ensures forall k :: 0 <= k < |r| ==> r[k] == if nodes[k] in memory then memory[nodes[k]] else 0
  {
    if nodes == [] then []
    else
      var last := nodes[|nodes| - 1];
      Values(nodes[..|nodes| - 1], memory) + [if last in memory then memory[last] else 0]
  }

  /** The answer to a memory read: the coordinator's slot, then one byte per device, filled up to its full size. */
  ghost function AnswerBytes(piece: Piece, memory: map<u8, u8>): (r: seq<u8>)
    ensures |r| == FULL_ANSWER
  {
    [0] + Values(piece, memory) + Zeros(FULL_ANSWER - 1 - |piece|)
  }

  /** What the code takes from the answers for a piece of `n` devices: as many bytes as devices from the first answer,
      running into what follows it, and all of the extra result for more than 55 devices. */
  function Taken(answer: seq<u8>, n: nat, beyond: Remains): seq<u8>
    requires |answer| == FULL_ANSWER && n < FULL_ANSWER
  {
    (answer[..FIRST_ANSWER] + beyond)[1..1 + n] + if n > FIRST_ANSWER then answer[FIRST_ANSWER..] else []
  }

  /** One byte per device, and nine more exactly for more than 55. */
  lemma TakenSize(answer: seq<u8>, n: nat, beyond: Remains)
    requires |answer| == FULL_ANSWER && n < FULL_ANSWER
    ensures |Taken(answer, n, beyond)| == n + if n > 55 then 9 else 0
  {
  }

  ghost function TakenAll(pieces: seq<Piece>, memory: map<u8, u8>, beyond: Remains): seq<u8> {
    if pieces == [] then []
    else Taken(AnswerBytes(pieces[0], memory), |pieces[0]|, beyond) + TakenAll(pieces[1..], memory, beyond)
  }

  lemma {:induction false} TakenConcat(a: seq<Piece>, b: seq<Piece>, memory: map<u8, u8>, beyond: Remains)
    ensures TakenAll(a + b, memory, beyond) == TakenAll(a, memory, beyond) + TakenAll(b, memory, beyond)
  {
    if a == [] {
      assert a + b == b;
    } else {
      assert (a + b)[1..] == a[1..] + b;
      TakenConcat(a[1..], b, memory, beyond);
    }
  }

  lemma TakenNext(pieces: seq<Piece>, i: nat, memory: map<u8, u8>, beyond: Remains)
    requires i < |pieces|
    ensures TakenAll(pieces[..i + 1], memory, beyond) ==
            TakenAll(pieces[..i], memory, beyond) + Taken(AnswerBytes(pieces[i], memory), |pieces[i]|, beyond)
  {
    var last: seq<Piece> := [pieces[i]];
    assert pieces[..i + 1] == pieces[..i] + last;
    TakenConcat(pieces[..i], last, memory, beyond);
    assert last[1..] == [] && TakenAll([], memory, beyond) == [];
  }

  ghost function Count(pieces: seq<seq<u8>>): nat {
    if pieces == [] then 0 else |pieces[0]| + Count(pieces[1..])
  }

  lemma {:induction false} TakenAtLeast(pieces: seq<Piece>, memory: map<u8, u8>, beyond: Remains)
    ensures |TakenAll(pieces, memory, beyond)| >= Count(pieces)
  {
    if pieces != [] {
      TakenAtLeast(pieces[1..], memory, beyond);
    }
  }

  lemma {:induction false} ChunksCount(addresses: seq<u8>, size: nat, passes: nat)
    requires size > 0
    ensures Count(Chunks(addresses, size, passes)) == |addresses|
    decreases passes
  {
    var chunks := Chunks(addresses, size, passes);
    if addresses != [] && (passes == 0 || |addresses| < size) {
      assert chunks[1..] == [];
    } else if addresses != [] {
      assert chunks[1..] == Chunks(addresses[size..], size, passes - 1);
      ChunksCount(addresses[size..], size, passes - 1);
    }
  }

  /** The pieces of a set of nodes. */
  ghost function Pieces(nodes: seq<u8>): seq<Piece> {
    ChunkSizes(nodes, PIECE, Quotient(|nodes|, PIECE));
    Chunks(nodes, PIECE, Quotient(|nodes|, PIECE))
  }

  const PIECE: nat := FULL_ANSWER - 1

  /** Byte k is node k's, and there are no more. */
  ghost predicate ReadRight(nodes: seq<u8>, memory: map<u8, u8>, beyond: Remains) {
    TakenAll(Pieces(nodes), memory, beyond) == Values(nodes, memory)
  }

  lemma OnePiece(nodes: seq<u8>, memory: map<u8, u8>, beyond: Remains)
    requires 0 < |nodes| < PIECE
    ensures TakenAll(Pieces(nodes), memory, beyond) == Taken(AnswerBytes(nodes, memory), |nodes|, beyond)
  {
    assert Pieces(nodes) == [nodes];
    assert Pieces(nodes)[1..] == [];
    assert TakenAll([], memory, beyond) == [];
  }

  lemma Middle(x: u8, a: seq<u8>, b: seq<u8>)
    ensures ([x] + a + b)[1..1 + |a|] == a
  {
  }

  lemma FirstBytes(answer: seq<u8>, n: nat, beyond: Remains)
    requires |answer| == FULL_ANSWER && n < FIRST_ANSWER
    ensures Taken(answer, n, beyond) == answer[1..1 + n]
  {
    assert (answer[..FIRST_ANSWER] + beyond)[1..1 + n] == answer[1..1 + n];
  }

  lemma FewReadRight(nodes: seq<u8>, memory: map<u8, u8>, beyond: Remains)
    requires |nodes| < FIRST_ANSWER
    ensures ReadRight(nodes, memory, beyond)
  {
    if nodes != [] {
      OnePiece(nodes, memory, beyond);
      Middle(0, Values(nodes, memory), Zeros(PIECE - |nodes|));
      FirstBytes(AnswerBytes(nodes, memory), |nodes|, beyond);
    }
  }

  /** With 55 devices the last byte is not from the answer at all. */
  lemma LastByteForeign(nodes: seq<u8>, memory: map<u8, u8>, beyond: Remains)
    requires |nodes| == FIRST_ANSWER && beyond[0] != Values(nodes, memory)[FIRST_ANSWER - 1]
    ensures !ReadRight(nodes, memory, beyond)
  {
    OnePiece(nodes, memory, beyond);
    assert Taken(AnswerBytes(nodes, memory), |nodes|, beyond)[FIRST_ANSWER - 1] == beyond[0];
  }

  lemma ManyReadTooMuch(nodes: seq<u8>, memory: map<u8, u8>, beyond: Remains)
    requires |nodes| > FIRST_ANSWER
    ensures !ReadRight(nodes, memory, beyond)
  {
    var pieces := Pieces(nodes);
    ChunksCount(nodes, PIECE, Quotient(|nodes|, PIECE));
    assert |pieces[0]| > FIRST_ANSWER;
    TakenAtLeast(pieces[1..], memory, beyond);
  }

  function Ones(n: nat): (r: seq<u8>)
    ensures |r| == n && forall k :: 0 <= k < n ==> r[k] == 1
  {
    if n == 0 then [] else Ones(n - 1) + [1]
  }

  /** The nodes 1 to 55 all hold 0, and a 1 follows the first answer: it is taken for the byte of node 55. */
  lemma ForeignByteExample()
    ensures !ReadRight(UpTo(55), map[], Ones(FULL_ANSWER))
  {
    LastByteForeign(UpTo(55), map[], Ones(FULL_ANSWER));
  }

  /** Whatever the nodes' memories and whatever follows the first answer, a memory read gives byte k to node k exactly
      for up to 54 devices. */
  lemma MemoryReadRightIff(nodes: seq<u8>)
    ensures (forall memory: map<u8, u8>, beyond: Remains :: ReadRight(nodes, memory, beyond)) <==>
        |nodes| < FIRST_ANSWER
  {
    if |nodes| < FIRST_ANSWER {
      forall memory: map<u8, u8>, beyond: Remains ensures ReadRight(nodes, memory, beyond) {
        FewReadRight(nodes, memory, beyond);
      }
    } else if |nodes| == FIRST_ANSWER {
      LastByteForeign(nodes, map[], Ones(FULL_ANSWER));
    } else {
      ManyReadTooMuch(nodes, map[], Ones(FULL_ANSWER));
    }
  }

  // ---------------------------------------------------------------- the round

  datatype Entry = Entry(address: u8, index: u8)

  ghost function Select(entries: seq<Entry>, index: u8): seq<u8> {
    if entries == [] then []
    else Select(entries[..|entries| - 1], index) +
         if entries[|entries| - 1].index == index then [entries[|entries| - 1].address] else []
  }

  /** Every entry that the round asks for has a quantity it can ask for. */
  ghost predicate Supported(quantity: u8, entries: seq<Entry>) {
    forall i :: 0 <= i < |entries| && entries[i].index < 32 ==> Width(quantity).Some?
  }

  function SizeOf(quantity: u8): (n: nat)
    ensures n > 0
  {
    if DeviceCount(quantity).Some? then DeviceCount(quantity).value else 1
  }

  /** The eight-bit number of full batches for a list of `n` addresses. */
  function Passes(quantity: u8, n: nat): nat {
    Quotient(n, SizeOf(quantity)) % 0x100
  }

  ghost function ChunksOf(quantity: u8, addresses: seq<u8>): seq<seq<u8>> {
    Chunks(addresses, SizeOf(quantity), Passes(quantity, |addresses|))
  }

  /** Cutting one more batch off the rest leaves the whole the same. */
  lemma CutNext(vectors: seq<seq<u8>>, rest: seq<u8>, size: nat, passes: nat, whole: seq<seq<u8>>)
    requires size > 0 && 0 < passes <= Quotient(|rest|, size) && vectors + Chunks(rest, size, passes) == whole
    ensures |rest| >= size && Quotient(|rest[size..]|, size) >= passes - 1
    ensures vectors + [rest[..size]] + Chunks(rest[size..], size, passes - 1) == whole
  {
    var tail := Chunks(rest[size..], size, passes - 1);
    assert Chunks(rest, size, passes) == [rest[..size]] + tail;
    assert vectors + ([rest[..size]] + tail) == vectors + [rest[..size]] + tail;
  }

  lemma {:induction false} TooFewPasses(addresses: seq<u8>, size: nat, passes: nat)
    requires size > 0 && passes + 2 <= Quotient(|addresses|, size)
    ensures exists c :: c in Chunks(addresses, size, passes) && |c| > size
    decreases passes
  {
    if passes == 0 {
      assert Quotient(|addresses| - size, size) >= 1;
      assert addresses in Chunks(addresses, size, passes);
    } else {
      TooFewPasses(addresses[size..], size, passes - 1);
      var c :| c in Chunks(addresses[size..], size, passes - 1) && |c| > size;
      assert c in Chunks(addresses, size, passes);
    }
  }

  /** All batches of a list keep to the size exactly when the number of full ones fits its eight bits. */
  lemma BatchesFitIff(quantity: u8, addresses: seq<u8>)
    ensures (forall c :: c in ChunksOf(quantity, addresses) ==> |c| <= SizeOf(quantity)) <==>
            Quotient(|addresses|, SizeOf(quantity)) < 256
  {
    var q := Quotient(|addresses|, SizeOf(quantity));
    if q < 256 {
      ChunkSizes(addresses, SizeOf(quantity), Passes(quantity, |addresses|));
    } else {
      TooFewPasses(addresses, SizeOf(quantity), Passes(quantity, |addresses|));
    }
  }

  lemma {:induction false} SelectMembers(entries: seq<Entry>, index: u8, a: u8)
    ensures a in Select(entries, index) <==> Entry(a, index) in entries
  {
    if entries != [] {
      var n := |entries| - 1;
      SelectMembers(entries[..n], index, a);
      assert entries == entries[..n] + [entries[n]];
    }
  }

  lemma SupportedSelect(quantity: u8, entries: seq<Entry>, index: u8)
    requires Supported(quantity, entries) && index < 32 && Select(entries, index) != []
    ensures Width(quantity).Some?
  {
    SelectMembers(entries, index, Select(entries, index)[0]);
  }

  /** The indexes from `index` to 31 of one quantity. */
  ghost function Indexes(data: Data, net: Net, quantity: u8, entries: seq<Entry>, index: nat): Data
    requires index <= 32 && Supported(quantity, entries)
    decreases 32 - index
  {
    if index == 32 then data
    else
      var chunks := ChunksOf(quantity, Select(entries, index));
      assert chunks != [] ==> Width(quantity).Some? by {
        if chunks != [] { SupportedSelect(quantity, entries, index); }
      }
      Indexes(Collect(data, net, quantity, index, chunks), net, quantity, entries, index + 1)
  }

  lemma IndexesNext(data: Data, net: Net, quantity: u8, entries: seq<Entry>, index: nat)
    requires index < 32 && Supported(quantity, entries)
    ensures Select(entries, index) == [] ==>
              Indexes(data, net, quantity, entries, index) == Indexes(data, net, quantity, entries, index + 1)
    ensures Select(entries, index) != [] ==>
      && Width(quantity).Some?
      && Indexes(data, net, quantity, entries, index) ==
         var next := Collect(data, net, quantity, index, ChunksOf(quantity, Select(entries, index)));
         Indexes(next, net, quantity, entries, index + 1)
  {
    if Select(entries, index) != [] {
      SupportedSelect(quantity, entries, index);
    } else {
      assert ChunksOf(quantity, []) == [];
    }
  }

  ghost predicate SupportedAll(entries: map<u8, seq<Entry>>, types: seq<u8>) {
    forall t :: t in types ==> t in entries && (t < 0xC0 ==> Supported(t, entries[t]))
  }

  /** An FRC command reads the quantity. */
  predicate Readable(quantity: u8) {
    0x01 <= quantity <= 0x1D || 0x80 <= quantity <= 0x85 || 0xA0 <= quantity <= 0xA7
  }

  /** A round completes exactly when every stored sensor of its quantities below 0xC0 with an index below 32 has a
      quantity that an FRC command reads. */
  lemma CompletesIff(entries: map<u8, seq<Entry>>, types: seq<u8>)
    requires forall t :: t in types ==> t in entries
    ensures SupportedAll(entries, types) <==>
            forall t, e :: t in types && t < 0xC0 && e in entries[t] && e.index < 32 ==> Readable(t)
  {
    forall t | t in types && t < 0xC0
      ensures Supported(t, entries[t]) <==> forall e :: e in entries[t] && e.index < 32 ==> Readable(t)
    {
      forall i | 0 <= i < |entries[t]| ensures entries[t][i] in entries[t] {
      }
    }
  }

  ghost function Round(data: Data, net: Net, entries: map<u8, seq<Entry>>, types: seq<u8>): Data
    requires SupportedAll(entries, types)
    decreases |types|
  {
    if types == [] then data
    else Round(AfterType(data, net, types[0], entries[types[0]]), net, entries, types[1..])
  }

  ghost function AfterType(data: Data, net: Net, quantity: u8, entries: seq<Entry>): Data
    requires quantity < 0xC0 ==> Supported(quantity, entries)
  {
    if quantity < 0xC0 then Indexes(data, net, quantity, entries, 0) else data
  }

  ghost predicate Listed(data: Data, entries: seq<Entry>) {
    forall e :: e in entries ==> e.address in data
  }

  /** How many batches ask for a sensor. */
  ghost function Requests(quantity: u8, entries: seq<Entry>, index: u8, address: u8): nat {
    Containing(ChunksOf(quantity, Select(entries, index)), address)
  }

  lemma OneIndex(data: Data, net: Net, quantity: u8, entries: seq<Entry>, index: u8, key: Key)
    requires Supported(quantity, entries) && index < 32 && quantity in net.known && Listed(data, entries)
    ensures var chunks := ChunksOf(quantity, Select(entries, index));
      && (chunks != [] ==> Width(quantity).Some?)
      && var after := Collect(data, net, quantity, index, chunks);
         && after.Keys == data.Keys
         && Total(after, key) == Total(data, key) +
              if key.quantity == quantity && key.index == index
              then Requests(quantity, entries, index, key.address) else 0
  {
    var addresses := Select(entries, index);
    var chunks := ChunksOf(quantity, Select(entries, index));
    if addresses != [] {
      SupportedSelect(quantity, entries, index);
    }
    forall i | 0 <= i < |chunks| ensures AllIn(chunks[i], data) {
      forall a | a in chunks[i] ensures a in data {
        assert chunks[i] in chunks;
        ChunksCover(addresses, SizeOf(quantity), Passes(quantity, |addresses|), a);
        SelectMembers(entries, index, a);
      }
    }
    CollectTotal(data, net, quantity, index, chunks, key);
  }

  lemma {:induction false} IndexesTotal(data: Data, net: Net, quantity: u8, entries: seq<Entry>, index: nat, key: Key)
    requires index <= 32 && Supported(quantity, entries) && quantity in net.known && Listed(data, entries)
    ensures var after := Indexes(data, net, quantity, entries, index);
      && after.Keys == data.Keys
      && Total(after, key) == Total(data, key) +
           if key.quantity == quantity && index <= key.index < 32
           then Requests(quantity, entries, key.index, key.address) else 0
    decreases 32 - index
  {
    if index < 32 {
      var chunks := ChunksOf(quantity, Select(entries, index));
      OneIndex(data, net, quantity, entries, index, key);
      var next := Collect(data, net, quantity, index, chunks);
      assert Listed(next, entries);
      IndexesTotal(next, net, quantity, entries, index + 1, key);
      assert Indexes(data, net, quantity, entries, index) == Indexes(next, net, quantity, entries, index + 1);
    }
  }

  lemma OneType(data: Data, net: Net, quantity: u8, entries: seq<Entry>, key: Key)
    requires quantity < 0xC0 ==> Supported(quantity, entries) && quantity in net.known && Listed(data, entries)
    ensures var after := AfterType(data, net, quantity, entries);
      && after.Keys == data.Keys
      && Total(after, key) == Total(data, key) +
           if key.quantity == quantity && quantity < 0xC0 && key.index < 32
           then Requests(quantity, entries, key.index, key.address) else 0
  {
    if quantity < 0xC0 {
      IndexesTotal(data, net, quantity, entries, 0, key);
    }
  }

  /** What a round asks for. */
  ghost predicate Asked(entries: map<u8, seq<Entry>>, types: seq<u8>, key: Key) {
    key.quantity in types && key.quantity < 0xC0 && key.index < 32 && key.quantity in entries
  }

  /** A completed round yields one reading of a sensor for every batch that asks for it, and nothing else, whatever the
      order of quantities. */
  lemma {:induction false} RoundTotal(data: Data, net: Net, entries: map<u8, seq<Entry>>, types: seq<u8>, key: Key)
    requires SupportedAll(entries, types) && Distinct(types)
    requires forall t :: t in types && t < 0xC0 ==> t in net.known && Listed(data, entries[t])
    ensures Total(Round(data, net, entries, types), key) == Total(data, key) +
            if Asked(entries, types, key)
            then Requests(key.quantity, entries[key.quantity], key.index, key.address) else 0
    ensures Round(data, net, entries, types).Keys == data.Keys
    decreases |types|
  {
    if types != [] {
      var t, rest := types[0], types[1..];
      assert types == [t] + rest && t !in rest;
      OneType(data, net, t, entries[t], key);
      var next := AfterType(data, net, t, entries[t]);
      assert SupportedAll(entries, rest) && Distinct(rest);
      forall u | u in rest && u < 0xC0 ensures u in net.known && Listed(next, entries[u]) {
        assert u in types;
      }
      RoundTotal(next, net, entries, rest, key);
      assert Round(data, net, entries, types) == Round(next, net, entries, rest);
    }
  }

  /** A stored sensor of a quantity below 0xC0 and an index below 32 gets exactly one reading in a completed round
      exactly when its rows fall into one batch; a sensor that is not stored gets none. */
  lemma ExactlyOneReadingIff(data: Data, net: Net, entries: map<u8, seq<Entry>>, types: seq<u8>, key: Key)
    requires SupportedAll(entries, types) && Distinct(types) && Asked(entries, types, key)
    requires forall t :: t in types && t < 0xC0 ==> t in net.known && Listed(data, entries[t])
    ensures Entry(key.address, key.index) in entries[key.quantity] ==>
              (Total(Round(data, net, entries, types), key) == Total(data, key) + 1 <==>
               var rows := Select(entries[key.quantity], key.index);
               InOneBatch(rows, SizeOf(key.quantity), Passes(key.quantity, |rows|), key.address))
    ensures Entry(key.address, key.index) !in entries[key.quantity] ==>
              Total(Round(data, net, entries, types), key) == Total(data, key)
  {
    var addresses := Select(entries[key.quantity], key.index);
    RoundTotal(data, net, entries, types, key);
    SelectMembers(entries[key.quantity], key.index, key.address);
    ChunksCover(addresses, SizeOf(key.quantity), Passes(key.quantity, |addresses|), key.address);
    AskedOnceIff(addresses, SizeOf(key.quantity), Passes(key.quantity, |addresses|), key.address);
  }

  /** Without repeated rows every sensor's row falls into one batch. */
  lemma UniqueInOneBatch(addresses: seq<u8>, size: nat, passes: nat, a: u8)
    requires size > 0 && Distinct(addresses)
    ensures InOneBatch(addresses, size, passes, a)
  {
  }

  // ---------------------------------------------------------------- values over a round

  /** Every stored value is the one the device of its row has for that sensor. */
  ghost predicate Own(net: Net, data: Data) {
    forall a :: a in data ==> OwnRow(net, a, data[a])
  }

  ghost predicate OwnRow(net: Net, a: u8, list: seq<Sensor>) {
    forall s :: s in list ==> s.key.address == a && OwnValue(net, s)
  }

  ghost predicate OwnValue(net: Net, s: Sensor) {
    s.value.Some? ==> s.key in net.field && s.value.value == net.field[s.key]
  }

  lemma {:induction false} AddedOwn(net: Net, data: Data, list: seq<Sensor>)
    requires Own(net, data) && forall s :: s in list ==> OwnValue(net, s)
    ensures Own(net, Added(data, list))
    decreases |list|
  {
    if list != [] {
      assert OwnValue(net, list[0]);
      assert Own(net, Append(data, list[0]));
      if list[0].key.address in data {
        AddedOwn(net, Append(data, list[0]), list[1..]);
      }
    }
  }

  lemma {:induction false} CollectOwn(data: Data, net: Net, quantity: u8, index: u8, chunks: seq<seq<u8>>)
    requires Own(net, data) && (chunks != [] ==> Width(quantity).Some?)
    ensures Own(net, Collect(data, net, quantity, index, chunks))
    decreases |chunks|
  {
    if chunks != [] {
      var list := Collected(net, quantity, index, Batch(chunks[0]));
      forall s | s in list ensures OwnValue(net, s) {
        CollectedOwn(net, quantity, index, Batch(chunks[0]), s);
      }
      AddedOwn(net, data, list);
      CollectOwn(Added(data, list), net, quantity, index, chunks[1..]);
    }
  }

  lemma {:induction false} IndexesOwn(data: Data, net: Net, quantity: u8, entries: seq<Entry>, index: nat)
    requires Own(net, data) && index <= 32 && Supported(quantity, entries)
    ensures Own(net, Indexes(data, net, quantity, entries, index))
    decreases 32 - index
  {
    if index < 32 {
      IndexesNext(data, net, quantity, entries, index);
      if Select(entries, index) == [] {
        IndexesOwn(data, net, quantity, entries, index + 1);
      } else {
        var next := Collect(data, net, quantity, index, ChunksOf(quantity, Select(entries, index)));
        CollectOwn(data, net, quantity, index, ChunksOf(quantity, Select(entries, index)));
        IndexesOwn(next, net, quantity, entries, index + 1);
      }
    }
  }

  /** No reading of a round ends up with another device or another sensor, whatever the batches, the devices that stay
      silent and the addresses that are not registered. */
  lemma {:induction false} RoundOwn(data: Data, net: Net, entries: map<u8, seq<Entry>>, types: seq<u8>)
    requires Own(net, data) && SupportedAll(entries, types)
    ensures Own(net, Round(data, net, entries, types))
    decreases |types|
  {
    if types != [] {
      if types[0] < 0xC0 {
        IndexesOwn(data, net, types[0], entries[types[0]], 0);
      }
      RoundOwn(AfterType(data, net, types[0], entries[types[0]]), net, entries, types[1..]);
    }
  }

  ghost predicate Holds(data: Data, s: Sensor) {
    s.key.address in data && s in data[s.key.address]
  }

  lemma {:induction false} AddedHolds(data: Data, list: seq<Sensor>, s: Sensor)
    requires Registered(data, list)
    ensures Holds(Added(data, list), s) <==> Holds(data, s) || s in list
    decreases |list|
  {
    if list != [] {
      assert Append(data, list[0]).Keys == data.Keys;
      AddedHolds(Append(data, list[0]), list[1..], s);
      assert Holds(Append(data, list[0]), s) <==> Holds(data, s) || s == list[0];
    }
  }

  /** Some batch yields an entry. */
  ghost predicate SomeBatch(net: Net, quantity: u8, index: u8, chunks: seq<seq<u8>>, s: Sensor)
    requires chunks != [] ==> Width(quantity).Some?
    decreases |chunks|
  {
    chunks != [] &&
    (s in Collected(net, quantity, index, Batch(chunks[0])) || SomeBatch(net, quantity, index, chunks[1..], s))
  }

  lemma BatchRegistered(data: Data, net: Net, quantity: u8, index: u8, chunk: seq<u8>)
    requires Width(quantity).Some? && AllIn(chunk, data)
    ensures Registered(data, Collected(net, quantity, index, Batch(chunk)))
  {
    var order := Batch(chunk);
    forall s | s in Collected(net, quantity, index, order) ensures s.key.address in data {
      CollectedOwn(net, quantity, index, order, s);
      assert s.key.address in order;
      assert s.key.address in chunk;
    }
  }

  lemma {:induction false} CollectHolds(data: Data, net: Net, quantity: u8, index: u8, chunks: seq<seq<u8>>, s: Sensor)
    requires chunks != [] ==> Width(quantity).Some?
    requires forall i :: 0 <= i < |chunks| ==> AllIn(chunks[i], data)
    ensures var after := Collect(data, net, quantity, index, chunks);
      && after.Keys == data.Keys
      && (Holds(after, s) <==> Holds(data, s) || SomeBatch(net, quantity, index, chunks, s))
    decreases |chunks|
  {
    if chunks != [] {
      var list := Collected(net, quantity, index, Batch(chunks[0]));
      BatchRegistered(data, net, quantity, index, chunks[0]);
      AddedTotal(data, list, s.key);
      AddedHolds(data, list, s);
      CollectHolds(Added(data, list), net, quantity, index, chunks[1..], s);
    }
  }

  lemma {:induction false} BatchKey(net: Net, quantity: u8, index: u8, chunks: seq<seq<u8>>, s: Sensor)
    requires chunks != [] ==> Width(quantity).Some?
    requires SomeBatch(net, quantity, index, chunks, s)
    ensures s.key.quantity == quantity && s.key.index == index
    decreases |chunks|
  {
    if s in Collected(net, quantity, index, Batch(chunks[0])) {
      CollectedOwn(net, quantity, index, Batch(chunks[0]), s);
    } else {
      BatchKey(net, quantity, index, chunks[1..], s);
    }
  }

  /** Some batch of the sensor's own quantity and index yields an entry of it. */
  ghost predicate Yields(net: Net, entries: seq<Entry>, s: Sensor)
    requires Width(s.key.quantity).Some? || Select(entries, s.key.index) == []
  {
    Select(entries, s.key.index) != [] &&
    SomeBatch(net, s.key.quantity, s.key.index, ChunksOf(s.key.quantity, Select(entries, s.key.index)), s)
  }

  lemma IndexHolds(data: Data, net: Net, quantity: u8, entries: seq<Entry>, index: u8, s: Sensor)
    requires Width(quantity).Some? && Select(entries, index) != [] && Listed(data, entries)
    ensures var after := Collect(data, net, quantity, index, ChunksOf(quantity, Select(entries, index)));
      && after.Keys == data.Keys
      && (Holds(after, s) <==>
          Holds(data, s) || (s.key.quantity == quantity && s.key.index == index && Yields(net, entries, s)))
  {
    var addresses := Select(entries, index);
    var chunks := ChunksOf(quantity, addresses);
    forall i | 0 <= i < |chunks| ensures AllIn(chunks[i], data) {
      forall a | a in chunks[i] ensures a in data {
        assert chunks[i] in chunks;
        ChunksCover(addresses, SizeOf(quantity), Passes(quantity, |addresses|), a);
        SelectMembers(entries, index, a);
      }
    }
    CollectHolds(data, net, quantity, index, chunks, s);
    if SomeBatch(net, quantity, index, chunks, s) {
      BatchKey(net, quantity, index, chunks, s);
    }
  }

  lemma SupportedOf(quantity: u8, entries: seq<Entry>, index: u8)
    requires Supported(quantity, entries) && index < 32
    ensures Width(quantity).Some? || Select(entries, index) == []
  {
    if Select(entries, index) != [] {
      SupportedSelect(quantity, entries, index);
    }
  }

  /** The entry comes from one of the indexes from `index` on. */
  ghost predicate YieldsFrom(net: Net, quantity: u8, entries: seq<Entry>, index: nat, s: Sensor)
    requires Supported(quantity, entries)
  {
    && s.key.quantity == quantity && index <= s.key.index < 32
    && (SupportedOf(quantity, entries, s.key.index); Yields(net, entries, s))
  }

  lemma {:induction false} IndexesHolds(data: Data, net: Net, quantity: u8, entries: seq<Entry>, index: nat, s: Sensor)
    requires index <= 32 && Supported(quantity, entries) && Listed(data, entries)
    ensures var after := Indexes(data, net, quantity, entries, index);
      && after.Keys == data.Keys
      && (Holds(after, s) <==> Holds(data, s) || YieldsFrom(net, quantity, entries, index, s))
    decreases 32 - index
  {
    if index < 32 {
      IndexesNext(data, net, quantity, entries, index);
      if Select(entries, index) == [] {
        IndexesHolds(data, net, quantity, entries, index + 1, s);
      } else {
        var next := Collect(data, net, quantity, index, ChunksOf(quantity, Select(entries, index)));
        IndexHolds(data, net, quantity, entries, index, s);
        IndexesHolds(next, net, quantity, entries, index + 1, s);
      }
    }
  }

  /** The entry comes from one of the quantities of the round. */
  ghost predicate YieldsIn(net: Net, entries: map<u8, seq<Entry>>, types: seq<u8>, s: Sensor)
    requires SupportedAll(entries, types)
  {
    && s.key.quantity in types && s.key.quantity < 0xC0
    && YieldsFrom(net, s.key.quantity, entries[s.key.quantity], 0, s)
  }

  /** A completed round holds an entry exactly when it was there before or some batch of the sensor's own quantity and
      index yields it. */
  lemma {:induction false} RoundHolds(data: Data, net: Net, entries: map<u8, seq<Entry>>, types: seq<u8>, s: Sensor)
    requires SupportedAll(entries, types)
    requires forall t :: t in types && t < 0xC0 ==> Listed(data, entries[t])
    ensures var after := Round(data, net, entries, types);
      after.Keys == data.Keys && (Holds(after, s) <==> Holds(data, s) || YieldsIn(net, entries, types, s))
    decreases |types|
  {
    if types != [] {
      var t, rest := types[0], types[1..];
      var next := AfterType(data, net, t, entries[t]);
      assert types == [t] + rest;
      if t < 0xC0 {
        IndexesHolds(data, net, t, entries[t], 0, s);
      }
      RoundHolds(next, net, entries, rest, s);
    }
  }

  /** Some batch has a device that delivers the value. */
  ghost predicate DeliveredBy(net: Net, key: Key, chunks: seq<seq<u8>>, v: int) {
    exists c :: c in chunks && DeliversIn(net, key, Batch(c), v)
  }

  lemma DeliveredSplit(net: Net, key: Key, chunks: seq<seq<u8>>, v: int)
    requires chunks != []
    ensures DeliveredBy(net, key, chunks, v) <==>
            DeliversIn(net, key, Batch(chunks[0]), v) || DeliveredBy(net, key, chunks[1..], v)
  {
    assert forall c :: c in chunks <==> c == chunks[0] || c in chunks[1..];
  }

  lemma {:induction false} SomeBatchValueIff(net: Net, quantity: u8, index: u8, chunks: seq<seq<u8>>, key: Key, v: int)
    requires chunks != [] ==> Width(quantity).Some?
    requires key.quantity == quantity && key.index == index
    ensures SomeBatch(net, quantity, index, chunks, Sensor(key, Some(v))) <==> DeliveredBy(net, key, chunks, v)
    decreases |chunks|
  {
    if chunks != [] {
      SomeBatchValueIff(net, quantity, index, chunks[1..], key, v);
      BatchValueIff(net, quantity, index, Batch(chunks[0]));
      DeliveredSplit(net, key, chunks, v);
    }
  }

  /** The value of a sensor is in a batch of the round. */
  ghost predicate ValueIn(net: Net, entries: map<u8, seq<Entry>>, types: seq<u8>, key: Key, v: int) {
    && Asked(entries, types, key)
    && DeliveredBy(net, key, ChunksOf(key.quantity, Select(entries[key.quantity], key.index)), v)
  }

  lemma ValueInIff(net: Net, entries: map<u8, seq<Entry>>, types: seq<u8>, key: Key, v: int)
    requires SupportedAll(entries, types)
    ensures YieldsIn(net, entries, types, Sensor(key, Some(v))) <==> ValueIn(net, entries, types, key, v)
  {
    if Asked(entries, types, key) {
      var rows := Select(entries[key.quantity], key.index);
      SupportedOf(key.quantity, entries[key.quantity], key.index);
      if rows == [] {
        assert ChunksOf(key.quantity, rows) == [];
      } else {
        SomeBatchValueIff(net, key.quantity, key.index, ChunksOf(key.quantity, rows), key, v);
      }
    }
  }

  /** After a completed round a registered sensor has a value exactly when it had it before, or the device itself has
      it and its slot arrives in a batch that asks for it. */
  lemma RoundValueIff(data: Data, net: Net, entries: map<u8, seq<Entry>>, types: seq<u8>, key: Key, v: int)
    requires SupportedAll(entries, types)
    requires forall t :: t in types && t < 0xC0 ==> Listed(data, entries[t])
    ensures Holds(Round(data, net, entries, types), Sensor(key, Some(v))) <==>
            Holds(data, Sensor(key, Some(v))) || ValueIn(net, entries, types, key, v)
  {
    RoundHolds(data, net, entries, types, Sensor(key, Some(v)));
    ValueInIff(net, entries, types, key, v);
  }

  // ---------------------------------------------------------------- the services

  class SensorDataResult {
    var deviceData: Data

    constructor (addresses: set<u8>)
      ensures deviceData.Keys == addresses && forall key :: Total(deviceData, key) == 0
    {
      deviceData := map a | a in addresses :: [];
    }

    /** Stores readings until one comes from an unregistered address; that one is still stored. */
    method AddSensorData(sensorData: seq<Sensor>)
      modifies this
      ensures deviceData == Added(old(deviceData), sensorData)
    {
      assert sensorData[0..] == sensorData;
      for i := 0 to |sensorData|
        invariant Added(deviceData, sensorData[i..]) == Added(old(deviceData), sensorData)
      {
        assert sensorData[i..][1..] == sensorData[i + 1..];
        var known := sensorData[i].key.address in deviceData;
        deviceData := Append(deviceData, sensorData[i]);
        if !known {
          return;
        }
      }
    }
  }

  class SensorReader {
    const net: Net

    constructor (net: Net)
      ensures this.net == net
    {
      this.net := net;
    }

    /** Enters the readings of an answer and notes their devices. */
    method EnterAll(quantity: u8, index: u8, sensors: seq<Frc.Sensor>) returns (list: seq<Sensor>, handled: set<u8>)
      ensures list == EnteredAll(quantity, index, sensors) && handled == Handled(list)
    {
      list, handled := [], {};
      for i := 0 to |sensors|
        invariant list == EnteredAll(quantity, index, sensors[..i]) && handled == Handled(list)
      {
        assert sensors[..i + 1][..i] == sensors[..i];
        var item := Entered(quantity, index, sensors[i]);
        handled := handled + {item.key.address};
        list := list + [item];
      }
      assert sensors[..|sensors|] == sensors;
    }

    method FillIn(quantity: u8, index: u8, nodes: seq<u8>, handled: set<u8>) returns (fake: seq<Sensor>)
      ensures fake == Missing(quantity, index, nodes, |nodes|, handled)
    {
      fake := [];
      for k := 0 to |nodes|
        invariant fake == Missing(quantity, index, nodes, k, handled)
      {
        if nodes[k] !in handled {
          fake := fake + [Sensor(Key(nodes[k], quantity, index), None)];
        }
      }
    }

    /** Asks the nodes of a set, in its order; those without a reading are filled in on request when the quantity is
        known. */
    method SendSensorFrc(quantity: u8, index: u8, nodes: seq<u8>, resolveMissing: bool)
      returns (sensorData: seq<Sensor>)
      requires Width(quantity).Some? && Increasing(nodes)
      ensures sensorData ==
              if resolveMissing then Collected(net, quantity, index, nodes) else Seen(net, quantity, index, nodes)
      ensures ValuesOf(net, quantity, index, nodes, sensorData)
    {
      SetSize(nodes);
      BatchValueIff(net, quantity, index, nodes);
      AssembledIsCollected(net, quantity, index, nodes);
      var sensorFrc := new Frc.FrcSolver();
      sensorFrc.PostResponse(Answer(net, quantity, index, nodes), nodes);
      assert sensorFrc.sensors == Frc.Readings(Answer(net, quantity, index, nodes), nodes, |nodes|);
      var handled;
      sensorData, handled := EnterAll(quantity, index, sensorFrc.sensors);
      if resolveMissing && quantity in net.known {
        var fake := FillIn(quantity, index, nodes, handled);
        sensorData := sensorData + fake;
      } else {
        assert sensorData + [] == sensorData;
      }
    }

    static method Divide(n: nat, size: nat) returns (q: nat)
      requires size > 0
      ensures q == Quotient(n, size)
    {
      DivIsQuotient(n, size);
      q := n / size;
    }

    /** Splits a set, in its order, into pieces; the last one takes the remainder. */
    method SplitSet(nodes: seq<u8>, size: nat) returns (res: seq<seq<u8>>)
      requires size > 0
      ensures res == Chunks(nodes, size, Quotient(|nodes|, size))
    {
      res := [];
      var sCount := Divide(|nodes|, size);
      var rest := nodes;
      for i := 0 to sCount + 1
        invariant i <= sCount ==> Quotient(|rest|, size) == sCount - i
        invariant i == sCount + 1 ==> rest == []
        invariant res + Chunks(rest, size, if i <= sCount then sCount - i else 0) == Chunks(nodes, size, sCount)
      {
        var newSet: seq<u8>;
        if i != sCount {
          assert Chunks(rest, size, sCount - i) == [rest[..size]] + Chunks(rest[size..], size, sCount - i - 1);
          newSet, rest := rest[..size], rest[size..];
        } else {
          newSet, rest := rest, [];
        }
        if |newSet| > 0 {
          res := res + [newSet];
        }
      }
    }

    /** Reads one byte of memory from every node, as the code puts the answers together. */
    method FrcReadMemory(nodes: seq<u8>, answers: seq<seq<u8>>, beyond: Remains, ghost memory: map<u8, u8>)
      returns (frcData: seq<u8>)
      requires |answers| == |Pieces(nodes)|
      requires forall i :: 0 <= i < |answers| ==> answers[i] == AnswerBytes(Pieces(nodes)[i], memory)
      ensures frcData == TakenAll(Pieces(nodes), memory, beyond)
    {
      var split := SplitSet(nodes, PIECE);
      ghost var pieces := Pieces(nodes);
      frcData := [];
      assert pieces[..0] == [];
      for i := 0 to |split|
        invariant frcData == TakenAll(pieces[..i], memory, beyond)
      {
        TakenNext(pieces, i, memory, beyond);
        frcData := frcData + Taken(answers[i], |split[i]|, beyond);
      }
      assert pieces[..|split|] == pieces;
    }

    /** Cuts an address list into batches; the number of full ones is counted in eight bits. */
    method CutBatches(addresses: seq<u8>, size: nat) returns (vectors: seq<seq<u8>>)
      requires size > 0
      ensures vectors == Chunks(addresses, size, Quotient(|addresses|, size) % 0x100)
    {
      var rest := addresses;
      var count := Divide(|addresses|, size);
      var v := count % 0x100;
      vectors := [];
      ghost var whole := Chunks(addresses, size, v);
      for i := 0 to v
        invariant Quotient(|rest|, size) >= v - i
        invariant vectors + Chunks(rest, size, v - i) == whole
      {
        CutNext(vectors, rest, size, v - i, whole);
        vectors := vectors + [rest[..size]];
        rest := rest[size..];
      }
      if |rest| > 0 {
        vectors := vectors + [rest];
      }
    }

    /** All devices of one quantity and index; fails for a quantity no FRC command reads. */
    method GetTypeData(result: SensorDataResult, quantity: u8, index: u8, addresses: seq<u8>) returns (ok: bool)
      requires addresses != []
      modifies result
      ensures ok <==> Readable(quantity)
      ensures ok <==> Width(quantity).Some?
      ensures ok ==>
        result.deviceData == Collect(old(result.deviceData), net, quantity, index, ChunksOf(quantity, addresses))
    {
      if DeviceCount(quantity).None? || Width(quantity).None? {
        return false;
      }
      var vectors := CutBatches(addresses, DeviceCount(quantity).value);
      assert vectors[0..] == vectors;
      for k := 0 to |vectors|
        invariant Collect(result.deviceData, net, quantity, index, vectors[k..]) ==
                  Collect(old(result.deviceData), net, quantity, index, vectors)
      {
        assert vectors[k..][1..] == vectors[k + 1..];
        var sensorData := SendSensorFrc(quantity, index, Batch(vectors[k]), true);
        result.AddSensorData(sensorData);
      }
      ok := true;
    }

    method AddressesOf(entries: seq<Entry>, index: u8) returns (addrs: seq<u8>)
      ensures addrs == Select(entries, index)
    {
      addrs := [];
      for i := 0 to |entries|
        invariant addrs == Select(entries[..i], index)
      {
        assert entries[..i + 1][..i] == entries[..i];
        if entries[i].index == index {
          addrs := addrs + [entries[i].address];
        }
      }
      assert entries[..|entries|] == entries;
    }

    /** All indexes of one quantity. */
    method GetQuantity(result: SensorDataResult, quantity: u8, entries: seq<Entry>) returns (ok: bool)
      modifies result
      ensures ok <==> Supported(quantity, entries)
      ensures ok ==> result.deviceData == Indexes(old(result.deviceData), net, quantity, entries, 0)
    {
      ghost var before := result.deviceData;
      for i := 0 to 32
        invariant forall e :: e in entries && e.index < i ==> Width(quantity).Some?
        invariant Supported(quantity, entries) ==>
          Indexes(result.deviceData, net, quantity, entries, i) == Indexes(before, net, quantity, entries, 0)
      {
        var addrs := AddressesOf(entries, i);
        if Supported(quantity, entries) {
          IndexesNext(result.deviceData, net, quantity, entries, i);
        }
        forall a ensures a in addrs <==> Entry(a, i) in entries {
          SelectMembers(entries, i, a);
        }
        forall e | e in entries && e.index == i ensures addrs != [] {
          assert Entry(e.address, i) == e;
        }
        if |addrs| > 0 {
          assert Entry(addrs[0], i) in entries;
          var good := GetTypeData(result, quantity, i, addrs);
          if !good {
            return false;
          }
        }
      }
      ok := true;
    }

    /** The round, in whatever order the quantities come; it fails when a stored sensor has a quantity that no FRC
        command reads. */
    method GetDataByFrc(result: SensorDataResult, entries: map<u8, seq<Entry>>, types: seq<u8>) returns (ok: bool)
      requires forall t :: t in types ==> t in entries
      modifies result
      ensures ok <==> SupportedAll(entries, types)
      ensures ok ==> result.deviceData == Round(old(result.deviceData), net, entries, types)
      ensures ok && (forall t :: t in types && t < 0xC0 ==> Listed(old(result.deviceData), entries[t])) ==>
        forall key, v :: Holds(result.deviceData, Sensor(key, Some(v))) <==>
          Holds(old(result.deviceData), Sensor(key, Some(v))) || ValueIn(net, entries, types, key, v)
    {
      ghost var before := result.deviceData;
      assert types[0..] == types;
      for k := 0 to |types|
        invariant SupportedAll(entries, types[..k])
        invariant SupportedAll(entries, types) ==>
          (SupportedAll(entries, types[k..]) &&
           Round(result.deviceData, net, entries, types[k..]) == Round(before, net, entries, types))
      {
        assert types[k..][1..] == types[k + 1..];
        assert types[..k + 1] == types[..k] + [types[k]];
        if types[k] < 0xC0 {
          var good := GetQuantity(result, types[k], entries[types[k]]);
          if !good {
            return false;
          }
        }
      }
      assert types[..|types|] == types;
      ok := true;
      if forall t :: t in types && t < 0xC0 ==> Listed(before, entries[t]) {
        forall key, v
          ensures Holds(result.deviceData, Sensor(key, Some(v))) <==>
                  Holds(before, Sensor(key, Some(v))) || ValueIn(net, entries, types, key, v)
        {
          RoundValueIff(before, net, entries, types, key, v);
        }
      }
    }
  }

  lemma SetSize(nodes: seq<u8>)
    requires Increasing(nodes)
    ensures |nodes| <= 0x100
  {
    if nodes != [] {
      Frc.GapLeast(nodes, 0, |nodes| - 1);
    }
  }

  lemma Monotone(size: nat, a: int, b: int)
    requires a <= b
    ensures size * a <= size * b
  {
  }

  lemma DivUnique(n: nat, size: nat, q: nat, r: nat)
    requires size > 0 && r < size && n == size * q + r
    ensures n / size == q
  {
    var d := n / size;
    if d < q {
      Monotone(size, d + 1, q);
    } else if d > q {
      Monotone(size, q + 1, d);
    }
  }

  lemma {:induction false} DivIsQuotient(n: nat, size: nat)
    requires size > 0
    ensures n / size == Quotient(n, size)
    decreases n
  {
    if n < size {
      DivUnique(n, size, 0, n);
    } else {
      DivIsQuotient(n - size, size);
      var q, r := (n - size) / size, (n - size) % size;
      assert size * (q + 1) == size * q + size;
      DivUnique(n, size, q + 1, r);
    }
  }
}
