/** One enumeration round against the database: which devices are selected, deleted, inserted and updated. */
module Reconcile {
  import opened Common
  import opened Enumeration

  /** What the coordinator's tables say about one node. */
  datatype Info = Info(mid: u32, discovered: bool, vrn: u8, zone: u8, parent: Option<u8>)

  /** A row of the device table. The address column is unique, so the table is kept by address. */
  datatype Device = Device(id: nat, productId: nat, enumerated: bool, info: Info)

  type Devices = map<u8, Device>
  type Products = map<UniqueProduct, nat>
  /** Rows (product id, driver id). */
  type Drivers = set<(nat, nat)>

  /** The tables a round touches. Ids come from counters that only grow. A product is unique by its key. */
  datatype Db = Db(devices: Devices, nextDevice: nat, products: Products, nextProduct: nat, drivers: Drivers)

  /** Bonded nodes, and the data of every one of them and of the coordinator, address 0. */
  datatype Network = Network(bonded: set<u8>, infos: Infos)

  /** A device-to-product entry: the product and the drivers computed for it. */
  datatype Entry = Entry(key: UniqueProduct, drivers: set<nat>)

  type Infos = map<u8, Info>
  type Entries = map<u8, Entry>

  ghost predicate ValidDevices(devices: Devices, next: nat) {
    && (forall a, b :: a in devices && b in devices && a != b ==>
        devices[a].id != devices[b].id && devices[a].info.mid != devices[b].info.mid)
    && (forall a :: a in devices ==> devices[a].id < next)
  }

  ghost predicate ValidProducts(products: Products, next: nat) {
    && (forall p, q :: p in products && q in products && p != q ==> products[p] != products[q])
    && (forall p :: p in products ==> products[p] < next)
  }

  ghost predicate ValidDb(db: Db) {
    ValidDevices(db.devices, db.nextDevice) && ValidProducts(db.products, db.nextProduct)
  }

  function Addresses(net: Network): set<u8> {
    net.bonded + {0}
  }

  predicate ValidNetwork(net: Network) {
    Addresses(net) <= net.infos.Keys
  }

  // ---------------------------------------------------------------- selection

  predicate StoredAs(devices: Devices, a: u8, mid: u32) {
    a in devices && devices[a].info.mid == mid
  }

  /** The addresses a round enumerates. */
  function ToEnumerate(devices: Devices, net: Network, reenumerate: bool): set<u8>
    requires ValidNetwork(net)
  {
    set a | a in Addresses(net) && (reenumerate || !StoredAs(devices, a, net.infos[a].mid))
  }

  /** Ids of devices that left the network, squeezed into the eight bits of the set that collects them. */
  function ToDelete(devices: Devices, net: Network): set<u8> {
    set a | a in devices && a !in Addresses(net) :: devices[a].id % 0x100
  }

  function Delete(devices: Devices, ids: set<u8>): Devices {
    map a | a in devices && devices[a].id !in ids :: devices[a]
  }

  // ---------------------------------------------------------------- storing devices

  function DriversOf(drivers: Drivers, productId: nat): set<nat> {
    set r | r in drivers && r.0 == productId :: r.1
  }

  function Rows(productId: nat, s: set<nat>): Drivers {
    set d | d in s :: (productId, d)
  }

  /** The unique MID column refuses a row whose MID another device still has. */
  predicate MidTaken(devices: Devices, a: u8, mid: u32) {
    exists b :: b in devices && b != a && devices[b].info.mid == mid
  }

  function WithProduct(db: Db, key: UniqueProduct): Db {
    if key in db.products then db
    else db.(products := db.products[key := db.nextProduct], nextProduct := db.nextProduct + 1)
  }

  function WithDrivers(db: Db, productId: nat, drivers: set<nat>): Db {
    db.(drivers := (set r | r in db.drivers && r.0 != productId) + Rows(productId, drivers))
  }

  function WithDevice(db: Db, a: u8, productId: nat, info: Info): Db {
    if a in db.devices then
      var was := db.devices[a];
      db.(devices := db.devices[a := Device(was.id, productId, was.enumerated, info)])
    else db.(devices := db.devices[a := Device(db.nextDevice, productId, false, info)], nextDevice := db.nextDevice + 1)
  }

  function StoreOne(db: Db, a: u8, info: Info, e: Entry): Db {
    var db1 := WithProduct(db, e.key);
    var db2 := WithDrivers(db1, db1.products[e.key], e.drivers);
    WithDevice(db2, a, db1.products[e.key], info)
  }

  /** The database after storing the devices of `order`, or None if some write is refused. */
  ghost function StoreAll(db: Db, infos: Infos, entries: Entries, order: seq<u8>, faults: set<u8>): Option<Db>
    requires forall a :: a in order ==> a in infos && a in entries
  {
    if order == [] then Some(db)
    else
      var n := |order| - 1;
      var before := StoreAll(db, infos, entries, order[..n], faults);
      if before.None? || order[n] in faults || MidTaken(before.value.devices, order[n], infos[order[n]].mid) then None
      else Some(StoreOne(before.value, order[n], infos[order[n]], entries[order[n]]))
  }

  lemma {:induction false} StoreAllStops(db: Db, infos: Infos, entries: Entries, order: seq<u8>, faults: set<u8>,
                                         k: nat)
    requires k <= |order| && forall a :: a in order ==> a in infos && a in entries
    requires StoreAll(db, infos, entries, order[..k], faults).None?
    ensures StoreAll(db, infos, entries, order, faults).None?
    decreases |order|
  {
    if k < |order| {
      assert order[..|order| - 1][..k] == order[..k];
      StoreAllStops(db, infos, entries, order[..|order| - 1], faults, k);
    } else {
      assert order[..k] == order;
    }
  }

  // ---------------------------------------------------------------- what storing means

  /** The row of `a` carries `info` and the product of `e`. */
  ghost predicate StoredRow(db: Db, a: u8, info: Info, e: Entry) {
    && a in db.devices && e.key in db.products
    && db.devices[a].info == info && db.devices[a].productId == db.products[e.key]
  }

  ghost predicate Extends(m: Products, m': Products) {
    forall k :: k in m ==> k in m' && m'[k] == m[k]
  }

  lemma WithProductValid(db: Db, key: UniqueProduct)
    requires ValidProducts(db.products, db.nextProduct)
    ensures var db' := WithProduct(db, key);
      && ValidProducts(db'.products, db'.nextProduct) && key in db'.products && Extends(db.products, db'.products)
      && db'.devices == db.devices && db'.nextDevice == db.nextDevice && db'.drivers == db.drivers
  {
  }

  lemma WithDeviceValid(db: Db, a: u8, productId: nat, info: Info)
    requires ValidDevices(db.devices, db.nextDevice) && !MidTaken(db.devices, a, info.mid)
    ensures var db' := WithDevice(db, a, productId, info); ValidDevices(db'.devices, db'.nextDevice)
  {
  }

  lemma StoreOneValid(db: Db, a: u8, info: Info, e: Entry)
    requires ValidDb(db) && !MidTaken(db.devices, a, info.mid)
    ensures ValidDb(StoreOne(db, a, info, e))
  {
    var db1 := WithProduct(db, e.key);
    WithProductValid(db, e.key);
    var db2 := WithDrivers(db1, db1.products[e.key], e.drivers);
    WithDeviceValid(db2, a, db1.products[e.key], info);
  }

  /** From `db` to `db'` the devices of `order` were stored, and nothing else happened to the device table. */
  ghost predicate Stored(db: Db, db': Db, infos: Infos, entries: Entries, order: seq<u8>)
    requires forall a :: a in order ==> a in infos && a in entries
  {
    && (forall a :: a in order ==> StoredRow(db', a, infos[a], entries[a]))
    && db'.devices.Keys == db.devices.Keys + (set a | a in order)
    && (forall b :: b in db.devices && b !in order ==> db'.devices[b] == db.devices[b])
    && Extends(db.products, db'.products)
  }

  lemma StoreOneMeaning(db: Db, a: u8, infos: Infos, entries: Entries)
    requires a in infos && a in entries
    ensures Stored(db, StoreOne(db, a, infos[a], entries[a]), infos, entries, [a])
  {
  }

  lemma StoredJoin(db: Db, db1: Db, db': Db, infos: Infos, entries: Entries, order: seq<u8>, c: u8)
    requires forall a :: a in order ==> a in infos && a in entries
    requires c in infos && c in entries && c !in order
    requires Stored(db, db1, infos, entries, order) && Stored(db1, db', infos, entries, [c])
    ensures Stored(db, db', infos, entries, order + [c])
  {
  }

  /** The product of `e` is stored with exactly the drivers of `e`. */
  ghost predicate HasDrivers(db: Db, e: Entry) {
    e.key in db.products && DriversOf(db.drivers, db.products[e.key]) == e.drivers
  }

  lemma DriversReplaced(drivers: Drivers, productId: nat, s: set<nat>)
    ensures DriversOf((set r | r in drivers && r.0 != productId) + Rows(productId, s), productId) == s
  {
    var rows := (set r | r in drivers && r.0 != productId) + Rows(productId, s);
    forall d ensures d in DriversOf(rows, productId) <==> d in s {
      assert (productId, d) in Rows(productId, s) <==> d in s;
      assert d in DriversOf(rows, productId) <==> (productId, d) in rows;
    }
  }

  lemma OthersKept(drivers: Drivers, productId: nat, s: set<nat>, other: nat)
    requires other != productId
    ensures DriversOf((set r | r in drivers && r.0 != productId) + Rows(productId, s), other) ==
        DriversOf(drivers, other)
  {
    var rows := (set r | r in drivers && r.0 != productId) + Rows(productId, s);
    forall d ensures d in DriversOf(rows, other) <==> d in DriversOf(drivers, other) {
      assert d in DriversOf(rows, other) <==> (other, d) in rows;
      assert d in DriversOf(drivers, other) <==> (other, d) in drivers;
    }
  }

  lemma StoreOneDrivers(db: Db, a: u8, info: Info, e: Entry)
    ensures HasDrivers(StoreOne(db, a, info, e), e)
  {
    var db1 := WithProduct(db, e.key);
    DriversReplaced(db1.drivers, db1.products[e.key], e.drivers);
  }

  lemma StoreOneKeepsOther(db: Db, a: u8, info: Info, e: Entry, other: Entry)
    requires ValidDb(db) && HasDrivers(db, other) && other.key != e.key
    ensures HasDrivers(StoreOne(db, a, info, e), other)
  {
    WithProductValid(db, e.key);
    var db1 := WithProduct(db, e.key);
    OthersKept(db1.drivers, db1.products[e.key], e.drivers, db1.products[other.key]);
  }

  lemma StoreAllLast(db: Db, infos: Infos, entries: Entries, order: seq<u8>, faults: set<u8>)
    requires order != [] && forall a :: a in order ==> a in infos && a in entries
    requires StoreAll(db, infos, entries, order, faults).Some?
    ensures var n := |order| - 1; var before := StoreAll(db, infos, entries, order[..n], faults);
      && before.Some? && !MidTaken(before.value.devices, order[n], infos[order[n]].mid)
      && StoreAll(db, infos, entries, order, faults).value ==
          StoreOne(before.value, order[n], infos[order[n]], entries[order[n]])
  {
  }

  lemma {:induction false} StoreAllValid(db: Db, infos: Infos, entries: Entries, order: seq<u8>, faults: set<u8>)
    requires ValidDb(db) && forall a :: a in order ==> a in infos && a in entries
    requires StoreAll(db, infos, entries, order, faults).Some?
    ensures ValidDb(StoreAll(db, infos, entries, order, faults).value)
  {
    if order != [] {
      var n := |order| - 1;
      StoreAllLast(db, infos, entries, order, faults);
      StoreAllValid(db, infos, entries, order[..n], faults);
      StoreOneValid(StoreAll(db, infos, entries, order[..n], faults).value, order[n], infos[order[n]],
          entries[order[n]]);
    }
  }

  /** Every stored device has the network's data and the product computed for it; every other row is as it was. */
  lemma {:induction false} StoreAllMeaning(db: Db, db': Db, infos: Infos, entries: Entries, order: seq<u8>,
                                           faults: set<u8>)
    requires Increasing(order) && forall a :: a in order ==> a in infos && a in entries
    requires StoreAll(db, infos, entries, order, faults) == Some(db')
    ensures Stored(db, db', infos, entries, order)
    decreases |order|
  {
    if order == [] {
      StoredNothing(db, infos, entries);
    } else {
      var n := |order| - 1;
      StoreAllLast(db, infos, entries, order, faults);
      var db1 := StoreAll(db, infos, entries, order[..n], faults).value;
      StoreAllMeaning(db, db1, infos, entries, order[..n], faults);
      StoreStep(db, db1, db', infos, entries, order);
    }
  }

  lemma StoreStep(db: Db, db1: Db, db': Db, infos: Infos, entries: Entries, order: seq<u8>)
    requires order != [] && Increasing(order) && forall a :: a in order ==> a in infos && a in entries
    requires var c := order[|order| - 1]; db' == StoreOne(db1, c, infos[c], entries[c])
    requires Stored(db, db1, infos, entries, order[..|order| - 1])
    ensures Stored(db, db', infos, entries, order)
  {
    var prefix, c := order[..|order| - 1], order[|order| - 1];
    StoreOneMeaning(db1, c, infos, entries);
    StoredJoin(db, db1, db', infos, entries, prefix, c);
    assert order == prefix + [c];
  }

  lemma StoredNothing(db: Db, infos: Infos, entries: Entries)
    ensures Stored(db, db, infos, entries, [])
  {
  }

  /** No later device of `order` has the product of the k-th one. */
  ghost predicate LastOfProduct(entries: Entries, order: seq<u8>, k: nat)
    requires k < |order| && forall a :: a in order ==> a in entries
  {
    forall j :: k < j < |order| ==> entries[order[j]].key != entries[order[k]].key
  }

  lemma LastOfPrefix(entries: Entries, order: seq<u8>, k: nat)
    requires k < |order| - 1 && forall a :: a in order ==> a in entries
    requires LastOfProduct(entries, order, k)
    ensures LastOfProduct(entries, order[..|order| - 1], k) && entries[order[|order| - 1]].key != entries[order[k]].key
  {
  }

  /** A product ends with exactly the drivers computed for its last device, whatever was stored before. */
  lemma {:induction false} DriversOfLast(db: Db, infos: Infos, entries: Entries, order: seq<u8>, faults: set<u8>,
                                         k: nat)
    requires ValidDb(db) && Increasing(order) && k < |order|
    requires forall a :: a in order ==> a in infos && a in entries
    requires StoreAll(db, infos, entries, order, faults).Some? && LastOfProduct(entries, order, k)
    ensures HasDrivers(StoreAll(db, infos, entries, order, faults).value, entries[order[k]])
    decreases |order|
  {
    var n := |order| - 1;
    var c := order[n];
    StoreAllLast(db, infos, entries, order, faults);
    var before := StoreAll(db, infos, entries, order[..n], faults);
    if k == n {
      StoreOneDrivers(before.value, c, infos[c], entries[c]);
    } else {
      LastOfPrefix(entries, order, k);
      StoreAllValid(db, infos, entries, order[..n], faults);
      DriversOfLast(db, infos, entries, order[..n], faults, k);
      StoreOneKeepsOther(before.value, c, infos[c], entries[c], entries[order[k]]);
    }
  }

  // ---------------------------------------------------------------- deletion through an eight-bit set

  ghost predicate StaleIdsFit(devices: Devices, net: Network) {
    forall a :: a in devices && a !in Addresses(net) ==> devices[a].id < 0x100
  }

  /** Deleting leaves only devices of the network exactly when every id to delete fits eight bits. */
  lemma StaleGoneIff(devices: Devices, net: Network)
    ensures Delete(devices, ToDelete(devices, net)).Keys <= Addresses(net) <==> StaleIdsFit(devices, net)
  {
    var ids := ToDelete(devices, net);
    if !StaleIdsFit(devices, net) {
      var a :| a in devices && a !in Addresses(net) && devices[a].id >= 0x100;
      assert a in Delete(devices, ids);
    } else {
      forall a | a in Delete(devices, ids) ensures a in Addresses(net) {
        var id := devices[a].id % 0x100;
        assert a !in Addresses(net) ==> id in ids;
      }
    }
  }

  /** Every device of the network survives exactly when none has the id that remains of a stale one. */
  lemma LiveKeptIff(devices: Devices, net: Network)
    ensures (forall a :: a in devices && a in Addresses(net) ==> a in Delete(devices, ToDelete(devices, net))) <==>
            (forall a, b :: a in devices && a in Addresses(net) && b in devices && b !in Addresses(net) ==>
               devices[a].id != devices[b].id % 0x100)
  {
    var ids := ToDelete(devices, net);
    forall a | a in devices && a in Addresses(net)
      ensures a in Delete(devices, ids) <==>
              forall b :: b in devices && b !in Addresses(net) ==> devices[a].id != devices[b].id % 0x100
    {
      assert a in Delete(devices, ids) <==> devices[a].id !in ids;
    }
  }

  /** In particular none is lost when every id to delete fits eight bits. */
  lemma LiveKept(devices: Devices, net: Network, next: nat)
    requires ValidDevices(devices, next) && StaleIdsFit(devices, net)
    ensures forall a :: a in devices && a in Addresses(net) ==>
              a in Delete(devices, ToDelete(devices, net)) && Delete(devices, ToDelete(devices, net))[a] == devices[a]
  {
    var ids := ToDelete(devices, net);
    forall a | a in devices && a in Addresses(net) ensures devices[a].id !in ids {
      forall b | b in devices && b !in Addresses(net) ensures devices[a].id != devices[b].id % 0x100 {
        assert devices[b].id % 0x100 == devices[b].id;
      }
    }
  }

  /** A larger id deletes another device: the one whose id is its remainder. */
  lemma WrongDeviceDeleted(info: Info, info': Info)
    ensures var devices := map[5 := Device(2, 1, true, info), 9 := Device(258, 1, true, info')];
            var net := Network({5}, map[0 := info, 5 := info]);
            Delete(devices, ToDelete(devices, net)) == map[9 := Device(258, 1, true, info')]
  {
    var devices := map[5 := Device(2, 1, true, info), 9 := Device(258, 1, true, info')];
    var net := Network({5}, map[0 := info, 5 := info]);
    assert 9 in devices && 9 !in Addresses(net) && devices[9].id % 0x100 == 2;
    assert 2 in ToDelete(devices, net);
  }

  lemma DeleteValid(devices: Devices, ids: set<u8>, next: nat)
    requires ValidDevices(devices, next)
    ensures ValidDevices(Delete(devices, ids), next)
  {
  }

  // ---------------------------------------------------------------- when a round commits

  /** The row of `b` holds the MID of `a` when `a` is stored: an old row not overwritten by then, or a new one. */
  ghost predicate Blocks(devices: Devices, infos: Infos, order: seq<u8>, a: u8, b: u8)
    requires a in infos
  {
    if b in order && b < a then b in infos && infos[b].mid == infos[a].mid
    else b in devices && b != a && devices[b].info.mid == infos[a].mid
  }

  ghost predicate Conflict(devices: Devices, infos: Infos, order: seq<u8>, a: u8)
    requires a in infos
  {
    exists b :: Blocks(devices, infos, order, a, b)
  }

  lemma TakenIff(db: Db, db1: Db, infos: Infos, entries: Entries, order: seq<u8>, c: u8)
    requires (forall a :: a in order ==> a in infos && a in entries && a < c) && c in infos && c in entries
    requires Stored(db, db1, infos, entries, order)
    ensures MidTaken(db1.devices, c, infos[c].mid) <==> Conflict(db.devices, infos, order, c)
  {
    forall b | b in order ensures b in db1.devices && db1.devices[b].info == infos[b] {
      assert StoredRow(db1, b, infos[b], entries[b]);
    }
    forall b
      ensures Blocks(db.devices, infos, order, c, b) <==>
              b in db1.devices && b != c && db1.devices[b].info.mid == infos[c].mid
    {
    }
  }

  lemma ConflictInPrefix(devices: Devices, infos: Infos, order: seq<u8>, a: u8)
    requires order != [] && Increasing(order) && a in order && a in infos
    ensures Conflict(devices, infos, order, a) <==> Conflict(devices, infos, order[..|order| - 1], a)
  {
    var n := |order| - 1;
    assert order == order[..n] + [order[n]];
    forall b: u8 ensures Blocks(devices, infos, order, a, b) <==> Blocks(devices, infos, order[..n], a, b) {
      assert b in order && b < a ==> b in order[..n];
    }
  }

  /** Nothing stops the write of `a`. */
  ghost predicate Writable(devices: Devices, infos: Infos, order: seq<u8>, faults: set<u8>, a: u8)
    requires a in infos
  {
    a !in faults && !Conflict(devices, infos, order, a)
  }

  /** The transaction commits exactly when no write fails from outside and no row holds a MID that another
      address is about to get, be it an old row or one stored just before. */
  lemma {:induction false} CommitsIff(db: Db, infos: Infos, entries: Entries, order: seq<u8>, faults: set<u8>)
    requires ValidDb(db) && Increasing(order)
    requires forall a :: a in order ==> a in infos && a in entries
    ensures StoreAll(db, infos, entries, order, faults).Some? <==>
            forall a :: a in order ==> Writable(db.devices, infos, order, faults, a)
  {
    if order != [] {
      var n := |order| - 1;
      var c := order[n];
      CommitsIff(db, infos, entries, order[..n], faults);
      forall a | a in order
        ensures Writable(db.devices, infos, order, faults, a) <==> Writable(db.devices, infos, order[..n], faults, a)
      {
        ConflictInPrefix(db.devices, infos, order, a);
      }
      assert forall a :: a in order <==> a in order[..n] || a == c;
      StepIff(db, infos, entries, order, faults);
    }
  }

  lemma StepIff(db: Db, infos: Infos, entries: Entries, order: seq<u8>, faults: set<u8>)
    requires ValidDb(db) && order != [] && Increasing(order)
    requires forall a :: a in order ==> a in infos && a in entries
    ensures var n := |order| - 1;
      StoreAll(db, infos, entries, order, faults).Some? <==>
      StoreAll(db, infos, entries, order[..n], faults).Some? &&
          Writable(db.devices, infos, order[..n], faults, order[n])
  {
    var n := |order| - 1;
    if StoreAll(db, infos, entries, order[..n], faults).Some? {
      var db1 := StoreAll(db, infos, entries, order[..n], faults).value;
      StoreAllMeaning(db, db1, infos, entries, order[..n], faults);
      assert forall a :: a in order[..n] ==> a < order[n];
      TakenIff(db, db1, infos, entries, order[..n], order[n]);
    }
  }

  /** The row of `a` has the id and the mark it had, or is new and not marked. */
  ghost predicate SameMarks(before: Devices, after: Devices, a: u8) {
    && a in after && (after[a].enumerated <==> a in before && before[a].enumerated)
    && (a in before ==> after[a].id == before[a].id)
  }

  lemma StoreOneMarks(db: Db, a: u8, info: Info, e: Entry)
    ensures SameMarks(db.devices, StoreOne(db, a, info, e).devices, a)
    ensures forall b :: b != a ==>
              (b in StoreOne(db, a, info, e).devices <==> b in db.devices) &&
              (b in db.devices ==> StoreOne(db, a, info, e).devices[b] == db.devices[b])
  {
  }

  /** Storing keeps the id and the enumerated mark of a row that is there; a new row is not enumerated. */
  lemma {:induction false} MarksKept(db: Db, infos: Infos, entries: Entries, order: seq<u8>, faults: set<u8>, a: u8)
    requires Increasing(order) && forall b :: b in order ==> b in infos && b in entries
    requires StoreAll(db, infos, entries, order, faults).Some? && a in order
    ensures SameMarks(db.devices, StoreAll(db, infos, entries, order, faults).value.devices, a)
  {
    var n := |order| - 1;
    var c := order[n];
    var db1 := StoreAll(db, infos, entries, order[..n], faults).value;
    assert order == order[..n] + [c];
    StoreOneMarks(db1, c, infos[c], entries[c]);
    if a == c {
      UntouchedBefore(db, db1, infos, entries, order, faults);
    } else {
      MarksKept(db, infos, entries, order[..n], faults, a);
    }
  }

  lemma UntouchedBefore(db: Db, db1: Db, infos: Infos, entries: Entries, order: seq<u8>, faults: set<u8>)
    requires order != [] && Increasing(order) && forall b :: b in order ==> b in infos && b in entries
    requires StoreAll(db, infos, entries, order[..|order| - 1], faults) == Some(db1)
    ensures var c := order[|order| - 1];
      (c in db1.devices <==> c in db.devices) && (c in db.devices ==> db1.devices[c] == db.devices[c])
  {
    StoreAllMeaning(db, db1, infos, entries, order[..|order| - 1], faults);
  }

  // ---------------------------------------------------------------- a whole round

  /** The database after a committed round in which the nodes of `order` answered. */
  ghost function Round(db: Db, net: Network, entries: Entries, order: seq<u8>, faults: set<u8>): Option<Db>
    requires forall a :: a in order ==> a in net.infos && a in entries
  {
    StoreAll(db.(devices := Delete(db.devices, ToDelete(db.devices, net))), net.infos, entries, order, faults)
  }

  /** A node is stored with its MID afterwards exactly when it answered or was so before. */
  lemma StoredAfter(db: Db, kept: Db, db': Db, net: Network, entries: Entries, order: seq<u8>, a: u8)
    requires ValidNetwork(net) && a in Addresses(net)
    requires forall b :: b in order ==> b in net.infos && b in entries
    requires a in kept.devices <==> a in db.devices
    requires a in kept.devices ==> kept.devices[a] == db.devices[a]
    requires Stored(kept, db', net.infos, entries, order)
    ensures StoredAs(db'.devices, a, net.infos[a].mid) <==> a in order || StoredAs(db.devices, a, net.infos[a].mid)
  {
    if a in order {
      assert StoredRow(db', a, net.infos[a], entries[a]);
    } else {
      assert a in db'.devices <==> a in kept.devices;
    }
  }

  lemma SelectionShrinks(before: Devices, after: Devices, net: Network, order: seq<u8>)
    requires ValidNetwork(net)
    requires forall a :: a in Addresses(net) ==>
               (StoredAs(after, a, net.infos[a].mid) <==> a in order || StoredAs(before, a, net.infos[a].mid))
    ensures ToEnumerate(after, net, false) == ToEnumerate(before, net, false) - (set a | a in order)
  {
  }

  /** After a committed round every stored address belongs to the network, every node that answered is stored with the
      network's data, every other device of the network is untouched, and a second round on the same network without
      reenumeration selects exactly the nodes it would have selected before, but for those that answered. */
  lemma RoundConverges(db: Db, net: Network, entries: Entries, order: seq<u8>, faults: set<u8>, reenumerate: bool)
    requires ValidDb(db) && ValidNetwork(net) && StaleIdsFit(db.devices, net)
    requires Increasing(order) &&
        (forall a :: a in order ==> a in ToEnumerate(db.devices, net, reenumerate) && a in entries)
    requires forall a :: a in order ==> a in net.infos
    requires Round(db, net, entries, order, faults).Some?
    ensures var db' := Round(db, net, entries, order, faults).value;
      && ValidDb(db')
      && db'.devices.Keys <= Addresses(net)
      && (forall a :: a in order ==> StoredRow(db', a, net.infos[a], entries[a]))
      && (forall a :: a in db.devices && a in Addresses(net) && a !in order ==>
          a in db'.devices && db'.devices[a] == db.devices[a])
      && ToEnumerate(db'.devices, net, false) == ToEnumerate(db.devices, net, false) - (set a | a in order)
  {
    var kept := db.(devices := Delete(db.devices, ToDelete(db.devices, net)));
    DeleteValid(db.devices, ToDelete(db.devices, net), db.nextDevice);
    StaleGoneIff(db.devices, net);
    LiveKept(db.devices, net, db.nextDevice);
    StoreAllValid(kept, net.infos, entries, order, faults);
    var db' := Round(db, net, entries, order, faults).value;
    StoreAllMeaning(kept, db', net.infos, entries, order, faults);
    forall a | a in Addresses(net)
      ensures StoredAs(db'.devices, a, net.infos[a].mid) <==>
              a in order || StoredAs(db.devices, a, net.infos[a].mid)
    {
      StoredAfter(db, kept, db', net, entries, order, a);
    }
    SelectionShrinks(db.devices, db'.devices, net, order);
  }

  /** A node of the network is left out exactly when nothing is to be enumerated again and its row carries the MID that
      the network reports. */
  lemma LeftOutIff(devices: Devices, net: Network, reenumerate: bool, a: u8)
    requires ValidNetwork(net) && (a in net.bonded || a == 0)
    ensures a !in ToEnumerate(devices, net, reenumerate) <==>
              !reenumerate && a in devices && devices[a].info.mid == net.infos[a].mid
  {
  }

  /** A round selects nothing exactly when every node's row carries the MID that the network reports. */
  lemma NothingSelectedIff(devices: Devices, net: Network)
    requires ValidNetwork(net)
    ensures ToEnumerate(devices, net, false) == {} <==>
              forall a :: a in net.bonded || a == 0 ==> a in devices && devices[a].info.mid == net.infos[a].mid
  {
    forall a: u8 | a in net.bonded || a == 0
      ensures a !in ToEnumerate(devices, net, false) <==> a in devices && devices[a].info.mid == net.infos[a].mid
    {
      LeftOutIff(devices, net, false, a);
    }
    assert ToEnumerate(devices, net, false) <= Addresses(net);
  }

  /** After a committed round, the next one selects a node that answered exactly when the network has changed its MID
      since. */
  lemma ChangedMidSelected(db: Db, net: Network, entries: Entries, order: seq<u8>, faults: set<u8>, later: Network,
                           a: u8)
    requires Increasing(order) && forall b :: b in order ==> b in net.infos && b in entries
    requires Round(db, net, entries, order, faults).Some? && ValidNetwork(later)
    requires a in order && (a in later.bonded || a == 0)
    ensures a in ToEnumerate(Round(db, net, entries, order, faults).value.devices, later, false) <==>
              later.infos[a].mid != net.infos[a].mid
  {
    var kept := db.(devices := Delete(db.devices, ToDelete(db.devices, net)));
    var db' := Round(db, net, entries, order, faults).value;
    StoreAllMeaning(kept, db', net.infos, entries, order, faults);
    assert StoredRow(db', a, net.infos[a], entries[a]);
    LeftOutIff(db'.devices, later, false, a);
  }

  // ---------------------------------------------------------------- the service

  lemma RowAdded(rows: Drivers, log: multiset<(nat, nat)>, productId: nat, s: set<nat>, d: nat)
    requires d !in s
    ensures rows + Rows(productId, s + {d}) == rows + Rows(productId, s) + {(productId, d)}
    ensures rows - Rows(productId, s + {d}) == rows - Rows(productId, s) - {(productId, d)}
    ensures log + multiset(Rows(productId, s + {d})) == log + multiset(Rows(productId, s)) + multiset{(productId, d)}
  {
    assert Rows(productId, s + {d}) == Rows(productId, s) + {(productId, d)};
  }

  lemma RowsReplaced(drivers: Drivers, productId: nat, computed: set<nat>)
    ensures var stored := DriversOf(drivers, productId);
      drivers + Rows(productId, computed - stored) - Rows(productId, stored - computed)
      == (set r | r in drivers && r.0 != productId) + Rows(productId, computed)
  {
    var stored := DriversOf(drivers, productId);
    var a := drivers + Rows(productId, computed - stored) - Rows(productId, stored - computed);
    var b := (set r | r in drivers && r.0 != productId) + Rows(productId, computed);
    forall r ensures r in a <==> r in b {
      if r.0 == productId {
        assert r in drivers <==> r.1 in stored;
        assert r == (productId, r.1);
      }
    }
  }

  class Reconciler {
    var db: Db
    var toEnumerate: set<u8>
    var toDelete: set<u8>
    /** Rows inserted into and removed from the product-driver table so far. */
    var inserted: multiset<(nat, nat)>
    var removed: multiset<(nat, nat)>

    constructor (db: Db)
      ensures this.db == db && toEnumerate == {} && toDelete == {} && inserted == removed == multiset{}
    {
      this.db, toEnumerate, toDelete, inserted, removed := db, {}, {}, multiset{}, multiset{};
    }

    /** Selects what to enumerate and what to delete. */
    method CheckNetwork(net: Network, reenumerate: bool)
      requires ValidNetwork(net)
      modifies this`toEnumerate, this`toDelete
      ensures toEnumerate == ToEnumerate(db.devices, net, reenumerate)
      ensures toDelete == ToDelete(db.devices, net)
      ensures forall a :: a in net.bonded + {0} ==>
                (a !in toEnumerate <==>
                 !reenumerate && a in db.devices && db.devices[a].info.mid == net.infos[a].mid)
      ensures toEnumerate <= net.bonded + {0}
    {
      toEnumerate, toDelete := Addresses(net), {};
      var rest := db.devices.Keys;
      while rest != {}
        invariant rest <= db.devices.Keys
        invariant forall a :: a in toEnumerate <==>
          a in Addresses(net) && (reenumerate || a in rest || !StoredAs(db.devices, a, net.infos[a].mid))
        invariant forall i :: i in toDelete <==>
            exists a :: a in db.devices && a !in rest && a !in Addresses(net) && i == db.devices[a].id % 0x100
        decreases rest
      {
        var a :| a in rest;
        rest := rest - {a};
        if a !in toEnumerate {
          toDelete := toDelete + {db.devices[a].id % 0x100};
        } else if !reenumerate && net.infos[a].mid == db.devices[a].info.mid {
          toEnumerate := toEnumerate - {a};
        }
      }
    }

    /** Brings the drivers of a product to the computed set; a driver in both sets is not written, any other
        one once. */
    method UpdateProductDrivers(productId: nat, computed: set<nat>)
      modifies this`db, this`inserted, this`removed
      ensures db == WithDrivers(old(db), productId, computed)
      ensures var stored := DriversOf(old(db).drivers, productId);
        && inserted == old(inserted) + multiset(Rows(productId, computed - stored))
        && removed == old(removed) + multiset(Rows(productId, stored - computed))
    {
      RowsReplaced(db.drivers, productId, computed);
      var dbProductDrivers := DriversOf(db.drivers, productId);
      if dbProductDrivers == computed {
        assert Rows(productId, {}) == {};
        assert computed - dbProductDrivers == {} == dbProductDrivers - computed;
        return;
      }
      dbProductDrivers := InsertNew(productId, computed, dbProductDrivers);
      RemoveUnused(productId, dbProductDrivers);
    }

    /** Adds the drivers that are not stored, and returns the stored ones that were not computed. */
    method InsertNew(productId: nat, computed: set<nat>, stored: set<nat>) returns (unused: set<nat>)
      modifies this`db, this`inserted
      ensures unused == stored - computed
      ensures db == old(db).(drivers := old(db).drivers + Rows(productId, computed - stored))
      ensures inserted == old(inserted) + multiset(Rows(productId, computed - stored))
    {
      unused := stored;
      var rest := computed;
      ghost var added: set<nat> := {};
      ghost var rows, log := db.drivers, inserted;
      assert Rows(productId, {}) == {};
      while rest != {}
        invariant rest <= computed
        invariant forall x :: x in added <==> x in computed && x !in rest && x !in stored
        invariant forall x :: x in unused <==> x in stored && (x in computed ==> x in rest)
        invariant db == old(db).(drivers := db.drivers) && db.drivers == rows + Rows(productId, added)
        invariant inserted == log + multiset(Rows(productId, added))
        decreases rest
      {
        var d :| d in rest;
        if d in unused {
          unused := unused - {d};
        } else {
          db := db.(drivers := db.drivers + {(productId, d)});
          inserted := inserted + multiset{(productId, d)};
          RowAdded(rows, log, productId, added, d);
          added := added + {d};
        }
        rest := rest - {d};
      }
      assert added == computed - stored;
    }

    method RemoveUnused(productId: nat, unused: set<nat>)
      modifies this`db, this`removed
      ensures db == old(db).(drivers := old(db).drivers - Rows(productId, unused))
      ensures removed == old(removed) + multiset(Rows(productId, unused))
    {
      var rest := unused;
      ghost var done: set<nat> := {};
      ghost var rows, log := db.drivers, removed;
      assert Rows(productId, {}) == {};
      while rest != {}
        invariant rest <= unused && done == unused - rest
        invariant db == old(db).(drivers := db.drivers) && db.drivers == rows - Rows(productId, done)
        invariant removed == log + multiset(Rows(productId, done))
        decreases rest
      {
        var d :| d in rest;
        db := db.(drivers := db.drivers - {(productId, d)});
        removed := removed + multiset{(productId, d)};
        RowAdded(rows, log, productId, done, d);
        done := done + {d};
        rest := rest - {d};
      }
      assert done == unused;
    }

    /** Inserts or updates one device and its product; false if the database refuses the row. */
    method StoreDevice(a: u8, info: Info, e: Entry, fault: bool) returns (ok: bool)
      modifies this`db, this`inserted, this`removed
      ensures ok <==> !fault && !MidTaken(old(db).devices, a, info.mid)
      ensures ok ==> db == StoreOne(old(db), a, info, e)
    {
      if e.key !in db.products {
        db := db.(products := db.products[e.key := db.nextProduct], nextProduct := db.nextProduct + 1);
      }
      var productId := db.products[e.key];
      UpdateProductDrivers(productId, e.drivers);
      if fault || MidTaken(db.devices, a, info.mid) {
        return false;
      }
      if a in db.devices {
        var row := db.devices[a];
        db := db.(devices := db.devices[a := Device(row.id, productId, row.enumerated, info)]);
      } else {
        db := db.(devices := db.devices[a := Device(db.nextDevice, productId, false, info)],
            nextDevice := db.nextDevice + 1);
      }
      ok := true;
    }

    method RemoveDevices()
      modifies this`db
      ensures db == old(db).(devices := Delete(old(db).devices, toDelete))
    {
      var rest := toDelete;
      assert Delete(db.devices, {}) == db.devices;
      while rest != {}
        invariant rest <= toDelete
        invariant db == old(db).(devices := Delete(old(db).devices, toDelete - rest))
        decreases rest
      {
        var id :| id in rest;
        db := db.(devices := map a | a in db.devices && db.devices[a].id != id :: db.devices[a]);
        assert Delete(Delete(old(db).devices, toDelete - rest), {id}) ==
            Delete(old(db).devices, toDelete - (rest - {id}));
        rest := rest - {id};
      }
      assert toDelete - rest == toDelete;
    }

    /** Stores the devices one by one until a row is refused. */
    method StoreDevices(infos: Infos, entries: Entries, faults: set<u8>, order: seq<u8>) returns (ok: bool)
      requires forall a :: a in order ==> a in infos && a in entries
      modifies this`db, this`inserted, this`removed
      ensures ok <==> StoreAll(old(db), infos, entries, order, faults).Some?
      ensures ok ==> StoreAll(old(db), infos, entries, order, faults) == Some(db)
    {
      for k := 0 to |order|
        invariant StoreAll(old(db), infos, entries, order[..k], faults) == Some(db)
      {
        var a := order[k];
        assert a in order;
        assert order[..k + 1][..k] == order[..k];
        ok := StoreDevice(a, infos[a], entries[a], a in faults);
        if !ok {
          StoreAllStops(old(db), infos, entries, order, faults, k + 1);
          return;
        }
      }
      assert order[..|order|] == order;
      ok := true;
    }

    /** One transaction: the whole round is stored, or the database is what it was before. */
    method UpdateDatabaseProducts(net: Network, entries: Entries, faults: set<u8>, order: seq<u8>)
      returns (committed: bool)
      requires order == Ascending(toEnumerate) && toDelete == ToDelete(db.devices, net)
      requires forall a :: a in order ==> a in net.infos && a in entries
      modifies this`db, this`inserted, this`removed
      ensures committed <==> Round(old(db), net, entries, order, faults).Some?
      ensures db == if committed then Round(old(db), net, entries, order, faults).value else old(db)
    {
      var saved := db;
      RemoveDevices();
      committed := StoreDevices(net.infos, entries, faults, order);
      if !committed {
        db := saved;
      }
    }
  }
}
