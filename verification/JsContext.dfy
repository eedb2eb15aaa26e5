/** The index of loaded driver scripts: one context per product, addresses mapped to products, provisional contexts. */
module JsContext {
  import opened Common

  /** The provisional context for every HWPID, and the base below which the context of one HWPID stands. */
  const HWPID_DEFAULT_MAPPING: int := -0x10000
  const HWPID_MAPPING_SPACE: int := -0x20000

  /** What a context was built from: driver records and the product's custom driver. */
  datatype Code = Code(drivers: set<nat>, custom: Option<string>)

  /** The rows the loader reads: the product of each device, the drivers of each product, the newest drivers. */
  datatype Db = Db(products: map<int, int>, productDrivers: map<int, set<nat>>, custom: map<int, string>,
                   latest: set<nat>)
  {
    function Stored(p: int): set<nat> {
      if p in productDrivers then productDrivers[p] else {}
    }

    function Addresses(p: int): set<int> {
      set a | a in products && products[a] == p
    }

    ghost predicate IsCoordinator(p: int) {
      0 in products && products[0] == p
    }

    function CodeOf(p: int): Code {
      Code(if 0 in products && products[0] == p then latest else Stored(p),
           if p in custom then Some(custom[p]) else None)
    }

    /** The driver map as the query builds it: each row contributes the product's id in place of the driver's id. */
    function DriverRecord(p: int): Option<set<int>> {
      if Stored(p) == {} then None else Some({p})
    }

    /** Identifiers count from 1. */
    ghost predicate Valid() {
      forall a :: a in products ==> products[a] > 0
    }
  }

  function Lookup(contexts: map<int, Code>, id: int): Option<Code> {
    if id in contexts then Some(contexts[id]) else None
  }

  datatype Index = Index(contexts: map<int, Code>, addresses: map<int, int>, drivers: map<int, set<nat>>)
  {
    function DriverIds(id: int): set<nat> {
      if id in drivers then drivers[id] else {}
    }

    /** Every mapped address resolves to a live context. */
    ghost predicate Live() {
      forall a :: a in addresses ==> addresses[a] in contexts
    }

    /** A live context was built from the drivers recorded for it. */
    ghost predicate Recorded() {
      forall id :: id in contexts ==> id in drivers && drivers[id] == contexts[id].drivers
    }

    ghost predicate Wanted(db: Db, a: int)
      requires a in db.products
    {
      var p := db.products[a];
      || a !in addresses || addresses[a] != p
      || (db.DriverRecord(p).Some? && DriverIds(p) != db.DriverRecord(p).value)
    }

    /** The products some device of which is wanted. */
    ghost function Chosen(db: Db): set<int> {
      set a | a in db.products && Wanted(db, a) :: db.products[a]
    }

    /** The context that serves a call: the address's own, else that of the HWPID, else the default. */
    function Resolve(address: int, hwpid: int): Option<Code> {
      if address in addresses then Lookup(contexts, addresses[address])
      else
        var provisional := Lookup(contexts, HWPID_MAPPING_SPACE - hwpid % 0x10000);
        if provisional.Some? then provisional else Lookup(contexts, HWPID_DEFAULT_MAPPING)
    }

    function Load(id: int, code: Code, ok: bool): Index {
      if ok then Index(contexts[id := code], addresses, drivers[id := code.drivers])
      else Index(contexts - {id}, addresses, drivers)
    }
  }

  /** What loading the products `done`, of which those in `broken` fail, makes of `x`. */
  ghost predicate ProductsLoaded(x: Index, y: Index, db: Db, done: set<int>, broken: set<int>) {
    && ContextsLoaded(x.contexts, y.contexts, db, done, broken)
    && DriversLoaded(x.drivers, y.drivers, db, done, broken)
    && AddressesLoaded(x.addresses, y.addresses, db, done, broken)
  }

  ghost predicate ContextsLoaded(x: map<int, Code>, y: map<int, Code>, db: Db, done: set<int>, broken: set<int>) {
    && (forall id :: id in y <==> if id in done then id !in broken else id in x)
    && (forall id :: id in y ==> y[id] == if id in done then db.CodeOf(id) else x[id])
  }

  ghost predicate DriversLoaded(x: map<int, set<nat>>, y: map<int, set<nat>>, db: Db, done: set<int>,
                                broken: set<int>) {
    && (forall id :: id in y <==> id in x || (id in done && id !in broken))
    && (forall id :: id in y ==> y[id] == if id in done && id !in broken then db.CodeOf(id).drivers else x[id])
  }

  ghost predicate AddressesLoaded(x: map<int, int>, y: map<int, int>, db: Db, done: set<int>, broken: set<int>) {
    && (forall a :: a in y <==> a in x || Remapped(db, done, broken, a))
    && (forall a :: a in y ==> y[a] == if Remapped(db, done, broken, a) then db.products[a] else x[a])
  }

  ghost predicate Remapped(db: Db, done: set<int>, broken: set<int>, a: int) {
    a in db.products && db.products[a] in done && db.products[a] !in broken
  }

  ghost function AllTo(addresses: set<int>, id: int): map<int, int> {
    map a | a in addresses :: id
  }

  lemma OneMoreTo(m: map<int, int>, addresses: set<int>, a: int, id: int)
    ensures m + AllTo(addresses + {a}, id) == (m + AllTo(addresses, id))[a := id]
  {
  }

  ghost function LoadOne(x: Index, db: Db, p: int, broken: set<int>): Index {
    var y := x.Load(p, db.CodeOf(p), p !in broken);
    if p in broken then y else y.(addresses := y.addresses + AllTo(db.Addresses(p), p))
  }

  ghost function LoadEach(x: Index, db: Db, order: seq<int>, broken: set<int>): Index {
    if order == [] then x
    else LoadOne(LoadEach(x, db, order[..|order| - 1], broken), db, order[|order| - 1], broken)
  }

  lemma AddressesNext(x: map<int, int>, y: map<int, int>, z: map<int, int>, db: Db, done: set<int>, p: int,
                      broken: set<int>)
    requires AddressesLoaded(x, y, db, done, broken)
    requires z == if p in broken then y else y + AllTo(db.Addresses(p), p)
    ensures AddressesLoaded(x, z, db, done + {p}, broken)
  {
    assert forall a :: Remapped(db, done + {p}, broken, a) <==>
        Remapped(db, done, broken, a) || (p !in broken && a in db.Addresses(p));
  }

  lemma ContextsNext(x: map<int, Code>, y: map<int, Code>, db: Db, done: set<int>, p: int, broken: set<int>)
    requires ContextsLoaded(x, y, db, done, broken)
    ensures ContextsLoaded(x, if p in broken then y - {p} else y[p := db.CodeOf(p)], db, done + {p}, broken)
  {
  }

  lemma DriversNext(x: map<int, set<nat>>, y: map<int, set<nat>>, db: Db, done: set<int>, p: int, broken: set<int>)
    requires DriversLoaded(x, y, db, done, broken)
    ensures DriversLoaded(x, if p in broken then y else y[p := db.CodeOf(p).drivers], db, done + {p}, broken)
  {
  }

  lemma LoadedNext(x: Index, y: Index, db: Db, done: set<int>, p: int, broken: set<int>)
    requires ProductsLoaded(x, y, db, done, broken)
    ensures ProductsLoaded(x, LoadOne(y, db, p, broken), db, done + {p}, broken)
  {
    ContextsNext(x.contexts, y.contexts, db, done, p, broken);
    DriversNext(x.drivers, y.drivers, db, done, p, broken);
    AddressesNext(x.addresses, y.addresses, LoadOne(y, db, p, broken).addresses, db, done, p, broken);
  }

  lemma {:induction false} LoadEachMeaning(x: Index, db: Db, order: seq<int>, done: set<int>, broken: set<int>)
    requires forall p :: p in order <==> p in done
    ensures ProductsLoaded(x, LoadEach(x, db, order, broken), db, done, broken)
    decreases |order|
  {
    if order == [] {
      assert done == {} by { assert forall p :: p in done ==> p in order; }
    } else {
      var n := |order| - 1;
      var before := set p | p in order[..n];
      LoadEachMeaning(x, db, order[..n], before, broken);
      LoadedNext(x, LoadEach(x, db, order[..n], broken), db, before, order[n], broken);
      assert order == order[..n] + [order[n]];
      forall p ensures p in done <==> p in before + {order[n]} {
        assert p in done <==> p in order;
      }
      assert done == before + {order[n]};
    }
  }

  // ---------------------------------------------------------------- one reload

  /** After a reload without failing scripts every device is mapped to its own product, by a live context. */
  lemma EveryDeviceMapped(x: Index, y: Index, db: Db)
    requires x.Live() && x.Recorded() && ProductsLoaded(x, y, db, x.Chosen(db), {})
    ensures y.Live() && y.Recorded()
    ensures forall a :: a in db.products ==>
              a in y.addresses && y.addresses[a] == db.products[a] && db.products[a] in y.contexts
  {
    forall a | a in db.products ensures a in y.addresses && y.addresses[a] == db.products[a] {
      assert x.Wanted(db, a) ==> db.products[a] in x.Chosen(db);
    }
  }

  /** A context holds the newest drivers if it is the coordinator's and the stored ones otherwise, and the product's
      custom driver exactly when there is one. */
  ghost predicate BuiltFrom(code: Code, db: Db, p: int) {
    && (0 in db.products && db.products[0] == p ==> code.drivers == db.latest)
    && (!(0 in db.products && db.products[0] == p) ==>
          code.drivers == if p in db.productDrivers then db.productDrivers[p] else {})
    && code.custom == if p in db.custom then Some(db.custom[p]) else None
  }

  /** After a reload, failing scripts or not: a chosen product that loads has the context its rows describe, one that
      fails has none, and every other context is as before. */
  lemma ContextsAfterReload(x: Index, y: Index, db: Db, broken: set<int>, p: int)
    requires ProductsLoaded(x, y, db, x.Chosen(db), broken)
    ensures p in x.Chosen(db) && p !in broken ==> p in y.contexts && BuiltFrom(y.contexts[p], db, p)
    ensures p in x.Chosen(db) && p !in broken ==> p in y.drivers && y.drivers[p] == y.contexts[p].drivers
    ensures p in x.Chosen(db) && p in broken ==> p !in y.contexts
    ensures p !in x.Chosen(db) ==> Lookup(y.contexts, p) == Lookup(x.contexts, p)
  {
  }

  /** The coordinator's product 3 has driver 1 stored, and driver 9 is newer: its context gets both. */
  lemma CoordinatorExample(y: Index, db: Db)
    requires db == Db(map[0 := 3], map[3 := {1}], map[], {1, 9})
    requires ProductsLoaded(Index(map[], map[], map[]), y, db, Index(map[], map[], map[]).Chosen(db), {})
    ensures 3 in y.contexts && y.contexts[3] == Code({1, 9}, None)
  {
    var x := Index(map[], map[], map[]);
    assert x.Wanted(db, 0);
    assert db.products[0] in x.Chosen(db);
    ContextsAfterReload(x, y, db, {}, 3);
  }

  /** A product skipped by a reload although its stored drivers are not the loaded ones: the loaded set is the one
      number that the driver map confuses with it. */
  ghost predicate Stale(x: Index, db: Db, p: int) {
    && (forall a :: a in db.products && db.products[a] == p ==> a in x.addresses && x.addresses[a] == p)
    && x.DriverIds(p) == {p}
    && db.Stored(p) != {p}
  }

  /** A product with drivers runs its stored ones after a reload exactly when it was not stale before. */
  lemma StoredDriversLoadedIff(x: Index, y: Index, db: Db, p: int)
    requires x.Live() && x.Recorded() && ProductsLoaded(x, y, db, x.Chosen(db), {})
    requires (exists d :: d in db.products && db.products[d] == p) && !db.IsCoordinator(p) && db.Stored(p) != {}
    ensures p in y.contexts && y.contexts[p].drivers == y.DriverIds(p)
    ensures y.DriverIds(p) == db.Stored(p) <==> !Stale(x, db, p)
  {
    EveryDeviceMapped(x, y, db);
    assert db.CodeOf(p).drivers == db.Stored(p);
    var d :| d in db.products && db.products[d] == p;
    forall a | a in db.products && db.products[a] == p ensures x.Wanted(db, a) ==> p in x.Chosen(db) {
    }
    if p in x.Chosen(db) {
      var a :| a in db.products && db.products[a] == p && x.Wanted(db, a);
      assert !Stale(x, db, p);
      assert y.DriverIds(p) == db.Stored(p);
    } else {
      assert x.DriverIds(p) == {p} == y.DriverIds(p) by { assert !x.Wanted(db, d); }
    }
  }

  /** Product 5, loaded with driver 5, keeps it although driver 7 is stored. */
  lemma StaleProductKept(x: Index, y: Index, db: Db)
    requires x == Index(map[5 := Code({5}, None)], map[1 := 5], map[5 := {5}])
    requires db == Db(map[1 := 5], map[5 := {7}], map[], {})
    requires ProductsLoaded(x, y, db, x.Chosen(db), {})
    ensures y.addresses[1] == 5 && y.contexts[5].drivers == {5} && db.Stored(5) == {7}
  {
    assert x.Chosen(db) == {} by {
      assert forall a :: a in db.products ==> !x.Wanted(db, a);
    }
  }

  /** The next reload on the same rows chooses exactly the failed products and those whose driver set is not the
      number the driver map reports. */
  lemma ChosenAgainIff(x: Index, y: Index, db: Db, broken: set<int>, p: int)
    requires ProductsLoaded(x, y, db, x.Chosen(db), broken)
    ensures p in y.Chosen(db) <==>
              p in x.Chosen(db) && (p in broken || (db.Stored(p) != {} && db.CodeOf(p).drivers != {p}))
  {
    if p in y.Chosen(db) {
      var a :| a in db.products && db.products[a] == p && y.Wanted(db, a);
      assert x.Wanted(db, a) ==> p in x.Chosen(db);
    }
    if p in x.Chosen(db) {
      var a :| a in db.products && db.products[a] == p && x.Wanted(db, a);
      assert y.Wanted(db, a) ==> p in y.Chosen(db);
    }
  }

  /** Product 5 has just been loaded with its driver 3, and is chosen again. */
  lemma ChosenAgainExample(x: Index, y: Index, db: Db)
    requires x == Index(map[], map[], map[]) && db == Db(map[1 := 5], map[5 := {3}], map[], {})
    requires ProductsLoaded(x, y, db, x.Chosen(db), {})
    ensures 5 in y.contexts && y.contexts[5].drivers == {3} == db.Stored(5) && 5 in y.Chosen(db)
  {
    assert x.Wanted(db, 1);
    assert db.products[1] in x.Chosen(db);
    assert db.CodeOf(5).drivers == {3};
    ChosenAgainIff(x, y, db, {}, 5);
  }

  /** Addresses stay live across a reload exactly when each one served by a failed product moves to one that loads. */
  lemma LiveAfterReloadIff(x: Index, y: Index, db: Db, broken: set<int>)
    requires x.Live() && ProductsLoaded(x, y, db, x.Chosen(db), broken)
    ensures y.Live() <==>
              forall a :: a in x.addresses && x.addresses[a] in x.Chosen(db) * broken ==>
                a in db.products && db.products[a] != x.addresses[a] && db.products[a] !in broken
  {
    var chosen := x.Chosen(db);
    forall a | a in db.products && (a !in x.addresses || db.products[a] != x.addresses[a])
      ensures db.products[a] in chosen
    {
      assert x.Wanted(db, a);
    }
    forall a | a in x.addresses
      ensures (a in y.addresses && y.addresses[a] in y.contexts) <==>
              (x.addresses[a] in chosen * broken ==>
                 a in db.products && db.products[a] != x.addresses[a] && db.products[a] !in broken)
    {
    }
    forall a | a in y.addresses && a !in x.addresses ensures y.addresses[a] in y.contexts {
    }
  }

  /** The only product of the network fails to load: its device stays mapped to a context that is gone. */
  lemma DanglingExample(x: Index, y: Index, db: Db)
    requires x == Index(map[5 := Code({3}, None)], map[1 := 5], map[5 := {3}])
    requires db == Db(map[1 := 5], map[5 := {3}], map[], {})
    requires ProductsLoaded(x, y, db, x.Chosen(db), {5})
    ensures x.Live() && y.addresses[1] == 5 && 5 !in y.contexts && y.Resolve(1, 0) == None
  {
    assert x.Wanted(db, 1);
    assert db.products[1] in x.Chosen(db);
  }

  // ---------------------------------------------------------------- whole runs

  datatype Step =
    | LoadScript(id: int, code: Code, ok: bool)
    | MapAddress(address: int, id: int)
    | Clear
    | Reload(db: Db, broken: set<int>)

  ghost predicate Next(x: Index, step: Step, y: Index) {
    match step
    case LoadScript(id, code, ok) => y == x.Load(id, code, ok)
    case MapAddress(a, id) => y == x.(addresses := x.addresses[a := id])
    case Clear => y == Index(map[], map[], map[])
    case Reload(db, broken) => ProductsLoaded(x, y, db, x.Chosen(db), broken)
  }

  /** No script fails, and addresses are mapped to live contexts only. */
  ghost predicate Smooth(x: Index, step: Step) {
    match step
    case LoadScript(_, _, ok) => ok
    case MapAddress(_, id) => id in x.contexts
    case Clear => true
    case Reload(_, broken) => broken == {}
  }

  ghost predicate IsRun(run: seq<Index>, steps: seq<Step>) {
    && |run| == |steps| + 1
    && run[0] == Index(map[], map[], map[])
    && forall k :: 0 <= k < |steps| ==> Next(run[k], steps[k], run[k + 1])
  }

  lemma StepKeeps(x: Index, step: Step, y: Index)
    requires x.Live() && x.Recorded() && Next(x, step, y) && Smooth(x, step)
    ensures y.Live() && y.Recorded()
  {
    if step.Reload? {
      EveryDeviceMapped(x, y, step.db);
    }
  }

  /** Over every run in which no script load fails, every mapped address resolves to a live context whose drivers are
      the recorded ones, and every reload maps each device to its own product. */
  lemma {:induction false} AlwaysLive(run: seq<Index>, steps: seq<Step>, k: nat)
    requires IsRun(run, steps) && k < |run|
    requires forall i :: 0 <= i < |steps| ==> Smooth(run[i], steps[i])
    ensures run[k].Live() && run[k].Recorded()
    ensures k > 0 && steps[k - 1].Reload? ==>
              forall a :: a in steps[k - 1].db.products ==>
                a in run[k].addresses && run[k].addresses[a] == steps[k - 1].db.products[a]
  {
    if k > 0 {
      AlwaysLive(run, steps, k - 1);
      StepKeeps(run[k - 1], steps[k - 1], run[k]);
      if steps[k - 1].Reload? {
        EveryDeviceMapped(run[k - 1], run[k], steps[k - 1].db);
      }
    }
  }

  /** Over every such run a call to any mapped address is served by its own context; after a reload a call to any device
      of the network is served by its own product, never by a provisional context, whatever its HWPID. */
  lemma EveryCallServed(run: seq<Index>, steps: seq<Step>, k: nat, address: int, hwpid: int)
    requires IsRun(run, steps) && k < |run|
    requires forall i :: 0 <= i < |steps| ==> Smooth(run[i], steps[i])
    ensures address in run[k].addresses ==>
      var id := run[k].addresses[address];
      id in run[k].contexts && run[k].Resolve(address, hwpid) == Some(run[k].contexts[id])
    ensures k > 0 && steps[k - 1].Reload? && address in steps[k - 1].db.products ==>
      var id := steps[k - 1].db.products[address];
      id in run[k].contexts && run[k].Resolve(address, hwpid) == Some(run[k].contexts[id])
  {
    AlwaysLive(run, steps, k);
  }

  // ---------------------------------------------------------------- the services

  class JsRender {
    var contexts: map<int, Code>
    var addressContextMap: map<int, int>
    var contextDriverMap: map<int, set<nat>>

    ghost function Contents(): Index
      reads this
    {
      Index(contexts, addressContextMap, contextDriverMap)
    }

    constructor ()
      ensures Contents() == Index(map[], map[], map[])
    {
      contexts, addressContextMap, contextDriverMap := map[], map[], map[];
    }

    /** The old context is dropped before the new script runs; its drivers stay recorded when that fails. */
    method LoadContextCode(contextId: int, code: Code, runs: bool) returns (ok: bool)
      modifies this
      ensures ok == runs && Next(old(Contents()), LoadScript(contextId, code, ok), Contents())
    {
      if contextId in contexts {
        contexts := contexts - {contextId};
      }
      if !runs {
        assert contexts == old(contexts) - {contextId};
        return false;
      }
      contexts := contexts[contextId := code];
      contextDriverMap := contextDriverMap[contextId := code.drivers];
      assert contexts == old(contexts)[contextId := code];
      ok := true;
    }

    method MapAddressToContext(address: int, contextId: int)
      modifies this
      ensures Next(old(Contents()), MapAddress(address, contextId), Contents())
    {
      addressContextMap := addressContextMap[address := contextId];
    }

    method ClearContexts()
      modifies this
      ensures Next(old(Contents()), Clear, Contents())
    {
      contexts, addressContextMap, contextDriverMap := map[], map[], map[];
    }

    /** An address mapped to a dropped context is an error and never falls back. */
    method FindContext(address: int, hwpid: int) returns (r: Option<Code>, own: bool)
      ensures r == Contents().Resolve(address, hwpid) && (own <==> address in addressContextMap)
    {
      own := address in addressContextMap;
      if own {
        r := Lookup(contexts, addressContextMap[address]);
      } else {
        var contextId := HWPID_MAPPING_SPACE - hwpid % 0x10000;
        if contextId !in contexts {
          contextId := HWPID_DEFAULT_MAPPING;
        }
        r := Lookup(contexts, contextId);
      }
    }

    /** The context whose answer the caller of a function sees; `lacking` are the contexts without that function. */
    method CallContext(address: int, hwpid: int, lacking: set<Code>) returns (r: Option<Code>)
      ensures var found := Contents().Resolve(address, hwpid);
        r == if address == 0 && 0 in addressContextMap && found.Some? && found.value in lacking
             then Lookup(contexts, HWPID_DEFAULT_MAPPING) else found
    {
      var own: bool;
      r, own := FindContext(address, hwpid);
      if r.Some? && address == 0 && own && r.value in lacking {
        r := Lookup(contexts, HWPID_DEFAULT_MAPPING);
      }
    }

    /** The products to load: a device is unmapped, mapped elsewhere, or its product's drivers seem to differ. */
    method ChooseProducts(db: Db) returns (productsToLoad: set<int>)
      ensures productsToLoad == Contents().Chosen(db)
    {
      productsToLoad := {};
      var todo := db.products.Keys;
      while todo != {}
        invariant todo <= db.products.Keys
        invariant forall p :: p in productsToLoad ==> p in Contents().Chosen(db)
        invariant forall a :: a in db.products && a !in todo && Contents().Wanted(db, a) ==>
            db.products[a] in productsToLoad
        decreases |todo|
      {
        var addr := Smallest(todo);
        todo := todo - {addr};
        var productId := db.products[addr];
        if productId !in productsToLoad {
          if addr !in addressContextMap || addressContextMap[addr] != productId {
            assert Contents().Wanted(db, addr);
            productsToLoad := productsToLoad + {productId};
          } else {
            var loaded := if productId in contextDriverMap then contextDriverMap[productId] else {};
            var record := db.DriverRecord(productId);
            if record.Some? && record.value != loaded {
              assert Contents().Wanted(db, addr);
              productsToLoad := productsToLoad + {productId};
            }
          }
        }
      }
      forall p ensures p in productsToLoad <==> p in Contents().Chosen(db) {
        if p in Contents().Chosen(db) {
          var a :| a in db.products && db.products[a] == p && Contents().Wanted(db, a);
          assert a !in todo;
        }
      }
    }

    /** Maps all addresses of a set to one context. */
    method MapAddresses(addresses: set<int>, contextId: int)
      modifies this
      ensures contexts == old(contexts) && contextDriverMap == old(contextDriverMap)
      ensures addressContextMap == old(addressContextMap) + AllTo(addresses, contextId)
    {
      var todo := addresses;
      while todo != {}
        invariant todo <= addresses
        invariant contexts == old(contexts) && contextDriverMap == old(contextDriverMap)
        invariant addressContextMap == old(addressContextMap) + AllTo(addresses - todo, contextId)
        decreases |todo|
      {
        var addr := Smallest(todo);
        MapAddressToContext(addr, contextId);
        OneMoreTo(old(addressContextMap), addresses - todo, addr, contextId);
        assert addresses - (todo - {addr}) == (addresses - todo) + {addr};
        todo := todo - {addr};
      }
      assert addresses - todo == addresses;
    }

    /** Loads one product and maps its devices when the script runs. */
    method LoadProduct(db: Db, productId: int, broken: set<int>)
      modifies this
      ensures Contents() == LoadOne(old(Contents()), db, productId, broken)
    {
      var success := LoadContextCode(productId, db.CodeOf(productId), productId !in broken);
      if success {
        MapAddresses(db.Addresses(productId), productId);
      }
    }

    method LoadProducts(db: Db, products: set<int>, broken: set<int>)
      modifies this
      ensures ProductsLoaded(old(Contents()), Contents(), db, products, broken)
    {
      var todo := products;
      ghost var done: seq<int> := [];
      while todo != {}
        invariant todo <= products && forall p :: p in done <==> p in products - todo
        invariant Contents() == LoadEach(old(Contents()), db, done, broken)
        decreases |todo|
      {
        var productId := Smallest(todo);
        LoadProduct(db, productId, broken);
        todo := todo - {productId};
        assert (done + [productId])[..|done|] == done;
        done := done + [productId];
      }
      LoadEachMeaning(old(Contents()), db, done, products, broken);
    }

    /** Loads the scripts of all chosen products. */
    method LoadProductDrivers(db: Db, broken: set<int>)
      modifies this
      ensures Next(old(Contents()), Reload(db, broken), Contents())
      ensures forall p :: p in old(Contents()).Chosen(db) && p !in broken ==>
                p in contexts && BuiltFrom(contexts[p], db, p)
    {
      var productsToLoad := ChooseProducts(db);
      LoadProducts(db, productsToLoad, broken);
      forall p | p in old(Contents()).Chosen(db) && p !in broken
        ensures p in contexts && BuiltFrom(contexts[p], db, p)
      {
        ContextsAfterReload(old(Contents()), Contents(), db, broken, p);
      }
    }
  }

  /** An address that is not mapped is served by the context of its HWPID, or else by the one for every HWPID. */
  lemma UnmappedServed(x: Index, address: int, hwpid: u16)
    requires address !in x.addresses
    ensures -0x20000 - hwpid in x.contexts ==> x.Resolve(address, hwpid) == Some(x.contexts[-0x20000 - hwpid])
    ensures -0x20000 - hwpid !in x.contexts && -0x10000 in x.contexts ==>
              x.Resolve(address, hwpid) == Some(x.contexts[-0x10000])
    ensures x.Resolve(address, hwpid) == None <==> -0x20000 - hwpid !in x.contexts && -0x10000 !in x.contexts
  {
  }

  /** The provisional contexts have negative numbers, so no reload of products touches them. */
  lemma ProvisionalKept(x: Index, y: Index, db: Db, broken: set<int>, id: int)
    requires db.Valid() && ProductsLoaded(x, y, db, x.Chosen(db), broken) && id <= 0
    ensures Lookup(y.contexts, id) == Lookup(x.contexts, id)
  {
    assert id !in x.Chosen(db);
  }
}
