/** Device enumeration: polling every node, and the batched form over fast response commands. */
module Enumeration {
  import opened Common
  import opened Radio

  /** Layout of the answers (DPA protocol structures TEnumPeripheralsAnswer and TPerOSRead_Response). */
  const DPA_VERSION: nat := 0
  const HWPID: nat := 7
  const HWPID_VERSION: nat := 9
  const OS_VERSION: nat := 4
  const MCU_TYPE: nat := 5
  const OS_BUILD: nat := 6

  const MAX_NODES: nat := 15

  datatype UniqueProduct = UniqueProduct(hwpid: u16, hwpidVersion: u16, osBuild: u16, dpaVersion: u16)
  datatype Product = Product(key: UniqueProduct, osVersion: u8, mcuType: u8)

  /** The product tables filled by an enumeration. */
  datatype Tables = Tables(products: map<UniqueProduct, Product>, devices: map<u8, Product>)

  // ---------------------------------------------------------------- what enumeration means

  function WordAt(mesh: Mesh, a: u8, r: Request, offset: nat): u16 {
    Word(mesh.Answer(a, r, offset), mesh.Answer(a, r, offset + 1))
  }

  /** The product node `a` is, read field by field from its own answers. */
  function Identify(mesh: Mesh, a: u8): Product {
    Product(
      UniqueProduct(WordAt(mesh, a, PerInfo, HWPID), WordAt(mesh, a, PerInfo, HWPID_VERSION),
                    WordAt(mesh, a, OsRead, OS_BUILD), WordAt(mesh, a, PerInfo, DPA_VERSION)),
      mesh.Answer(a, OsRead, OS_VERSION), mesh.Answer(a, OsRead, MCU_TYPE))
  }

  /** `insert` keeps an entry that is already there, in both tables. */
  function Record(t: Tables, a: u8, p: Product): Tables {
    var products := if p.key in t.products then t.products else t.products[p.key := p];
    Tables(products, if a in t.devices then t.devices else t.devices[a := products[p.key]])
  }

  function RecordAll(t: Tables, mesh: Mesh, order: seq<u8>): Tables {
    if order == [] then t
    else Record(RecordAll(t, mesh, order[..|order| - 1]), order[|order| - 1], Identify(mesh, order[|order| - 1]))
  }

  function Responding(mesh: Mesh, s: set<u8>): set<u8> {
    set a | a in s && mesh.Responds(a)
  }

  /** The responding nodes of a sequence, in its order. */
  function Filter(mesh: Mesh, order: seq<u8>): (r: seq<u8>)
    ensures forall a :: a in r <==> a in order && mesh.Responds(a)
    ensures Increasing(order) ==> Increasing(r)
  {
    if order == [] then []
    else
      var r := Filter(mesh, order[..|order| - 1]);
      assert forall a :: a in order <==> a in order[..|order| - 1] || a == order[|order| - 1];
      assert forall i :: 0 <= i < |r| ==> r[i] in r;
      if mesh.Responds(order[|order| - 1]) then r + [order[|order| - 1]] else r
  }

  /** What polling does to the set and the tables, one node after the other. */
  function PollAll(t: (set<u8>, Tables), mesh: Mesh, order: seq<u8>): (set<u8>, Tables) {
    if order == [] then t
    else PollOne(PollAll(t, mesh, order[..|order| - 1]), mesh, order[|order| - 1])
  }

  function PollOne(t: (set<u8>, Tables), mesh: Mesh, a: u8): (set<u8>, Tables) {
    if mesh.Responds(a) then (t.0, Record(t.1, a, Identify(mesh, a))) else (t.0 - {a}, t.1)
  }

  lemma {:induction false} PollAllMeaning(s: set<u8>, t: Tables, mesh: Mesh, order: seq<u8>)
    ensures PollAll((s, t), mesh, order).1 == RecordAll(t, mesh, Filter(mesh, order))
    ensures PollAll((s, t), mesh, order).0 == s - set a | a in order && !mesh.Responds(a)
  {
    if order != [] {
      var n := |order| - 1;
      var a := order[n];
      PollAllMeaning(s, t, mesh, order[..n]);
      assert forall x :: x in order <==> x in order[..n] || x == a;
      if mesh.Responds(a) {
        RecordAllStep(t, mesh, Filter(mesh, order[..n]), a);
      }
    }
  }

  lemma RecordAllStep(t: Tables, mesh: Mesh, order: seq<u8>, a: u8)
    ensures RecordAll(t, mesh, order + [a]) == Record(RecordAll(t, mesh, order), a, Identify(mesh, a))
  {
    assert (order + [a])[..|order|] == order;
  }

  lemma FilterAscending(mesh: Mesh, s: set<u8>)
    ensures Filter(mesh, Ascending(s)) == Ascending(Responding(mesh, s))
  {
    AscendingUnique(Responding(mesh, s), Filter(mesh, Ascending(s)));
  }

  /** Polling a whole set keeps its responding nodes and records them in address order. */
  lemma PollAllOnline(s: set<u8>, t: Tables, mesh: Mesh)
    ensures PollAll((s, t), mesh, Ascending(s)) ==
        (Responding(mesh, s), RecordAll(t, mesh, Ascending(Responding(mesh, s))))
  {
    PollAllMeaning(s, t, mesh, Ascending(s));
    FilterAscending(mesh, s);
    assert s - (set a | a in Ascending(s) && !mesh.Responds(a)) == Responding(mesh, s);
  }

  ghost predicate Consistent(t: Tables) {
    forall k :: k in t.products ==> t.products[k].key == k
  }

  lemma RecordMeaning(t: Tables, a: u8, p: Product)
    requires Consistent(t)
    ensures var t' := Record(t, a, p);
      && Consistent(t')
      && t'.devices.Keys == t.devices.Keys + {a}
      && (forall c :: c in t.devices ==> t'.devices[c] == t.devices[c])
      && (a !in t.devices ==> t'.devices[a].key == p.key)
  {
  }

  /** Every enumerated node is recorded under exactly the product its own memory spells, nodes recorded before keep
      their product, and nothing else enters the table. */
  lemma {:induction false} RecordAllMeaning(t: Tables, mesh: Mesh, order: seq<u8>)
    requires Consistent(t)
    ensures var t' := RecordAll(t, mesh, order);
      && Consistent(t')
      && t'.devices.Keys == t.devices.Keys + (set a | a in order)
      && (forall a :: a in t.devices ==> t'.devices[a] == t.devices[a])
      && (forall a :: a in order && a !in t.devices ==> t'.devices[a].key == Identify(mesh, a).key)
  {
    if order != [] {
      var n := |order| - 1;
      var t1 := RecordAll(t, mesh, order[..n]);
      RecordAllMeaning(t, mesh, order[..n]);
      RecordMeaning(t1, order[n], Identify(mesh, order[n]));
      forall a ensures a in order <==> a in order[..n] || a == order[n] {
        assert order == order[..n] + [order[n]];
      }
    }
  }

  // ---------------------------------------------------------------- over the nodes' own bytes

  /** Two bytes of a node's answer spell a word, the low one first. */
  ghost predicate Spells(mesh: Mesh, a: u8, r: Request, k: nat, w: u16) {
    w == mesh.Answer(a, r, k) + 0x100 * mesh.Answer(a, r, k + 1)
  }

  /** `key` stands in the answers of node `a`: HWPID, its version and the DPA version in the peripheral enumeration, the
      OS build in the OS read. */
  ghost predicate Spelled(mesh: Mesh, a: u8, key: UniqueProduct) {
    && Spells(mesh, a, PerInfo, 7, key.hwpid)
    && Spells(mesh, a, PerInfo, 9, key.hwpidVersion)
    && Spells(mesh, a, OsRead, 6, key.osBuild)
    && Spells(mesh, a, PerInfo, 0, key.dpaVersion)
  }

  /** `p` is what node `a` reports of itself. */
  ghost predicate Carries(mesh: Mesh, a: u8, p: Product) {
    Spelled(mesh, a, p.key) && p.osVersion == mesh.Answer(a, OsRead, 4) && p.mcuType == mesh.Answer(a, OsRead, 5)
  }

  /** `p` is what the first node of `order` with its key reports. */
  ghost predicate FirstWith(mesh: Mesh, order: seq<u8>, i: nat, p: Product) {
    i < |order| && Carries(mesh, order[i], p) && forall j :: 0 <= j < i ==> !Spelled(mesh, order[j], p.key)
  }

  ghost predicate IsFirst(mesh: Mesh, order: seq<u8>, p: Product) {
    exists i: nat :: FirstWith(mesh, order, i, p)
  }

  /** The first byte is the low half of the word, the second its high half. */
  lemma SpellsHalves(mesh: Mesh, a: u8, r: Request, k: nat, w: u16)
    ensures Spells(mesh, a, r, k, w) <==> w % 0x100 == mesh.Answer(a, r, k) && w / 0x100 == mesh.Answer(a, r, k + 1)
  {
    assert w == w % 0x100 + 0x100 * (w / 0x100);
  }

  lemma IdentifySpelled(mesh: Mesh, a: u8, p: Product)
    requires p == Identify(mesh, a)
    ensures Spelled(mesh, a, p.key)
  {
  }

  lemma IdentifyCarries(mesh: Mesh, a: u8, p: Product)
    requires p == Identify(mesh, a)
    ensures Carries(mesh, a, p)
  {
    IdentifySpelled(mesh, a, p);
  }

  /** A node spells no other key. */
  lemma SpelledOnce(mesh: Mesh, a: u8, key: UniqueProduct)
    requires Spelled(mesh, a, key)
    ensures key == Identify(mesh, a).key
  {
  }

  /** What enumerating `order` adds to the tables, said over the nodes' bytes: each new device has the product its
      bytes spell, a new product is what the first node that spells it reports, and what was there stays. */
  ghost predicate Enumerated(t: Tables, t': Tables, mesh: Mesh, order: seq<u8>) {
    && t'.devices.Keys == t.devices.Keys + (set a | a in order)
    && (forall a :: a in t.devices ==> t'.devices[a] == t.devices[a])
    && (forall k :: k in t.products ==> k in t'.products && t'.products[k] == t.products[k])
    && (forall a :: a in order && a !in t.devices ==> DeviceSpelled(t', mesh, a))
    && (forall k :: k in t'.products && k !in t.products ==>
          t'.products[k].key == k && IsFirst(mesh, order, t'.products[k]))
  }

  ghost predicate DeviceSpelled(t: Tables, mesh: Mesh, a: u8) {
    && a in t.devices && Spelled(mesh, a, t.devices[a].key)
    && t.devices[a].key in t.products && t.devices[a] == t.products[t.devices[a].key]
  }

  /** The products of the nodes, in their order. */
  ghost function Identified(mesh: Mesh, order: seq<u8>): (ps: seq<Product>)
    ensures |ps| == |order| && forall k :: 0 <= k < |ps| ==> ps[k] == Identify(mesh, order[k])
  {
    seq(|order|, k requires 0 <= k < |order| => Identify(mesh, order[k]))
  }

  /** The first `n` products of `ps`, recorded for the first `n` nodes of `order`. */
  ghost function RecordUpTo(t: Tables, order: seq<u8>, ps: seq<Product>, n: nat): Tables
    requires n <= |order| == |ps|
  {
    if n == 0 then t else Record(RecordUpTo(t, order, ps, n - 1), order[n - 1], ps[n - 1])
  }

  /** The first of the first `n` products with a key. */
  ghost function First(ps: seq<Product>, n: nat, key: UniqueProduct): (r: Option<Product>)
    requires n <= |ps|
    ensures r.Some? ==> r.value.key == key
  {
    if n == 0 then None
    else
      var r := First(ps, n - 1, key);
      if r.Some? then r else if ps[n - 1].key == key then Some(ps[n - 1]) else None
  }

  lemma {:induction false} FirstAt(ps: seq<Product>, n: nat, key: UniqueProduct)
    requires n <= |ps|
    ensures match First(ps, n, key)
            case None => forall j :: 0 <= j < n ==> ps[j].key != key
            case Some(p) => exists i :: 0 <= i < n && ps[i] == p && forall j :: 0 <= j < i ==> ps[j].key != key
  {
    if n > 0 {
      FirstAt(ps, n - 1, key);
    }
  }

  /** A key that was there keeps its product, any other gets the first product of the list with it. */
  lemma {:induction false} ProductAt(t: Tables, order: seq<u8>, ps: seq<Product>, n: nat, key: UniqueProduct)
    requires n <= |order| == |ps|
    ensures var products := RecordUpTo(t, order, ps, n).products;
      (if key in products then Some(products[key]) else None) ==
      if key in t.products then Some(t.products[key]) else First(ps, n, key)
  {
    if n > 0 {
      ProductAt(t, order, ps, n - 1, key);
    }
  }

  /** The device of the i-th node gets the product stored under its key. */
  lemma {:induction false} DeviceAt(t: Tables, order: seq<u8>, ps: seq<Product>, n: nat, i: nat)
    requires n <= |order| == |ps| && Increasing(order) && i < |order| && order[i] !in t.devices
    ensures var t' := RecordUpTo(t, order, ps, n);
      if i >= n then order[i] !in t'.devices
      else order[i] in t'.devices && ps[i].key in t'.products && t'.devices[order[i]] == t'.products[ps[i].key]
  {
    if n > 0 {
      DeviceAt(t, order, ps, n - 1, i);
    }
  }

  lemma {:induction false} RecordAllIsList(t: Tables, mesh: Mesh, order: seq<u8>, ps: seq<Product>, n: nat)
    requires n <= |order| == |ps| && forall k :: 0 <= k < |ps| ==> ps[k] == Identify(mesh, order[k])
    ensures RecordAll(t, mesh, order[..n]) == RecordUpTo(t, order, ps, n)
  {
    if n > 0 {
      RecordAllIsList(t, mesh, order, ps, n - 1);
      assert order[..n] == order[..n - 1] + [order[n - 1]];
      RecordAllStep(t, mesh, order[..n - 1], order[n - 1]);
    }
  }

  lemma FirstReports(mesh: Mesh, order: seq<u8>, ps: seq<Product>, p: Product)
    requires ps == Identified(mesh, order) && First(ps, |ps|, p.key) == Some(p)
    ensures IsFirst(mesh, order, p)
  {
    FirstAt(ps, |ps|, p.key);
    var i :| 0 <= i < |ps| && ps[i] == p && forall j :: 0 <= j < i ==> ps[j].key != p.key;
    IdentifyCarries(mesh, order[i], p);
    forall j | 0 <= j < i ensures !Spelled(mesh, order[j], p.key) {
      if Spelled(mesh, order[j], p.key) {
        SpelledOnce(mesh, order[j], p.key);
      }
    }
    assert FirstWith(mesh, order, i, p);
  }

  lemma DeviceReports(t: Tables, t': Tables, mesh: Mesh, order: seq<u8>, ps: seq<Product>, i: nat)
    requires Consistent(t) && Increasing(order) && ps == Identified(mesh, order) && i < |order|
    requires order[i] !in t.devices && t' == RecordUpTo(t, order, ps, |order|)
    ensures DeviceSpelled(t', mesh, order[i])
  {
    DeviceAt(t, order, ps, |order|, i);
    ProductAt(t, order, ps, |order|, ps[i].key);
    IdentifySpelled(mesh, order[i], ps[i]);
  }

  lemma ProductReports(t: Tables, t': Tables, mesh: Mesh, order: seq<u8>, ps: seq<Product>, key: UniqueProduct)
    requires ps == Identified(mesh, order) && t' == RecordUpTo(t, order, ps, |order|)
    requires key in t'.products && key !in t.products
    ensures t'.products[key].key == key && IsFirst(mesh, order, t'.products[key])
  {
    ProductAt(t, order, ps, |order|, key);
    FirstReports(mesh, order, ps, t'.products[key]);
  }

  /** Recording nodes in address order gives each new one the product that its own bytes spell. */
  lemma RecordAllEnumerates(t: Tables, t': Tables, mesh: Mesh, order: seq<u8>)
    requires Consistent(t) && Increasing(order) && t' == RecordAll(t, mesh, order)
    ensures Enumerated(t, t', mesh, order)
  {
    var ps := Identified(mesh, order);
    RecordAllIsList(t, mesh, order, ps, |order|);
    assert order[..|order|] == order;
    RecordAllMeaning(t, mesh, order);
    forall a | a in order && a !in t.devices ensures DeviceSpelled(t', mesh, a) {
      var i :| 0 <= i < |order| && order[i] == a;
      DeviceReports(t, t', mesh, order, ps, i);
    }
    forall k | k in t.products ensures k in t'.products && t'.products[k] == t.products[k] {
      ProductAt(t, order, ps, |order|, k);
    }
    forall k | k in t'.products && k !in t.products
      ensures t'.products[k].key == k && IsFirst(mesh, order, t'.products[k])
    {
      ProductReports(t, t', mesh, order, ps, k);
    }
  }

  /** Both laws of a recorded sequence, for the tables after it. */
  lemma Recorded(t: Tables, mesh: Mesh, order: seq<u8>)
    requires Consistent(t) && Increasing(order)
    ensures Consistent(RecordAll(t, mesh, order)) && Enumerated(t, RecordAll(t, mesh, order), mesh, order)
  {
    RecordAllMeaning(t, mesh, order);
    RecordAllEnumerates(t, RecordAll(t, mesh, order), mesh, order);
  }

  /** The coordinator's product is the one of its parameters, if it was to be enumerated and had none. */
  ghost predicate CoordinatorRecorded(t: Tables, t': Tables, enumerate: bool, coordinator: Product) {
    && (0 in t'.devices <==> 0 in t.devices || enumerate)
    && (enumerate && 0 !in t.devices ==>
          t'.devices[0] == if coordinator.key in t.products then t.products[coordinator.key] else coordinator)
  }

  function WithCoordinator(t: Tables, toEnumerate: set<u8>, coordinator: Product): Tables {
    if 0 in toEnumerate then Record(t, 0, coordinator) else t
  }

  // ---------------------------------------------------------------- positions in the collected data

  /** Bytes kept of a batch of `n` nodes: without slot 0, and with the extra result when more than twelve
      nodes answer. */
  function Kept(n: nat): nat {
    if n > 12 then FRC_SIZE - 4 else FRC_FIRST - 4
  }

  datatype Quadruple = Quadruple(b0: u8, b1: u8, b2: u8, b3: u8)

  /** Four bytes of a node's answer. */
  function Quad(mesh: Mesh, a: u8, r: Request, offset: nat): Quadruple {
    Quadruple(mesh.Answer(a, r, offset), mesh.Answer(a, r, offset + 1), mesh.Answer(a, r, offset + 2),
        mesh.Answer(a, r, offset + 3))
  }

  /** `m` holds the four bytes of every node of `s`. */
  ghost predicate Reads(m: map<u8, Quadruple>, s: set<u8>, mesh: Mesh, r: Request, offset: nat) {
    m.Keys == s && forall a :: a in s ==> m[a] == Quad(mesh, a, r, offset)
  }

  function QuadAt(data: seq<u8>, k: nat): Quadruple
    requires 4 * k + 4 <= |data|
  {
    Quadruple(data[4 * k], data[4 * k + 1], data[4 * k + 2], data[4 * k + 3])
  }

  /** Four bytes of every node of `order`, in order, at the front of `data`. */
  ghost predicate Aligned(data: seq<u8>, mesh: Mesh, r: Request, offset: nat, order: seq<u8>) {
    && 4 * |order| <= |data|
    && forall k :: 0 <= k < |order| ==> QuadAt(data, k) == Quad(mesh, order[k], r, offset)
  }

  lemma SlotAt(mesh: Mesh, order: seq<u8>, r: Request, offset: nat, k: nat, b: nat)
    requires k < |order| && b < 4 && mesh.Responds(order[k])
    ensures mesh.SlotByte(order, r, offset, 4 * (k + 1) + b) == mesh.Answer(order[k], r, offset + b)
  {
    assert (4 * (k + 1) + b) / 4 == k + 1 && (4 * (k + 1) + b) % 4 == b;
  }

  /** The bytes of a batch of nodes as the coordinator collects them. */
  ghost predicate Laid(all: seq<u8>, mesh: Mesh, r: Request, offset: nat, order: seq<u8>) {
    && |all| == FRC_SIZE
    && forall j {:trigger mesh.SlotByte(order, r, offset, j)} ::
         0 <= j < FRC_SIZE ==> all[j] == mesh.SlotByte(order, r, offset, j)
  }

  lemma SlotRead(mesh: Mesh, all: seq<u8>, r: Request, offset: nat, order: seq<u8>, k: nat, b: nat)
    requires k < |order| <= MAX_NODES && b < 4 && mesh.Responds(order[k])
    requires Laid(all, mesh, r, offset, order)
    ensures all[4 * (k + 1) + b] == mesh.Answer(order[k], r, offset + b)
  {
    SlotAt(mesh, order, r, offset, k, b);
  }

  lemma SlotQuad(mesh: Mesh, all: seq<u8>, r: Request, offset: nat, order: seq<u8>, k: nat)
    requires k < |order| <= MAX_NODES && mesh.Responds(order[k])
    requires Laid(all, mesh, r, offset, order)
    ensures var i := 4 * (k + 1);
      Quadruple(all[i], all[i + 1], all[i + 2], all[i + 3]) == Quad(mesh, order[k], r, offset)
  {
    SlotRead(mesh, all, r, offset, order, k, 0);
    SlotRead(mesh, all, r, offset, order, k, 1);
    SlotRead(mesh, all, r, offset, order, k, 2);
    SlotRead(mesh, all, r, offset, order, k, 3);
  }

  /** One batch of at most fifteen responding nodes fits, and its bytes line up. */
  lemma BatchAligned(mesh: Mesh, bitmap: seq<Octet>, r: Request, offset: nat, order: seq<u8>)
    requires offset < 0x100 && |order| <= MAX_NODES
    requires Ascending(Selected(bitmap)) == order
    requires forall k :: 0 <= k < |order| ==> mesh.Responds(order[k])
    ensures Aligned(mesh.Collected(bitmap, r, MEMORY_ADDRESS + offset)[4..4 + Kept(|order|)], mesh, r, offset, order)
  {
    var all := mesh.Collected(bitmap, r, MEMORY_ADDRESS + offset);
    var data := all[4..4 + Kept(|order|)];
    forall k | 0 <= k < |order| ensures QuadAt(data, k) == Quad(mesh, order[k], r, offset) {
      SlotQuad(mesh, all, r, offset, order, k);
      QuadOf(all, data, k);
    }
  }

  lemma QuadOf(all: seq<u8>, data: seq<u8>, k: nat)
    requires |data| + 4 <= |all| && data == all[4..4 + |data|] && 4 * k + 4 <= |data|
    ensures QuadAt(data, k) ==
        Quadruple(all[4 * (k + 1)], all[4 * (k + 1) + 1], all[4 * (k + 1) + 2], all[4 * (k + 1) + 3])
  {
  }

  /** Appending the bytes of a further batch keeps the alignment, provided every batch before it was full. */
  lemma BatchesAligned(mesh: Mesh, r: Request, offset: nat, done: seq<u8>, data: seq<u8>, next: seq<u8>, batch: seq<u8>)
    requires Aligned(data, mesh, r, offset, done) && |data| == 4 * |done|
    requires Aligned(batch, mesh, r, offset, next)
    ensures Aligned(data + batch, mesh, r, offset, done + next)
  {
    var all, both := data + batch, done + next;
    forall k | 0 <= k < |both| ensures QuadAt(all, k) == Quad(mesh, both[k], r, offset) {
      if k < |done| {
        assert QuadAt(all, k) == QuadAt(data, k);
      } else {
        assert QuadAt(all, k) == QuadAt(batch, k - |done|);
      }
    }
  }

  // ---------------------------------------------------------------- the service

  lemma NextBatch(mesh: Mesh, r: Request, offset: nat, order: seq<u8>, done: nat, n: nat, data: seq<u8>, batch: seq<u8>)
    requires done + n <= |order| && |data| == 4 * done && Aligned(data, mesh, r, offset, order[..done])
    requires Aligned(batch, mesh, r, offset, order[done..done + n])
    ensures Aligned(data + batch, mesh, r, offset, order[..done + n])
  {
    BatchesAligned(mesh, r, offset, order[..done], data, order[done..done + n], batch);
    assert order[..done] + order[done..done + n] == order[..done + n];
  }

  // ---------------------------------------------------------------- the filter loop

  /** The filter loop between two tests of its condition: what it kept, and what the iterator has not passed. */
  datatype Filtering = Filtering(kept: seq<u8>, rest: seq<u8>)

  function FilterStep(f: Filtering, online: set<u8>): Filtering {
    if f.rest == [] || f.rest[0] == 0 then f
    else Filtering(f.kept + (if f.rest[0] in online then [f.rest[0]] else []), f.rest[1..])
  }

  function FilterSteps(f: Filtering, online: set<u8>, n: nat): Filtering {
    if n == 0 then f else FilterStep(FilterSteps(f, online, n - 1), online)
  }

  lemma {:induction false} ZeroRemains(f: Filtering, online: set<u8>, n: nat)
    requires 0 in f.rest
    ensures 0 in FilterSteps(f, online, n).rest
  {
    if n > 0 {
      ZeroRemains(f, online, n - 1);
    }
  }

  lemma {:induction false} RestShrinks(f: Filtering, online: set<u8>, n: nat)
    requires 0 !in f.rest && n <= |f.rest|
    ensures FilterSteps(f, online, n).rest == f.rest[n..]
  {
    if n > 0 {
      RestShrinks(f, online, n - 1);
    }
  }

  /** Over any addresses the filter loop ends exactly when address 0 is not among them. */
  lemma FilterLoopEndsIff(f: Filtering, online: set<u8>)
    ensures (exists n: nat :: FilterSteps(f, online, n).rest == []) <==> 0 !in f.rest
  {
    if 0 in f.rest {
      forall n: nat ensures FilterSteps(f, online, n).rest != [] {
        ZeroRemains(f, online, n);
      }
    } else {
      RestShrinks(f, online, |f.rest|);
    }
  }

  lemma {:induction false} KeptSoFar(f: Filtering, online: set<u8>, n: nat, a: u8)
    requires 0 !in f.rest && n <= |f.rest|
    ensures a in FilterSteps(f, online, n).kept <==> a in f.kept || (a in f.rest[..n] && a in online)
  {
    if n > 0 {
      KeptSoFar(f, online, n - 1, a);
      RestShrinks(f, online, n - 1);
      assert f.rest[..n] == f.rest[..n - 1] + [f.rest[n - 1]];
    }
  }

  /** When it ends it has kept exactly the addresses that are online. */
  lemma FilterLoopKeeps(online: set<u8>, all: seq<u8>, n: nat, a: u8)
    requires 0 !in all && FilterSteps(Filtering([], all), online, n).rest == []
    ensures a in FilterSteps(Filtering([], all), online, n).kept <==> a in all && a in online
    decreases n
  {
    var f := Filtering([], all);
    if n <= |all| {
      RestShrinks(f, online, n);
      assert n == |all| && all[..n] == all;
      KeptSoFar(f, online, n, a);
    } else {
      RestShrinks(f, online, |all|);
      EndedStays(f, online, |all|, n - 1);
      FilterLoopKeeps(online, all, n - 1, a);
    }
  }

  lemma {:induction false} EndedStays(f: Filtering, online: set<u8>, m: nat, n: nat)
    requires m <= n && FilterSteps(f, online, m).rest == []
    ensures FilterSteps(f, online, n).rest == []
    decreases n
  {
    if m < n {
      EndedStays(f, online, m, n - 1);
    }
  }

  /** With address 0 alone the loop never moves. */
  lemma {:induction false} FilterLoopExample(n: nat)
    ensures FilterSteps(Filtering([], [0]), {}, n) == Filtering([], [0])
  {
    if n > 0 {
      FilterLoopExample(n - 1);
    }
  }

  class Enumerator {
    var toEnumerate: set<u8>
    var productMap: map<UniqueProduct, Product>
    var deviceProductMap: map<u8, Product>

    function State(): Tables
      reads this
    {
      Tables(productMap, deviceProductMap)
    }

    ghost predicate Valid()
      reads this
    {
      Consistent(State()) && forall a :: a in toEnumerate ==> a <= MAX_ADDRESS
    }

    constructor (toEnumerate: set<u8>)
      requires forall a :: a in toEnumerate ==> a <= MAX_ADDRESS
      ensures Valid() && this.toEnumerate == toEnumerate && State() == Tables(map[], map[])
    {
      this.toEnumerate, productMap, deviceProductMap := toEnumerate, map[], map[];
    }

    method Store(a: u8, product: Product)
      modifies this`productMap, this`deviceProductMap
      ensures State() == Record(old(State()), a, product)
    {
      if product.key !in productMap {
        productMap := productMap[product.key := product];
      }
      if a !in deviceProductMap {
        deviceProductMap := deviceProductMap[a := productMap[product.key]];
      }
    }

    /** Asks every node in turn; a node that does not answer is dropped from the set. */
    method PollEnumeration(mesh: Mesh)
      requires Valid()
      modifies this
      ensures Valid()
      ensures toEnumerate == Responding(mesh, old(toEnumerate))
      ensures State() == RecordAll(old(State()), mesh, Ascending(Responding(mesh, old(toEnumerate))))
      ensures Enumerated(old(State()), State(), mesh, Ascending(Responding(mesh, old(toEnumerate))))
    {
      var order := Ascending(toEnumerate);
      for k := 0 to |order|
        invariant (toEnumerate, State()) == PollAll((old(toEnumerate), old(State())), mesh, order[..k])
      {
        PollNode(mesh, order[k]);
        assert order[..k + 1][..k] == order[..k];
      }
      assert order[..|order|] == order;
      PollAllOnline(old(toEnumerate), old(State()), mesh);
      Recorded(old(State()), mesh, Ascending(toEnumerate));
    }

    method PollNode(mesh: Mesh, a: u8)
      modifies this
      ensures (toEnumerate, State()) == PollOne((old(toEnumerate), old(State())), mesh, a)
    {
      if mesh.Responds(a) {
        var product := Polled(mesh, a);
        Store(a, product);
      } else {
        toEnumerate := toEnumerate - {a};
      }
    }

    /** The OS read and the peripheral enumeration of one node. */
    static method Polled(mesh: Mesh, a: u8) returns (p: Product)
      ensures p == Identify(mesh, a)
    {
      var osBuild := Word(mesh.Answer(a, OsRead, OS_BUILD), mesh.Answer(a, OsRead, OS_BUILD + 1));
      var dpaVersion := Word(mesh.Answer(a, PerInfo, DPA_VERSION), mesh.Answer(a, PerInfo, DPA_VERSION + 1));
      var hwpid := Word(mesh.Answer(a, PerInfo, HWPID), mesh.Answer(a, PerInfo, HWPID + 1));
      var hwpidVersion := Word(mesh.Answer(a, PerInfo, HWPID_VERSION), mesh.Answer(a, PerInfo, HWPID_VERSION + 1));
      p := Product(UniqueProduct(hwpid, hwpidVersion, osBuild, dpaVersion),
                   mesh.Answer(a, OsRead, OS_VERSION), mesh.Answer(a, OsRead, MCU_TYPE));
    }

    /** The addresses whose bit is set in the ping answer. */
    method FrcPing(mesh: Mesh) returns (ok: bool, onlineNodes: set<u8>)
      ensures ok <==> mesh.pingStatus < FRC_ERROR
      ensures ok ==> forall a: u8 :: a in onlineNodes <==> mesh.Responds(a)
    {
      onlineNodes := {};
      if mesh.pingStatus >= FRC_ERROR {
        return false, {};
      }
      for i := 1 to MAX_ADDRESS + 1
        invariant forall a: u8 :: a in onlineNodes <==> mesh.Responds(a) && a < i
      {
        if HasBit(mesh.ping, i) {
          onlineNodes := onlineNodes + {i};
        }
      }
      ok := true;
    }

    /** Sends one selective memory read to the next `numNodes` nodes; keeps the answer without the coordinator's slot,
        and appends the extra result when the first answer cannot hold all nodes. */
    method FrcBatch(mesh: Mesh, r: Request, offset: nat, numNodes: nat, processedNodes: nat)
      returns (ok: bool, data: seq<u8>)
      requires Valid() && offset < 0x100 && numNodes <= MAX_NODES
      requires processedNodes + numNodes <= |Ascending(toEnumerate)|
      requires forall a :: a in toEnumerate ==> mesh.Responds(a)
      ensures mesh.Quiet() ==> ok
      ensures ok ==> |data| == Kept(numNodes)
      ensures ok ==> Aligned(data, mesh, r, offset, Ascending(toEnumerate)[processedNodes..processedNodes + numNodes])
    {
      var selected := SelectNodes(toEnumerate, processedNodes, numNodes);
      var bitmap := selected[..];
      if mesh.Status(r, offset, Selected(bitmap)) >= FRC_ERROR {
        return false, [];
      }
      var pData := mesh.Collected(bitmap, r, MEMORY_ADDRESS + offset);
      data := pData[4..FRC_FIRST];
      if numNodes > 12 {
        data := data + pData[FRC_FIRST..FRC_SIZE];
      }
      assert data == pData[4..4 + Kept(numNodes)];
      ghost var order := Ascending(toEnumerate)[processedNodes..processedNodes + numNodes];
      forall k | 0 <= k < |order| ensures mesh.Responds(order[k]) {
        assert order[k] in Ascending(toEnumerate);
      }
      BatchAligned(mesh, bitmap, r, offset, order);
      ok := true;
    }

    /** The loop shared by the three batched reads: groups of fifteen, the last one possibly short. */
    method FrcCollect(mesh: Mesh, r: Request, offset: nat, frcCount: u8, nodes: u8, remainingNodes: u8)
      returns (ok: bool, frcData: seq<u8>)
      requires Valid() && offset < 0x100
      requires nodes == MAX_NODES && remainingNodes < MAX_NODES
      requires |Ascending(toEnumerate)| == MAX_NODES * frcCount as int + remainingNodes as int
      requires forall a :: a in toEnumerate ==> mesh.Responds(a)
      ensures mesh.Quiet() ==> ok
      ensures ok ==> Aligned(frcData, mesh, r, offset, Ascending(toEnumerate))
    {
      var processedNodes: nat := 0;
      ghost var order := Ascending(toEnumerate);
      frcData := [];
      var i: nat := 0;
      while i <= frcCount
        invariant 0 <= i <= frcCount + 1
        invariant processedNodes == if i <= frcCount then MAX_NODES * i else |order|
        invariant i <= frcCount ==> |frcData| == 4 * processedNodes
        invariant Aligned(frcData, mesh, r, offset, order[..processedNodes])
        decreases frcCount + 1 - i
      {
        var numNodes: nat := if i < frcCount then nodes else remainingNodes;
        if numNodes == 0 {
          break;
        }
        var sent, data := FrcBatch(mesh, r, offset, numNodes, processedNodes);
        if !sent {
          return false, [];
        }
        NextBatch(mesh, r, offset, order, processedNodes, numNodes, frcData, data);
        frcData := frcData + data;
        processedNodes := processedNodes + numNodes;
        i := i + 1;
      }
      assert order[..processedNodes] == order;
      ok := true;
    }

    /** Splits collected data into one entry of four bytes per address. */
    static method Decode(data: seq<u8>, order: seq<u8>) returns (m: map<u8, Quadruple>)
      requires 4 * |order| <= |data| && Increasing(order)
      ensures m.Keys == set a | a in order
      ensures forall k :: 0 <= k < |order| ==> m[order[k]] == QuadAt(data, k)
    {
      m := map[];
      var i := 0;
      for k := 0 to |order|
        invariant i == 4 * k
        invariant m.Keys == set a | a in order[..k]
        invariant forall j :: 0 <= j < k ==> m[order[j]] == QuadAt(data, j)
      {
        m := m[order[k] := Quadruple(data[i], data[i + 1], data[i + 2], data[i + 3])];
        assert m[order[k]] == QuadAt(data, k);
        assert order[..k + 1] == order[..k] + [order[k]];
        i := i + 4;
      }
      assert order[..|order|] == order;
    }

    /** One batched read of four bytes at `offset` of every node's answer to `r`. */
    method FrcRead(mesh: Mesh, r: Request, offset: nat) returns (ok: bool, m: map<u8, Quadruple>)
      requires Valid() && offset < 0x100
      requires forall a :: a in toEnumerate ==> mesh.Responds(a)
      ensures mesh.Quiet() ==> ok
      ensures ok ==> Reads(m, toEnumerate, mesh, r, offset)
    {
      m := map[];
      var order := Ascending(toEnumerate);
      SizeFits(toEnumerate);
      var frcCount: u8, frcRemainder: u8 := |order| / MAX_NODES, |order| % MAX_NODES;
      var frcData;
      ok, frcData := FrcCollect(mesh, r, offset, frcCount, MAX_NODES, frcRemainder);
      if !ok {
        return;
      }
      m := Decode(frcData, order);
      forall a | a in toEnumerate ensures m[a] == Quad(mesh, a, r, offset) {
        var k :| 0 <= k < |order| && order[k] == a;
      }
    }

    /** Drops the nodes that did not answer the ping. At address 0 the loop goes round without advancing. */
    method Prune(ghost mesh: Mesh, onlineNodes: set<u8>)
      requires Valid() && 0 !in toEnumerate
      requires forall a :: a in onlineNodes <==> mesh.Responds(a)
      modifies this`toEnumerate
      ensures toEnumerate == Responding(mesh, old(toEnumerate))
    {
      var all := Ascending(toEnumerate);
      var it := 0;
      while it < |all|
        invariant 0 <= it <= |all|
        invariant forall a :: a in toEnumerate <==> a in old(toEnumerate) && (a in all[..it] ==> mesh.Responds(a))
        decreases |all| - it
      {
        if all[it] == 0 {
          continue;
        }
        assert all[..it + 1] == all[..it] + [all[it]];
        if all[it] !in onlineNodes {
          toEnumerate := toEnumerate - {all[it]};
        }
        it := it + 1;
      }
      assert all[..|all|] == all;
    }

    /** The batched form: on a quiet mesh it leaves exactly what polling leaves. */
    method FrcEnumeration(mesh: Mesh) returns (ok: bool)
      requires Valid() && 0 !in toEnumerate
      modifies this
      ensures Valid()
      ensures mesh.Quiet() ==> ok
      ensures ok ==> toEnumerate == Responding(mesh, old(toEnumerate))
      ensures ok ==> State() == RecordAll(old(State()), mesh, Ascending(Responding(mesh, old(toEnumerate))))
      ensures ok ==> Enumerated(old(State()), State(), mesh, Ascending(Responding(mesh, old(toEnumerate))))
      ensures !ok ==> State() == old(State())
    {
      var onlineNodes, hwpids, dpas, oses;
      ok, onlineNodes := FrcPing(mesh);
      if !ok {
        return;
      }
      Prune(mesh, onlineNodes);
      ok, hwpids := FrcRead(mesh, PerInfo, HWPID);
      if !ok {
        return;
      }
      ok, dpas := FrcRead(mesh, PerInfo, DPA_VERSION);
      if !ok {
        return;
      }
      ok, oses := FrcRead(mesh, OsRead, OS_VERSION);
      if !ok {
        return;
      }
      RecordCollected(mesh, Ascending(toEnumerate), hwpids, dpas, oses);
      Recorded(old(State()), mesh, Ascending(toEnumerate));
    }

    method RecordCollected(ghost mesh: Mesh, order: seq<u8>, hwpids: map<u8, Quadruple>, dpas: map<u8, Quadruple>,
                           oses: map<u8, Quadruple>)
      requires Reads(hwpids, toEnumerate, mesh, PerInfo, HWPID)
      requires Reads(dpas, toEnumerate, mesh, PerInfo, DPA_VERSION)
      requires Reads(oses, toEnumerate, mesh, OsRead, OS_VERSION)
      requires forall k :: 0 <= k < |order| ==> order[k] in toEnumerate
      modifies this`productMap, this`deviceProductMap
      ensures State() == RecordAll(old(State()), mesh, order)
    {
      for k := 0 to |order|
        invariant State() == RecordAll(old(State()), mesh, order[..k])
      {
        RecordOne(mesh, order[k], hwpids[order[k]], dpas[order[k]], oses[order[k]]);
        assert order[..k + 1] == order[..k] + [order[k]];
        RecordAllStep(old(State()), mesh, order[..k], order[k]);
      }
      assert order[..|order|] == order;
    }

    /** Stores one product from the three collected quadruples of a node. */
    method RecordOne(ghost mesh: Mesh, a: u8, h: Quadruple, d: Quadruple, o: Quadruple)
      requires h == Quad(mesh, a, PerInfo, HWPID) && d == Quad(mesh, a, PerInfo, DPA_VERSION) &&
          o == Quad(mesh, a, OsRead, OS_VERSION)
      modifies this`productMap, this`deviceProductMap
      ensures State() == Record(old(State()), a, Identify(mesh, a))
    {
      var key := UniqueProduct(Word(h.b0, h.b1), Word(h.b2, h.b3), Word(o.b2, o.b3), Word(d.b0, d.b1));
      Store(a, Product(key, o.b0, o.b1));
    }

    /** The coordinator is recorded from its parameters, the nodes by whichever form applies; the outcome is
        the same. */
    method EnumerateDevices(mesh: Mesh, coordinator: Product) returns (ok: bool)
      requires Valid()
      modifies this
      ensures Valid()
      ensures mesh.Quiet() ==> ok
      ensures ok ==> toEnumerate == Responding(mesh, old(toEnumerate))
      ensures ok ==> State() == RecordAll(WithCoordinator(old(State()), old(toEnumerate), coordinator), mesh,
                                          Ascending(Responding(mesh, old(toEnumerate))))
      ensures ok ==> Enumerated(WithCoordinator(old(State()), old(toEnumerate), coordinator), State(), mesh,
                                Ascending(Responding(mesh, old(toEnumerate))))
      ensures ok ==> CoordinatorRecorded(old(State()), State(), 0 in old(toEnumerate), coordinator)
    {
      SizeFits(toEnumerate);
      var order := Ascending(toEnumerate);
      var enumerateDeviceCount: u8 := |order|;
      var enumerateCoordinator := enumerateDeviceCount > 0 && order[0] == 0;
      assert 0 in toEnumerate ==> 0 in order;
      if enumerateCoordinator {
        enumerateDeviceCount := enumerateDeviceCount - 1;
        Store(0, coordinator);
        toEnumerate := toEnumerate - {0};
      }
      assert Responding(mesh, toEnumerate) == Responding(mesh, old(toEnumerate));
      if enumerateDeviceCount > 1 && coordinator.key.dpaVersion >= 0x402 {
        ok := FrcEnumeration(mesh);
      } else {
        PollEnumeration(mesh);
        ok := true;
      }
    }
  }

  /** At most 240 addresses exist, so every counter of the enumeration fits its eight bits. */
  lemma SizeFits(s: set<u8>)
    requires forall a :: a in s ==> a <= MAX_ADDRESS
    ensures |Ascending(s)| <= MAX_ADDRESS + 1
  {
    var order := Ascending(s);
    if |order| > 0 {
      IncreasingGrows(order, |order| - 1);
      assert order[|order| - 1] in order;
    }
  }

  lemma {:induction false} IncreasingGrows(s: seq<u8>, k: nat)
    requires Increasing(s) && k < |s|
    ensures s[k] >= k
  {
    if k > 0 { IncreasingGrows(s, k - 1); }
  }
}
