/** The in-memory copy of the IQRF repository: eight tables that are replaced together or not at all. */
module CacheReload {
  import opened Common

  datatype Status = UpToDate | UpdateNeeded | Updated | UpdateFailed

  datatype Driver = Driver(id: int, version: real, code: string)
  type Standards = map<int, map<real, Driver>>

  /** A package file names its drivers; a loaded package carries them. */
  datatype PackageFile = PackageFile(id: nat, standards: seq<(int, real)>, info: string)
  datatype Package = Package(id: nat, info: string, drivers: seq<Driver>)

  /** Tables the loader copies without looking into them. */
  type Table = map<int, string>

  datatype Tables = Tables(
    checksum: int, companies: Table, manufacturers: Table, products: Table, osDpa: Table,
    standards: Standards, packages: map<nat, Package>, quantities: Table)

  /** The files on disk, stage by stage; a stage whose files are missing or malformed is None. */
  datatype Repository = Repository(
    server: Option<int>, companies: Option<Table>, manufacturers: Option<Table>, products: Option<Table>,
    osDpa: Option<Table>, standards: Option<Standards>, packages: Option<seq<PackageFile>>, quantities: Option<Table>)

  // ---------------------------------------------------------------- one snapshot

  function Lookup(standards: Standards, id: int, version: real): Option<Driver> {
    if id in standards && version in standards[id] then Some(standards[id][version]) else None
  }

  /** The drivers a package file names, as far as the standards know them. */
  function Resolve(standards: Standards, names: seq<(int, real)>): seq<Driver> {
    if names == [] then []
    else
      var rest := Resolve(standards, names[..|names| - 1]);
      var found := Lookup(standards, names[|names| - 1].0, names[|names| - 1].1);
      if found.Some? then rest + [found.value] else rest
  }

  function Packages(standards: Standards, files: seq<PackageFile>): map<nat, Package> {
    if files == [] then map[]
    else
      var rest := Packages(standards, files[..|files| - 1]);
      var f := files[|files| - 1];
      if f.id in rest then rest else rest[f.id := Package(f.id, f.info, Resolve(standards, f.standards))]
  }

  /** The eight tables one repository stands for, if every stage can be read. */
  function Snapshot(r: Repository): Option<Tables> {
    if r.server.None? || r.companies.None? || r.manufacturers.None? || r.products.None? || r.osDpa.None?
       || r.standards.None? || r.packages.None? || r.quantities.None? then None
    else Some(Tables(r.server.value, r.companies.value, r.manufacturers.value, r.products.value, r.osDpa.value,
                     r.standards.value, Packages(r.standards.value, r.packages.value), r.quantities.value))
  }

  /** How many of the first `n` names the standards know. */
  ghost function KnownNames(standards: Standards, names: seq<(int, real)>, n: nat): nat
    requires n <= |names|
  {
    if n == 0 then 0
    else KnownNames(standards, names, n - 1) +
         if names[n - 1].0 in standards && names[n - 1].1 in standards[names[n - 1].0] then 1 else 0
  }

  /** A package carries the driver of each name that the standards know, in the order of the names, and no other. */
  lemma {:induction false} ResolvedInOrder(standards: Standards, names: seq<(int, real)>, j: nat)
    requires j <= |names|
    ensures |Resolve(standards, names)| == KnownNames(standards, names, |names|)
    ensures KnownNames(standards, names, j) <= |Resolve(standards, names)|
    ensures j < |names| && names[j].0 in standards && names[j].1 in standards[names[j].0] ==>
      && KnownNames(standards, names, j) < |Resolve(standards, names)|
      && Resolve(standards, names)[KnownNames(standards, names, j)] == standards[names[j].0][names[j].1]
    decreases |names|
  {
    if names != [] {
      var n := |names| - 1;
      ResolvedInOrder(standards, names[..n], if j < n then j else n);
      KnownInPrefix(standards, names, n, n);
      if j < n {
        KnownInPrefix(standards, names, n, j);
      }
    }
  }

  lemma {:induction false} KnownInPrefix(standards: Standards, names: seq<(int, real)>, n: nat, j: nat)
    requires j <= n <= |names|
    ensures KnownNames(standards, names[..n], j) == KnownNames(standards, names, j)
    decreases j
  {
    if j > 0 {
      KnownInPrefix(standards, names, n, j - 1);
    }
  }

  ghost predicate FirstFile(files: seq<PackageFile>, k: nat) {
    k < |files| && forall j :: 0 <= j < k ==> files[j].id != files[k].id
  }

  /** Every package comes from the first file with its id, and every id of a file has a package. */
  lemma {:induction false} PackageOfFirstFile(standards: Standards, files: seq<PackageFile>, k: nat)
    requires FirstFile(files, k)
    ensures files[k].id in Packages(standards, files)
    ensures Packages(standards, files)[files[k].id] ==
            Package(files[k].id, files[k].info, Resolve(standards, files[k].standards))
    decreases |files|
  {
    var n := |files| - 1;
    if k < n {
      assert FirstFile(files[..n], k);
      PackageOfFirstFile(standards, files[..n], k);
    } else {
      OnlyFiles(standards, files[..n], files[n].id);
    }
  }

  lemma {:induction false} OnlyFiles(standards: Standards, files: seq<PackageFile>, id: nat)
    ensures id in Packages(standards, files) <==> exists k :: 0 <= k < |files| && files[k].id == id
    decreases |files|
  {
    if files != [] {
      var n := |files| - 1;
      OnlyFiles(standards, files[..n], id);
      if k :| 0 <= k < n && files[..n][k].id == id {
        assert files[k].id == id;
      }
      if k :| 0 <= k < n && files[k].id == id {
        assert files[..n][k].id == id;
      }
    }
  }

  // ---------------------------------------------------------------- runs of reloads

  /** A reload from some state of the disk, with the clients' reload handlers succeeding or throwing. */
  datatype Reload = Reload(repository: Repository, handlersOk: bool)

  predicate Complete(e: Reload) {
    e.handlersOk && Snapshot(e.repository).Some?
  }

  function Reloaded(t: Tables, e: Reload): Tables {
    if Complete(e) then Snapshot(e.repository).value else t
  }

  function AfterReloads(t: Tables, es: seq<Reload>): Tables {
    if es == [] then t else Reloaded(AfterReloads(t, es[..|es| - 1]), es[|es| - 1])
  }

  ghost predicate IsSnapshot(t: Tables, e: Reload) {
    Snapshot(e.repository).Some? && t == Snapshot(e.repository).value
  }

  /** After any sequence of reloads the eight tables are those of one snapshot: the last that loaded completely. */
  lemma {:induction false} TablesOfLastComplete(t: Tables, es: seq<Reload>)
    ensures var t' := AfterReloads(t, es);
      || (t' == t && forall k :: 0 <= k < |es| ==> !Complete(es[k]))
      || (exists k :: 0 <= k < |es| && LastComplete(es, k) && IsSnapshot(t', es[k]))
  {
    if es != [] {
      var n := |es| - 1;
      TablesOfLastComplete(t, es[..n]);
      if Complete(es[n]) {
        assert LastComplete(es, n);
      } else if k :| 0 <= k < n && LastComplete(es[..n], k) && IsSnapshot(AfterReloads(t, es[..n]), es[k]) {
        assert LastComplete(es, k);
      }
    }
  }

  ghost predicate LastComplete(es: seq<Reload>, k: nat) {
    k < |es| && Complete(es[k]) && forall j :: k < j < |es| ==> !Complete(es[j])
  }

  /** Every driver carried by a package is one the standards of the same snapshot hold. */
  ghost predicate DriversKnown(t: Tables) {
    forall id, i :: id in t.packages && 0 <= i < |t.packages[id].drivers| ==>
        Known(t.standards, t.packages[id].drivers[i])
  }

  ghost predicate Known(standards: Standards, d: Driver) {
    exists id, version :: Lookup(standards, id, version) == Some(d)
  }

  lemma {:induction false} ResolvedKnown(standards: Standards, names: seq<(int, real)>)
    ensures forall i :: 0 <= i < |Resolve(standards, names)| ==> Known(standards, Resolve(standards, names)[i])
  {
    if names != [] {
      ResolvedKnown(standards, names[..|names| - 1]);
    }
  }

  lemma {:induction false} PackagesKnown(standards: Standards, files: seq<PackageFile>)
    ensures forall id, i :: id in Packages(standards, files) && 0 <= i < |Packages(standards, files)[id].drivers| ==>
              Known(standards, Packages(standards, files)[id].drivers[i])
  {
    if files != [] {
      PackagesKnown(standards, files[..|files| - 1]);
      ResolvedKnown(standards, files[|files| - 1].standards);
    }
  }

  lemma {:induction false} DriversAlwaysKnown(t: Tables, es: seq<Reload>)
    requires DriversKnown(t)
    ensures DriversKnown(AfterReloads(t, es))
  {
    if es != [] {
      var e := es[|es| - 1];
      DriversAlwaysKnown(t, es[..|es| - 1]);
      if Complete(e) {
        PackagesKnown(e.repository.standards.value, e.repository.packages.value);
      }
    }
  }

  // ---------------------------------------------------------------- the cache

  class JsCache {
    var serverState: int
    var companyMap: Table
    var manufacturerMap: Table
    var productMap: Table
    var osDpaMap: Table
    var standardMap: Standards
    var packageMap: map<nat, Package>
    var quantityMap: Table
    var upToDate: bool
    var cacheStatus: Status

    function Contents(): Tables
      reads this
    {
      Tables(serverState, companyMap, manufacturerMap, productMap, osDpaMap, standardMap, packageMap, quantityMap)
    }

    constructor ()
      ensures Contents() == Tables(0, map[], map[], map[], map[], map[], map[], map[])
      ensures !upToDate && cacheStatus == UpdateNeeded
    {
      serverState, upToDate, cacheStatus := 0, false, UpdateNeeded;
      companyMap, manufacturerMap, productMap, osDpaMap, quantityMap := map[], map[], map[], map[], map[];
      standardMap, packageMap := map[], map[];
    }

    /** Resolves every package against the standards loaded just before. */
    method UpdateCachePackages(files: seq<PackageFile>)
      modifies this`packageMap
      ensures packageMap == Packages(standardMap, files)
    {
      var packages := map[];
      for k := 0 to |files|
        invariant packages == Packages(standardMap, files[..k])
      {
        var f := files[k];
        var drivers := [];
        for i := 0 to |f.standards|
          invariant drivers == Resolve(standardMap, f.standards[..i])
        {
          var stdDrv := Lookup(standardMap, f.standards[i].0, f.standards[i].1);
          assert f.standards[..i + 1][..i] == f.standards[..i];
          if stdDrv.Some? {
            drivers := drivers + [stdDrv.value];
          }
        }
        assert f.standards[..|f.standards|] == f.standards;
        assert files[..k + 1][..k] == files[..k];
        if f.id !in packages {
          packages := packages[f.id := Package(f.id, f.info, drivers)];
        }
      }
      assert files[..|files|] == files;
      packageMap := packages;
    }

    /** The eight stages in order; each overwrites its table before the next one runs. */
    method UpdateTables(r: Repository) returns (ok: bool)
      modifies this
      ensures ok <==> Snapshot(r).Some?
      ensures ok ==> Contents() == Snapshot(r).value
      ensures upToDate == old(upToDate) && cacheStatus == old(cacheStatus)
    {
      if r.server.None? { return false; }
      serverState := r.server.value;
      if r.companies.None? { return false; }
      companyMap := r.companies.value;
      if r.manufacturers.None? { return false; }
      manufacturerMap := r.manufacturers.value;
      if r.products.None? { return false; }
      productMap := r.products.value;
      if r.osDpa.None? { return false; }
      osDpaMap := r.osDpa.value;
      if r.standards.None? { return false; }
      standardMap := r.standards.value;
      if r.packages.None? { return false; }
      UpdateCachePackages(r.packages.value);
      if r.quantities.None? { return false; }
      quantityMap := r.quantities.value;
      ok := true;
    }

    method Restore(saved: Tables)
      modifies this
      ensures Contents() == saved && upToDate == old(upToDate) && cacheStatus == old(cacheStatus)
    {
      serverState, companyMap, manufacturerMap, productMap := saved.checksum, saved.companies, saved.manufacturers,
          saved.products;
      osDpaMap, standardMap, packageMap, quantityMap := saved.osDpa, saved.standards, saved.packages, saved.quantities;
    }

    /** All eight tables are replaced, or all eight are as before, whichever stage or handler fails. */
    method LoadCache(r: Repository, handlersOk: bool, firstLoad: bool) returns (threw: bool)
      modifies this
      ensures Contents() == Reloaded(old(Contents()), Reload(r, handlersOk))
      ensures cacheStatus == if Complete(Reload(r, handlersOk)) then Updated else UpdateFailed
      ensures upToDate == (Snapshot(r).Some? || old(upToDate))
      ensures threw <==> firstLoad && cacheStatus == UpdateFailed
      ensures cacheStatus == Updated <==>
        && handlersOk && r.server.Some? && r.companies.Some? && r.manufacturers.Some? && r.products.Some?
        && r.osDpa.Some? && r.standards.Some? && r.packages.Some? && r.quantities.Some?
      ensures cacheStatus == Updated ==>
        && r.server == Some(serverState) && r.companies == Some(companyMap)
        && r.manufacturers == Some(manufacturerMap) && r.products == Some(productMap) && r.osDpa == Some(osDpaMap)
        && r.standards == Some(standardMap) && r.quantities == Some(quantityMap)
    {
      var saved := Contents();
      var ok := UpdateTables(r);
      if ok {
        upToDate := true;
        cacheStatus := Updated;
      }
      if !(ok && handlersOk) {
        cacheStatus := UpdateFailed;
        Restore(saved);
        return firstLoad;
      }
      threw := false;
    }

    /** Compares the loaded checksum with the remote one; without a remote answer it throws and changes nothing. */
    method CheckCache(remote: Option<int>) returns (threw: bool)
      modifies this`upToDate, this`cacheStatus
      ensures threw <==> remote.None?
      ensures threw ==> upToDate == old(upToDate) && cacheStatus == old(cacheStatus)
      ensures !threw ==> cacheStatus == if Contents().checksum == remote.value then UpToDate else UpdateNeeded
      ensures !threw ==> (upToDate <==> cacheStatus == UpToDate)
    {
      if remote.None? {
        return true;
      }
      upToDate := serverState == remote.value;
      cacheStatus := if upToDate then UpToDate else UpdateNeeded;
      threw := false;
    }

    /** A failed reload is noticed again: the same remote still asks for an update, even if only a handler failed. */
    method FailedReloadIsRetried(remote: int, r: Repository, handlersOk: bool)
      requires serverState != remote && !Complete(Reload(r, handlersOk))
      modifies this
      ensures cacheStatus == UpdateNeeded && !upToDate && Contents() == old(Contents())
    {
      var threw := CheckCache(Some(remote));
      threw := LoadCache(r, handlersOk, false);
      threw := CheckCache(Some(remote));
    }
  }
}
