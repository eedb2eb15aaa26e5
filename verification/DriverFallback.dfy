/** The coordinator's provisional drivers: those of its own OS build and DPA version, or of the nearest known ones. */
module DriverFallback {
  import opened Common

  datatype Driver = Driver(id: int, version: int)

  /** A repository package: the OS build and DPA version it is for, and its standard drivers. */
  datatype Package = Package(os: u16, dpa: u16, drivers: seq<Driver>)

  datatype OsDpa = OsDpa(os: u16, dpa: u16)

  ghost predicate Provides(packages: seq<Package>, os: u16, dpa: u16, d: Driver) {
    exists p :: p in packages && p.os == os && p.dpa == dpa && d in p.drivers
  }

  /** Whether `drivers` are those of all packages for an OS build and a DPA version. */
  ghost predicate AreDrivers(packages: seq<Package>, os: u16, dpa: u16, drivers: set<Driver>) {
    forall d :: d in drivers <==> Provides(packages, os, dpa, d)
  }

  ghost predicate HasDrivers(packages: seq<Package>, os: u16, dpa: u16) {
    exists d :: Provides(packages, os, dpa, d)
  }

  /** The OS build to use: the coordinator's own if known, else the greatest known one below it, else the
      least known. */
  ghost predicate IsBuild(known: set<u16>, os: u16, build: u16) {
    && build in known
    && if os in known then build == os
       else if exists k :: k in known && k <= os then build <= os && forall k :: k in known && k <= os ==> k <= build
       else forall k :: k in known ==> build <= k
  }

  /** The DPA version to use: the greatest known one not above the coordinator's that has a driver. */
  ghost predicate IsVersion(packages: seq<Package>, versions: set<u16>, build: u16, dpa: u16, version: u16) {
    && version in versions && version <= dpa && HasDrivers(packages, build, version)
    && forall v :: v in versions && version < v <= dpa ==> !HasDrivers(packages, build, v)
  }

  lemma BuildUnique(known: set<u16>, os: u16, a: u16, b: u16)
    requires IsBuild(known, os, a) && IsBuild(known, os, b)
    ensures a == b
  {
  }

  /** The build is a known one with no other known one nearer from below, and above the coordinator's only if all
      are. */
  lemma BuildIff(known: set<u16>, os: u16, build: u16)
    ensures IsBuild(known, os, build) <==>
      && build in known
      && (build <= os ==> forall k :: k in known ==> !(build < k <= os))
      && (build > os ==> forall k :: k in known ==> k > os && k >= build)
  {
  }

  /** A coordinator with a newer build never gets an older one. */
  lemma BuildMonotone(known: set<u16>, os: u16, os': u16, build: u16, build': u16)
    requires os <= os' && IsBuild(known, os, build) && IsBuild(known, os', build')
    ensures build <= build'
  {
    BuildIff(known, os, build);
    BuildIff(known, os', build');
  }

  lemma UsableIff(packages: seq<Package>, versions: set<u16>, build: u16, dpa: u16, v: u16)
    ensures Usable(packages, versions, build, dpa, v) <==> v in versions && v <= dpa && HasDrivers(packages, build, v)
  {
    if p :| p in packages && p.os == build && p.dpa == v && p.drivers != [] {
      assert Provides(packages, build, v, p.drivers[0]);
    }
  }

  /** The version is usable, and no usable one is greater. */
  lemma VersionIff(packages: seq<Package>, versions: set<u16>, build: u16, dpa: u16, version: u16)
    ensures IsVersion(packages, versions, build, dpa, version) <==>
      && Usable(packages, versions, build, dpa, version)
      && forall v: u16 :: Usable(packages, versions, build, dpa, v) ==> v <= version
  {
    forall v: u16
      ensures Usable(packages, versions, build, dpa, v) <==>
              v in versions && v <= dpa && HasDrivers(packages, build, v)
    {
      UsableIff(packages, versions, build, dpa, v);
    }
  }

  /** Some package for the build has a driver, and the version is known and not above the coordinator's. */
  ghost predicate Usable(packages: seq<Package>, versions: set<u16>, build: u16, dpa: u16, v: u16) {
    v in versions && v <= dpa && exists p :: p in packages && p.os == build && p.dpa == v && p.drivers != []
  }

  lemma VersionUnique(packages: seq<Package>, versions: set<u16>, build: u16, dpa: u16, a: u16, b: u16)
    requires IsVersion(packages, versions, build, dpa, a) && IsVersion(packages, versions, build, dpa, b)
    ensures a == b
  {
  }

  class Cache {
    const packages: seq<Package>
    const osDpaRows: seq<OsDpa>

    constructor (packages: seq<Package>, osDpaRows: seq<OsDpa>)
      ensures this.packages == packages && this.osDpaRows == osDpaRows
    {
      this.packages, this.osDpaRows := packages, osDpaRows;
    }

    method GetDrivers(os: u16, dpa: u16) returns (drivers: set<Driver>)
      ensures AreDrivers(packages, os, dpa, drivers)
    {
      drivers := {};
      for i := 0 to |packages|
        invariant AreDrivers(packages[..i], os, dpa, drivers)
      {
        var p := packages[i];
        assert packages[..i + 1] == packages[..i] + [p];
        ghost var before := drivers;
        if p.os == os && p.dpa == dpa {
          drivers := drivers + set d | d in p.drivers;
        }
        forall d ensures d in drivers <==> Provides(packages[..i + 1], os, dpa, d) {
          PackageAdds(packages[..i], p, os, dpa, d);
        }
      }
      assert packages[..|packages|] == packages;
    }

    /** The DPA versions known for each OS build. */
    method GetOsDpa() returns (m: map<u16, set<u16>>)
      ensures forall o :: o in m <==> exists d :: OsDpa(o, d) in osDpaRows
      ensures forall o, d :: o in m && d in m[o] <==> OsDpa(o, d) in osDpaRows
    {
      m := map[];
      for i := 0 to |osDpaRows|
        invariant forall o :: o in m ==> m[o] != {}
        invariant forall o, d :: o in m && d in m[o] <==> OsDpa(o, d) in osDpaRows[..i]
      {
        var row := osDpaRows[i];
        assert osDpaRows[..i + 1] == osDpaRows[..i] + [row];
        m := m[row.os := (if row.os in m then m[row.os] else {}) + {row.dpa}];
      }
      assert osDpaRows[..|osDpaRows|] == osDpaRows;
      forall o | o in m ensures exists d :: OsDpa(o, d) in osDpaRows {
        var versions := m[o];
        assert (forall d :: d !in versions) ==> versions == {};
        var d :| d in versions;
        assert OsDpa(o, d) in osDpaRows;
      }
    }

    /** Walks the known builds downwards to the first one not above the coordinator's, or takes the least. */
    method FindBuild(known: set<u16>, os: u16) returns (build: u16)
      requires known != {}
      ensures IsBuild(known, os, build)
    {
      if os in known {
        return os;
      }
      var rest := known;
      while rest != {}
        invariant rest <= known && forall k :: k in known && k !in rest ==> k > os
        decreases |rest|
      {
        var revision := Greatest(rest);
        if revision <= os {
          return revision;
        }
        rest := rest - {revision};
      }
      build := Smallest(known);
    }

    /** Walks the versions of a build downwards to the first one not above the coordinator's that has a driver. */
    method FindVersion(build: u16, versions: set<u16>, dpa: u16) returns (drivers: set<Driver>, version: Option<u16>)
      ensures version.Some? ==> IsVersion(packages, versions, build, dpa, version.value) &&
                                AreDrivers(packages, build, version.value, drivers)
      ensures version.None? ==> drivers == {} && forall v :: v in versions && v <= dpa ==>
          !HasDrivers(packages, build, v)
    {
      drivers, version := {}, None;
      var dpaVersion := dpa;
      var rest := versions;
      while rest != {}
        invariant rest <= versions && drivers == {}
        invariant dpaVersion <= dpa && forall v :: v in rest && v <= dpa ==> v <= dpaVersion
        invariant forall v :: v in versions && v !in rest && v <= dpa ==> !HasDrivers(packages, build, v)
        decreases |rest|
      {
        var revision := Greatest(rest);
        if revision <= dpaVersion {
          dpaVersion := revision;
          drivers := GetDrivers(build, dpaVersion);
          if |drivers| > 0 {
            assert (forall d :: d !in drivers) ==> drivers == {};
            version := Some(revision);
            return;
          }
        }
        rest := rest - {revision};
      }
    }

    /** The drivers for the coordinator: an exact match, or those of the fallback build and version. Without any known
        build there is nothing to fall back to. */
    method CoordinatorDrivers(os: u16, dpa: u16)
      returns (drivers: Option<set<Driver>>, build: u16, version: Option<u16>)
      ensures HasDrivers(packages, os, dpa) ==>
        build == os && version == Some(dpa) && drivers.Some? && AreDrivers(packages, os, dpa, drivers.value)
      ensures !HasDrivers(packages, os, dpa) && osDpaRows == [] ==> drivers == None
      ensures !HasDrivers(packages, os, dpa) && osDpaRows != [] ==>
        && drivers.Some?
        && IsBuild((set r | r in osDpaRows :: r.os), os, build)
        && var versions := set r | r in osDpaRows && r.os == build :: r.dpa;
           if version.Some? then
             IsVersion(packages, versions, build, dpa, version.value) &&
                 AreDrivers(packages, build, version.value, drivers.value)
           else drivers.value == {} && forall v :: v in versions && v <= dpa ==> !HasDrivers(packages, build, v)
    {
      build, version := os, Some(dpa);
      var exact := GetDrivers(os, dpa);
      assert (forall d :: d !in exact) ==> exact == {};
      if |exact| > 0 {
        return Some(exact), os, Some(dpa);
      }
      var osDpa := GetOsDpa();
      assert osDpa.Keys == set r | r in osDpaRows :: r.os by {
        forall r | r in osDpaRows ensures r.os in osDpa { assert OsDpa(r.os, r.dpa) == r; }
      }
      assert osDpaRows != [] ==> osDpaRows[0] in osDpaRows;
      if osDpa.Keys == {} {
        return None, os, None;
      }
      build := FindBuild(osDpa.Keys, os);
      assert osDpa[build] == set r | r in osDpaRows && r.os == build :: r.dpa by {
        forall d ensures d in osDpa[build] <==> OsDpa(build, d) in osDpaRows { }
      }
      var found: set<Driver>;
      found, version := FindVersion(build, osDpa[build], dpa);
      drivers := Some(found);
    }
  }

  lemma PackageAdds(packages: seq<Package>, p: Package, os: u16, dpa: u16, d: Driver)
    ensures Provides(packages + [p], os, dpa, d) <==>
              Provides(packages, os, dpa, d) || (p.os == os && p.dpa == dpa && d in p.drivers)
  {
    if Provides(packages, os, dpa, d) {
      var q :| q in packages && q.os == os && q.dpa == dpa && d in q.drivers;
      assert q in packages + [p];
    }
    assert p in packages + [p];
  }
}
