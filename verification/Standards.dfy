/** The standard enumeration that may follow a round: which devices it selects, and whether it knows their products. */
module Standards {
  import opened Common
  import opened Enumeration
  import opened Reconcile

  /** Devices never enumerated, and those of the round. */
  function Selected(devices: Devices, order: seq<u8>): set<u8> {
    set a | a in devices && (!devices[a].enumerated || a in order)
  }

  /** A device is marked when its enumeration succeeds. */
  function Marked(devices: Devices, done: set<u8>): Devices {
    map a | a in devices :: if a in done then devices[a].(enumerated := true) else devices[a]
  }

  lemma MarkedNext(devices: Devices, done: set<u8>, a: u8)
    requires a in devices
    ensures Marked(devices, done + {a}) == Marked(devices, done)[a := Marked(devices, done)[a].(enumerated := true)]
  {
  }

  ghost predicate AllEnumerated(devices: Devices) {
    forall a :: a in devices ==> devices[a].enumerated
  }

  /** One round: the network, the product entries of the nodes that answered, and the writes that fail. */
  datatype Attempt = Attempt(net: Network, entries: Entries, order: seq<u8>, faults: set<u8>)
  {
    /** The entries are exactly those of the nodes of the round. */
    ghost predicate Valid() {
      && Increasing(order) && (forall a :: a in order ==> a in net.infos && a in entries)
      && entries.Keys == set a | a in order
    }
  }

  ghost function AfterRound(db: Db, t: Attempt): Db
    requires t.Valid()
  {
    var r := Round(db, t.net, t.entries, t.order, t.faults);
    if r.Some? then r.value else db
  }

  /** The rows that are in the table before the round and after it. */
  ghost function Survivors(db: Db, t: Attempt): Devices
    requires t.Valid()
  {
    if Round(db, t.net, t.entries, t.order, t.faults).Some?
    then Delete(db.devices, ToDelete(db.devices, t.net)) else db.devices
  }

  /** Every selected device has a product entry. */
  ghost predicate Served(db: Db, t: Attempt)
    requires t.Valid()
  {
    Selected(AfterRound(db, t).devices, t.order) <= t.entries.Keys
  }

  lemma OtherRowsSurvive(db: Db, t: Attempt, a: u8)
    requires t.Valid() && a !in t.order
    ensures a in AfterRound(db, t).devices <==> a in Survivors(db, t)
    ensures a in Survivors(db, t) ==> AfterRound(db, t).devices[a] == Survivors(db, t)[a]
  {
    var r := Round(db, t.net, t.entries, t.order, t.faults);
    if r.Some? {
      var kept := db.(devices := Delete(db.devices, ToDelete(db.devices, t.net)));
      StoreAllMeaning(kept, r.value, t.net.infos, t.entries, t.order, t.faults);
    }
  }

  /** After a round, committed or rolled back, every device selected for standards has a product entry exactly when
      every surviving device outside the round was already enumerated. */
  lemma ServedIff(db: Db, t: Attempt)
    requires t.Valid()
    ensures Served(db, t) <==>
            forall a :: a in Survivors(db, t) && a !in t.order ==> Survivors(db, t)[a].enumerated
  {
    var after, survivors := AfterRound(db, t).devices, Survivors(db, t);
    forall a: u8 ensures a in Selected(after, t.order) && a !in t.order <==>
                         a in survivors && a !in t.order && !survivors[a].enumerated
    {
      if a !in t.order {
        OtherRowsSurvive(db, t, a);
      }
    }
  }

  /** Node 1 was stored by a round without standards. The next round finds nothing to enumerate, and its standards
      select node 1, which has no entry. */
  lemma SkippedStandardsExample(db: Db, info: Info, t: Attempt)
    requires db.devices == map[1 := Device(1, 1, false, info)]
    requires t == Attempt(Network({1}, map[0 := info, 1 := info]), map[], [], {})
    ensures t.Valid() && 1 !in ToEnumerate(db.devices, t.net, false)
    ensures AfterRound(db, t).devices == db.devices && !Served(db, t)
  {
    assert ToDelete(db.devices, t.net) == {};
    assert Delete(db.devices, {}) == db.devices;
    assert 1 in Selected(db.devices, []);
  }

  // ---------------------------------------------------------------- whole runs

  /** A round followed by standards, all of which succeed. */
  ghost function AfterBoth(db: Db, t: Attempt): Db
    requires t.Valid()
  {
    var r := AfterRound(db, t);
    r.(devices := Marked(r.devices, Selected(r.devices, t.order)))
  }

  ghost predicate ValidAll(ts: seq<Attempt>) {
    forall k :: 0 <= k < |ts| ==> ts[k].Valid()
  }

  ghost function AfterAll(db: Db, ts: seq<Attempt>): Db
    requires ValidAll(ts)
  {
    if ts == [] then db else AfterBoth(AfterAll(db, ts[..|ts| - 1]), ts[|ts| - 1])
  }

  lemma BothEnumerate(db: Db, t: Attempt)
    requires t.Valid()
    ensures AllEnumerated(AfterBoth(db, t).devices)
  {
  }

  /** When every round is followed by standards that succeed, from an enumerated table on, no round ever selects a
      device without an entry, whichever rounds are rolled back. */
  lemma {:induction false} AlwaysServed(db: Db, ts: seq<Attempt>, k: nat)
    requires AllEnumerated(db.devices) && ValidAll(ts) && k < |ts|
    ensures Served(AfterAll(db, ts[..k]), ts[k])
  {
    var before := AfterAll(db, ts[..k]);
    if k > 0 {
      assert ts[..k][..k - 1] == ts[..k - 1];
      BothEnumerate(AfterAll(db, ts[..k - 1]), ts[k - 1]);
    }
    assert AllEnumerated(before.devices);
    ServedIff(before, ts[k]);
  }

  // ---------------------------------------------------------------- the service

  class StandardEnumerator {
    var devices: Devices

    constructor (devices: Devices)
      ensures this.devices == devices
    {
      this.devices := devices;
    }

    method SelectDevices(order: seq<u8>) returns (selected: set<u8>)
      ensures selected == Selected(devices, order)
    {
      selected := {};
      var rest := devices.Keys;
      while rest != {}
        invariant rest <= devices.Keys
        invariant forall a :: a in selected <==> a in devices && a !in rest && (!devices[a].enumerated || a in order)
        decreases |rest|
      {
        var a: u8 := Smallest(rest);
        rest := rest - {a};
        if !devices[a].enumerated || a in order {
          selected := selected + {a};
        }
      }
    }

    /** Enumerates the selected devices and marks those that succeed. A device without a product entry ends it, after
        the devices of `done`: the code reads through the empty entry. */
    method StandardEnumeration(order: seq<u8>, entries: Entries, failing: set<u8>)
      returns (ok: bool, ghost done: set<u8>)
      modifies this
      ensures ok <==> Selected(old(devices), order) <= entries.Keys
      ensures ok <==> done == Selected(old(devices), order)
      ensures done <= Selected(old(devices), order) && done <= entries.Keys
      ensures devices == Marked(old(devices), done - failing)
      ensures devices.Keys == old(devices).Keys && forall a :: a in devices ==>
        && (devices[a].enumerated <==> old(devices)[a].enumerated || (a in done && a !in failing))
        && devices[a] == old(devices)[a].(enumerated := devices[a].enumerated)
    {
      var selected := SelectDevices(order);
      var rest := selected;
      done := {};
      while rest != {}
        invariant rest <= selected && done == selected - rest && done <= entries.Keys
        invariant devices == Marked(old(devices), done - failing)
        decreases |rest|
      {
        var address: u8 := Smallest(rest);
        if address !in entries {
          return false, done;
        }
        if address !in failing {
          MarkedNext(old(devices), done - failing, address);
          assert done + {address} - failing == (done - failing) + {address};
          devices := devices[address := devices[address].(enumerated := true)];
        } else {
          assert done + {address} - failing == done - failing;
        }
        done := done + {address};
        rest := rest - {address};
      }
      ok := true;
    }
  }
}
