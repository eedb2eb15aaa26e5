/** Sensor FRC answers: each HWPID group's driver decodes the whole answer, and the decoded slots are merged. */
module SensorFrc {
  import opened Common

  /** A decoded reading; a slot without one is null. */
  type Reading = int
  type Slots = seq<Option<Reading>>

  /** The nodes of each HWPID, and what the driver of each HWPID decodes. */
  type Groups = map<u16, set<u8>>
  type Decodings = map<u16, Slots>

  /** Reading past the end of a JSON array yields null. */
  function At(slots: Slots, k: nat): Option<Reading> {
    if k < |slots| then slots[k] else None
  }

  function Nulls(n: nat): (s: Slots)
    ensures |s| == n && forall k :: 0 <= k < n ==> s[k] == None
  {
    if n == 0 then [] else Nulls(n - 1) + [None]
  }

  /** Writing past the end of a JSON array fills the gap with nulls. */
  function Put(slots: Slots, k: nat, v: Option<Reading>): Slots {
    (if k < |slots| then slots else slots + Nulls(k + 1 - |slots|))[k := v]
  }

  ghost function Max(a: nat, b: nat): nat {
    if a < b then b else a
  }

  // ---------------------------------------------------------------- merging, node by node

  /** The slots after the first `n` selected nodes: those in `group` take their slot from its decoding. */
  ghost function MergeGroup(slots: Slots, nodes: seq<u8>, group: set<u8>, decoded: Slots, n: nat): Slots
    requires n <= |nodes|
  {
    if n == 0 then slots
    else
      var s := MergeGroup(slots, nodes, group, decoded, n - 1);
      if nodes[n - 1] in group then Put(s, n, At(decoded, n)) else s
  }

  ghost function MergeAll(slots: Slots, nodes: seq<u8>, groups: Groups, decoded: Decodings, order: seq<u16>): Slots
    requires forall g :: g in order ==> g in groups && g in decoded
  {
    if order == [] then slots
    else
      var g := order[|order| - 1];
      MergeGroup(MergeAll(slots, nodes, groups, decoded, order[..|order| - 1]), nodes, groups[g], decoded[g], |nodes|)
  }

  /** One past the last slot of a node in `group`. */
  ghost function Top(nodes: seq<u8>, group: set<u8>, n: nat): nat
    requires n <= |nodes|
  {
    if n == 0 then 0 else if nodes[n - 1] in group then n + 1 else Top(nodes, group, n - 1)
  }

  ghost function Union(groups: Groups, order: seq<u16>): set<u8>
    requires forall g :: g in order ==> g in groups
  {
    if order == [] then {} else Union(groups, order[..|order| - 1]) + groups[order[|order| - 1]]
  }

  ghost predicate Disjoint(groups: Groups) {
    forall g, h :: g in groups && h in groups && g != h ==> groups[g] !! groups[h]
  }

  lemma {:induction false} MergeGroupMeaning(slots: Slots, nodes: seq<u8>, group: set<u8>, decoded: Slots, n: nat,
                                             k: nat)
    requires n <= |nodes|
    ensures var s := MergeGroup(slots, nodes, group, decoded, n);
      && |s| == Max(|slots|, Top(nodes, group, n))
      && At(s, k) == if 1 <= k <= n && nodes[k - 1] in group then At(decoded, k) else At(slots, k)
  {
    if n > 0 {
      MergeGroupMeaning(slots, nodes, group, decoded, n - 1, k);
      TopBound(nodes, group, n - 1);
    }
  }

  lemma {:induction false} TopBound(nodes: seq<u8>, group: set<u8>, n: nat)
    requires n <= |nodes|
    ensures Top(nodes, group, n) <= n + 1
  {
    if n > 0 {
      TopBound(nodes, group, n - 1);
    }
  }

  lemma {:induction false} TopUnion(nodes: seq<u8>, a: set<u8>, b: set<u8>, n: nat)
    requires n <= |nodes|
    ensures Top(nodes, a + b, n) == Max(Top(nodes, a, n), Top(nodes, b, n))
  {
    if n > 0 {
      TopUnion(nodes, a, b, n - 1);
      TopBound(nodes, a, n - 1);
      TopBound(nodes, b, n - 1);
    }
  }

  lemma {:induction false} TopOfNothing(nodes: seq<u8>, n: nat)
    requires n <= |nodes|
    ensures Top(nodes, {}, n) == 0
  {
    if n > 0 {
      TopOfNothing(nodes, n - 1);
    }
  }

  /** How many slots there are depends on which nodes are covered, not on the order of the groups. */
  lemma {:induction false} MergeAllSize(slots: Slots, nodes: seq<u8>, groups: Groups, decoded: Decodings,
                                        order: seq<u16>)
    requires forall g :: g in order ==> g in groups && g in decoded
    ensures |MergeAll(slots, nodes, groups, decoded, order)| == Max(|slots|, Top(nodes, Union(groups, order), |nodes|))
  {
    if order == [] {
      TopOfNothing(nodes, |nodes|);
    } else {
      var n := |order| - 1;
      var s := MergeAll(slots, nodes, groups, decoded, order[..n]);
      MergeAllSize(slots, nodes, groups, decoded, order[..n]);
      MergeGroupMeaning(s, nodes, groups[order[n]], decoded[order[n]], |nodes|, 0);
      TopUnion(nodes, Union(groups, order[..n]), groups[order[n]], |nodes|);
    }
  }

  /** The slot of a covered node comes from its own group's decoding. */
  lemma {:induction false} MergeAllSlot(slots: Slots, nodes: seq<u8>, groups: Groups, decoded: Decodings,
                                        order: seq<u16>, k: nat, g: u16)
    requires forall h :: h in order ==> h in groups && h in decoded
    requires Disjoint(groups) && 1 <= k <= |nodes| && g in order && nodes[k - 1] in groups[g]
    ensures At(MergeAll(slots, nodes, groups, decoded, order), k) == At(decoded[g], k)
    decreases |order|
  {
    var n := |order| - 1;
    var s := MergeAll(slots, nodes, groups, decoded, order[..n]);
    MergeGroupMeaning(s, nodes, groups[order[n]], decoded[order[n]], |nodes|, k);
    if g != order[n] {
      assert nodes[k - 1] !in groups[order[n]];
      MergeAllSlot(slots, nodes, groups, decoded, order[..n], k, g);
    }
  }

  /** Every other slot stays as it was. */
  lemma {:induction false} MergeAllOther(slots: Slots, nodes: seq<u8>, groups: Groups, decoded: Decodings,
                                         order: seq<u16>, k: nat)
    requires forall h :: h in order ==> h in groups && h in decoded
    requires 1 <= k <= |nodes| ==> forall h :: h in order ==> nodes[k - 1] !in groups[h]
    ensures At(MergeAll(slots, nodes, groups, decoded, order), k) == At(slots, k)
    decreases |order|
  {
    if order != [] {
      var n := |order| - 1;
      var s := MergeAll(slots, nodes, groups, decoded, order[..n]);
      MergeGroupMeaning(s, nodes, groups[order[n]], decoded[order[n]], |nodes|, k);
      MergeAllOther(slots, nodes, groups, decoded, order[..n], k);
    }
  }

  lemma {:induction false} UnionMembers(groups: Groups, order: seq<u16>, a: u8)
    requires forall g :: g in order ==> g in groups
    ensures a in Union(groups, order) <==> exists g :: g in order && a in groups[g]
  {
    if order != [] {
      var n := |order| - 1;
      UnionMembers(groups, order[..n], a);
      assert order == order[..n] + [order[n]];
    }
  }

  /** With disjoint groups the merged slots do not depend on the order in which the groups are merged. */
  lemma OrderIrrelevant(slots: Slots, nodes: seq<u8>, groups: Groups, decoded: Decodings, a: seq<u16>, b: seq<u16>)
    requires Disjoint(groups) && (forall g :: g in a ==> g in groups && g in decoded) && forall g :: g in a <==> g in b
    ensures MergeAll(slots, nodes, groups, decoded, a) == MergeAll(slots, nodes, groups, decoded, b)
  {
    MergeAllSize(slots, nodes, groups, decoded, a);
    MergeAllSize(slots, nodes, groups, decoded, b);
    forall x ensures x in Union(groups, a) <==> x in Union(groups, b) {
      UnionMembers(groups, a, x);
      UnionMembers(groups, b, x);
    }
    assert Union(groups, a) == Union(groups, b);
    var s, t := MergeAll(slots, nodes, groups, decoded, a), MergeAll(slots, nodes, groups, decoded, b);
    forall k | 0 <= k < |s| ensures s[k] == t[k] {
      SameSlot(slots, nodes, groups, decoded, a, b, k);
      assert s[k] == At(s, k) && t[k] == At(t, k);
    }
  }

  lemma SameSlot(slots: Slots, nodes: seq<u8>, groups: Groups, decoded: Decodings, a: seq<u16>, b: seq<u16>, k: nat)
    requires Disjoint(groups) && (forall g :: g in a ==> g in groups && g in decoded) && forall g :: g in a <==> g in b
    ensures At(MergeAll(slots, nodes, groups, decoded, a), k) == At(MergeAll(slots, nodes, groups, decoded, b), k)
  {
    if 1 <= k <= |nodes| && exists g :: g in a && nodes[k - 1] in groups[g] {
      var g :| g in a && nodes[k - 1] in groups[g];
      MergeAllSlot(slots, nodes, groups, decoded, a, k, g);
      MergeAllSlot(slots, nodes, groups, decoded, b, k, g);
    } else {
      MergeAllOther(slots, nodes, groups, decoded, a, k);
      MergeAllOther(slots, nodes, groups, decoded, b, k);
    }
  }

  // ---------------------------------------------------------------- attribution

  datatype Sensor = Sensor(address: int, reading: Reading)

  /** The readings in the first `n` slots after the coordinator's, each with the address it is given. */
  ghost function Readings(slots: Slots, nodes: seq<u8>, n: nat): seq<Sensor>
    requires n < |slots| && (nodes != [] ==> forall k :: |nodes| < k < |slots| ==> slots[k] == None)
  {
    if n == 0 then []
    else Readings(slots, nodes, n - 1) +
         if slots[n] == None then [] else [Sensor(if nodes == [] then n - 1 else nodes[n - 1] as int, slots[n].value)]
  }

  /** Only selected nodes have readings. */
  lemma {:induction false} OnlySelected(slots: Slots, nodes: seq<u8>, n: nat, x: Sensor)
    requires n < |slots| && nodes != [] && forall k :: |nodes| < k < |slots| ==> slots[k] == None
    requires x in Readings(slots, nodes, n)
    ensures exists j :: 0 <= j < n && j < |nodes| && nodes[j] == x.address
  {
    if x in Readings(slots, nodes, n - 1) {
      OnlySelected(slots, nodes, n - 1, x);
    } else {
      assert x.address == nodes[n - 1];
    }
  }

  /** No node gets two readings. */
  lemma {:induction false} ReadingsUnique(slots: Slots, nodes: seq<u8>, n: nat, i: nat, j: nat)
    requires n < |slots| && nodes != [] && forall k :: |nodes| < k < |slots| ==> slots[k] == None
    requires Increasing(nodes) && i < j < |Readings(slots, nodes, n)|
    ensures Readings(slots, nodes, n)[i].address < Readings(slots, nodes, n)[j].address
  {
    var r := Readings(slots, nodes, n - 1);
    if j < |r| {
      ReadingsUnique(slots, nodes, n - 1, i, j);
    } else {
      OnlySelected(slots, nodes, n - 1, r[i]);
    }
  }

  /** Without a selection each node's reading, which stands in the slot of its address, is reported for the address
      below. */
  lemma {:induction false} UnselectedOneTooLow(slots: Slots, n: nat, x: Sensor)
    requires n < |slots|
    ensures x in Readings(slots, [], n) <==> 0 <= x.address < n && slots[x.address + 1] == Some(x.reading)
  {
    if n > 0 {
      UnselectedOneTooLow(slots, n - 1, x);
      var last := if slots[n] == None then [] else [Sensor(n - 1, slots[n].value)];
      assert Readings(slots, [], n) == Readings(slots, [], n - 1) + last;
    }
  }

  /** The readings reported without a selection are those of the slots' own addresses. */
  ghost predicate AttributedRight(slots: Slots, n: nat)
    requires n < |slots|
  {
    forall x :: x in Readings(slots, [], n) <==> 1 <= x.address <= n && slots[x.address] == Some(x.reading)
  }

  /** A non-null slot has a least one before it or is it. */
  lemma {:induction false} LeastSlot(slots: Slots, k: nat) returns (m: nat)
    requires 1 <= k < |slots| && slots[k].Some?
    ensures 1 <= m <= k && slots[m].Some? && forall j :: 1 <= j < m ==> slots[j] == None
  {
    m := k;
    if j :| 1 <= j < k && slots[j].Some? {
      m := LeastSlot(slots, j);
    }
  }

  /** An answer without a selection is attributed right exactly when no node answered. */
  lemma UnselectedRightIff(slots: Slots, n: nat)
    requires n < |slots|
    ensures AttributedRight(slots, n) <==> forall k :: 1 <= k <= n ==> slots[k] == None
  {
    if k :| 1 <= k <= n && slots[k].Some? {
      var m := LeastSlot(slots, k);
      var x := Sensor(m - 1, slots[m].value);
      UnselectedOneTooLow(slots, n, x);
      assert !AttributedRight(slots, n);
    } else {
      forall x ensures x !in Readings(slots, [], n) {
        UnselectedOneTooLow(slots, n, x);
      }
    }
  }

  /** Node 3 reads 20: the reading is reported for node 2. */
  lemma UnselectedExample()
    ensures Readings([None, None, None, Some(20)], [], 3) == [Sensor(2, 20)]
  {
    var slots: Slots := [None, None, None, Some(20)];
    assert Readings(slots, [], 1) == [] && Readings(slots, [], 2) == [];
  }

  // ---------------------------------------------------------------- storing the values of an answer

  /** A value written to the sensor row of an address, and the slot it came from. */
  datatype Write = Write(slot: nat, address: nat, reading: Reading)

  /** The writes for the slots from `lo` up to `hi`: each non-null one goes to the address of its own number, if a
      sensor row exists there. */
  ghost function Writes(rows: set<nat>, slots: Slots, lo: nat, hi: nat): seq<Write>
    requires lo <= hi
  {
    if lo == hi then []
    else Writes(rows, slots, lo, hi - 1) +
         match At(slots, hi - 1)
         case Some(v) => if hi - 1 in rows then [Write(hi - 1, hi - 1, v)] else []
         case None => []
  }

  lemma {:induction false} WritesMeaning(rows: set<nat>, slots: Slots, lo: nat, hi: nat, w: Write)
    requires lo <= hi
    ensures w in Writes(rows, slots, lo, hi) <==>
              lo <= w.slot < hi && w.slot in rows && w.address == w.slot && At(slots, w.slot) == Some(w.reading)
  {
    if lo < hi {
      WritesMeaning(rows, slots, lo, hi - 1, w);
    }
  }

  /** The value of slot `k` is written to the k-th selected node and to no other address. */
  ghost predicate Lands(writes: seq<Write>, slots: Slots, nodes: seq<u8>, k: nat)
    requires 1 <= k <= |nodes| && At(slots, k).Some?
  {
    forall w :: w in writes && w.slot == k <==> w == Write(k, nodes[k - 1], At(slots, k).value)
  }

  lemma LandsIff(rows: set<nat>, slots: Slots, nodes: seq<u8>, k: nat)
    requires 1 <= k <= |nodes| && At(slots, k).Some? && nodes[k - 1] as nat in rows
    ensures Lands(Writes(rows, slots, 1, |nodes| + 1), slots, nodes, k) <==> nodes[k - 1] == k
  {
    var writes := Writes(rows, slots, 1, |nodes| + 1);
    forall w ensures w in writes && w.slot == k <==> k in rows && w == Write(k, k, At(slots, k).value) {
      WritesMeaning(rows, slots, 1, |nodes| + 1, w);
    }
    if Lands(writes, slots, nodes, k) {
      var w := Write(k, nodes[k - 1], At(slots, k).value);
      assert w in writes && w.slot == k;
    }
  }

  /** All values of a selective answer reach their own nodes. */
  ghost predicate AllLand(rows: set<nat>, slots: Slots, nodes: seq<u8>) {
    forall k :: 1 <= k <= |nodes| && At(slots, k).Some? ==> Lands(Writes(rows, slots, 1, |nodes| + 1), slots, nodes, k)
  }

  /** For every answer and selection each node's value lands at its own address and nowhere else exactly when the number
      of every non-null slot is the address of its node. */
  lemma StoredUnderOwnAddressIff(rows: set<nat>, slots: Slots, nodes: seq<u8>)
    requires forall a :: a in nodes ==> a as nat in rows
    ensures AllLand(rows, slots, nodes) <==>
            forall k :: 0 <= k < |nodes| && At(slots, k + 1).Some? ==> nodes[k] == k + 1
  {
    forall k | 0 <= k < |nodes| && At(slots, k + 1).Some?
      ensures Lands(Writes(rows, slots, 1, |nodes| + 1), slots, nodes, k + 1) <==> nodes[k] == k + 1
    {
      assert nodes[k] in nodes;
      LandsIff(rows, slots, nodes, k + 1);
    }
    if AllLand(rows, slots, nodes) {
      forall k | 0 <= k < |nodes| && At(slots, k + 1).Some? ensures nodes[k] == k + 1 {
        assert Lands(Writes(rows, slots, 1, |nodes| + 1), slots, nodes, k + 1);
      }
    } else {
      var k :| 1 <= k <= |nodes| && At(slots, k).Some? && !Lands(Writes(rows, slots, 1, |nodes| + 1), slots, nodes, k);
      assert 0 <= k - 1 < |nodes| && nodes[k - 1] != k - 1 + 1;
    }
  }

  function Full(n: nat): (slots: Slots)
    ensures |slots| == n && forall k :: 0 <= k < n ==> slots[k] == Some(0)
  {
    if n == 0 then [] else Full(n - 1) + [Some(0)]
  }

  /** Whatever the answer, all values land right exactly for the selection of the nodes 1 to n. */
  lemma EveryAnswerLandsIff(rows: set<nat>, nodes: seq<u8>)
    requires Increasing(nodes) && nodes != [] && nodes[0] >= 1 && forall a :: a in nodes ==> a as nat in rows
    ensures (forall slots :: AllLand(rows, slots, nodes)) <==> nodes[|nodes| - 1] == |nodes|
  {
    SlotIsAddressIff(nodes);
    if nodes[|nodes| - 1] == |nodes| {
      forall slots ensures AllLand(rows, slots, nodes) {
        StoredUnderOwnAddressIff(rows, slots, nodes);
      }
    } else {
      var slots := Full(|nodes| + 1);
      StoredUnderOwnAddressIff(rows, slots, nodes);
      var k :| 0 <= k < |nodes| && nodes[k] != k + 1;
      assert At(slots, k + 1).Some?;
      assert !AllLand(rows, slots, nodes);
    }
  }

  /** Only node 2 is selected: its value goes to node 1. */
  lemma WrongAddressExample()
    ensures Writes({1, 2}, [None, Some(20)], 1, 2) == [Write(1, 1, 20)] && !AllLand({1, 2}, [None, Some(20)], [2])
  {
    var slots: Slots := [None, Some(20)];
    assert Writes({1, 2}, slots, 1, 1) == [];
    assert At(slots, 1) == Some(20);
    LandsIff({1, 2}, slots, [2], 1);
  }

  /** An increasing selection from 1 on has no gap exactly when its last node is its number. */
  lemma SlotIsAddressIff(nodes: seq<u8>)
    requires Increasing(nodes) && nodes != [] && nodes[0] >= 1
    ensures (forall k :: 0 <= k < |nodes| ==> nodes[k] == k + 1) <==> nodes[|nodes| - 1] == |nodes|
  {
    var n := |nodes|;
    if nodes[n - 1] == n {
      forall k | 0 <= k < n ensures nodes[k] == k + 1 {
        AtLeast(nodes, k);
        GapLeast(nodes, k, n - 1);
      }
    }
  }

  lemma {:induction false} AtLeast(nodes: seq<u8>, k: nat)
    requires Increasing(nodes) && k < |nodes| && nodes[0] >= 1
    ensures nodes[k] >= k + 1
  {
    if k > 0 { AtLeast(nodes, k - 1); }
  }

  lemma {:induction false} GapLeast(nodes: seq<u8>, i: nat, j: nat)
    requires Increasing(nodes) && i <= j < |nodes|
    ensures nodes[j] - nodes[i] >= j - i
    decreases j - i
  {
    if i < j { GapLeast(nodes, i, j - 1); }
  }

  // ---------------------------------------------------------------- the solver

  class FrcSolver {
    var sensors: seq<Sensor>

    constructor ()
      ensures sensors == []
    {
      sensors := [];
    }

    /** The inner loop of a selective answer: the counter of slots starts at 1. */
    method MergeSelected(slots: Slots, nodes: seq<u8>, deviceAddresses: set<u8>, decoded: Slots) returns (r: Slots)
      requires |nodes| < 0x100
      ensures r == MergeGroup(slots, nodes, deviceAddresses, decoded, |nodes|)
    {
      r := slots;
      var idx: u8 := 1;
      for i := 0 to |nodes|
        invariant i < |nodes| ==> idx == i + 1
        invariant r == MergeGroup(slots, nodes, deviceAddresses, decoded, i)
      {
        if nodes[i] in deviceAddresses {
          r := Put(r, idx, At(decoded, idx));
        }
        idx := if idx == 0xFF then 0 else idx + 1;
      }
    }

    /** The inner loop of a non-selective answer: slots are addresses. */
    method MergeByAddress(slots: Slots, order: seq<u8>, decoded: Slots) returns (r: Slots)
      requires Increasing(order)
      ensures |r| == |slots|
      ensures forall k :: 0 <= k < |r| ==> r[k] == if k in order then At(decoded, k) else slots[k]
    {
      r := slots;
      var i := 0;
      while i < |order| && order[i] < |slots|
        invariant 0 <= i <= |order| && |r| == |slots|
        invariant forall k :: 0 <= k < |r| ==> r[k] == if k in order[..i] then At(decoded, k) else slots[k]
      {
        r := Put(r, order[i], At(decoded, order[i]));
        assert order[..i + 1] == order[..i] + [order[i]];
        i := i + 1;
      }
      assert order == order[..i] + order[i..];
      forall j | i <= j < |order| ensures order[j] >= |slots| {
        assert order[i] <= order[j];
      }
    }

    /** Merges the groups of a selective answer in the order of their HWPIDs; a driver that fails on it ends the
        processing. */
    method ProcessSelective(hwpids: seq<u16>, groups: Groups, decoded: Decodings, nodes: seq<u8>, extraResult: bool)
      returns (ok: bool, slots: Slots)
      requires forall g :: g in hwpids ==> g in groups
      requires 0 < |nodes| < 0x100
      ensures ok <==> forall g :: g in hwpids ==> g in decoded
      ensures ok ==> slots == MergeAll(Nulls(if extraResult then 64 else 55), nodes, groups, decoded, hwpids)
      ensures ok ==> |slots| >= 55 && slots[0] == None && forall k :: |nodes| < k < |slots| ==> slots[k] == None
    {
      slots := Nulls(if extraResult then 64 else 55);
      ghost var start := slots;
      for i := 0 to |hwpids|
        invariant forall g :: g in hwpids[..i] ==> g in decoded
        invariant slots == MergeAll(start, nodes, groups, decoded, hwpids[..i])
      {
        if hwpids[i] !in decoded {
          return false, slots;
        }
        assert hwpids[..i + 1] == hwpids[..i] + [hwpids[i]];
        assert hwpids[..i + 1][..i] == hwpids[..i];
        slots := MergeSelected(slots, nodes, groups[hwpids[i]], decoded[hwpids[i]]);
      }
      assert hwpids[..|hwpids|] == hwpids;
      MergeAllSize(start, nodes, groups, decoded, hwpids);
      forall k | 0 <= k < |slots| && (k == 0 || k > |nodes|) ensures slots[k] == None {
        MergeAllOther(start, nodes, groups, decoded, hwpids, k);
        assert slots[k] == At(slots, k);
      }
      ok := true;
    }

    /** Merges the groups of a non-selective answer: the slot of a node is its address. */
    method ProcessUnselective(hwpids: seq<u16>, groups: Groups, decoded: Decodings, extraResult: bool)
      returns (ok: bool, slots: Slots)
      requires Disjoint(groups) && forall g :: g in hwpids ==> g in groups
      ensures ok <==> forall g :: g in hwpids ==> g in decoded
      ensures |slots| == if extraResult then 64 else 55
      ensures ok ==> forall g, a :: g in hwpids && a in groups[g] && a < |slots| ==> slots[a] == At(decoded[g], a)
      ensures ok ==>
        forall k :: 0 <= k < |slots| && (forall g :: g in hwpids ==> k !in groups[g]) ==> slots[k] == None
    {
      slots := Nulls(if extraResult then 64 else 55);
      for i := 0 to |hwpids|
        invariant |slots| == if extraResult then 64 else 55
        invariant forall g :: g in hwpids[..i] ==> g in decoded
        invariant forall g, a :: g in hwpids[..i] && a in groups[g] && a < |slots| ==> slots[a] == At(decoded[g], a)
        invariant forall k :: 0 <= k < |slots| && (forall g :: g in hwpids[..i] ==> k !in groups[g]) ==>
            slots[k] == None
      {
        var h := hwpids[i];
        if h !in decoded {
          return false, slots;
        }
        assert hwpids[..i + 1] == hwpids[..i] + [h];
        slots := MergeByAddress(slots, Ascending(groups[h]), decoded[h]);
      }
      assert hwpids[..|hwpids|] == hwpids;
      ok := true;
    }

    /** Walks the slots after the coordinator's and reports the non-null ones. */
    method PostResponse(slots: Slots, requested: seq<u8>)
      requires 1 <= |slots| <= 0x101
      requires requested != [] ==> forall k :: |requested| < k < |slots| ==> slots[k] == None
      modifies this
      ensures sensors == old(sensors) + Readings(slots, requested, |slots| - 1)
    {
      var cnt: u8 := 0;
      for i := 1 to |slots|
        invariant i < |slots| ==> cnt == i - 1
        invariant sensors == old(sensors) + Readings(slots, requested, i - 1)
      {
        if slots[i] != None {
          sensors := sensors + [Sensor(if requested == [] then cnt as int else requested[cnt] as int, slots[i].value)];
        }
        cnt := if cnt == 0xFF then 0 else cnt + 1;
      }
    }
  }

  class SensorValues {
    /** Addresses that have a row for the sensor in question. */
    const rows: set<nat>
    /** The stored values, and the writes that led to them. */
    var values: map<nat, Reading>
    ghost var log: seq<Write>

    constructor (rows: set<nat>)
      ensures this.rows == rows && values == map[] && log == []
    {
      this.rows, values, log := rows, map[], [];
    }

    /** Stores a value; an address without a row is an error. A data block, once stored, is kept. */
    method SetValue(slot: nat, address: nat, v: Reading, block: bool) returns (ok: bool)
      modifies this
      ensures ok <==> address in rows
      ensures !ok ==> values == old(values) && log == old(log)
      ensures ok ==> log == old(log) + [Write(slot, address, v)]
      ensures ok ==> values == if block && address in old(values) then old(values) else old(values)[address := v]
    {
      ok := address in rows;
      if ok {
        if !(block && address in values) {
          values := values[address := v];
        }
        log := log + [Write(slot, address, v)];
      }
    }

    /** Stores the values of an answer: slots are counted from 1 over a selection, from 0 without one. An address
        without a row is passed over, except that a data block for it ends the loop; `reached` is the slot where. */
    method UpdateSensorValues(slots: Slots, selected: nat, block: bool) returns (ok: bool, ghost reached: nat)
      requires selected < 0x100
      modifies this
      ensures var lo, hi := if selected == 0 then 0 else 1, if selected == 0 then |slots| % 0x100 else selected + 1;
        && lo <= reached <= hi && (ok <==> reached == hi)
        && (!ok ==> block && At(slots, reached).Some? && reached !in rows)
        && (block ==> forall k :: lo <= k < reached && At(slots, k).Some? ==> k in rows)
        && log == old(log) + Writes(rows, slots, lo, reached)
        && Updated(old(values), values, rows, slots, lo, reached, block)
    {
      var i, n := if selected == 0 then 0 else 1, if selected == 0 then |slots| % 0x100 else selected + 1;
      ghost var lo := i;
      while i < n
        invariant lo <= i <= n
        invariant log == old(log) + Writes(rows, slots, lo, i)
        invariant block ==> forall k :: lo <= k < i && At(slots, k).Some? ==> k in rows
        invariant Updated(old(values), values, rows, slots, lo, i, block)
      {
        var item := At(slots, i);
        if item.Some? {
          ok := SetValue(i, i, item.value, block);
          if !ok && block {
            reached := i;
            return;
          }
        }
        i := i + 1;
      }
      ok, reached := true, i;
    }
  }

  /** The values of the slots from `lo` up to `hi` replace those of the addresses with the same numbers; a data block
      replaces nothing that is there. */
  ghost predicate Updated(before: map<nat, Reading>, after: map<nat, Reading>, rows: set<nat>, slots: Slots, lo: nat,
                          hi: nat, block: bool) {
    forall a: nat ::
      if lo <= a < hi && a in rows && At(slots, a).Some? && !(block && a in before)
      then a in after && Some(after[a]) == At(slots, a)
      else (a in after <==> a in before) && (a in after ==> after[a] == before[a])
  }

  /** The driver of a group with node `a` decoded `v` in slot `k`. */
  ghost predicate OwnDecoding(groups: Groups, decoded: Decodings, hwpids: seq<u16>, a: u8, k: nat, v: Reading)
    requires forall g :: g in hwpids ==> g in groups && g in decoded
  {
    exists g :: g in hwpids && a in groups[g] && At(decoded[g], k) == Some(v)
  }

  /** Slot k holds what the driver of the k-th selected node's own group decoded there, and nothing otherwise. */
  lemma SelectiveSlot(groups: Groups, decoded: Decodings, hwpids: seq<u16>, nodes: seq<u8>, start: Slots,
                      k: nat, v: Reading)
    requires Disjoint(groups) && (forall g :: g in hwpids ==> g in groups && g in decoded)
    requires 1 <= k <= |nodes| && At(start, k) == None
    ensures At(MergeAll(start, nodes, groups, decoded, hwpids), k) == Some(v) <==>
            OwnDecoding(groups, decoded, hwpids, nodes[k - 1], k, v)
  {
    if g :| g in hwpids && nodes[k - 1] in groups[g] {
      MergeAllSlot(start, nodes, groups, decoded, hwpids, k, g);
    } else {
      MergeAllOther(start, nodes, groups, decoded, hwpids, k);
    }
  }

  /** The k-th node has a reading exactly when slot k holds it. */
  lemma {:induction false} ReadingOfSlot(slots: Slots, nodes: seq<u8>, n: nat, k: nat, v: Reading)
    requires Increasing(nodes) && 1 <= k <= |nodes| && n < |slots|
    requires forall i :: |nodes| < i < |slots| ==> slots[i] == None
    ensures Sensor(nodes[k - 1], v) in Readings(slots, nodes, n) <==> k <= n && slots[k] == Some(v)
  {
    if n > 0 {
      ReadingOfSlot(slots, nodes, n - 1, k, v);
      var last := if slots[n] == None then [] else [Sensor(nodes[n - 1] as int, slots[n].value)];
      assert Readings(slots, nodes, n) == Readings(slots, nodes, n - 1) + last;
    }
  }

  /** A selective answer end to end: the k-th selected node has a reading exactly when its own group's driver decoded
      one in slot k, and it is that one. */
  lemma SelectiveAttribution(groups: Groups, decoded: Decodings, hwpids: seq<u16>, nodes: seq<u8>,
                             start: Slots, slots: Slots, n: nat, k: nat, v: Reading)
    requires Disjoint(groups) && (forall g :: g in hwpids ==> g in groups && g in decoded)
    requires Increasing(nodes) && 1 <= k <= |nodes| && At(start, k) == None
    requires slots == MergeAll(start, nodes, groups, decoded, hwpids) && |slots| == n + 1
    requires forall i :: |nodes| < i < |slots| ==> slots[i] == None
    ensures Sensor(nodes[k - 1], v) in Readings(slots, nodes, n) <==>
            OwnDecoding(groups, decoded, hwpids, nodes[k - 1], k, v)
  {
    var filled := At(slots, k) == Some(v);
    assert filled <==> OwnDecoding(groups, decoded, hwpids, nodes[k - 1], k, v) by {
      SelectiveSlot(groups, decoded, hwpids, nodes, start, k, v);
    }
    assert Sensor(nodes[k - 1], v) in Readings(slots, nodes, n) <==> filled by {
      ReadingOfSlot(slots, nodes, n, k, v);
    }
  }
}
