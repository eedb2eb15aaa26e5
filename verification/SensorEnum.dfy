/** Sensor enumeration of one device: the stored sensor table is brought in line with the device's response. */
module SensorEnum {
  import opened Common

  /** Indexes and counters have eight bits. */
  const INDEXES: nat := 0x100

  /** The counter array has one element for each type but the last. */
  const COUNTERS: nat := 0xFF

  /** A sensor as the response describes it; type and name identify its record. */
  datatype Kind = Kind(quantity: u8, name: string)

  datatype Row = Row(quantity: u8, typeIndex: u8, sensorId: nat)

  /** The sensor records; identifiers are handed out in order and never reused. */
  datatype Records = Records(ids: map<Kind, nat>, next: nat)
  {
    ghost predicate Valid() {
      && (forall k :: k in ids ==> ids[k] < next)
      && (forall k, l :: k in ids && l in ids && ids[k] == ids[l] ==> k == l)
    }

    function With(k: Kind): Records {
      if k in ids then this else Records(ids[k := next], next + 1)
    }
  }

  ghost function Assigned(r: Records, response: seq<Kind>): Records {
    if response == [] then r else Assigned(r, response[..|response| - 1]).With(response[|response| - 1])
  }

  /** Stored rows carry the type of the sensor record they point to. */
  ghost predicate Typed(rows: map<u8, Row>, r: Records) {
    forall i :: i in rows ==> exists k :: k in r.ids && r.ids[k] == rows[i].sensorId && k.quantity == rows[i].quantity
  }

  /** How many of the first `n` entries have type `t`. */
  ghost function Rank(response: seq<Kind>, n: nat, t: u8): nat
    requires n <= |response|
  {
    if n == 0 then 0 else Rank(response, n - 1, t) + if response[n - 1].quantity == t then 1 else 0
  }

  /** The entry points to the sensor that its index already had; only the first round of indexes finds old rows. */
  ghost predicate Kept(rows: map<u8, Row>, ids: map<Kind, nat>, response: seq<Kind>, i: nat)
    requires i < |response| && response[i] in ids
  {
    i < INDEXES && i in rows && rows[i].sensorId == ids[response[i]]
  }

  ghost predicate Known(ids: map<Kind, nat>, response: seq<Kind>) {
    forall i :: 0 <= i < |response| ==> response[i] in ids
  }

  /** How many of the first `n` entries have type `t` and are not kept. */
  ghost function Inserted(rows: map<u8, Row>, ids: map<Kind, nat>, response: seq<Kind>, n: nat, t: u8): (c: nat)
    requires n <= |response| && Known(ids, response)
    ensures c <= n
  {
    if n == 0 then 0
    else Inserted(rows, ids, response, n - 1, t) +
         if response[n - 1].quantity == t && !Kept(rows, ids, response, n - 1) then 1 else 0
  }

  /** The last of the first `n` entries with index `j`, or -1. */
  ghost function LastAt(n: nat, j: u8): int {
    if n == 0 then -1 else if (n - 1) % INDEXES == j then n - 1 else LastAt(n - 1, j)
  }

  /** The row that entry `i` leaves. */
  ghost function NewRow(rows: map<u8, Row>, ids: map<Kind, nat>, response: seq<Kind>, i: nat): Row
    requires i < |response| && Known(ids, response)
  {
    if Kept(rows, ids, response, i) then rows[i]
    else Row(response[i].quantity, Inserted(rows, ids, response, i, response[i].quantity) % INDEXES, ids[response[i]])
  }

  /** Each index has the row of the last entry with that index. */
  ghost predicate Enumerated(rows: map<u8, Row>, ids: map<Kind, nat>, response: seq<Kind>, rows': map<u8, Row>)
    requires Known(ids, response)
  {
    && (forall j: u8 :: j in rows' <==> j < |response|)
    && (forall j :: j in rows' ==> 0 <= LastAt(|response|, j) < |response| &&
                                   rows'[j] == NewRow(rows, ids, response, LastAt(|response|, j)))
  }

  lemma {:induction false} LastAtMeaning(n: nat, j: u8)
    ensures LastAt(n, j) < n && (LastAt(n, j) >= 0 <==> j < n)
    ensures LastAt(n, j) >= 0 ==> LastAt(n, j) % INDEXES == j
    ensures j < n <= INDEXES ==> LastAt(n, j) == j
  {
    if n > 0 {
      LastAtMeaning(n - 1, j);
    }
  }

  // ---------------------------------------------------------------- sensor records

  lemma {:induction false} AssignedValid(r: Records, response: seq<Kind>)
    requires r.Valid()
    ensures Assigned(r, response).Valid() && Known(Assigned(r, response).ids, response)
    ensures forall k :: k in r.ids ==> k in Assigned(r, response).ids && Assigned(r, response).ids[k] == r.ids[k]
  {
    if response != [] {
      AssignedValid(r, response[..|response| - 1]);
    }
  }

  /** An identifier, once handed out, stays with its kind. */
  lemma {:induction false} AssignedStable(r: Records, response: seq<Kind>, n: nat)
    requires r.Valid() && n <= |response|
    ensures forall k :: k in Assigned(r, response[..n]).ids ==>
              k in Assigned(r, response).ids && Assigned(r, response).ids[k] == Assigned(r, response[..n]).ids[k]
    decreases |response|
  {
    if n == |response| {
      assert response[..n] == response;
    } else {
      var m := |response| - 1;
      AssignedStable(r, response[..m], n);
      assert response[..m][..n] == response[..n];
    }
  }

  lemma AssignedAt(r: Records, response: seq<Kind>, n: nat)
    requires r.Valid() && n < |response|
    ensures Assigned(r, response[..n]).With(response[n]) == Assigned(r, response[..n + 1])
    ensures response[n] in Assigned(r, response).ids
    ensures Assigned(r, response[..n]).With(response[n]).ids[response[n]] == Assigned(r, response).ids[response[n]]
  {
    assert response[..n + 1][..n] == response[..n];
    AssignedStable(r, response, n + 1);
  }

  // ---------------------------------------------------------------- the table against the response

  /** For every previous table each index of the new one holds the sensor of the last entry with that index; up to 256
      entries, index by index the new table is the response. */
  lemma TableIsResponse(rows: map<u8, Row>, r: Records, response: seq<Kind>, rows': map<u8, Row>)
    requires r.Valid() && Typed(rows, r)
    requires var ids := Assigned(r, response).ids; Known(ids, response) && Enumerated(rows, ids, response, rows')
    ensures forall j: u8 :: j in rows' <==> j < |response|
    ensures forall j :: j in rows' ==> var i := LastAt(|response|, j);
              && 0 <= i < |response| && i % INDEXES == j && (|response| <= INDEXES ==> i == j)
              && rows'[j].sensorId == Assigned(r, response).ids[response[i]] &&
                  rows'[j].quantity == response[i].quantity
    ensures Typed(rows', Assigned(r, response))
  {
    AssignedValid(r, response);
    var ids := Assigned(r, response).ids;
    forall j | j in rows'
      ensures var i := LastAt(|response|, j);
        && 0 <= i < |response| && i % INDEXES == j && (|response| <= INDEXES ==> i == j)
        && rows'[j].sensorId == ids[response[i]] && rows'[j].quantity == response[i].quantity
    {
      var i := LastAt(|response|, j);
      LastAtMeaning(|response|, j);
      if Kept(rows, ids, response, i) {
        var k :| k in r.ids && r.ids[k] == rows[i].sensorId && k.quantity == rows[i].quantity;
        assert ids[k] == ids[response[i]];
      }
    }
  }

  /** Enumerating the same response again adds no record, and keeps every row exactly up to 256 entries. */
  lemma RerunKeepsAllIff(rows: map<u8, Row>, r: Records, response: seq<Kind>, rows': map<u8, Row>)
    requires r.Valid() && Typed(rows, r)
    requires var ids := Assigned(r, response).ids; Known(ids, response) && Enumerated(rows, ids, response, rows')
    ensures Assigned(Assigned(r, response), response) == Assigned(r, response)
    ensures AllKept(rows', Assigned(r, response).ids, response) <==> |response| <= INDEXES
  {
    TableIsResponse(rows, r, response, rows');
    AssignedAgain(Assigned(r, response), response);
    var ids := Assigned(r, response).ids;
    if |response| <= INDEXES {
      forall i | 0 <= i < |response| ensures Kept(rows', ids, response, i) {
        var j: u8 := i;
        assert j in rows';
      }
    } else {
      assert !Kept(rows', ids, response, INDEXES);
    }
  }

  lemma {:induction false} AssignedAgain(r: Records, response: seq<Kind>)
    requires Known(r.ids, response)
    ensures Assigned(r, response) == r
  {
    if response != [] {
      AssignedAgain(r, response[..|response| - 1]);
    }
  }

  /** The table already is the response: enumeration has nothing to write. */
  ghost predicate AllKept(rows: map<u8, Row>, ids: map<Kind, nat>, response: seq<Kind>) {
    && Known(ids, response)
    && (forall i :: i in rows ==> i < |response|)
    && forall i :: 0 <= i < |response| ==> Kept(rows, ids, response, i)
  }

  // ---------------------------------------------------------------- type-local indexes

  /** One of the first `n` entries has type `t` and is kept. */
  ghost predicate KeptEarlier(rows: map<u8, Row>, ids: map<Kind, nat>, response: seq<Kind>, n: nat, t: u8)
    requires n <= |response| && Known(ids, response)
  {
    n > 0 && (KeptEarlier(rows, ids, response, n - 1, t) ||
              (response[n - 1].quantity == t && Kept(rows, ids, response, n - 1)))
  }

  /** The type-local index is wrong for a kept row with an outdated index, and for an inserted one after a kept one or
      beyond the eight bits of the counter. */
  ghost predicate RankLost(rows: map<u8, Row>, ids: map<Kind, nat>, response: seq<Kind>, i: nat)
    requires i < |response| && Known(ids, response)
  {
    var t := response[i].quantity;
    if Kept(rows, ids, response, i) then rows[i].typeIndex != Rank(response, i, t)
    else Rank(response, i, t) >= INDEXES || KeptEarlier(rows, ids, response, i, t)
  }

  /** Inserted entries fall short of the rank exactly when an entry of the type was kept. */
  lemma {:induction false} InsertedIsRankIff(rows: map<u8, Row>, ids: map<Kind, nat>, response: seq<Kind>, n: nat,
                                             t: u8)
    requires n <= |response| && Known(ids, response)
    ensures Inserted(rows, ids, response, n, t) <= Rank(response, n, t)
    ensures Inserted(rows, ids, response, n, t) == Rank(response, n, t) <==> !KeptEarlier(rows, ids, response, n, t)
  {
    if n > 0 {
      InsertedIsRankIff(rows, ids, response, n - 1, t);
    }
  }

  lemma EightBits(c: nat, r: nat)
    requires c <= r
    ensures c % INDEXES == r <==> c == r && r < INDEXES
  {
  }

  lemma NewRowRank(rows: map<u8, Row>, ids: map<Kind, nat>, response: seq<Kind>, i: nat)
    requires i < |response| && Known(ids, response)
    ensures NewRow(rows, ids, response, i).typeIndex == Rank(response, i, response[i].quantity) <==>
            !RankLost(rows, ids, response, i)
  {
    var t := response[i].quantity;
    InsertedIsRankIff(rows, ids, response, i, t);
    EightBits(Inserted(rows, ids, response, i, t), Rank(response, i, t));
  }

  /** Each entry that ends in the table gets its rank among the entries of its type exactly when it is not lost. */
  lemma RankIff(rows: map<u8, Row>, ids: map<Kind, nat>, response: seq<Kind>, rows': map<u8, Row>, j: u8)
    requires Known(ids, response) && Enumerated(rows, ids, response, rows') && j in rows'
    ensures var i := LastAt(|response|, j);
      rows'[j].typeIndex == Rank(response, i, response[i].quantity) <==> !RankLost(rows, ids, response, i)
  {
    NewRowRank(rows, ids, response, LastAt(|response|, j));
  }

  lemma {:induction false} NothingKept(ids: map<Kind, nat>, response: seq<Kind>, n: nat, t: u8)
    requires n <= |response| && Known(ids, response)
    ensures !KeptEarlier(map[], ids, response, n, t)
  {
    if n > 0 {
      NothingKept(ids, response, n - 1, t);
    }
  }

  /** From an empty table every entry gets its rank, in the eight bits of the counter. */
  lemma FirstEnumerationRanks(ids: map<Kind, nat>, response: seq<Kind>, rows': map<u8, Row>, j: u8)
    requires Known(ids, response) && Enumerated(map[], ids, response, rows') && j in rows'
    ensures var i := LastAt(|response|, j); rows'[j].typeIndex == Rank(response, i, response[i].quantity) % INDEXES
  {
    var i := LastAt(|response|, j);
    NothingKept(ids, response, i, response[i].quantity);
    InsertedIsRankIff(map[], ids, response, i, response[i].quantity);
  }

  /** A second thermometer appears behind a kept one: both end with type-local index 0. */
  lemma RankLostExample(ids: map<Kind, nat>, rows': map<u8, Row>)
    requires ids == map[Kind(1, "a") := 1, Kind(1, "b") := 2]
    requires Enumerated(map[0 := Row(1, 0, 1)], ids, [Kind(1, "a"), Kind(1, "b")], rows')
    ensures rows'[0] == Row(1, 0, 1) && rows'[1] == Row(1, 0, 2)
    ensures Rank([Kind(1, "a"), Kind(1, "b")], 1, 1) == 1
  {
    var rows: map<u8, Row> := map[0 := Row(1, 0, 1)];
    var response := [Kind(1, "a"), Kind(1, "b")];
    assert Kept(rows, ids, response, 0) && !Kept(rows, ids, response, 1);
    assert Inserted(rows, ids, response, 1, 1) == 0;
    assert LastAt(2, 1) == 1 && LastAt(2, 0) == LastAt(1, 0) == 0;
    assert 0 in rows' && 1 in rows';
  }

  // ---------------------------------------------------------------- the service

  class SensorTable {
    var records: Records
    /** The device's rows by global index. */
    var rows: map<u8, Row>
    /** Write statements on the device's rows so far. */
    var writes: nat

    ghost predicate Valid()
      reads this
    {
      records.Valid() && Typed(rows, records)
    }

    constructor ()
      ensures Valid() && rows == map[]
    {
      records, rows, writes := Records(map[], 1), map[], 0;
    }

    method FindOrInsertSensor(k: Kind) returns (sensorId: nat)
      modifies this`records
      ensures records == old(records).With(k) && sensorId == records.ids[k]
    {
      if k !in records.ids {
        records := Records(records.ids[k := records.next], records.next + 1);
      }
      sensorId := records.ids[k];
    }

    method Replace(index: u8, row: Row)
      modifies this`rows, this`writes
      ensures rows == old(rows)[index := row] && writes == old(writes) + 2
    {
      rows := rows - {index};
      rows := rows[index := row];
      writes := writes + 2;
      assert rows == old(rows)[index := row];
    }

    method RemoveLeftovers(leftovers: set<u8>)
      modifies this`rows, this`writes
      ensures rows == old(rows) - leftovers
      ensures writes == old(writes) <==> leftovers == {}
      ensures writes >= old(writes)
    {
      if |leftovers| > 0 {
        rows := rows - leftovers;
        writes := writes + 1;
      }
    }

    /** Writes the row of one entry unless the stored one points to the same sensor; fails where the code would leave
        its counter array. */
    method StoreEntry(index: u8, quantity: u8, sensorId: nat, oldSensors: map<u8, Row>, cnt: array<u8>)
      returns (ok: bool)
      requires cnt.Length == COUNTERS
      modifies this`rows, this`writes, cnt
      ensures var kept := index in oldSensors && oldSensors[index].sensorId == sensorId;
        && (ok <==> kept || quantity < COUNTERS)
        && (kept ==> rows == old(rows) && writes == old(writes) && cnt[..] == old(cnt[..]))
        && (ok && !kept ==>
              && rows == old(rows)[index := Row(quantity, old(cnt[quantity]), sensorId)] && writes == old(writes) + 2
              && cnt[..] == old(cnt[..])[quantity as int := (old(cnt[quantity]) + 1) % INDEXES])
    {
      if index in oldSensors && oldSensors[index].sensorId == sensorId {
        return true;
      }
      if quantity >= COUNTERS {
        return false;
      }
      Replace(index, Row(quantity, cnt[quantity], sensorId));
      cnt[quantity] := if cnt[quantity] == 0xFF then 0 else cnt[quantity] + 1;
      ok := true;
    }

    /** The rows of a device before enumeration, and what the first `i` entries made of them. */
    ghost predicate Stored(before: map<u8, Row>, ids: map<Kind, nat>, response: seq<Kind>, cnt: seq<u8>, i: nat)
      requires i <= |response| && Known(ids, response)
      reads this
    {
      RowsDone(before, NewRows(before, ids, response, i), rows) && Counted(before, ids, response, cnt, i)
    }

    /** One pass of the loop over the response. */
    method Step(response: seq<Kind>, i: nat, sensorId: nat, oldSensors: map<u8, Row>, cnt: array<u8>,
                ghost before: map<u8, Row>, ghost ids: map<Kind, nat>) returns (ok: bool)
      requires i < |response| && Known(ids, response) && sensorId == ids[response[i]]
      requires oldSensors == RowsFrom(before, i) && Stored(before, ids, response, cnt[..], i)
      modifies this`rows, this`writes, cnt
      ensures ok <==> !Overruns(before, ids, response, i)
      ensures ok ==> Stored(before, ids, response, cnt[..], i + 1)
      ensures ok ==> writes == old(writes) + if Kept(before, ids, response, i) then 0 else 2
    {
      ghost var rows0, cnt0 := rows, cnt[..];
      ok := StoreEntry(i % INDEXES, response[i].quantity, sensorId, oldSensors, cnt);
      KeptAt(before, ids, response, i);
      if ok {
        EntryStored(before, ids, response, rows0, cnt0, rows, cnt[..], i);
      }
    }

    /** The state of the loop before entry `i`. */
    ghost predicate Midway(r: Records, before: map<u8, Row>, ids: map<Kind, nat>, response: seq<Kind>,
                           oldSensors: map<u8, Row>, cnt: seq<u8>, i: nat)
      requires i <= |response| && Known(ids, response)
      reads this
    {
      && records == Assigned(r, response[..i]) && oldSensors == RowsFrom(before, i)
      && Stored(before, ids, response, cnt, i)
    }

    /** Finds the sensor of an entry, stores its row and ticks off its index. */
    method Advance(response: seq<Kind>, i: nat, oldSensors: map<u8, Row>, cnt: array<u8>,
                   ghost r: Records, ghost before: map<u8, Row>, ghost ids: map<Kind, nat>)
      returns (ok: bool, rest: map<u8, Row>)
      requires r.Valid() && i < |response| && Known(ids, response) && ids == Assigned(r, response).ids
      requires Midway(r, before, ids, response, oldSensors, cnt[..], i)
      modifies this, cnt
      ensures ok <==> !Overruns(before, ids, response, i)
      ensures ok ==> Midway(r, before, ids, response, rest, cnt[..], i + 1)
      ensures ok ==> writes == old(writes) + if Kept(before, ids, response, i) then 0 else 2
    {
      AssignedAt(r, response, i);
      var sensorId := FindOrInsertSensor(response[i]);
      ok := Step(response, i, sensorId, oldSensors, cnt, before, ids);
      RowsFromStep(before, i);
      rest := oldSensors - {i % INDEXES};
    }

    lemma Begins(ids: map<Kind, nat>, response: seq<Kind>, cnt: seq<u8>)
      requires Known(ids, response) && |cnt| == COUNTERS && forall t :: 0 <= t < |cnt| ==> cnt[t] == 0
      ensures Midway(records, rows, ids, response, rows, cnt, 0)
    {
      assert RowsFrom(rows, 0) == rows;
    }

    /** The loop over the response. */
    method StoreAll(response: seq<Kind>, ghost ids: map<Kind, nat>)
      returns (ok: bool, oldSensors: map<u8, Row>, ghost counts: seq<u8>)
      requires records.Valid() && ids == Assigned(records, response).ids && Known(ids, response)
      modifies this
      ensures ok <==> Countable(old(rows), ids, response, |response|)
      ensures ok ==> Midway(old(records), old(rows), ids, response, oldSensors, counts, |response|)
      ensures ok ==> writes == old(writes) + WriteCount(old(rows), ids, response, |response|)
    {
      oldSensors := rows;
      var cnt := new u8[COUNTERS](_ => 0);
      counts := cnt[..];
      Begins(ids, response, counts);
      for i := 0 to |response|
        invariant fresh(cnt) && counts == cnt[..]
        invariant Midway(old(records), old(rows), ids, response, oldSensors, counts, i)
        invariant writes == old(writes) + WriteCount(old(rows), ids, response, i)
        invariant Countable(old(rows), ids, response, i)
      {
        ok, oldSensors := Advance(response, i, oldSensors, cnt, old(records), old(rows), ids);
        counts := cnt[..];
        if !ok {
          CountableBefore(old(rows), ids, response, i + 1);
          return;
        }
      }
      ok := true;
    }

    /** Brings records and rows in line with the response. It fails exactly when it would count a new sensor of the last
        type, whose counter does not exist. */
    method EnumerateSensors(response: seq<Kind>) returns (ok: bool)
      requires Valid()
      modifies this
      ensures var ids := Assigned(old(records), response).ids;
        && Known(ids, response)
        && (ok <==> Countable(old(rows), ids, response, |response|))
      ensures ok ==> Valid() && records == Assigned(old(records), response) && Known(records.ids, response)
      ensures ok ==> Enumerated(old(rows), records.ids, response, rows)
      ensures ok ==> (writes == old(writes) <==> AllKept(old(rows), records.ids, response))
    {
      AssignedValid(records, response);
      var oldSensors;
      ghost var counts;
      ok, oldSensors, counts := StoreAll(response, Assigned(records, response).ids);
      if !ok {
        return;
      }
      assert response[..|response|] == response;
      var leftovers := oldSensors.Keys;
      ghost var done := rows;
      RemoveLeftovers(leftovers);
      LeftoversGone(old(rows), records.ids, response, leftovers);
      DoneEnumerated(old(rows), records.ids, response, done);
      TableIsResponse(old(rows), old(records), response, rows);
    }
  }

  /** Storing entry `i` would count a sensor of a type without a counter. */
  ghost predicate Overruns(rows: map<u8, Row>, ids: map<Kind, nat>, response: seq<Kind>, i: nat)
    requires i < |response| && Known(ids, response)
  {
    response[i].quantity == COUNTERS && !Kept(rows, ids, response, i)
  }

  /** None of the first `n` entries does. */
  ghost predicate Countable(rows: map<u8, Row>, ids: map<Kind, nat>, response: seq<Kind>, n: nat)
    requires n <= |response| && Known(ids, response)
  {
    n == 0 || (Countable(rows, ids, response, n - 1) && !Overruns(rows, ids, response, n - 1))
  }

  lemma {:induction false} CountableBefore(rows: map<u8, Row>, ids: map<Kind, nat>, response: seq<Kind>, n: nat)
    requires n <= |response| && Known(ids, response)
    ensures Countable(rows, ids, response, |response|) ==> Countable(rows, ids, response, n)
    decreases |response| - n
  {
    if n < |response| {
      CountableBefore(rows, ids, response, n + 1);
    }
  }

  /** A response is countable exactly when every entry of the last type is kept. */
  lemma {:induction false} CountableIff(rows: map<u8, Row>, ids: map<Kind, nat>, response: seq<Kind>, n: nat)
    requires n <= |response| && Known(ids, response)
    ensures Countable(rows, ids, response, n) <==>
            forall i :: 0 <= i < n && response[i].quantity == 255 ==>
              i < 256 && i in rows && rows[i].sensorId == ids[response[i]]
  {
    if n > 0 {
      CountableIff(rows, ids, response, n - 1);
    }
  }

  /** A first sensor of type 255 has no counter. */
  lemma UncountableExample()
    ensures !Countable(map[], map[Kind(0xFF, "a") := 1], [Kind(0xFF, "a")], 1)
  {
    assert Overruns(map[], map[Kind(0xFF, "a") := 1], [Kind(0xFF, "a")], 0);
  }

  /** Among the rows not yet visited, the entry finds its own exactly when it is kept. */
  lemma KeptAt(before: map<u8, Row>, ids: map<Kind, nat>, response: seq<Kind>, i: nat)
    requires i < |response| && Known(ids, response)
    ensures var rest, j := RowsFrom(before, i), i % INDEXES;
      j in rest && rest[j].sensorId == ids[response[i]] <==> Kept(before, ids, response, i)
  {
    assert i < INDEXES ==> i % INDEXES == i;
  }

  ghost function RowsFrom(rows: map<u8, Row>, n: nat): map<u8, Row> {
    map i | i in rows && i >= n :: rows[i]
  }

  /** Write statements for the first `n` entries. */
  ghost function WriteCount(before: map<u8, Row>, ids: map<Kind, nat>, response: seq<Kind>, n: nat): nat
    requires n <= |response| && Known(ids, response)
  {
    if n == 0 then 0 else WriteCount(before, ids, response, n - 1) + if Kept(before, ids, response, n - 1) then 0 else 2
  }

  lemma {:induction false} NoWriteIff(before: map<u8, Row>, ids: map<Kind, nat>, response: seq<Kind>, n: nat)
    requires n <= |response| && Known(ids, response)
    ensures WriteCount(before, ids, response, n) == 0 <==> forall j :: 0 <= j < n ==> Kept(before, ids, response, j)
  {
    if n > 0 {
      NoWriteIff(before, ids, response, n - 1);
    }
  }

  /** Rows replaced by those in `done`, the later ones of an index last. */
  ghost predicate RowsDone(before: map<u8, Row>, done: seq<Row>, rows: map<u8, Row>) {
    && (forall j: u8 :: j in rows <==> LastAt(|done|, j) >= 0 || j in before)
    && (forall j: u8 :: LastAt(|done|, j) < |done|)
    && (forall j :: j in rows ==> rows[j] == if LastAt(|done|, j) >= 0 then done[LastAt(|done|, j)] else before[j])
  }

  ghost function NewRows(before: map<u8, Row>, ids: map<Kind, nat>, response: seq<Kind>, n: nat): (done: seq<Row>)
    requires n <= |response| && Known(ids, response)
    ensures |done| == n && forall i :: 0 <= i < n ==> done[i] == NewRow(before, ids, response, i)
  {
    if n == 0 then [] else NewRows(before, ids, response, n - 1) + [NewRow(before, ids, response, n - 1)]
  }

  ghost predicate Counted(before: map<u8, Row>, ids: map<Kind, nat>, response: seq<Kind>, cnt: seq<u8>, n: nat)
    requires n <= |response| && Known(ids, response)
  {
    |cnt| == COUNTERS && forall t :: 0 <= t < |cnt| ==> cnt[t] == Inserted(before, ids, response, n, t) % INDEXES
  }

  lemma RowsStep(before: map<u8, Row>, done: seq<Row>, rows: map<u8, Row>, row: Row)
    requires RowsDone(before, done, rows)
    ensures RowsDone(before, done + [row], rows[|done| % INDEXES := row])
  {
    var n := |done|;
    var done', rows' := done + [row], rows[n % INDEXES := row];
    assert |done'| == n + 1;
    forall j: u8 ensures LastAt(|done'|, j) == if j == n % INDEXES then n else LastAt(n, j) {
    }
    forall j | j in rows'
      ensures rows'[j] == if LastAt(|done'|, j) >= 0 then done'[LastAt(|done'|, j)] else before[j]
    {
    }
  }

  /** A kept entry's row is written back as it is. */
  lemma KeptRow(before: map<u8, Row>, done: seq<Row>, rows: map<u8, Row>, i: u8)
    requires RowsDone(before, done, rows) && |done| == i && i in before
    ensures rows[i := before[i]] == rows
  {
    LastAtMeaning(|done|, i);
  }

  lemma Wraps(c: nat)
    ensures (c % INDEXES + 1) % INDEXES == (c + 1) % INDEXES
  {
  }

  lemma CountStep(before: map<u8, Row>, ids: map<Kind, nat>, response: seq<Kind>, cnt: seq<u8>, n: nat)
    requires n < |response| && response[n].quantity < COUNTERS && Known(ids, response)
    requires Counted(before, ids, response, cnt, n)
    ensures var t := response[n].quantity as int;
      var cnt' := if Kept(before, ids, response, n) then cnt else cnt[t := (cnt[t] + 1) % INDEXES];
      Counted(before, ids, response, cnt', n + 1)
  {
    Wraps(Inserted(before, ids, response, n, response[n].quantity));
  }

  lemma CountKept(before: map<u8, Row>, ids: map<Kind, nat>, response: seq<Kind>, cnt: seq<u8>, n: nat)
    requires n < |response| && Known(ids, response) && Kept(before, ids, response, n)
    requires Counted(before, ids, response, cnt, n)
    ensures Counted(before, ids, response, cnt, n + 1)
  {
  }

  /** One entry stored: the row it needs. */
  lemma RowStored(before: map<u8, Row>, ids: map<Kind, nat>, response: seq<Kind>, rows: map<u8, Row>, row: Row, n: nat)
    requires n < |response| && Known(ids, response) && row == NewRow(before, ids, response, n)
    requires RowsDone(before, NewRows(before, ids, response, n), rows)
    ensures RowsDone(before, NewRows(before, ids, response, n + 1), rows[n % INDEXES := row])
    ensures Kept(before, ids, response, n) ==> rows[n % INDEXES := row] == rows
  {
    var done := NewRows(before, ids, response, n);
    RowsStep(before, done, rows, row);
    if Kept(before, ids, response, n) {
      KeptRow(before, done, rows, n);
    }
  }

  /** One entry stored: its row and its counter. */
  lemma EntryStored(before: map<u8, Row>, ids: map<Kind, nat>, response: seq<Kind>,
                    rows: map<u8, Row>, cnt: seq<u8>, rows': map<u8, Row>, cnt': seq<u8>, n: nat)
    requires n < |response| && Known(ids, response) && !Overruns(before, ids, response, n)
    requires RowsDone(before, NewRows(before, ids, response, n), rows) && Counted(before, ids, response, cnt, n)
    requires var t := response[n].quantity;
      if Kept(before, ids, response, n) then rows' == rows && cnt' == cnt
      else
        && rows' == rows[n % INDEXES := Row(t, cnt[t], ids[response[n]])]
        && cnt' == cnt[t as int := (cnt[t] + 1) % INDEXES]
    ensures RowsDone(before, NewRows(before, ids, response, n + 1), rows')
    ensures Counted(before, ids, response, cnt', n + 1)
  {
    if Kept(before, ids, response, n) {
      CountKept(before, ids, response, cnt, n);
    } else {
      CountStep(before, ids, response, cnt, n);
    }
    var row := NewRow(before, ids, response, n);
    RowStored(before, ids, response, rows, row, n);
    assert rows' == rows[n % INDEXES := row];
  }

  lemma RowsFromStep(rows: map<u8, Row>, n: nat)
    ensures RowsFrom(rows, n) - {n % INDEXES} == RowsFrom(rows, n + 1)
  {
    assert n < INDEXES ==> n % INDEXES == n;
  }

  lemma LeftoversGone(before: map<u8, Row>, ids: map<Kind, nat>, response: seq<Kind>, leftovers: set<u8>)
    requires Known(ids, response)
    requires leftovers == RowsFrom(before, |response|).Keys
    ensures AllKept(before, ids, response) <==> WriteCount(before, ids, response, |response|) == 0 && leftovers == {}
  {
    NoWriteIff(before, ids, response, |response|);
    forall i | i in before ensures i >= |response| <==> i in leftovers {
    }
    assert (forall i :: i !in leftovers) ==> leftovers == {};
  }

  /** All entries stored and the leftovers removed. */
  lemma DoneEnumerated(before: map<u8, Row>, ids: map<Kind, nat>, response: seq<Kind>, done: map<u8, Row>)
    requires Known(ids, response) && RowsDone(before, NewRows(before, ids, response, |response|), done)
    ensures Enumerated(before, ids, response, done - RowsFrom(before, |response|).Keys)
  {
    forall j: u8 ensures LastAt(|response|, j) >= 0 <==> j < |response| {
      LastAtMeaning(|response|, j);
    }
  }
}
