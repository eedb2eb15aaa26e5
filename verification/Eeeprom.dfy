/** Reading the coordinator's external EEPROM in chunks of at most 54 bytes. */
module Eeeprom {
  import opened Common

  const READ_MAX_LEN: nat := 54
  const MIDS: nat := 0x4000
  const VRNS: nat := 0x5000
  const ZONES: nat := 0x5200
  const PARENTS: nat := 0x5300
  const SIZE: nat := 0x8000

  /** Contents, and the addresses at which a read transaction fails. */
  datatype Memory = Memory(data: seq<u8>, faulty: set<nat>)
  {
    ghost predicate Valid() {
      |data| == SIZE
    }

    function At(i: nat): u8 {
      if i < |data| then data[i] else 0
    }
  }

  /** A 32-bit word, least significant byte first. */
  function LittleEndian(b0: u8, b1: u8, b2: u8, b3: u8): u32 {
    (b0 as int) + 0x100 * (b1 as int) + 0x1_0000 * (b2 as int) + 0x100_0000 * (b3 as int)
  }

  function MidAt(m: Memory, a: u8): u32 {
    var i := MIDS + 8 * (a as int);
    LittleEndian(m.At(i), m.At(i + 1), m.At(i + 2), m.At(i + 3))
  }

  /** The four bytes at 0x4000 plus eight times the address are the MID's, the least significant first. */
  ghost predicate MidStored(m: Memory, a: u8, mid: u32)
    requires m.Valid()
  {
    var i := 0x4000 + 8 * (a as int);
    mid == (m.data[i] as int) + 0x100 * (m.data[i + 1] as int) + 0x1_0000 * (m.data[i + 2] as int) +
           0x100_0000 * (m.data[i + 3] as int)
  }

  lemma MidBytes(m: Memory, a: u8)
    requires m.Valid()
    ensures MidStored(m, a, MidAt(m, a))
  {
  }

  /** Zones are kept one lower than read; the coordinator is in zone 0; an empty entry wraps to 255. */
  function StoredByte(zone: bool, a: u8, read: u8): u8 {
    if !zone then read else if a == 0 then 0 else if read == 0 then 0xFF else read - 1
  }

  /** One byte per address from the table at `base`. */
  function Table(m: Memory, base: nat, zone: bool, s: set<u8>): map<u8, u8> {
    map a | a in s :: StoredByte(zone, a, m.At(base + a as int))
  }

  /** Routing numbers and parents are the bytes at 0x5000 and 0x5300 plus the address; a zone is the byte at 0x5200 less
      one, in eight bits, and 0 for the coordinator. */
  lemma RoutingBytes(m: Memory, s: set<u8>, a: u8)
    requires m.Valid() && a in s
    ensures Table(m, VRNS, false, s)[a] == m.data[0x5000 + a as int]
    ensures Table(m, PARENTS, false, s)[a] == m.data[0x5300 + a as int]
    ensures a != 0 ==> ((Table(m, ZONES, true, s)[a] as int) + 1) % 0x100 == m.data[0x5200 + a as int]
    ensures a == 0 ==> Table(m, ZONES, true, s)[a] == 0
  {
  }

  /** `std::map::insert` of one entry per address: an entry that exists is kept. */
  ghost function Inserted<V>(before: map<u8, V>, values: map<u8, V>, order: seq<u8>): map<u8, V>
    requires forall a :: a in order ==> a in values
  {
    if order == [] then before
    else
      var m := Inserted(before, values, order[..|order| - 1]);
      var a := order[|order| - 1];
      if a in m then m else m[a := values[a]]
  }

  lemma {:induction false} InsertedMeaning<V>(before: map<u8, V>, values: map<u8, V>, order: seq<u8>)
    requires forall a :: a in order ==> a in values
    ensures Inserted(before, values, order) == (map a | a in order :: values[a]) + before
  {
    if order != [] {
      var n := |order| - 1;
      InsertedMeaning(before, values, order[..n]);
      assert forall a :: a in order <==> a in order[..n] || a == order[n];
    }
  }

  lemma InsertedSnoc<V>(before: map<u8, V>, values: map<u8, V>, order: seq<u8>, a: u8)
    requires a in values && forall b :: b in order ==> b in values
    ensures forall b :: b in order + [a] ==> b in values
    ensures var m := Inserted(before, values, order);
      Inserted(before, values, order + [a]) == if a in m then m else m[a := values[a]]
  {
    assert (order + [a])[..|order|] == order;
  }

  /** The word of an address in the bytes read up to the greatest one. */
  lemma MidRead(m: Memory, data: seq<u8>, max: u8, a: u8)
    requires m.Valid() && MIDS + ((max as int) + 1) * 8 <= |m.data| && a <= max
    requires data == m.data[MIDS..MIDS + ((max as int) + 1) * 8]
    ensures var i := (a as int) * 8;
      i + 3 < |data| && LittleEndian(data[i], data[i + 1], data[i + 2], data[i + 3]) == MidAt(m, a)
  {
  }

  lemma InsertedAll<V>(before: map<u8, V>, values: map<u8, V>, order: seq<u8>)
    requires forall a :: a in order <==> a in values
    ensures Inserted(before, values, order) == values + before
  {
    InsertedMeaning(before, values, order);
    assert (map a | a in order :: values[a]) == values;
  }

  /** Bytes read after `i` requests. */
  ghost function ReadAfter(totalData: nat, i: nat): nat {
    if i <= totalData / READ_MAX_LEN then i * READ_MAX_LEN else totalData
  }

  lemma ChunkStep(totalData: nat, i: nat)
    requires i <= totalData / READ_MAX_LEN
    ensures ReadAfter(totalData, i) == i * READ_MAX_LEN
    ensures ReadAfter(totalData, i + 1) <= totalData
    ensures ReadAfter(totalData, i + 1) ==
            i * READ_MAX_LEN + if i < totalData / READ_MAX_LEN then READ_MAX_LEN else totalData % READ_MAX_LEN
  {
    assert totalData == totalData / READ_MAX_LEN * READ_MAX_LEN + totalData % READ_MAX_LEN;
  }

  lemma SliceJoin(s: seq<u8>, a: nat, b: nat, c: nat)
    requires a <= b <= c <= |s|
    ensures s[a..b] + s[b..c] == s[a..c]
  {
  }

  /** The chunk loop: full chunks first, then the remainder. An empty remainder is skipped, or read as an
      empty chunk. */
  method ReadTable(m: Memory, startAddr: nat, totalData: nat, skipEmpty: bool) returns (ok: bool, data: seq<u8>)
    requires m.Valid() && startAddr + totalData <= SIZE
    ensures ok ==> data == m.data[startAddr..startAddr + totalData]
    ensures m.faulty == {} ==> ok
  {
    var requestCount := totalData / READ_MAX_LEN;
    var remainder := totalData % READ_MAX_LEN;
    data := [];
    ghost var done := 0;
    for i := 0 to requestCount + 1
      invariant done == ReadAfter(totalData, i) <= totalData
      invariant data == m.data[startAddr..startAddr + done]
    {
      ChunkStep(totalData, i);
      var length := if i < requestCount then READ_MAX_LEN else remainder;
      if skipEmpty && length == 0 {
        continue;
      }
      var address := startAddr + i * READ_MAX_LEN;
      if address in m.faulty {
        return false, [];
      }
      SliceJoin(m.data, startAddr, address, address + length);
      data := data + m.data[address..address + length];
      done := done + length;
    }
    ok := true;
  }

  class NetworkInfo {
    var toEnumerate: set<u8>
    var discovered: set<u8>
    var mids: map<u8, u32>
    var vrns: map<u8, u8>
    var zones: map<u8, u8>
    var parents: map<u8, u8>

    constructor (toEnumerate: set<u8>, discovered: set<u8>)
      ensures this.toEnumerate == toEnumerate && this.discovered == discovered
      ensures mids == map[] && vrns == zones == parents == map[]
    {
      this.toEnumerate, this.discovered := toEnumerate, discovered;
      mids, vrns, zones, parents := map[], map[], map[], map[];
    }

    /** Every MID is the word at its node's entry, whatever the set of addresses. An entry already there is kept. */
    method GetMids(m: Memory) returns (ok: bool)
      requires m.Valid()
      modifies this`mids
      ensures m.faulty == {} ==> ok
      ensures ok ==> mids == (map a | a in toEnumerate - {0} :: MidAt(m, a)) + old(mids)
      ensures !ok ==> mids == old(mids)
      ensures ok ==> forall a :: a in toEnumerate && a != 0 && a !in old(mids) ==>
        a in mids && MidStored(m, a, mids[a])
    {
      if toEnumerate == {} {
        return true;
      }
      var max: u8 := Greatest(toEnumerate);
      var data;
      ok, data := ReadTable(m, MIDS, ((max as int) + 1) * 8, true);
      if ok {
        ghost var values := map a | a in toEnumerate - {0} :: MidAt(m, a);
        InsertMids(m, data, Ascending(toEnumerate), max, values);
        forall a | a in toEnumerate && a != 0 && a !in old(mids) ensures a in mids && MidStored(m, a, mids[a]) {
          MidBytes(m, a);
        }
      }
    }

    method InsertMids(ghost m: Memory, data: seq<u8>, order: seq<u8>, ghost max: u8, ghost values: map<u8, u32>)
      requires m.Valid() && data == m.data[MIDS..MIDS + ((max as int) + 1) * 8]
      requires forall a :: a in order ==> a <= max
      requires forall a :: a in values <==> a in order && a != 0
      requires forall a :: a in values ==> values[a] == MidAt(m, a)
      modifies this`mids
      ensures mids == values + old(mids)
    {
      ghost var done: seq<u8> := [];
      for k := 0 to |order|
        invariant forall a :: a in done <==> a in order[..k] && a != 0
        invariant mids == Inserted(old(mids), values, done)
      {
        var addr := order[k];
        assert order[..k + 1] == order[..k] + [addr];
        if addr == 0 {
          continue;
        }
        InsertedSnoc(old(mids), values, done, addr);
        InsertMid(m, data, addr, max);
        done := done + [addr];
      }
      assert order[..|order|] == order;
      InsertedAll(old(mids), values, done);
    }

    method InsertMid(ghost m: Memory, data: seq<u8>, addr: u8, ghost max: u8)
      requires m.Valid() && data == m.data[MIDS..MIDS + ((max as int) + 1) * 8] && addr <= max
      modifies this`mids
      ensures mids == if addr in old(mids) then old(mids) else old(mids)[addr := MidAt(m, addr)]
    {
      MidRead(m, data, max, addr);
      var idx := (addr as int) * 8;
      var mid := LittleEndian(data[idx], data[idx + 1], data[idx + 2], data[idx + 3]);
      if addr !in mids {
        mids := mids[addr := mid];
      }
    }

    /** Virtual routing numbers, zones and parents are the bytes of their tables at the node's address. */
    method GetRoutingInformation(m: Memory) returns (ok: bool)
      requires m.Valid()
      modifies this`vrns, this`zones, this`parents
      ensures m.faulty == {} ==> ok
      ensures ok ==> vrns == Table(m, VRNS, false, discovered) + old(vrns)
      ensures ok ==> zones == Table(m, ZONES, true, discovered) + old(zones)
      ensures ok ==> parents == Table(m, PARENTS, false, discovered) + old(parents)
    {
      if discovered == {} {
        return true;
      }
      var read;
      ok, read := RoutingTable(m, VRNS, false, vrns);
      if !ok {
        return;
      }
      vrns := read;
      ok, read := RoutingTable(m, ZONES, true, zones);
      if !ok {
        return;
      }
      zones := read;
      ok, read := RoutingTable(m, PARENTS, false, parents);
      if !ok {
        return;
      }
      parents := read;
    }

    /** The read and the insertions of one of the three tables. */
    method RoutingTable(m: Memory, base: nat, zone: bool, before: map<u8, u8>) returns (ok: bool, after: map<u8, u8>)
      requires m.Valid() && base + 0x100 <= SIZE && discovered != {}
      ensures m.faulty == {} ==> ok
      ensures ok ==> after == Table(m, base, zone, discovered) + before
    {
      after := before;
      var max: u8 := Greatest(discovered);
      var aux;
      ok, aux := ReadTable(m, base, (max as int) + 1, false);
      if ok {
        after := InsertBytes(zone, aux, Ascending(discovered), before, Table(m, base, zone, discovered));
      }
    }

    static method InsertBytes(zone: bool, aux: seq<u8>, order: seq<u8>, before: map<u8, u8>,
                              ghost values: map<u8, u8>)
      returns (after: map<u8, u8>)
      requires forall a :: a in order <==> a in values
      requires forall a :: a in values ==> a < |aux| && values[a] == StoredByte(zone, a, aux[a])
      ensures after == values + before
    {
      after := before;
      for k := 0 to |order|
        invariant after == Inserted(before, values, order[..k])
      {
        var addr := order[k];
        assert addr in order;
        if addr !in after {
          after := after[addr := StoredByte(zone, addr, aux[addr])];
        }
        assert order[..k + 1][..k] == order[..k];
      }
      assert order[..|order|] == order;
      InsertedAll(before, values, order);
    }
  }
}
