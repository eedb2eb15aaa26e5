/** Signal strengths from beaming devices: for every piece of the node set the whole set is asked. */
module Rssi {
  import opened Common
  import opened SensorRound

  /** The known signal strengths; a device without one counts as 0. */
  type Levels = map<u8, u8>

  const BEAMED: u8 := 133
  const OFFSET: nat := 130

  function LevelOf(value: Option<int>): u8 {
    match value
    case Some(v) => (v + OFFSET) % 0x100
    case None => 0
  }

  /** A reading is kept as a level 130 higher, in eight bits. */
  lemma LevelIff(v: int, level: u8)
    ensures LevelOf(Some(v)) == level <==> exists k: int :: v + 130 == level + k * 0x100
  {
    var q := (v + 130) / 0x100;
    assert v + 130 == (v + 130) % 0x100 + q * 0x100;
    forall k: int | v + 130 == level + k * 0x100 ensures level == (v + 130) % 0x100 {
      assert (v + 130) - level == k * 0x100;
      assert q == k;
    }
  }

  /** A level of 0 is not stored. */
  function WithLevel(levels: Levels, a: u8, level: u8): Levels {
    if level == 0 then levels else levels[a := level]
  }

  ghost function WithLevels(levels: Levels, list: seq<Sensor>): Levels
    decreases |list|
  {
    if list == [] then levels
    else WithLevels(WithLevel(levels, list[0].key.address, LevelOf(list[0].value)), list[1..])
  }

  /** What one request of all nodes leaves. */
  ghost function AfterRequest(net: Net, levels: Levels, nodes: seq<u8>): Levels {
    WithLevels(levels, Seen(net, BEAMED, 0, nodes))
  }

  /** `s` gives `a` a level. */
  ghost predicate GivesLevel(s: Sensor, a: u8) {
    s.key.address == a && LevelOf(s.value) != 0
  }

  ghost predicate Agree(list: seq<Sensor>) {
    forall s, t :: s in list && t in list && s.key.address == t.key.address ==> s == t
  }

  ghost predicate SameAt(before: Levels, after: Levels, a: u8) {
    (a in after <==> a in before) && (a in after ==> after[a] == before[a])
  }

  lemma {:induction false} LevelKept(levels: Levels, list: seq<Sensor>, a: u8)
    requires forall s :: s in list ==> !GivesLevel(s, a)
    ensures SameAt(levels, WithLevels(levels, list), a)
    decreases |list|
  {
    if list != [] {
      assert !GivesLevel(list[0], a);
      LevelKept(WithLevel(levels, list[0].key.address, LevelOf(list[0].value)), list[1..], a);
    }
  }

  lemma {:induction false} LevelGiven(levels: Levels, list: seq<Sensor>, s: Sensor)
    requires Agree(list) && s in list && LevelOf(s.value) != 0
    ensures var after := WithLevels(levels, list);
      s.key.address in after && after[s.key.address] == LevelOf(s.value)
    decreases |list|
  {
    var next, rest := WithLevel(levels, list[0].key.address, LevelOf(list[0].value)), list[1..];
    if s in rest {
      LevelGiven(next, rest, s);
    } else {
      assert s == list[0];
      LevelKept(next, rest, s.key.address);
    }
  }

  lemma AgainSameAt(levels: Levels, list: seq<Sensor>, a: u8)
    requires Agree(list)
    ensures var once := WithLevels(levels, list); SameAt(once, WithLevels(once, list), a)
  {
    var once := WithLevels(levels, list);
    if s :| s in list && GivesLevel(s, a) {
      LevelGiven(levels, list, s);
      LevelGiven(once, list, s);
    } else {
      LevelKept(once, list, a);
    }
  }

  /** Asking again changes nothing. */
  lemma AgainSame(levels: Levels, list: seq<Sensor>)
    requires Agree(list)
    ensures var once := WithLevels(levels, list); WithLevels(once, list) == once
  {
    var once := WithLevels(levels, list);
    var twice := WithLevels(once, list);
    forall a: u8 ensures a in twice <==> a in once
                 ensures a in once ==> twice[a] == once[a]
    {
      AgainSameAt(levels, list, a);
    }
    assert twice.Keys == once.Keys;
  }

  /** The entries of one request: one for each device that reports and whose slot is fetched. */
  lemma SeenMember(net: Net, nodes: seq<u8>, s: Sensor)
    requires Increasing(nodes)
    ensures s in Seen(net, BEAMED, 0, nodes) <==>
              exists k :: 0 <= k < |nodes| && Reports(net, nodes, k) && s == ReportOf(net, nodes, k)
  {
    SeenIsPart(net, BEAMED, 0, nodes, |nodes|);
    PartMembers(net, BEAMED, 0, nodes, |nodes|, true, s);
    if s in Seen(net, BEAMED, 0, nodes) {
      var k :| 0 <= k < |nodes| && s in One(net, BEAMED, 0, nodes, k, true);
      assert Reports(net, nodes, k) && s == ReportOf(net, nodes, k);
    } else {
      forall k | 0 <= k < |nodes| && Reports(net, nodes, k) ensures s != ReportOf(net, nodes, k) {
        assert ReportOf(net, nodes, k) in One(net, BEAMED, 0, nodes, k, true);
      }
    }
  }

  ghost predicate Reports(net: Net, nodes: seq<u8>, k: nat)
    requires k < |nodes|
  {
    Reading(net, BEAMED, 0, nodes, k).Some?
  }

  ghost function ReportOf(net: Net, nodes: seq<u8>, k: nat): Sensor
    requires k < |nodes|
  {
    Sensor(Key(nodes[k], BEAMED, 0), Reading(net, BEAMED, 0, nodes, k))
  }

  lemma SeenAgree(net: Net, nodes: seq<u8>)
    requires Increasing(nodes)
    ensures Agree(Seen(net, BEAMED, 0, nodes))
  {
    forall s, t | s in Seen(net, BEAMED, 0, nodes) && t in Seen(net, BEAMED, 0, nodes) &&
                  s.key.address == t.key.address
      ensures s == t
    {
      SeenMember(net, nodes, s);
      SeenMember(net, nodes, t);
    }
  }

  // ---------------------------------------------------------------- which devices are heard

  /** The k-th device sends a level, and its byte is within the bytes that are fetched. */
  ghost predicate Heard(net: Net, nodes: seq<u8>, k: nat)
    requires k < |nodes|
  {
    var key := Key(nodes[k], BEAMED, 0);
    key in net.field && LevelOf(Some(net.field[key])) != 0 && k < PIECE && !(k == FIRST_ANSWER - 1 == |nodes| - 1)
  }

  lemma HeardIff(net: Net, nodes: seq<u8>, k: nat)
    requires k < |nodes|
    ensures Heard(net, nodes, k) <==> Reports(net, nodes, k) && LevelOf(Reading(net, BEAMED, 0, nodes, k)) != 0
  {
  }

  /** After the loop each device that was heard has its own level, and every other address what it had before. */
  lemma OwnLevel(net: Net, levels: Levels, nodes: seq<u8>, a: u8)
    requires Increasing(nodes)
    ensures var after := AfterRequest(net, levels, nodes);
      if exists k :: 0 <= k < |nodes| && nodes[k] == a && Heard(net, nodes, k)
      then a in after && Key(a, BEAMED, 0) in net.field &&
           after[a] == LevelOf(Some(net.field[Key(a, BEAMED, 0)]))
      else SameAt(levels, after, a)
  {
    var seen := Seen(net, BEAMED, 0, nodes);
    if k :| 0 <= k < |nodes| && nodes[k] == a && Heard(net, nodes, k) {
      HeardIff(net, nodes, k);
      SeenAgree(net, nodes);
      SeenMember(net, nodes, ReportOf(net, nodes, k));
      LevelGiven(levels, seen, ReportOf(net, nodes, k));
    } else {
      forall s | s in seen ensures !GivesLevel(s, a) {
        SeenMember(net, nodes, s);
        var k :| 0 <= k < |nodes| && Reports(net, nodes, k) && s == ReportOf(net, nodes, k);
        HeardIff(net, nodes, k);
      }
      LevelKept(levels, seen, a);
    }
  }

  /** Every device that sends a level has it in the end. */
  ghost predicate Complete(net: Net, nodes: seq<u8>) {
    forall k :: 0 <= k < |nodes| ==> Obtained(net, nodes, k)
  }

  ghost predicate Obtained(net: Net, nodes: seq<u8>, k: nat)
    requires k < |nodes|
  {
    var key := Key(nodes[k], BEAMED, 0);
    key in net.field && LevelOf(Some(net.field[key])) != 0 ==> nodes[k] in AfterRequest(net, map[], nodes)
  }

  lemma Missed(net: Net, nodes: seq<u8>, k: nat)
    requires Increasing(nodes) && k < |nodes| && net.field == map[Key(nodes[k], BEAMED, 0) := 0]
    requires k >= PIECE || k == FIRST_ANSWER - 1 == |nodes| - 1
    ensures !Obtained(net, nodes, k)
  {
    assert LevelOf(Some(0)) == OFFSET;
    OwnLevel(net, map[], nodes, nodes[k]);
  }

  /** In every network all levels are obtained exactly for at most 63 nodes other than 55. */
  lemma CompleteIff(nodes: seq<u8>)
    requires Increasing(nodes)
    ensures (forall net :: Complete(net, nodes)) <==> |nodes| <= PIECE && |nodes| != FIRST_ANSWER
  {
    if |nodes| <= PIECE && |nodes| != FIRST_ANSWER {
      forall net ensures Complete(net, nodes) {
        forall k | 0 <= k < |nodes| ensures Obtained(net, nodes, k) {
          OwnLevel(net, map[], nodes, nodes[k]);
        }
      }
    } else {
      var k := if |nodes| == FIRST_ANSWER then FIRST_ANSWER - 1 else PIECE;
      var net := Net(map[Key(nodes[k], BEAMED, 0) := 0], {});
      Missed(net, nodes, k);
      assert !Complete(net, nodes);
    }
  }

  /** The set is asked once exactly when it fits one piece. */
  lemma AskedOncePerPiece(nodes: seq<u8>)
    ensures |Pieces(nodes)| <= 1 <==> |nodes| <= PIECE
  {
    if |nodes| >= PIECE {
      var q := Quotient(|nodes|, PIECE);
      assert Pieces(nodes) == [nodes[..PIECE]] + Chunks(nodes[PIECE..], PIECE, q - 1);
    }
  }

  /** The nodes 1 to 64 are asked twice, and node 64 is not heard either time. */
  lemma LastNodeUnheardExample(net: Net)
    requires net.field == map[Key(64, BEAMED, 0) := 0]
    ensures |Pieces(UpTo(64))| == 2 && AfterRequest(net, map[], UpTo(64)) == map[]
  {
    var nodes := UpTo(64);
    var tail := nodes[PIECE..];
    assert Quotient(1, PIECE) == 0 && Quotient(64, PIECE) == 1;
    assert Pieces(nodes) == [nodes[..PIECE]] + Chunks(tail, PIECE, 0);
    forall a ensures a !in AfterRequest(net, map[], nodes) {
      OwnLevel(net, map[], nodes, a);
    }
  }

  // ---------------------------------------------------------------- the service

  class RssiReader {
    const reader: SensorReader
    var levels: Levels

    constructor (reader: SensorReader)
      ensures this.reader == reader && levels == map[]
    {
      this.reader, levels := reader, map[];
    }

    method SetDeviceRssi(address: u8, rssi: u8)
      modifies this
      ensures levels == WithLevel(old(levels), address, rssi)
    {
      if rssi == 0 {
        return;
      }
      levels := levels[address := rssi];
    }

    method SetAll(list: seq<Sensor>)
      modifies this
      ensures levels == WithLevels(old(levels), list)
    {
      assert list[0..] == list;
      for i := 0 to |list|
        invariant WithLevels(levels, list[i..]) == WithLevels(old(levels), list)
      {
        assert list[i..][1..] == list[i + 1..];
        SetDeviceRssi(list[i].key.address, LevelOf(list[i].value));
      }
    }

    /** Asks the whole set once per piece; the levels are those that one request yields. */
    method GetRssiBeaming(nodes: seq<u8>) returns (requests: nat)
      requires Increasing(nodes)
      modifies this
      ensures requests == |Pieces(nodes)|
      ensures levels == AfterRequest(reader.net, old(levels), nodes)
    {
      var nodeVectors := reader.SplitSet(nodes, PIECE);
      ghost var after := AfterRequest(reader.net, levels, nodes);
      SeenAgree(reader.net, nodes);
      AgainSame(levels, Seen(reader.net, BEAMED, 0, nodes));
      requests := 0;
      while requests < |nodeVectors|
        invariant requests <= |nodeVectors|
        invariant levels == if requests == 0 then old(levels) else after
      {
        var rssiData := reader.SendSensorFrc(BEAMED, 0, nodes, false);
        SetAll(rssiData);
        requests := requests + 1;
      }
      assert nodes == [] ==> Seen(reader.net, BEAMED, 0, nodes) == [];
    }
  }
}
