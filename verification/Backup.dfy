/** The network backup container: written by the backup service, read back by the restore service. */
module Backup {
  import opened Common
  import opened CrcSpec
  import opened Crc

  const BLOCK_SIZE: nat := 49
  const HEADER_SIZE: nat := 3

  const NOT_SUPPORTED: int := 1003
  const BAD_SIZE: int := 1004
  const BAD_CHECK: int := 1005
  const NO_ACCESS: int := 1002

  /** 0x5F */
  const CHECK_START: seq<bool> := [false, true, false, true, true, true, true, true]

  type Block = seq<u8>

  // ---------------------------------------------------------------- the container

  /** The exclusive or of some bits and all bytes. */
  function CheckFrom(acc: seq<bool>, s: seq<u8>): (c: seq<bool>)
    requires |acc| == 8
    ensures |c| == 8
    decreases |s|
  {
    if s == [] then acc else CheckFrom(Xor(acc, BitsOf(s[0])), s[1..])
  }

  /** The exclusive or of all payload bytes and the start value, as bits. */
  function Check(payload: seq<u8>): (c: seq<bool>)
    ensures |c| == 8
  {
    CheckFrom(CHECK_START, payload)
  }

  function ByteOf(bits: seq<bool>): (r: u8)
    requires |bits| == 8
    ensures BitsOf(r) == bits
  {
    ByteBits(bits);
    Value(bits)
  }

  function Payload(blocks: seq<Block>): seq<u8> {
    if blocks == [] then [] else Payload(blocks[..|blocks| - 1]) + blocks[|blocks| - 1]
  }

  /** The eight-bit index after reading all blocks. */
  function IndexAfter(blocks: seq<Block>): u8 {
    |blocks| % 0x100
  }

  /** Block count, low byte first, XOR check and blocks. */
  function Container(blocks: seq<Block>): seq<u8> {
    [IndexAfter(blocks), 0, ByteOf(Check(Payload(blocks)))] + Payload(blocks)
  }

  function BlockCount(blob: seq<u8>): nat
    requires |blob| >= 2
  {
    (blob[1] as int) * 0x100 + blob[0] as int
  }

  ghost predicate Accepted(blob: seq<u8>) {
    && |blob| >= HEADER_SIZE
    && |blob| == HEADER_SIZE + BLOCK_SIZE * BlockCount(blob)
    && BitsOf(blob[2]) == Check(blob[HEADER_SIZE..])
  }

  ghost predicate AllBlocks(blocks: seq<Block>) {
    forall i :: 0 <= i < |blocks| ==> |blocks[i]| == BLOCK_SIZE
  }

  lemma {:induction false} PayloadSize(blocks: seq<Block>)
    requires AllBlocks(blocks)
    ensures |Payload(blocks)| == BLOCK_SIZE * |blocks|
  {
    if blocks != [] { PayloadSize(blocks[..|blocks| - 1]); }
  }

  /** The k-th block stands at its place in the payload. */
  lemma {:induction false} PayloadAt(blocks: seq<Block>, k: nat)
    requires AllBlocks(blocks) && k < |blocks|
    ensures |Payload(blocks)| == BLOCK_SIZE * |blocks|
    ensures Payload(blocks)[BLOCK_SIZE * k..BLOCK_SIZE * (k + 1)] == blocks[k]
    decreases |blocks|
  {
    var n := |blocks| - 1;
    PayloadSize(blocks);
    PayloadSize(blocks[..n]);
    if k < n {
      PayloadAt(blocks[..n], k);
      assert Payload(blocks)[BLOCK_SIZE * k..BLOCK_SIZE * (k + 1)] ==
          Payload(blocks[..n])[BLOCK_SIZE * k..BLOCK_SIZE * (k + 1)];
    }
  }

  /** Exchanging the byte `b` of a sum for `v` adds their difference. */
  lemma XorExchange(a: seq<bool>, b: seq<bool>, v: seq<bool>)
    requires |a| == |b| == |v|
    ensures Xor(a, v) == Xor(Xor(a, b), Xor(b, v))
  {
  }

  lemma XorSwap(a: seq<bool>, b: seq<bool>, v: seq<bool>)
    requires |a| == |b| == |v|
    ensures Xor(Xor(a, v), b) == Xor(Xor(a, b), v)
  {
  }

  /** Adding the difference of two different bytes changes every sum. */
  lemma XorDiffers(a: seq<bool>, b: seq<bool>, v: seq<bool>)
    requires |a| == |b| == |v| && b != v
    ensures Xor(a, Xor(b, v)) != a
  {
    var i :| 0 <= i < |a| && b[i] != v[i];
    assert Xor(a, Xor(b, v))[i] != a[i];
  }

  lemma BitsDiffer(b: u8, v: u8)
    requires b != v
    ensures BitsOf(b) != BitsOf(v)
  {
    ByteRange();
    ValueOfBits(b, BYTE_BITS);
    ValueOfBits(v, BYTE_BITS);
  }

  /** A difference at the start is a difference at the end. */
  lemma {:induction false} CheckLinear(acc: seq<bool>, d: seq<bool>, s: seq<u8>)
    requires |acc| == |d| == 8
    ensures CheckFrom(Xor(acc, d), s) == Xor(CheckFrom(acc, s), d)
    decreases |s|
  {
    if s != [] {
      var b := BitsOf(s[0]);
      XorSwap(acc, b, d);
      CheckLinear(Xor(acc, b), d, s[1..]);
    }
  }

  /** Replacing one byte changes the check by the difference of the two bytes. */
  lemma {:induction false} CheckOfChange(acc: seq<bool>, s: seq<u8>, i: nat, v: u8)
    requires |acc| == 8 && i < |s|
    ensures CheckFrom(acc, s[i := v]) == Xor(CheckFrom(acc, s), Xor(BitsOf(s[i]), BitsOf(v)))
    decreases |s|
  {
    var b := BitsOf(s[0]);
    if i == 0 {
      assert s[i := v][1..] == s[1..];
      XorExchange(acc, b, BitsOf(v));
      CheckLinear(Xor(acc, b), Xor(b, BitsOf(v)), s[1..]);
    } else {
      assert s[i := v][1..] == s[1..][i - 1 := v];
      CheckOfChange(Xor(acc, b), s[1..], i - 1, v);
    }
  }

  lemma PayloadChangeRejected(blob: seq<u8>, i: nat, v: u8)
    requires Accepted(blob) && HEADER_SIZE <= i < |blob| && v != blob[i]
    ensures !Accepted(blob[i := v])
  {
    assert blob[i := v][HEADER_SIZE..] == blob[HEADER_SIZE..][i - HEADER_SIZE := v];
    CheckOfChange(CHECK_START, blob[HEADER_SIZE..], i - HEADER_SIZE, v);
    BitsDiffer(blob[i], v);
    XorDiffers(BitsOf(blob[2]), BitsOf(blob[i]), BitsOf(v));
  }

  lemma CountChangeRejected(blob: seq<u8>, i: nat, v: u8)
    requires Accepted(blob) && i < 2 && v != blob[i]
    ensures !Accepted(blob[i := v])
  {
    assert blob[i := v][0] != blob[0] || blob[i := v][1] != blob[1];
  }

  /** No single changed byte, in header or payload, goes unnoticed. */
  lemma SingleByteRejected(blob: seq<u8>, i: nat, v: u8)
    requires Accepted(blob) && i < |blob| && v != blob[i]
    ensures !Accepted(blob[i := v])
  {
    if i < 2 {
      CountChangeRejected(blob, i, v);
    } else if i == 2 {
      assert blob[i := v][HEADER_SIZE..] == blob[HEADER_SIZE..];
      BitsDiffer(blob[2], v);
    } else {
      PayloadChangeRejected(blob, i, v);
    }
  }

  lemma ContainerParts(blocks: seq<Block>)
    requires AllBlocks(blocks)
    ensures var blob := Container(blocks);
      && |blob| == HEADER_SIZE + BLOCK_SIZE * |blocks| && blob[HEADER_SIZE..] == Payload(blocks)
      && BlockCount(blob) == |blocks| % 0x100 && BitsOf(blob[2]) == Check(blob[HEADER_SIZE..])
  {
    PayloadSize(blocks);
    assert Container(blocks)[HEADER_SIZE..] == Payload(blocks);
  }

  /** A container is accepted exactly when its block count fits the eight-bit index. */
  lemma ContainerAcceptedIff(blocks: seq<Block>)
    requires AllBlocks(blocks)
    ensures Accepted(Container(blocks)) <==> |blocks| < 0x100
  {
    ContainerParts(blocks);
    AcceptedWhen(Container(blocks), |blocks|);
  }

  lemma AcceptedWhen(blob: seq<u8>, n: nat)
    requires |blob| == HEADER_SIZE + BLOCK_SIZE * n && BlockCount(blob) == n % 0x100
    requires BitsOf(blob[2]) == Check(blob[HEADER_SIZE..])
    ensures Accepted(blob) <==> n < 0x100
  {
    SameSize(n, n % 0x100);
  }

  lemma SameSize(n: nat, count: nat)
    ensures BLOCK_SIZE * n == BLOCK_SIZE * count <==> n == count
  {
  }

  /** A container as the restore service reads it: the block count in sixteen bits, low byte first, the check, and
      blocks of 49 bytes. Up to 65535 blocks it is accepted, with exactly that count. */
  lemma WideContainerAccepted(blocks: seq<Block>, blob: seq<u8>)
    requires |blocks| < 0x1_0000 && forall i :: 0 <= i < |blocks| ==> |blocks[i]| == 49
    requires blob == [|blocks| % 0x100, |blocks| / 0x100, ByteOf(Check(Payload(blocks)))] + Payload(blocks)
    ensures Accepted(blob) && BlockCount(blob) == |blocks| && blob[3..] == Payload(blocks)
  {
    PayloadSize(blocks);
    assert blob[HEADER_SIZE..] == Payload(blocks);
  }

  /** Whatever is accepted has that form. */
  lemma AcceptedIsWide(blob: seq<u8>)
    requires Accepted(blob)
    ensures |blob| == 3 + 49 * (0x100 * (blob[1] as int) + blob[0] as int)
    ensures BlockCount(blob) % 0x100 == blob[0] && BlockCount(blob) / 0x100 == blob[1]
    ensures blob[2] == ByteOf(Check(blob[3..]))
  {
    ByteOfBits(blob[2], Check(blob[3..]));
    Halves(blob[0], blob[1]);
  }

  lemma Halves(lo: u8, hi: u8)
    ensures ((hi as int) * 0x100 + lo as int) % 0x100 == lo && ((hi as int) * 0x100 + lo as int) / 0x100 == hi
  {
  }

  lemma ByteOfBits(b: u8, bits: seq<bool>)
    requires |bits| == 8 && BitsOf(b) == bits
    ensures b == ByteOf(bits)
  {
    if b != ByteOf(bits) {
      BitsDiffer(b, ByteOf(bits));
    }
  }

  /** Without any byte the check is its start value. */
  lemma CheckOfNothing()
    ensures ByteOf(Check([])) == 0x5F
  {
    ByteOfBits(0x5F, Check([]));
  }

  function Copies(block: Block, n: nat): (blocks: seq<Block>)
    ensures |blocks| == n && forall i :: 0 <= i < n ==> blocks[i] == block
  {
    if n == 0 then [] else Copies(block, n - 1) + [block]
  }

  /** 256 blocks are counted as none, and refused. */
  lemma WrappedExample(block: Block)
    requires |block| == BLOCK_SIZE
    ensures BlockCount(Container(Copies(block, 0x100))) == 0 && !Accepted(Container(Copies(block, 0x100)))
  {
    var blocks := Copies(block, 0x100);
    ContainerParts(blocks);
    ContainerAcceptedIff(blocks);
  }

  /** After the blocks sent before, the payload follows cut into `count` blocks. */
  ghost predicate SentAll(before: seq<Block>, sent: seq<Block>, payload: seq<u8>, count: nat)
    requires |payload| == BLOCK_SIZE * count
  {
    && |sent| == |before| + count && sent[..|before|] == before
    && forall k :: 0 <= k < count ==> sent[|before| + k] == payload[BLOCK_SIZE * k..BLOCK_SIZE * (k + 1)]
  }

  lemma SentBlocks(blocks: seq<Block>, before: seq<Block>, sent: seq<Block>)
    requires AllBlocks(blocks) && |Payload(blocks)| == BLOCK_SIZE * |blocks|
    requires SentAll(before, sent, Payload(blocks), |blocks|)
    ensures sent == before + blocks
  {
    forall k | 0 <= k < |blocks| ensures sent[|before| + k] == blocks[k] {
      PayloadAt(blocks, k);
    }
  }

  // ---------------------------------------------------------------- the services

  /** A device under backup: each block ends with the number of blocks still to come, so only the last one ends
      with 0. */
  ghost predicate Readable(blocks: seq<Block>) {
    && 0 < |blocks| <= 0x100
    && AllBlocks(blocks)
    && forall i :: 0 <= i < |blocks| ==> (blocks[i][BLOCK_SIZE - 1] == 0 <==> i == |blocks| - 1)
  }

  /** Reads blocks until none remains, behind an empty header. */
  method ReadBlocks(blocks: seq<Block>) returns (index: u8, backupData: seq<u8>)
    requires Readable(blocks)
    ensures index == IndexAfter(blocks)
    ensures |backupData| >= HEADER_SIZE && backupData[HEADER_SIZE..] == Payload(blocks)
  {
    index := 0;
    backupData := [0, 0, 0];
    var remaining := true;
    ghost var k := 0;
    while remaining
      invariant 0 <= k <= |blocks| && index == if k == 0x100 then 0 else k
      invariant remaining <==> k < |blocks|
      invariant |backupData| >= HEADER_SIZE && backupData[HEADER_SIZE..] == Payload(blocks[..k])
      decreases |blocks| - k
    {
      var block := blocks[index];
      remaining := block[BLOCK_SIZE - 1] != 0;
      backupData := backupData + block;
      assert blocks[..k + 1][..k] == blocks[..k];
      index := if index == 0xFF then 0 else index + 1;
      k := k + 1;
    }
    assert blocks[..k] == blocks;
  }

  /** The blocks, with count and check patched into the header. */
  method ReadBackupData(blocks: seq<Block>) returns (backupData: seq<u8>)
    requires Readable(blocks)
    ensures backupData == Container(blocks)
  {
    var index: u8;
    index, backupData := ReadBlocks(blocks);
    var crc8 := Crc8(backupData);
    var low := backupData[0 := index];
    var high := low[1 := 0];
    HeaderPatched(backupData, low, high, index, 0, ByteOf(crc8));
    backupData := high[2 := ByteOf(crc8)];
  }

  lemma HeaderPatched(raw: seq<u8>, low: seq<u8>, high: seq<u8>, a: u8, b: u8, c: u8)
    requires |raw| >= HEADER_SIZE && low == raw[0 := a] && high == low[1 := b]
    ensures high[2 := c] == [a, b, c] + raw[HEADER_SIZE..]
  {
  }

  /** The XOR check over everything after the header. */
  method Crc8(backupData: seq<u8>) returns (crc8: seq<bool>)
    requires |backupData| >= HEADER_SIZE
    ensures |crc8| == 8 && crc8 == Check(backupData[HEADER_SIZE..])
  {
    crc8 := CHECK_START;
    for i := HEADER_SIZE to |backupData|
      invariant |crc8| == 8 && CheckFrom(crc8, backupData[i..]) == Check(backupData[HEADER_SIZE..])
    {
      assert backupData[i..][1..] == backupData[i + 1..];
      crc8 := Xor(crc8, BitsOf(backupData[i]));
    }
  }

  datatype Outcome = Restored | Rejected(code: int) | Aborted

  class Restorer {
    /** Blocks sent to the device so far. */
    var sent: seq<Block>

    constructor ()
      ensures sent == []
    {
      sent := [];
    }

    /** Sends the payload block by block. The loop body runs before it looks at the count: without any block it sends a
        packet of leftovers, and then fails when it looks for the second block. */
    method WriteBackupData(networkData: seq<u8>, leftovers: Block, ghost count: nat) returns (ok: bool)
      requires |networkData| == BLOCK_SIZE * count && |leftovers| == BLOCK_SIZE
      modifies this
      ensures ok <==> count > 0
      ensures ok ==> SentAll(old(sent), sent, networkData, count)
      ensures !ok ==> sent == old(sent) + [leftovers]
    {
      var offset := 0;
      var restoreCycles: int := |networkData| / BLOCK_SIZE;
      var first := true;
      ghost var k: nat := 0;
      while first || restoreCycles != 0
        invariant offset == BLOCK_SIZE * k && restoreCycles == count - k
        invariant first <==> k == 0
        invariant k <= count || (count == 0 && k == 1)
        invariant |sent| == |old(sent)| + k && sent[..|old(sent)|] == old(sent)
        invariant count > 0 ==> forall j :: 0 <= j < k ==>
            sent[|old(sent)| + j] == networkData[BLOCK_SIZE * j..BLOCK_SIZE * (j + 1)]
        invariant count == 0 && k == 1 ==> sent == old(sent) + [leftovers]
        decreases count + 1 - k
      {
        if offset > |networkData| {
          return false;
        }
        var length := if |networkData| - offset < BLOCK_SIZE then |networkData| - offset else BLOCK_SIZE;
        var block := networkData[offset..offset + length] + leftovers[length..];
        assert length == 0 ==> block == leftovers;
        assert length == BLOCK_SIZE ==> block == networkData[offset..offset + BLOCK_SIZE];
        sent := sent + [block];
        offset := offset + BLOCK_SIZE;
        restoreCycles := restoreCycles - 1;
        first := false;
        k := k + 1;
      }
      ok := true;
    }

    /** Checks the container and writes it back. Only the coordinator can be restored. */
    method Restore(deviceAddress: u8, backupData: seq<u8>, access: bool, leftovers: Block) returns (r: Outcome)
      requires |leftovers| == BLOCK_SIZE
      modifies this
      ensures r == Rejected(1003) <==> deviceAddress != 0
      ensures r == Rejected(1004) <==>
              deviceAddress == 0 && !(|backupData| >= HEADER_SIZE &&
                  |backupData| == HEADER_SIZE + BLOCK_SIZE * BlockCount(backupData))
      ensures r == Rejected(1005) <==>
              deviceAddress == 0 && |backupData| >= HEADER_SIZE &&
              |backupData| == HEADER_SIZE + BLOCK_SIZE * BlockCount(backupData) && !Accepted(backupData)
      ensures r == Rejected(1002) <==> deviceAddress == 0 && Accepted(backupData) && !access
      ensures r.Restored? <==>
              deviceAddress == 0 && Accepted(backupData) && access && BlockCount(backupData) > 0
      ensures r.Aborted? <==>
              deviceAddress == 0 && Accepted(backupData) && access && BlockCount(backupData) == 0
      ensures r.Rejected? ==> sent == old(sent)
      ensures r.Restored? ==> SentAll(old(sent), sent, backupData[HEADER_SIZE..], BlockCount(backupData))
      ensures r.Aborted? ==> sent == old(sent) + [leftovers]
    {
      if deviceAddress != 0 {
        return Rejected(NOT_SUPPORTED);
      }
      // a container too short for its header has no matching length, whatever its missing bytes read as
      if |backupData| < HEADER_SIZE {
        return Rejected(BAD_SIZE);
      }
      var count := BlockCount(backupData);
      if count * BLOCK_SIZE + HEADER_SIZE != |backupData| {
        return Rejected(BAD_SIZE);
      }
      var crc8 := Crc8(backupData);
      if crc8 != BitsOf(backupData[2]) {
        return Rejected(BAD_CHECK);
      }
      if !access {
        return Rejected(NO_ACCESS);
      }
      var ok := WriteBackupData(backupData[HEADER_SIZE..], leftovers, count);
      r := if ok then Restored else Aborted;
    }

    /** Backup followed by restore: up to 255 blocks come back exactly, in order; 256 blocks are refused. */
    method BackupThenRestore(blocks: seq<Block>, leftovers: Block) returns (r: Outcome)
      requires Readable(blocks) && |leftovers| == BLOCK_SIZE
      modifies this
      ensures |blocks| < 0x100 ==> r == Restored && sent == old(sent) + blocks
      ensures |blocks| == 0x100 ==> r == Rejected(1004) && sent == old(sent)
    {
      var blob := ReadBackupData(blocks);
      ContainerParts(blocks);
      ContainerAcceptedIff(blocks);
      r := Restore(0, blob, true, leftovers);
      if |blocks| < 0x100 {
        SentBlocks(blocks, old(sent), sent);
      }
    }
  }
}
