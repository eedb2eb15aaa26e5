/** The mesh as the daemon sees it: bit-per-node maps, and the coordinator's answer to a fast response command. */
module Radio {
  import opened Common

  const MAX_ADDRESS: nat := 239
  /** Bytes of a node selection, one bit per address 0..239. */
  const SELECTION_SIZE: nat := 30
  /** Bytes of a fast response: the first answer carries 55, the extra result the remaining 9. */
  const FRC_SIZE: nat := 64
  const FRC_FIRST: nat := 55
  /** A fast response with this status, or a greater one, is an error. */
  const FRC_ERROR: u8 := 0xEF
  /** Where a node keeps its answer to the embedded request. */
  const MEMORY_ADDRESS: u16 := 0x04a0

  // ---------------------------------------------------------------- node bitmaps

  /** A byte of a bitmap, bit 0 first. */
  type Octet = s: seq<bool> | |s| == 8 witness NO_BITS

  const NO_BITS: seq<bool> := [false, false, false, false, false, false, false, false]

  predicate HasBit(bitmap: seq<Octet>, a: nat) {
    a / 8 < |bitmap| && bitmap[a / 8][a % 8]
  }

  /** The addresses whose bit is set. */
  function Selected(bitmap: seq<Octet>): (s: set<u8>) {
    set a: u8 | a <= MAX_ADDRESS && HasBit(bitmap, a)
  }

  lemma SameAddress(a: nat, c: nat)
    ensures a == c <==> a / 8 == c / 8 && a % 8 == c % 8
  {
    assert a == 8 * (a / 8) + a % 8 && c == 8 * (c / 8) + c % 8;
  }

  /** Setting the bit of one address sets no other. */
  lemma SetBit(bitmap: seq<Octet>, next: seq<Octet>, a: nat, c: nat)
    requires a / 8 < |bitmap| && next == bitmap[a / 8 := bitmap[a / 8][a % 8 := true]]
    ensures HasBit(next, c) <==> c == a || HasBit(bitmap, c)
  {
    SameAddress(a, c);
  }

  /** The bitmap of `count` nodes of a set, starting with its `idx`-th in address order. */
  method SelectNodes(nodes: set<u8>, idx: nat, count: nat) returns (selected: array<Octet>)
    requires forall a :: a in nodes ==> a <= MAX_ADDRESS
    requires idx + count <= |Ascending(nodes)|
    ensures fresh(selected) && selected.Length == SELECTION_SIZE
    ensures Ascending(Selected(selected[..])) == Ascending(nodes)[idx..idx + count]
    ensures forall a: nat :: a < 240 ==>
              (selected[a / 8][a % 8] <==> a in Ascending(nodes)[idx..idx + count])
  {
    selected := new Octet[SELECTION_SIZE](_ => NO_BITS);
    var order := Ascending(nodes);
    var it := idx;
    while it != idx + count
      invariant idx <= it <= idx + count
      invariant forall c: nat :: HasBit(selected[..], c) <==> c in order[idx..it]
      decreases idx + count - it
    {
      var a := order[it];
      assert a in order;
      ghost var before := selected[..];
      selected[a / 8] := selected[a / 8][a % 8 := true];
      forall c: nat ensures HasBit(selected[..], c) <==> c == a || HasBit(before, c) {
        SetBit(before, selected[..], a, c);
      }
      assert order[idx..it + 1] == order[idx..it] + [a];
      it := it + 1;
    }
    var part := order[idx..it];
    assert forall a :: a in part ==> a in order;
    AscendingUnique(Selected(selected[..]), part);
  }

  // ---------------------------------------------------------------- nodes and coordinator

  /** Embedded requests a node answers into its memory. */
  datatype Request = OsRead | PerInfo

  /** The answers a node gives; bytes past their end read as zero. */
  datatype Node = Node(osRead: seq<u8>, perInfo: seq<u8>)

  /** A network during one round.
      `ping` is the bitmap returned by the ping command; `filler` is whatever fills the coordinator's slot, the slots of
      silent nodes and the unused slots; `statuses` holds the status of each command that reads at an offset from a set
      of nodes (0xFF if the coordinator gave none), zero where nothing is said. */
  datatype Mesh = Mesh(ping: seq<Octet>, pingStatus: u8, nodes: map<u8, Node>, filler: seq<u8>,
                       statuses: map<(Request, nat, set<u8>), u8>)
  {
    predicate Responds(a: u8) {
      0 < a <= MAX_ADDRESS && HasBit(ping, a)
    }

    /** Byte `k` of what node `a` answers to `r`. */
    function Answer(a: u8, r: Request, k: nat): u8 {
      if a !in nodes then 0 else ByteAt(if r.OsRead? then nodes[a].osRead else nodes[a].perInfo, k)
    }

    function Status(r: Request, offset: nat, s: set<u8>): u8 {
      if (r, offset, s) in statuses then statuses[(r, offset, s)] else 0
    }

    /** No command of this round ends with an error status. */
    ghost predicate Quiet() {
      pingStatus < FRC_ERROR && forall r, offset, s :: Status(r, offset, s) < FRC_ERROR
    }

    static function ByteAt(s: seq<u8>, k: nat): u8 {
      if k < |s| then s[k] else 0
    }

    /** The 64 bytes the coordinator collects when it asks the selected nodes for four memory bytes:
        slot 0 is its own, and the k-th selected node in address order fills slot k. */
    function Collected(bitmap: seq<Octet>, r: Request, address: u16): (s: seq<u8>)
      requires MEMORY_ADDRESS <= address
      ensures |s| == FRC_SIZE
    {
      var order := Ascending(Selected(bitmap));
      seq(FRC_SIZE, (j: int) requires 0 <= j < FRC_SIZE => SlotByte(order, r, address - MEMORY_ADDRESS, j))
    }

    function SlotByte(order: seq<u8>, r: Request, offset: nat, j: nat): u8 {
      if 0 < j / 4 <= |order| && Responds(order[j / 4 - 1]) then Answer(order[j / 4 - 1], r, offset + j % 4)
      else ByteAt(filler, j)
    }
  }

  /** A node answers each request with the bytes it keeps for it. */
  lemma AnswerIs(mesh: Mesh, a: u8, k: nat)
    requires a in mesh.nodes
    ensures k < |mesh.nodes[a].osRead| ==> mesh.Answer(a, OsRead, k) == mesh.nodes[a].osRead[k]
    ensures k < |mesh.nodes[a].perInfo| ==> mesh.Answer(a, PerInfo, k) == mesh.nodes[a].perInfo[k]
    ensures k >= |mesh.nodes[a].osRead| ==> mesh.Answer(a, OsRead, k) == 0
    ensures k >= |mesh.nodes[a].perInfo| ==> mesh.Answer(a, PerInfo, k) == 0
  {
  }
}
