/** Machine integers, optional values, and the ordered byte sets the daemon iterates over. */
module Common {

  type u8 = x: int | 0 <= x < 0x100
  type u16 = x: int | 0 <= x < 0x1_0000
  type u32 = x: int | 0 <= x < 0x1_0000_0000

  const U8_COUNT: nat := 0x100

  datatype Option<+T> = None | Some(value: T)

  /** A little-endian word as the radio modules lay it out. */
  function Word(lo: u8, hi: u8): u16 {
    (lo as int) + 0x100 * (hi as int)
  }

  /** A word sent high byte first. */
  function BigEndian(hi: u8, lo: u8): u16 {
    0x100 * (hi as int) + lo as int
  }

  // ---------------------------------------------------------------- ordered sets of addresses

  ghost predicate Increasing(s: seq<int>) {
    forall i, j :: 0 <= i < j < |s| ==> s[i] < s[j]
  }

  /** The members of `s` below `n` in increasing order. */
  function AscendingBelow(s: set<u8>, n: nat): (r: seq<u8>)
    requires n <= U8_COUNT
    ensures Increasing(r)
    ensures forall x :: x in r <==> x in s && x < n
  {
    if n == 0 then []
    else
      var r := AscendingBelow(s, n - 1);
      assert forall i :: 0 <= i < |r| ==> r[i] in r;
      r + (if n - 1 in s then [n - 1] else [])
  }

  /** The order in which a `std::set<uint8_t>` is traversed. */
  function Ascending(s: set<u8>): (r: seq<u8>)
    ensures Increasing(r)
    ensures forall x :: x in r <==> x in s
  {
    AscendingBelow(s, U8_COUNT)
  }

  lemma LastGreatest(a: seq<int>, x: int)
    requires Increasing(a) && x in a
    ensures x <= a[|a| - 1]
  {
  }

  lemma PrefixMembers(a: seq<int>, x: int)
    requires Increasing(a) && a != []
    ensures x in a[..|a| - 1] <==> x in a && x != a[|a| - 1]
  {
    var n := |a| - 1;
    assert a == a[..n] + [a[n]];
  }

  /** A set has only one increasing enumeration. */
  lemma {:induction false} IncreasingUnique(a: seq<int>, b: seq<int>)
    requires Increasing(a) && Increasing(b)
    requires forall x :: x in a <==> x in b
    ensures a == b
    decreases |a|
  {
    assert a != [] ==> a[0] in a;
    assert b != [] ==> b[0] in b;
    if a != [] {
      var n, m := |a| - 1, |b| - 1;
      LastGreatest(b, a[n]);
      LastGreatest(a, b[m]);
      forall x ensures x in a[..n] <==> x in b[..m] {
        PrefixMembers(a, x);
        PrefixMembers(b, x);
      }
      IncreasingUnique(a[..n], b[..m]);
      assert a == a[..n] + [a[n]] && b == b[..m] + [b[m]];
    }
  }

  lemma AscendingUnique(s: set<u8>, a: seq<u8>)
    requires Increasing(a) && forall x :: x in a <==> x in s
    ensures Ascending(s) == a
  {
    IncreasingUnique(Ascending(s), a);
  }

  ghost predicate IsLeast(s: set<int>, m: int) {
    m in s && forall x :: x in s ==> m <= x
  }

  ghost predicate IsGreatest(s: set<int>, m: int) {
    m in s && forall x :: x in s ==> x <= m
  }

  /** The first element visited when a `std::set` or the keys of a `std::map` are traversed. */
  function Smallest(s: set<int>): (m: int)
    requires s != {}
    ensures m in s && forall x :: x in s ==> m <= x
  {
    LeastExists(s);
    var m :| m in s && forall x :: x in s ==> m <= x;
    m
  }

  /** The last element visited. */
  function Greatest(s: set<int>): (m: int)
    requires s != {}
    ensures m in s && forall x :: x in s ==> x <= m
  {
    GreatestExists(s);
    var m :| m in s && forall x :: x in s ==> x <= m;
    m
  }

  lemma Member(s: set<int>) returns (y: int)
    requires s != {}
    ensures y in s
  {
    assert (forall x :: x !in s) ==> s == {};
    y :| y in s;
  }

  lemma {:induction false} LeastExists(s: set<int>)
    requires s != {}
    ensures exists m :: IsLeast(s, m)
  {
    var y := Member(s);
    var rest := s - {y};
    assert s == rest + {y};
    if rest == {} {
      assert IsLeast(s, y);
    } else {
      LeastExists(rest);
      var m :| IsLeast(rest, m);
      assert IsLeast(s, if y < m then y else m);
    }
  }

  lemma {:induction false} GreatestExists(s: set<int>)
    requires s != {}
    ensures exists m :: IsGreatest(s, m)
  {
    var y := Member(s);
    var rest := s - {y};
    assert s == rest + {y};
    if rest == {} {
      assert IsGreatest(s, y);
    } else {
      GreatestExists(rest);
      var m :| IsGreatest(rest, m);
      assert IsGreatest(s, if y > m then y else m);
    }
  }
}
