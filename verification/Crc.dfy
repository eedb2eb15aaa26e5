/** Polynomials over GF(2), the CRC-CCITT shift register, and division by its generator.
    Bit sequences are written most significant coefficient first. */
module CrcSpec {

  /** x^12 + x^5 + 1: the generator x^16 + x^12 + x^5 + 1 without its leading term, 0x1021. */
  const P_CCITT: seq<bool> :=
    [false, false, false, true, false, false, false, false, false, false, true, false, false, false, false, true]

  function Xor(a: seq<bool>, b: seq<bool>): (c: seq<bool>)
    requires |a| == |b|
    ensures |c| == |a| && forall i :: 0 <= i < |c| ==> c[i] == (a[i] != b[i])
  {
    seq(|a|, i requires 0 <= i < |a| => a[i] != b[i])
  }

  function Zeros(n: nat): (z: seq<bool>)
    ensures |z| == n && forall i :: 0 <= i < n ==> !z[i]
  {
    seq(n, _ => false)
  }

  /** Schoolbook division: as long as more than sixteen coefficients are left, the leading one is removed,
      subtracting the generator from under it when it is set. */
  function Divide(p: seq<bool>): (r: seq<bool>)
    requires |p| >= 16
    ensures |r| == 16
    decreases |p|
  {
    if |p| == 16 then p
    else if p[0] then Divide(Xor(p[1..17], P_CCITT) + p[17..])
    else Divide(p[1..])
  }

  /** One clock of the shift register with input bit `b`. */
  function Feed(r: seq<bool>, b: bool): (r': seq<bool>)
    requires |r| == 16
    ensures |r'| == 16
  {
    if r[0] != b then Xor(r[1..] + [false], P_CCITT) else r[1..] + [false]
  }

  function Shift(r: seq<bool>, bits: seq<bool>): (r': seq<bool>)
    requires |r| == 16
    ensures |r'| == 16
    decreases |bits|
  {
    if bits == [] then r else Shift(Feed(r, bits[0]), bits[1..])
  }

  // ---------------------------------------------------------------- register = division

  /** `p` with `r` added to its first sixteen coefficients. */
  function AddTop(r: seq<bool>, p: seq<bool>): seq<bool>
    requires |r| == 16 <= |p|
  {
    Xor(r, p[..16]) + p[16..]
  }

  lemma SubtractedAt(r: seq<bool>, p: seq<bool>, i: nat)
    requires |r| == 16 < |p| && i < 16 && r[0] != p[0]
    ensures var q := AddTop(r, p); Xor(q[1..17], P_CCITT)[i] == Xor(Feed(r, p[0]), p[1..17])[i]
  {
    assert Feed(r, p[0])[i] == ((r[1..] + [false])[i] != P_CCITT[i]);
  }

  lemma DivideStep(r: seq<bool>, m: seq<bool>)
    requires |r| == 16 && m != []
    ensures Divide(AddTop(r, m + Zeros(16))) == Divide(AddTop(Feed(r, m[0]), m[1..] + Zeros(16)))
  {
    var p, next := m + Zeros(16), m[1..] + Zeros(16);
    var q := AddTop(r, p);
    assert next == p[1..];
    if q[0] {
      var u, v := Xor(q[1..17], P_CCITT) + q[17..], AddTop(Feed(r, m[0]), next);
      forall i | 0 <= i < |u| ensures u[i] == v[i] {
        if i < 16 { SubtractedAt(r, p, i); }
      }
      assert u == v;
    } else {
      assert q[1..] == AddTop(Feed(r, m[0]), next);
    }
  }

  lemma {:induction false} ShiftDivides(r: seq<bool>, m: seq<bool>)
    requires |r| == 16
    ensures Shift(r, m) == Divide(AddTop(r, m + Zeros(16)))
    decreases |m|
  {
    if m == [] {
      assert AddTop(r, m + Zeros(16)) == r;
    } else {
      DivideStep(r, m);
      ShiftDivides(Feed(r, m[0]), m[1..]);
    }
  }

  /** The register, started at zero, holds the remainder of the message times x^16. */
  lemma ShiftIsRemainder(m: seq<bool>)
    ensures Shift(Zeros(16), m) == Divide(m + Zeros(16))
  {
    ShiftDivides(Zeros(16), m);
    assert AddTop(Zeros(16), m + Zeros(16)) == m + Zeros(16);
  }

  // ---------------------------------------------------------------- linearity

  lemma FeedLinear(r: seq<bool>, s: seq<bool>, a: bool, b: bool)
    requires |r| == |s| == 16
    ensures Feed(Xor(r, s), a != b) == Xor(Feed(r, a), Feed(s, b))
  {
  }

  lemma {:induction false} ShiftLinear(r: seq<bool>, s: seq<bool>, a: seq<bool>, b: seq<bool>)
    requires |r| == |s| == 16 && |a| == |b|
    ensures Shift(Xor(r, s), Xor(a, b)) == Xor(Shift(r, a), Shift(s, b))
    decreases |a|
  {
    if a != [] {
      FeedLinear(r, s, a[0], b[0]);
      assert Xor(a, b)[1..] == Xor(a[1..], b[1..]);
      ShiftLinear(Feed(r, a[0]), Feed(s, b[0]), a[1..], b[1..]);
    }
  }

  lemma {:induction false} ShiftConcat(r: seq<bool>, a: seq<bool>, b: seq<bool>)
    requires |r| == 16
    ensures Shift(r, a + b) == Shift(Shift(r, a), b)
    decreases |a|
  {
    if a == [] {
      assert a + b == b;
    } else {
      assert (a + b)[1..] == a[1..] + b;
      ShiftConcat(Feed(r, a[0]), a[1..], b);
    }
  }

  lemma XorZeros(a: seq<bool>)
    ensures Xor(a, Zeros(|a|)) == a == Xor(Zeros(|a|), a)
    ensures Xor(a, a) == Zeros(|a|)
  {
  }

  /** A bit at the top of the register is spent by an equal input bit. */
  lemma TopSpent(r: seq<bool>, w: seq<bool>, b: bool)
    requires |r| == 16 && 0 < |w| <= 16
    ensures Feed(Xor(r, w + Zeros(16 - |w|)), b) == Xor(Feed(r, w[0] != b), w[1..] + Zeros(17 - |w|))
  {
    var v := w + Zeros(16 - |w|);
    FeedLinear(r, v, w[0] != b, w[0]);
    assert ((w[0] != b) != w[0]) == b;
    assert Feed(v, w[0]) == v[1..] + [false] == w[1..] + Zeros(17 - |w|);
  }

  /** Bits waiting at the top of the register act like input bits. */
  lemma {:induction false} TopIsInput(r: seq<bool>, w: seq<bool>, bits: seq<bool>)
    requires |r| == 16 && |w| == |bits| <= 16
    ensures Shift(Xor(r, w + Zeros(16 - |w|)), bits) == Shift(r, Xor(w, bits))
    decreases |w|
  {
    if w == [] {
      XorZeros(r);
      assert w + Zeros(16) == Zeros(16);
      assert Xor(w, bits) == [];
    } else {
      TopSpent(r, w, bits[0]);
      TopIsInput(Feed(r, w[0] != bits[0]), w[1..], bits[1..]);
      assert Xor(w, bits)[1..] == Xor(w[1..], bits[1..]);
    }
  }

  /** A register with empty top only moves up while zeros are fed. */
  lemma {:induction false} EmptyTop(r: seq<bool>, n: nat)
    requires |r| == 16 && n <= 16 && r[..n] == Zeros(n)
    ensures Shift(r, Zeros(n)) == r[n..] + Zeros(n)
    decreases n
  {
    if n == 0 {
      assert r[0..] + Zeros(0) == r;
    } else {
      var r' := Feed(r, false);
      assert !r[..n][0];
      assert r' == r[1..] + [false];
      assert Zeros(n)[1..] == Zeros(n - 1);
      assert r'[..n - 1] == r[..n][1..] == Zeros(n - 1);
      EmptyTop(r', n - 1);
      assert r'[n - 1..] + Zeros(n - 1) == r[n..] + Zeros(n);
    }
  }

  lemma HalvesXor(r: seq<bool>)
    requires |r| == 16
    ensures Xor(Zeros(8) + r[8..], r[..8] + Zeros(8)) == r
  {
  }

  lemma LowHalf(r: seq<bool>)
    requires |r| == 16
    ensures Shift(Zeros(8) + r[8..], Zeros(8)) == r[8..] + Zeros(8)
  {
    var low := Zeros(8) + r[8..];
    assert low[..8] == Zeros(8) && low[8..] == r[8..];
    EmptyTop(low, 8);
  }

  /** A byte-wide step: the low part moves up, and the top eight bits enter together with the input. */
  lemma ByteStep(r: seq<bool>, c: seq<bool>)
    requires |r| == 16 && |c| == 8
    ensures Shift(r, c) == Xor(r[8..] + Zeros(8), Shift(Zeros(16), Xor(r[..8], c)))
  {
    var low, high := Zeros(8) + r[8..], r[..8] + Zeros(8);
    HalvesXor(r);
    XorZeros(c);
    ShiftLinear(low, high, Zeros(8), c);
    LowHalf(r);
    TopIsInput(Zeros(16), r[..8], c);
    XorZeros(high);
  }

  // ---------------------------------------------------------------- injectivity

  lemma FeedInjective(r: seq<bool>, s: seq<bool>, b: bool)
    requires |r| == |s| == 16 && Feed(r, b) == Feed(s, b)
    ensures r == s
  {
    assert Feed(r, b)[15] == (r[0] != b) && Feed(s, b)[15] == (s[0] != b);
    forall i | 1 <= i < 16 ensures r[i] == s[i] {
      assert (Feed(r, b)[i - 1] == Feed(s, b)[i - 1]);
    }
  }

  lemma {:induction false} ShiftInjective(r: seq<bool>, s: seq<bool>, bits: seq<bool>)
    requires |r| == |s| == 16 && Shift(r, bits) == Shift(s, bits)
    ensures r == s
    decreases |bits|
  {
    if bits != [] {
      ShiftInjective(Feed(r, bits[0]), Feed(s, bits[0]), bits[1..]);
      FeedInjective(r, s, bits[0]);
    }
  }

  lemma XorCancel(r: seq<bool>, u: seq<bool>, v: seq<bool>)
    requires |r| == |u| == |v| && Xor(r, u) == Xor(r, v)
    ensures u == v
  {
    forall i | 0 <= i < |u| ensures u[i] == v[i] {
      assert Xor(r, u)[i] == Xor(r, v)[i];
    }
  }

  lemma ZeroStays(n: nat)
    requires n <= 16
    ensures Shift(Zeros(16), Zeros(n)) == Zeros(16)
  {
    assert Zeros(16)[..n] == Zeros(n) && Zeros(16)[n..] + Zeros(n) == Zeros(16);
    EmptyTop(Zeros(16), n);
  }

  lemma InputIsTop(r: seq<bool>, u: seq<bool>)
    requires |r| == |u| == 16
    ensures Shift(r, u) == Shift(Xor(r, u), Zeros(16))
  {
    TopIsInput(r, u, Zeros(16));
    XorZeros(u);
    assert u + Zeros(0) == u;
  }

  /** Two different sixteen-bit inputs never lead from one register to the same register. */
  lemma WordInjective(r: seq<bool>, u: seq<bool>, v: seq<bool>)
    requires |r| == |u| == |v| == 16 && Shift(r, u) == Shift(r, v)
    ensures u == v
  {
    InputIsTop(r, u);
    InputIsTop(r, v);
    ShiftInjective(Xor(r, u), Xor(r, v), Zeros(16));
    XorCancel(r, u, v);
  }

  /** Sixteen more bits bring the register to zero exactly when they repeat it. */
  lemma ResidueZeroIff(r: seq<bool>, t: seq<bool>)
    requires |r| == |t| == 16
    ensures Shift(r, t) == Zeros(16) <==> t == r
  {
    TopIsInput(Zeros(16), r, r);
    XorZeros(r);
    assert r + Zeros(0) == r;
    ZeroStays(16);
    if Shift(r, t) == Zeros(16) {
      WordInjective(r, r, t);
    }
  }

  /** `a` and `b` agree outside sixteen consecutive bits from `k`. */
  predicate DifferInBurst(a: seq<bool>, b: seq<bool>, k: nat) {
    |a| == |b| && k + 16 <= |a| && a[..k] == b[..k] && a[k + 16..] == b[k + 16..]
  }

  /** A burst error of at most sixteen bits always changes the register. */
  lemma BurstChangesRegister(r: seq<bool>, a: seq<bool>, b: seq<bool>, k: nat)
    requires |r| == 16 && DifferInBurst(a, b, k) && a != b
    ensures Shift(r, a) != Shift(r, b)
  {
    var u, v, rest := a[k..k + 16], b[k..k + 16], a[k + 16..];
    assert a == a[..k] + (u + rest) && b == a[..k] + (v + rest);
    var q := Shift(r, a[..k]);
    ShiftConcat(r, a[..k], u + rest); ShiftConcat(q, u, rest);
    ShiftConcat(r, a[..k], v + rest); ShiftConcat(q, v, rest);
    if Shift(r, a) == Shift(r, b) {
      ShiftInjective(Shift(q, u), Shift(q, v), rest);
      WordInjective(q, u, v);
    }
  }
}

/** The daemon's table-driven calculator. A machine word is its bits, most significant first;
    a byte is a number below 256. */
module Crc {
  import opened Common
  import opened CrcSpec

  const BYTE_BITS: nat := 8

  function BitsOfNumber(v: nat, n: nat): (s: seq<bool>)
    ensures |s| == n
    decreases n
  {
    if n == 0 then [] else BitsOfNumber(v / 2, n - 1) + [v % 2 == 1]
  }

  function Value(s: seq<bool>): nat {
    if s == [] then 0 else 2 * Value(s[..|s| - 1]) + (if s[|s| - 1] then 1 else 0)
  }

  function Pow2(n: nat): nat {
    if n == 0 then 1 else 2 * Pow2(n - 1)
  }

  function BitsOf(c: u8): (s: seq<bool>)
    ensures |s| == 8
  {
    BitsOfNumber(c, BYTE_BITS)
  }

  function Bits(msg: seq<u8>): (s: seq<bool>)
    ensures |s| == 8 * |msg|
  {
    if msg == [] then [] else BitsOf(msg[0]) + Bits(msg[1..])
  }

  /** Remainder of a message times x^16. */
  function Remainder(msg: seq<u8>): (r: seq<bool>)
    ensures |r| == 16
  {
    Divide(Bits(msg) + Zeros(16))
  }

  // ---------------------------------------------------------------- numbers as bits

  lemma {:induction false} ValueOfBits(v: nat, n: nat)
    requires v < Pow2(n)
    ensures Value(BitsOfNumber(v, n)) == v
    decreases n
  {
    if n > 0 {
      ValueOfBits(v / 2, n - 1);
      assert BitsOfNumber(v, n)[..n - 1] == BitsOfNumber(v / 2, n - 1);
    }
  }

  lemma {:induction false} BitsOfValue(s: seq<bool>)
    ensures BitsOfNumber(Value(s), |s|) == s && Value(s) < Pow2(|s|)
  {
    if s != [] {
      BitsOfValue(s[..|s| - 1]);
      assert s == s[..|s| - 1] + [s[|s| - 1]];
    }
  }

  lemma {:induction false} ValueConcat(a: seq<bool>, b: seq<bool>)
    ensures Value(a + b) == Value(a) * Pow2(|b|) + Value(b)
    decreases |b|
  {
    if b == [] {
      assert a + b == a;
    } else {
      var c, bit := b[..|b| - 1], if b[|b| - 1] then 1 else 0;
      assert (a + b)[..|a + b| - 1] == a + c && (a + b)[|a + b| - 1] == b[|b| - 1];
      ValueConcat(a, c);
      Digit(Value(a), Pow2(|c|), Value(c), bit);
    }
  }

  lemma Digit(x: nat, p: nat, y: nat, bit: nat)
    ensures 2 * (x * p + y) + bit == x * (2 * p) + (2 * y + bit)
  {
  }

  lemma ByteRange()
    ensures Pow2(BYTE_BITS) == 256
  {
    assert Pow2(4) == 16;
    assert Pow2(8) == 16 * Pow2(4);
  }

  lemma {:induction false} ValueOfZeros(n: nat)
    ensures Value(Zeros(n)) == 0
  {
    if n > 0 {
      assert Zeros(n)[..n - 1] == Zeros(n - 1);
      ValueOfZeros(n - 1);
    }
  }

  /** Eight bits and a byte determine each other. */
  lemma ByteBits(s: seq<bool>)
    requires |s| == 8
    ensures 0 <= Value(s) < 256 && BitsOf(Value(s)) == s
    ensures Value(Zeros(8) + s) == Value(s)
  {
    ByteRange();
    BitsOfValue(s);
    ValueConcat(Zeros(8), s);
    ValueOfZeros(8);
  }

  lemma WordValue(w: seq<bool>)
    requires |w| == 16
    ensures Value(w) == 256 * Value(w[..8]) + Value(w[8..])
  {
    ByteRange();
    assert w == w[..8] + w[8..];
    ValueConcat(w[..8], w[8..]);
  }

  lemma ByteIff(s: seq<bool>, c: u8)
    requires |s| == 8
    ensures Value(s) == c <==> s == BitsOf(c)
  {
    ByteBits(s);
    ByteRange();
    ValueOfBits(c, BYTE_BITS);
  }

  lemma HalvesIff(w: seq<bool>, a: seq<bool>, b: seq<bool>)
    requires |w| == 16 && |a| == |b| == 8
    ensures w == a + b <==> w[..8] == a && w[8..] == b
  {
    assert w == w[..8] + w[8..];
  }

  /** A word is the one spelled by two bytes exactly when its numeric value is. */
  lemma WordOfBytes(w: seq<bool>, hi: u8, lo: u8)
    requires |w| == 16
    ensures Value(w) == BigEndian(hi, lo) <==> w == BitsOf(hi) + BitsOf(lo)
  {
    WordValue(w);
    ByteBits(w[..8]); ByteBits(w[8..]);
    ByteIff(w[..8], hi); ByteIff(w[8..], lo);
    HalvesIff(w, BitsOf(hi), BitsOf(lo));
  }

  lemma {:induction false} BitsConcat(a: seq<u8>, b: seq<u8>)
    ensures Bits(a + b) == Bits(a) + Bits(b)
  {
    if a == [] {
      assert a + b == b;
    } else {
      assert (a + b)[1..] == a[1..] + b;
      BitsConcat(a[1..], b);
    }
  }

  lemma ByteInjective(a: u8, b: u8)
    requires BitsOf(a) == BitsOf(b)
    ensures a == b
  {
    ByteRange();
    ValueOfBits(a, BYTE_BITS);
    ValueOfBits(b, BYTE_BITS);
  }

  lemma HeadBits(f: seq<u8>)
    requires f != []
    ensures Bits(f)[..8] == BitsOf(f[0]) && Bits(f)[8..] == Bits(f[1..])
  {
  }

  lemma {:induction false} BitsInjective(f: seq<u8>, g: seq<u8>)
    requires |f| == |g| && Bits(f) == Bits(g)
    ensures f == g
  {
    if f != [] {
      HeadBits(f);
      HeadBits(g);
      ByteInjective(f[0], g[0]);
      BitsInjective(f[1..], g[1..]);
      assert f == [f[0]] + f[1..] && g == [g[0]] + g[1..];
    }
  }

  // ---------------------------------------------------------------- residue and error detection

  /** A message followed by two bytes is divisible by the generator exactly when they spell its CRC, high byte first. */
  lemma FrameDivisibleIff(msg: seq<u8>, hi: u8, lo: u8)
    ensures Remainder(msg + [hi, lo]) == Zeros(16) <==> Value(Remainder(msg)) == BigEndian(hi, lo)
  {
    var tail := [hi, lo];
    BitsConcat(msg, tail);
    assert Bits(tail) == BitsOf(hi) + BitsOf(lo) by {
      assert tail[1..] == [lo];
      assert Bits([lo]) == BitsOf(lo);
    }
    ShiftIsRemainder(Bits(msg + tail));
    ShiftIsRemainder(Bits(msg));
    ShiftConcat(Zeros(16), Bits(msg), Bits(tail));
    ResidueZeroIff(Remainder(msg), Bits(tail));
    WordOfBytes(Remainder(msg), hi, lo);
  }

  /** Two different messages that agree outside a burst of sixteen bits have different remainders. */
  lemma BurstChangesRemainder(f: seq<u8>, g: seq<u8>, k: nat)
    requires DifferInBurst(Bits(f), Bits(g), k) && f != g
    ensures Remainder(f) != Remainder(g)
  {
    if Bits(f) == Bits(g) {
      BitsInjective(f, g);
    } else {
      BurstChangesRegister(Zeros(16), Bits(f), Bits(g), k);
      ShiftIsRemainder(Bits(f));
      ShiftIsRemainder(Bits(g));
    }
  }

  // ---------------------------------------------------------------- the implementation

  lemma OneByte(c: u8)
    ensures Bits([c]) == BitsOf(c)
  {
    assert [c][1..] == [];
  }

  lemma NextByte(buf: seq<u8>, i: nat)
    requires i < |buf|
    ensures Shift(Zeros(16), Bits(buf[..i + 1])) == Shift(Shift(Zeros(16), Bits(buf[..i])), BitsOf(buf[i]))
  {
    assert buf[..i + 1] == buf[..i] + [buf[i]];
    BitsConcat(buf[..i], [buf[i]]);
    OneByte(buf[i]);
    ShiftConcat(Zeros(16), Bits(buf[..i]), BitsOf(buf[i]));
  }

  lemma Suffix(rest: seq<bool>)
    requires 0 < |rest| <= 16
    ensures (rest + Zeros(16 - |rest|))[1..] + [false] == rest[1..] + Zeros(17 - |rest|)
    ensures (rest + Zeros(16 - |rest|))[0] == rest[0]
  {
  }

  /** Each row holds the register reached from zero by the bits of its index. */
  ghost predicate Filled(rows: seq<seq<bool>>) {
    |rows| <= 256 && forall i :: 0 <= i < |rows| ==> IsRow(i, rows[i])
  }

  ghost predicate IsRow(i: u8, row: seq<bool>) {
    row == Shift(Zeros(16), BitsOf(i))
  }

  lemma FilledExtends(rows: seq<seq<bool>>, row: seq<bool>)
    requires Filled(rows) && |rows| < 256 && IsRow(|rows|, row)
    ensures Filled(rows + [row])
  {
    forall i | 0 <= i < |rows| + 1 ensures IsRow(i, (rows + [row])[i]) {
      assert i < |rows| ==> (rows + [row])[i] == rows[i];
    }
  }

  class Calculator {
    const table: array<seq<bool>>

    ghost predicate Valid()
      reads table
    {
      table.Length == 256 && Filled(table[..])
    }

    /** Fills the table, row by row. */
    constructor ()
      ensures Valid() && fresh(table)
    {
      var t := new seq<bool>[256];
      for i := 0 to 256
        invariant Filled(t[..i])
      {
        var row := Row(i);
        FilledExtends(t[..i], row);
        t[i] := row;
        assert t[..i + 1] == t[..i] + [row];
      }
      assert t[..256] == t[..];
      table := t;
    }

    /** The inner loop of the table: the index, moved to the high byte, is shifted out bit by bit. */
    static method Row(i: u8) returns (crc: seq<bool>)
      ensures |crc| == 16 && crc == Shift(Zeros(16), BitsOf(i))
    {
      crc := Zeros(16);
      var c := BitsOf(i) + Zeros(8);
      ghost var bits := BitsOf(i);
      assert bits[0..] == bits;
      for j := 0 to 8
        invariant |crc| == 16 && Shift(crc, bits[j..]) == Shift(Zeros(16), bits)
        invariant c == bits[j..] + Zeros(8 + j)
      {
        Suffix(bits[j..]);
        assert bits[j..][1..] == bits[j + 1..];
        if crc[0] != c[0] {
          crc := Xor(crc[1..] + [false], P_CCITT);
        } else {
          crc := crc[1..] + [false];
        }
        c := c[1..] + [false];
      }
    }

    /** One byte through the table is eight clocks of the register. */
    method UpdateCrc(crc: seq<bool>, c: u8) returns (r: seq<bool>)
      requires Valid() && |crc| == 16
      ensures |r| == 16 && r == Shift(crc, BitsOf(c))
    {
      var tmp := Xor(Zeros(8) + crc[..8], Zeros(8) + BitsOf(c));
      ghost var idx := Xor(crc[..8], BitsOf(c));
      assert tmp == Zeros(8) + idx;
      ByteBits(idx);
      r := Xor(crc[8..] + Zeros(8), table[Value(tmp)]);
      ByteStep(crc, BitsOf(c));
    }

    /** Over any buffer the table computes the remainder of polynomial division. */
    method GetCrc(buf: seq<u8>, len: nat) returns (crc: seq<bool>)
      requires Valid()
      requires len <= |buf|
      ensures |crc| == 16 && crc == Remainder(buf[..len])
    {
      crc := Zeros(16);
      for i := 0 to len
        invariant |crc| == 16 && crc == Shift(Zeros(16), Bits(buf[..i]))
      {
        NextByte(buf, i);
        crc := UpdateCrc(crc, buf[i]);
      }
      ShiftIsRemainder(Bits(buf[..len]));
    }
  }
}
