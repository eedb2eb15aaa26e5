/** The frames exchanged with the IQRF IDE over UDP: nine header bytes, data, and a CRC, high byte first. */
module IdeFrame {
  import opened Common
  import opened CrcSpec
  import opened Crc

  const HEADER_SIZE: nat := 9
  const DATA_MAX_SIZE: nat := 497
  const CRC_SIZE: nat := 2

  const GW_ADDR: nat := 0
  const CMD: nat := 1
  const DLEN_H: nat := 7
  const DLEN_L: nat := 8

  const SEND_TR_DATA: u8 := 4

  datatype Verdict = Accepted | TooShort | TooLong | AddressMismatch | LengthMismatch | BadCrc

  function CrcBytes(r: seq<bool>): seq<u8>
    requires |r| == 16
  {
    ByteBits(r[..8]); ByteBits(r[8..]);
    [Value(r[..8]), Value(r[8..])]
  }

  /** A frame as its sender means it. */
  function Frame(header: seq<u8>, data: seq<u8>): seq<u8> {
    header + data + CrcBytes(Remainder(header + data))
  }

  ghost predicate GoodHeader(mode: u8, header: seq<u8>, data: seq<u8>) {
    && |header| == HEADER_SIZE
    && header[GW_ADDR] == mode
    && |data| <= DATA_MAX_SIZE
    && BigEndian(header[DLEN_H], header[DLEN_L]) == |data|
  }

  ghost predicate IsFrame(mode: u8, header: seq<u8>, data: seq<u8>, message: seq<u8>) {
    GoodHeader(mode, header, data) && message == Frame(header, data)
  }

  ghost predicate Acceptable(mode: u8, message: seq<u8>) {
    exists header, data :: IsFrame(mode, header, data, message)
  }

  lemma CrcBytesIff(r: seq<bool>, hi: u8, lo: u8)
    requires |r| == 16
    ensures Value(r) == BigEndian(hi, lo) <==> CrcBytes(r) == [hi, lo]
  {
    WordValue(r);
    ByteBits(r[..8]); ByteBits(r[8..]);
    SameWord(Value(r[..8]), Value(r[8..]), hi, lo);
  }

  lemma SameWord(a: u8, b: u8, hi: u8, lo: u8)
    ensures BigEndian(a, b) == BigEndian(hi, lo) <==> [a, b] == [hi, lo]
  {
    assert [a, b] == [hi, lo] <==> [a, b][0] == [hi, lo][0] && [a, b][1] == [hi, lo][1];
  }

  /** Every acceptable frame is divisible by the generator. */
  lemma FrameDivisible(header: seq<u8>, data: seq<u8>)
    ensures Remainder(Frame(header, data)) == Zeros(16)
  {
    var crc := CrcBytes(Remainder(header + data));
    assert crc == [crc[0], crc[1]];
    CrcBytesIff(Remainder(header + data), crc[0], crc[1]);
    FrameDivisibleIff(header + data, crc[0], crc[1]);
  }

  /** No error burst of at most sixteen bits turns an acceptable frame into another one, for any gateway address. */
  lemma BurstRejected(mode: u8, mode': u8, f: seq<u8>, g: seq<u8>, k: nat)
    requires Acceptable(mode, f)
    requires DifferInBurst(Bits(f), Bits(g), k) && f != g
    ensures !Acceptable(mode', g)
  {
    if Acceptable(mode', g) {
      var h, d :| IsFrame(mode, h, d, f);
      var h', d' :| IsFrame(mode', h', d', g);
      FrameDivisible(h, d);
      FrameDivisible(h', d');
      BurstChangesRemainder(f, g, k);
    }
  }

  /** In particular one damaged byte, or two adjacent ones, are always noticed. */
  lemma AdjacentBytesRejected(mode: u8, mode': u8, a: seq<u8>, b: seq<u8>, b': seq<u8>, c: seq<u8>)
    requires |b| == |b'| == 2 && b != b'
    requires Acceptable(mode, a + (b + c))
    ensures !Acceptable(mode', a + (b' + c))
  {
    var f, g := a + (b + c), a + (b' + c);
    AdjacentBurst(f, g, a, b, b', c);
    BurstRejected(mode, mode', f, g, 8 * |a|);
  }

  lemma AdjacentBurst(f: seq<u8>, g: seq<u8>, a: seq<u8>, b: seq<u8>, b': seq<u8>, c: seq<u8>)
    requires |b| == |b'| == 2 && b != b' && f == a + (b + c) && g == a + (b' + c)
    ensures f != g && DifferInBurst(Bits(f), Bits(g), 8 * |a|)
  {
    assert f[|a|..|a| + 2] == b && g[|a|..|a| + 2] == b';
    SplitBits(f, a, b, c);
    SplitBits(g, a, b', c);
  }

  lemma SplitBits(f: seq<u8>, a: seq<u8>, b: seq<u8>, c: seq<u8>)
    requires f == a + (b + c)
    ensures Bits(f)[..8 * |a|] == Bits(a) && Bits(f)[8 * |a| + 8 * |b|..] == Bits(c)
  {
    BitsConcat(a, b + c);
    BitsConcat(b, c);
    Pieces(Bits(a), Bits(b), Bits(c));
  }

  lemma Pieces(a: seq<bool>, b: seq<bool>, c: seq<bool>)
    ensures (a + (b + c))[..|a|] == a && (a + (b + c))[|a| + |b|..] == c
  {
  }

  /** A message long enough for header and CRC and short enough for its data. */
  ghost predicate Sized(message: seq<u8>) {
    HEADER_SIZE + CRC_SIZE <= |message| <= HEADER_SIZE + DATA_MAX_SIZE + CRC_SIZE
  }

  /** The header declares the length of the data. */
  ghost predicate Measured(message: seq<u8>)
    requires Sized(message)
  {
    |message| == HEADER_SIZE + BigEndian(message[DLEN_H], message[DLEN_L]) + CRC_SIZE
  }

  /** In numbers: 11 to 508 bytes, the data length in the eighth and ninth, high byte first. */
  lemma FormatInNumbers(message: seq<u8>)
    ensures Sized(message) <==> 11 <= |message| <= 508
    ensures Sized(message) ==>
              (Measured(message) <==> |message| == 11 + 0x100 * (message[7] as int) + message[8] as int)
  {
  }

  class IdeCounterpart {
    const crc: Calculator
    var mode: u8

    constructor (mode: u8)
      ensures this.mode == mode && crc.Valid()
    {
      this.mode := mode;
      crc := new Calculator();
    }

    /** Accepts exactly the frames some sender could have meant, and reports the first check that fails. */
    method ValidateMsg(message: seq<u8>) returns (v: Verdict)
      requires crc.Valid()
      ensures v == Accepted <==> Acceptable(mode, message)
      ensures v == TooShort <==> |message| < HEADER_SIZE + CRC_SIZE
      ensures v == TooLong <==> |message| > HEADER_SIZE + DATA_MAX_SIZE + CRC_SIZE
      ensures v == AddressMismatch <==> Sized(message) && message[GW_ADDR] != mode
      ensures v == LengthMismatch <==> Sized(message) && message[GW_ADDR] == mode && !Measured(message)
      ensures v == BadCrc <==>
              Sized(message) && message[GW_ADDR] == mode && Measured(message) && Remainder(message) != Zeros(16)
    {
      var messageLen := |message|;
      if messageLen < HEADER_SIZE + CRC_SIZE {
        return TooShort;
      }
      if messageLen > HEADER_SIZE + DATA_MAX_SIZE + CRC_SIZE {
        return TooLong;
      }
      if message[GW_ADDR] != mode {
        return AddressMismatch;
      }
      var dataLen := BigEndian(message[DLEN_H], message[DLEN_L]);
      if messageLen != HEADER_SIZE + dataLen + CRC_SIZE {
        return LengthMismatch;
      }
      var received := BigEndian(message[HEADER_SIZE + dataLen], message[HEADER_SIZE + dataLen + 1]);
      var computed := crc.GetCrc(message, HEADER_SIZE + dataLen);
      v := if received != Value(computed) then BadCrc else Accepted;
      Decompose(mode, message);
      assert message == message[..HEADER_SIZE + dataLen] +
          [message[HEADER_SIZE + dataLen], message[HEADER_SIZE + dataLen + 1]];
      FrameDivisibleIff(message[..HEADER_SIZE + dataLen], message[HEADER_SIZE + dataLen],
          message[HEADER_SIZE + dataLen + 1]);
    }

    /** The command byte and the data handed to the command handlers. */
    method ReceivedData(message: seq<u8>) returns (r: Option<(u8, seq<u8>)>)
      requires crc.Valid()
      ensures r.None? <==> !Acceptable(mode, message)
      ensures forall header, data :: IsFrame(mode, header, data, message) ==> r == Some((header[CMD], data))
    {
      var v := ValidateMsg(message);
      if v != Accepted {
        return None;
      }
      var dataLen := BigEndian(message[DLEN_H], message[DLEN_L]);
      forall header, data | IsFrame(mode, header, data, message)
        ensures header[CMD] == message[CMD] && HEADER_SIZE + dataLen <= |message| &&
            data == message[HEADER_SIZE..HEADER_SIZE + dataLen]
      {
      }
      r := Some((message[CMD], message[HEADER_SIZE..HEADER_SIZE + dataLen]));
    }

    /** An asynchronous message from the radio module, packed for the IDE. */
    method SendTrData(data: seq<u8>) returns (response: seq<u8>)
      requires crc.Valid()
      ensures Acceptable(mode, response) <==> |data| <= DATA_MAX_SIZE
      ensures |data| <= DATA_MAX_SIZE ==> response == Frame(TrHeader(mode, |data|), data)
    {
      var dataLen := |data|;
      response := seq<u8>(HEADER_SIZE + CRC_SIZE, _ => 0);
      response := response[GW_ADDR := mode];
      response := response[CMD := SEND_TR_DATA];
      response := response[DLEN_H := (dataLen / 256) % 256];
      response := response[DLEN_L := dataLen % 256];
      ghost var header := TrHeader(mode, dataLen);
      ghost var spare := response[HEADER_SIZE..];
      assert response[..HEADER_SIZE] == header;
      response := response[..HEADER_SIZE] + data + response[HEADER_SIZE..];
      var len := (HEADER_SIZE + dataLen) % 0x1_0000;
      assert dataLen <= DATA_MAX_SIZE ==> response[..len] == header + data;
      var crc16 := crc.GetCrc(response, len);
      var crcBytes := CrcBytes(crc16);
      var half := response[HEADER_SIZE + dataLen := crcBytes[0]];
      response := half[HEADER_SIZE + dataLen + 1 := crcBytes[1]];
      Patched(header, data, spare, crcBytes[0], crcBytes[1], half, response);
      if dataLen <= DATA_MAX_SIZE {
        TrHeaderGood(mode, data);
        FrameAcceptable(mode, header, data);
      } else if Acceptable(mode, response) {
        AcceptableSize(mode, response);
      }
    }

    /** What is packed comes out again on the other side, as far as it fits. */
    method SendThenReceive(data: seq<u8>) returns (r: Option<(u8, seq<u8>)>)
      requires crc.Valid()
      ensures r == if |data| <= 497 then Some((4, data)) else None
    {
      var response := SendTrData(data);
      r := ReceivedData(response);
      if |data| <= DATA_MAX_SIZE {
        TrHeaderGood(mode, data);
        assert IsFrame(mode, TrHeader(mode, |data|), data, response);
      }
    }
  }

  /** The header of a packed message: gateway address, command 4, five zero bytes, length. */
  lemma TrHeaderBytes(mode: u8, dataLen: nat)
    requires dataLen < 0x1_0000
    ensures var h := TrHeader(mode, dataLen);
      && |h| == 9 && h[0] == mode && h[1] == 4 && (forall i :: 2 <= i < 7 ==> h[i] == 0)
      && 0x100 * (h[7] as int) + h[8] as int == dataLen
  {
    LengthBytes(dataLen);
  }

  lemma LengthBytes(n: nat)
    requires n < 0x1_0000
    ensures BigEndian((n / 256) % 256, n % 256) == n
  {
  }

  lemma TrHeaderGood(mode: u8, data: seq<u8>)
    requires |data| <= DATA_MAX_SIZE
    ensures GoodHeader(mode, TrHeader(mode, |data|), data)
  {
    LengthBytes(|data|);
  }

  lemma FrameAcceptable(mode: u8, header: seq<u8>, data: seq<u8>)
    requires GoodHeader(mode, header, data)
    ensures Acceptable(mode, Frame(header, data))
  {
    assert IsFrame(mode, header, data, Frame(header, data));
  }

  lemma AcceptableSize(mode: u8, message: seq<u8>)
    requires Acceptable(mode, message)
    ensures |message| <= HEADER_SIZE + DATA_MAX_SIZE + CRC_SIZE
  {
    var h, d :| IsFrame(mode, h, d, message);
  }

  /** Header, data and two bytes to spare, with the bytes written into them. */
  lemma Patched(header: seq<u8>, data: seq<u8>, spare: seq<u8>, hi: u8, lo: u8, half: seq<u8>, response: seq<u8>)
    requires |spare| == CRC_SIZE
    requires var n := |header| + |data|;
      half == (header + data + spare)[n := hi] && response == half[n + 1 := lo]
    ensures response == header + data + [hi, lo]
  {
  }

  function TrHeader(mode: u8, dataLen: nat): (h: seq<u8>)
    ensures |h| == HEADER_SIZE
  {
    [mode, SEND_TR_DATA, 0, 0, 0, 0, 0, (dataLen / 256) % 256, dataLen % 256]
  }

  lemma Decompose(mode: u8, message: seq<u8>)
    requires HEADER_SIZE + CRC_SIZE <= |message| <= HEADER_SIZE + DATA_MAX_SIZE + CRC_SIZE
    requires message[GW_ADDR] == mode
    requires |message| == HEADER_SIZE + BigEndian(message[DLEN_H], message[DLEN_L]) + CRC_SIZE
    ensures var n := |message| - CRC_SIZE;
            Acceptable(mode, message) <==> Value(Remainder(message[..n])) == BigEndian(message[n], message[n + 1])
  {
    var n := |message| - CRC_SIZE;
    var header, data := message[..HEADER_SIZE], message[HEADER_SIZE..n];
    assert header + data == message[..n];
    CrcBytesIff(Remainder(message[..n]), message[n], message[n + 1]);
    assert message == message[..n] + [message[n], message[n + 1]];
    if Value(Remainder(message[..n])) == BigEndian(message[n], message[n + 1]) {
      assert IsFrame(mode, header, data, message);
    }
    if Acceptable(mode, message) {
      var h, d :| IsFrame(mode, h, d, message);
      var c := CrcBytes(Remainder(h + d));
      assert message == h + d + c && |c| == 2;
      assert h + d == message[..n] && c == message[n..];
    }
  }
}
