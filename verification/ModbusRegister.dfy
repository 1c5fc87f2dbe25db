/**
 Modbus RTU request building and response checking over fixed 32-byte buffers.
 The transfer itself (`modbus->start`) is represented by its arguments: the bytes in
 `payload[..payloadLen]` and the number of response characters to wait for.
 */
module ModbusRegister {
  import opened Basics
  import opened ModbusCrc

  const FUNC_READ_HOLDING_REGISTER: bv8 := 0x3
  const FUNC_READ_INPUT_REGISTERS: bv8 := 0x4
  const FUNC_WRITE_MULTIPLE_REGISTERS: bv8 := 0x10
  const PAYLOAD_MAX_LEN := 32
  const PAYLOAD_HEADER_LEN := 6
  const READ_EXPECTED_CHARACTERS := 5
  const WRITE_EXPECTED_CHARACTERS := 8
  const ERROR_PACKET_LEN := 5

  /** The six bytes that open every request. */
  function Header(device: bv8, func: bv8, address: bv16, count: bv8): (header: seq<bv8>)
    ensures |header| == PAYLOAD_HEADER_LEN
  {
    [device, func, High(address), Low(address), 0, count]
  }

  lemma LongInBytes(data: bv32)
    ensures var p := Word32(data);
            && ((p[0] as bv32) << 8) | (p[1] as bv32) == data & 0xFFFF
            && ((p[2] as bv32) << 8) | (p[3] as bv32) == data >> 16
  {
  }

  /** What a slave reads in the header: device, function, register address and count, high bytes first. */
  lemma HeaderFields(device: bv8, func: bv8, address: bv16, count: bv8)
    ensures var p := Header(device, func, address, count);
            && p[0] == device && p[1] == func
            && ((p[2] as bv16) << 8) | (p[3] as bv16) == address
              && ((p[4] as bv16) << 8) | (p[5] as bv16) == count as bv16
  {
    WordInBytes(address);
  }

  lemma LowHalf(data: bv32, x: bv8, y: bv8)
    ensures ((x as bv16) << 8) | (y as bv16) == (data & 0xFFFF) as bv16 ==>
              ((x as bv32) << 8) | (y as bv32) == data & 0xFFFF
  {
  }

  /** The two bytes behind a frame's data are its checksum, low byte first. */
  lemma FrameTrailer(data: seq<bv8>)
    ensures var p := Framed(data);
            && |p| == |data| + 2 && p[..|data|] == data
            && ((p[|data| + 1] as bv16) << 8) | (p[|data|] as bv16) == Crc(data)
  {
    WordInBytes(Crc(data));
    hide Crc, High, Low;
  }

  /** A 16-bit value in transmission order. */
  function Word16(data: bv16): seq<bv8> {
    [High(data), Low(data)]
  }

  /** A 32-bit value in transmission order: low word first, each word high byte first. */
  function Word32(data: bv32): seq<bv8> {
    [((data >> 8) & 0xFF) as bv8, (data & 0xFF) as bv8, (data >> 24) as bv8, ((data >> 16) & 0xFF) as bv8]
  }

  function Value16(rx: seq<bv8>): bv16
    requires |rx| >= 5
  {
    (rx[3] as bv16 << 8) | rx[4] as bv16
  }

  function Value32(rx: seq<bv8>): bv32
    requires |rx| >= 7
  {
    if rx[2] == 2 then Value16(rx) as bv32
    else (rx[5] as bv32 << 24) | (rx[6] as bv32 << 16) | (rx[3] as bv32 << 8) | rx[4] as bv32
  }

  predicate ReadAccepted(rx: seq<bv8>) {
    Crc(rx) == 0 && |rx| != ERROR_PACKET_LEN
  }

  predicate WriteAccepted(rx: seq<bv8>) {
    Crc(rx) == 0 && |rx| >= WRITE_EXPECTED_CHARACTERS
  }

  class Register {
    const payload: array<bv8>
    var payloadLen: nat
    const numberOfRegisters: bv8
    const rxbuf: array<bv8>
    var rxLen: nat

    ghost predicate Valid()
      reads this
    {
      && payload.Length == PAYLOAD_MAX_LEN && rxbuf.Length == PAYLOAD_MAX_LEN && payload != rxbuf
      && payloadLen <= PAYLOAD_MAX_LEN && rxLen <= PAYLOAD_MAX_LEN
    }

    /** The part of construction that both kinds of register share. */
    method FillHeader(device: bv8, func: bv8, address: bv16, count: bv8)
      requires Valid()
      modifies this`payloadLen, payload
      ensures Valid() && payload[..payloadLen] == Header(device, func, address, count)
    {
      hide Low, High;
      payload[0] := device;
      payload[2] := High(address);
      payload[3] := Low(address);
      payload[4] := 0;
      payload[5] := count;
      payloadLen := PAYLOAD_HEADER_LEN;
      payload[1] := func;
    }

    method AppendCrc()
      requires Valid() && payloadLen + 2 <= PAYLOAD_MAX_LEN
      modifies this`payloadLen, payload
      ensures Valid() && payload[..payloadLen] == Framed(old(payload[..payloadLen]))
    {
      hide Crc, Low, High;
      ghost var body := payload[..payloadLen];
      var crc := ComputeCrc(payload, payloadLen);
      payload[payloadLen] := Low(crc);
      payload[payloadLen + 1] := High(crc);
      payloadLen := payloadLen + 2;
      assert payload[..payloadLen] == body + [Low(crc), High(crc)];
    }

    /** A complete read request, checksum included. */
    constructor ReadRequest(device: bv8, address: bv16, count: bv8, holding: bool)
      ensures Valid() && fresh(payload) && fresh(rxbuf) && numberOfRegisters == count
      ensures payload[..payloadLen] ==
              Framed(Header(device, if holding then FUNC_READ_HOLDING_REGISTER else FUNC_READ_INPUT_REGISTERS, address,
                            count))
      ensures payload.Length == 32 && payloadLen == 8
      ensures payload[0] == device && payload[1] == if holding then 3 else 4
      ensures ((payload[2] as bv16) << 8) | (payload[3] as bv16) == address
      ensures ((payload[4] as bv16) << 8) | (payload[5] as bv16) == count as bv16
      ensures ((payload[7] as bv16) << 8) | (payload[6] as bv16) == Crc(payload[..6])
    {
      payload := new bv8[PAYLOAD_MAX_LEN];
      rxbuf := new bv8[PAYLOAD_MAX_LEN];
      numberOfRegisters := count;
      payloadLen, rxLen := 0, 0;
      new;
      var func := if holding then FUNC_READ_HOLDING_REGISTER else FUNC_READ_INPUT_REGISTERS;
      hide Framed, Header, Crc, High, Low;
      FillHeader(device, func, address, count);
      AppendCrc();
      RequestIs(device, func, address, count);
    }

    lemma RequestIs(device: bv8, func: bv8, address: bv16, count: bv8)
      requires Valid() && payload[..payloadLen] == Framed(Header(device, func, address, count))
      ensures payloadLen == 8 && payload[0] == device && payload[1] == func
      ensures ((payload[2] as bv16) << 8) | (payload[3] as bv16) == address
      ensures ((payload[4] as bv16) << 8) | (payload[5] as bv16) == count as bv16
      ensures ((payload[7] as bv16) << 8) | (payload[6] as bv16) == Crc(payload[..6])
    {
      var header := Header(device, func, address, count);
      HeaderFields(device, func, address, count);
      hide Header, Framed, Crc, High, Low;
      FrameIs(header);
      assert payload[0] == header[0] && payload[1] == header[1] && payload[2] == header[2] && payload[3] == header[3]
             && payload[4] == header[4] && payload[5] == header[5];
    }

    /** The header of a write request; the data and the checksum follow at the start of a transfer. */
    constructor WriteRequest(device: bv8, address: bv16, count: bv8)
      ensures Valid() && fresh(payload) && fresh(rxbuf) && numberOfRegisters == count
      ensures payload[..PAYLOAD_HEADER_LEN] == Header(device, FUNC_WRITE_MULTIPLE_REGISTERS, address, count)
      ensures payload.Length == 32 && payload[0] == device && payload[1] == 16
      ensures ((payload[2] as bv16) << 8) | (payload[3] as bv16) == address
      ensures ((payload[4] as bv16) << 8) | (payload[5] as bv16) == count as bv16
    {
      payload := new bv8[PAYLOAD_MAX_LEN];
      rxbuf := new bv8[PAYLOAD_MAX_LEN];
      numberOfRegisters := count;
      payloadLen, rxLen := 0, 0;
      new;
      HeaderFields(device, 16, address, count);
      hide Header;
      FillHeader(device, FUNC_WRITE_MULTIPLE_REGISTERS, address, count);
      ghost var header := payload[..6];
      assert payload[0] == header[0] && payload[1] == header[1] && payload[2] == header[2] && payload[3] == header[3]
             && payload[4] == header[4] && payload[5] == header[5];
    }

    /** The bytes of the buffer when it holds a frame. */
    lemma FrameIs(data: seq<bv8>)
      requires Valid() && payload[..payloadLen] == Framed(data)
      ensures payloadLen == |data| + 2 && payload[..|data|] == data
      ensures forall i :: 0 <= i < |data| ==> payload[i] == data[i]
      ensures ((payload[|data| + 1] as bv16) << 8) | (payload[|data|] as bv16) == Crc(data)
    {
      FrameTrailer(data);
      hide Crc;
      assert payload[..|data|] == payload[..payloadLen][..|data|] == data;
      assert payload[|data|] == payload[..payloadLen][|data|]
             && payload[|data| + 1] == payload[..payloadLen][|data| + 1];
      assert forall i :: 0 <= i < |data| ==> payload[i] == payload[..payloadLen][i];
    }

    method StartRead() returns (expected: nat)
      requires Valid()
      ensures expected == 5 + 2 * numberOfRegisters as nat
    {
      expected := READ_EXPECTED_CHARACTERS + 2 * numberOfRegisters as nat;
    }

    method StartWrite16(data: bv16) returns (expected: nat)
      requires Valid()
      modifies this`payloadLen, payload
      ensures Valid() && expected == 8
      ensures payload[..payloadLen] == Framed(old(payload[..PAYLOAD_HEADER_LEN]) + [2] + Word16(data))
      ensures payloadLen == 11 && payload[..6] == old(payload[..6]) && payload[6] == 2
      ensures ((payload[7] as bv16) << 8) | (payload[8] as bv16) == data
      ensures ((payload[10] as bv16) << 8) | (payload[9] as bv16) == Crc(payload[..9])
    {
      hide Crc, Low, High;
      ghost var header := payload[..PAYLOAD_HEADER_LEN];
      payload[6] := 2;
      payload[7] := High(data);
      payload[8] := Low(data);
      payloadLen := PAYLOAD_HEADER_LEN + 3;
      assert payload[..9] == header + [2] + Word16(data);
      AppendCrc();
      ghost var body := header + [2] + Word16(data);
      WordInBytes(data);
      FrameIs(body);
      assert body[..6] == header && payload[..6] == payload[..9][..6];
      assert payload[7] == body[7] == High(data) && payload[8] == body[8] == Low(data);
      expected := WRITE_EXPECTED_CHARACTERS;
    }

    /** With a single register only the low 16 bits are written. */
    method StartWrite32(data: bv32) returns (expected: nat)
      requires Valid()
      modifies this`payloadLen, payload
      ensures Valid() && expected == 8
      ensures payload[..6] == old(payload[..6])
      ensures numberOfRegisters == 1 ==>
                && payloadLen == 11 && payload[6] == 2
                && ((payload[7] as bv32) << 8) | (payload[8] as bv32) == data & 0xFFFF
                && ((payload[10] as bv16) << 8) | (payload[9] as bv16) == Crc(payload[..9])
      ensures numberOfRegisters != 1 ==>
                && payloadLen == 13 && payload[6] == 4
                && ((payload[7] as bv32) << 8) | (payload[8] as bv32) == data & 0xFFFF
                && ((payload[9] as bv32) << 8) | (payload[10] as bv32) == data >> 16
                && ((payload[12] as bv16) << 8) | (payload[11] as bv16) == Crc(payload[..11])
      ensures payload[..payloadLen] ==
              var header := old(payload[..PAYLOAD_HEADER_LEN]);
              if numberOfRegisters == 1 then Framed(header + [2] + Word16((data & 0xFFFF) as bv16))
              else Framed(header + [4] + Word32(data))
    {
      hide Crc, Low, High;
      if numberOfRegisters == 1 {
        expected := StartWrite16((data & 0xFFFF) as bv16);
        LowHalf(data, payload[7], payload[8]);
        return;
      }
      ghost var header := payload[..PAYLOAD_HEADER_LEN];
      payload[6] := 4;
      payloadLen := PAYLOAD_HEADER_LEN + 1;
      payload[payloadLen] := ((data >> 8) & 0xFF) as bv8;
      payload[payloadLen + 1] := (data & 0xFF) as bv8;
      payload[payloadLen + 2] := (data >> 24) as bv8;
      payload[payloadLen + 3] := ((data >> 16) & 0xFF) as bv8;
      payloadLen := payloadLen + 4;
      assert payload[..11] == header + [4] + Word32(data);
      AppendCrc();
      ghost var word := Word32(data);
      ghost var body := header + [4] + word;
      LongInBytes(data);
      hide Word32;
      FrameIs(body);
      assert body[..6] == header && payload[..6] == payload[..11][..6];
      assert payload[7] == body[7] == word[0] && payload[8] == body[8] == word[1] && payload[9] == body[9] == word[2]
             && payload[10] == body[10] == word[3];
      expected := WRITE_EXPECTED_CHARACTERS;
    }

    method ReadIsOk() returns (ok: bool)
      requires Valid()
      ensures ok == ReadAccepted(rxbuf[..rxLen])
    {
      hide Crc;
      var crc := ComputeCrc(rxbuf, rxLen);
      if crc != 0 {
        return false;
      }
      if rxLen == ERROR_PACKET_LEN {
        return false;
      }
      return true;
    }

    method WriteIsOk() returns (ok: bool)
      requires Valid()
      ensures ok == WriteAccepted(rxbuf[..rxLen])
    {
      hide Crc;
      var crc := ComputeCrc(rxbuf, rxLen);
      if crc != 0 {
        return false;
      }
      if rxLen < WRITE_EXPECTED_CHARACTERS {
        return false;
      }
      return true;
    }

    function Get16(): bv16
      requires Valid()
      reads this, rxbuf
    {
      Value16(rxbuf[..])
    }

    function Get32(): bv32
      requires Valid()
      reads this, rxbuf
    {
      Value32(rxbuf[..])
    }
  }

  /** A response that was sent with its checksum and hit by an error burst of at most 16 bits is refused. */
  lemma CorruptedResponseRefused(data: seq<bv8>, rx: seq<bv8>, p: nat)
    requires |rx| == |data| + 2 && rx != Framed(data)
    requires forall k :: 0 <= k < 8 * |rx| && !(p <= k < p + 16) ==> Bits(rx)[k] == Bits(Framed(data))[k]
    ensures !ReadAccepted(rx) && !WriteAccepted(rx)
  {
    hide Crc, Bits;
    FramedIsZero(data);
    BurstErrorDetected(rx, Framed(data), p);
  }

  /** An undamaged response is accepted exactly by its length. */
  lemma IntactResponseAccepted(data: seq<bv8>)
    ensures ReadAccepted(Framed(data)) <==> |data| != 3
    ensures WriteAccepted(Framed(data)) <==> |data| >= 6
  {
    hide Crc;
    FramedIsZero(data);
  }

  /** What a write puts on the line is what a read of the same registers takes off it. */
  lemma ReadBackWritten(device: bv8, func: bv8, data: bv32, half: bv16)
    ensures Value32(Framed([device, func, 4] + Word32(data))) == data
    ensures Value16(Framed([device, func, 2] + Word16(half))) == half
  {
  }

  /** A response with a single register is taken as its 16 bits. */
  lemma ShortReadBack(device: bv8, func: bv8, half: bv16)
    ensures Value32(Framed([device, func, 2] + Word16(half))) == half as bv32
  {
    hide Crc;
    var rx := Framed([device, func, 2] + Word16(half));
    assert rx[2] == 2 && rx[3] == High(half) && rx[4] == Low(half);
    hide Framed, Word16, High, Low;
    WordInBytes(half);
  }

  /** Two registers at 14 of device 241, read as holding registers. */
  method TwoRegistersAreRead() returns (register: Register)
    ensures register.payload.Length == 32 && register.payloadLen == 8
    ensures register.payload[..8] == [241, 3, 0, 14, 0, 2, 177, 56]
  {
    register := new Register.ReadRequest(241, 14, 2, true);
    RequestChecksum();
    hide Crc;
    WordOf(register.payload[2], register.payload[3], 14);
    WordOf(register.payload[4], register.payload[5], 2);
    assert register.payload[..6] == [241, 3, 0, 14, 0, 2];
    WordOf(register.payload[7], register.payload[6], 0x38B1);
  }

  lemma WordOf(x: bv8, y: bv8, w: bv16)
    requires ((x as bv16) << 8) | (y as bv16) == w
    ensures x == High(w) && y == Low(w)
  {
  }

  lemma RequestChecksumSteps()
    ensures ByteFed(0xFFFF, 241) == 0xC47E && ByteFed(0xC47E, 3) == 0x2104 && ByteFed(0x2104, 0) == 0xC320
    ensures ByteFed(0xC320, 14) == 0x1C43 && ByteFed(0x1C43, 0) == 0xF15D && ByteFed(0xF15D, 2) == 0x38B1
  {
  }

  lemma RequestChecksum()
    ensures Crc([241, 3, 0, 14, 0, 2]) == 0x38B1
  {
    RequestChecksumSteps();
    hide ByteFed;
    var d: seq<bv8>, c: seq<bv8> := [2], [0, 2];
    var b: seq<bv8>, a: seq<bv8> := [14, 0, 2], [0, 14, 0, 2];
    var e: seq<bv8>, f: seq<bv8> := [3, 0, 14, 0, 2], [241, 3, 0, 14, 0, 2];
    assert d[1..] == [] && CrcFrom(0xF15D, d) == 0x38B1;
    assert c[1..] == d && CrcFrom(0x1C43, c) == 0x38B1;
    assert b[1..] == c && CrcFrom(0xC320, b) == 0x38B1;
    assert a[1..] == b && CrcFrom(0x2104, a) == 0x38B1;
    assert e[1..] == a && CrcFrom(0xC47E, e) == 0x38B1;
    assert f[1..] == e && CrcFrom(0xFFFF, f) == 0x38B1;
  }
}
