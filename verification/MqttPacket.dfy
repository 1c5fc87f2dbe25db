/**
 The parts every MQTT packet shares: fixed header, remaining length, two-byte integers and strings,
 as in sections 1.5.3 and 2.2 of MQTT Version 3.1.1. Writers advance an index into a byte array,
 readers advance an index towards an end mark.
 */
module MqttPacket {
  import opened Basics

  const MAX_REMAINING_LENGTH := 268435455
  const MAX_NO_OF_REMAINING_LENGTH_BYTES := 4
  const MQTTPACKET_BUFFER_TOO_SHORT := -2
  const MQTTPACKET_READ_ERROR := -1

  const CONNECT := 1
  const PUBLISH := 3
  const PUBACK := 4
  const PUBREC := 5
  const PUBREL := 6
  const PUBCOMP := 7
  const SUBSCRIBE := 8

  // ---------------------------------------------------------------- fixed header

  /** The header byte; each field is cut to its bit width. */
  function Header(packetType: nat, dup: nat, qos: nat, retain: nat): byte {
    packetType % 16 * 16 + dup % 2 * 8 + qos % 4 * 2 + retain % 2
  }

  function Type(header: byte): nat {
    header / 16
  }

  function Dup(header: byte): nat {
    header / 8 % 2
  }

  function Qos(header: byte): nat {
    header / 2 % 4
  }

  function Retain(header: byte): nat {
    header % 2
  }

  lemma FieldsOf(h: byte, t: nat, u: nat, v: nat)
    requires 2 * v <= h < 2 * v + 2 && 4 * u <= v < 4 * u + 4 && 2 * t <= u < 2 * t + 2
    ensures Type(h) == t && Dup(h) == u - 2 * t && Qos(h) == v - 4 * u && Retain(h) == h - 2 * v
  {
    assert h / 2 == v && h / 8 == u;
  }

  lemma HeaderFields(packetType: nat, dup: nat, qos: nat, retain: nat)
    requires packetType < 16 && dup < 2 && qos < 4 && retain < 2
    ensures var h := Header(packetType, dup, qos, retain);
            Type(h) == packetType && Dup(h) == dup && Qos(h) == qos && Retain(h) == retain
  {
    hide Type, Dup, Qos, Retain;
    var h := Header(packetType, dup, qos, retain);
    var u := 2 * packetType + dup;
    var v := 4 * u + qos;
    assert h == 2 * v + retain;
    FieldsOf(h, packetType, u, v);
  }

  /** Section 2.2: the type in the upper four bits, then dup, two bits of QoS, and retain. */
  lemma HeaderInBits(packetType: nat, dup: nat, qos: nat, retain: nat)
    requires packetType < 16 && dup < 2 && qos < 4 && retain < 2
    ensures Header(packetType, dup, qos, retain) == 16 * packetType + 8 * dup + 2 * qos + retain
  {
  }

  /** The numbers of the packet types and of the error returns. */
  lemma Numbers()
    ensures CONNECT == 1 && PUBLISH == 3 && PUBACK == 4 && PUBREC == 5 && PUBREL == 6 && PUBCOMP == 7 && SUBSCRIBE == 8
    ensures MQTTPACKET_BUFFER_TOO_SHORT == -2 && MQTTPACKET_READ_ERROR == -1
    ensures MAX_REMAINING_LENGTH == 268435455 && MAX_NO_OF_REMAINING_LENGTH_BYTES == 4
  {
  }

  // ---------------------------------------------------------------- remaining length

  /** Seven bits a byte, least significant first, the top bit set on all but the last. */
  function EncodeLength(n: nat): (s: seq<byte>)
    ensures |s| >= 1
  {
    if n < 128 then [n] else [n % 128 + 128] + EncodeLength(n / 128)
  }

  datatype Length = Length(value: nat, count: nat)

  /** There are bytes for the decoder to read until it stops; `k` were read before. */
  predicate LengthReadable(s: seq<byte>, k: nat)
    requires k <= MAX_NO_OF_REMAINING_LENGTH_BYTES
    decreases |s|
  {
    k == MAX_NO_OF_REMAINING_LENGTH_BYTES || (s != [] && (s[0] < 128 || LengthReadable(s[1..], k + 1)))
  }

  /** Value and count that the decoder reports; a fifth byte is counted but never read. */
  function DecodeLength(s: seq<byte>, k: nat): (r: Length)
    requires k <= MAX_NO_OF_REMAINING_LENGTH_BYTES && LengthReadable(s, k)
    ensures k < r.count <= MAX_NO_OF_REMAINING_LENGTH_BYTES + 1
    ensures r.count <= MAX_NO_OF_REMAINING_LENGTH_BYTES ==> r.count - k <= |s|
    decreases |s|
  {
    if k == MAX_NO_OF_REMAINING_LENGTH_BYTES then Length(0, k + 1)
    else if s[0] < 128 then Length(s[0], k + 1)
    else
      var rest := DecodeLength(s[1..], k + 1);
      Length(s[0] % 128 + 128 * rest.value, rest.count)
  }

  /** The largest number that `k` more length bytes can carry. */
  function Capacity(k: nat): nat {
    if k == 0 then 0 else 128 * Capacity(k - 1) + 127
  }

  lemma EncodedSize(n: nat)
    ensures |EncodeLength(n)| == if n < 128 then 1 else if n < 16384 then 2 else if n < 2097152 then 3
                                 else if n < 268435456 then 4 else |EncodeLength(n)|
    ensures n >= 268435456 ==> |EncodeLength(n)| > 4
  {
  }

  lemma TwoLengthBytes(n: nat)
    requires 128 <= n < 16384
    ensures EncodeLength(n) == [n % 128 + 128, n / 128]
  {
    assert EncodeLength(n / 128) == [n / 128];
  }

  lemma ThreeLengthBytes(n: nat)
    requires 16384 <= n < 2097152
    ensures EncodeLength(n) == [n % 128 + 128, n / 128 % 128 + 128, n / 128 / 128]
  {
    TwoLengthBytes(n / 128);
  }

  lemma FourLengthBytes(n: nat)
    requires 2097152 <= n < 268435456
    ensures EncodeLength(n) == [n % 128 + 128, n / 128 % 128 + 128, n / 128 / 128 % 128 + 128, n / 128 / 128 / 128]
  {
    ThreeLengthBytes(n / 128);
  }

  lemma DivideTwice(n: nat)
    ensures n / 128 / 128 == n / 16384 && n / 16384 / 128 == n / 2097152
  {
  }

  /** Section 2.2.3: seven bits a byte, the lowest first; the top bit says that more follow. */
  lemma LengthInBytes(n: nat)
    requires n <= 268435455
    ensures EncodeLength(n) ==
            if n < 128 then [n]
            else if n < 16384 then [n % 128 + 128, n / 128]
            else if n < 2097152 then [n % 128 + 128, n / 128 % 128 + 128, n / 16384]
            else [n % 128 + 128, n / 128 % 128 + 128, n / 16384 % 128 + 128, n / 2097152]
  {
    DivideTwice(n);
    if n >= 2097152 {
      FourLengthBytes(n);
    } else if n >= 16384 {
      ThreeLengthBytes(n);
    } else if n >= 128 {
      TwoLengthBytes(n);
    }
  }

  /** Decoding an encoded length gives the length and its byte count back, whatever follows. */
  lemma {:induction false} LengthRoundTrip(n: nat, k: nat, rest: seq<byte>)
    requires k <= MAX_NO_OF_REMAINING_LENGTH_BYTES && n <= Capacity(MAX_NO_OF_REMAINING_LENGTH_BYTES - k)
    requires k < MAX_NO_OF_REMAINING_LENGTH_BYTES
    ensures LengthReadable(EncodeLength(n) + rest, k)
    ensures DecodeLength(EncodeLength(n) + rest, k) == Length(n, k + |EncodeLength(n)|)
    decreases n
  {
    var s := EncodeLength(n) + rest;
    if n >= 128 {
      assert s[1..] == EncodeLength(n / 128) + rest;
      assert Capacity(1) == 127;
      assert Capacity(4 - k) == 128 * Capacity(3 - k) + 127;
      LengthRoundTrip(n / 128, k + 1, rest);
    }
  }

  lemma RemainingLengthRoundTrip(n: nat, rest: seq<byte>)
    requires n <= MAX_REMAINING_LENGTH
    ensures LengthReadable(EncodeLength(n) + rest, 0)
    ensures DecodeLength(EncodeLength(n) + rest, 0) == Length(n, |EncodeLength(n)|)
  {
    assert Capacity(1) == 127 && Capacity(2) == 16383 && Capacity(3) == 2097151 && Capacity(4) == 268435455;
    LengthRoundTrip(n, 0, rest);
  }

  /** The size that the writers test against their buffer. */
  function PacketLen(remLen: nat): nat {
    var n := remLen + 1;
    if n < 128 then n + 1 else if n < 16384 then n + 2 else if n < 2097151 then n + 3 else n + 4
  }

  /**
   The tested size is the true packet size but for four values, where it is one too many; it falls
   short only beyond the largest remaining length of the protocol.
   */
  lemma PacketLenIsTight(remLen: nat)
    ensures var size := 1 + |EncodeLength(remLen)| + remLen;
            && (remLen in {127, 16383, 2097150, 2097151} <==> PacketLen(remLen) == size + 1)
            && (remLen > MAX_REMAINING_LENGTH <==> PacketLen(remLen) < size)
            && (PacketLen(remLen) <= size + 1)
  {
    EncodedSize(remLen);
  }

  method Encode(buf: array<byte>, off: nat, length: nat) returns (rc: nat)
    requires off + |EncodeLength(length)| <= buf.Length
    modifies buf
    ensures rc == |EncodeLength(length)|
    ensures buf[..off + rc] == old(buf[..off]) + EncodeLength(length)
    ensures forall j :: off + rc <= j < buf.Length ==> buf[j] == old(buf[j])
  {
    rc := 0;
    var n := length;
    while true
      invariant off + rc + |EncodeLength(n)| == off + |EncodeLength(length)|
      invariant buf[..off + rc] + EncodeLength(n) == old(buf[..off]) + EncodeLength(length)
      invariant forall j :: off + rc <= j < buf.Length ==> buf[j] == old(buf[j])
      decreases n
    {
      var d := n % 128;
      ghost var tail := EncodeLength(n);
      n := n / 128;
      if n > 0 {
        d := d + 128;
      }
      buf[off + rc] := d;
      rc := rc + 1;
      assert buf[..off + rc] == buf[..off + rc - 1] + [d];
      if n == 0 {
        assert tail == [d];
        return;
      }
    }
  }

  lemma DecodeUnfolds(s: seq<byte>, k: nat)
    requires k <= MAX_NO_OF_REMAINING_LENGTH_BYTES && LengthReadable(s, k)
    ensures k == MAX_NO_OF_REMAINING_LENGTH_BYTES ==> DecodeLength(s, k) == Length(0, k + 1)
    ensures k < MAX_NO_OF_REMAINING_LENGTH_BYTES ==> s != []
    ensures k < MAX_NO_OF_REMAINING_LENGTH_BYTES && s[0] < 128 ==> DecodeLength(s, k) == Length(s[0], k + 1)
    ensures k < MAX_NO_OF_REMAINING_LENGTH_BYTES && s[0] >= 128 ==>
              && LengthReadable(s[1..], k + 1)
              && DecodeLength(s, k) == Length(s[0] % 128 + 128 * DecodeLength(s[1..], k + 1).value,
                                              DecodeLength(s[1..], k + 1).count)
  {
  }

  /** One more digit of a length is taken off the rest and added with its weight. */
  lemma Regroup(r: int, d: int, q: int, m: int, n: int)
    requires n == 128 * q + d
    ensures (r + d * m) + (m * 128) * q == r + m * n
  {
  }

  method DecodeBuf(buf: array<byte>, off: nat) returns (value: nat, len: nat)
    requires off <= buf.Length && LengthReadable(buf[off..], 0)
    ensures Length(value, len) == DecodeLength(buf[off..], 0)
  {
    hide LengthReadable, DecodeLength;
    value, len := 0, 0;
    var multiplier := 1;
    ghost var goal := DecodeLength(buf[off..], 0);
    ghost var rest := buf[off..];
    while true
      invariant len <= MAX_NO_OF_REMAINING_LENGTH_BYTES && off + len <= buf.Length
      invariant rest == buf[off + len..] && LengthReadable(rest, len)
      invariant DecodeLength(rest, len).count == goal.count
      invariant value + multiplier * DecodeLength(rest, len).value == goal.value
      decreases MAX_NO_OF_REMAINING_LENGTH_BYTES - len
    {
      DecodeUnfolds(rest, len);
      if len == MAX_NO_OF_REMAINING_LENGTH_BYTES {
        len := len + 1;
        return;
      }
      var c := buf[off + len];
      len := len + 1;
      Regroup(value, c % 128, if c >= 128 then DecodeLength(rest[1..], len).value else 0, multiplier,
              DecodeLength(rest, len - 1).value);
      value := value + c % 128 * multiplier;
      multiplier := multiplier * 128;
      if c < 128 {
        return;
      }
      rest := rest[1..];
    }
  }

  // ---------------------------------------------------------------- integers and strings

  /** Two bytes, most significant first; a larger number is cut to 16 bits. */
  function Int16(n: nat): (s: seq<byte>)
    ensures |s| == 2
  {
    [n / 256 % 256, n % 256]
  }

  /** A length-prefixed string. */
  function Field(text: seq<byte>): (s: seq<byte>)
    ensures |s| == 2 + |text|
  {
    Int16(|text|) + text
  }

  /** Section 1.5.2: the most significant byte first. */
  lemma IntInBytes(n: nat, text: seq<byte>)
    requires n < 65536 && |text| < 65536
    ensures Int16(n)[0] as int * 256 + Int16(n)[1] == n
    ensures Field(text)[0] as int * 256 + Field(text)[1] == |text| && Field(text)[2..] == text
  {
  }

  /**
   The source's string record: a C string pointer, and a length with a data pointer. `None` stands
   for a null pointer.
   */
  datatype MqttString = MqttString(cstring: Option<seq<byte>>, lenstring: Option<seq<byte>>) {
    predicate Present() {
      cstring.Some? || lenstring.Some?
    }

    /** The length the size computation uses: the C string is preferred. */
    function StrLen(): nat {
      if cstring.Some? then |cstring.value| else if lenstring.Some? then |lenstring.value| else 0
    }

    /** The bytes the writer emits: a non-empty counted string is preferred. */
    function Text(): seq<byte> {
      if lenstring.Some? && lenstring.value != [] then lenstring.value
      else if cstring.Some? then cstring.value
      else []
    }

    /** The size computation counts the bytes that the writer emits. */
    predicate WellSized() {
      StrLen() == |Text()|
    }
  }

  /** A counted string that is not empty goes before a C string. */
  lemma TextOfForms(c: seq<byte>, l: seq<byte>)
    ensures MqttString(Some(c), None).Text() == c && MqttString(None, Some(l)).Text() == l
    ensures MqttString(Some(c), Some(l)).Text() == (if l == [] then c else l)
    ensures MqttString(None, None).Text() == [] && !MqttString(None, None).Present()
    ensures MqttString(Some(c), None).Present() && MqttString(None, Some(l)).Present()
  {
  }

  /** The size computation and the writer agree in one form, and in two only when the lengths do. */
  lemma WellSizedForms(m: MqttString)
    ensures m.WellSized() <==>
            (m.cstring.Some? && m.lenstring.Some? && m.lenstring.value != [] ==>
               |m.cstring.value| == |m.lenstring.value|)
  {
  }

  method WriteChar(buf: array<byte>, ptr: nat, c: byte) returns (next: nat)
    requires ptr < buf.Length
    modifies buf
    ensures next == ptr + 1
    ensures buf[..next] == old(buf[..ptr]) + [c]
    ensures forall j :: next <= j < buf.Length ==> buf[j] == old(buf[j])
  {
    buf[ptr] := c;
    next := ptr + 1;
  }

  method WriteInt(buf: array<byte>, ptr: nat, n: nat) returns (next: nat)
    requires ptr + 2 <= buf.Length
    modifies buf
    ensures next == ptr + 2
    ensures buf[..next] == old(buf[..ptr]) + Int16(n)
    ensures forall j :: next <= j < buf.Length ==> buf[j] == old(buf[j])
  {
    next := WriteChar(buf, ptr, n / 256 % 256);
    next := WriteChar(buf, next, n % 256);
  }

  /** `memcpy` to the write position. */
  method WriteBytes(buf: array<byte>, ptr: nat, data: seq<byte>) returns (next: nat)
    requires ptr + |data| <= buf.Length
    modifies buf
    ensures next == ptr + |data|
    ensures buf[..next] == old(buf[..ptr]) + data
    ensures forall j :: next <= j < buf.Length ==> buf[j] == old(buf[j])
  {
    next := ptr + |data|;
    for i := 0 to |data|
      invariant buf[..ptr + i] == old(buf[..ptr]) + data[..i]
      invariant forall j :: next <= j < buf.Length ==> buf[j] == old(buf[j])
    {
      buf[ptr + i] := data[i];
    }
  }

  method WriteCString(buf: array<byte>, ptr: nat, text: seq<byte>) returns (next: nat)
    requires ptr + 2 + |text| <= buf.Length
    modifies buf
    ensures next == ptr + 2 + |text|
    ensures buf[..next] == old(buf[..ptr]) + Field(text)
    ensures forall j :: next <= j < buf.Length ==> buf[j] == old(buf[j])
  {
    next := WriteInt(buf, ptr, |text|);
    next := WriteBytes(buf, next, text);
  }

  method WriteMqttString(buf: array<byte>, ptr: nat, m: MqttString) returns (next: nat)
    requires ptr + 2 + |m.Text()| <= buf.Length
    modifies buf
    ensures next == ptr + 2 + |m.Text()|
    ensures buf[..next] == old(buf[..ptr]) + Field(m.Text())
    ensures forall j :: next <= j < buf.Length ==> buf[j] == old(buf[j])
  {
    if m.lenstring.Some? && |m.lenstring.value| > 0 {
      next := WriteCString(buf, ptr, m.lenstring.value);
    } else if m.cstring.Some? {
      next := WriteCString(buf, ptr, m.cstring.value);
    } else {
      next := WriteInt(buf, ptr, 0);
    }
  }

  // ---------------------------------------------------------------- reading

  function ReadInt(s: seq<byte>, pos: nat): nat
    requires pos + 2 <= |s|
  {
    s[pos] as int * 256 + s[pos + 1]
  }

  /** The string at `pos` when it ends before `end`, and the position after it. */
  function ReadString(s: seq<byte>, pos: nat, end: nat): (r: Option<(seq<byte>, nat)>)
    requires end <= |s|
    ensures r.Some? ==> pos + 2 <= r.value.1 <= end && r.value.1 == pos + 2 + |r.value.0|
  {
    if pos + 1 < end && pos + 2 + ReadInt(s, pos) <= end then
      var next := pos + 2 + ReadInt(s, pos);
      Some((s[pos + 2..next], next))
    else None
  }

  lemma ReadsInt(pre: seq<byte>, n: nat, rest: seq<byte>)
    requires n < 65536
    ensures ReadInt(pre + Int16(n) + rest, |pre|) == n
  {
  }

  /** A written string is read back from wherever it stands. */
  lemma ReadsField(s: seq<byte>, pre: seq<byte>, text: seq<byte>, rest: seq<byte>, end: nat)
    requires |text| < 65536 && s == pre + Field(text) + rest
    requires |pre| + 2 + |text| <= end <= |s|
    ensures ReadString(s, |pre|, end) == Some((text, |pre| + 2 + |text|))
  {
    assert s == pre + Int16(|text|) + (text + rest);
    ReadsInt(pre, |text|, text + rest);
    assert s[|pre| + 2..|pre| + 2 + |text|] == text;
  }

  method ReadMqttLenString(buf: array<byte>, pos: nat, end: nat) returns (ok: bool, text: seq<byte>, next: nat)
    requires end <= buf.Length
    ensures ok <==> ReadString(buf[..], pos, end).Some?
    ensures ok ==> ReadString(buf[..], pos, end) == Some((text, next))
    ensures next >= pos
  {
    ok, text, next := false, [], pos;
    if end - pos > 1 {
      var len := buf[next] as int * 256 + buf[next + 1];
      next := next + 2;
      if next + len <= end {
        text := buf[next..next + len];
        next := next + len;
        ok := true;
        assert text == buf[..][next - len..next];
      }
    }
  }
}
