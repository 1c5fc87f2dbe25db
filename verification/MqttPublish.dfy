/**
 PUBLISH packets and acknowledgements, as in sections 3.3 to 3.7 of MQTT Version 3.1.1.
 */
module MqttPublish {
  import opened Basics
  import opened MqttPacket

  datatype Publish = Publish(dup: nat, qos: nat, retain: nat, id: nat, topic: seq<byte>, payload: seq<byte>) {
    predicate Valid() {
      dup < 2 && qos < 3 && retain < 2 && id < 65536 && |topic| < 65536 && RemLen() <= MAX_REMAINING_LENGTH
    }

    function RemLen(): nat {
      2 + |topic| + |payload| + if qos > 0 then 2 else 0
    }

    /** What follows the remaining length. */
    function Body(): (s: seq<byte>)
      ensures |s| == RemLen()
    {
      Field(topic) + (if qos > 0 then Int16(id) else []) + payload
    }

    /** The packet on the wire. */
    function Bytes(): seq<byte> {
      [Header(PUBLISH, dup, qos, retain)] + EncodeLength(RemLen()) + Body()
    }
  }

  /** What the parser reports: no packet id at QoS 0, and a payload length that may have run below zero. */
  datatype Received = Received(dup: nat, qos: nat, retain: nat, id: Option<nat>, topic: seq<byte>,
                               payload: seq<byte>, payloadLen: int)

  /** The buffer holds as many bytes as the parser looks at. */
  predicate InBounds(s: seq<byte>) {
    s != [] && (Type(s[0]) == PUBLISH ==>
      LengthReadable(s[1..], 0) && End(s) <= |s| &&
      (Topic(s).Some? && Qos(s[0]) > 0 ==> Topic(s).value.1 + 2 <= |s|))
  }

  function End(s: seq<byte>): nat
    requires s != [] && LengthReadable(s[1..], 0)
  {
    var l := DecodeLength(s[1..], 0);
    1 + l.count + l.value
  }

  function Topic(s: seq<byte>): Option<(seq<byte>, nat)>
    requires s != [] && LengthReadable(s[1..], 0) && End(s) <= |s|
  {
    ReadString(s, 1 + DecodeLength(s[1..], 0).count, End(s))
  }

  function Parse(s: seq<byte>): Option<Received>
    requires InBounds(s)
  {
    var h := s[0];
    if Type(h) != PUBLISH || Topic(s).None? then None
    else
      var (topic, pos) := Topic(s).value;
      var start := if Qos(h) > 0 then pos + 2 else pos;
      Some(Received(Dup(h), Qos(h), Retain(h), if Qos(h) > 0 then Some(ReadInt(s, pos)) else None, topic,
                    if start <= End(s) then s[start..End(s)] else [], End(s) - start))
  }

  /**
   The return code. On a topic that overruns the packet the source returns the number of length
   bytes it has just stored in the same variable.
   */
  function ReturnCode(s: seq<byte>): nat
    requires InBounds(s)
  {
    if Type(s[0]) != PUBLISH then 0
    else if Topic(s).None? then DecodeLength(s[1..], 0).count
    else 1
  }

  /** Code 1 means a parsed packet, but for an overrunning topic in a packet with a one-byte length. */
  lemma SuccessMeansParsed(s: seq<byte>)
    requires InBounds(s)
    ensures ReturnCode(s) == 1 <==>
            Parse(s).Some? || (Type(s[0]) == PUBLISH && Topic(s).None? && DecodeLength(s[1..], 0).count == 1)
    ensures ReturnCode([48, 2, 255, 255]) == 1 && Parse([48, 2, 255, 255]) == None
  {
  }

  lemma BytesInOrder(p: Publish)
    ensures p.Bytes() == [Header(PUBLISH, p.dup, p.qos, p.retain)] + EncodeLength(p.RemLen()) + Field(p.topic)
                         + (if p.qos > 0 then Int16(p.id) else []) + p.payload
    ensures |p.Bytes()| <= PacketLen(p.RemLen()) <= |p.Bytes()| + 1 || p.RemLen() > MAX_REMAINING_LENGTH
  {
    hide Header, EncodeLength, Field, Int16, PacketLen;
    PacketLenIsTight(p.RemLen());
  }

  /** Byte by byte, as in section 3.3. */
  lemma PublishInBytes(p: Publish)
    requires p.Valid()
    ensures var n := |p.topic| + |p.payload| + if p.qos > 0 then 4 else 2;
            p.Bytes() ==
              [48 + 8 * p.dup + 2 * p.qos + p.retain] + EncodeLength(n) + [|p.topic| / 256, |p.topic| % 256] + p.topic
              + (if p.qos > 0 then [p.id / 256, p.id % 256] else []) + p.payload
  {
    BytesInOrder(p);
    HeaderInBits(PUBLISH, p.dup, p.qos, p.retain);
    hide Publish.Bytes, Header, EncodeLength;
    assert Field(p.topic) == [|p.topic| / 256, |p.topic| % 256] + p.topic;
    assert Int16(p.id) == [p.id / 256, p.id % 256];
  }

  /**
   A packet without room for its id takes the id from behind its end: that is so exactly when the length
   reported for the payload is below zero.
   */
  lemma IdBehindTheEnd(s: seq<byte>, x: byte, y: byte)
    requires InBounds(s) && Parse(s).Some?
    ensures Parse(s).value.payloadLen < 0 <==> Qos(s[0]) > 0 && Topic(s).value.1 + 2 > End(s)
    ensures Parse(s).value.payloadLen < 0 ==> Parse(s).value.payload == [] && ReturnCode(s) == 1
    ensures InBounds([50, 3, 0, 1, 97, x, y]) && ReturnCode([50, 3, 0, 1, 97, x, y]) == 1
    ensures Parse([50, 3, 0, 1, 97, x, y]) == Some(Received(0, 1, 0, Some(x as int * 256 + y), [97], [], -2))
  {
    var t: seq<byte> := [50, 3, 0, 1, 97, x, y];
    assert t[1..] == [3, 0, 1, 97, x, y];
    assert t[4..5] == [97];
  }

  lemma PublishFrame(p: Publish, rest: seq<byte>)
    requires p.Valid()
    ensures var s := p.Bytes() + rest;
            && s[0] == Header(PUBLISH, p.dup, p.qos, p.retain) && LengthReadable(s[1..], 0)
            && DecodeLength(s[1..], 0) == Length(p.RemLen(), |EncodeLength(p.RemLen())|) && End(s) == |p.Bytes()|
  {
    hide Header, EncodeLength;
    var s := p.Bytes() + rest;
    assert s[1..] == EncodeLength(p.RemLen()) + (p.Body() + rest);
    RemainingLengthRoundTrip(p.RemLen(), p.Body() + rest);
  }

  lemma PublishTopic(p: Publish, rest: seq<byte>)
    requires p.Valid() && |p.topic| < 65536
    ensures var s := p.Bytes() + rest;
            && s != [] && LengthReadable(s[1..], 0) && End(s) <= |s|
            && Topic(s) == Some((p.topic, 3 + |EncodeLength(p.RemLen())| + |p.topic|))
  {
    hide Header, EncodeLength, Field, ReadString;
    var s := p.Bytes() + rest;
    PublishFrame(p, rest);
    BytesInOrder(p);
    var pre := [s[0]] + EncodeLength(p.RemLen());
    var suf := (if p.qos > 0 then Int16(p.id) else []) + p.payload + rest;
    assert s == pre + Field(p.topic) + suf;
    ReadsField(s, pre, p.topic, suf, End(s));
  }

  lemma PublishIdAndPayload(p: Publish, rest: seq<byte>)
    requires p.Valid()
    ensures var s := p.Bytes() + rest;
            var pos := 3 + |EncodeLength(p.RemLen())| + |p.topic|;
            && (p.qos > 0 ==> pos + 2 <= |s| && ReadInt(s, pos) == p.id)
            && var start := if p.qos > 0 then pos + 2 else pos;
            && |p.Bytes()| == start + |p.payload| && s[start..start + |p.payload|] == p.payload
  {
    hide Header, EncodeLength, ReadInt, Int16;
    BytesInOrder(p);
    var pre := [Header(PUBLISH, p.dup, p.qos, p.retain)] + EncodeLength(p.RemLen()) + Field(p.topic);
    if p.qos > 0 {
      assert p.Bytes() + rest == pre + Int16(p.id) + (p.payload + rest);
      ReadsInt(pre, p.id, p.payload + rest);
    }
  }

  /** Every valid PUBLISH is read back from its bytes, whatever follows them in the buffer. */
  lemma PublishRoundTrip(p: Publish, rest: seq<byte>)
    requires p.Valid()
    ensures InBounds(p.Bytes() + rest)
    ensures ReturnCode(p.Bytes() + rest) == 1
    ensures Parse(p.Bytes() + rest) ==
            Some(Received(p.dup, p.qos, p.retain, if p.qos > 0 then Some(p.id) else None, p.topic, p.payload,
                          |p.payload|))
  {
    hide Header, Type, Dup, Qos, Retain, EncodeLength, ReadInt, Publish.Bytes, LengthReadable, End, Topic,
         DecodeLength;
    HeaderFields(PUBLISH, p.dup, p.qos, p.retain);
    PublishFrame(p, rest);
    PublishTopic(p, rest);
    PublishIdAndPayload(p, rest);
  }

  lemma PublishLengthIsExact(p: Publish, topicName: MqttString)
    requires p.topic == topicName.Text() && topicName.WellSized()
    ensures 2 + topicName.StrLen() + |p.payload| + (if p.qos > 0 then 2 else 0) == p.RemLen()
  {
  }

  method SerializePublish(buf: array<byte>, buflen: nat, dup: nat, qos: nat, retained: nat, packetid: nat,
                          topicName: MqttString, payload: seq<byte>) returns (rc: int)
    requires buflen <= buf.Length && topicName.WellSized()
    requires var p := Publish(dup, qos, retained, packetid, topicName.Text(), payload);
             PacketLen(p.RemLen()) <= buflen ==> p.Valid()
    modifies buf
    ensures var p := Publish(dup, qos, retained, packetid, topicName.Text(), payload);
            if PacketLen(p.RemLen()) > buflen then
              rc == MQTTPACKET_BUFFER_TOO_SHORT && buf[..] == old(buf[..])
            else
              0 < rc <= buflen && buf[..rc] == p.Bytes() && buf[rc..] == old(buf[rc..])
  {
    hide Header, EncodeLength, PacketLen, Publish.RemLen, Publish.Body, MqttString.Text, MqttString.StrLen,
         MqttString.WellSized;
    ghost var p := Publish(dup, qos, retained, packetid, topicName.Text(), payload);
    BytesInOrder(p);
    PublishLengthIsExact(p, topicName);
    var remLen := 2 + topicName.StrLen() + |payload| + if qos > 0 then 2 else 0;
    if PacketLen(remLen) > buflen {
      return MQTTPACKET_BUFFER_TOO_SHORT;
    }
    var ptr := WriteChar(buf, 0, Header(PUBLISH, dup, qos, retained));
    var n := Encode(buf, ptr, remLen);
    rc := WriteVariablePart(buf, ptr + n, topicName, qos, packetid, payload, p);
  }

  /** The part after the remaining length: topic, packet id above QoS 0, payload. */
  method WriteVariablePart(buf: array<byte>, start: nat, topicName: MqttString, qos: nat, packetid: nat,
                           payload: seq<byte>, ghost p: Publish) returns (ptr: nat)
    requires p.topic == topicName.Text() && p.qos == qos && p.id == packetid && p.payload == payload
    requires start + p.RemLen() <= buf.Length
    modifies buf
    ensures ptr == start + p.RemLen() && buf[..ptr] == old(buf[..start]) + p.Body()
    ensures forall j :: ptr <= j < buf.Length ==> buf[j] == old(buf[j])
  {
    hide Field, Int16, MqttString.Text;
    ptr := WriteMqttString(buf, start, topicName);
    if qos > 0 {
      ptr := WriteInt(buf, ptr, packetid);
    }
    ptr := WriteBytes(buf, ptr, payload);
  }

  /** `r` is `None` when not all of the out-parameters are set. */
  method DeserializePublish(buf: array<byte>) returns (rc: int, r: Option<Received>)
    requires InBounds(buf[..])
    ensures rc == ReturnCode(buf[..]) && r == Parse(buf[..])
  {
    hide LengthReadable, DecodeLength, ReadString, Type, Qos, Dup, Retain;
    var header := buf[0];
    assert buf[..][0] == header;
    if Type(header) != PUBLISH {
      return 0, None;
    }
    assert buf[1..] == buf[..][1..];
    var mylen, n := DecodeBuf(buf, 1);
    var curdata := 1 + n;
    var enddata := curdata + mylen;
    var ok, topic, next := ReadMqttLenString(buf, curdata, enddata);
    if !ok {
      return n, None;
    }
    curdata := next;
    var id: Option<nat> := None;
    if Qos(header) > 0 {
      id := Some(buf[curdata] as int * 256 + buf[curdata + 1]);
      curdata := curdata + 2;
    }
    var payloadLen := enddata - curdata;
    var payload := if curdata <= enddata then buf[curdata..enddata] else [];
    rc, r := 1, Some(Received(Dup(header), Qos(header), Retain(header), id, topic, payload, payloadLen));
  }

  // ---------------------------------------------------------------- acknowledgements

  function AckBytes(packetType: nat, dup: nat, id: nat): seq<byte> {
    [Header(packetType, dup, if packetType == PUBREL then 1 else 0, 0), 2] + Int16(id)
  }

  /** Byte by byte, as in sections 3.4 to 3.7: the flag bits of a PUBREL are 2. */
  lemma AckInBytes(dup: nat, id: nat)
    requires dup < 2 && id < 65536
    ensures AckBytes(PUBACK, dup, id) == [64 + 8 * dup, 2, id / 256, id % 256]
    ensures AckBytes(PUBREC, dup, id) == [80 + 8 * dup, 2, id / 256, id % 256]
    ensures AckBytes(PUBREL, dup, id) == [98 + 8 * dup, 2, id / 256, id % 256]
    ensures AckBytes(PUBCOMP, dup, id) == [112 + 8 * dup, 2, id / 256, id % 256]
  {
    HeaderInBits(PUBACK, dup, 0, 0);
    HeaderInBits(PUBREC, dup, 0, 0);
    HeaderInBits(PUBREL, dup, 1, 0);
    HeaderInBits(PUBCOMP, dup, 0, 0);
    hide Header;
    assert Int16(id) == [id / 256, id % 256];
  }

  /** The packet id is not set when the packet is too short to hold it. */
  datatype Ack = Ack(packetType: nat, dup: nat, id: Option<nat>)

  predicate AckInBounds(s: seq<byte>) {
    s != [] && LengthReadable(s[1..], 0) && End(s) <= |s|
  }

  function ParseAck(s: seq<byte>): Ack
    requires AckInBounds(s)
  {
    var l := DecodeLength(s[1..], 0);
    Ack(Type(s[0]), Dup(s[0]), if l.value < 2 then None else Some(ReadInt(s, 1 + l.count)))
  }

  /** The return code; on a packet too short it is the number of length bytes. */
  function AckCode(s: seq<byte>): nat
    requires AckInBounds(s)
  {
    var l := DecodeLength(s[1..], 0);
    if l.value < 2 then l.count else 1
  }

  /** Code 1 comes with a packet id, but for a packet too short with a one-byte length. */
  lemma SuccessMeansId(s: seq<byte>)
    requires AckInBounds(s)
    ensures AckCode(s) == 1 <==> ParseAck(s).id.Some? || DecodeLength(s[1..], 0) in {Length(0, 1), Length(1, 1)}
    ensures AckCode([64, 0]) == 1 && ParseAck([64, 0]).id == None
  {
  }

  lemma AckRoundTrip(packetType: nat, dup: nat, id: nat, rest: seq<byte>)
    requires packetType < 16 && dup < 2 && id < 65536
    ensures var s := AckBytes(packetType, dup, id) + rest;
            AckInBounds(s) && AckCode(s) == 1 && ParseAck(s) == Ack(packetType, dup, Some(id))
  {
    hide Header, Type, Dup;
    var s := AckBytes(packetType, dup, id) + rest;
    HeaderFields(packetType, dup, if packetType == PUBREL then 1 else 0, 0);
    assert s[1..] == [2] + (Int16(id) + rest);
    assert s == [s[0], 2] + Int16(id) + rest;
    ReadsInt([s[0], 2], id, rest);
  }

  method SerializeAck(buf: array<byte>, buflen: nat, packetType: nat, dup: nat, packetid: nat) returns (rc: int)
    requires buflen <= buf.Length
    modifies buf
    ensures buflen < 4 ==> rc == MQTTPACKET_BUFFER_TOO_SHORT && buf[..] == old(buf[..])
    ensures buflen >= 4 ==> rc == 4 && buf[..4] == AckBytes(packetType, dup, packetid) && buf[4..] == old(buf[4..])
  {
    if buflen < 4 {
      return MQTTPACKET_BUFFER_TOO_SHORT;
    }
    hide Header, Int16;
    var ptr := WriteChar(buf, 0, Header(packetType, dup, if packetType == PUBREL then 1 else 0, 0));
    assert EncodeLength(2) == [2];
    var n := Encode(buf, ptr, 2);
    ptr := ptr + n;
    ptr := WriteInt(buf, ptr, packetid);
    rc := ptr;
  }

  method DeserializeAck(buf: array<byte>) returns (rc: int, r: Ack)
    requires AckInBounds(buf[..])
    ensures rc == AckCode(buf[..]) && r == ParseAck(buf[..])
  {
    hide LengthReadable, DecodeLength, Type, Dup;
    var header := buf[0];
    assert buf[..][0] == header;
    assert buf[1..] == buf[..][1..];
    var mylen, n := DecodeBuf(buf, 1);
    var curdata := 1 + n;
    if mylen < 2 {
      return n, Ack(Type(header), Dup(header), None);
    }
    rc, r := 1, Ack(Type(header), Dup(header), Some(buf[curdata] as int * 256 + buf[curdata + 1]));
  }
}
