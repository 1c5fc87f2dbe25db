/**
 CONNECT packets, as in section 3.1 of MQTT Version 3.1.1.
 */
module MqttConnect {
  import opened Basics
  import opened MqttPacket

  const MQISDP: seq<byte> := [77, 81, 73, 115, 100, 112]
  const MQTT: seq<byte> := [77, 81, 84, 84]

  datatype WillOptions = WillOptions(topicName: MqttString, message: MqttString, retained: nat, qos: nat)

  /** The caller's option record. */
  datatype ConnectData = ConnectData(version: nat, clientID: MqttString, keepAliveInterval: nat, cleansession: nat,
                                     willFlag: bool, will: WillOptions, username: MqttString, password: MqttString)

  datatype Will = Will(topic: seq<byte>, message: seq<byte>, retain: nat, qos: nat)

  /** What a CONNECT packet transmits. */
  datatype Connect = Connect(version: nat, clientID: seq<byte>, keepAlive: nat, clean: nat,
                             will: Option<Will>, username: Option<seq<byte>>, password: Option<seq<byte>>) {
    predicate Valid() {
      && (version == 3 || version == 4) && |clientID| < 65536 && keepAlive < 65536 && clean < 2
      && (will.Some? ==> |will.value.topic| < 65536 && |will.value.message| < 65536
                         && will.value.retain < 2 && will.value.qos < 4)
      && (username.Some? ==> |username.value| < 65536) && (password.Some? ==> |password.value| < 65536)
    }

    function Protocol(): seq<byte> {
      if version == 4 then MQTT else MQISDP
    }

    function RemLen(): nat {
      (if version == 3 then 12 else 10) + |clientID| + 2
      + (if will.Some? then |will.value.topic| + 2 + |will.value.message| + 2 else 0)
      + (if username.Some? then |username.value| + 2 else 0)
      + (if password.Some? then |password.value| + 2 else 0)
    }

    function Flags(): byte
      requires Valid()
    {
      (if username.Some? then 128 else 0) + (if password.Some? then 64 else 0)
      + (if will.Some? then will.value.retain * 32 + will.value.qos * 8 + 4 else 0) + clean * 2
    }

    function Head(): seq<byte>
      requires Valid()
    {
      [Header(CONNECT, 0, 0, 0)] + EncodeLength(RemLen())
    }

    /** The packet on the wire. */
    function Bytes(): seq<byte>
      requires Valid()
    {
      Head() + Field(Protocol()) + [if version == 4 then 4 else 3, Flags()] + Int16(keepAlive) + Field(clientID)
      + WillFields(will) + Optional(username) + Optional(password)
    }
  }

  function Optional(text: Option<seq<byte>>): seq<byte> {
    if text.Some? then Field(text.value) else []
  }

  function WillFields(will: Option<Will>): seq<byte> {
    if will.Some? then Field(will.value.topic) + Field(will.value.message) else []
  }

  function Transmitted(m: MqttString): Option<seq<byte>> {
    if m.Present() then Some(m.Text()) else None
  }

  /** The packet that a record describes. */
  function Described(o: ConnectData): Connect {
    Connect(o.version, o.clientID.Text(), o.keepAliveInterval, o.cleansession,
            if o.willFlag then Some(Will(o.will.topicName.Text(), o.will.message.Text(), o.will.retained, o.will.qos))
            else None,
            Transmitted(o.username), Transmitted(o.password))
  }

  /** The strings that go into the packet; those of a will only when it has one. */
  predicate WellSized(o: ConnectData) {
    && o.clientID.WellSized() && o.username.WellSized() && o.password.WellSized()
    && (o.willFlag ==> o.will.topicName.WellSized() && o.will.message.WellSized())
  }

  // ---------------------------------------------------------------- the flag byte

  function WillFlag(flags: byte): bool {
    flags / 4 % 2 == 1
  }

  function WillQos(flags: byte): nat {
    flags / 8 % 4
  }

  function WillRetain(flags: byte): nat {
    flags / 32 % 2
  }

  function Clean(flags: byte): nat {
    flags / 2 % 2
  }

  function HasUsername(flags: byte): bool {
    flags / 128 == 1
  }

  function HasPassword(flags: byte): bool {
    flags / 64 % 2 == 1
  }

  lemma FlagBits(u: nat, p: nat, r: nat, q: nat, w: nat, c: nat)
    requires u < 2 && p < 2 && r < 2 && q < 4 && w < 2 && c < 2
    ensures var f := u * 128 + p * 64 + r * 32 + q * 8 + w * 4 + c * 2;
            && f / 128 == u && f / 64 % 2 == p && f / 32 % 2 == r && f / 8 % 4 == q && f / 4 % 2 == w && f / 2 % 2 == c
  {
    var f := u * 128 + p * 64 + r * 32 + q * 8 + w * 4 + c * 2;
    var f64 := 2 * u + p;
    var f32 := 2 * f64 + r;
    var f8 := 4 * f32 + q;
    var f4 := 2 * f8 + w;
    assert f == 4 * f4 + 2 * c;
    assert f / 4 == f4 && f / 2 == 2 * f4 + c;
    assert f / 8 == f8;
    assert f / 32 == f32;
    assert f / 64 == f64;
  }

  lemma FlagsRoundTrip(c: Connect)
    requires c.Valid()
    ensures var f := c.Flags();
            && Clean(f) == c.clean && WillFlag(f) == c.will.Some?
            && (c.will.Some? ==> WillQos(f) == c.will.value.qos && WillRetain(f) == c.will.value.retain)
            && HasUsername(f) == c.username.Some? && HasPassword(f) == c.password.Some?
  {
    FlagBits(if c.username.Some? then 1 else 0, if c.password.Some? then 1 else 0,
             if c.will.Some? then c.will.value.retain else 0, if c.will.Some? then c.will.value.qos else 0,
             if c.will.Some? then 1 else 0, c.clean);
  }

  /** Section 3.1.2.3: where each flag stands in the byte; the lowest bit is never set. */
  lemma FlagsInBits(c: Connect)
    requires c.Valid()
    ensures var f := c.Flags();
            && f % 2 == 0 && f / 2 % 2 == c.clean && (f / 4 % 2 == 1 <==> c.will.Some?)
            && f / 8 % 4 == (if c.will.Some? then c.will.value.qos else 0)
            && f / 32 % 2 == (if c.will.Some? then c.will.value.retain else 0)
            && (f / 64 % 2 == 1 <==> c.password.Some?) && (f / 128 == 1 <==> c.username.Some?)
  {
    FlagBits(if c.username.Some? then 1 else 0, if c.password.Some? then 1 else 0,
             if c.will.Some? then c.will.value.retain else 0, if c.will.Some? then c.will.value.qos else 0,
             if c.will.Some? then 1 else 0, c.clean);
    FlagsAreEven(c);
    hide Connect.Valid;
  }

  lemma FlagsAreEven(c: Connect)
    requires c.Valid()
    ensures c.Flags() % 2 == 0
  {
  }

  // ---------------------------------------------------------------- parsing

  /** What the parser leaves in its result record; absent parts are not touched. */
  datatype Parsed = Parsed(clean: nat, keepAlive: nat, clientID: seq<byte>, will: Option<Will>,
                           username: Option<seq<byte>>, password: Option<seq<byte>>)

  /** Name and version are compared over the shorter of the two names. */
  predicate CheckVersion(protocol: seq<byte>, version: nat) {
    || (version == 3 && protocol[..Min(6, |protocol|)] == MQISDP[..Min(6, |protocol|)])
    || (version == 4 && protocol[..Min(4, |protocol|)] == MQTT[..Min(4, |protocol|)])
  }

  /** The two protocol names with their versions, and what else passes: only the shorter name is compared. */
  lemma VersionsThatPass()
    ensures CheckVersion([77, 81, 84, 84], 4) && CheckVersion([77, 81, 73, 115, 100, 112], 3)
    ensures !CheckVersion([77, 81, 84, 84], 3) && !CheckVersion([77, 81, 73, 115, 100, 112], 4)
    ensures forall name: seq<byte>, version: nat :: CheckVersion(name, version) ==> version == 3 || version == 4
    ensures CheckVersion([], 3) && CheckVersion([77], 4) && CheckVersion([77, 81, 84, 84, 0], 4)
    ensures !CheckVersion([78, 81, 84, 84], 4) && !CheckVersion([77, 81, 84, 85], 4)
  {
    var name: seq<byte>, mqtt: seq<byte>, other: seq<byte> := [77, 81, 84, 84, 0], [77, 81, 84, 84], [77, 81, 84, 85];
    var mqisdp: seq<byte>, first: seq<byte> := [77, 81, 73, 115, 100, 112], [78, 81, 84, 84];
    assert name[..4] == MQTT;
    assert mqtt[..4][2] != MQISDP[..4][2] && mqisdp[..4][2] != MQTT[..4][2];
    assert first[..4][0] != MQTT[..4][0] && other[..4][3] != MQTT[..4][3];
  }

  /** A CONNECT of another protocol or version is refused, whatever else is in it. */
  lemma OtherVersionsRefused(s: seq<byte>, len: nat, name: seq<byte>, version: byte)
    requires InBounds(s, len) && |name| < 65536 && version != 3 && version != 4
    requires |s| >= 6 + |name| && s[..5 + |name|] == [16, s[1]] + Field(name) + [version] && s[1] < 128
    ensures Parse(s, len) == None
  {
    IntInBytes(0, name);
    hide Field;
    var head := [16, s[1]] + Field(name) + [version];
    assert s[1..][0] == s[1];
    assert s[2] == s[..5 + |name|][2] == head[2] == Field(name)[0];
    assert s[3] == s[..5 + |name|][3] == head[3] == Field(name)[1];
    assert s[4 + |name|] == s[..5 + |name|][4 + |name|] == head[4 + |name|] == version;
  }

  function ParseWill(s: seq<byte>, pos: nat, end: nat, flags: byte): Option<(Option<Will>, nat)>
    requires end <= |s|
  {
    if !WillFlag(flags) then Some((None, pos))
    else
      var topic := ReadString(s, pos, end);
      if topic.None? then None
      else
        var message := ReadString(s, topic.value.1, end);
        if message.None? then None
        else Some((Some(Will(topic.value.0, message.value.0, WillRetain(flags), WillQos(flags))), message.value.1))
  }

  /** A present user name or password must have at least three bytes left to read. */
  function ParseCredentials(s: seq<byte>, pos: nat, end: nat, flags: byte)
    : Option<(Option<seq<byte>>, Option<seq<byte>>)>
    requires end <= |s|
  {
    if HasUsername(flags) then
      var username := ReadString(s, pos, end);
      if end < pos + 3 || username.None? then None
      else if !HasPassword(flags) then Some((Some(username.value.0), None))
      else
        var password := ReadString(s, username.value.1, end);
        if end < username.value.1 + 3 || password.None? then None
        else Some((Some(username.value.0), Some(password.value.0)))
    else if HasPassword(flags) then None
    else Some((None, None))
  }

  function ParseBody(s: seq<byte>, pos: nat, end: nat): Option<Parsed>
    requires end <= |s| && pos + 3 <= |s|
  {
    var flags := s[pos];
    var clientID := ReadString(s, pos + 3, end);
    if clientID.None? then None
    else
      var will := ParseWill(s, clientID.value.1, end, flags);
      if will.None? then None
      else
        var credentials := ParseCredentials(s, will.value.1, end, flags);
        if credentials.None? then None
        else Some(Parsed(Clean(flags), ReadInt(s, pos + 1), clientID.value.0, will.value.0,
                         credentials.value.0, credentials.value.1))
  }

  /** The buffer holds as many bytes as the parser looks at. */
  predicate InBounds(s: seq<byte>, len: nat) {
    && len <= |s| && s != []
    && (Type(s[0]) == CONNECT ==>
          LengthReadable(s[1..], 0) &&
          var protocol := ReadString(s, 1 + DecodeLength(s[1..], 0).count, len);
          protocol.Some? ==> protocol.value.1 + 4 <= |s|)
  }

  function Parse(s: seq<byte>, len: nat): Option<Parsed>
    requires InBounds(s, len)
  {
    if Type(s[0]) != CONNECT then None
    else
      var protocol := ReadString(s, 1 + DecodeLength(s[1..], 0).count, len);
      if protocol.None? || !CheckVersion(protocol.value.0, s[protocol.value.1]) then None
      else ParseBody(s, protocol.value.1 + 1, len)
  }

  // ---------------------------------------------------------------- round trip

  /**
   When the parser accepts what was serialized: a password needs a user name and at least one
   byte; a user name needs a byte only when no password follows it.
   */
  predicate Accepted(c: Connect) {
    && (c.password.Some? ==> c.username.Some? && c.password.value != [])
    && (c.username.Some? && c.password.None? ==> c.username.value != [])
  }

  lemma WillReads(s: seq<byte>, pre: seq<byte>, will: Option<Will>, rest: seq<byte>, end: nat, flags: byte)
    requires s == pre + WillFields(will) + rest && |pre| + |WillFields(will)| <= end <= |s|
    requires WillFlag(flags) == will.Some?
    requires will.Some? ==> |will.value.topic| < 65536 && |will.value.message| < 65536
    requires will.Some? ==> WillRetain(flags) == will.value.retain && WillQos(flags) == will.value.qos
    ensures ParseWill(s, |pre|, end, flags) == Some((will, |pre| + |WillFields(will)|))
  {
    hide Field, WillFlag, WillRetain, WillQos, ReadString;
    if will.Some? {
      var w := will.value;
      assert s == pre + Field(w.topic) + (Field(w.message) + rest);
      ReadsField(s, pre, w.topic, Field(w.message) + rest, end);
      assert s == (pre + Field(w.topic)) + Field(w.message) + rest;
      ReadsField(s, pre + Field(w.topic), w.message, rest, end);
    }
  }

  lemma CredentialsRead(s: seq<byte>, pre: seq<byte>, c: Connect, rest: seq<byte>, end: nat, flags: byte)
    requires c.Valid() && s == pre + Optional(c.username) + Optional(c.password) + rest
    requires end == |pre| + |Optional(c.username)| + |Optional(c.password)|
    requires HasUsername(flags) == c.username.Some? && HasPassword(flags) == c.password.Some?
    ensures ParseCredentials(s, |pre|, end, flags) == if Accepted(c) then Some((c.username, c.password)) else None
  {
    hide Field, HasUsername, HasPassword, ReadString;
    if c.username.Some? {
      var u := c.username.value;
      assert s == pre + Field(u) + (Optional(c.password) + rest);
      ReadsField(s, pre, u, Optional(c.password) + rest, end);
      if c.password.Some? {
        assert s == (pre + Field(u)) + Field(c.password.value) + rest;
        ReadsField(s, pre + Field(u), c.password.value, rest, end);
      }
    }
  }

  lemma BodyReads(s: seq<byte>, pre: seq<byte>, c: Connect, rest: seq<byte>, end: nat)
    requires c.Valid()
    requires s == pre + [c.Flags()] + Int16(c.keepAlive) + Field(c.clientID) + WillFields(c.will)
                  + Optional(c.username) + Optional(c.password) + rest
    requires end == |s| - |rest|
    ensures ParseBody(s, |pre|, end) ==
            if Accepted(c) then Some(Parsed(c.clean, c.keepAlive, c.clientID, c.will, c.username, c.password)) else None
  {
    hide Field, Int16, WillFields, Optional, Connect.Flags, ParseWill, ParseCredentials, ReadString, ReadInt;
    hide WillFlag, WillQos, WillRetain, Clean, HasUsername, HasPassword;
    var flags := c.Flags();
    FlagsRoundTrip(c);
    var p1 := pre + [flags];
    var p3 := p1 + Int16(c.keepAlive);
    var p4 := p3 + Field(c.clientID);
    var p5 := p4 + WillFields(c.will);
    var r6 := Optional(c.username) + Optional(c.password) + rest;
    assert s == p5 + Optional(c.username) + Optional(c.password) + rest;
    assert s == p4 + WillFields(c.will) + r6;
    assert s == p3 + Field(c.clientID) + (WillFields(c.will) + r6);
    assert s == p1 + Int16(c.keepAlive) + (Field(c.clientID) + (WillFields(c.will) + r6));
    ReadsInt(p1, c.keepAlive, Field(c.clientID) + (WillFields(c.will) + r6));
    ReadsField(s, p3, c.clientID, WillFields(c.will) + r6, end);
    WillReads(s, p4, c.will, r6, end, flags);
    CredentialsRead(s, p5, c, rest, end, flags);
  }

  lemma ProtocolNames()
    ensures Field(MQTT) == [0, 4, 77, 81, 84, 84] && Field(MQISDP) == [0, 6, 77, 81, 73, 115, 100, 112]
    ensures Header(CONNECT, 0, 0, 0) == 16
  {
  }

  function VersionByte(c: Connect): byte {
    if c.version == 4 then 4 else 3
  }

  /** Everything from the version byte on. */
  function Tail(c: Connect): seq<byte>
    requires c.Valid()
  {
    [VersionByte(c)] + ([c.Flags()] + Int16(c.keepAlive) + Field(c.clientID) + WillFields(c.will)
    + Optional(c.username) + Optional(c.password))
  }

  lemma BytesInOrder(c: Connect)
    requires c.Valid()
    ensures c.Bytes() == c.Head() + Field(c.Protocol()) + Tail(c)
    ensures |c.Bytes()| == 1 + |EncodeLength(c.RemLen())| + c.RemLen()
  {
    hide Header, EncodeLength, Field, Int16, Connect.Flags;
  }

  lemma ProtocolReads(c: Connect, rest: seq<byte>)
    requires c.Valid()
    ensures var s := c.Bytes() + rest;
            var pos := |c.Head()| + 2 + |c.Protocol()|;
            && s[0] == Header(CONNECT, 0, 0, 0) && LengthReadable(s[1..], 0)
            && DecodeLength(s[1..], 0).count == |EncodeLength(c.RemLen())|
            && ReadString(s, |c.Head()|, |c.Bytes()|) == Some((c.Protocol(), pos))
            && pos + 4 <= |c.Bytes()| && s[pos] == VersionByte(c)
  {
    hide Header, EncodeLength, Field, Int16, ReadString, Connect.Flags, WillFields, Optional, Connect.Bytes;
    var s := c.Bytes() + rest;
    BytesInOrder(c);
    assert s == c.Head() + Field(c.Protocol()) + (Tail(c) + rest);
    assert s[1..] == EncodeLength(c.RemLen()) + (Field(c.Protocol()) + Tail(c) + rest);
    RemainingLengthRoundTrip(c.RemLen(), Field(c.Protocol()) + Tail(c) + rest);
    ReadsField(s, c.Head(), c.Protocol(), Tail(c) + rest, |c.Bytes()|);
  }

  lemma RestReads(c: Connect, rest: seq<byte>)
    requires c.Valid()
    ensures var s, pos := c.Bytes() + rest, |c.Head()| + 3 + |c.Protocol()|;
            && pos + 3 <= |s|
            && ParseBody(s, pos, |c.Bytes()|) ==
               if Accepted(c) then Some(Parsed(c.clean, c.keepAlive, c.clientID, c.will, c.username, c.password))
               else None
  {
    hide Header, EncodeLength, Field, Int16, ParseBody, Connect.Flags, WillFields, Optional, Connect.Bytes;
    BytesInOrder(c);
    var pre := c.Head() + Field(c.Protocol()) + [VersionByte(c)];
    var s := c.Bytes() + rest;
    assert s == pre + [c.Flags()] + Int16(c.keepAlive) + Field(c.clientID) + WillFields(c.will)
                + Optional(c.username) + Optional(c.password) + rest;
    BodyReads(s, pre, c, rest, |c.Bytes()|);
  }

  /**
   For every option record: the parser accepts the serialized packet exactly when its credentials
   are well formed, and then recovers every transmitted field.
   */
  lemma ConnectRoundTrip(c: Connect, rest: seq<byte>)
    requires c.Valid()
    ensures InBounds(c.Bytes() + rest, |c.Bytes()|)
    ensures Parse(c.Bytes() + rest, |c.Bytes()|) ==
            if Accepted(c) then Some(Parsed(c.clean, c.keepAlive, c.clientID, c.will, c.username, c.password)) else None
  {
    hide Header, Type, EncodeLength, ParseBody, ReadString, Connect.Bytes, LengthReadable, DecodeLength;
    HeaderFields(CONNECT, 0, 0, 0);
    ProtocolReads(c, rest);
    RestReads(c, rest);
  }

  // ---------------------------------------------------------------- the two functions of the library

  /** The size computation of the source. */
  function ConnectLength(o: ConnectData): nat {
    (if o.version == 3 then 12 else if o.version == 4 then 10 else 0)
    + o.clientID.StrLen() + 2
    + (if o.willFlag then o.will.topicName.StrLen() + 2 + o.will.message.StrLen() + 2 else 0)
    + (if o.username.Present() then o.username.StrLen() + 2 else 0)
    + (if o.password.Present() then o.password.StrLen() + 2 else 0)
  }

  lemma ConnectLengthIsExact(o: ConnectData)
    requires Described(o).Valid() && WellSized(o)
    ensures ConnectLength(o) == Described(o).RemLen()
  {
  }

  function VariableHeader(c: Connect): (s: seq<byte>)
    requires c.Valid()
    ensures |s| == if c.version == 4 then 10 else 12
  {
    Field(c.Protocol()) + [VersionByte(c), c.Flags()] + Int16(c.keepAlive)
  }

  function Payload(c: Connect): (s: seq<byte>)
    requires c.Valid()
    ensures |s| + |VariableHeader(c)| == c.RemLen()
  {
    Field(c.clientID) + WillFields(c.will) + Optional(c.username) + Optional(c.password)
  }

  lemma BytesInThree(c: Connect)
    requires c.Valid()
    ensures c.Bytes() == [Header(CONNECT, 0, 0, 0)] + EncodeLength(c.RemLen()) + VariableHeader(c) + Payload(c)
    ensures |c.Bytes()| == 1 + |EncodeLength(c.RemLen())| + c.RemLen() <= PacketLen(c.RemLen())
  {
    hide Header, EncodeLength, Field, Int16, Connect.Flags, Connect.RemLen, PacketLen, WillFields, Optional,
         Connect.Bytes;
    BytesInOrder(c);
    assert c.RemLen() <= MAX_REMAINING_LENGTH by { LengthInRange(c); }
    PacketLenIsTight(c.RemLen());
  }

  lemma VariableHeaderInBytes(c: Connect)
    requires c.Valid()
    ensures VariableHeader(c) ==
            (if c.version == 4 then [0, 4, 77, 81, 84, 84, 4] else [0, 6, 77, 81, 73, 115, 100, 112, 3])
            + [c.Flags(), c.keepAlive / 256, c.keepAlive % 256]
  {
    ProtocolNames();
    hide Field, Connect.Flags;
    assert Int16(c.keepAlive) == [c.keepAlive / 256, c.keepAlive % 256];
  }

  /** Byte by byte, as in section 3.1; version 3 has the older protocol name. */
  lemma ConnectInBytes(c: Connect)
    requires c.Valid()
    ensures c.Bytes() ==
            [16] + EncodeLength(c.RemLen())
            + ((if c.version == 4 then [0, 4, 77, 81, 84, 84, 4] else [0, 6, 77, 81, 73, 115, 100, 112, 3])
               + [c.Flags(), c.keepAlive / 256, c.keepAlive % 256])
            + (Field(c.clientID)
               + (if c.will.Some? then Field(c.will.value.topic) + Field(c.will.value.message) else [])
               + (if c.username.Some? then Field(c.username.value) else [])
               + (if c.password.Some? then Field(c.password.value) else []))
  {
    BytesInThree(c);
    ProtocolNames();
    VariableHeaderInBytes(c);
    hide Header, EncodeLength, Field, Connect.Flags, Connect.RemLen, Connect.Bytes, VariableHeader, Connect.Valid;
  }

  /** The packet of an option record, in the terms of its fields. */
  lemma RecordInBytes(o: ConnectData)
    requires Described(o).Valid()
    ensures var c := Described(o);
            c.Bytes() ==
            [16] + EncodeLength(c.RemLen())
            + ((if o.version == 4 then [0, 4, 77, 81, 84, 84, 4] else [0, 6, 77, 81, 73, 115, 100, 112, 3])
               + [c.Flags(), o.keepAliveInterval / 256, o.keepAliveInterval % 256])
            + (Field(o.clientID.Text())
               + (if o.willFlag then Field(o.will.topicName.Text()) + Field(o.will.message.Text()) else [])
               + (if o.username.Present() then Field(o.username.Text()) else [])
               + (if o.password.Present() then Field(o.password.Text()) else []))
    ensures var f := Described(o).Flags();
            && f / 2 % 2 == o.cleansession && (f / 4 % 2 == 1 <==> o.willFlag)
            && (o.willFlag ==> f / 8 % 4 == o.will.qos && f / 32 % 2 == o.will.retained)
            && (f / 64 % 2 == 1 <==> o.password.Present()) && (f / 128 == 1 <==> o.username.Present())
  {
    ConnectInBytes(Described(o));
    FlagsInBits(Described(o));
    hide EncodeLength, Field, Connect.Flags, Connect.RemLen, Connect.Bytes, Connect.Valid, MqttString.Text,
         MqttString.Present;
  }

  lemma LengthInRange(c: Connect)
    requires c.Valid()
    ensures c.RemLen() <= MAX_REMAINING_LENGTH
  {
  }

  method SerializeConnect(buf: array<byte>, buflen: nat, o: ConnectData) returns (rc: int)
    requires buflen <= buf.Length && Described(o).Valid() && WellSized(o)
    modifies buf
    ensures var c := Described(o);
            if PacketLen(c.RemLen()) > buflen then
              rc == MQTTPACKET_BUFFER_TOO_SHORT && buf[..] == old(buf[..])
            else
              0 < rc <= buflen && buf[..rc] == c.Bytes() && buf[rc..] == old(buf[rc..])
  {
    hide Header, EncodeLength, PacketLen, ConnectLength, Connect.RemLen, VariableHeader, Payload, Connect.Bytes,
         Described;
    ghost var c := Described(o);
    ConnectLengthIsExact(o);
    BytesInThree(c);
    var len := ConnectLength(o);
    if PacketLen(len) > buflen {
      return MQTTPACKET_BUFFER_TOO_SHORT;
    }
    var ptr := WriteChar(buf, 0, Header(CONNECT, 0, 0, 0));
    var n := Encode(buf, ptr, len);
    ptr := ptr + n;
    ptr := WriteVariableHeader(buf, ptr, o);
    ptr := WritePayload(buf, ptr, o);
    rc := ptr;
    assert buf[..rc] == [Header(CONNECT, 0, 0, 0)] + EncodeLength(c.RemLen()) + VariableHeader(c) + Payload(c);
  }

  method BuildFlags(o: ConnectData) returns (flags: byte)
    requires Described(o).Valid()
    ensures flags == Described(o).Flags()
  {
    flags := o.cleansession * 2;
    if o.willFlag {
      flags := flags + 4 + o.will.qos * 8 + o.will.retained * 32;
    }
    if o.username.Present() {
      flags := flags + 128;
    }
    if o.password.Present() {
      flags := flags + 64;
    }
  }

  method WriteVariableHeader(buf: array<byte>, start: nat, o: ConnectData) returns (ptr: nat)
    requires Described(o).Valid() && start + |VariableHeader(Described(o))| <= buf.Length
    modifies buf
    ensures ptr == start + |VariableHeader(Described(o))|
    ensures buf[..ptr] == old(buf[..start]) + VariableHeader(Described(o))
    ensures forall j :: ptr <= j < buf.Length ==> buf[j] == old(buf[j])
  {
    hide Field, Int16, Connect.Flags;
    ptr := start;
    if o.version == 4 {
      ptr := WriteCString(buf, ptr, MQTT);
      ptr := WriteChar(buf, ptr, 4);
    } else {
      ptr := WriteCString(buf, ptr, MQISDP);
      ptr := WriteChar(buf, ptr, 3);
    }
    var flags := BuildFlags(o);
    ptr := WriteChar(buf, ptr, flags);
    ptr := WriteInt(buf, ptr, o.keepAliveInterval);
  }

  method WritePayload(buf: array<byte>, start: nat, o: ConnectData) returns (ptr: nat)
    requires Described(o).Valid() && start + |Payload(Described(o))| <= buf.Length
    modifies buf
    ensures ptr == start + |Payload(Described(o))|
    ensures buf[..ptr] == old(buf[..start]) + Payload(Described(o))
    ensures forall j :: ptr <= j < buf.Length ==> buf[j] == old(buf[j])
  {
    hide Field, MqttString.Text, WillFields, Optional, Transmitted, Connect.Valid;
    ptr := WriteMqttString(buf, start, o.clientID);
    ptr := WriteWill(buf, ptr, o);
    ptr := WriteOptional(buf, ptr, o.username);
    ptr := WriteOptional(buf, ptr, o.password);
  }

  method WriteWill(buf: array<byte>, start: nat, o: ConnectData) returns (ptr: nat)
    requires start + |WillFields(Described(o).will)| <= buf.Length
    modifies buf
    ensures ptr == start + |WillFields(Described(o).will)|
    ensures buf[..ptr] == old(buf[..start]) + WillFields(Described(o).will)
    ensures forall j :: ptr <= j < buf.Length ==> buf[j] == old(buf[j])
  {
    hide Field, MqttString.Text, Transmitted;
    ptr := start;
    if o.willFlag {
      ptr := WriteMqttString(buf, ptr, o.will.topicName);
      ptr := WriteMqttString(buf, ptr, o.will.message);
    }
  }

  method WriteOptional(buf: array<byte>, start: nat, m: MqttString) returns (ptr: nat)
    requires start + |Optional(Transmitted(m))| <= buf.Length
    modifies buf
    ensures ptr == start + |Optional(Transmitted(m))|
    ensures buf[..ptr] == old(buf[..start]) + Optional(Transmitted(m))
    ensures forall j :: ptr <= j < buf.Length ==> buf[j] == old(buf[j])
  {
    hide Field, MqttString.Text;
    ptr := start;
    if m.Present() {
      ptr := WriteMqttString(buf, ptr, m);
    }
  }

  method DeserializeConnect(buf: array<byte>, len: nat) returns (r: Option<Parsed>)
    requires InBounds(buf[..], len)
    ensures r == Parse(buf[..], len)
  {
    hide LengthReadable, DecodeLength, ReadString, ParseBody, CheckVersion, Type;
    r := None;
    assert buf[..][0] == buf[0];
    if Type(buf[0]) != CONNECT {
      return;
    }
    assert buf[1..] == buf[..][1..];
    var mylen, n := DecodeBuf(buf, 1);
    var curdata := 1 + n;
    var ok, protocol, next := ReadMqttLenString(buf, curdata, len);
    if !ok {
      return;
    }
    var version := buf[next];
    curdata := next + 1;
    if CheckVersion(protocol, version) {
      r := DeserializeBody(buf, curdata, len);
    }
  }

  method DeserializeBody(buf: array<byte>, start: nat, enddata: nat) returns (r: Option<Parsed>)
    requires enddata <= buf.Length && start + 3 <= buf.Length
    ensures r == ParseBody(buf[..], start, enddata)
  {
    hide ReadString, WillFlag, WillQos, WillRetain, Clean, HasUsername, HasPassword;
    r := None;
    var flags := buf[start];
    var keepAlive := buf[start + 1] as int * 256 + buf[start + 2];
    var ok, clientID, curdata := ReadMqttLenString(buf, start + 3, enddata);
    if !ok {
      return;
    }
    var will: Option<Will> := None;
    if WillFlag(flags) {
      var topic, message;
      ok, topic, curdata := ReadMqttLenString(buf, curdata, enddata);
      if !ok {
        return;
      }
      ok, message, curdata := ReadMqttLenString(buf, curdata, enddata);
      if !ok {
        return;
      }
      will := Some(Will(topic, message, WillRetain(flags), WillQos(flags)));
    }
    var username: Option<seq<byte>>, password: Option<seq<byte>> := None, None;
    var text;
    if HasUsername(flags) {
      if enddata - curdata < 3 {
        return;
      }
      ok, text, curdata := ReadMqttLenString(buf, curdata, enddata);
      if !ok {
        return;
      }
      username := Some(text);
      if HasPassword(flags) {
        if enddata - curdata < 3 {
          return;
        }
        ok, text, curdata := ReadMqttLenString(buf, curdata, enddata);
        if !ok {
          return;
        }
        password := Some(text);
      }
    } else if HasPassword(flags) {
      return;
    }
    r := Some(Parsed(Clean(flags), keepAlive, clientID, will, username, password));
  }
}
