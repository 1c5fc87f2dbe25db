/**
 SUBSCRIBE packets, as in section 3.8 of MQTT Version 3.1.1.
 */
module MqttSubscribe {
  import opened Basics
  import opened MqttPacket

  /** A topic filter and the QoS requested for it; the library takes and returns any integer there. */
  type Filter = (seq<byte>, int)

  function Entry(f: Filter): seq<byte> {
    Field(f.0) + [f.1 % 256]
  }

  function Entries(filters: seq<Filter>): seq<byte> {
    if filters == [] then [] else Entry(filters[0]) + Entries(filters[1..])
  }

  predicate ValidFilters(filters: seq<Filter>) {
    forall i :: 0 <= i < |filters| ==> |filters[i].0| < 65536
  }

  /** What `readChar` makes of a byte: whether plain `char` is signed is up to the compiler. */
  function CharValue(b: byte, signedChar: bool): int {
    if signedChar && b >= 128 then b - 256 else b
  }

  predicate IsChar(q: int, signedChar: bool) {
    if signedChar then -128 <= q < 128 else 0 <= q < 256
  }

  /** Each QoS after it went over the line as one byte. */
  function Narrowed(filters: seq<Filter>, signedChar: bool): (r: seq<Filter>)
    ensures |r| == |filters|
  {
    seq(|filters|, i requires 0 <= i < |filters| => (filters[i].0, CharValue(filters[i].1 % 256, signedChar)))
  }

  lemma CharSurvives(q: int, signedChar: bool)
    ensures CharValue(q % 256, signedChar) == q <==> IsChar(q, signedChar)
  {
  }

  /** A list comes back unchanged exactly when each QoS is in the range of a character. */
  lemma NarrowedIsSame(filters: seq<Filter>, signedChar: bool)
    ensures Narrowed(filters, signedChar) == filters <==>
            forall i :: 0 <= i < |filters| ==> IsChar(filters[i].1, signedChar)
  {
    forall i | 0 <= i < |filters|
      ensures Narrowed(filters, signedChar)[i] == filters[i] <==> IsChar(filters[i].1, signedChar)
    {
      CharSurvives(filters[i].1, signedChar);
    }
  }

  datatype Subscribe = Subscribe(dup: nat, id: nat, filters: seq<Filter>) {
    predicate Valid() {
      dup < 2 && id < 65536 && ValidFilters(filters) && RemLen() <= MAX_REMAINING_LENGTH
    }

    function RemLen(): nat {
      2 + |Entries(filters)|
    }

    function Head(): seq<byte> {
      [Header(SUBSCRIBE, dup, 1, 0)] + EncodeLength(RemLen())
    }

    function Bytes(): seq<byte> {
      Head() + Int16(id) + Entries(filters)
    }
  }

  /** Byte by byte, as in section 3.8: the flag bits are 2, and each filter is followed by its QoS. */
  lemma SubscribeInBytes(p: Subscribe)
    requires p.Valid()
    ensures p.Bytes() ==
            [130 + 8 * p.dup] + EncodeLength(2 + |Entries(p.filters)|) + [p.id / 256, p.id % 256] + Entries(p.filters)
  {
    HeaderInBits(SUBSCRIBE, p.dup, 1, 0);
    hide Header, EncodeLength, Entries;
    assert Int16(p.id) == [p.id / 256, p.id % 256];
  }

  lemma EntryInBytes(text: seq<byte>, qos: int, more: seq<Filter>)
    requires |text| < 65536
    ensures Entries([(text, qos)] + more) == [|text| / 256, |text| % 256] + text + [qos % 256] + Entries(more)
  {
    var filters := [(text, qos)] + more;
    assert filters[1..] == more && filters[0] == (text, qos);
  }

  // ---------------------------------------------------------------- parsing

  predicate InBounds(s: seq<byte>) {
    s != [] && (Type(s[0]) == SUBSCRIBE ==>
      LengthReadable(s[1..], 0) && Start(s) + 2 <= |s| && End(s) <= |s|)
  }

  function Start(s: seq<byte>): nat
    requires s != [] && LengthReadable(s[1..], 0)
  {
    1 + DecodeLength(s[1..], 0).count
  }

  function End(s: seq<byte>): nat
    requires s != [] && LengthReadable(s[1..], 0)
  {
    Start(s) + DecodeLength(s[1..], 0).value
  }

  /** The filters between `pos` and `end`, at most `maxcount` of them. */
  function ParseFilters(s: seq<byte>, pos: nat, end: nat, maxcount: nat, signedChar: bool): Option<seq<Filter>>
    requires end <= |s|
    decreases end - pos
  {
    if pos >= end then Some([])
    else if maxcount == 0 then None
    else
      var text := ReadString(s, pos, end);
      if text.None? || text.value.1 >= end then None
      else
        var rest := ParseFilters(s, text.value.1 + 1, end, maxcount - 1, signedChar);
        if rest.None? then None else Some([(text.value.0, CharValue(s[text.value.1], signedChar))] + rest.value)
  }

  function Parse(s: seq<byte>, maxcount: nat, signedChar: bool): Option<Subscribe>
    requires InBounds(s)
  {
    if Type(s[0]) != SUBSCRIBE then None
    else
      var filters := ParseFilters(s, Start(s) + 2, End(s), maxcount, signedChar);
      if filters.None? then None else Some(Subscribe(Dup(s[0]), ReadInt(s, Start(s)), filters.value))
  }

  /** Whatever the input, every filter the loop accepts used up at least three bytes of the packet. */
  lemma {:induction false} FiltersTakeThreeBytes(s: seq<byte>, pos: nat, end: nat, maxcount: nat, signedChar: bool)
    requires end <= |s| && pos <= end
    ensures var r := ParseFilters(s, pos, end, maxcount, signedChar);
            r.Some? ==> 3 * |r.value| <= end - pos && |r.value| <= maxcount
    decreases end - pos
  {
    if pos < end && maxcount > 0 {
      var text := ReadString(s, pos, end);
      if text.Some? && text.value.1 < end {
        FiltersTakeThreeBytes(s, text.value.1 + 1, end, maxcount - 1, signedChar);
      }
    }
  }

  // ---------------------------------------------------------------- round trip

  lemma {:induction false} FiltersRead(s: seq<byte>, pre: seq<byte>, filters: seq<Filter>, rest: seq<byte>,
                                       maxcount: nat, signedChar: bool)
    requires s == pre + Entries(filters) + rest && ValidFilters(filters)
    ensures ParseFilters(s, |pre|, |s| - |rest|, maxcount, signedChar) ==
            if |filters| <= maxcount then Some(Narrowed(filters, signedChar)) else None
    decreases |filters|
  {
    hide Field, ReadString, CharValue;
    if filters != [] && maxcount > 0 {
      var f, more := filters[0], filters[1..];
      var end, q := |s| - |rest|, f.1 % 256;
      assert s == pre + Field(f.0) + ([q] + Entries(more) + rest);
      ReadsField(s, pre, f.0, [q] + Entries(more) + rest, end);
      var pre' := pre + Field(f.0) + [q];
      assert s == pre' + Entries(more) + rest;
      assert s[|pre'| - 1] == q;
      FiltersRead(s, pre', more, rest, maxcount - 1, signedChar);
      assert Narrowed(filters, signedChar) == [(f.0, CharValue(q, signedChar))] + Narrowed(more, signedChar);
    }
  }

  /**
   For every list of filters and any QoS values: the parser accepts the serialized packet exactly
   when the list fits its result arrays, and then returns the same packet id and filters in order,
   each QoS narrowed to a character. With `NarrowedIsSame` that is the same packet exactly when
   every QoS is in the range of a character, as those of section 3.8.3 of the standard are.
   */
  lemma SubscribeRoundTrip(p: Subscribe, rest: seq<byte>, maxcount: nat, signedChar: bool)
    requires p.Valid()
    ensures InBounds(p.Bytes() + rest)
    ensures Parse(p.Bytes() + rest, maxcount, signedChar) ==
            if |p.filters| <= maxcount then Some(p.(filters := Narrowed(p.filters, signedChar))) else None
    ensures p.(filters := Narrowed(p.filters, signedChar)) == p <==>
            forall i :: 0 <= i < |p.filters| ==> IsChar(p.filters[i].1, signedChar)
  {
    hide Header, Type, Dup, EncodeLength, Int16, ReadInt, ParseFilters, Entries, ValidFilters, Narrowed, IsChar;
    var s := p.Bytes() + rest;
    var len := EncodeLength(p.RemLen());
    HeaderFields(SUBSCRIBE, p.dup, 1, 0);
    assert s[1..] == len + (Int16(p.id) + Entries(p.filters) + rest);
    RemainingLengthRoundTrip(p.RemLen(), Int16(p.id) + Entries(p.filters) + rest);
    assert s == p.Head() + Int16(p.id) + (Entries(p.filters) + rest);
    ReadsInt(p.Head(), p.id, Entries(p.filters) + rest);
    FiltersRead(s, p.Head() + Int16(p.id), p.filters, rest, maxcount, signedChar);
    NarrowedIsSame(p.filters, signedChar);
  }

  // ---------------------------------------------------------------- the two functions of the library

  /** The arrays of the caller as a list of filters. */
  function Paired(topicFilters: seq<MqttString>, qos: seq<int>): (filters: seq<Filter>)
    requires |topicFilters| == |qos|
    ensures |filters| == |qos|
  {
    seq(|qos|, i requires 0 <= i < |qos| => (topicFilters[i].Text(), qos[i]))
  }

  /** The caller's arrays in bytes, one filter with its QoS after the other. */
  lemma ArraysInBytes(m: MqttString, q: int, more: seq<MqttString>, qos: seq<int>)
    requires |more| == |qos| && |m.Text()| < 65536
    ensures Entries(Paired([m] + more, [q] + qos)) ==
            [|m.Text()| / 256, |m.Text()| % 256] + m.Text() + [q % 256] + Entries(Paired(more, qos))
    ensures Entries(Paired([], [])) == []
  {
    EntryInBytes(m.Text(), q, Paired(more, qos));
    hide Entries, MqttString.Text;
    assert Paired([m] + more, [q] + qos) == [(m.Text(), q)] + Paired(more, qos);
    NoEntries(Paired([], []));
  }

  lemma {:induction false} EntriesConcat(a: seq<Filter>, b: seq<Filter>)
    ensures Entries(a + b) == Entries(a) + Entries(b)
    decreases |a|
  {
    hide Entry;
    if a == [] {
      assert a + b == b;
    } else {
      EntriesConcat(a[1..], b);
      assert (a + b)[1..] == a[1..] + b;
    }
  }

  lemma EntriesExtend(filters: seq<Filter>, i: nat)
    requires i < |filters|
    ensures Entries(filters[..i + 1]) == Entries(filters[..i]) + Entry(filters[i])
  {
    EntriesConcat(filters[..i], [filters[i]]);
    assert filters[..i + 1] == filters[..i] + [filters[i]];
    assert Entries([filters[i]]) == Entry(filters[i]) + Entries([]);
  }

  lemma EntriesPrefix(filters: seq<Filter>, i: nat)
    requires i <= |filters|
    ensures |Entries(filters[..i])| <= |Entries(filters)|
  {
    EntriesConcat(filters[..i], filters[i..]);
    assert filters == filters[..i] + filters[i..];
  }

  method SubscribeLength(topicFilters: seq<MqttString>, ghost qos: seq<int>) returns (len: nat)
    requires |topicFilters| == |qos| && forall i :: 0 <= i < |topicFilters| ==> topicFilters[i].WellSized()
    ensures len == 2 + |Entries(Paired(topicFilters, qos))|
  {
    hide Entry, MqttString.Text, MqttString.StrLen;
    ghost var filters := Paired(topicFilters, qos);
    len := 2;
    for i := 0 to |topicFilters|
      invariant len == 2 + |Entries(filters[..i])|
    {
      EntriesExtend(filters, i);
      EntrySize(filters[i]);
      len := len + 2 + topicFilters[i].StrLen() + 1;
    }
    assert filters[..|filters|] == filters;
  }

  lemma EntrySize(f: Filter)
    ensures |Entry(f)| == |f.0| + 3
  {
  }

  method SerializeSubscribe(buf: array<byte>, buflen: nat, dup: nat, packetid: nat, topicFilters: seq<MqttString>,
                            requestedQoSs: seq<int>) returns (rc: int)
    requires buflen <= buf.Length && |topicFilters| == |requestedQoSs|
    requires forall i :: 0 <= i < |topicFilters| ==> topicFilters[i].WellSized()
    requires var p := Subscribe(dup, packetid, Paired(topicFilters, requestedQoSs));
             PacketLen(p.RemLen()) <= buflen ==> p.Valid()
    modifies buf
    ensures var p := Subscribe(dup, packetid, Paired(topicFilters, requestedQoSs));
            if PacketLen(p.RemLen()) > buflen then
              rc == MQTTPACKET_BUFFER_TOO_SHORT && buf[..] == old(buf[..])
            else
              0 < rc <= buflen && buf[..rc] == p.Bytes() && buf[rc..] == old(buf[rc..])
  {
    hide Header, EncodeLength, Field, Int16, PacketLen, Entries, Entry, Paired, MqttString.Text, MqttString.WellSized;
    ghost var p := Subscribe(dup, packetid, Paired(topicFilters, requestedQoSs));
    var remLen := SubscribeLength(topicFilters, requestedQoSs);
    if PacketLen(remLen) > buflen {
      return MQTTPACKET_BUFFER_TOO_SHORT;
    }
    PacketLenIsTight(remLen);
    var ptr := WriteChar(buf, 0, Header(SUBSCRIBE, dup, 1, 0));
    var n := Encode(buf, ptr, remLen);
    ptr := ptr + n;
    ptr := WriteInt(buf, ptr, packetid);
    ptr := WriteEntries(buf, ptr, topicFilters, requestedQoSs);
    rc := ptr;
  }

  method WriteEntries(buf: array<byte>, start: nat, topicFilters: seq<MqttString>, qos: seq<int>) returns (ptr: nat)
    requires |topicFilters| == |qos| && start + |Entries(Paired(topicFilters, qos))| <= buf.Length
    modifies buf
    ensures ptr == start + |Entries(Paired(topicFilters, qos))|
    ensures buf[..ptr] == old(buf[..start]) + Entries(Paired(topicFilters, qos))
    ensures forall j :: ptr <= j < buf.Length ==> buf[j] == old(buf[j])
  {
    hide Field, MqttString.Text, Entries;
    ghost var filters := Paired(topicFilters, qos);
    assert Entries(filters[..0]) == [] by { NoEntries(filters[..0]); }
    ptr := start;
    for i := 0 to |topicFilters|
      invariant ptr == start + |Entries(filters[..i])| <= buf.Length
      invariant buf[..ptr] == old(buf[..start]) + Entries(filters[..i])
      invariant forall j :: ptr <= j < buf.Length ==> buf[j] == old(buf[j])
    {
      EntriesExtend(filters, i);
      EntriesPrefix(filters, i + 1);
      ptr := WriteMqttString(buf, ptr, topicFilters[i]);
      ptr := WriteChar(buf, ptr, qos[i] % 256);
    }
    assert filters[..|filters|] == filters;
  }

  lemma NoEntries(filters: seq<Filter>)
    requires filters == []
    ensures Entries(filters) == []
  {
  }

  method DeserializeSubscribe(buf: array<byte>, maxcount: nat, signedChar: bool) returns (r: Option<Subscribe>)
    requires InBounds(buf[..])
    ensures r == Parse(buf[..], maxcount, signedChar)
  {
    hide LengthReadable, DecodeLength, ReadString, Type, Dup, CharValue;
    r := None;
    ghost var s := buf[..];
    var header := buf[0];
    assert s[0] == header && buf[1..] == s[1..];
    if Type(header) != SUBSCRIBE {
      return;
    }
    var mylen, n := DecodeBuf(buf, 1);
    var curdata := 1 + n;
    var enddata := curdata + mylen;
    var packetid := buf[curdata] as int * 256 + buf[curdata + 1];
    curdata := curdata + 2;
    var filters: seq<Filter> := [];
    ghost var goal := ParseFilters(s, curdata, enddata, maxcount, signedChar);
    assert goal.Some? ==> filters + goal.value == goal.value;
    while curdata < enddata
      invariant |filters| <= maxcount
      invariant var rest := ParseFilters(s, curdata, enddata, maxcount - |filters|, signedChar);
                goal == if rest.None? then None else Some(filters + rest.value)
      decreases enddata - curdata
    {
      if |filters| == maxcount {
        return;
      }
      var ok, text, next := ReadMqttLenString(buf, curdata, enddata);
      if !ok {
        return;
      }
      if next >= enddata {
        return;
      }
      var q := CharValue(buf[next], signedChar);
      ghost var rest := ParseFilters(s, next + 1, enddata, maxcount - |filters| - 1, signedChar);
      assert rest.Some? ==> filters + ([(text, q)] + rest.value) == filters + [(text, q)] + rest.value;
      filters := filters + [(text, q)];
      curdata := next + 1;
    }
    assert filters + [] == filters;
    r := Some(Subscribe(Dup(header), packetid, filters));
  }
}
