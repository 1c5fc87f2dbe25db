/**
 The MQTT client: reading one packet and reacting to it, publishing, connecting. Built with QoS 1
 and QoS 2 enabled. Network and timers are a `Host` whose answers are arbitrary.
 */
module MqttClient {
  import opened Basics
  import opened MqttPacket
  import opened MqttPublish
  import opened MqttHistory
  import Connecting = MqttConnect
  import PacketReader
  import TopicMatch
  import Qos2 = Qos2Protocol

  const SUCCESS := 0
  const FAILURE := -1
  const BUFFER_OVERFLOW := -2
  const CONNACK := 2
  const SUBACK := 9
  const UNSUBACK := 11
  const PINGREQ := 12
  const PINGRESP := 13
  const DISCONNECT := 14
  const MAX_PACKET_ID := 65535

  // ---------------------------------------------------------------- the environment

  /** The outcome of one write: some bytes are taken, or a failure is reported after some were taken. */
  datatype Write = Took(count: nat) | Failed(count: nat)

  class Host {
    const link: PacketReader.BlockingLink
    var writes: seq<Write>
    var expiries: seq<bool>
    ghost var wire: seq<byte>
    ghost var troubles: nat   // failed writes and timers seen to have run out

    constructor (link: PacketReader.BlockingLink, writes: seq<Write>, expiries: seq<bool>)
      ensures this.link == link && this.writes == writes && this.expiries == expiries && wire == []
    {
      this.link, this.writes, this.expiries, this.wire, this.troubles := link, writes, expiries, [], 0;
    }

    /** Nothing goes wrong for so many looks at a timer. */
    ghost predicate Calm(looks: nat)
      reads this`expiries, this`writes, this`troubles, link
    {
      link.script == [] && CalmClock(Clock(), looks)
    }

    /** The answers still to come, and the troubles so far. */
    ghost function Clock(): (seq<bool>, seq<Write>, nat)
      reads this`expiries, this`writes, this`troubles
    {
      (expiries, writes, troubles)
    }

    /** `out` bytes really go out; the caller learns `rc`. Once the list is used up, all are taken. */
    method Put(data: seq<byte>) returns (rc: int, ghost out: nat)
      modifies this`writes, this`wire, this`troubles
      ensures rc <= |data| && out <= |data| && (rc >= 0 ==> out == rc)
      ensures troubles == old(troubles) + if rc < 0 then 1 else 0
      ensures wire == old(wire) + data[..out]
      ensures old(writes) == [] ==> rc == |data| && writes == []
    {
      rc, out := |data|, |data|;
      if writes != [] {
        var n := if writes[0].count <= |data| then writes[0].count else |data|;
        out, rc := n, if writes[0].Took? then n else -1;
        if writes[0].Failed? {
          troubles := troubles + 1;
        }
        writes := writes[1..];
      }
      wire := wire + data[..out];
    }

    /** A look at a timer; all timers have run out once the list is used up. */
    method Expired() returns (expired: bool)
      modifies this`expiries, this`troubles
      ensures expired == RunOut(old(expiries), 0) && expiries == if old(expiries) == [] then [] else old(expiries)[1..]
      ensures troubles == old(troubles) + if expired then 1 else 0
    {
      expired := true;
      if expiries != [] {
        expired := expiries[0];
        expiries := expiries[1..];
      }
      if expired {
        troubles := troubles + 1;
      }
    }
  }

  /** Writes take everything, and so many looks at a timer find it running. */
  predicate CalmClock(clock: (seq<bool>, seq<Write>, nat), looks: nat) {
    clock.1 == [] && |clock.0| >= looks && forall i :: 0 <= i < looks ==> !clock.0[i]
  }

  /** Writes take everything, and the next look at a timer finds it running. */
  predicate Smooth(expiries: seq<bool>, writes: seq<Write>) {
    writes == [] && !RunOut(expiries, 0)
  }

  /** The host after one look at a timer that is still running, and nothing else. */
  function OneLook(clock: (seq<bool>, seq<Write>, nat)): (after: (seq<bool>, seq<Write>, nat))
    ensures after.2 == clock.2
  {
    (if clock.0 == [] then [] else clock.0[1..], clock.1, clock.2)
  }

  /** What the look after `i` others shows. */
  predicate RunOut(expiries: seq<bool>, i: nat) {
    i < |expiries| ==> expiries[i]
  }

  // ---------------------------------------------------------------- dispatch

  datatype Slot = Slot(filter: Option<string>, handler: Option<nat>)

  function Text(topic: seq<byte>): string {
    seq(|topic|, i requires 0 <= i < |topic| => topic[i] as char)
  }

  predicate Accepts(slot: Slot, topic: string) {
    slot.filter.Some? && (slot.filter.value == topic || TopicMatch.Scan(slot.filter.value, topic))
  }

  /** The handlers of the matching slots, in slot order. */
  function Handlers(slots: seq<Slot>, topic: string): seq<nat> {
    if slots == [] then []
    else
      var last := slots[|slots| - 1];
      Handlers(slots[..|slots| - 1], topic)
        + if Accepts(last, topic) && last.handler.Some? then [last.handler.value] else []
  }

  function Recipients(slots: seq<Slot>, fallback: Option<nat>, topic: string): seq<nat> {
    var h := Handlers(slots, topic);
    if h == [] && fallback.Some? then [fallback.value] else h
  }

  datatype Call = Call(handler: nat, message: Received)

  function CallsFor(handlers: seq<nat>, m: Received): seq<Call> {
    seq(|handlers|, i requires 0 <= i < |handlers| => Call(handlers[i], m))
  }

  /** The topic of a message has the characters of its bytes. */
  lemma TextOfBytes(topic: seq<byte>)
    ensures |Text(topic)| == |topic| && forall i :: 0 <= i < |topic| ==> Text(topic)[i] as int == topic[i]
  {
  }

  /**
   The slot has a handler, and its filter takes the topic: it is the same, or it is well formed, matches
   level by level, and its wildcards face levels that are not empty. What a filter takes that is not well
   formed is up to the character loop.
   */
  predicate Receives(slot: Slot, topic: string) {
    slot.filter.Some? && slot.handler.Some? &&
    var levels, names := TopicMatch.Levels(slot.filter.value), TopicMatch.Levels(topic);
    || slot.filter.value == topic
    || if TopicMatch.WellFormed(levels) then
         TopicMatch.LooseMatch(levels, names) && TopicMatch.WildcardsFaceLevels(levels, names)
       else TopicMatch.Scan(slot.filter.value, topic)
  }

  /** The slots that receive the topic, in their order. */
  ghost predicate Chosen(slots: seq<Slot>, topic: string, chosen: seq<nat>) {
    && (forall k :: 0 <= k < |chosen| ==> chosen[k] < |slots| && Receives(slots[chosen[k]], topic))
    && (forall k, l :: 0 <= k < l < |chosen| ==> chosen[k] < chosen[l])
    && (forall i :: 0 <= i < |slots| && Receives(slots[i], topic) ==> i in chosen)
  }

  /** The calls made for a message: one to each slot that receives it, or else one to the default handler. */
  ghost predicate Dispatched(slots: seq<Slot>, fallback: Option<nat>, m: Received, made: seq<Call>) {
    exists chosen :: Chosen(slots, Text(m.topic), chosen) &&
      if chosen == [] then made == (if fallback.Some? then [Call(fallback.value, m)] else [])
      else
        |made| == |chosen| &&
        forall k :: 0 <= k < |made| ==> made[k] == Call(slots[chosen[k]].handler.value, m)
  }

  lemma AcceptsAndHandles(slot: Slot, topic: string)
    ensures Receives(slot, topic) <==> Accepts(slot, topic) && slot.handler.Some?
  {
    if slot.filter.Some? && TopicMatch.WellFormed(TopicMatch.Levels(slot.filter.value)) {
      TopicMatch.ClientMatch(slot.filter.value, topic);
    }
  }

  /** One slot more. */
  lemma ChosenMore(slots: seq<Slot>, topic: string, before: seq<nat>)
    requires slots != [] && Chosen(slots[..|slots| - 1], topic, before)
    ensures var n := |slots| - 1; Chosen(slots, topic, before + if Receives(slots[n], topic) then [n] else [])
  {
    hide Receives;
    var n := |slots| - 1;
    var chosen := before + if Receives(slots[n], topic) then [n] else [];
    forall i | 0 <= i < |slots| && Receives(slots[i], topic)
      ensures i in chosen
    {
      if i < n {
        assert slots[..n][i] == slots[i];
      } else {
        assert chosen[|before|] == n;
      }
    }
  }

  lemma {:induction false} HandlersAreChosen(slots: seq<Slot>, topic: string) returns (chosen: seq<nat>)
    ensures Chosen(slots, topic, chosen) && |Handlers(slots, topic)| == |chosen|
    ensures forall k :: 0 <= k < |chosen| ==>
              slots[chosen[k]].handler.Some? && Handlers(slots, topic)[k] == slots[chosen[k]].handler.value
    decreases |slots|
  {
    hide Accepts;
    chosen := [];
    if slots != [] {
      var n := |slots| - 1;
      chosen := HandlersAreChosen(slots[..n], topic);
      AcceptsAndHandles(slots[n], topic);
      ChosenMore(slots, topic, chosen);
      if Receives(slots[n], topic) {
        chosen := chosen + [n];
      } else {
        assert chosen + [] == chosen;
      }
    }
  }

  lemma RecipientsAreDispatched(slots: seq<Slot>, fallback: Option<nat>, m: Received)
    ensures Dispatched(slots, fallback, m, CallsFor(Recipients(slots, fallback, Text(m.topic)), m))
  {
    var chosen := HandlersAreChosen(slots, Text(m.topic));
    hide Chosen, Handlers;
  }

  /** No two slots have the same filter. */
  ghost predicate FiltersDistinct(slots: seq<Slot>) {
    forall i, j :: 0 <= i < j < |slots| && slots[i].filter.Some? ==> slots[i].filter != slots[j].filter
  }

  /** The first slot at or after `i` with this filter (or with none), the number of slots if there is no such slot. */
  function FindFilter(slots: seq<Slot>, filter: Option<string>, i: nat): (k: nat)
    requires i <= |slots|
    ensures i <= k <= |slots| && (forall j :: i <= j < k ==> slots[j].filter != filter)
    ensures k < |slots| ==> slots[k].filter == filter
    decreases |slots| - i
  {
    if i == |slots| || slots[i].filter == filter then i else FindFilter(slots, filter, i + 1)
  }

  /** The slots after a handler was set for a filter, or removed, and whether that was possible. */
  function Registered(slots: seq<Slot>, filter: string, handler: Option<nat>): (seq<Slot>, bool) {
    var k, free := FindFilter(slots, Some(filter), 0), FindFilter(slots, None, 0);
    if k < |slots| then (slots[k := Slot(if handler.Some? then Some(filter) else None, handler)], true)
    else if handler.Some? && free < |slots| then (slots[free := Slot(Some(filter), handler)], true)
    else (slots, false)
  }

  /** Registering keeps the filters distinct, gives the filter its handler and leaves the other filters alone. */
  lemma RegisteredSlots(slots: seq<Slot>, filter: string, handler: Option<nat>)
    requires FiltersDistinct(slots)
    ensures var (slots', ok) := Registered(slots, filter, handler);
            && |slots'| == |slots| && FiltersDistinct(slots')
            && (ok <==> exists i :: 0 <= i < |slots| &&
                          (slots[i].filter == Some(filter) || (handler.Some? && slots[i].filter == None)))
            && (!ok ==> slots' == slots)
            && (ok && handler.Some? ==> exists i :: 0 <= i < |slots'| && slots'[i] == Slot(Some(filter), handler))
            && (handler.None? ==> forall i :: 0 <= i < |slots'| ==> slots'[i].filter != Some(filter))
            && (forall i :: 0 <= i < |slots| && slots'[i] != slots[i] ==>
                  slots[i].filter in {Some(filter), None} && slots'[i].filter in {Some(filter), None})
  {
    hide FindFilter;
    var k, free := FindFilter(slots, Some(filter), 0), FindFilter(slots, None, 0);
    var (slots', ok) := Registered(slots, filter, handler);
    if k < |slots| {
      assert slots'[k] == Slot(if handler.Some? then Some(filter) else None, handler);
    } else if handler.Some? && free < |slots| {
      assert slots'[free] == Slot(Some(filter), handler);
    }
  }

  // ---------------------------------------------------------------- packet ids

  function NextId(id: nat): nat {
    if id == MAX_PACKET_ID then 1 else id + 1
  }

  function IdAfter(id: nat, n: nat): nat {
    if n == 0 then id else NextId(IdAfter(id, n - 1))
  }

  /** The counter runs through all ids from 1 to 65535 before one comes back. */
  lemma {:induction false} IdAfterIs(id: nat, n: nat)
    requires id <= MAX_PACKET_ID && n > 0
    ensures IdAfter(id, n) == (id + n - 1) % MAX_PACKET_ID + 1
  {
    if n > 1 {
      IdAfterIs(id, n - 1);
    } else {
      assert IdAfter(id, 1) == NextId(IdAfter(id, 0));
    }
  }

  lemma IdsDiffer(id: nat, i: nat, j: nat)
    requires id <= MAX_PACKET_ID && 0 < i < j < i + MAX_PACKET_ID
    ensures 1 <= IdAfter(id, i) <= MAX_PACKET_ID && IdAfter(id, i) != IdAfter(id, j)
  {
    IdAfterIs(id, i);
    IdAfterIs(id, j);
  }

  // ---------------------------------------------------------------- the client

  /** The bytes of a PINGREQ or DISCONNECT. */
  function ZeroBytes(packetType: nat): seq<byte> {
    [Header(packetType, 0, 0, 0), 0]
  }

  method SerializeZero(buf: array<byte>, buflen: nat, packetType: nat) returns (rc: int)
    requires buflen <= buf.Length
    modifies buf
    ensures buflen < 2 ==> rc == MQTTPACKET_BUFFER_TOO_SHORT && buf[..] == old(buf[..])
    ensures buflen >= 2 ==> rc == 2 && buf[..2] == ZeroBytes(packetType)
  {
    if buflen < 2 {
      return MQTTPACKET_BUFFER_TOO_SHORT;
    }
    hide Header;
    var ptr := WriteChar(buf, 0, Header(packetType, 0, 0, 0));
    var n := Encode(buf, ptr, 0);
    rc := ptr + n;
  }

  class Client {
    const host: Host
    const maxPacketSize: nat
    const sendbuf: array<byte>
    const readbuf: array<byte>   // with the two bytes behind it, which the parsers can look at
    const pubbuf: array<byte>
    const messageHandlers: array<Slot>
    const incomingQoS2messages: array<nat>
    var defaultMessageHandler: Option<nat>
    var keepAliveInterval: nat
    var pingOutstanding: bool
    var cleansession: bool
    var isconnected: bool
    var packetid: nat
    var inflightLen: nat
    var inflightMsgid: nat
    var inflightQoS: nat
    var pubrel: bool
    ghost var flight: Publish
    ghost var log: seq<Entry>
    ghost var calls: seq<Call>

    /** The fixed sizes, and that no two buffers share memory. */
    ghost predicate Shape() {
      && 5 <= maxPacketSize <= 65535
      && sendbuf.Length == maxPacketSize && pubbuf.Length == maxPacketSize && readbuf.Length == maxPacketSize + 2
      && sendbuf != readbuf && sendbuf != pubbuf && readbuf != pubbuf
      && incomingQoS2messages.Length == Qos2.MAX_INCOMING_QOS2_MESSAGES
      && incomingQoS2messages as object !in {sendbuf as object, readbuf as object, pubbuf as object}
      && messageHandlers as object !in {sendbuf as object, readbuf as object, pubbuf as object,
                                        incomingQoS2messages as object}
    }

    /** The table, the wire and the deliveries agree with the history. */
    ghost predicate Accounted()
      reads this`log, host`wire, incomingQoS2messages
    {
      incomingQoS2messages.Length == Qos2.MAX_INCOMING_QOS2_MESSAGES
        && Explains(log, incomingQoS2messages[..], host.wire)
    }

    /** While a publish is in flight, its bytes are kept. */
    ghost predicate FlightKept()
      reads this`inflightLen, this`inflightMsgid, this`inflightQoS, this`flight, pubbuf
    {
      inflightMsgid > 0 ==>
        && flight.Valid() && flight.id == inflightMsgid && flight.qos == inflightQoS
        && 0 < inflightLen <= pubbuf.Length && pubbuf[..inflightLen] == flight.Bytes()
    }

    ghost predicate Valid()
      reads this`packetid, this`log, this`inflightLen, this`inflightMsgid, this`inflightQoS, this`flight,
            host`wire, incomingQoS2messages, messageHandlers, pubbuf
    {
      Shape() && packetid <= MAX_PACKET_ID && Accounted() && FlightKept() && FiltersDistinct(messageHandlers[..])
    }

    lemma ValidDeliveries()
      requires Valid()
      ensures DeliveriesAllowed(log)
    {
    }

    lemma ValidTable()
      requires Valid()
      ensures incomingQoS2messages[..] == TableAfter(log) && host.wire == Wire(log) && maxPacketSize >= 5
    {
    }

    /** A new client has no session: no filters, nothing in flight, no ids held. */
    constructor (network: Host, maxPacketSize: nat, maxMessageHandlers: nat)
      requires 5 <= maxPacketSize <= 65535 && network.wire == []
      ensures Valid() && log == [] && !isconnected && cleansession && inflightMsgid == 0 && !pubrel
      ensures host == network && this.maxPacketSize == maxPacketSize && messageHandlers.Length == maxMessageHandlers
      ensures fresh(sendbuf) && fresh(readbuf) && fresh(pubbuf) && fresh(messageHandlers) && fresh(incomingQoS2messages)
    {
      host := network;
      this.maxPacketSize := maxPacketSize;
      sendbuf, pubbuf, readbuf := new byte[maxPacketSize], new byte[maxPacketSize], new byte[maxPacketSize + 2];
      messageHandlers := new Slot[maxMessageHandlers](_ => Slot(None, None));
      incomingQoS2messages := new nat[Qos2.MAX_INCOMING_QOS2_MESSAGES](_ => 0);
      defaultMessageHandler := None;
      packetid := 0;
      cleansession, isconnected, pingOutstanding, pubrel := true, false, false, false;
      inflightMsgid, inflightQoS := 0, 0;
      log, calls := [], [];
      new;
      assert incomingQoS2messages[..] == Empty();
    }

    // ------------------------------------------------------------ the table of incoming ids

    method IsQoS2msgidFree(id: nat) returns (free: bool)
      requires Shape()
      ensures free == (id !in incomingQoS2messages[..])
    {
      for i := 0 to incomingQoS2messages.Length
        invariant forall j :: 0 <= j < i ==> incomingQoS2messages[j] != id
      {
        if incomingQoS2messages[i] == id {
          return false;
        }
      }
      free := true;
    }

    method UseQoS2msgid(id: nat) returns (ok: bool)
      requires Shape()
      modifies incomingQoS2messages
      ensures ok == (0 in old(incomingQoS2messages[..]))
      ensures incomingQoS2messages[..] == Qos2.Replaced(old(incomingQoS2messages[..]), 0, id)
    {
      hide Qos2.Find;
      for i := 0 to incomingQoS2messages.Length
        invariant forall j :: 0 <= j < i ==> incomingQoS2messages[j] != 0
        invariant incomingQoS2messages[..] == old(incomingQoS2messages[..])
      {
        if incomingQoS2messages[i] == 0 {
          incomingQoS2messages[i] := id;
          return true;
        }
      }
      ok := false;
    }

    method FreeQoS2msgid(id: nat)
      requires Shape()
      modifies incomingQoS2messages
      ensures incomingQoS2messages[..] == Qos2.Replaced(old(incomingQoS2messages[..]), id, 0)
    {
      hide Qos2.Find;
      for i := 0 to incomingQoS2messages.Length
        invariant forall j :: 0 <= j < i ==> incomingQoS2messages[j] != id
        invariant incomingQoS2messages[..] == old(incomingQoS2messages[..])
      {
        if incomingQoS2messages[i] == id {
          incomingQoS2messages[i] := 0;
          return;
        }
      }
    }

    // ------------------------------------------------------------ the session

    method CleanSession()
      requires Shape() && Accounted() && FiltersDistinct(messageHandlers[..])
      modifies messageHandlers, incomingQoS2messages, this`inflightMsgid, this`inflightQoS, this`pubrel, this`log
      ensures log == old(log) + [Cleaned] && Accounted() && FiltersDistinct(messageHandlers[..])
      ensures inflightMsgid == 0 && inflightQoS == 0 && !pubrel
      ensures forall i :: 0 <= i < messageHandlers.Length ==>
                messageHandlers[i] == Slot(None, old(messageHandlers[i]).handler)
    {
      hide Explains;
      ExplainsClean(log, incomingQoS2messages[..], host.wire);
      for i := 0 to messageHandlers.Length
        modifies messageHandlers
        invariant forall j :: 0 <= j < i ==> messageHandlers[j] == Slot(None, old(messageHandlers[j]).handler)
        invariant forall j :: i <= j < messageHandlers.Length ==> messageHandlers[j] == old(messageHandlers[j])
      {
        messageHandlers[i] := messageHandlers[i].(filter := None);
      }
      inflightMsgid, inflightQoS := 0, 0;
      pubrel := false;
      for i := 0 to incomingQoS2messages.Length
        modifies incomingQoS2messages
        invariant forall j :: 0 <= j < i ==> incomingQoS2messages[j] == 0
      {
        incomingQoS2messages[i] := 0;
      }
      log := log + [Cleaned];
      assert incomingQoS2messages[..] == Empty();
    }

    method CloseSession()
      requires Valid()
      modifies messageHandlers, incomingQoS2messages, this`inflightMsgid, this`inflightQoS, this`pubrel, this`log,
               this`pingOutstanding, this`isconnected
      ensures Valid() && !isconnected && !pingOutstanding && (pubrel ==> old(pubrel))
      ensures log == old(log) + if cleansession then [Cleaned] else []
      ensures if cleansession then inflightMsgid == 0
              else inflightMsgid == old(inflightMsgid) && inflightQoS == old(inflightQoS)
      ensures !cleansession ==> messageHandlers[..] == old(messageHandlers[..])
    {
      hide Explains, FiltersDistinct, Publish.Valid, Publish.Bytes;
      pingOutstanding := false;
      isconnected := false;
      if cleansession {
        CleanSession();
      }
    }

    // ------------------------------------------------------------ sending

    /** The packet is sent exactly when all its bytes were taken before the timer ran out. */
    method SendPacket(length: nat) returns (rc: int, ghost entry: Entry)
      requires Shape() && 0 < length <= maxPacketSize
      modifies this`log, host`writes, host`wire, host`expiries, host`troubles
      ensures Attempt(entry, sendbuf[..length]) && log == old(log) + [entry]
      ensures host.wire == old(host.wire) + EntryBytes(entry)
      ensures rc == if entry.Sent? then SUCCESS else FAILURE
      ensures !entry.Sent? ==> host.troubles > old(host.troubles)
      ensures old(host.writes) == [] ==> entry.Sent? && host.writes == []
      ensures old(Smooth(host.expiries, host.writes)) ==> entry.Sent? && host.Clock() == OneLook(old(host.Clock()))
      ensures |host.expiries| <= |old(host.expiries)| && host.troubles >= old(host.troubles)
    {
      var sent := 0;
      ghost var packet, out := sendbuf[..length], 0;
      rc := FAILURE;
      while sent < length
        modifies host`writes, host`wire, host`expiries, host`troubles
        invariant out == sent <= length && host.troubles == old(host.troubles)
        invariant old(Smooth(host.expiries, host.writes)) ==>
                    if sent < length then sent == 0 && host.Clock() == old(host.Clock())
                    else host.Clock() == OneLook(old(host.Clock()))
        invariant old(host.writes) == [] ==> host.writes == [] && (sent == 0 || sent == length)
        invariant host.wire == old(host.wire) + packet[..out]
        invariant |host.expiries| <= |old(host.expiries)|
        decreases |host.expiries|
      {
        ghost var before := host.wire;
        var got, n := host.Put(sendbuf[sent..length]);
        ghost var more := packet[..out] + packet[out..][..n];
        assert sendbuf[sent..length] == packet[out..] && more == packet[..out + n];
        out := out + n;
        assert host.wire == before + packet[out - n..][..n] == old(host.wire) + packet[..out];
        if got < 0 {
          break;
        }
        sent := sent + got;
        var expired := host.Expired();
        if expired {
          break;
        }
      }
      entry := if sent == length then Sent(packet) else Broken(packet, out);
      rc := if sent == length then SUCCESS else FAILURE;
      log := log + [entry];
    }

    /** The same for a packet that does not touch the table of incoming ids. */
    method Transmit(length: nat) returns (rc: int, ghost entry: Entry)
      requires Valid() && 0 < length <= maxPacketSize && !IsPubcomp(sendbuf[..length])
      modifies this`log, host`writes, host`wire, host`expiries, host`troubles
      ensures Valid() && Attempt(entry, sendbuf[..length]) && log == old(log) + [entry]
      ensures rc == if entry.Sent? then SUCCESS else FAILURE
      ensures !entry.Sent? ==> host.troubles > old(host.troubles)
      ensures old(host.writes) == [] ==> entry.Sent? && host.writes == []
      ensures old(Smooth(host.expiries, host.writes)) ==> entry.Sent? && host.Clock() == OneLook(old(host.Clock()))
      ensures |host.expiries| <= |old(host.expiries)| && host.troubles >= old(host.troubles)
    {
      hide Explains, FiltersDistinct, FlightKept, IsPubcomp;
      ghost var before, wire := log, host.wire;
      rc, entry := SendPacket(length);
      ExplainsSend(before, entry, sendbuf[..length], incomingQoS2messages[..], wire);
    }

    /** A packet of the client's own: a turn that reads nothing. */
    method Originate(length: nat) returns (rc: int, ghost turns: seq<Turn>)
      requires Valid() && 0 < length <= maxPacketSize && !IsPubcomp(sendbuf[..length])
      modifies this`log, host`writes, host`wire, host`expiries, host`troubles
      ensures Valid() && Went(old(log), old(host.link.incoming), turns) && Kept(turns) && Unbroken(turns)
      ensures |turns| == 1 && Sends(turns[0], sendbuf[..length])
      ensures forall packetType :: !EndsWith(turns, packetType, maxPacketSize)
      ensures rc == if WentOut(turns[0]) then SUCCESS else FAILURE
      ensures !WentOut(turns[0]) ==> host.troubles > old(host.troubles)
      ensures old(Smooth(host.expiries, host.writes)) ==>
                WentOut(turns[0]) && host.Clock() == OneLook(old(host.Clock()))
      ensures |host.expiries| <= |old(host.expiries)| && host.troubles >= old(host.troubles)
    {
      ghost var packet, before, entry := sendbuf[..length], log, Cleaned;
      hide Valid, Ran, LogAfter, Kept, Unbroken, IsPubcomp, EndsWith;
      rc, entry := Transmit(length);
      MildSend(entry, packet);
      OwnTurn(before, host.link.incoming, [entry], maxPacketSize);
      turns := [Own([entry])];
      OwnEnds(entry, maxPacketSize);
    }

    // ------------------------------------------------------------ receiving

    /**
     One packet into the read buffer. The result is its type when it is whole, else BUFFER_OVERFLOW when
     it is too long, and 1, left over from the first read, when the rest does not come.
     */
    method ReadPacket() returns (rc: int, ghost r: PacketReader.Reading)
      requires Shape()
      modifies readbuf, host.link
      ensures host.link.shorts >= old(host.link.shorts)
              && (old(host.link.script) == [] ==> Unhurried(host.link, old(host.link.shorts)))
      ensures PacketReader.Happened(old(host.link.incoming), host.link.incoming, r, maxPacketSize,
                                    host.link.shorts > old(host.link.shorts))
      ensures Reports(r, maxPacketSize, rc) && (rc > 1 ==> Framed(readbuf[..], maxPacketSize) && Type(readbuf[0]) == rc)
      ensures r.Whole(maxPacketSize) ==> Framed(readbuf[..], maxPacketSize) && r.Packet() <= readbuf[..]
    {
      hide PacketReader.FieldRead, PacketReader.FrameHead, PacketReader.Partial, Framed;
      r := PacketReader.NoHeader;
      ghost var all := host.link.incoming;
      var first;
      rc, first := host.link.Get(1);
      if rc != 1 {
        return;
      }
      readbuf[0] := first[0];
      ghost var stream := host.link.incoming;
      var remLen, len, field := PacketReader.ReadRemainingLength(readbuf, host.link);
      r := PacketReader.Header(first[0], field, []);
      ghost var head, more := readbuf[..len], host.link.incoming;
      PacketReader.ReadSoFar(all, first, stream, field, more, [], more, host.link.shorts > old(host.link.shorts));
      if remLen > maxPacketSize - len {
        return BUFFER_OVERFLOW, r;
      }
      if remLen > 0 {
        var got;
        ghost var rest;
        got, rest := PacketReader.ReadRest(readbuf, len, remLen, host.link);
        r := PacketReader.Header(first[0], field, rest);
        PacketReader.ReadSoFar(all, first, stream, field, more, rest, host.link.incoming,
                               host.link.shorts > old(host.link.shorts));
        if got != remLen {
          return;
        }
      }
      assert readbuf[..len + remLen] == head + r.data == r.Packet();
      assert readbuf[0] == r.Packet()[0] == first[0];
      FrameInBuffer(readbuf[..], first[0], r.data, maxPacketSize);
      rc := Type(readbuf[0]);
    }

    /** The message goes to every matching handler, in slot order. */
    method CallMatching(m: Received) returns (rc: int)
      modifies this`calls
      ensures calls == old(calls) + CallsFor(Handlers(messageHandlers[..], Text(m.topic)), m)
      ensures rc == if Handlers(messageHandlers[..], Text(m.topic)) == [] then FAILURE else SUCCESS
    {
      rc := FAILURE;
      var topic := Text(m.topic);
      ghost var called: seq<nat> := [];
      for i := 0 to messageHandlers.Length
        invariant called == Handlers(messageHandlers[..i], topic)
        invariant calls == old(calls) + CallsFor(called, m)
        invariant rc == if called == [] then FAILURE else SUCCESS
      {
        assert messageHandlers[..i + 1][..i] == messageHandlers[..i];
        var slot := messageHandlers[i];
        var matched := false;
        if slot.filter.Some? {
          matched := slot.filter.value == topic;
          if !matched {
            matched := TopicMatch.IsTopicMatched(slot.filter.value, topic);
          }
        }
        if matched && slot.handler.Some? {
          CallsForMore(called, slot.handler.value, m);
          calls := calls + [Call(slot.handler.value, m)];
          called := called + [slot.handler.value];
          rc := SUCCESS;
        }
      }
      assert messageHandlers[..messageHandlers.Length] == messageHandlers[..];
    }

    /** The message goes to the slots that receive its topic, in their order, or else to the default handler. */
    method DeliverMessage(m: Received) returns (rc: int)
      modifies this`calls
      ensures calls == old(calls) + CallsFor(Recipients(messageHandlers[..], defaultMessageHandler, Text(m.topic)), m)
      ensures old(calls) <= calls && rc == if |calls| > |old(calls)| then SUCCESS else FAILURE
      ensures Dispatched(messageHandlers[..], defaultMessageHandler, m, calls[|old(calls)|..])
    {
      hide Dispatched, Handlers, Text;
      rc := CallMatching(m);
      if rc == FAILURE && defaultMessageHandler.Some? {
        CallsForMore([], defaultMessageHandler.value, m);
        calls := calls + [Call(defaultMessageHandler.value, m)];
        rc := SUCCESS;
      }
      RecipientsAreDispatched(messageHandlers[..], defaultMessageHandler, m);
      assert calls[|old(calls)|..] ==
               CallsFor(Recipients(messageHandlers[..], defaultMessageHandler, Text(m.topic)), m);
    }

    /** Adds, replaces or (without a handler) removes the handler of a filter. */
    method SetMessageHandler(topicFilter: string, messageHandler: Option<nat>) returns (rc: int)
      requires FiltersDistinct(messageHandlers[..])
      modifies messageHandlers
      ensures var (slots, ok) := Registered(old(messageHandlers[..]), topicFilter, messageHandler);
              messageHandlers[..] == slots && rc == if ok then SUCCESS else FAILURE
      ensures FiltersDistinct(messageHandlers[..])
    {
      RegisteredSlots(messageHandlers[..], topicFilter, messageHandler);
      hide FiltersDistinct, FindFilter;
      rc := FAILURE;
      var i := 0;
      while i < messageHandlers.Length
        invariant i <= messageHandlers.Length && rc == FAILURE
        invariant messageHandlers[..] == old(messageHandlers[..])
        invariant forall j :: 0 <= j < i ==> messageHandlers[j].filter != Some(topicFilter)
      {
        if messageHandlers[i].filter == Some(topicFilter) {
          if messageHandler.None? {
            messageHandlers[i] := Slot(None, None);
          }
          rc := SUCCESS;
          break;
        }
        i := i + 1;
      }
      if messageHandler.Some? {
        if rc == FAILURE {
          i := 0;
          while i < messageHandlers.Length
            invariant i <= messageHandlers.Length && rc == FAILURE
            invariant messageHandlers[..] == old(messageHandlers[..])
            invariant forall j :: 0 <= j < i ==> messageHandlers[j].filter != None
          {
            if messageHandlers[i].filter.None? {
              rc := SUCCESS;
              break;
            }
            i := i + 1;
          }
        }
        if i < messageHandlers.Length {
          messageHandlers[i] := Slot(Some(topicFilter), messageHandler);
        }
      }
    }

    // ------------------------------------------------------------ one cycle

    /** An acknowledgement is built in the send buffer and sent. */
    method SendAck(packetType: nat, id: nat) returns (rc: int, ghost entry: Entry)
      requires Shape() && packetType < 16 && id < 65536
      modifies sendbuf, this`log, host`writes, host`wire, host`expiries, host`troubles
      ensures Attempt(entry, AckBytes(packetType, 0, id)) && log == old(log) + [entry]
      ensures host.wire == old(host.wire) + EntryBytes(entry)
      ensures rc == if entry.Sent? then SUCCESS else FAILURE
      ensures old(host.writes) == [] ==> entry.Sent? && host.writes == []
      ensures old(Smooth(host.expiries, host.writes)) ==> host.Clock() == OneLook(old(host.Clock()))
      ensures |host.expiries| <= |old(host.expiries)| && host.troubles >= old(host.troubles)
    {
      hide AckBytes;
      var len := SerializeAck(sendbuf, maxPacketSize, packetType, 0, id);
      rc, entry := SendPacket(len);
    }

    /** The id is entered and the message delivered, unless the id is held already or no slot is free. */
    method AcceptMessage(m: Received)
      requires Shape() && Accounted()
      modifies incomingQoS2messages, this`log, this`calls
      ensures Accounted()
      ensures log == old(log) + Handed(old(incomingQoS2messages[..]), Message(m))
      ensures calls == old(calls) + if MayDeliver(old(incomingQoS2messages[..]), m)
                then CallsFor(Recipients(messageHandlers[..], defaultMessageHandler, Text(m.topic)), m) else []
    {
      hide Explains, Recipients, CallsFor, Qos2.Replaced, Text;
      ghost var t, wire := incomingQoS2messages[..], host.wire;
      ghost var deliver := MayDeliver(t, m);
      assert wire + [] == wire;
      if deliver {
        ExplainsMore(log, Delivered(m), t, wire);
      }
      if m.qos != 2 {
        var _ := DeliverMessage(m);
        log := log + [Delivered(m)];
      } else {
        var free := IsQoS2msgidFree(if m.id.Some? then m.id.value else 0);
        if free {
          var ok := UseQoS2msgid(if m.id.Some? then m.id.value else 0);
          if ok {
            var _ := DeliverMessage(m);
            log := log + [Delivered(m)];
          } else {
            FullTableStays(t, Id(m));
          }
        }
      }
    }

    /** The PUBLISH case of a cycle. */
    method TakePublish() returns (rc: int, done: bool, ghost job: Job, ghost reply: seq<Entry>)
      requires Valid() && Framed(readbuf[..], maxPacketSize) && Type(readbuf[0]) == PUBLISH
      modifies incomingQoS2messages, sendbuf, this`log, this`calls, host`writes, host`wire, host`expiries, host`troubles
      ensures Valid() && Brings(readbuf[..], PUBLISH, job) && Replies(job, reply)
      ensures log == old(log) + Handed(old(incomingQoS2messages[..]), job) + reply
      ensures calls == old(calls)
                + CallsOf(job, old(incomingQoS2messages[..]), messageHandlers[..], defaultMessageHandler)
      ensures rc == (if Fails(job, reply) then FAILURE else SUCCESS) && (done <==> job == Nothing || rc == FAILURE)
      ensures old(host.writes) == [] ==> host.writes == [] && (reply != [] ==> reply[0].Sent?)
      ensures |host.expiries| <= |old(host.expiries)| && host.troubles >= old(host.troubles)
    {
      hide Explains, LengthReadable, DecodeLength, FiltersDistinct, Publish.Valid, Publish.Bytes, AckBytes,
           Recipients, CallsFor, Type, Text;
      FramedPublish(readbuf[..], maxPacketSize);
      var code, parsed := DeserializePublish(readbuf);
      job, reply := Nothing, [];
      if code != 1 {
        return SUCCESS, true, job, reply;
      }
      var m: Received;
      if parsed.Some? {
        m := parsed.value;
      } else {
        var topic: seq<byte> := *;
        var unsetId: nat := *;
        m := Received(Dup(readbuf[0]), Qos(readbuf[0]), Retain(readbuf[0]), Some(unsetId % 65536), topic, [], 0);
      }
      ParsedId(readbuf[..], maxPacketSize);
      job := Message(m);
      AcceptMessage(m);
      rc := SUCCESS;
      if m.qos != 0 {
        rc := FAILURE;
        if m.qos == 1 || m.qos == 2 {
          ghost var before, wire := log, host.wire;
          var kind := if m.qos == 1 then PUBACK else PUBREC;
          ghost var entry;
          AckEntry(kind, Id(m));
          rc, entry := SendAck(kind, if m.id.Some? then m.id.value else 0);
          reply := [entry];
          ExplainsSend(before, entry, AckBytes(kind, 0, Id(m)), incomingQoS2messages[..], wire);
        }
      }
      done := rc == FAILURE;
    }

    /** The PUBREC and PUBREL cases: the id is given back only after its PUBCOMP was sent. */
    method TakeRelease(packetType: nat) returns (rc: int, ghost job: Job, ghost reply: seq<Entry>)
      requires Valid() && Framed(readbuf[..], maxPacketSize) && packetType in {PUBREC, PUBREL}
      modifies incomingQoS2messages, sendbuf, this`log, host`writes, host`wire, host`expiries, host`troubles
      ensures Valid() && Brings(readbuf[..], packetType, job) && Replies(job, reply)
      ensures log == old(log) + reply
      ensures rc == if job == Nothing || Fails(job, reply) then FAILURE else SUCCESS
      ensures old(host.writes) == [] ==> host.writes == [] && (reply != [] ==> reply[0].Sent?)
      ensures job != Nothing && old(Smooth(host.expiries, host.writes)) ==> host.Clock() == OneLook(old(host.Clock()))
      ensures |host.expiries| <= |old(host.expiries)| && host.troubles >= old(host.troubles)
    {
      hide Explains, LengthReadable, DecodeLength, FiltersDistinct, Publish.Valid, Publish.Bytes, AckBytes, Type,
           Qos2.Replaced;
      job, reply := Nothing, [];
      var code, ack := DeserializeAck(readbuf);
      if code != 1 {
        return FAILURE, job, reply;
      }
      var unset: nat := *;
      var id := if ack.id.Some? then ack.id.value else unset % 65536;
      job := Release(id, packetType == PUBREL);
      var kind := if packetType == PUBREC then PUBREL else PUBCOMP;
      ghost var before, wire, t := log, host.wire, incomingQoS2messages[..];
      ghost var entry;
      AckEntry(kind, id);
      rc, entry := SendAck(kind, id);
      reply := [entry];
      if rc == FAILURE || packetType == PUBREC {
        ExplainsSend(before, entry, AckBytes(kind, 0, id), t, wire);
      } else {
        ExplainsMore(before, entry, t, wire);
        FreeQoS2msgid(id);
      }
    }

    /** A ping when it is due; an unanswered ping, or one that cannot be sent, is a failure. */
    method KeepAlive() returns (rc: int, ghost ping: seq<Entry>)
      requires Valid()
      modifies sendbuf, this`pingOutstanding, this`log, host`writes, host`wire, host`expiries, host`troubles
      ensures Valid() && log == old(log) + ping
      ensures ping == [] || (|ping| == 1 && Attempt(ping[0], ZeroBytes(PINGREQ)))
      ensures KeptAlive(keepAliveInterval, old(pingOutstanding), old(host.expiries), ping, rc == FAILURE)
      ensures rc in {SUCCESS, FAILURE} && (pingOutstanding <==> old(pingOutstanding) || (ping != [] && ping[0].Sent?))
      ensures rc == FAILURE ==> host.troubles > old(host.troubles)
      ensures old(host.writes) == [] ==> ping != [] ==> ping[0].Sent?
      ensures keepAliveInterval == 0 ==> host.Clock() == old(host.Clock())
      ensures |host.expiries| <= |old(host.expiries)| && host.troubles >= old(host.troubles)
    {
      hide Explains, FiltersDistinct, Publish.Valid, Publish.Bytes, ZeroBytes;
      rc, ping := SUCCESS, [];
      if keepAliveInterval == 0 {
        return;
      }
      if pingOutstanding {
        var expired := host.Expired();
        if expired {
          rc := FAILURE;
        }
      } else {
        var due := host.Expired();
        if !due {
          due := host.Expired();
        }
        if due {
          var len := SerializeZero(sendbuf, maxPacketSize, PINGREQ);
          ghost var entry;
          ZeroIsNoPubcomp(PINGREQ);
          rc, entry := Transmit(len);
          ping := [entry];
          if rc == SUCCESS {
            pingOutstanding := true;
          }
        }
      }
    }

    /** The reaction to a packet type; `done` skips the keep-alive check. */
    method React(packetType: int) returns (rc: int, done: bool, ghost job: Job, ghost reply: seq<Entry>)
      requires Valid() && (packetType > 1 ==> Framed(readbuf[..], maxPacketSize) && Type(readbuf[0]) == packetType)
      modifies incomingQoS2messages, sendbuf, host`writes, host`wire, host`expiries, host`troubles,
               this`pingOutstanding, this`log, this`calls
      ensures Valid() && |host.expiries| <= |old(host.expiries)| && host.troubles >= old(host.troubles)
      ensures old(host.writes) == [] ==> host.writes == [] && (reply != [] ==> reply[0].Sent?)
      ensures Brings(readbuf[..], packetType, job) && Replies(job, reply)
      ensures log == old(log) + Handed(old(incomingQoS2messages[..]), job) + reply
      ensures calls == old(calls)
                + CallsOf(job, old(incomingQoS2messages[..]), messageHandlers[..], defaultMessageHandler)
      ensures rc ==
              if !Known(packetType) then packetType else if NotDone(packetType, job, reply) then FAILURE else SUCCESS
      ensures done <==> rc != SUCCESS || (packetType == PUBLISH && job == Nothing)
      ensures pingOutstanding == (old(pingOutstanding) && packetType != PINGRESP)
      ensures packetType !in {PUBLISH, PUBREC, PUBREL} ==> host.Clock() == old(host.Clock())
      ensures packetType in {PUBREC, PUBREL} && job != Nothing && old(Smooth(host.expiries, host.writes)) ==>
                host.Clock() == OneLook(old(host.Clock()))
    {
      hide Explains, FiltersDistinct, Publish.Valid, Publish.Bytes, Framed, Type, LengthReadable, DecodeLength,
           FlightKept, Accounted, InBounds, AckInBounds, ReturnCode, Parse, AckCode, ParseAck, Attempt;
      rc, done, job, reply := SUCCESS, false, Nothing, [];
      if packetType == PUBLISH {
        rc, done, job, reply := TakePublish();
      } else if packetType == PUBREC || packetType == PUBREL {
        rc, job, reply := TakeRelease(packetType);
        done := rc == FAILURE;
      } else if packetType == PINGRESP {
        pingOutstanding := false;
      } else if packetType !in {0, CONNACK, PUBACK, SUBACK, UNSUBACK, PUBCOMP} {
        rc := packetType;
        done := true;
      }
    }

    /** The end of a cycle: the keep-alive check unless skipped, and the session is closed on a failure. */
    method Finish(packetType: int, before: int, done: bool)
      returns (rc: int, ghost failed: bool, ghost rest: seq<Entry>)
      requires Valid() && (before != SUCCESS ==> done)
      modifies sendbuf, incomingQoS2messages, messageHandlers, host`writes, host`wire, host`expiries, host`troubles,
               this`pingOutstanding, this`isconnected, this`inflightMsgid, this`inflightQoS, this`pubrel, this`log
      ensures Valid() && (pubrel ==> old(pubrel)) && |host.expiries| <= |old(host.expiries)|
              && host.troubles >= old(host.troubles)
      ensures log == old(log) + rest && RestAllowed(rest)
      ensures rc == if !failed then packetType else if before != SUCCESS then before else FAILURE
      ensures if done then (failed <==> before != SUCCESS) && !PingSent(rest)
              else KeptAlive(keepAliveInterval, old(pingOutstanding), old(host.expiries), rest, failed)
      ensures failed && before == SUCCESS ==> host.troubles > old(host.troubles)
      ensures done || keepAliveInterval == 0 ==> host.Clock() == old(host.Clock())
      ensures isconnected == (old(isconnected) && !failed)
      ensures pingOutstanding ==
              (!(old(isconnected) && failed) && (old(pingOutstanding) || (PingSent(rest) && rest[0].Sent?)))
      ensures if old(isconnected) && failed && cleansession then
                inflightMsgid == 0 && Cleaned in rest
              else
                && inflightMsgid == old(inflightMsgid) && inflightQoS == old(inflightQoS)
                && messageHandlers[..] == old(messageHandlers[..]) && Cleaned !in rest
    {
      hide Explains, FiltersDistinct, Publish.Valid, Publish.Bytes, ZeroBytes, FlightKept, Accounted;
      rc, rest := before, [];
      if !done {
        var alive;
        alive, rest := KeepAlive();
        if alive != SUCCESS {
          rc := FAILURE;
        }
      }
      failed := rc != SUCCESS;
      if rc == SUCCESS {
        rc := packetType;
      } else if isconnected {
        CloseSession();
        rest := rest + if cleansession then [Cleaned] else [];
      }
    }

    /**
     One packet is read and worked off: a turn. Its job is what the packet brings, and what follows is a
     ping if it is due, and the end of a clean session if something failed. The result is the packet
     type, or FAILURE.
     */
    method Cycle() returns (rc: int, ghost r: Report)
      requires Valid()
      modifies readbuf, sendbuf, incomingQoS2messages, messageHandlers,
               host.link, host`writes, host`wire, host`expiries, host`troubles, this`pingOutstanding, this`isconnected,
               this`inflightMsgid, this`inflightQoS, this`pubrel, this`log, this`calls
      ensures Valid() && (pubrel ==> old(pubrel))
      ensures |host.expiries| <= |old(host.expiries)| && host.troubles >= old(host.troubles)
      ensures r.packetType > 1 ==> Framed(readbuf[..], maxPacketSize) && Type(readbuf[0]) == r.packetType
      ensures host.link.shorts >= old(host.link.shorts) && r.turn.short == (host.link.shorts > old(host.link.shorts))
      ensures old(host.link.script) == [] ==> Unhurried(host.link, old(host.link.shorts))
      ensures PacketReader.Happened(old(host.link.incoming), host.link.incoming, r.turn.reading, maxPacketSize,
                                    r.turn.short)
      ensures Reports(r.turn.reading, maxPacketSize, r.packetType)
      ensures r.turn.reading.Whole(maxPacketSize) ==> r.turn.reading.Packet() <= readbuf[..]
      ensures r.packetType !in {PUBLISH, PUBREC, PUBREL} && keepAliveInterval == 0 ==> host.Clock() == old(host.Clock())
      ensures r.packetType in {PUBREC, PUBREL} && r.turn.job != Nothing && keepAliveInterval == 0
              && old(Smooth(host.expiries, host.writes)) ==>
                host.Clock() == OneLook(old(host.Clock()))
      ensures r.turn.failed && !NotDone(r.packetType, r.turn.job, r.turn.reply) ==> host.troubles > old(host.troubles)
      ensures old(host.writes) == [] ==> r.turn.reply != [] ==> r.turn.reply[0].Sent?
      ensures pingOutstanding ==
              (!(old(isconnected) && r.turn.failed)
               && ((old(pingOutstanding) && r.packetType != PINGRESP)
                   || (PingSent(r.turn.rest) && r.turn.rest[0].Sent?)))
      ensures Brings(readbuf[..], r.packetType, r.turn.job) && Allowed(r.turn, maxPacketSize)
      ensures log == Turned(old(log), r.turn) && RestAllowed(r.turn.rest)
      ensures calls == old(calls)
                + CallsOf(r.turn.job, old(incomingQoS2messages[..]), old(messageHandlers[..]), defaultMessageHandler)
      ensures rc == if !r.turn.failed || !Known(r.packetType) then r.packetType else FAILURE
      ensures if NotDone(r.packetType, r.turn.job, r.turn.reply) then r.turn.failed && !PingSent(r.turn.rest)
              else if r.packetType == PUBLISH && r.turn.job == Nothing then !r.turn.failed && !PingSent(r.turn.rest)
              else KeptAlive(keepAliveInterval, old(pingOutstanding) && r.packetType != PINGRESP, r.timers, r.turn.rest,
                             r.turn.failed)
      ensures isconnected == (old(isconnected) && !r.turn.failed)
      ensures if old(isconnected) && r.turn.failed && cleansession then
                inflightMsgid == 0 && Cleaned in r.turn.rest
              else
                && inflightMsgid == old(inflightMsgid) && inflightQoS == old(inflightQoS)
                && messageHandlers[..] == old(messageHandlers[..]) && Cleaned !in r.turn.rest
    {
      hide Explains, FiltersDistinct, Publish.Valid, Publish.Bytes, Framed, Replies, Brings, FlightKept, Accounted,
           TableAfter, CallsOf, Type, Handed, RestAllowed, Fails, KeptAlive, PacketReader.Happened, Reports, Allowed,
           Smooth, OneLook, PacketReader.Reading.Packet, PacketReader.Reading.Whole, PacketReader.Reading.Fits;
      ghost var t := incomingQoS2messages[..];
      assert t == TableAfter(log) by { ValidTable(); }
      var packetType, before, done;
      ghost var reading, job, reply, failed, rest;
      packetType, reading := ReadPacket();
      ghost var short := host.link.shorts > old(host.link.shorts);
      before, done, job, reply := React(packetType);
      ghost var timers := host.expiries;
      rc, failed, rest := Finish(packetType, before, done);
      ghost var turn := Turn(reading, short, job, reply, rest, failed);
      TurnIsAllowed(readbuf[..], packetType, turn, maxPacketSize);
      r := Report(packetType, turn, timers);
    }

    /** One cycle if the timer has not run out. */
    method CycleInTime(ghost wanted: int) returns (rc: int, expired: bool, ghost turns: seq<Turn>)
      requires Valid()
      modifies readbuf, sendbuf, incomingQoS2messages, messageHandlers,
               host.link, host`writes, host`wire, host`expiries, host`troubles, this`pingOutstanding, this`isconnected,
               this`inflightMsgid, this`inflightQoS, this`pubrel, this`log, this`calls
      ensures Valid() && (pubrel ==> old(pubrel)) && (isconnected ==> old(isconnected))
      ensures host.troubles >= old(host.troubles) && host.link.shorts >= old(host.link.shorts)
      ensures Went(old(log), old(host.link.incoming), turns)
      ensures old(host.link.script) == [] ==> host.link.script == [] && Unbroken(turns)
      ensures expired == RunOut(old(host.expiries), 0)
      ensures if expired then
                && rc == FAILURE && turns == [] && host.troubles > old(host.troubles) && isconnected == old(isconnected)
                && |host.expiries| <= |old(host.expiries)|
              else
                |turns| == 1 && |host.expiries| < |old(host.expiries)| && (rc < 0 ==> !isconnected)
      ensures rc == wanted > 1 ==> Framed(readbuf[..], maxPacketSize) && Type(readbuf[0]) == wanted
      ensures Plain(wanted) ==> (rc == wanted <==> EndsWith(turns, wanted, maxPacketSize))
      ensures EndsWith(turns, wanted, maxPacketSize) ==> LastPacket(turns) <= readbuf[..]
      ensures Awaited(old(host.link.incoming), wanted) && host.link.shorts == old(host.link.shorts)
              && host.troubles == old(host.troubles) ==>
                && rc == wanted && Kept(turns)
                && FrontTaken(old(host.link.incoming), host.link.incoming, turns, maxPacketSize)
      ensures Awaited(old(host.link.incoming), wanted) && old(Smoothly()) ==>
                Unhurried(host.link, old(host.link.shorts)) && host.Clock() == OneLook(old(host.Clock()))
      ensures old(BeforeHandshake(wanted)) ==> rc == PUBREC && InHandshake(old(host.link.incoming), wanted, turns)
      ensures FlightStays(old(inflightMsgid), old(inflightQoS), turns, old(isconnected))
    {
      hide Explains, FiltersDistinct, Publish.Valid, Publish.Bytes, Framed, Replies, Brings, FlightKept, Accounted,
           Allowed, CallsOf, Type, Handed, RestAllowed, NotDone, KeptAlive, PacketReader.Happened, Reports, Turned,
           Ran, LogAfter, PacketReader.Reading.Packet, PacketReader.Reading.Whole, FrontTaken, Comes, EndsWith,
           LastPacket;
      rc, turns := FAILURE, [];
      expired := host.Expired();
      if expired {
        NoTurns(log, host.link.incoming, maxPacketSize);
        EndOfNone(wanted, maxPacketSize);
        return;
      }
      ghost var before, stream := log, host.link.incoming;
      ghost var r;
      rc, r := Cycle();
      turns := [r.turn];
      OneTurn(before, stream, host.link.incoming, r.turn, maxPacketSize);
      PlainIsDone(readbuf[..], r, maxPacketSize);
      ResultOfTurn(r, rc, readbuf[..], maxPacketSize, wanted);
      if old(BeforeHandshake(wanted)) {
        PubrecTurn(stream, host.link.incoming, r, readbuf[..], maxPacketSize);
        QuietRest(r, old(pingOutstanding) && r.packetType != PINGRESP);
      }
      if host.link.shorts == old(host.link.shorts) && Comes(stream, maxPacketSize, wanted) {
        FrontComes(stream, host.link.incoming, r, maxPacketSize, wanted);
      }
    }

    /** What happened since is these turns; a session that is to be kept was kept. */
    ghost predicate Went(history: seq<Entry>, stream: seq<byte>, turns: seq<Turn>)
      reads this`log, this`cleansession, host.link
    {
      && log == LogAfter(history, turns) && Ran(stream, host.link.incoming, turns, maxPacketSize)
      && (cleansession || Kept(turns))
    }

    /** The packet at the front of the stream is of the wanted type, one that only makes a wait end. */
    ghost predicate Awaited(all: seq<byte>, wanted: int) {
      Plain(wanted) && Comes(all, maxPacketSize, wanted)
    }

    /** Or a PUBREC is there, and behind it the packet of the wanted type. */
    ghost predicate PubrecThen(all: seq<byte>, wanted: int) {
      PubrecComes(all) && Awaited(all[4..], wanted)
    }

    /** They are there, and nothing disturbs while both are taken. */
    ghost predicate BeforeHandshake(wanted: int)
      reads this`keepAliveInterval, host`expiries, host`writes, host`troubles, host.link
    {
      PubrecThen(host.link.incoming, wanted) && keepAliveInterval == 0 && host.Calm(3)
    }

    /** The PUBREC is taken. */
    ghost predicate InHandshake(all: seq<byte>, wanted: int, turns: seq<Turn>)
      reads this`keepAliveInterval, host`expiries, host.link
    {
      && PubrecTaken(all, host.link.incoming, turns)
      && Awaited(host.link.incoming, wanted) && Smoothly()
    }

    /** A calm network writes without trouble. */
    lemma CalmNow()
      ensures host.Calm(4) ==> host.Calm(2)
      ensures host.Calm(2) ==> Smooth(host.expiries, host.writes)
    {
    }

    lemma CalmThen(clock: (seq<bool>, seq<Write>, nat), calm: bool)
      requires calm ==> CalmClock(clock, 2)
      ensures keepAliveInterval == 0 && calm && host.link.script == [] && host.Clock() == OneLook(clock) ==> Smoothly()
    {
    }

    lemma HandshakeAhead(wanted: int, clock: (seq<bool>, seq<Write>, nat), calm: bool)
      requires calm ==> CalmClock(clock, 4)
      ensures PubrecThen(host.link.incoming, wanted) && keepAliveInterval == 0 && calm && host.link.script == []
              && host.Clock() == OneLook(clock) ==>
                BeforeHandshake(wanted)
    {
      hide Awaited, PubrecComes;
    }

    lemma WaitsForNoPubrec(wanted: int)
      ensures BeforeHandshake(wanted) ==> wanted != PUBREC
    {
    }

    lemma HandshakeGoesOn(all: seq<byte>, wanted: int, turns: seq<Turn>)
      ensures InHandshake(all, wanted, turns) ==>
                PubrecTaken(all, host.link.incoming, turns) && Awaited(host.link.incoming, wanted) && Smoothly()
    {
    }

    /** No timer is about to run out, no ping can fall due, and no read will be short. */
    ghost predicate Smoothly()
      reads this`keepAliveInterval, host`expiries, host.link
    {
      keepAliveInterval == 0 && host.link.script == [] && !RunOut(host.expiries, 0)
    }

    /** What was in flight still is, unless a clean session was closed in these turns. */
    ghost predicate FlightStays(id: nat, qos: nat, turns: seq<Turn>, connected: bool)
      reads this`inflightMsgid, this`inflightQoS, this`isconnected
    {
      || (inflightMsgid == id && inflightQoS == qos)
      || (inflightMsgid == 0 && connected && !isconnected && !Kept(turns))
    }

    /**
     What was in flight ends by the acknowledgement that the last turn took, if that carries its id (or is
     too short to carry any), or with a clean session; an acknowledgement with its id does end it.
     */
    ghost predicate FlightAfter(id: nat, turns: seq<Turn>, acknowledged: bool)
      reads this`inflightMsgid
    {
      && (acknowledged && AckOf(LastBody(turns)) == Some(id) ==> inflightMsgid == 0)
      && (|| inflightMsgid == id
          || (inflightMsgid == 0 && (!Kept(turns) || (acknowledged && AckOf(LastBody(turns)) in {Some(id), None}))))
    }

    /**
     Cycles until a packet of the wanted type was worked off, something fails or the time is up. A packet
     of that type at the front of the stream is the one, unless a timer or a write got in the way.
     */
    method WaitFor(packetType: int) returns (rc: int, ghost turns: seq<Turn>)
      requires Valid() && packetType > 1
      modifies readbuf, sendbuf, incomingQoS2messages, messageHandlers,
               host.link, host`writes, host`wire, host`expiries, host`troubles, this`pingOutstanding, this`isconnected,
               this`inflightMsgid, this`inflightQoS, this`pubrel, this`log, this`calls
      ensures Valid() && (pubrel ==> old(pubrel)) && (isconnected ==> old(isconnected))
      ensures host.troubles >= old(host.troubles) && host.link.shorts >= old(host.link.shorts)
      ensures Went(old(log), old(host.link.incoming), turns)
      ensures old(host.link.script) == [] ==> host.link.script == [] && Unbroken(turns)
      ensures rc == packetType ==> Framed(readbuf[..], maxPacketSize) && Type(readbuf[0]) == packetType
      ensures rc != packetType ==> !isconnected || host.troubles > old(host.troubles)
      ensures Plain(packetType) ==> (rc == packetType <==> EndsWith(turns, packetType, maxPacketSize))
      ensures Plain(packetType) && rc == packetType ==> LastPacket(turns) <= readbuf[..]
      ensures Awaited(old(host.link.incoming), packetType) && host.link.shorts == old(host.link.shorts)
              && host.troubles == old(host.troubles) ==>
                && rc == packetType && Kept(turns)
                && FrontTaken(old(host.link.incoming), host.link.incoming, turns, maxPacketSize)
      ensures Awaited(old(host.link.incoming), packetType) && old(Smoothly()) ==>
                Unhurried(host.link, old(host.link.shorts)) && host.Clock() == OneLook(old(host.Clock()))
      ensures old(BeforeHandshake(packetType)) ==>
                rc == packetType && HandshakeTaken(old(host.link.incoming), host.link.incoming, turns, maxPacketSize)
      ensures FlightStays(old(inflightMsgid), old(inflightQoS), turns, old(isconnected))
    {
      hide Valid, Shape;
      hide Explains, FiltersDistinct, FlightKept, Accounted, Framed, Type, FrontTaken, Awaited, Smoothly, Ran,
           LogAfter, Kept, Unbroken, LastPacket, EndsWith, PubrecComes, PubrecTaken, HandshakeTaken, BeforeHandshake,
           InHandshake;
      rc, turns := FAILURE, [];
      NoTurns(log, host.link.incoming, maxPacketSize);
      EndOfNone(packetType, maxPacketSize);
      ghost var awaited, smooth := Awaited(host.link.incoming, packetType), Smoothly();
      ghost var handshake := BeforeHandshake(packetType);
      WaitsForNoPubrec(packetType);
      while true
        invariant old(host.link.script) == [] ==> host.link.script == [] && Unbroken(turns)
        invariant Valid() && (pubrel ==> old(pubrel)) && (isconnected ==> old(isconnected))
        invariant host.troubles >= old(host.troubles) && host.link.shorts >= old(host.link.shorts)
        invariant Went(old(log), old(host.link.incoming), turns)
        invariant rc != packetType && (Plain(packetType) ==> !EndsWith(turns, packetType, maxPacketSize))
        invariant FlightStays(old(inflightMsgid), old(inflightQoS), turns, old(isconnected))
        invariant turns == [] ==>
                    && host.Clock() == old(host.Clock()) && host.link.incoming == old(host.link.incoming)
                    && host.link.shorts == old(host.link.shorts) && Smoothly() == smooth
                    && BeforeHandshake(packetType) == handshake
        invariant turns != [] && awaited ==>
                    !smooth && (host.link.shorts > old(host.link.shorts) || host.troubles > old(host.troubles))
        invariant turns != [] && handshake ==> InHandshake(old(host.link.incoming), packetType, turns)
        decreases |host.expiries|
      {
        ghost var stream := host.link.incoming;
        HandshakeGoesOn(old(host.link.incoming), packetType, turns);
        var got, expired;
        ghost var more;
        got, expired, more := CycleInTime(packetType);
        RunsJoin(old(log), old(host.link.incoming), stream, host.link.incoming, turns, more, maxPacketSize);
        if expired {
          assert turns + more == turns;
          break;
        }
        HandshakeJoins(old(host.link.incoming), stream, host.link.incoming, turns, more, maxPacketSize);
        rc := got;
        EndOfMore(turns, more, packetType, maxPacketSize);
        turns := turns + more;
        if rc == packetType || rc < 0 {
          break;
        }
      }
    }

    /** Cycles until the time is up or an error; one that is reported as a positive number does not stop it. */
    method Yield() returns (rc: int, ghost turns: seq<Turn>)
      requires Valid()
      modifies readbuf, sendbuf, incomingQoS2messages, messageHandlers,
               host.link, host`writes, host`wire, host`expiries, host`troubles, this`pingOutstanding, this`isconnected,
               this`inflightMsgid, this`inflightQoS, this`pubrel, this`log, this`calls
      ensures Valid() && (pubrel ==> old(pubrel)) && rc in {SUCCESS, FAILURE}
      ensures (isconnected ==> old(isconnected)) && (isconnected ==> rc == SUCCESS)
      ensures Went(old(log), old(host.link.incoming), turns)
      ensures old(host.link.script) == [] ==> host.link.script == [] && Unbroken(turns)
      ensures FlightStays(old(inflightMsgid), old(inflightQoS), turns, old(isconnected))
    {
      hide Explains, FiltersDistinct, FlightKept, Accounted, Framed, Type, FrontTaken, Awaited, Smoothly, Ran,
           LogAfter, Kept, Unbroken, LastPacket, EndsWith;
      rc, turns := SUCCESS, [];
      NoTurns(log, host.link.incoming, maxPacketSize);
      while true
        invariant old(host.link.script) == [] ==> host.link.script == [] && Unbroken(turns)
        invariant Valid() && (pubrel ==> old(pubrel)) && rc == SUCCESS
        invariant (isconnected ==> old(isconnected)) && Went(old(log), old(host.link.incoming), turns)
        invariant FlightStays(old(inflightMsgid), old(inflightQoS), turns, old(isconnected))
        decreases |host.expiries|
      {
        ghost var stream := host.link.incoming;
        var got, expired;
        ghost var more;
        got, expired, more := CycleInTime(0);
        RunsJoin(old(log), old(host.link.incoming), stream, host.link.incoming, turns, more, maxPacketSize);
        turns := turns + more;
        if expired {
          break;
        }
        if got < 0 {
          rc := FAILURE;
          break;
        }
      }
    }

    // ------------------------------------------------------------ publishing

    /**
     Waits for an acknowledgement; the last turn decides. One of the wanted type is success, whatever its
     id; the publish in flight ends if it is the id of that.
     */
    method AwaitAck(packetType: nat) returns (rc: int, ghost turns: seq<Turn>)
      requires Valid() && packetType in {PUBACK, PUBCOMP}
      modifies readbuf, sendbuf, incomingQoS2messages, messageHandlers,
               host.link, host`writes, host`wire, host`expiries, host`troubles, this`pingOutstanding, this`isconnected,
               this`inflightMsgid, this`inflightQoS, this`pubrel, this`log, this`calls
      ensures Valid() && (pubrel ==> old(pubrel)) && (isconnected ==> old(isconnected))
      ensures host.troubles >= old(host.troubles) && host.link.shorts >= old(host.link.shorts)
      ensures Went(old(log), old(host.link.incoming), turns)
      ensures old(host.link.script) == [] ==> host.link.script == [] && Unbroken(turns)
      ensures rc == if EndsWith(turns, packetType, maxPacketSize) then SUCCESS else FAILURE
      ensures FlightAfter(old(inflightMsgid), turns, rc == SUCCESS)
      ensures Awaited(old(host.link.incoming), packetType) && host.link.shorts == old(host.link.shorts)
              && host.troubles == old(host.troubles) ==>
                && rc == SUCCESS && Kept(turns)
                && FrontTaken(old(host.link.incoming), host.link.incoming, turns, maxPacketSize)
      ensures Awaited(old(host.link.incoming), packetType) && old(Smoothly()) ==>
                Unhurried(host.link, old(host.link.shorts)) && host.Clock() == OneLook(old(host.Clock()))
      ensures old(BeforeHandshake(packetType)) ==>
                rc == SUCCESS && HandshakeTaken(old(host.link.incoming), host.link.incoming, turns, maxPacketSize)
    {
      hide Explains, FiltersDistinct, Publish.Valid, Publish.Bytes, Type, LengthReadable, DecodeLength, Accounted,
           Awaited, Smoothly, FrontTaken, AckOf, Ran, LogAfter, Kept, Unbroken, LastPacket, EndsWith, AckInBounds,
           BeforeHandshake, HandshakeTaken;
      var got;
      got, turns := WaitFor(packetType);
      rc := FAILURE;
      if got == packetType {
        LastAck(turns, packetType, readbuf[..], maxPacketSize);
        var code, ack := DeserializeAck(readbuf);
        if code == 1 {
          rc := SUCCESS;
          var unset: nat := *;
          if inflightMsgid == (if ack.id.Some? then ack.id.value else unset) {
            inflightMsgid := 0;
          }
        }
      }
    }

    /** The session is closed; discarding it is a turn of its own. */
    method GiveUp() returns (ghost turns: seq<Turn>)
      requires Valid()
      modifies messageHandlers, incomingQoS2messages, this`inflightMsgid, this`inflightQoS, this`pubrel, this`log,
               this`pingOutstanding, this`isconnected
      ensures Valid() && !isconnected && (pubrel ==> old(pubrel))
      ensures Went(old(log), old(host.link.incoming), turns) && Unbroken(turns)
      ensures forall packetType :: !EndsWith(turns, packetType, maxPacketSize)
      ensures if cleansession then |turns| == 1 && inflightMsgid == 0 && !Kept(turns)
              else turns == [] && inflightMsgid == old(inflightMsgid) && inflightQoS == old(inflightQoS)
    {
      ghost var before := log;
      hide Valid, Ran, LogAfter, Kept, Unbroken, EndsWith;
      CloseSession();
      turns := [];
      NoTurns(before, host.link.incoming, maxPacketSize);
      OwnEnds(Cleaned, maxPacketSize);
      if cleansession {
        turns := [Own([Cleaned])];
        OwnTurn(before, host.link.incoming, [Cleaned], maxPacketSize);
      } else {
        forall packetType ensures !EndsWith(turns, packetType, maxPacketSize) {
          EndOfNone(packetType, maxPacketSize);
        }
      }
    }

    /**
     The packet in the send buffer goes out, and for QoS 1 and 2 an acknowledgement is awaited. The two
     decide the result.
     */
    method PublishPacket(len: nat, qos: nat) returns (rc: int, ghost turns: seq<Turn>)
      requires Valid() && 0 < len <= maxPacketSize && !IsPubcomp(sendbuf[..len])
      modifies readbuf, sendbuf, incomingQoS2messages, messageHandlers,
               host.link, host`writes, host`wire, host`expiries, host`troubles, this`pingOutstanding, this`isconnected,
               this`inflightMsgid, this`inflightQoS, this`pubrel, this`log, this`calls
      ensures Valid() && (pubrel ==> old(pubrel)) && rc in {SUCCESS, FAILURE}
      ensures host.troubles >= old(host.troubles) && host.link.shorts >= old(host.link.shorts)
      ensures Went(old(log), old(host.link.incoming), turns)
      ensures old(host.link.script) == [] ==> host.link.script == [] && Unbroken(turns)
      ensures turns != [] && Sends(turns[0], old(sendbuf[..len]))
      ensures rc == SUCCESS <==> WentOut(turns[0]) && (qos in {1, 2} ==> EndsWith(turns, AckType(qos), maxPacketSize))
      ensures FlightAfter(old(inflightMsgid), turns, qos in {1, 2} && rc == SUCCESS)
      ensures (qos in {1, 2} ==> Awaited(old(host.link.incoming), AckType(qos)))
              && host.link.shorts == old(host.link.shorts) && host.troubles == old(host.troubles) ==>
                && rc == SUCCESS && Kept(turns)
                && (qos in {1, 2} ==> FrontTaken(old(host.link.incoming), host.link.incoming, turns, maxPacketSize))
      ensures (qos in {1, 2} ==> Awaited(old(host.link.incoming), AckType(qos))) && keepAliveInterval == 0
              && old(host.Calm(2)) ==>
                host.link.shorts == old(host.link.shorts) && host.troubles == old(host.troubles)
      ensures qos in {1, 2} && PubrecThen(old(host.link.incoming), AckType(qos)) && keepAliveInterval == 0
              && old(host.Calm(4)) ==>
                && rc == SUCCESS && |turns| == 3
                && HandshakeTaken(old(host.link.incoming), host.link.incoming, turns[1..], maxPacketSize)
      ensures (rc == FAILURE ==> !isconnected) && (isconnected ==> old(isconnected))
    {
      hide Explains, FiltersDistinct, Publish.Valid, Publish.Bytes, Type, IsPubcomp, Accounted, FlightKept, Awaited,
           FrontPacket, FrontBody, Behind, LastPacket, AckOf, Sends, WentOut, Ran, LogAfter, Kept, Unbroken, EndsWith,
           LastBody, Own, PubrecThen, BeforeHandshake, HandshakeTaken, Shape, OneLook, RunOut, Smooth, Smoothly,
           CalmClock;
      ghost var before, stream := log, host.link.incoming;
      ghost var clock, calm2, calm4 := host.Clock(), host.Calm(2), host.Calm(4);
      CalmNow();
      rc, turns := Originate(len);
      if rc == SUCCESS && (qos == 1 || qos == 2) {
        ghost var more;
        CalmThen(clock, calm2);
        HandshakeAhead(AckType(qos), clock, calm4);
        rc, more := AwaitAck(AckType(qos));
        RunsJoin(before, stream, stream, host.link.incoming, turns, more, maxPacketSize);
        EndOfMore(turns, more, AckType(qos), maxPacketSize);
        HandshakeBehind(stream, host.link.incoming, turns, more, maxPacketSize);
        turns := turns + more;
      }
      if rc != SUCCESS {
        ghost var middle := host.link.incoming;
        ghost var more := GiveUp();
        RunsJoin(before, stream, middle, host.link.incoming, turns, more, maxPacketSize);
        EndOfMore(turns, more, AckType(qos), maxPacketSize);
        turns := turns + more;
      }
    }

    method GetNextId() returns (id: nat)
      requires packetid <= MAX_PACKET_ID
      modifies this`packetid
      ensures id == packetid == NextId(old(packetid)) && 1 <= id <= MAX_PACKET_ID
    {
      packetid := if packetid == MAX_PACKET_ID then 1 else packetid + 1;
      id := packetid;
    }

    /** The packet in the send buffer becomes the publish in flight. */
    method KeepFlight(len: nat, id: nat, qos: nat, ghost p: Publish)
      requires Valid() && 0 < len <= maxPacketSize && sendbuf[..len] == p.Bytes()
      requires p.Valid() && p.id == id && p.qos == qos
      modifies pubbuf, this`inflightMsgid, this`inflightLen, this`inflightQoS, this`pubrel, this`flight
      ensures Valid() && inflightMsgid == id && inflightQoS == qos && flight == p && !pubrel
    {
      hide Explains, FiltersDistinct, Publish.Valid, Publish.Bytes, Accounted;
      var _ := WriteBytes(pubbuf, 0, sendbuf[..len]);
      inflightMsgid := id;
      inflightLen := len;
      inflightQoS := qos;
      pubrel := false;
      flight := p;
      assert pubbuf[..len] == [] + sendbuf[..len];
    }

    /**
     Publishes a message. Above QoS 0 success means that an acknowledgement of the right type came, for
     whatever id; with the session kept, the publish stays in flight, with its bytes, unless that was its own.
     */
    method PublishMessage(topicName: seq<byte>, payload: seq<byte>, startId: nat, qos: nat, retained: nat)
      returns (rc: int, id: nat, ghost turns: seq<Turn>)
      requires Valid() && qos < 3 && retained < 2 && startId < 65536
      modifies readbuf, sendbuf, incomingQoS2messages, messageHandlers,
               host.link, host`writes, host`wire, host`expiries, host`troubles, this`pingOutstanding, this`isconnected,
               this`inflightMsgid, this`inflightQoS, this`pubrel, this`log, this`calls,
               pubbuf, this`inflightLen, this`packetid, this`flight
      ensures Valid() && (pubrel ==> old(pubrel)) && rc in {SUCCESS, FAILURE}
      ensures host.troubles >= old(host.troubles) && host.link.shorts >= old(host.link.shorts)
      ensures Went(old(log), old(host.link.incoming), turns)
      ensures old(host.link.script) == [] ==> host.link.script == [] && Unbroken(turns)
      ensures id == (if old(isconnected) && qos > 0 then NextId(old(packetid)) else startId)
      ensures packetid == (if old(isconnected) && qos > 0 then id else old(packetid))
      ensures var p := Publish(0, qos, retained, id, topicName, payload);
              if !old(isconnected) || PacketLen(p.RemLen()) > maxPacketSize then
                && rc == FAILURE && turns == [] && isconnected == old(isconnected) && flight == old(flight)
                && inflightMsgid == old(inflightMsgid) && inflightQoS == old(inflightQoS)
              else
                && turns != [] && Sends(turns[0], p.Bytes())
                && (rc == SUCCESS <==> WentOut(turns[0]) && (qos > 0 ==> EndsWith(turns, AckType(qos), maxPacketSize)))
                && (rc == FAILURE ==> !isconnected) && flight == (if cleansession then old(flight) else p)
                && FlightAfter(if cleansession then old(inflightMsgid) else id, turns, qos > 0 && rc == SUCCESS)
      ensures old(isconnected) && PacketLen(Publish(0, qos, retained, id, topicName, payload).RemLen()) <= maxPacketSize
              && (qos > 0 ==> Awaited(old(host.link.incoming), AckType(qos)))
              && host.link.shorts == old(host.link.shorts) && host.troubles == old(host.troubles) ==>
                && rc == SUCCESS && Kept(turns)
                && (qos > 0 ==> FrontTaken(old(host.link.incoming), host.link.incoming, turns, maxPacketSize))
      ensures (qos > 0 ==> Awaited(old(host.link.incoming), AckType(qos))) && keepAliveInterval == 0
              && old(host.Calm(2)) ==>
                host.link.shorts == old(host.link.shorts) && host.troubles == old(host.troubles)
      ensures old(isconnected) && PacketLen(Publish(0, qos, retained, id, topicName, payload).RemLen()) <= maxPacketSize
              && qos > 0 && PubrecThen(old(host.link.incoming), AckType(qos)) && keepAliveInterval == 0
              && old(host.Calm(4)) ==>
                && rc == SUCCESS && |turns| == 3
                && HandshakeTaken(old(host.link.incoming), host.link.incoming, turns[1..], maxPacketSize)
      ensures isconnected ==> old(isconnected)
    {
      hide Explains, FiltersDistinct, Publish.Valid, Publish.Bytes, Publish.RemLen, Type, PacketLen, IsPubcomp,
           FlightKept, Accounted, Attempt, MqttString.Text, MqttString.WellSized, Awaited, FrontTaken, FlightAfter,
           Ran, LogAfter, Kept, Unbroken, EndsWith, Sends, PubrecThen, HandshakeTaken;
      rc, id, turns := FAILURE, startId, [];
      NoTurns(log, host.link.incoming, maxPacketSize);
      if !isconnected {
        return;
      }
      if qos == 1 || qos == 2 {
        id := GetNextId();
      }
      ghost var p := Publish(0, qos, retained, id, topicName, payload);
      FittingPublish(p, maxPacketSize);
      var len := SerializePublish(sendbuf, maxPacketSize, 0, qos, retained, id, MqttString(Some(topicName), None),
                                  payload);
      if len <= 0 {
        return;
      }
      if !cleansession {
        KeepFlight(len, id, qos, p);
      }
      PublishIsNoPubcomp(p);
      rc, turns := PublishPacket(len, qos);
    }

    // ------------------------------------------------------------ connecting

    /** Waits for the CONNACK and reports its return code; without a code in it, success. */
    method AwaitConnack() returns (rc: int, ghost turns: seq<Turn>)
      requires Valid() && !isconnected
      modifies readbuf, sendbuf, incomingQoS2messages, messageHandlers,
               host.link, host`writes, host`wire, host`expiries, host`troubles, this`pingOutstanding, this`isconnected,
               this`inflightMsgid, this`inflightQoS, this`pubrel, this`log, this`calls
      ensures Valid() && (pubrel ==> old(pubrel)) && !isconnected
      ensures host.troubles >= old(host.troubles) && host.link.shorts >= old(host.link.shorts)
      ensures Went(old(log), old(host.link.incoming), turns)
      ensures old(host.link.script) == [] ==> host.link.script == [] && Unbroken(turns)
      ensures inflightMsgid == old(inflightMsgid) && inflightQoS == old(inflightQoS)
      ensures rc == ResultOf(GreetingOf(turns, maxPacketSize))
      ensures Awaited(old(host.link.incoming), CONNACK) && host.link.shorts == old(host.link.shorts)
              && host.troubles == old(host.troubles) ==>
                && EndsWith(turns, CONNACK, maxPacketSize) && Kept(turns)
                && FrontTaken(old(host.link.incoming), host.link.incoming, turns, maxPacketSize)
      ensures Awaited(old(host.link.incoming), CONNACK) && old(Smoothly()) ==>
                Unhurried(host.link, old(host.link.shorts)) && host.Clock() == OneLook(old(host.Clock()))
    {
      hide Explains, FiltersDistinct, Publish.Valid, Publish.Bytes, Type, LengthReadable, DecodeLength, FlightKept,
           Accounted, Awaited, Smoothly, FrontTaken, CodeOf, ConnackCode, ConnackRc, Ran, LogAfter, Kept, Unbroken,
           LastPacket, LastBody, EndsWith, AckInBounds;
      var got;
      got, turns := WaitFor(CONNACK);
      rc := FAILURE;
      if got == CONNACK {
        LastAck(turns, CONNACK, readbuf[..], maxPacketSize);
        var code, returnCode := DeserializeConnack(readbuf);
        if code == 1 {
          rc := if returnCode.Some? then returnCode.value else 0;
        }
      }
    }

    /** The kept bytes go to the send buffer. */
    method LoadFlight()
      requires Valid() && inflightMsgid > 0
      modifies sendbuf
      ensures sendbuf[..inflightLen] == flight.Bytes()
    {
      hide Explains, FiltersDistinct, Publish.Valid, Publish.Bytes, Accounted;
      var _ := WriteBytes(sendbuf, 0, pubbuf[..]);
      assert sendbuf[..maxPacketSize] == [] + pubbuf[..];
      assert sendbuf[..inflightLen] == sendbuf[..maxPacketSize][..inflightLen] == pubbuf[..inflightLen];
    }

    /** What was in flight when the connection is set up again is sent again, byte for byte. */
    method ResendFlight() returns (rc: int, ghost turns: seq<Turn>)
      requires Valid() && inflightMsgid > 0
      modifies readbuf, sendbuf, incomingQoS2messages, messageHandlers,
               host.link, host`writes, host`wire, host`expiries, host`troubles, this`pingOutstanding, this`isconnected,
               this`inflightMsgid, this`inflightQoS, this`pubrel, this`log, this`calls
      ensures Valid() && (pubrel ==> old(pubrel)) && rc in {SUCCESS, FAILURE}
      ensures host.troubles >= old(host.troubles) && host.link.shorts >= old(host.link.shorts)
      ensures Went(old(log), old(host.link.incoming), turns)
      ensures old(host.link.script) == [] ==> host.link.script == [] && Unbroken(turns)
      ensures turns != [] && (!old(pubrel) ==> Sends(turns[0], flight.Bytes()))
      ensures rc == SUCCESS <==>
              WentOut(turns[0]) && (old(inflightQoS) > 0 ==> EndsWith(turns, AckType(old(inflightQoS)), maxPacketSize))
      ensures FlightAfter(old(inflightMsgid), turns, old(inflightQoS) > 0 && rc == SUCCESS)
      ensures (old(inflightQoS) > 0 ==> Awaited(old(host.link.incoming), AckType(old(inflightQoS))))
              && host.link.shorts == old(host.link.shorts) && host.troubles == old(host.troubles) ==>
                && rc == SUCCESS && Kept(turns)
                && (old(inflightQoS) > 0 ==>
                      FrontTaken(old(host.link.incoming), host.link.incoming, turns, maxPacketSize))
      ensures (old(inflightQoS) > 0 ==> Awaited(old(host.link.incoming), AckType(old(inflightQoS))))
              && keepAliveInterval == 0 && old(host.Calm(2)) ==>
                host.link.shorts == old(host.link.shorts) && host.troubles == old(host.troubles)
      ensures (rc == FAILURE ==> !isconnected) && (isconnected ==> old(isconnected))
    {
      FlightFacts(flight);
      assert 0 < inflightLen <= maxPacketSize && inflightQoS < 3;
      hide Explains, FiltersDistinct, Publish.Valid, Publish.Bytes, Accounted, FlightKept, Attempt, IsPubcomp,
           AckBytes, Awaited, FrontTaken, FlightAfter, Ran, LogAfter, Kept, Unbroken, EndsWith, Sends;
      if inflightQoS == 2 && pubrel {
        var len := SerializeAck(sendbuf, maxPacketSize, PUBREL, 0, inflightMsgid);
        AckEntry(PUBREL, inflightMsgid);
        rc, turns := PublishPacket(len, inflightQoS);
      } else {
        LoadFlight();
        rc, turns := PublishPacket(inflightLen, inflightQoS);
      }
    }

    /** The CONNECT packet and the wait for its CONNACK; `done` means that the packet did not go out. */
    method Handshake(options: Connecting.ConnectData) returns (rc: int, done: bool, ghost turns: seq<Turn>)
      requires Valid() && !isconnected && Connecting.Described(options).Valid() && Connecting.WellSized(options)
      modifies readbuf, sendbuf, incomingQoS2messages, messageHandlers,
               host.link, host`writes, host`wire, host`expiries, host`troubles, this`pingOutstanding, this`isconnected,
               this`inflightMsgid, this`inflightQoS, this`pubrel, this`log, this`calls
      ensures Valid() && (pubrel ==> old(pubrel)) && !isconnected
      ensures host.troubles >= old(host.troubles) && host.link.shorts >= old(host.link.shorts)
      ensures Went(old(log), old(host.link.incoming), turns)
      ensures old(host.link.script) == [] ==> host.link.script == [] && Unbroken(turns)
      ensures inflightMsgid == old(inflightMsgid) && inflightQoS == old(inflightQoS)
      ensures if !FitsIn(options, maxPacketSize) then done && turns == []
              else
                turns != [] && Sends(turns[0], Connecting.Described(options).Bytes()) && (done <==> !WentOut(turns[0]))
      ensures rc == ResultOf(GreetingOf(turns, maxPacketSize)) && (done ==> rc == FAILURE)
      ensures FitsIn(options, maxPacketSize) && Awaited(old(host.link.incoming), CONNACK)
              && host.link.shorts == old(host.link.shorts) && host.troubles == old(host.troubles) ==>
                && !done && EndsWith(turns, CONNACK, maxPacketSize) && Kept(turns)
                && FrontTaken(old(host.link.incoming), host.link.incoming, turns, maxPacketSize)
      ensures FitsIn(options, maxPacketSize) && Awaited(old(host.link.incoming), CONNACK) && keepAliveInterval == 0
              && old(host.Calm(2)) ==>
                Unhurried(host.link, old(host.link.shorts)) && host.Clock() == OneLook(OneLook(old(host.Clock())))
    {
      hide Explains, FiltersDistinct, Publish.Valid, Publish.Bytes, FlightKept, Accounted, IsPubcomp, Type, PacketLen,
           Connecting.Connect.Valid, Connecting.Connect.Bytes, Connecting.Connect.RemLen, Connecting.Described,
           Connecting.WellSized, Sends, WentOut, Awaited, FrontPacket, FrontBody, Behind, CodeOf, Ran, LogAfter, Kept,
           Unbroken, EndsWith, LastBody, LastPacket, Own;
      rc, done, turns := FAILURE, true, [];
      NoTurns(log, host.link.incoming, maxPacketSize);
      EndOfNone(CONNACK, maxPacketSize);
      var len := Connecting.SerializeConnect(sendbuf, maxPacketSize, options);
      if len <= 0 {
        return;
      }
      ghost var before, stream := log, host.link.incoming;
      ConnectIsNoPubcomp(Connecting.Described(options));
      rc, turns := Originate(len);
      if rc != SUCCESS {
        return;
      }
      ghost var more;
      rc, more := AwaitConnack();
      RunsJoin(before, stream, stream, host.link.incoming, turns, more, maxPacketSize);
      EndOfMore(turns, more, CONNACK, maxPacketSize);
      turns := turns + more;
      done := false;
    }

    /**
     What decided the result of a connection attempt. With nothing in flight it is the CONNACK, else the
     resending alone: the publish in flight went out again, byte for byte, and the last packet taken is
     an acknowledgement of its type, whatever its id.
     */
    ghost predicate Decided(rc: int, resent: Resending, turns: seq<Turn>, id: nat, qos: nat, released: bool)
      reads this`flight
    {
      && (resent.Tried? <==> turns != [] && WentOut(turns[0]) && id > 0)
      && match resent
         case Untried => rc == ResultOf(GreetingOf(turns, maxPacketSize)) && (id > 0 ==> rc == FAILURE)
         case Tried(place) =>
           && 0 < place < |turns| && (!released ==> Sends(turns[place], flight.Bytes()))
           && (rc == SUCCESS <==> WentOut(turns[place]) && (qos > 0 ==> EndsWith(turns, AckType(qos), maxPacketSize)))
    }

    ghost function InFlightQos(): nat
      reads this`inflightMsgid, this`inflightQoS
    {
      if inflightMsgid > 0 then inflightQoS else 0
    }

    /** CONNECT, CONNACK, and the publish in flight again. */
    method Establish(options: Connecting.ConnectData) returns (rc: int, ghost resent: Resending, ghost turns: seq<Turn>)
      requires Valid() && !isconnected && Connecting.Described(options).Valid() && Connecting.WellSized(options)
      modifies readbuf, sendbuf, incomingQoS2messages, messageHandlers,
               host.link, host`writes, host`wire, host`expiries, host`troubles, this`pingOutstanding, this`isconnected,
               this`inflightMsgid, this`inflightQoS, this`pubrel, this`log, this`calls
      ensures Valid() && (pubrel ==> old(pubrel)) && !isconnected
      ensures host.troubles >= old(host.troubles) && host.link.shorts >= old(host.link.shorts)
      ensures Went(old(log), old(host.link.incoming), turns)
      ensures old(host.link.script) == [] ==> host.link.script == [] && Unbroken(turns)
      ensures if !FitsIn(options, maxPacketSize) then turns == []
              else turns != [] && Sends(turns[0], Connecting.Described(options).Bytes())
      ensures Decided(rc, resent, turns, old(inflightMsgid), old(inflightQoS), old(pubrel))
      ensures FlightAfter(old(inflightMsgid), turns, old(InFlightQos()) > 0 && rc == SUCCESS)
      ensures Expected(options, old(host.link.incoming), old(InFlightQos()))
              && host.link.shorts == old(host.link.shorts) && host.troubles == old(host.troubles) ==>
                Answered(old(host.link.incoming), turns, resent, rc, old(inflightMsgid), old(InFlightQos()))
      ensures Expected(options, old(host.link.incoming), old(InFlightQos())) && keepAliveInterval == 0
              && old(host.Calm(4)) ==>
                host.link.shorts == old(host.link.shorts) && host.troubles == old(host.troubles)
    {
      hide Valid, Shape, Type, Attempt, Connecting.Connect.Valid, Connecting.Connect.Bytes, Connecting.Described,
           FitsIn, Connecting.WellSized, Awaited, CodeOf, AckOf, FrontBody, Behind, Publish.Bytes, Ran, LogAfter,
           Kept, Unbroken, EndsWith, Sends, LastBody, LastPacket, FrontPacket, FlightAfter;
      resent := Untried;
      ghost var before, stream := log, host.link.incoming;
      var done;
      rc, done, turns := Handshake(options);
      FlightUntouched(turns);
      if done {
        return;
      }
      if inflightMsgid > 0 {
        ghost var first, middle, more := turns, host.link.incoming, [];
        rc, more := ResendFlight();
        resent := Tried(|first|);
        RunsJoin(before, stream, middle, host.link.incoming, first, more, maxPacketSize);
        EndOfMore(first, more, AckType(old(inflightQoS)), maxPacketSize);
        turns := first + more;
        FlightAfterJoins(old(inflightMsgid), first, more, old(inflightQoS) > 0 && rc == SUCCESS);
        assert turns[..|first|] == first;
      }
    }

    /** The expected packets were there, and these are what counted. */
    ghost predicate Answered(all: seq<byte>, turns: seq<Turn>, resent: Resending, rc: int, id: nat, qos: nat) {
      && Kept(turns)
      && match resent
         case Untried => id == 0 && GreetingOf(turns, maxPacketSize) == Connack(CodeOf(FrontBody(all, maxPacketSize)))
         case Tried(place) =>
           && place < |turns|
           && GreetingOf(turns[..place], maxPacketSize) == Connack(CodeOf(FrontBody(all, maxPacketSize)))
           && rc == SUCCESS
           && (qos > 0 ==> LastBody(turns) == FrontBody(Behind(all, maxPacketSize), maxPacketSize))
    }

    lemma FlightUntouched(turns: seq<Turn>)
      ensures FlightAfter(inflightMsgid, turns, false)
    {
    }

    lemma FlightAfterJoins(id: nat, first: seq<Turn>, more: seq<Turn>, acknowledged: bool)
      requires FlightAfter(id, more, acknowledged) && (Kept(first + more) ==> Kept(more))
      requires acknowledged ==> LastBody(first + more) == LastBody(more)
      ensures FlightAfter(id, first + more, acknowledged)
    {
    }

    /**
     Connects: the CONNECT packet, the wait for its CONNACK, and then, whatever that said, the publish
     in flight again. A client that is connected refuses.
     */
    method Connect(options: Connecting.ConnectData) returns (rc: int, ghost resent: Resending, ghost turns: seq<Turn>)
      requires Valid() && Connecting.Described(options).Valid() && Connecting.WellSized(options)
      modifies readbuf, sendbuf, incomingQoS2messages, messageHandlers,
               host.link, host`writes, host`wire, host`expiries, host`troubles, this`pingOutstanding, this`isconnected,
               this`inflightMsgid, this`inflightQoS, this`pubrel, this`log, this`calls,
               this`keepAliveInterval, this`cleansession
      ensures Valid() && (pubrel ==> old(pubrel))
      ensures host.troubles >= old(host.troubles) && host.link.shorts >= old(host.link.shorts)
      ensures Went(old(log), old(host.link.incoming), turns)
      ensures old(host.link.script) == [] ==> host.link.script == [] && Unbroken(turns)
      ensures old(isconnected) ==> rc == FAILURE && turns == [] && isconnected && inflightMsgid == old(inflightMsgid)
                                   && cleansession == old(cleansession)
      ensures !old(isconnected) ==> (isconnected <==> rc == SUCCESS) && cleansession == (options.cleansession != 0)
                                    && keepAliveInterval == options.keepAliveInterval
      ensures !old(isconnected) ==>
                if !FitsIn(options, maxPacketSize) then turns == []
                else turns != [] && Sends(turns[0], Connecting.Described(options).Bytes())
      ensures !old(isconnected) ==> Decided(rc, resent, turns, old(inflightMsgid), old(inflightQoS), old(pubrel))
      ensures !old(isconnected) ==> FlightAfter(old(inflightMsgid), turns, old(InFlightQos()) > 0 && rc == SUCCESS)
      ensures !old(isconnected) && Expected(options, old(host.link.incoming), old(InFlightQos()))
              && host.link.shorts == old(host.link.shorts) && host.troubles == old(host.troubles) ==>
                Answered(old(host.link.incoming), turns, resent, rc, old(inflightMsgid), old(InFlightQos()))
      ensures !old(isconnected) && Expected(options, old(host.link.incoming), old(InFlightQos()))
              && options.keepAliveInterval == 0 && old(host.Calm(4)) ==>
                host.link.shorts == old(host.link.shorts) && host.troubles == old(host.troubles)
    {
      hide Valid, Shape, Decided, Expected, Answered, FlightAfter, Sends, Connecting.Connect.Valid,
           Connecting.Connect.Bytes, Connecting.Described, FitsIn, Connecting.WellSized, CodeOf, FrontBody, Ran,
           LogAfter, Kept, Unbroken;
      rc, resent, turns := FAILURE, Untried, [];
      NoTurns(log, host.link.incoming, maxPacketSize);
      if isconnected {
        return;
      }
      keepAliveInterval := options.keepAliveInterval;
      cleansession := options.cleansession != 0;
      rc, resent, turns := Establish(options);
      if rc == SUCCESS {
        isconnected := true;
        pingOutstanding := false;
      }
    }

    /** The CONNECT fits, the stream begins with a CONNACK, and above QoS 0 the acknowledgement follows. */
    ghost predicate Expected(options: Connecting.ConnectData, all: seq<byte>, qos: nat)
      requires Connecting.Described(options).Valid()
    {
      && FitsIn(options, maxPacketSize) && Awaited(all, CONNACK)
      && (qos > 0 ==> Awaited(Behind(all, maxPacketSize), AckType(qos)))
    }

    method Disconnect() returns (rc: int, ghost turns: seq<Turn>)
      requires Valid()
      modifies sendbuf, incomingQoS2messages, messageHandlers, host`writes, host`wire, host`expiries, host`troubles,
               this`pingOutstanding, this`isconnected, this`inflightMsgid, this`inflightQoS, this`pubrel, this`log
      ensures Valid() && (pubrel ==> old(pubrel)) && !isconnected
      ensures Went(old(log), old(host.link.incoming), turns)
      ensures |turns| == 1 && |turns[0].rest| > 0 && Attempt(turns[0].rest[0], ZeroBytes(DISCONNECT))
      ensures turns[0] == Own([turns[0].rest[0]] + if cleansession then [Cleaned] else [])
      ensures rc == if WentOut(turns[0]) then SUCCESS else FAILURE
      ensures inflightMsgid == if cleansession then 0 else old(inflightMsgid)
    {
      hide Explains, FiltersDistinct, Publish.Valid, Publish.Bytes, FlightKept, IsPubcomp, ZeroBytes, Ran, LogAfter,
           Kept, Unbroken, Own;
      ghost var before, stream := log, host.link.incoming;
      var len := SerializeZero(sendbuf, maxPacketSize, DISCONNECT);
      ghost var entry;
      ZeroIsNoPubcomp(DISCONNECT);
      rc, entry := Transmit(len);
      MildSend(entry, sendbuf[..len]);
      CloseSession();
      ghost var entries := [entry] + if cleansession then [Cleaned] else [];
      turns := [Own(entries)];
      assert log == before + entries;
      OwnTurn(before, stream, entries, maxPacketSize);
    }
  }

  /** What a cycle did: the packet type it saw, its turn, and what the timers showed. */
  datatype Report = Report(packetType: int, turn: Turn, timers: seq<bool>)

  /** What the methods of a cycle do makes up a turn. */
  lemma TurnIsAllowed(buf: seq<byte>, packetType: int, turn: Turn, max: nat)
    requires Brings(buf, packetType, turn.job) && Replies(turn.job, turn.reply) && RestAllowed(turn.rest)
    requires Reports(turn.reading, max, packetType)
    requires turn.reading.Whole(max) ==> turn.reading.Packet() <= buf
    ensures Allowed(turn, max)
  {
    hide Handed, Replies, ZeroBytes, InBounds, AckInBounds, PacketReader.Reading.Packet, PacketReader.Reading.Fits;
    ZeroIsNoPubcomp(PINGREQ);
  }

  /** A turn that sends one packet of the client's own. */
  predicate Sends(turn: Turn, packet: seq<byte>) {
    turn == Own(turn.rest) && |turn.rest| == 1 && Attempt(turn.rest[0], packet)
  }

  predicate WentOut(turn: Turn) {
    turn.rest != [] && turn.rest[0].Sent?
  }

  /** The last turn took a packet of this type, and nothing failed in it. */
  predicate EndsWith(turns: seq<Turn>, packetType: int, max: nat) {
    turns != [] &&
    var last := turns[|turns| - 1];
    !last.failed && last.reading.Whole(max) && Type(last.reading.header) == packetType
  }

  /** The packet that the last turn took. */
  function LastPacket(turns: seq<Turn>): seq<byte> {
    if turns != [] && turns[|turns| - 1].reading.Header? then turns[|turns| - 1].reading.Packet() else []
  }

  /** What stands behind its length field. */
  function LastBody(turns: seq<Turn>): seq<byte> {
    if turns != [] && turns[|turns| - 1].reading.Header? then turns[|turns| - 1].reading.data else []
  }

  /** What the wait for a CONNACK comes to. */
  function GreetingOf(turns: seq<Turn>, max: nat): Greeting {
    if EndsWith(turns, CONNACK, max) then Connack(CodeOf(LastBody(turns))) else NoConnack
  }

  lemma NoTurns(log: seq<Entry>, all: seq<byte>, max: nat)
    ensures LogAfter(log, []) == log && Ran(all, all, [], max) && Kept([]) && Unbroken([])
  {
  }

  lemma EndOfNone(packetType: int, max: nat)
    ensures !EndsWith([], packetType, max)
  {
  }

  lemma EndOfMore(turns: seq<Turn>, more: seq<Turn>, packetType: int, max: nat)
    ensures (turns == [] ==> turns + more == more) && (more == [] ==> turns + more == turns)
    ensures more != [] ==>
              && EndsWith(turns + more, packetType, max) == EndsWith(more, packetType, max)
              && LastPacket(turns + more) == LastPacket(more) && LastBody(turns + more) == LastBody(more)
    ensures !EndsWith([], packetType, max)
  {
    hide Type, PacketReader.Reading.Whole, PacketReader.Reading.Packet;
    if more == [] {
      assert turns + more == turns;
    } else {
      assert turns == [] ==> turns + more == more;
      assert (turns + more)[|turns + more| - 1] == more[|more| - 1];
    }
  }

  lemma OwnEnds(entry: Entry, max: nat)
    ensures forall packetType :: !EndsWith([Own([entry])], packetType, max)
  {
  }

  lemma MildSend(entry: Entry, packet: seq<byte>)
    requires Attempt(entry, packet) && !IsPubcomp(packet)
    ensures Mild([entry]) && Mild([entry] + [Cleaned]) && Cleaned !in [entry]
  {
  }

  /** A packet type that only makes a wait end. */
  predicate Plain(packetType: int) {
    packetType in {CONNACK, PUBACK, PUBCOMP, SUBACK, UNSUBACK}
  }

  predicate Known(packetType: int) {
    packetType in {0, CONNACK, PUBLISH, PUBACK, PUBREC, PUBREL, PUBCOMP, SUBACK, UNSUBACK, PINGRESP}
  }

  /** The packet itself is a reason to fail. */
  predicate NotDone(packetType: int, job: Job, reply: seq<Entry>) {
    !Known(packetType) || Fails(job, reply) || (packetType in {PUBREC, PUBREL} && job == Nothing)
  }

  predicate PingSent(rest: seq<Entry>) {
    rest != [] && !rest[0].Cleaned?
  }

  /** A ping goes out exactly when one is due; the check fails when it cannot be sent, or was not answered in time. */
  predicate KeptAlive(interval: nat, outstanding: bool, timers: seq<bool>, rest: seq<Entry>, failed: bool) {
    && (PingSent(rest) <==> interval > 0 && !outstanding && (RunOut(timers, 0) || RunOut(timers, 1)))
    && (failed <==> (interval > 0 && outstanding && RunOut(timers, 0)) || PingFailed(rest))
  }

  predicate PingFailed(rest: seq<Entry>) {
    rest != [] && rest[0].Broken?
  }

  /** At most one ping, then at most one cleaning. */
  predicate RestAllowed(rest: seq<Entry>) {
    && |rest| <= 2 && (|rest| == 2 ==> rest[1].Cleaned?)
    && (rest != [] ==> rest[0].Cleaned? || Attempt(rest[0], ZeroBytes(PINGREQ)))
  }

  /** The packet could not be handled: QoS 3, or the answer did not go out. */
  predicate Fails(job: Job, reply: seq<Entry>) {
    (job.Message? && job.m.qos == 3) || (reply != [] && reply[0].Broken?)
  }

  function CallsOf(job: Job, t: Qos2.Table, slots: seq<Slot>, fallback: Option<nat>): seq<Call> {
    if job.Message? && MayDeliver(t, job.m) then CallsFor(Recipients(slots, fallback, Text(job.m.topic)), job.m) else []
  }

  /** The return code of a CONNACK, if the packet is long enough to hold one. */
  function ConnackCode(s: seq<byte>): Option<byte>
    requires AckInBounds(s)
  {
    var l := DecodeLength(s[1..], 0);
    if l.value >= 2 then Some(s[2 + l.count]) else None
  }

  /** What the parser returns; on a packet too short it is the number of length bytes. */
  function ConnackRc(s: seq<byte>): nat
    requires AckInBounds(s)
  {
    if Type(s[0]) != CONNACK then 0 else AckCode(s)
  }

  /** Parser success comes with a return code, but for a packet too short with a one-byte length. */
  lemma SuccessMeansCode(s: seq<byte>)
    requires AckInBounds(s)
    ensures ConnackRc(s) == 1 <==>
            Type(s[0]) == CONNACK && (ConnackCode(s).Some? || DecodeLength(s[1..], 0) in {Length(0, 1), Length(1, 1)})
    ensures ConnackRc([32, 0]) == 1 && ConnackCode([32, 0]) == None
  {
    var short: seq<byte> := [32, 0];
    assert short[1..] == [0];
  }

  method DeserializeConnack(buf: array<byte>) returns (rc: int, returnCode: Option<byte>)
    requires AckInBounds(buf[..])
    ensures rc == ConnackRc(buf[..])
    ensures returnCode == if Type(buf[0]) == CONNACK then ConnackCode(buf[..]) else None
  {
    hide LengthReadable, DecodeLength, Type;
    assert buf[1..] == buf[..][1..] && buf[..][0] == buf[0];
    returnCode := None;
    if Type(buf[0]) != CONNACK {
      return 0, None;
    }
    var mylen, n := DecodeBuf(buf, 1);
    rc := n;
    if mylen >= 2 {
      returnCode := Some(buf[2 + n]);
      rc := 1;
    }
  }

  /** What came of the wait for a CONNACK: the code may be missing. */
  datatype Greeting = NoConnack | Connack(code: Option<byte>)

  /** The result `connect` takes from it. */
  function ResultOf(greeting: Greeting): int {
    match greeting
    case NoConnack => FAILURE
    case Connack(code) => if code.Some? then code.value else SUCCESS
  }

  /** The publish in flight was sent again, and in which turn. */
  datatype Resending = Untried | Tried(place: nat)

  predicate FitsIn(options: Connecting.ConnectData, max: nat)
    requires Connecting.Described(options).Valid()
  {
    PacketLen(Connecting.Described(options).RemLen()) <= max
  }

  function AckType(qos: nat): nat {
    if qos == 1 then PUBACK else PUBCOMP
  }

  ghost function FrontBody(all: seq<byte>, max: nat): seq<byte> {
    if PacketReader.Front(all, max).Some? then PacketReader.Front(all, max).value.body else []
  }

  /** Packet id and return code by the body of the packet. */
  function AckOf(body: seq<byte>): Option<nat> {
    if |body| < 2 then None else Some(body[0] as int * 256 + body[1])
  }

  function CodeOf(body: seq<byte>): Option<byte> {
    if |body| < 2 then None else Some(body[1])
  }

  /** The parsers find in the buffer what the last packet taken says. */
  lemma LastAck(turns: seq<Turn>, packetType: int, buf: seq<byte>, max: nat)
    requires EndsWith(turns, packetType, max) && LastPacket(turns) <= buf && Framed(buf, max) && max <= 65535
    ensures AckInBounds(buf) && AckCode(buf) == 1 && ParseAck(buf).id == AckOf(LastBody(turns))
    ensures ConnackCode(buf) == CodeOf(LastBody(turns)) && Type(buf[0]) == packetType
    ensures packetType == CONNACK ==> ConnackRc(buf) == 1
  {
    var r := turns[|turns| - 1].reading;
    assert r.Packet() == PacketReader.FrameHead(r.header, |r.data|) + r.data;
    hide PacketReader.FrameHead, EncodeLength, AckCode, ParseAck, ConnackCode, AckOf, CodeOf, Framed;
    AckInBuffer(buf, r.header, r.data, max);
    FramedAck(buf, max);
  }

  lemma FramedAck(buf: seq<byte>, max: nat)
    requires Framed(buf, max)
    ensures AckInBounds(buf)
  {
  }

  lemma AckInBuffer(s: seq<byte>, header: byte, body: seq<byte>, max: nat)
    requires |body| <= MAX_REMAINING_LENGTH && Framed(s, max)
    requires PacketReader.FrameHead(header, |body|) + body <= s
             && |PacketReader.FrameHead(header, |body|)| + |body| <= max
    ensures AckCode(s) == 1 && ParseAck(s).id == AckOf(body) && ConnackCode(s) == CodeOf(body)
  {
    FrameInBuffer(s, header, body, max);
    EncodedSize(|body|);
    var n := 1 + |EncodeLength(|body|)|;
    hide EncodeLength, LengthReadable, DecodeLength, PacketReader.FrameHead;
    if |body| >= 2 {
      var p := PacketReader.FrameHead(header, |body|) + body;
      assert s[n] == p[n] == body[0] && s[n + 1] == p[n + 1] == body[1];
    }
  }

  lemma ShortInFront(header: byte, body: seq<byte>, rest: seq<byte>, max: nat)
    requires |body| < 128 && |body| + 2 <= max
    ensures PacketReader.Front([header, |body|] + body + rest, max) ==
              Some(PacketReader.Frame([header, |body|] + body, body))
  {
    var packet := [header, |body|] + body;
    assert EncodeLength(|body|) == [|body|];
    assert packet[0] == header && packet == [header] + [|body|] + body;
    hide PacketReader.Front, EncodeLength;
    PacketReader.FrontIs(packet + rest, packet, body, max);
  }

  lemma ConnackInFront(packet: seq<byte>, body: seq<byte>, rest: seq<byte>, max: nat)
    requires packet == [32, |body|] + body && |body| <= 2 && max >= 4
    ensures Comes(packet + rest, max, CONNACK) && FrontBody(packet + rest, max) == body
            && Behind(packet + rest, max) == rest
  {
    hide PacketReader.Front;
    ShortInFront(32, body, rest, max);
  }

  /** An acknowledgement for a publish of QoS 1 or 2 at the front of the stream. */
  lemma AckInFront(qos: nat, id: nat, rest: seq<byte>, max: nat)
    requires qos in {1, 2} && id < 65536 && max >= 4
    ensures var all := [if qos == 1 then 64 else 112, 2, id / 256, id % 256] + rest;
            Comes(all, max, AckType(qos)) && AckOf(FrontBody(all, max)) == Some(id)
  {
    var header := if qos == 1 then 64 else 112;
    var body := [id / 256, id % 256];
    assert [header, |body|] + body == [header, 2, id / 256, id % 256];
    hide PacketReader.Front;
    ShortInFront(header, body, rest, max);
  }

  /** A CONNACK without a return code makes `connect` succeed when nothing is in flight. */
  method CodelessConnackConnects(client: Client, options: Connecting.ConnectData, rest: seq<byte>)
    returns (rc: int, ghost turns: seq<Turn>)
    requires client.Valid() && !client.isconnected && client.inflightMsgid == 0
    requires Connecting.Described(options).Valid() && Connecting.WellSized(options)
    requires FitsIn(options, client.maxPacketSize) && options.keepAliveInterval == 0 && client.host.Calm(4)
    requires client.host.link.incoming == [32, 0] + rest
    modifies client, client.host, client.host.link, client.readbuf, client.sendbuf, client.incomingQoS2messages,
             client.messageHandlers
    ensures rc == SUCCESS && client.isconnected && GreetingOf(turns, client.maxPacketSize) == Connack(None)
  {
    ConnackInFront([32, 0], [], rest, client.maxPacketSize);
    hide Comes, FrontBody, Behind, Connecting.Connect.Valid, GreetingOf;
    ghost var resent;
    rc, resent, turns := client.Connect(options);
  }

  /** It does so from scratch, with a network that works and sends just the two bytes 32 and 0. */
  method CodelessFromScratch() returns (rc: int, ghost turns: seq<Turn>)
    ensures rc == SUCCESS && GreetingOf(turns, 200) == Connack(None)
  {
    var none, name := MqttString(None, None), MqttString(Some([118]), None);
    var options := Connecting.ConnectData(4, name, 0, 1, false, Connecting.WillOptions(none, none, 0, 0), none, none);
    var link := new PacketReader.BlockingLink([32, 0], []);
    var host := new Host(link, [], [false, false, false, false]);
    var client := new Client(host, 200, 5);
    assert Connecting.Described(options).RemLen() == 13;
    hide Connecting.Connect.Valid, Connecting.Described, Client.Valid, Client.Shape, GreetingOf;
    rc, turns := CodelessConnackConnects(client, options, []);
  }

  lemma RefusalExpected(client: Client, options: Connecting.ConnectData, code: byte, id: nat, rest: seq<byte>)
    requires client.Shape() && client.inflightMsgid > 0 && client.inflightQoS in {1, 2}
    requires Connecting.Described(options).Valid() && FitsIn(options, client.maxPacketSize) && id < 65536
    requires client.host.link.incoming ==
             [32, 2, 0, code] + ([if client.inflightQoS == 1 then 64 else 112, 2, id / 256, id % 256] + rest)
    ensures var all, max := client.host.link.incoming, client.maxPacketSize;
            && client.Expected(options, all, client.InFlightQos()) && CodeOf(FrontBody(all, max)) == Some(code)
            && AckOf(FrontBody(Behind(all, max), max)) == Some(id)
  {
    var ack := [if client.inflightQoS == 1 then 64 else 112, 2, id / 256, id % 256];
    ConnackInFront([32, 2, 0, code], [0, code], ack + rest, client.maxPacketSize);
    AckInFront(client.inflightQoS, id, rest, client.maxPacketSize);
    hide Comes, FrontBody, Behind, Connecting.Connect.Valid, AckOf, Connecting.Described, FitsIn, AckType;
  }

  /**
   With a publish of QoS 1 or 2 in flight, a CONNACK that refuses the connection, whatever its code, is
   followed by success: the PUBACK or PUBCOMP that comes next replaces the refusal. It may carry any id;
   the publish is acknowledged only if it is its own.
   */
  method RefusalIsReplaced(client: Client, options: Connecting.ConnectData, ghost code: byte, ghost id: nat,
                           ghost rest: seq<byte>)
    returns (rc: int, ghost resent: Resending, ghost turns: seq<Turn>)
    requires client.Valid() && !client.isconnected && client.inflightMsgid > 0 && client.inflightQoS in {1, 2}
    requires Connecting.Described(options).Valid() && Connecting.WellSized(options) && id < 65536
    requires FitsIn(options, client.maxPacketSize) && options.keepAliveInterval == 0 && client.host.Calm(4)
    requires client.host.link.incoming ==
             [32, 2, 0, code] + ([if client.inflightQoS == 1 then 64 else 112, 2, id / 256, id % 256] + rest)
    modifies client, client.host, client.host.link, client.readbuf, client.sendbuf, client.incomingQoS2messages,
             client.messageHandlers
    ensures rc == SUCCESS && client.isconnected && resent.Tried? && resent.place < |turns|
    ensures GreetingOf(turns[..resent.place], client.maxPacketSize) == Connack(Some(code))
    ensures client.inflightMsgid == if id == old(client.inflightMsgid) then 0 else old(client.inflightMsgid)
  {
    assert client.Shape();
    hide Comes, FrontBody, Behind, Connecting.Connect.Valid, GreetingOf, AckOf, CodeOf, Kept, Unbroken, LastBody,
         Client.Valid, Client.Shape, Client.Decided, Client.Went, Client.Expected, Sends, Connecting.Described,
         FitsIn, Connecting.WellSized, AckType;
    RefusalExpected(client, options, code, id, rest);
    rc, resent, turns := client.Connect(options);
  }

  /** `publish` succeeds on a PUBACK, at QoS 2 a PUBCOMP, of any id; with another one the publish is still in flight. */
  method AnyAckSucceeds(client: Client, topicName: seq<byte>, payload: seq<byte>, qos: nat, ghost ack: nat,
                        ghost rest: seq<byte>)
    returns (rc: int, id: nat, ghost turns: seq<Turn>)
    requires client.Valid() && client.isconnected && !client.cleansession && client.keepAliveInterval == 0
    requires qos in {1, 2} && ack < 65536 && client.host.Calm(2)
    requires client.host.link.incoming == [if qos == 1 then 64 else 112, 2, ack / 256, ack % 256] + rest
    requires PacketLen(Publish(0, qos, 0, 0, topicName, payload).RemLen()) <= client.maxPacketSize
    modifies client, client.host, client.host.link, client.readbuf, client.sendbuf, client.pubbuf,
             client.incomingQoS2messages, client.messageHandlers
    ensures rc == SUCCESS && 0 < id && client.inflightMsgid == if ack == id then 0 else id
  {
    AckInFront(qos, ack, rest, client.maxPacketSize);
    hide Comes, FrontBody, Behind, AckOf, AckType, Kept, Unbroken, LastBody, PacketLen;
    rc, id, turns := client.PublishMessage(topicName, payload, 0, qos, 0);
  }

  /**
   The handshake of QoS 2: PUBREC, which is answered by PUBREL with its id, then PUBCOMP. It succeeds
   whatever the ids, and the publish has left the flight exactly when the PUBCOMP carries its id.
   */
  method HandshakeSucceeds(client: Client, topicName: seq<byte>, payload: seq<byte>, ghost id1: nat, ghost id2: nat,
                           ghost rest: seq<byte>)
    returns (rc: int, id: nat, ghost turns: seq<Turn>)
    requires client.Valid() && client.isconnected && !client.cleansession && client.keepAliveInterval == 0
    requires id1 < 65536 && id2 < 65536 && client.host.Calm(4)
    requires client.host.link.incoming == [80, 2, id1 / 256, id1 % 256] + ([112, 2, id2 / 256, id2 % 256] + rest)
    requires PacketLen(Publish(0, 2, 0, 0, topicName, payload).RemLen()) <= client.maxPacketSize
    modifies client, client.host, client.host.link, client.readbuf, client.sendbuf, client.pubbuf,
             client.incomingQoS2messages, client.messageHandlers
    ensures rc == SUCCESS && 0 < id && client.inflightMsgid == if id2 == id then 0 else id
    ensures |turns| == 3 && turns[1].reply == [Sent([98, 2, id1 / 256, id1 % 256])]
  {
    hide Comes, FrontBody, Behind, AckOf, AckType, Kept, Unbroken, LastBody, PacketLen, Client.PubrecThen,
         HandshakeTaken, PubrecComes, FrontTaken, Int16;
    HandshakeInFront(client, id1, id2, rest);
    rc, id, turns := client.PublishMessage(topicName, payload, 0, 2, 0);
    HandshakeEnds(id1, id2, rest, client.host.link.incoming, turns, client.maxPacketSize);
  }

  lemma HandshakeInFront(client: Client, id1: nat, id2: nat, rest: seq<byte>)
    requires client.Shape() && id1 < 65536 && id2 < 65536
    ensures client.PubrecThen([80, 2, id1 / 256, id1 % 256] + ([112, 2, id2 / 256, id2 % 256] + rest), AckType(2))
  {
    hide Comes;
    var all := [80, 2, id1 / 256, id1 % 256] + ([112, 2, id2 / 256, id2 % 256] + rest);
    AckInFront(2, id2, rest, client.maxPacketSize);
    assert all[4..] == [112, 2, id2 / 256, id2 % 256] + rest;
  }

  lemma HandshakeEnds(id1: nat, id2: nat, rest: seq<byte>, more: seq<byte>, turns: seq<Turn>, max: nat)
    requires id1 < 65536 && id2 < 65536 && max >= 4 && |turns| == 3
    requires var all := [80, 2, id1 / 256, id1 % 256] + ([112, 2, id2 / 256, id2 % 256] + rest);
             HandshakeTaken(all, more, turns[1..], max)
    ensures turns[1].reply == [Sent([98, 2, id1 / 256, id1 % 256])]
    ensures AckOf(LastBody(turns)) == Some(id2)
  {
    hide Comes, FrontBody, Behind, AckOf;
    var all := [80, 2, id1 / 256, id1 % 256] + ([112, 2, id2 / 256, id2 % 256] + rest);
    AckInFront(2, id2, rest, max);
    assert all[4..] == [112, 2, id2 / 256, id2 % 256] + rest;
    assert turns[1..][..1][0] == turns[1] && turns[1..][1] == turns[2];
  }

  /** On a stream of packets, the type that turns end with is that of one of them. */
  lemma EndIsAPacket(packets: seq<seq<byte>>, more: seq<byte>, turns: seq<Turn>, max: nat, packetType: nat)
    requires PacketReader.AllWellFormed(packets, max) && Ran(PacketReader.Stream(packets), more, turns, max)
    requires Unbroken(turns) && EndsWith(turns, packetType, max)
    ensures exists i :: 0 <= i < |packets| && packets[i][0] as int / 16 == packetType
  {
    hide Ran, PacketReader.IsFrame, PacketReader.Reading.Fits, PacketReader.Reading.RemLen, PacketReader.FrameHead;
    var n := TurnsTakePackets(packets, more, turns, max);
    var r := turns[|turns| - 1].reading;
    assert r.Packet() == packets[n - 1];
    TypeInBits(r.header);
  }

  /**
   `publish` does not succeed without a packet of the type for its QoS: a PUBACK at QoS 1, a PUBCOMP at
   QoS 2. So a PUBACK alone is not enough at QoS 2, and neither is a PUBREC.
   */
  method OtherAcksDoNotDo(client: Client, topicName: seq<byte>, payload: seq<byte>, qos: nat,
                          ghost packets: seq<seq<byte>>)
    returns (rc: int, id: nat, ghost turns: seq<Turn>)
    requires client.Valid() && qos in {1, 2} && client.host.link.script == []
    requires PacketReader.AllWellFormed(packets, client.maxPacketSize)
    requires client.host.link.incoming == PacketReader.Stream(packets)
    requires forall i :: 0 <= i < |packets| ==> packets[i][0] as int / 16 != (if qos == 1 then 4 else 7)
    modifies client, client.host, client.host.link, client.readbuf, client.sendbuf, client.pubbuf,
             client.incomingQoS2messages, client.messageHandlers
    ensures rc == FAILURE
    ensures PacketLen(Publish(0, qos, 0, id, topicName, payload).RemLen()) <= client.maxPacketSize ==>
              !client.isconnected
  {
    hide Ran, LogAfter, Unbroken, EndsWith, PacketReader.IsFrame, PacketReader.WellFormed, PacketLen, Kept;
    rc, id, turns := client.PublishMessage(topicName, payload, 0, qos, 0);
    if rc == SUCCESS {
      EndIsAPacket(packets, client.host.link.incoming, turns, client.maxPacketSize, AckType(qos));
    }
  }

  /** Nor does `connect` with a publish in flight; with none, it does not succeed without a CONNACK. */
  method NoAckNoConnection(client: Client, options: Connecting.ConnectData, ghost packets: seq<seq<byte>>)
    returns (rc: int, ghost resent: Resending, ghost turns: seq<Turn>)
    requires client.Valid() && Connecting.Described(options).Valid() && Connecting.WellSized(options)
    requires client.host.link.script == [] && PacketReader.AllWellFormed(packets, client.maxPacketSize)
    requires client.host.link.incoming == PacketReader.Stream(packets)
    requires client.inflightMsgid > 0 ==> client.inflightQoS in {1, 2}
    requires var needed := if client.inflightMsgid == 0 then 2 else if client.inflightQoS == 1 then 4 else 7;
             forall i :: 0 <= i < |packets| ==> packets[i][0] as int / 16 != needed
    modifies client, client.host, client.host.link, client.readbuf, client.sendbuf, client.incomingQoS2messages,
             client.messageHandlers
    ensures rc != SUCCESS && client.isconnected == old(client.isconnected)
  {
    hide Ran, LogAfter, Unbroken, EndsWith, PacketReader.IsFrame, PacketReader.WellFormed, Kept, Sends, WentOut,
         Client.Valid, Connecting.Connect.Valid, Connecting.Described, Connecting.WellSized;
    ghost var id, qos := client.inflightMsgid, client.inflightQoS;
    rc, resent, turns := client.Connect(options);
    if rc == SUCCESS {
      var needed := if id == 0 then CONNACK else AckType(qos);
      EndIsAPacket(packets, client.host.link.incoming, turns, client.maxPacketSize, needed);
    }
  }

  // ---------------------------------------------------------------- single packets, in bytes

  /**
   One cycle with a whole packet at the front of the stream, no keep-alive interval, and a network that
   does not interrupt reads or writes.
   */
  method TakesPacket(client: Client, ghost packet: seq<byte>, ghost body: seq<byte>, ghost rest: seq<byte>)
    returns (rc: int, ghost turn: Turn)
    requires client.Valid() && client.keepAliveInterval == 0 && client.host.writes == []
             && client.host.link.script == []
    requires PacketReader.Begins(packet + rest, packet, body, client.maxPacketSize)
    requires client.host.link.incoming == packet + rest
    modifies client, client.host, client.host.link, client.readbuf, client.sendbuf, client.incomingQoS2messages,
             client.messageHandlers
    ensures client.Valid() && client.host.link.incoming == rest && packet <= client.readbuf[..]
    ensures Brings(client.readbuf[..], Type(packet[0]), turn.job) && Allowed(turn, client.maxPacketSize)
    ensures client.log == Turned(old(client.log), turn)
    ensures client.calls == old(client.calls)
              + CallsOf(turn.job, old(client.incomingQoS2messages[..]), old(client.messageHandlers[..]),
                        client.defaultMessageHandler)
    ensures (turn.reply != [] ==> turn.reply[0].Sent?)
            && (turn.failed <==> NotDone(Type(packet[0]), turn.job, turn.reply))
    ensures rc == if !turn.failed || !Known(Type(packet[0])) then Type(packet[0]) else FAILURE
    ensures client.isconnected == (old(client.isconnected) && !turn.failed)
    ensures client.pingOutstanding ==
            (old(client.pingOutstanding) && Type(packet[0]) != PINGRESP && !(old(client.isconnected) && turn.failed))
    ensures !turn.failed ==> turn.rest == [] && client.messageHandlers[..] == old(client.messageHandlers[..])
  {
    ghost var r;
    rc, r := client.Cycle();
    turn := r.turn;
    hide Client.Valid, PacketReader.Happened, PacketReader.Reading.Whole, PacketReader.Reading.Packet, Brings,
         PacketReader.Begins, PacketReader.IsFrame, Turned, Allowed, CallsOf, Framed, EncodeLength, Type;
    PacketReader.PacketIsRead(packet + rest, client.host.link.incoming, turn.reading, client.maxPacketSize, packet,
                              body);
    assert client.host.link.incoming == (packet + rest)[|packet|..] == rest;
    QuietRest(r, old(client.pingOutstanding) && r.packetType != PINGRESP);
  }

  /** Without a keep-alive interval only the packet itself can fail, and nothing follows the answer. */
  lemma QuietRest(r: Report, outstanding: bool)
    requires RestAllowed(r.turn.rest)
    requires if NotDone(r.packetType, r.turn.job, r.turn.reply) then r.turn.failed && !PingSent(r.turn.rest)
             else if r.packetType == PUBLISH && r.turn.job == Nothing then !r.turn.failed && !PingSent(r.turn.rest)
             else KeptAlive(0, outstanding, r.timers, r.turn.rest, r.turn.failed)
    ensures (r.turn.failed <==> NotDone(r.packetType, r.turn.job, r.turn.reply)) && !PingSent(r.turn.rest)
    ensures Cleaned !in r.turn.rest ==> r.turn.rest == []
  {
    hide NotDone;
    if r.turn.rest != [] {
      assert r.turn.rest[0] in r.turn.rest;
    }
  }

  lemma PublishIsFrame(p: Publish, rest: seq<byte>, max: nat)
    requires p.Valid() && |p.Bytes()| <= max
    ensures PacketReader.Begins(p.Bytes() + rest, p.Bytes(), p.Body(), max)
    ensures Type(p.Bytes()[0]) == PUBLISH && p.id < 65536 && p.qos < 3
  {
    HeaderFields(PUBLISH, p.dup, p.qos, p.retain);
    hide Publish.Body;
    assert p.Bytes() <= p.Bytes() + rest;
  }

  /** What a message leaves behind: its answer on the wire, its id in the table, and the calls made for it. */
  lemma MessageTurn(log: seq<Entry>, p: Publish, turn: Turn, max: nat)
    requires Allowed(turn, max) && turn.job == Message(AsReceived(p)) && p.id < 65536 && p.qos < 3 && turn.rest == []
    requires DeliveriesAllowed(log) && (turn.reply != [] ==> turn.reply[0].Sent?)
    ensures Wire(Turned(log, turn)) == Wire(log)
              + if p.qos == 0 then [] else [if p.qos == 1 then 64 else 80, 2, p.id / 256, p.id % 256]
    ensures var t, t' := TableAfter(log), TableAfter(Turned(log, turn));
            if p.qos == 2 && p.id !in t && 0 in t then forall x :: x != 0 ==> (x in t' <==> x in t || x == p.id)
            else t' == t
  {
    hide TableAfter, Wire, AckBytes, Qos2.Replaced, Turned;
    AnswersInBytes(turn.job.m, 0);
    assert turn.reply != [] ==> EntryBytes(turn.reply[0]) == Answer(turn.job).value;
    WireOfTurn(log, turn);
    assert Wire(log) + [] == Wire(log);
    TableOfMessage(log, turn);
    TableIsDistinct(log);
    if p.qos == 2 && p.id !in TableAfter(log) && 0 in TableAfter(log) {
      Qos2.UseAdds(TableAfter(log), p.id);
    }
  }

  lemma MessageSucceeds(p: Publish, turn: Turn, max: nat)
    requires Allowed(turn, max) && turn.job == Message(AsReceived(p)) && p.qos < 3
    requires turn.reply != [] ==> turn.reply[0].Sent?
    ensures !NotDone(PUBLISH, turn.job, turn.reply)
  {
  }

  /** The message as the handlers get it, and who gets it. */
  ghost predicate HandedOut(p: Publish, held: Qos2.Table, slots: seq<Slot>, fallback: Option<nat>, before: seq<Call>,
                            after: seq<Call>)
  {
    var id := if p.qos > 0 then Some(p.id) else None;
    var m := Received(p.dup, p.qos, p.retain, id, p.topic, p.payload, |p.payload|);
    if p.qos < 2 || (p.id !in held && 0 in held) then
      before <= after && Dispatched(slots, fallback, m, after[|before|..])
    else after == before
  }

  lemma MessageIsHandedOut(p: Publish, job: Job, held: Qos2.Table, slots: seq<Slot>, fallback: Option<nat>,
                           before: seq<Call>)
    requires job == Message(AsReceived(p)) && p.qos < 3
    ensures HandedOut(p, held, slots, fallback, before, before + CallsOf(job, held, slots, fallback))
  {
    hide Dispatched, Recipients, CallsFor, Text;
    RecipientsAreDispatched(slots, fallback, job.m);
    var made := CallsFor(Recipients(slots, fallback, Text(p.topic)), job.m);
    assert (before + made)[|before|..] == made && before + [] == before;
  }

  /**
   A message comes in: it goes to the application unless its QoS is 2 and its id is held or no slot is
   free, its id is then held, and PUBACK or PUBREC goes out with its id.
   */
  method TakesMessage(client: Client, ghost p: Publish, ghost rest: seq<byte>) returns (rc: int)
    requires client.Valid() && client.keepAliveInterval == 0 && client.host.writes == []
             && client.host.link.script == []
    requires p.Valid() && |p.Bytes()| <= client.maxPacketSize && client.host.link.incoming == p.Bytes() + rest
    modifies client, client.host, client.host.link, client.readbuf, client.sendbuf, client.incomingQoS2messages,
             client.messageHandlers
    ensures client.Valid() && rc == 3 && client.isconnected == old(client.isconnected)
    ensures client.host.link.incoming == rest && client.pingOutstanding == old(client.pingOutstanding)
    ensures client.host.wire == old(client.host.wire) +
              if p.qos == 0 then [] else [if p.qos == 1 then 64 else 80, 2, p.id / 256, p.id % 256]
    ensures HandedOut(p, old(client.incomingQoS2messages[..]), client.messageHandlers[..], client.defaultMessageHandler,
                      old(client.calls), client.calls)
    ensures client.messageHandlers[..] == old(client.messageHandlers[..])
    ensures var t, t' := old(client.incomingQoS2messages[..]), client.incomingQoS2messages[..];
            if p.qos == 2 && p.id !in t && 0 in t then forall x :: x != 0 ==> (x in t' <==> x in t || x == p.id)
            else t' == t
  {
    hide Client.Valid, Publish.Bytes, Publish.Valid, Publish.Body, Brings, PacketReader.Begins, TableAfter, Wire,
         Turned, Allowed, CallsOf, HandedOut, NotDone, Type, DeliveriesAllowed;
    ghost var log := client.log;
    PublishIsFrame(p, rest, client.maxPacketSize);
    client.ValidTable();
    client.ValidDeliveries();
    ghost var turn;
    rc, turn := TakesPacket(client, p.Bytes(), p.Body(), rest);
    client.ValidTable();
    MessageIsBrought(p, client.readbuf[..], turn.job);
    MessageSucceeds(p, turn, client.maxPacketSize);
    MessageTurn(log, p, turn, client.maxPacketSize);
    MessageIsHandedOut(p, turn.job, old(client.incomingQoS2messages[..]), client.messageHandlers[..],
                       client.defaultMessageHandler, old(client.calls));
  }

  lemma ShortIsFrame(header: byte, body: seq<byte>, rest: seq<byte>, max: nat)
    requires |body| < 128 && |body| + 2 <= max
    ensures PacketReader.Begins([header, |body|] + body + rest, [header, |body|] + body, body, max)
  {
    var packet := [header, |body|] + body;
    LengthInBytes(|body|);
    hide EncodeLength;
    assert packet[0] == header && packet == [header] + [|body|] + body && packet <= packet + rest;
  }

  /** A PUBREC or PUBREL in the buffer asks for its release. */
  lemma ReleaseIsBrought(header: byte, id: nat, buf: seq<byte>, job: Job)
    requires id < 65536 && (80 <= header < 96 || 96 <= header < 112)
    requires [header, 2, id / 256, id % 256] <= buf && Brings(buf, Type(header), job)
    ensures job == Release(id, header >= 96) && Type(header) == (if header >= 96 then 6 else 5)
  {
    assert EncodeLength(2) == [2];
    assert buf[0] == header && buf[1..] == [2] + buf[2..];
    assert PacketReader.FrameHead(header, 2) + Int16(id) == [header, 2, id / 256, id % 256];
  }

  lemma ReleaseTurn(log: seq<Entry>, turn: Turn)
    requires turn.job.Release? && turn.job.id < 65536 && Replies(turn.job, turn.reply) && turn.rest == []
    requires DeliveriesAllowed(log) && (turn.reply != [] ==> turn.reply[0].Sent?)
    ensures var id := turn.job.id;
            Wire(Turned(log, turn)) == Wire(log) + [if turn.job.completes then 112 else 98, 2, id / 256, id % 256]
    ensures var t, t' := TableAfter(log), TableAfter(Turned(log, turn));
            if turn.job.completes then forall x :: x != 0 ==> (x in t' <==> x in t && x != turn.job.id) else t' == t
  {
    hide TableAfter, Wire, AckBytes, Qos2.Replaced, Turned;
    var m := Received(0, 0, 0, None, [], [], 0);
    AnswersInBytes(m, turn.job.id);
    WireOfTurn(log, turn);
    TableOfRelease(log, turn);
    TableIsDistinct(log);
    if turn.job.id == 0 {
      FreeingZero(TableAfter(log));
    } else {
      Qos2.FreeRemoves(TableAfter(log), turn.job.id);
    }
  }

  /** A PUBREL (or PUBREC) comes in: PUBCOMP (or PUBREL) goes out with its id, and the PUBREL's id leaves the table. */
  method TakesRelease(client: Client, ghost header: byte, ghost id: nat, ghost rest: seq<byte>) returns (rc: int)
    requires client.Valid() && client.keepAliveInterval == 0 && client.host.writes == []
             && client.host.link.script == []
    requires 80 <= header < 112 && id < 65536
    requires client.host.link.incoming == [header, 2, id / 256, id % 256] + rest
    modifies client, client.host, client.host.link, client.readbuf, client.sendbuf, client.incomingQoS2messages,
             client.messageHandlers
    ensures client.Valid() && rc == (if header < 96 then 5 else 6) && client.isconnected == old(client.isconnected)
    ensures client.host.link.incoming == rest && client.pingOutstanding == old(client.pingOutstanding)
    ensures client.host.wire == old(client.host.wire) + [if header < 96 then 98 else 112, 2, id / 256, id % 256]
    ensures client.calls == old(client.calls)
    ensures var t, t' := old(client.incomingQoS2messages[..]), client.incomingQoS2messages[..];
            if header < 96 then t' == t else forall x :: x != 0 ==> (x in t' <==> x in t && x != id)
  {
    hide Client.Valid, Brings, PacketReader.Begins, TableAfter, Wire, Turned, Type, DeliveriesAllowed, Qos2.Replaced,
         AckBytes;
    ghost var log, body := client.log, [id / 256, id % 256];
    ghost var packet := [header, 2] + body;
    assert packet == [header, 2, id / 256, id % 256];
    client.ValidTable();
    client.ValidDeliveries();
    ShortIsFrame(header, body, rest, client.maxPacketSize);
    ghost var turn;
    rc, turn := TakesPacket(client, packet, body, rest);
    client.ValidTable();
    ReleaseIsBrought(header, id, client.readbuf[..], turn.job);
    ReleaseTurn(log, turn);
    assert old(client.calls) + [] == old(client.calls);
  }

  /**
   Any other packet: CONNACK, PUBACK, PUBCOMP, SUBACK, UNSUBACK and PINGRESP are taken note of and leave
   everything as it is, but for an outstanding ping; every other type ends the connection.
   */
  method TakesOther(client: Client, ghost packet: seq<byte>, ghost body: seq<byte>, ghost rest: seq<byte>)
    returns (rc: int)
    requires client.Valid() && client.keepAliveInterval == 0 && client.host.writes == []
             && client.host.link.script == []
    requires PacketReader.Begins(packet + rest, packet, body, client.maxPacketSize)
    requires client.host.link.incoming == packet + rest && packet[0] / 16 !in {3, 5, 6}
    modifies client, client.host, client.host.link, client.readbuf, client.sendbuf, client.incomingQoS2messages,
             client.messageHandlers
    ensures client.Valid() && client.host.link.incoming == rest && rc == packet[0] as int / 16
    ensures client.calls == old(client.calls)
    ensures if packet[0] as int / 16 in {0, 2, 4, 7, 9, 11, 13} then
              && client.isconnected == old(client.isconnected) && client.host.wire == old(client.host.wire)
              && client.incomingQoS2messages[..] == old(client.incomingQoS2messages[..])
              && client.pingOutstanding == (old(client.pingOutstanding) && packet[0] as int / 16 != 13)
            else !client.isconnected
  {
    TypeInBits(packet[0]);
    hide Client.Valid, PacketReader.Begins, TableAfter, Wire, DeliveriesAllowed, Framed, Allowed, Turned, Brings,
         Type, Known, NotDone;
    ghost var log := client.log;
    client.ValidTable();
    ghost var turn;
    rc, turn := TakesPacket(client, packet, body, rest);
    client.ValidTable();
    OtherTurn(log, client.readbuf[..], Type(packet[0]), turn, client.maxPacketSize);
    assert old(client.calls) + [] == old(client.calls);
  }

  lemma OtherTurn(log: seq<Entry>, buf: seq<byte>, packetType: nat, turn: Turn, max: nat)
    requires Brings(buf, packetType, turn.job) && packetType !in {3, 5, 6} && packetType < 16 && Allowed(turn, max)
    ensures turn.job == Nothing
    ensures Known(packetType) <==> packetType in {0, 2, 4, 7, 9, 11, 13}
    ensures NotDone(packetType, turn.job, turn.reply) <==> !Known(packetType)
    ensures turn.rest == [] ==> Turned(log, turn) == log
  {
    hide TableAfter;
    assert turn.rest == [] ==> Turned(log, turn) == log + [] + [] + [] == log;
  }

  lemma TypeInBits(header: byte)
    ensures Type(header) == header as int / 16 && Qos(header) == header as int / 2 % 4
  {
  }

  /** A PUBLISH with the QoS bits both set ends the connection, whatever is in it. */
  method RefusesThirdQos(client: Client, ghost header: byte, ghost body: seq<byte>, ghost rest: seq<byte>)
    returns (rc: int)
    requires client.Valid() && client.keepAliveInterval == 0 && client.host.writes == []
             && client.host.link.script == []
    requires header in {54, 55, 62, 63} && |body| < 128 && |body| + 2 <= client.maxPacketSize
    requires client.host.link.incoming == [header, |body|] + body + rest
    modifies client, client.host, client.host.link, client.readbuf, client.sendbuf, client.incomingQoS2messages,
             client.messageHandlers
    ensures client.Valid() && rc == -1 && !client.isconnected && client.host.link.incoming == rest
  {
    hide Client.Valid, PacketReader.Begins, Brings, Framed, Type;
    ShortIsFrame(header, body, rest, client.maxPacketSize);
    ghost var turn;
    rc, turn := TakesPacket(client, [header, |body|] + body, body, rest);
    ThirdQosIsBrought(header, body, client.readbuf[..], turn.job);
  }

  lemma ThirdQosIsBrought(header: byte, body: seq<byte>, buf: seq<byte>, job: Job)
    requires header in {54, 55, 62, 63} && |body| < 128 && [header, |body|] + body <= buf
    requires Brings(buf, Type(header), job)
    ensures Type(header) == 3 && job.Message? && job.m.qos == 3
  {
    TypeInBits(header);
    assert buf[0] == header && buf[1..] == [|body|] + buf[2..];
  }

  /** Header byte and length field are at the front, without a short read. */
  lemma LengthIsRead(r: PacketReader.Reading, all: seq<byte>, more: seq<byte>, header: byte, n: nat, rest: seq<byte>,
                     max: nat)
    requires PacketReader.Happened(all, more, r, max, false) && n <= 268435455
    requires all == [header] + EncodeLength(n) + rest
    ensures r.Header? && r.data + more == rest && (r.Fits(max) <==> 1 + |EncodeLength(n)| + n <= max)
    ensures if r.Fits(max) then |r.data| <= n && (|r.data| == n || more == []) else r.data == []
    ensures r.Whole(max) <==> r.Fits(max) && |r.data| == n
  {
    assert all == ([header] + EncodeLength(n) + []) + rest;
    hide EncodeLength, PacketReader.FieldRead, PacketReader.Partial;
    PacketReader.AfterHeader(all, header, EncodeLength(n), [], rest);
    assert EncodeLength(n) + ([] + rest) == EncodeLength(n) + rest;
    PacketReader.ReadInOrder(all, more, r, max);
    PacketReader.FieldIsRead(all[1..], r.field, r.data + more, n, rest);
  }

  /** A packet that does not fit the read buffer ends the connection with -2; its body is left on the stream. */
  method RefusesTooLong(client: Client, ghost header: byte, ghost n: nat, ghost rest: seq<byte>) returns (rc: int)
    requires client.Valid() && client.host.link.script == [] && n <= 268435455
    requires 1 + |EncodeLength(n)| + n > client.maxPacketSize
    requires client.host.link.incoming == [header] + EncodeLength(n) + rest
    modifies client, client.host, client.host.link, client.readbuf, client.sendbuf, client.incomingQoS2messages,
             client.messageHandlers
    ensures client.Valid() && rc == -2 && !client.isconnected && client.host.link.incoming == rest
    ensures client.calls == old(client.calls)
  {
    hide Client.Valid, PacketReader.Happened, PacketReader.Reading.Fits, PacketReader.Reading.Packet, EncodeLength, Allowed,
         Framed, PacketReader.Reading.Whole;
    ghost var r;
    rc, r := client.Cycle();
    LengthIsRead(r.turn.reading, [header] + EncodeLength(n) + rest, client.host.link.incoming, header, n, rest,
                 client.maxPacketSize);
    assert [] + client.host.link.incoming == client.host.link.incoming && old(client.calls) + [] == old(client.calls);
  }

  /** A packet that is cut short ends the connection too; its result is 1, left over from the read of its first byte. */
  method RefusesCutShort(client: Client, ghost header: byte, ghost n: nat, ghost part: seq<byte>) returns (rc: int)
    requires client.Valid() && client.host.link.script == [] && n <= 268435455
    requires 1 + |EncodeLength(n)| + n <= client.maxPacketSize && |part| < n
    requires client.host.link.incoming == [header] + EncodeLength(n) + part
    modifies client, client.host, client.host.link, client.readbuf, client.sendbuf, client.incomingQoS2messages,
             client.messageHandlers
    ensures client.Valid() && rc == 1 && !client.isconnected && client.host.link.incoming == []
    ensures client.calls == old(client.calls)
  {
    hide Client.Valid, PacketReader.Happened, PacketReader.Reading.Fits, PacketReader.Reading.Packet, EncodeLength, Allowed,
         Framed, PacketReader.Reading.Whole;
    ghost var r;
    rc, r := client.Cycle();
    LengthIsRead(r.turn.reading, [header] + EncodeLength(n) + part, client.host.link.incoming, header, n, part,
                 client.maxPacketSize);
    assert old(client.calls) + [] == old(client.calls);
  }

  /** PINGREQ and DISCONNECT in bytes. */
  lemma ZeroInBytes()
    ensures ZeroBytes(PINGREQ) == [192, 0] && ZeroBytes(DISCONNECT) == [224, 0]
  {
    HeaderInBits(PINGREQ, 0, 0, 0);
    HeaderInBits(DISCONNECT, 0, 0, 0);
  }

  /**
   The keep-alive check, with writes that all succeed: a ping goes out exactly when one of the two timers
   has run out and no ping is outstanding; it fails exactly when an outstanding ping was not answered in
   time. A timer that is not looked at any more has run out.
   */
  method PingsWhenDue(client: Client) returns (rc: int)
    requires client.Valid() && client.keepAliveInterval > 0 && client.host.writes == []
    modifies client, client.host, client.sendbuf
    ensures var e := old(client.host.expiries);
            var first, second := |e| < 1 || e[0], |e| < 2 || e[1];
            && (old(client.pingOutstanding) ==>
                  && rc == (if first then -1 else 0) && client.pingOutstanding
                  && client.host.wire == old(client.host.wire))
            && (!old(client.pingOutstanding) ==>
                  && rc == 0 && client.pingOutstanding == (first || second)
                  && client.host.wire == old(client.host.wire) + if first || second then [192, 0] else [])
  {
    hide Client.Valid, Wire;
    ghost var log := client.log;
    ghost var ping;
    client.ValidTable();
    rc, ping := client.KeepAlive();
    client.ValidTable();
    ZeroInBytes();
    if ping == [] {
      assert log + [] == log && Wire(log) + [] == Wire(log);
    } else {
      assert ping == [Sent([192, 0])];
      WireGrows(log, ping[0]);
    }
  }

  lemma WireGrows(log: seq<Entry>, e: Entry)
    ensures Wire(log + [e]) == Wire(log) + EntryBytes(e)
  {
    assert (log + [e])[..|log|] == log;
  }

  /** The numbers of packet types and results. */
  lemma ClientNumbers()
    ensures CONNACK == 2 && SUBACK == 9 && UNSUBACK == 11 && PINGREQ == 12 && PINGRESP == 13 && DISCONNECT == 14
    ensures SUCCESS == 0 && FAILURE == -1 && BUFFER_OVERFLOW == -2 && MAX_PACKET_ID == 65535
    ensures AckType(1) == 4 && AckType(2) == 7
  {
  }

  // ---------------------------------------------------------------- whole runs of the client

  /** A call of the application. */
  datatype Operation =
    | Connecting(options: Connecting.ConnectData)
    | Publishing(topicName: seq<byte>, payload: seq<byte>, startId: nat, qos: nat, retained: nat)
    | Yielding
    | Registering(topicFilter: string, handler: Option<nat>)
    | Disconnecting

  predicate Callable(op: Operation) {
    match op
    case Connecting(options) => Connecting.Described(options).Valid() && Connecting.WellSized(options)
    case Publishing(_, _, startId, qos, retained) => qos < 3 && retained < 2 && startId < 65536
    case _ => true
  }

  predicate KeepsSession(op: Operation) {
    op.Connecting? ==> op.options.cleansession == 0
  }

  method Register(client: Client, topicFilter: string, handler: Option<nat>)
    requires client.Valid()
    modifies client.messageHandlers
    ensures client.Valid()
  {
    hide Explains, FiltersDistinct, Registered, Publish.Bytes, Publish.Valid;
    var _ := client.SetMessageHandler(topicFilter, handler);
  }

  method Perform(client: Client, op: Operation) returns (ghost turns: seq<Turn>)
    requires client.Valid() && Callable(op)
    modifies client, client.host, client.host.link, client.readbuf, client.sendbuf, client.pubbuf,
             client.incomingQoS2messages, client.messageHandlers
    ensures client.Valid() && client.Went(old(client.log), old(client.host.link.incoming), turns)
    ensures KeepsSession(op) && !old(client.cleansession) ==> !client.cleansession
  {
    hide Client.Valid, Ran, LogAfter, Kept, Unbroken, Connecting.Connect.Valid, Connecting.Described,
         Connecting.WellSized;
    match op
    case Connecting(options) =>
      var _, _, t := client.Connect(options);
      turns := t;
    case Publishing(topicName, payload, startId, qos, retained) =>
      var _, _, t := client.PublishMessage(topicName, payload, startId, qos, retained);
      turns := t;
    case Yielding =>
      var _, t := client.Yield();
      turns := t;
    case Registering(topicFilter, handler) =>
      Register(client, topicFilter, handler);
      turns := [];
      NoTurns(client.log, client.host.link.incoming, client.maxPacketSize);
    case Disconnecting =>
      var _, t := client.Disconnect();
      turns := t;
  }

  /** Whatever the application calls, in whatever order, is a run of turns. */
  method Run(client: Client, operations: seq<Operation>) returns (ghost turns: seq<Turn>)
    requires client.Valid() && forall i :: 0 <= i < |operations| ==> Callable(operations[i])
    requires !client.cleansession && forall i :: 0 <= i < |operations| ==> KeepsSession(operations[i])
    modifies client, client.host, client.host.link, client.readbuf, client.sendbuf, client.pubbuf,
             client.incomingQoS2messages, client.messageHandlers
    ensures client.Valid() && !client.cleansession
            && client.Went(old(client.log), old(client.host.link.incoming), turns)
  {
    hide Client.Valid, Callable, KeepsSession, Ran, LogAfter, Kept, Unbroken;
    turns := [];
    NoTurns(client.log, client.host.link.incoming, client.maxPacketSize);
    for i := 0 to |operations|
      invariant client.Valid() && !client.cleansession
      invariant client.Went(old(client.log), old(client.host.link.incoming), turns)
    {
      ghost var stream := client.host.link.incoming;
      ghost var more := Perform(client, operations[i]);
      RunsJoin(old(client.log), old(client.host.link.incoming), stream, client.host.link.incoming, turns, more,
               client.maxPacketSize);
      turns := turns + more;
    }
  }

  /**
   A client from the start, connected with its session to be kept, and then any calls: against every
   broker and link that its turns may have met, it delivered no message of QoS 2 twice.
   */
  method NothingTwice(host: Host, max: nat, handlers: nat, options: Connecting.ConnectData, operations: seq<Operation>)
    returns (client: Client, ghost turns: seq<Turn>)
    requires 5 <= max <= 65535 && host.wire == [] && options.cleansession == 0 && Callable(Connecting(options))
    requires forall i :: 0 <= i < |operations| ==> Callable(operations[i]) && KeepsSession(operations[i])
    modifies host, host.link
    ensures client.log == LogAfter([], turns) && Ran(old(host.link.incoming), host.link.incoming, turns, max)
            && Kept(turns)
    ensures forall worlds: seq<World>, moves: seq<Move>, content: nat -> Publish ::
              && IsJointRun(worlds, moves, content, max) && Turns(moves) == turns
              && worlds[0].unread == old(host.link.incoming) && worlds[|moves|].unread == host.link.incoming ==>
                OnceEach(client.log, worlds[|moves|].system.delivered, content)
  {
    hide Client.Valid, Ran, LogAfter, Kept, Unbroken, Moves, OnceEach, Turns, Connecting.Connect.Valid,
         Connecting.WellSized, Connecting.Described;
    ghost var stream := host.link.incoming;
    client := new Client(host, max, handlers);
    var _, _, first := client.Connect(options);
    ghost var middle := host.link.incoming;
    ghost var more := Run(client, operations);
    RunsJoin([], stream, middle, host.link.incoming, first, more, max);
    turns := first + more;
    forall worlds: seq<World>, moves: seq<Move>, content: nat -> Publish |
      && IsJointRun(worlds, moves, content, max) && Turns(moves) == turns
      && worlds[0].unread == stream && worlds[|moves|].unread == host.link.incoming
      ensures OnceEach(client.log, worlds[|moves|].system.delivered, content)
    {
      DeliveriesAreDifferent(worlds, moves, content, max, client.log);
    }
  }

  lemma FlightFacts(p: Publish)
    requires p.Valid()
    ensures p.id < 65536 && !IsPubcomp(p.Bytes())
  {
  }

  lemma ConnectIsNoPubcomp(c: Connecting.Connect)
    requires c.Valid()
    ensures !IsPubcomp(c.Bytes())
  {
  }

  lemma FittingPublish(p: Publish, max: nat)
    requires max <= 65535 && p.dup < 2 && p.qos < 3 && p.retain < 2 && p.id < 65536
    ensures PacketLen(p.RemLen()) <= max ==> p.Valid()
    ensures MqttString(Some(p.topic), None).WellSized() && MqttString(Some(p.topic), None).Text() == p.topic
  {
  }

  lemma PublishIsNoPubcomp(p: Publish)
    requires p.dup < 2 && p.qos < 3 && p.retain < 2
    ensures !IsPubcomp(p.Bytes())
  {
  }

  lemma ParsedId(s: seq<byte>, max: nat)
    requires Framed(s, max)
    ensures InBounds(s) && (Parse(s).Some? ==> Id(Parse(s).value) < 65536 && Parse(s).value.qos == Qos(s[0]))
  {
  }

  lemma ZeroIsNoPubcomp(packetType: nat)
    ensures !IsPubcomp(ZeroBytes(packetType))
  {
  }

  lemma FullTableStays(t: Qos2.Table, id: nat)
    requires 0 !in t
    ensures Qos2.Replaced(t, 0, id) == t
  {
  }

  lemma ExplainsSend(log: seq<Entry>, e: Entry, packet: seq<byte>, t: Qos2.Table, wire: seq<byte>)
    requires Explains(log, t, wire) && Attempt(e, packet) && (e.Sent? ==> !IsPubcomp(packet))
    ensures Explains(log + [e], t, wire + EntryBytes(e))
  {
  }

  /** The buffer starts with a header byte, a length field and as many bytes as it says. */
  predicate Framed(s: seq<byte>, max: nat) {
    AckInBounds(s) && End(s) <= max && max + 2 <= |s|
  }

  /** The packet at the front of the stream is of this type. */
  ghost predicate Comes(all: seq<byte>, max: nat, packetType: int) {
    var front := PacketReader.Front(all, max);
    front.Some? && front.value.packet != [] && Type(front.value.packet[0]) == packetType
  }

  /** The last turn took it, byte for byte and no more. */
  ghost predicate FrontTaken(all: seq<byte>, more: seq<byte>, turns: seq<Turn>, max: nat) {
    LastPacket(turns) == FrontPacket(all, max) && LastBody(turns) == FrontBody(all, max) && more == Behind(all, max)
  }

  ghost function FrontPacket(all: seq<byte>, max: nat): seq<byte> {
    if PacketReader.Front(all, max).Some? then PacketReader.Front(all, max).value.packet else []
  }

  /** What follows the packet at the front. */
  ghost function Behind(all: seq<byte>, max: nat): seq<byte> {
    var front := PacketReader.Front(all, max);
    if front.Some? then all[|front.value.packet|..] else all
  }

  lemma PlainIsDone(buf: seq<byte>, r: Report, max: nat)
    requires Brings(buf, r.packetType, r.turn.job) && Allowed(r.turn, max)
    ensures Plain(r.packetType) ==> !NotDone(r.packetType, r.turn.job, r.turn.reply)
    ensures r.packetType < 0 ==> NotDone(r.packetType, r.turn.job, r.turn.reply)
  {
  }

  /** The result of a cycle is the type of a packet that only makes a wait end, exactly when its turn took one. */
  lemma ResultOfTurn(r: Report, rc: int, buf: seq<byte>, max: nat, wanted: int)
    requires Reports(r.turn.reading, max, r.packetType)
    requires rc == if !r.turn.failed || !Known(r.packetType) then r.packetType else FAILURE
    requires r.turn.reading.Whole(max) ==> r.turn.reading.Packet() <= buf
    ensures Plain(wanted) ==> (rc == wanted <==> EndsWith([r.turn], wanted, max))
    ensures EndsWith([r.turn], wanted, max) ==> LastPacket([r.turn]) <= buf
  {
    hide Type, PacketReader.Reading.Packet, PacketReader.Reading.Fits;
  }

  lemma FrontComes(all: seq<byte>, more: seq<byte>, r: Report, max: nat, packetType: int)
    requires PacketReader.Happened(all, more, r.turn.reading, max, false) && Reports(r.turn.reading, max, r.packetType)
    requires Comes(all, max, packetType)
    ensures r.packetType == packetType && FrontTaken(all, more, [r.turn], max)
  {
    hide PacketReader.Front, PacketReader.Happened, PacketReader.Begins, PacketReader.FrameHead;
    PacketReader.FrontIsRead(all, more, r.turn.reading, max);
    assert all[|r.turn.reading.Packet()|..] == more;
  }

  /** A PUBREC is at the front of the stream. */
  predicate PubrecComes(all: seq<byte>) {
    |all| >= 4 && 80 <= all[0] < 96 && all[1] == 2
  }

  /** One turn took it, and answered it with a PUBREL for its id. */
  predicate PubrecTaken(all: seq<byte>, more: seq<byte>, turns: seq<Turn>) {
    PubrecComes(all) && more == all[4..] && |turns| == 1 && turns[0].reply == [Sent([98, 2, all[2], all[3]])]
      && turns[0].rest == []
  }

  /** Two turns took a PUBREC and the packet behind it. */
  ghost predicate HandshakeTaken(all: seq<byte>, more: seq<byte>, turns: seq<Turn>, max: nat) {
    && PubrecComes(all) && |turns| == 2 && PubrecTaken(all, all[4..], turns[..1]) && Kept(turns)
    && FrontTaken(all[4..], more, turns, max)
  }

  lemma HandshakeBehind(all: seq<byte>, more: seq<byte>, a: seq<Turn>, b: seq<Turn>, max: nat)
    requires |a| == 1
    ensures HandshakeTaken(all, more, b, max) ==> |a + b| == 3 && HandshakeTaken(all, more, (a + b)[1..], max)
  {
    hide FrontTaken;
    assert (a + b)[1..] == b;
  }

  lemma HandshakeJoins(all: seq<byte>, mid: seq<byte>, more: seq<byte>, a: seq<Turn>, b: seq<Turn>, max: nat)
    ensures PubrecTaken(all, mid, a) && |b| == 1 && FrontTaken(mid, more, b, max) && Kept(b) ==>
              HandshakeTaken(all, more, a + b, max)
  {
    hide PacketReader.Front;
    assert |a| == 1 ==> (a + b)[..1] == a;
  }

  lemma PubrecTurn(all: seq<byte>, more: seq<byte>, r: Report, buf: seq<byte>, max: nat)
    requires PubrecComes(all) && max >= 4 && PacketReader.Happened(all, more, r.turn.reading, max, false)
    requires Reports(r.turn.reading, max, r.packetType)
    requires r.turn.reading.Whole(max) ==> r.turn.reading.Packet() <= buf
    requires Brings(buf, r.packetType, r.turn.job) && Allowed(r.turn, max)
    requires r.turn.reply != [] ==> r.turn.reply[0].Sent?
    ensures r.packetType == PUBREC && r.turn.job.Release? && more == all[4..]
    ensures r.turn.reply == [Sent([98, 2, all[2], all[3]])] && !NotDone(r.packetType, r.turn.job, r.turn.reply)
  {
    var id := all[2] as int * 256 + all[3] as int;
    PubrecBegins(all, max);
    hide PacketReader.Happened, PacketReader.Reading.Whole, PacketReader.Reading.Packet, PacketReader.Begins, Brings,
         AckBytes, Type, Worked, Mild, Replies, NotDone;
    PacketReader.PacketIsRead(all, more, r.turn.reading, max, all[..4], all[2..4]);
    assert more == all[4..];
    ReleaseIsBrought(all[0], id, buf, r.turn.job);
    PubrecAnswered(r.turn, id);
  }

  lemma PubrecBegins(all: seq<byte>, max: nat)
    requires PubrecComes(all) && max >= 4
    ensures PacketReader.Begins(all, all[..4], all[2..4], max)
    ensures var id := all[2] as int * 256 + all[3] as int; all[..4] == [all[0], 2, id / 256, id % 256]
  {
    ShortIsFrame(all[0], all[2..4], all[4..], max);
    hide PacketReader.Begins;
    assert [all[0], 2] + all[2..4] == all[..4] && all[..4] + all[4..] == all;
  }

  lemma PubrecAnswered(turn: Turn, id: nat)
    requires turn.job == Release(id, false) && id < 65536 && Replies(turn.job, turn.reply)
    requires turn.reply != [] ==> turn.reply[0].Sent?
    ensures turn.reply == [Sent([98, 2, id / 256, id % 256])] && !NotDone(PUBREC, turn.job, turn.reply)
  {
    AnswersInBytes(Received(0, 0, 0, None, [], [], 0), id);
    hide AckBytes;
  }

  /** Nothing is left to interrupt the reads. */
  ghost predicate Unhurried(link: PacketReader.BlockingLink, shorts: nat)
    reads link
  {
    link.script == [] && link.shorts == shorts
  }

  /** The result that goes with a reading. */
  predicate Reports(r: PacketReader.Reading, max: nat, rc: int) {
    match r
    case NoHeader => rc <= 0
    case Header(header, _, _) =>
      rc == if !r.Fits(max) then BUFFER_OVERFLOW else if r.Whole(max) then Type(header) else 1
  }

  lemma FrameInBuffer(s: seq<byte>, header: byte, body: seq<byte>, max: nat)
    requires |body| <= MAX_REMAINING_LENGTH && max + 2 <= |s|
    requires PacketReader.FrameHead(header, |body|) + body <= s
             && |PacketReader.FrameHead(header, |body|)| + |body| <= max
    ensures Framed(s, max) && s != [] && s[0] == header
    ensures LengthReadable(s[1..], 0) && DecodeLength(s[1..], 0) == Length(|body|, |EncodeLength(|body|)|)
  {
    var len := EncodeLength(|body|);
    hide EncodeLength, LengthReadable, DecodeLength;
    var n := 1 + |len| + |body|;
    PacketReader.AfterHeader(s, header, len, body, s[n..]);
    RemainingLengthRoundTrip(|body|, body + s[n..]);
  }

  lemma FramedPublish(s: seq<byte>, max: nat)
    requires Framed(s, max)
    ensures InBounds(s)
  {
  }

  lemma CallsForMore(handlers: seq<nat>, h: nat, m: Received)
    ensures CallsFor(handlers + [h], m) == CallsFor(handlers, m) + [Call(h, m)]
  {
  }

  lemma ExplainsClean(log: seq<Entry>, t: seq<nat>, wire: seq<byte>)
    requires |t| == Qos2.MAX_INCOMING_QOS2_MESSAGES && Explains(log, t, wire)
    ensures Explains(log + [Cleaned], Empty(), wire)
  {
  }
}
