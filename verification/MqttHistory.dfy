/**
 What an MQTT client did, as a list of entries, and what such a list says about incoming QoS 2
 messages: which packet ids are held, what may be delivered, and what went over the wire.
 */
module MqttHistory {
  import opened Basics
  import opened MqttPacket
  import opened MqttPublish
  import PacketReader
  import Qos2 = Qos2Protocol

  datatype Entry =
    | Sent(packet: seq<byte>)                 // all bytes were handed to the network, as far as the client knows
    | Broken(packet: seq<byte>, count: nat)   // the client saw a failure; `count` bytes went out
    | Delivered(message: Received)
    | Cleaned                                 // the session state was discarded

  /** The entry records an attempt to send the packet. */
  predicate Attempt(e: Entry, packet: seq<byte>) {
    e == Sent(packet) || (e.Broken? && e.packet == packet && e.count <= |packet|)
  }

  function EntryBytes(e: Entry): seq<byte> {
    match e
    case Sent(packet) => packet
    case Broken(packet, count) => if count <= |packet| then packet[..count] else packet
    case _ => []
  }

  /** All bytes handed to the network. */
  function Wire(log: seq<Entry>): seq<byte> {
    if log == [] then [] else Wire(log[..|log| - 1]) + EntryBytes(log[|log| - 1])
  }

  // ---------------------------------------------------------------- the table of incoming ids

  function Empty(): Qos2.Table {
    [0, 0, 0, 0, 0, 0, 0, 0, 0, 0]
  }

  function Id(message: Received): nat {
    if message.id.Some? then message.id.value else 0
  }

  predicate IsPubcomp(packet: seq<byte>) {
    |packet| == 4 && Type(packet[0]) == PUBCOMP
  }

  lemma PubcompInBytes(packet: seq<byte>)
    ensures IsPubcomp(packet) <==> |packet| == 4 && 112 <= packet[0] < 128
  {
  }

  /** The effect of one entry on the table of incoming QoS 2 ids. */
  function TableStep(t: Qos2.Table, e: Entry): Qos2.Table {
    match e
    case Delivered(message) => if message.qos == 2 then Qos2.Replaced(t, 0, Id(message)) else t
    case Sent(packet) => if IsPubcomp(packet) then Qos2.Replaced(t, ReadInt(packet, 2), 0) else t
    case Broken(_, _) => t
    case Cleaned => Empty()
  }

  /** The table after a history. */
  function TableAfter(log: seq<Entry>): Qos2.Table {
    if log == [] then Empty() else TableStep(TableAfter(log[..|log| - 1]), log[|log| - 1])
  }

  /** A QoS 2 message may be delivered when its id is not held and a slot is free. */
  predicate MayDeliver(t: Qos2.Table, message: Received) {
    message.qos == 2 ==> Id(message) !in t && 0 in t
  }

  ghost predicate DeliveriesAllowed(log: seq<Entry>) {
    log != [] ==>
      && DeliveriesAllowed(log[..|log| - 1])
      && (log[|log| - 1].Delivered? ==> MayDeliver(TableAfter(log[..|log| - 1]), log[|log| - 1].message))
  }

  /** The history accounts for the table and for everything on the wire, and delivered only what it may. */
  ghost predicate Explains(log: seq<Entry>, t: seq<nat>, wire: seq<byte>) {
    t == TableAfter(log) && wire == Wire(log) && DeliveriesAllowed(log)
  }

  lemma ExplainsMore(log: seq<Entry>, e: Entry, t: Qos2.Table, wire: seq<byte>)
    requires Explains(log, t, wire) && (e.Delivered? ==> MayDeliver(t, e.message))
    ensures Explains(log + [e], TableStep(t, e), wire + EntryBytes(e))
  {
  }

  lemma AckEntry(packetType: nat, id: nat)
    requires packetType < 16 && id < 65536
    ensures IsPubcomp(AckBytes(packetType, 0, id)) <==> packetType == PUBCOMP
    ensures ReadInt(AckBytes(packetType, 0, id), 2) == id
  {
  }

  // ---------------------------------------------------------------- once only

  lemma {:induction false} TableIsDistinct(log: seq<Entry>)
    requires DeliveriesAllowed(log)
    ensures Qos2.Distinct(TableAfter(log))
  {
    if log != [] {
      var e, t := log[|log| - 1], TableAfter(log[..|log| - 1]);
      TableIsDistinct(log[..|log| - 1]);
      hide Qos2.Replaced, Qos2.Distinct;
      match e
      case Delivered(message) =>
        if message.qos == 2 {
          Qos2.UseAdds(t, Id(message));
        }
      case Sent(packet) =>
        if IsPubcomp(packet) {
          DistinctAfterFree(t, ReadInt(packet, 2));
        }
      case _ =>
        DistinctEmpty();
    }
  }

  lemma DistinctEmpty()
    ensures Qos2.Distinct(Empty())
  {
  }

  lemma DistinctAfterFree(t: Qos2.Table, id: nat)
    requires Qos2.Distinct(t)
    ensures Qos2.Distinct(Qos2.Replaced(t, id, 0))
  {
  }

  /** What ends the client's memory of an id: its PUBCOMP was sent, or the session was discarded. */
  predicate Forgets(e: Entry, id: nat) {
    e.Cleaned? || (e.Sent? && IsPubcomp(e.packet) && ReadInt(e.packet, 2) == id)
  }

  /** An id stays in the table until something ends the memory of it. */
  lemma {:induction false} StaysHeld(log: seq<Entry>, i: nat, id: nat)
    requires DeliveriesAllowed(log) && i < |log| && id != 0
    requires log[i].Delivered? && log[i].message.qos == 2 && Id(log[i].message) == id
    requires forall k :: i < k < |log| ==> !Forgets(log[k], id)
    ensures id in TableAfter(log)
  {
    var e, before := log[|log| - 1], log[..|log| - 1];
    TableIsDistinct(before);
    hide Qos2.Replaced, Qos2.Distinct;
    if i < |log| - 1 {
      StaysHeld(before, i, id);
      assert !Forgets(e, id);
      if e.Sent? && IsPubcomp(e.packet) {
        var other := ReadInt(e.packet, 2);
        if other == 0 {
          FreeingZero(TableAfter(before));
        } else {
          Qos2.FreeRemoves(TableAfter(before), other);
        }
      }
    }
    if e.Delivered? && e.message.qos == 2 {
      Qos2.UseAdds(TableAfter(before), Id(e.message));
    }
  }

  lemma FreeingZero(t: Qos2.Table)
    ensures Qos2.Replaced(t, 0, 0) == t
  {
  }

  lemma {:induction false} AllowedBefore(log: seq<Entry>, j: nat)
    requires DeliveriesAllowed(log) && j < |log|
    ensures DeliveriesAllowed(log[..j])
    ensures log[j].Delivered? ==> MayDeliver(TableAfter(log[..j]), log[j].message)
  {
    if j < |log| - 1 {
      AllowedBefore(log[..|log| - 1], j);
      assert log[..|log| - 1][..j] == log[..j];
    }
  }

  /**
   Between two deliveries of QoS 2 messages with the same packet id, a PUBCOMP for that id was sent
   or the session was discarded.
   */
  lemma NoSecondDelivery(log: seq<Entry>, i: nat, j: nat)
    requires DeliveriesAllowed(log) && i < j < |log|
    requires log[i].Delivered? && log[i].message.qos == 2 && log[j].Delivered? && log[j].message.qos == 2
    requires Id(log[i].message) == Id(log[j].message)
    ensures exists k :: i < k < j && Forgets(log[k], Id(log[j].message))
  {
    var id := Id(log[j].message);
    hide DeliveriesAllowed, TableAfter, Forgets;
    AllowedBefore(log, j);
    if forall k :: i < k < j ==> !Forgets(log[k], id) {
      StaysHeld(log[..j], i, id);
      assert false;
    }
  }

  // ---------------------------------------------------------------- the work one packet brings

  /** What an incoming packet asks of the client; `completes` tells a PUBREL from a PUBREC. */
  datatype Job = Nothing | Message(m: Received) | Release(id: nat, completes: bool)

  /** The packet that answers it. */
  function Answer(job: Job): Option<seq<byte>> {
    match job
    case Nothing => None
    case Message(m) =>
      if m.qos == 1 then Some(AckBytes(PUBACK, 0, Id(m)))
      else if m.qos == 2 then Some(AckBytes(PUBREC, 0, Id(m)))
      else None
    case Release(id, completes) => Some(AckBytes(if completes then PUBCOMP else PUBREL, 0, id))
  }

  /** The answers in bytes: PUBACK or PUBREC to a message, PUBCOMP to a PUBREL and PUBREL to a PUBREC. */
  lemma AnswersInBytes(m: Received, id: nat)
    requires Id(m) < 65536 && id < 65536
    ensures m.qos == 0 ==> Answer(Message(m)) == None
    ensures m.qos == 1 ==> Answer(Message(m)) == Some([64, 2, Id(m) / 256, Id(m) % 256])
    ensures m.qos == 2 ==> Answer(Message(m)) == Some([80, 2, Id(m) / 256, Id(m) % 256])
    ensures Answer(Release(id, true)) == Some([112, 2, id / 256, id % 256])
    ensures Answer(Release(id, false)) == Some([98, 2, id / 256, id % 256])
  {
    AckInBytes(0, Id(m));
    AckInBytes(0, id);
    hide AckBytes;
  }

  /** The delivery it causes, if any. */
  function Handed(t: Qos2.Table, job: Job): (handed: seq<Entry>)
    ensures handed != [] ==> job.Message? && handed == [Delivered(job.m)] && MayDeliver(t, job.m)
    ensures handed == [] && job.Message? ==> !MayDeliver(t, job.m)
  {
    if job.Message? && MayDeliver(t, job.m) then [Delivered(job.m)] else []
  }

  predicate Replies(job: Job, reply: seq<Entry>) {
    match Answer(job)
    case None => reply == []
    case Some(packet) => |reply| == 1 && Attempt(reply[0], packet)
  }

  /** The job is the one that the packet in the read buffer brings; fields the parser leaves unset are arbitrary. */
  predicate Brings(buf: seq<byte>, packetType: int, job: Job) {
    if packetType == PUBLISH then
      InBounds(buf) && AckInBounds(buf) &&
      if ReturnCode(buf) != 1 then job == Nothing
      else
        && job.Message? && job.m.qos == Qos(buf[0]) && Id(job.m) < 65536
        && (Parse(buf).Some? ==> job.m == Parse(buf).value)
    else if packetType == PUBREC || packetType == PUBREL then
      AckInBounds(buf) &&
      if AckCode(buf) != 1 then job == Nothing
      else
        job.Release? && job.id < 65536 && job.completes == (packetType == PUBREL)
        && (ParseAck(buf).id.Some? ==> job.id == ParseAck(buf).id.value)
    else job == Nothing
  }

  // ---------------------------------------------------------------- the step of the protocol

  function UpBytes(x: Qos2.Up): seq<byte> {
    match x
    case Pubrec(id) => AckBytes(PUBREC, 0, id)
    case Pubcomp(id) => AckBytes(PUBCOMP, 0, id)
  }

  predicate Carries(job: Job, x: Qos2.Down) {
    match x
    case Publish(id, _) => job.Message? && job.m.qos == 2 && Id(job.m) == id
    case Pubrel(id) => job == Release(id, true)
  }

  /**
   One packet handled by the client is one client step of the protocol: the same table, a delivery
   exactly when the protocol delivers, and the acknowledgement the protocol sends.
   */
  lemma FollowsProtocol(log: seq<Entry>, s: Qos2.System, job: Job, answer: Entry, sending: Qos2.Sending)
    requires s.down != [] && 0 < s.down[0].id < 65536 && Carries(job, s.down[0])
    requires Replies(job, [answer]) && (sending.Sent? <==> answer.Sent?)
    ensures Handed(s.table, job) != [] ==> s.down[0].Publish?
    ensures var s' := Qos2.ClientStep(s, sending);
            && (TableAfter(log) == s.table ==> TableAfter(log + Handed(s.table, job) + [answer]) == s'.table)
            && s'.delivered == s.delivered + (if Handed(s.table, job) != [] then [s.down[0].m] else [])
            && (sending.Sent? ==> |s'.up| == |s.up| + 1 && s.up <= s'.up && answer == Sent(UpBytes(s'.up[|s.up|])))
  {
    hide Qos2.Replaced, TableAfter, TableStep, AckBytes;
    var x := s.down[0];
    var handed := Handed(s.table, job);
    TableAfterWork(log, handed, answer);
    ReplyStep(if handed == [] then s.table else TableStep(s.table, handed[0]), x, answer, sending.Sent?);
    HandedStep(s.table, x.id, job);
    assert s.up <= s.up + [Qos2.Pubrec(x.id)] && s.up <= s.up + [Qos2.Pubcomp(x.id)];
  }

  lemma TableAfterWork(log: seq<Entry>, handed: seq<Entry>, e: Entry)
    requires |handed| <= 1
    ensures TableAfter(log + handed + [e]) ==
            TableStep(if handed == [] then TableAfter(log) else TableStep(TableAfter(log), handed[0]), e)
  {
    var log1 := log + handed;
    if handed != [] {
      assert log1[..|log|] == log;
    } else {
      assert log1 == log;
    }
    assert (log1 + [e])[..|log1|] == log1;
  }

  lemma ReplyStep(t: Qos2.Table, x: Qos2.Down, e: Entry, sent: bool)
    requires x.id < 65536 && (sent <==> e.Sent?)
             && Attempt(e, AckBytes(if x.Publish? then PUBREC else PUBCOMP, 0, x.id))
    ensures TableStep(t, e) == if x.Pubrel? && sent then Qos2.Replaced(t, x.id, 0) else t
  {
    AckEntry(if x.Publish? then PUBREC else PUBCOMP, x.id);
  }

  lemma HandedStep(t: Qos2.Table, id: nat, job: Job)
    requires job.Message? ==> job.m.qos == 2 && Id(job.m) == id
    ensures Handed(t, job) != [] ==> TableStep(t, Handed(t, job)[0]) == Qos2.Replaced(t, 0, id)
  {
  }

  // ---------------------------------------------------------------- what the client does, turn by turn

  /**
   One turn of the client: the packet it read, if any, and whether a read was short; the job that packet
   brings and the answer to it; and what else it sent or gave up. `failed` tells that the turn ended in
   a failure. Packets that the client sends of its own accord are turns that read nothing.
   */
  datatype Turn = Turn(reading: PacketReader.Reading, short: bool, job: Job, reply: seq<Entry>, rest: seq<Entry>,
                       failed: bool)

  /** The client sends something, or discards its session, without having read anything. */
  function Own(entries: seq<Entry>): (turn: Turn)
    ensures turn.rest == entries && turn.reading.NoHeader?
  {
    Turn(PacketReader.NoHeader, true, Nothing, [], entries, false)
  }

  function Turned(log: seq<Entry>, turn: Turn): seq<Entry> {
    log + Handed(TableAfter(log), turn.job) + turn.reply + turn.rest
  }

  /** The history after some turns. */
  function LogAfter(log: seq<Entry>, turns: seq<Turn>): seq<Entry> {
    if turns == [] then log else Turned(LogAfter(log, turns[..|turns| - 1]), turns[|turns| - 1])
  }

  /** Entries that neither deliver nor take an id off the table. */
  ghost predicate Mild(entries: seq<Entry>) {
    forall i :: 0 <= i < |entries| ==>
      !entries[i].Delivered? && (entries[i].Sent? ==> !IsPubcomp(entries[i].packet))
  }

  /** The job is brought by the packet that was read; without a whole packet there is none. */
  ghost predicate Worked(reading: PacketReader.Reading, job: Job, max: nat) {
    if reading.Whole(max) then exists buf :: reading.Packet() <= buf && Brings(buf, Type(reading.header), job)
    else job == Nothing
  }

  ghost predicate Allowed(turn: Turn, max: nat) {
    && Worked(turn.reading, turn.job, max) && Replies(turn.job, turn.reply) && Mild(turn.rest)
    && (turn.job.Message? ==> Id(turn.job.m) < 65536) && (turn.job.Release? ==> turn.job.id < 65536)
  }

  /** No packet was read in part only. */
  ghost predicate Unbroken(turns: seq<Turn>) {
    forall i :: 0 <= i < |turns| && turns[i].reading.Header? ==> !turns[i].short
  }

  /** The turns took the stream from `all` to `more`, each by reading at most one packet off its front. */
  ghost predicate Ran(all: seq<byte>, more: seq<byte>, turns: seq<Turn>, max: nat)
    decreases |turns|
  {
    if turns == [] then all == more
    else
      var last := turns[|turns| - 1];
      var before := last.reading.Taken() + more;
      && Allowed(last, max) && PacketReader.Happened(before, more, last.reading, max, last.short)
      && Ran(all, before, turns[..|turns| - 1], max)
  }

  /** The session was not discarded. */
  ghost predicate Kept(turns: seq<Turn>) {
    forall i :: 0 <= i < |turns| ==> Cleaned !in turns[i].rest
  }

  lemma {:induction false} HistoryGrows(log: seq<Entry>, turns: seq<Turn>)
    ensures log <= LogAfter(log, turns)
    decreases |turns|
  {
    hide TableAfter, Handed;
    if turns != [] {
      HistoryGrows(log, turns[..|turns| - 1]);
    }
  }

  /** What a turn puts on the wire. */
  lemma WireOfTurn(log: seq<Entry>, turn: Turn)
    requires |turn.reply| <= 1 && turn.rest == []
    ensures Wire(Turned(log, turn)) == Wire(log) + if turn.reply == [] then [] else EntryBytes(turn.reply[0])
  {
    hide TableAfter;
    var handed := Handed(TableAfter(log), turn.job);
    var worked := log + handed;
    if handed != [] {
      assert worked[..|log|] == log && worked[|log|] == handed[0];
      assert Wire(log) + [] == Wire(log);
    } else {
      assert worked == log;
    }
    if turn.reply == [] {
      assert Turned(log, turn) == worked && Wire(log) + [] == Wire(log);
    } else {
      assert Turned(log, turn) == worked + [turn.reply[0]];
      assert (worked + [turn.reply[0]])[..|worked|] == worked;
    }
  }

  /** What a message does to the table: at QoS 2 its id takes the first free slot when it is delivered. */
  lemma TableOfMessage(log: seq<Entry>, turn: Turn)
    requires turn.job.Message? && Id(turn.job.m) < 65536 && Replies(turn.job, turn.reply) && turn.rest == []
    requires turn.job.m.qos < 3
    ensures var t := TableAfter(log);
            TableAfter(Turned(log, turn)) ==
              if turn.job.m.qos == 2 && MayDeliver(t, turn.job.m) then Qos2.Replaced(t, 0, Id(turn.job.m)) else t
  {
    hide TableAfter, AckBytes, Qos2.Replaced;
    var t, job := TableAfter(log), turn.job;
    var handed := Handed(t, job);
    assert Turned(log, turn) == log + handed + turn.reply;
    if job.m.qos == 2 {
      assert turn.reply == [turn.reply[0]];
      TableAfterWork(log, handed, turn.reply[0]);
      ReplyStep(if handed == [] then t else TableStep(t, handed[0]), Qos2.Publish(Id(job.m), 0), turn.reply[0],
                turn.reply[0].Sent?);
      HandedStep(t, Id(job.m), job);
    } else {
      OtherWorkIsQuiet(log, job, turn.reply);
    }
  }

  /** What a PUBREL does to the table once its PUBCOMP is sent, and that a PUBREC does nothing. */
  lemma TableOfRelease(log: seq<Entry>, turn: Turn)
    requires turn.job.Release? && turn.job.id < 65536 && Replies(turn.job, turn.reply) && turn.rest == []
    requires turn.reply != [] ==> turn.reply[0].Sent?
    ensures TableAfter(Turned(log, turn)) ==
            if turn.job.completes then Qos2.Replaced(TableAfter(log), turn.job.id, 0) else TableAfter(log)
  {
    hide TableAfter, AckBytes, Qos2.Replaced;
    var t, job := TableAfter(log), turn.job;
    assert Turned(log, turn) == log + [] + turn.reply;
    if job.completes {
      assert turn.reply == [turn.reply[0]];
      TableAfterWork(log, [], turn.reply[0]);
      ReplyStep(t, Qos2.Pubrel(job.id), turn.reply[0], true);
    } else {
      OtherWorkIsQuiet(log, job, turn.reply);
    }
  }

  lemma OneTurn(log: seq<Entry>, all: seq<byte>, more: seq<byte>, turn: Turn, max: nat)
    requires Allowed(turn, max) && PacketReader.Happened(all, more, turn.reading, max, turn.short)
    ensures LogAfter(log, [turn]) == Turned(log, turn) && Ran(all, more, [turn], max)
    ensures (Kept([turn]) <==> Cleaned !in turn.rest) && (Unbroken([turn]) <==> turn.reading.NoHeader? || !turn.short)
  {
    assert all == turn.reading.Taken() + more;
    hide Allowed, Turned, PacketReader.Happened, PacketReader.Reading.Taken;
    var none := [turn][..0];
    assert Ran(all, all, none, max) && LogAfter(log, none) == log;
    assert [turn][..|[turn]| - 1] == none;
  }

  lemma OwnTurn(log: seq<Entry>, all: seq<byte>, entries: seq<Entry>, max: nat)
    requires Mild(entries)
    ensures LogAfter(log, [Own(entries)]) == log + entries && Ran(all, all, [Own(entries)], max)
    ensures (Kept([Own(entries)]) <==> Cleaned !in entries) && Unbroken([Own(entries)])
  {
    var turn := Own(entries);
    assert [turn][..0] == [];
    assert turn.reading.Taken() + all == all;
    assert Turned(log, turn) == log + [] + [] + entries == log + entries;
  }

  /** More turns after some. */
  lemma {:induction false} RunsJoin(log: seq<Entry>, all: seq<byte>, mid: seq<byte>, more: seq<byte>,
                                    a: seq<Turn>, b: seq<Turn>, max: nat)
    requires Ran(all, mid, a, max) && Ran(mid, more, b, max)
    ensures LogAfter(log, a + b) == LogAfter(LogAfter(log, a), b) && Ran(all, more, a + b, max)
    ensures (Kept(a + b) <==> Kept(a) && Kept(b)) && (Unbroken(a) && Unbroken(b) ==> Unbroken(a + b))
    decreases |b|
  {
    hide Allowed, PacketReader.Happened, PacketReader.Reading.Taken, Turned;
    if b == [] {
      assert a + b == a;
    } else {
      var most, last := b[..|b| - 1], b[|b| - 1];
      RunsJoin(log, all, mid, last.reading.Taken() + more, a, most, max);
      assert (a + b)[..|a + b| - 1] == a + most && (a + b)[|a + b| - 1] == last;
      assert Kept(b) <==> Kept(most) && Cleaned !in last.rest by { KeptLast(b); }
      KeptLast(a + b);
    }
  }

  lemma KeptLast(turns: seq<Turn>)
    requires turns != []
    ensures Kept(turns) <==> Kept(turns[..|turns| - 1]) && Cleaned !in turns[|turns| - 1].rest
  {
    forall i | 0 <= i < |turns|
      ensures Kept(turns[..|turns| - 1]) && Cleaned !in turns[|turns| - 1].rest ==> Cleaned !in turns[i].rest
    {
      if i < |turns| - 1 {
        assert turns[..|turns| - 1][i] == turns[i];
      }
    }
  }

  /** Turns that read no packet in part, on a stream of packets, take them off one by one. */
  lemma {:induction false} TurnsTakePackets(packets: seq<seq<byte>>, more: seq<byte>, turns: seq<Turn>, max: nat)
    returns (n: nat)
    requires PacketReader.AllWellFormed(packets, max) && Ran(PacketReader.Stream(packets), more, turns, max)
    requires Unbroken(turns)
    ensures n <= |packets| && more == PacketReader.Stream(packets[n..])
    ensures turns != [] && turns[|turns| - 1].reading.Header? ==>
              n > 0 && turns[|turns| - 1].reading.Whole(max) && turns[|turns| - 1].reading.Packet() == packets[n - 1]
    decreases |turns|
  {
    hide Allowed, PacketReader.Happened, PacketReader.Reading.Whole, PacketReader.Reading.Packet,
         PacketReader.IsFrame;
    if turns == [] {
      n := 0;
      assert packets[0..] == packets;
    } else {
      var last := turns[|turns| - 1];
      var before := last.reading.Taken() + more;
      n := TurnsTakePackets(packets, before, turns[..|turns| - 1], max);
      if last.reading.Header? {
        if n == |packets| {
          assert false;
        }
        var left := packets[n..];
        assert packets[n..][1..] == packets[n + 1..];
        FirstOfStream(left, before, more, last, max);
        n := n + 1;
      } else {
        assert before == more;
      }
    }
  }

  lemma FirstOfStream(packets: seq<seq<byte>>, before: seq<byte>, more: seq<byte>, turn: Turn, max: nat)
    requires packets != [] && PacketReader.WellFormed(packets[0], max) && before == PacketReader.Stream(packets)
    requires PacketReader.Happened(before, more, turn.reading, max, turn.short) && turn.reading.Header? && !turn.short
    ensures turn.reading.Whole(max) && turn.reading.Packet() == packets[0] && more == PacketReader.Stream(packets[1..])
  {
    hide PacketReader.IsFrame, PacketReader.Happened, PacketReader.Reading.Whole, PacketReader.Reading.Packet;
    var p := packets[0];
    var body :| PacketReader.IsFrame(p, body);
    assert p <= before;
    PacketReader.PacketIsRead(before, more, turn.reading, max, p, body);
    assert before[|p|..] == more;
  }

  // ---------------------------------------------------------------- the bytes on the link

  /** A packet on its way to the client: one of the protocol, with its dup flag, or any other. */
  datatype Item = Copy(x: Qos2.Down, dup: nat) | Other(packet: seq<byte>)

  /** Message `m` of the broker, under a packet id. */
  function Numbered(c: Publish, id: nat, dup: nat): Publish {
    c.(dup := dup, qos := 2, id := id)
  }

  /** A packet of the protocol in bytes; `content` says what the broker's messages are. */
  function ItemBytes(item: Item, content: nat -> Publish): seq<byte> {
    match item
    case Copy(Publish(id, m), dup) => Numbered(content(m), id, dup).Bytes()
    case Copy(Pubrel(id), dup) => AckBytes(PUBREL, dup, id)
    case Other(packet) => packet
  }

  /** The header byte is that of a PUBREL or of a PUBLISH with QoS 2. */
  predicate OfProtocol(header: byte) {
    Type(header) == PUBREL || (Type(header) == PUBLISH && Qos(header) == 2)
  }

  /** The packet is well formed and fits the read buffer; only those of the protocol are about QoS 2 messages. */
  ghost predicate ItemOk(item: Item, content: nat -> Publish, max: nat) {
    && |ItemBytes(item, content)| <= max
    && match item
       case Copy(x, dup) =>
         0 < x.id < 65536 && dup < 2 && (x.Publish? ==> Numbered(content(x.m), x.id, dup).Valid())
       case Other(packet) => packet != [] && !OfProtocol(packet[0]) && exists body :: PacketReader.IsFrame(packet, body)
  }

  /** The packets of the protocol among all those on the link. */
  function OfQos2(link: seq<Item>): seq<Qos2.Down> {
    if link == [] then [] else (if link[0].Copy? then [link[0].x] else []) + OfQos2(link[1..])
  }

  lemma {:induction false} OtherJoins(link: seq<Item>, packet: seq<byte>)
    ensures OfQos2(link + [Other(packet)]) == OfQos2(link)
    decreases |link|
  {
    if link == [] {
      assert (link + [Other(packet)])[1..] == [];
    } else {
      OtherJoins(link[1..], packet);
      assert (link + [Other(packet)])[1..] == link[1..] + [Other(packet)];
    }
  }

  // ---------------------------------------------------------------- one packet read

  /** What the parser makes of a PUBLISH. */
  function AsReceived(p: Publish): Received {
    Received(p.dup, p.qos, p.retain, if p.qos > 0 then Some(p.id) else None, p.topic, p.payload, |p.payload|)
  }

  /** The job is about an incoming QoS 2 message. */
  predicate Concerns(job: Job) {
    (job.Message? && job.m.qos == 2) || (job.Release? && job.completes)
  }

  lemma ItemBegins(item: Item, content: nat -> Publish, max: nat, all: seq<byte>) returns (body: seq<byte>)
    requires ItemOk(item, content, max) && ItemBytes(item, content) <= all
    ensures PacketReader.Begins(all, ItemBytes(item, content), body, max)
  {
    hide Header, Int16, OfProtocol, Field;
    match item
    case Copy(Publish(id, m), dup) =>
      body := Numbered(content(m), id, dup).Body();
    case Copy(Pubrel(id), dup) =>
      body := Int16(id);
      assert EncodeLength(2) == [2];
    case Other(packet) =>
      body :| PacketReader.IsFrame(packet, body);
  }

  /** From a stream that begins with an item, without a short read, that item is read and nothing else. */
  lemma ItemIsRead(item: Item, content: nat -> Publish, max: nat, all: seq<byte>, more: seq<byte>,
                   r: PacketReader.Reading)
    requires ItemOk(item, content, max) && ItemBytes(item, content) <= all
    requires PacketReader.Happened(all, more, r, max, false)
    ensures r.Header? && r.Whole(max) && r.Packet() == ItemBytes(item, content)
            && all == ItemBytes(item, content) + more
  {
    hide ItemOk, ItemBytes, PacketReader.Begins, PacketReader.Happened, PacketReader.Reading.Whole,
         PacketReader.Reading.Packet;
    var body := ItemBegins(item, content, max, all);
    PacketReader.PacketIsRead(all, more, r, max, ItemBytes(item, content), body);
  }

  /** The job that a copy brings is its message, with all its content, or its release. */
  lemma CopyBrings(x: Qos2.Down, dup: nat, content: nat -> Publish, max: nat, buf: seq<byte>, packetType: int, job: Job)
    requires ItemOk(Copy(x, dup), content, max) && ItemBytes(Copy(x, dup), content) <= buf
    requires Brings(buf, packetType, job) && packetType == Type(ItemBytes(Copy(x, dup), content)[0])
    ensures job == match x
                   case Publish(id, m) => Message(AsReceived(Numbered(content(m), id, dup)))
                   case Pubrel(id) => Release(id, true)
  {
    var bytes := ItemBytes(Copy(x, dup), content);
    var rest := buf[|bytes|..];
    assert buf == bytes + rest;
    match x
    case Publish(id, m) =>
      var p := Numbered(content(m), id, dup);
      HeaderFields(PUBLISH, p.dup, p.qos, p.retain);
      hide Type, Qos, Header, Publish.Bytes, Publish.Valid, Parse, ReturnCode, InBounds, AckInBounds, ParseAck,
           AckCode;
      assert bytes[0] == Header(PUBLISH, p.dup, p.qos, p.retain) by { PublishStarts(p); }
      PublishRoundTrip(p, rest);
    case Pubrel(id) =>
      HeaderFields(PUBREL, dup, 1, 0);
      hide Type, Header, Parse, ReturnCode, InBounds, AckInBounds, ParseAck, AckCode, Int16;
      AckRoundTrip(PUBREL, dup, id, rest);
  }

  /** Any PUBLISH that was read brings its message. */
  lemma MessageIsBrought(p: Publish, buf: seq<byte>, job: Job)
    requires p.Valid() && p.Bytes() <= buf && Brings(buf, PUBLISH, job)
    ensures job == Message(AsReceived(p)) && Type(buf[0]) == PUBLISH
  {
    var rest := buf[|p.Bytes()|..];
    assert buf == p.Bytes() + rest;
    HeaderFields(PUBLISH, p.dup, p.qos, p.retain);
    PublishStarts(p);
    hide Type, Qos, Header, Publish.Bytes, Parse, ReturnCode, InBounds, AckInBounds, ParseAck, AckCode;
    PublishRoundTrip(p, rest);
  }

  lemma PublishStarts(p: Publish)
    ensures p.Bytes() != [] && p.Bytes()[0] == Header(PUBLISH, p.dup, p.qos, p.retain)
  {
  }

  /** Any other packet brings no job about a QoS 2 message. */
  lemma OtherBrings(buf: seq<byte>, packetType: int, job: Job)
    requires buf != [] && Brings(buf, packetType, job) && packetType == Type(buf[0]) && !OfProtocol(buf[0])
    ensures !Concerns(job)
  {
  }

  /** What became of the answer. */
  function SendingOf(reply: seq<Entry>): Qos2.Sending {
    if reply == [] then Qos2.NotSent
    else if !reply[0].Broken? then Qos2.Sent
    else if reply[0].count == |reply[0].packet| then Qos2.SentUnnoticed
    else Qos2.NotSent
  }

  /** What the application sees of a message: copies differ in the dup flag and the packet id only. */
  function Original(m: Received): Received {
    m.(dup := 0, id := None)
  }

  /** The same for the broker's message. */
  function Seen(c: Publish): Received {
    Original(AsReceived(Numbered(c, 0, 0)))
  }

  /** The client's messages of QoS 2 in the order of delivery. */
  function Deliveries(log: seq<Entry>): seq<Received> {
    if log == [] then []
    else
      var e := log[|log| - 1];
      Deliveries(log[..|log| - 1]) + if e.Delivered? && e.message.qos == 2 then [e.message] else []
  }

  /** Protocol, packets on the link, and the bytes that the client is still going to get. */
  datatype World = World(system: Qos2.System, link: seq<Item>, unread: seq<byte>)

  /** A step of broker or link, another packet sent to the client, or a turn of the client. */
  datatype Move = Outside(action: Qos2.Action) | Also(packet: seq<byte>) | Inside(turn: Turn)

  /**
   What broker and link do. A broken link keeps some first part of what was on it. A turn of the client
   either reads nothing, or its stream begins with the next packet on the link and no read is short.
   What a turn does to the protocol is what the client does with a packet of the protocol.
   */
  ghost predicate Moves(w: World, w': World, move: Move, content: nat -> Publish, max: nat) {
    match move
    case Outside(a) =>
      && !a.ClientReceives? && Qos2.Enabled(w.system, a) && w'.system == Qos2.Next(w.system, a) && w'.unread == w.unread
      && (if a.Break? || a.Reconnect? then w'.link <= w.link else w.link <= w'.link)
      && OfQos2(w'.link) == w'.system.down && forall item :: item in w'.link ==> ItemOk(item, content, max)
    case Also(packet) =>
      w' == w.(link := w.link + [Other(packet)]) && ItemOk(Other(packet), content, max)
    case Inside(turn) =>
      && w.unread == turn.reading.Taken() + w'.unread
      && if turn.reading.NoHeader? then w'.system == w.system && w'.link == w.link
         else
           && w.link != [] && ItemBytes(w.link[0], content) <= w.unread && !turn.short && w'.link == w.link[1..]
           && w'.system == if w.link[0].Copy? && w.system.down != []
                           then Qos2.ClientStep(w.system, SendingOf(turn.reply)) else w.system
  }

  /** The client's table is the protocol's, and its deliveries are the protocol's, message by message. */
  ghost predicate Mirrors(log: seq<Entry>, s: Qos2.System, content: nat -> Publish) {
    && TableAfter(log) == s.table && |Deliveries(log)| == |s.delivered|
    && forall k :: 0 <= k < |s.delivered| ==> Original(Deliveries(log)[k]) == Seen(content(s.delivered[k]))
  }

  /** The protocol's packets on the link are those of its state, and all are well formed. */
  ghost predicate Coherent(w: World, content: nat -> Publish, max: nat) {
    OfQos2(w.link) == w.system.down && forall item :: item in w.link ==> ItemOk(item, content, max)
  }

  lemma {:induction false} MildAdds(log: seq<Entry>, entries: seq<Entry>)
    requires Mild(entries) && Cleaned !in entries
    ensures TableAfter(log + entries) == TableAfter(log) && Deliveries(log + entries) == Deliveries(log)
    decreases |entries|
  {
    if entries == [] {
      assert log + entries == log;
    } else {
      var most := entries[..|entries| - 1];
      MildAdds(log, most);
      assert (log + entries)[..|log + entries| - 1] == log + most;
      assert entries[|entries| - 1] != Cleaned && !entries[|entries| - 1].Delivered?;
    }
  }

  /** Delivery and answer of one turn, on the list of deliveries. */
  lemma WorkDelivers(log: seq<Entry>, job: Job, reply: seq<Entry>)
    requires Replies(job, reply)
    ensures var handed := Handed(TableAfter(log), job);
            Deliveries(log + handed + reply) ==
            Deliveries(log) + if handed != [] && job.m.qos == 2 then [job.m] else []
  {
    hide TableAfter, Answer, IsPubcomp;
    var handed := Handed(TableAfter(log), job);
    var log1 := log + handed;
    if handed != [] {
      assert log1[..|log|] == log && log1[|log|] == handed[0];
    } else {
      assert log1 == log;
    }
    if reply != [] {
      assert (log1 + reply)[..|log1|] == log1 && (log1 + reply)[|log1|] == reply[0];
    } else {
      assert log1 + reply == log1;
    }
  }

  lemma TableAfterOne(log: seq<Entry>, entries: seq<Entry>)
    requires |entries| <= 1
    ensures TableAfter(log + entries) ==
            if entries == [] then TableAfter(log) else TableStep(TableAfter(log), entries[0])
  {
    hide TableStep;
    if entries == [] {
      assert log + entries == log;
    } else {
      assert (log + entries)[..|log|] == log;
    }
  }

  lemma OtherAnswerIsQuiet(t: Qos2.Table, job: Job, e: Entry)
    requires !Concerns(job) && Answer(job).Some? && Attempt(e, Answer(job).value)
    requires (job.Message? ==> Id(job.m) < 65536) && (job.Release? ==> job.id < 65536)
    ensures TableStep(t, e) == t
  {
    hide AckBytes, IsPubcomp;
    AckEntry(PUBACK, if job.Message? then Id(job.m) else 0);
    AckEntry(PUBREL, if job.Release? then job.id else 0);
  }

  /** A turn that is not about a QoS 2 message leaves the table alone. */
  lemma OtherWorkIsQuiet(log: seq<Entry>, job: Job, reply: seq<Entry>)
    requires Replies(job, reply) && !Concerns(job)
    requires (job.Message? ==> Id(job.m) < 65536) && (job.Release? ==> job.id < 65536)
    ensures TableAfter(log + Handed(TableAfter(log), job) + reply) == TableAfter(log)
  {
    hide TableAfter, AckBytes, IsPubcomp, Attempt;
    var handed := Handed(TableAfter(log), job);
    TableAfterOne(log, handed);
    TableAfterOne(log + handed, reply);
    if reply != [] {
      OtherAnswerIsQuiet(TableAfter(log), job, reply[0]);
    }
  }

  lemma OutsideKeepsClient(s: Qos2.System, a: Qos2.Action)
    requires !a.ClientReceives? && Qos2.Enabled(s, a)
    ensures Qos2.Next(s, a).table == s.table && Qos2.Next(s, a).delivered == s.delivered
  {
  }

  /** A copy at the head of the link is taken as the protocol takes it, and its message is delivered or not. */
  lemma CopyMirrors(s: Qos2.System, log: seq<Entry>, job: Job, reply: seq<Entry>, dup: nat, content: nat -> Publish)
    requires s.down != [] && 0 < s.down[0].id < 65536 && Mirrors(log, s, content) && Qos2.Inv(s) && Replies(job, reply)
    requires job == match s.down[0]
                    case Publish(id, m) => Message(AsReceived(Numbered(content(m), id, dup)))
                    case Pubrel(id) => Release(id, true)
    ensures var s' := Qos2.ClientStep(s, SendingOf(reply));
            Mirrors(log + Handed(TableAfter(log), job) + reply, s', content) && Qos2.Inv(s')
  {
    hide TableAfter, Deliveries, Qos2.Inv, Qos2.ClientStep, AckBytes;
    var sending := SendingOf(reply);
    assert reply == [reply[0]];
    FollowsProtocol(log, s, job, reply[0], sending);
    WorkDelivers(log, job, reply);
    Qos2.NextKeeps(s, Qos2.ClientReceives(sending));
  }

  lemma OtherWorkDelivers(log: seq<Entry>, job: Job, reply: seq<Entry>)
    requires Replies(job, reply) && !Concerns(job)
    ensures Deliveries(log + Handed(TableAfter(log), job) + reply) == Deliveries(log)
  {
    hide TableAfter, Deliveries, Replies;
    WorkDelivers(log, job, reply);
  }

  /** Work that is not about a QoS 2 message changes nothing that the protocol knows of. */
  lemma OtherMirrors(s: Qos2.System, log: seq<Entry>, turn: Turn, content: nat -> Publish, max: nat)
    requires Mirrors(log, s, content) && Allowed(turn, max) && !Concerns(turn.job)
    ensures Mirrors(log + Handed(TableAfter(log), turn.job) + turn.reply, s, content)
  {
    hide TableAfter, Deliveries, Replies, Worked, Handed, Concerns;
    OtherWorkIsQuiet(log, turn.job, turn.reply);
    OtherWorkDelivers(log, turn.job, turn.reply);
  }

  /** The turn read the item at the head of the link, so that is what its job is about. */
  lemma HeadIsRead(item: Item, content: nat -> Publish, max: nat, all: seq<byte>, more: seq<byte>, turn: Turn)
    requires ItemOk(item, content, max) && ItemBytes(item, content) <= all && Allowed(turn, max)
    requires PacketReader.Happened(all, more, turn.reading, max, false)
    ensures match item
            case Copy(Publish(id, m), dup) => turn.job == Message(AsReceived(Numbered(content(m), id, dup)))
            case Copy(Pubrel(id), _) => turn.job == Release(id, true)
            case Other(_) => !Concerns(turn.job)
  {
    hide ItemBytes, PacketReader.Happened, Brings, Numbered, AsReceived, PacketReader.Reading.Whole,
         PacketReader.Reading.Packet;
    ItemIsRead(item, content, max, all, more, turn.reading);
    var buf :| turn.reading.Packet() <= buf && Brings(buf, Type(turn.reading.header), turn.job);
    assert ItemBytes(item, content)[0] == turn.reading.header == buf[0];
    match item
    case Copy(x, dup) =>
      CopyBrings(x, dup, content, max, buf, Type(turn.reading.header), turn.job);
    case Other(packet) =>
      assert ItemBytes(item, content) == packet by { OtherBytes(packet, content); }
      OtherBrings(buf, Type(turn.reading.header), turn.job);
  }

  lemma OtherBytes(packet: seq<byte>, content: nat -> Publish)
    ensures ItemBytes(Other(packet), content) == packet
  {
  }

  /** A turn of the client keeps it the client of the protocol, whatever it read. */
  lemma TurnMirrors(w: World, w': World, log: seq<Entry>, turn: Turn, content: nat -> Publish, max: nat)
    requires Moves(w, w', Inside(turn), content, max) && Coherent(w, content, max)
    requires Allowed(turn, max) && PacketReader.Happened(w.unread, w'.unread, turn.reading, max, turn.short)
    requires Cleaned !in turn.rest && Mirrors(log, w.system, content) && Qos2.Inv(w.system)
    ensures Mirrors(Turned(log, turn), w'.system, content) && Qos2.Inv(w'.system) && Coherent(w', content, max)
  {
    var worked := log + Handed(TableAfter(log), turn.job) + turn.reply;
    assert Turned(log, turn) == worked + turn.rest;
    MildAdds(worked, turn.rest);
    hide TableAfter, Deliveries, Qos2.Inv, Qos2.ClientStep, Replies, Handed, Concerns, ItemOk, ItemBytes, Turned,
         Mild, PacketReader.Happened, PacketReader.Reading.Taken;
    if turn.reading.NoHeader? {
      NothingRead(turn, max);
      OtherMirrors(w.system, log, turn, content, max);
    } else {
      var item := w.link[0];
      assert item in w.link;
      HeadIsRead(item, content, max, w.unread, w'.unread, turn);
      if item.Copy? {
        ItemId(item, content, max);
        CopyMirrors(w.system, log, turn.job, turn.reply, item.dup, content);
        ClientTakesHead(w.system, SendingOf(turn.reply));
      } else {
        OtherMirrors(w.system, log, turn, content, max);
      }
    }
  }

  lemma NothingRead(turn: Turn, max: nat)
    requires turn.reading.NoHeader? && Allowed(turn, max)
    ensures !Concerns(turn.job)
  {
  }

  lemma ItemId(item: Item, content: nat -> Publish, max: nat)
    requires item.Copy? && ItemOk(item, content, max)
    ensures 0 < item.x.id < 65536
  {
  }

  lemma ClientTakesHead(s: Qos2.System, sending: Qos2.Sending)
    requires s.down != []
    ensures Qos2.ClientStep(s, sending).down == s.down[1..]
  {
  }

  /** The turns among the moves. */
  function Turns(moves: seq<Move>): seq<Turn> {
    if moves == [] then []
    else Turns(moves[..|moves| - 1]) + if moves[|moves| - 1].Inside? then [moves[|moves| - 1].turn] else []
  }

  /** Broker, link and client from the start, move by move. */
  ghost predicate IsJointRun(worlds: seq<World>, moves: seq<Move>, content: nat -> Publish, max: nat) {
    && |worlds| == |moves| + 1 && worlds[0].system == Qos2.Initial() && worlds[0].link == []
    && forall i :: 0 <= i < |moves| ==> Moves(worlds[i], worlds[i + 1], moves[i], content, max)
  }

  /**
   In every joint run in which the client takes its turns as its methods promise, and keeps its session,
   its table and its deliveries are those of the protocol.
   */
  lemma {:induction false} JointRunMirrors(worlds: seq<World>, moves: seq<Move>, content: nat -> Publish, max: nat)
    requires IsJointRun(worlds, moves, content, max) && Kept(Turns(moves))
    requires Ran(worlds[0].unread, worlds[|moves|].unread, Turns(moves), max)
    ensures Mirrors(LogAfter([], Turns(moves)), worlds[|moves|].system, content) && Qos2.Inv(worlds[|moves|].system)
    ensures Coherent(worlds[|moves|], content, max)
    decreases |moves|
  {
    hide Mirrors, Moves, Coherent, Qos2.Inv, Allowed, PacketReader.Happened, PacketReader.Reading.Taken;
    if moves == [] {
      Qos2.InitialInv();
      StartMirrors(worlds[0], content, max);
    } else {
      var n := |moves| - 1;
      var w, w', most := worlds[n], worlds[n + 1], moves[..n];
      assert Turns(moves) == Turns(most) + if moves[n].Inside? then [moves[n].turn] else [];
      if moves[n].Inside? {
        var turns, turn := Turns(moves), moves[n].turn;
        assert turns[..|turns| - 1] == Turns(most) && turns[|turns| - 1] == turn;
        KeptLast(turns);
        assert w.unread == turn.reading.Taken() + w'.unread by { InsideReads(w, w', turn, content, max); }
        JointRunMirrors(worlds[..|moves|], most, content, max);
        TurnMirrors(w, w', LogAfter([], Turns(most)), turn, content, max);
      } else {
        assert Turns(moves) == Turns(most);
        assert w.unread == w'.unread by { OthersReadNothing(w, w', moves[n], content, max); }
        JointRunMirrors(worlds[..|moves|], most, content, max);
        OutsideMirrors(w, w', LogAfter([], Turns(most)), moves[n], content, max);
      }
    }
  }

  lemma InsideReads(w: World, w': World, turn: Turn, content: nat -> Publish, max: nat)
    requires Moves(w, w', Inside(turn), content, max)
    ensures w.unread == turn.reading.Taken() + w'.unread
  {
  }

  lemma OthersReadNothing(w: World, w': World, move: Move, content: nat -> Publish, max: nat)
    requires Moves(w, w', move, content, max) && !move.Inside?
    ensures w.unread == w'.unread
  {
  }

  lemma OutsideMirrors(w: World, w': World, log: seq<Entry>, move: Move, content: nat -> Publish, max: nat)
    requires Moves(w, w', move, content, max) && !move.Inside?
    requires Mirrors(log, w.system, content) && Qos2.Inv(w.system) && Coherent(w, content, max)
    ensures Mirrors(log, w'.system, content) && Qos2.Inv(w'.system) && Coherent(w', content, max)
  {
    hide TableAfter, Deliveries, Qos2.Inv, Qos2.Next, ItemOk, OfQos2;
    if move.Also? {
      OtherJoins(w.link, move.packet);
    } else {
      Qos2.NextKeeps(w.system, move.action);
      OutsideKeepsClient(w.system, move.action);
    }
  }

  lemma StartMirrors(w: World, content: nat -> Publish, max: nat)
    requires w.system == Qos2.Initial() && w.link == []
    ensures Mirrors([], w.system, content) && Coherent(w, content, max)
  {
  }

  /** What was delivered at QoS 2 are messages of the broker with all their content, each of them once. */
  ghost predicate OnceEach(log: seq<Entry>, numbers: seq<nat>, content: nat -> Publish) {
    && |Deliveries(log)| == |numbers|
    && (forall k :: 0 <= k < |numbers| ==> Original(Deliveries(log)[k]) == Seen(content(numbers[k])))
    && (forall k, l :: 0 <= k < l < |numbers| ==> numbers[k] != numbers[l])
  }

  /**
   In every joint run with the session kept: what the client delivers at QoS 2 are messages of the
   broker, with topic, payload and retain flag as the broker published them, and no two deliveries are
   of the same one. None is handed to the application twice.
   */
  lemma DeliveriesAreDifferent(worlds: seq<World>, moves: seq<Move>, content: nat -> Publish, max: nat, log: seq<Entry>)
    requires IsJointRun(worlds, moves, content, max) && Kept(Turns(moves)) && log == LogAfter([], Turns(moves))
    requires Ran(worlds[0].unread, worlds[|moves|].unread, Turns(moves), max)
    ensures OnceEach(log, worlds[|moves|].system.delivered, content)
  {
    hide Moves, Original, Seen, Ran, LogAfter, Kept;
    JointRunMirrors(worlds, moves, content, max);
    hide Deliveries, TableAfter;
    Qos2.DeliveredDiffer(worlds[|moves|].system);
  }

  /** A whole packet, read from a stream that holds just that. */
  lemma PublishHappens(p: Publish, max: nat)
    requires p.Valid() && |p.Bytes()| <= max
    ensures var r := PacketReader.Header(p.Bytes()[0], EncodeLength(p.RemLen()), p.Body());
            PacketReader.Happened(p.Bytes(), [], r, max, false) && r.Whole(max) && r.Packet() == p.Bytes()
  {
    var field, body := EncodeLength(p.RemLen()), p.Body();
    assert field + [] == field && body + [] == body && field + body + [] == field + (body + []);
    PacketReader.FourDigits();
    PacketReader.EncodingIsField(p.RemLen(), 4);
    PacketReader.EncodedFieldRead(p.RemLen(), 4, [], field, []);
    PublishStarts(p);
    hide EncodeLength, Publish.Body, PacketReader.Partial, PacketReader.Complete, Header;
    assert p.Bytes() == [p.Bytes()[0]] + field + body == [p.Bytes()[0]] + field + body + [];
  }

  lemma PublishBrings(p: Publish)
    requires p.Valid()
    ensures Brings(p.Bytes(), PUBLISH, Message(AsReceived(p))) && Type(p.Bytes()[0]) == PUBLISH
  {
    HeaderFields(PUBLISH, p.dup, p.qos, p.retain);
    PublishStarts(p);
    assert p.Bytes() + [] == p.Bytes();
    hide Header, Type, Qos, Publish.Bytes, Parse, ReturnCode, InBounds, LengthReadable, DecodeLength;
    PublishRoundTrip(p, []);
    PublishFrame(p, []);
  }

  /** The broker is connected and has offered message 0 under id 5. */
  function Offered(): Qos2.System {
    Qos2.System(map[5 := Qos2.Publishing(0)], [Qos2.Publish(5, 0)], [], true, Empty(), [], {}, 1, false, false)
  }

  lemma OfferedIsReached()
    ensures var s, a, b := Qos2.Initial(), Qos2.Reconnect(0), Qos2.Offer(5);
            && Qos2.Enabled(s, a) && Qos2.Next(s, a) == s.(connected := true)
            && Qos2.Enabled(s.(connected := true), b) && Qos2.Next(s.(connected := true), b) == Offered()
  {
    hide Empty;
    assert Qos2.Initial().table == Empty() by { EmptyInitially(); }
    assert [] + [Qos2.Publish(5, 0)] == [Qos2.Publish(5, 0)];
  }

  lemma EmptyInitially()
    ensures Qos2.Initial().table == Empty()
  {
  }

  lemma OfferedIsTaken()
    ensures var s := Qos2.ClientStep(Offered(), Qos2.Sent);
            s.delivered == [0] && s.down == []
  {
    hide Qos2.Replaced;
    assert Offered().table[0] == 0 && 5 !in Offered().table;
  }

  /** There are such runs: the broker connects, offers message 0, and the client reads and delivers it. */
  lemma OneMessageRun(content: nat -> Publish, max: nat) returns (worlds: seq<World>, moves: seq<Move>)
    requires var p := Numbered(content(0), 5, 0);
             p.Valid() && |p.Bytes()| <= max
    ensures IsJointRun(worlds, moves, content, max) && Kept(Turns(moves))
    ensures Ran(worlds[0].unread, worlds[|moves|].unread, Turns(moves), max)
    ensures worlds[|moves|].system.delivered == [0]
  {
    hide Publish.Bytes, Publish.Body, Publish.Valid, PacketReader.Happened, PacketReader.Reading.Whole, Qos2.Next,
         PacketReader.Reading.Packet, Brings, ItemBytes, ItemOk, EncodeLength, AckBytes, Qos2.ClientStep, Allowed,
         Qos2.Enabled, Turned, Ran, LogAfter, Publish.RemLen;
    var p := Numbered(content(0), 5, 0);
    var bytes, item := p.Bytes(), Copy(Qos2.Publish(5, 0), 0);
    FirstCopy(content, max);
    var turn := TurnFor(p, max);
    OneTurn([], bytes, [], turn, max);
    OfferedIsReached();
    OfferedIsTaken();
    var s := Qos2.Initial();
    moves := [Outside(Qos2.Reconnect(0)), Outside(Qos2.Offer(5)), Inside(turn)];
    worlds := [World(s, [], bytes), World(s.(connected := true), [], bytes), World(Offered(), [item], bytes),
               World(Qos2.ClientStep(Offered(), Qos2.Sent), [], [])];
    ThreeMoves(moves[0], moves[1], turn);
    assert [item][1..] == [] && bytes + [] == bytes && OfQos2([item]) == [item.x];
  }

  lemma FirstCopy(content: nat -> Publish, max: nat)
    requires var p := Numbered(content(0), 5, 0);
             p.Valid() && |p.Bytes()| <= max
    ensures var item := Copy(Qos2.Publish(5, 0), 0);
            ItemBytes(item, content) == Numbered(content(0), 5, 0).Bytes() && ItemOk(item, content, max)
  {
    hide Publish.Bytes, Publish.Valid, Numbered;
  }

  /** The turn in which the client reads a message of QoS 2 and answers it. */
  lemma TurnFor(p: Publish, max: nat) returns (turn: Turn)
    requires p.Valid() && p.qos == 2 && |p.Bytes()| <= max
    ensures Allowed(turn, max) && turn.reading.Header? && turn.reading.Taken() == p.Bytes() && !turn.short
    ensures PacketReader.Happened(p.Bytes(), [], turn.reading, max, false)
    ensures turn.rest == [] && |turn.reply| == 1 && turn.reply[0].Sent?
  {
    PublishHappens(p, max);
    PublishBrings(p);
    var r := PacketReader.Header(p.Bytes()[0], EncodeLength(p.RemLen()), p.Body());
    assert p.Bytes() == r.Taken() + [] == r.Taken();
    hide Publish.Bytes, PacketReader.Happened, PacketReader.Reading.Whole, PacketReader.Reading.Packet, EncodeLength,
         Publish.Body, Publish.Valid, AckBytes, Brings, PacketReader.Reading.Taken;
    turn := Turn(r, false, Message(AsReceived(p)), [Sent(AckBytes(PUBREC, 0, p.id))], [], false);
    assert r.Packet() <= p.Bytes() && Brings(p.Bytes(), Type(r.header), turn.job);
    assert p.id < 65536 by { ValidId(p); }
  }

  lemma ValidId(p: Publish)
    requires p.Valid()
    ensures p.id < 65536
  {
  }

  lemma ThreeMoves(a: Move, b: Move, turn: Turn)
    requires !a.Inside? && !b.Inside?
    ensures Turns([a, b, Inside(turn)]) == [turn]
  {
    var moves := [a, b, Inside(turn)];
    assert [a][..0] == [] && Turns([a]) == [];
    assert [a, b][..1] == [a] && Turns([a, b]) == [];
    assert moves[..2] == [a, b];
  }
}
