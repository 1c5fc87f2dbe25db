/**
 Reading packets off a byte stream. `ReadNb` is the resumable reader: it may be called at any time
 and take any number of bytes. A byte-at-a-time automaton is its reference, so that what it
 reports depends on the bytes it consumed and not on how they were cut into reads.
 */
module PacketReader {
  import opened Basics
  import opened MqttPacket

  // ---------------------------------------------------------------- the automaton

  /** One byte taken from the stream, or a read that failed. */
  datatype Input = Byte(b: byte) | Fault

  datatype Event = Packet(packetType: nat, bytes: seq<byte>) | Failed

  datatype State =
    | Idle
    | InLength(header: byte, len: nat, remLen: nat, multiplier: nat)
    | InBody(got: seq<byte>, left: nat)

  datatype Progress = Progress(state: State, events: seq<Event>)

  /** The whole length field was read: the packet is refused, complete, or its body follows. */
  function AfterLength(header: byte, remLen: nat, buflen: nat): Progress {
    var frame := [header] + EncodeLength(remLen);
    if |frame| + remLen > buflen then Progress(Idle, [Failed])
    else if remLen == 0 then Progress(Idle, [Packet(Type(header), frame)])
    else Progress(InBody(frame, remLen), [])
  }

  function Feed(s: State, x: Input, buflen: nat): Progress {
    if x.Fault? then Progress(Idle, [Failed])
    else
      match s
      case Idle => Progress(InLength(x.b, 0, 0, 1), [])
      case InLength(h, len, remLen, multiplier) =>
        var value := remLen + x.b % 128 * multiplier;
        if x.b < 128 then AfterLength(h, value, buflen)
        else if len + 1 >= MAX_NO_OF_REMAINING_LENGTH_BYTES then Progress(Idle, [Failed])
        else Progress(InLength(h, len + 1, value, multiplier * 128), [])
      case InBody(got, left) =>
        var bytes := got + [x.b];
        if left <= 1 then Progress(Idle, [Packet(Type(bytes[0]), bytes)])
        else Progress(InBody(bytes, left - 1), [])
  }

  function FeedAll(s: State, inputs: seq<Input>, buflen: nat): Progress
    decreases |inputs|
  {
    if inputs == [] then Progress(s, [])
    else
      var first := Feed(s, inputs[0], buflen);
      var rest := FeedAll(first.state, inputs[1..], buflen);
      Progress(rest.state, first.events + rest.events)
  }

  function Bytes(data: seq<byte>): (inputs: seq<Input>)
    ensures |inputs| == |data|
  {
    seq(|data|, i requires 0 <= i < |data| => Byte(data[i]))
  }

  lemma {:induction false} FeedConcat(s: State, a: seq<Input>, b: seq<Input>, buflen: nat)
    ensures var first := FeedAll(s, a, buflen);
            var rest := FeedAll(first.state, b, buflen);
            FeedAll(s, a + b, buflen) == Progress(rest.state, first.events + rest.events)
    decreases |a|
  {
    hide Feed;
    if a == [] {
      assert a + b == b;
    } else {
      FeedConcat(Feed(s, a[0], buflen).state, a[1..], b, buflen);
      assert (a + b)[1..] == a[1..] + b;
    }
  }

  lemma FeedOne(s: State, x: Input, buflen: nat)
    ensures FeedAll(s, [x], buflen) == Feed(s, x, buflen)
  {
  }

  lemma FeedMore(s: State, a: seq<Input>, x: Input, buflen: nat)
    requires FeedAll(s, a, buflen).events == []
    ensures FeedAll(s, a + [x], buflen) == Feed(FeedAll(s, a, buflen).state, x, buflen)
  {
    hide Feed;
    FeedConcat(s, a, [x], buflen);
    FeedOne(FeedAll(s, a, buflen).state, x, buflen);
  }

  /** A chunk that does not go beyond the body. */
  lemma {:induction false} FeedBody(got: seq<byte>, left: nat, data: seq<byte>, buflen: nat)
    requires got != [] && 0 < left && |data| <= left
    ensures FeedAll(InBody(got, left), Bytes(data), buflen) ==
            if |data| < left then Progress(InBody(got + data, left - |data|), [])
            else Progress(Idle, [Packet(Type(got[0]), got + data)])
    decreases |data|
  {
    if data == [] {
      assert got + data == got;
    } else {
      var x := data[0];
      assert Bytes(data)[1..] == Bytes(data[1..]);
      assert got + [x] + data[1..] == got + data;
      assert (got + [x])[0] == got[0];
      if left > 1 {
        FeedBody(got + [x], left - 1, data[1..], buflen);
      } else {
        assert data[1..] == [] && got + [x] == got + data;
      }
    }
  }

  // ---------------------------------------------------------------- well-formed packets

  /** A fixed header, a minimal length field and a body of that length, and it fits the buffer. */
  ghost predicate WellFormed(p: seq<byte>, buflen: nat) {
    p != [] && |p| <= buflen && exists body :: IsFrame(p, body)
  }

  ghost predicate AllWellFormed(packets: seq<seq<byte>>, buflen: nat) {
    forall i :: 0 <= i < |packets| ==> packets[i] != [] && WellFormed(packets[i], buflen)
  }

  predicate IsFrame(p: seq<byte>, body: seq<byte>) {
    p != [] && |body| <= MAX_REMAINING_LENGTH && p == [p[0]] + EncodeLength(|body|) + body
  }

  lemma {:induction false} FeedLength(h: byte, len: nat, remLen: nat, m: nat, n: nat, buflen: nat)
    requires len < 4 && n <= Capacity(4 - len)
    ensures FeedAll(InLength(h, len, remLen, m), Bytes(EncodeLength(n)), buflen) ==
              AfterLength(h, remLen + m * n, buflen)
    decreases n
  {
    hide AfterLength;
    var s := EncodeLength(n);
    assert Capacity(1) == 127;
    if n < 128 {
      assert Bytes(s) == [Byte(n)];
      FeedOne(InLength(h, len, remLen, m), Byte(n), buflen);
    } else {
      var rest := EncodeLength(n / 128);
      assert Bytes(s) == [Byte(s[0])] + Bytes(rest);
      FeedOne(InLength(h, len, remLen, m), Byte(s[0]), buflen);
      FeedConcat(InLength(h, len, remLen, m), [Byte(s[0])], Bytes(rest), buflen);
      assert Capacity(4 - len) == 128 * Capacity(3 - len) + 127;
      FeedLength(h, len + 1, remLen + n % 128 * m, m * 128, n / 128, buflen);
      Regroup(remLen, n % 128, n / 128, m, n);
    }
  }

  /** One well-formed packet is reported whole, and leaves the automaton idle. */
  lemma FeedPacket(p: seq<byte>, body: seq<byte>, buflen: nat)
    requires IsFrame(p, body) && |p| <= buflen
    ensures FeedAll(Idle, Bytes(p), buflen) == Progress(Idle, [Packet(Type(p[0]), p)])
  {
    var h, n := p[0], |body|;
    var len := EncodeLength(n);
    assert Capacity(1) == 127 && Capacity(2) == 16383 && Capacity(3) == 2097151 && Capacity(4) == 268435455;
    assert Bytes(p) == [Byte(h)] + (Bytes(len) + Bytes(body));
    FeedOne(Idle, Byte(h), buflen);
    FeedConcat(Idle, [Byte(h)], Bytes(len) + Bytes(body), buflen);
    FeedLength(h, 0, 0, 1, n, buflen);
    FeedConcat(InLength(h, 0, 0, 1), Bytes(len), Bytes(body), buflen);
    if n > 0 {
      FeedBody([h] + len, n, body, buflen);
    } else {
      assert p == [h] + len;
    }
  }

  /** A packet too long for the buffer is refused as soon as its length is known, before any byte of its body. */
  lemma TooLongIsRefused(h: byte, n: nat, buflen: nat)
    requires n <= 268435455 && 1 + |EncodeLength(n)| + n > buflen
    ensures FeedAll(Idle, Bytes([h] + EncodeLength(n)), buflen) == Progress(Idle, [Failed])
  {
    var len := EncodeLength(n);
    assert Capacity(1) == 127 && Capacity(2) == 16383 && Capacity(3) == 2097151 && Capacity(4) == 268435455;
    assert Bytes([h] + len) == [Byte(h)] + Bytes(len);
    FeedOne(Idle, Byte(h), buflen);
    FeedConcat(Idle, [Byte(h)], Bytes(len), buflen);
    FeedLength(h, 0, 0, 1, n, buflen);
  }

  /** A length field that goes on after its fourth byte is refused there. */
  lemma FifthLengthByteIsRefused(h: byte, a: byte, b: byte, c: byte, d: byte, buflen: nat)
    requires a >= 128 && b >= 128 && c >= 128 && d >= 128
    ensures FeedAll(Idle, [Byte(h), Byte(a), Byte(b), Byte(c), Byte(d)], buflen) == Progress(Idle, [Failed])
  {
    var s1 := InLength(h, 0, 0, 1);
    var s2 := InLength(h, 1, a % 128, 128);
    var s3 := InLength(h, 2, a % 128 + b % 128 * 128, 128 * 128);
    var s4 := Feed(s3, Byte(c), buflen).state;
    FeedOne(s4, Byte(d), buflen);
    FeedConcat(s3, [Byte(c)], [Byte(d)], buflen);
    FeedOne(s3, Byte(c), buflen);
    FeedConcat(s2, [Byte(b)], [Byte(c)] + [Byte(d)], buflen);
    FeedOne(s2, Byte(b), buflen);
    FeedConcat(s1, [Byte(a)], [Byte(b)] + ([Byte(c)] + [Byte(d)]), buflen);
    FeedOne(s1, Byte(a), buflen);
    FeedConcat(Idle, [Byte(h)], [Byte(a)] + ([Byte(b)] + ([Byte(c)] + [Byte(d)])), buflen);
    FeedOne(Idle, Byte(h), buflen);
    assert [Byte(h)] + ([Byte(a)] + ([Byte(b)] + ([Byte(c)] + [Byte(d)]))) ==
             [Byte(h), Byte(a), Byte(b), Byte(c), Byte(d)];
  }

  /** A failed read, wherever it comes, is reported and forgets the packet: the next ones are reported in full. */
  lemma FaultStartsOver(s: State, packets: seq<seq<byte>>, buflen: nat)
    requires AllWellFormed(packets, buflen)
    ensures FeedAll(s, [Fault] + Bytes(Stream(packets)), buflen) == Progress(Idle, [Failed] + Reports(packets))
  {
    FeedOne(s, Fault, buflen);
    FeedConcat(s, [Fault], Bytes(Stream(packets)), buflen);
    FeedStream(packets, buflen);
  }

  function Stream(packets: seq<seq<byte>>): seq<byte> {
    if packets == [] then [] else packets[0] + Stream(packets[1..])
  }

  function Reports(packets: seq<seq<byte>>): seq<Event>
    requires forall i :: 0 <= i < |packets| ==> packets[i] != []
  {
    if packets == [] then [] else [Packet(Type(packets[0][0]), packets[0])] + Reports(packets[1..])
  }

  /** Any concatenation of well-formed packets is reported packet by packet, in order. */
  lemma {:induction false} FeedStream(packets: seq<seq<byte>>, buflen: nat)
    requires AllWellFormed(packets, buflen)
    ensures FeedAll(Idle, Bytes(Stream(packets)), buflen) == Progress(Idle, Reports(packets))
    decreases |packets|
  {
    hide IsFrame;
    if packets != [] {
      var p, more := packets[0], packets[1..];
      var body :| IsFrame(p, body);
      FeedPacket(p, body, buflen);
      FeedStream(more, buflen);
      FeedConcat(Idle, Bytes(p), Bytes(Stream(more)), buflen);
      assert Bytes(p + Stream(more)) == Bytes(p) + Bytes(Stream(more));
    }
  }

  /** The inputs lead to `p`, and only the last of them causes an event. */
  ghost predicate Leads(s: State, inputs: seq<Input>, buflen: nat, p: Progress) {
    && FeedAll(s, inputs, buflen) == p
    && (p.events != [] ==> inputs != [] && FeedAll(s, inputs[..|inputs| - 1], buflen).events == [])
  }

  lemma LeadsOn(s: State, inputs: seq<Input>, x: Input, buflen: nat, now: State)
    requires Leads(s, inputs, buflen, Progress(now, []))
    ensures Leads(s, inputs + [x], buflen, Feed(now, x, buflen))
  {
    hide Feed, FeedAll;
    FeedMore(s, inputs, x, buflen);
    assert (inputs + [x])[..|inputs|] == inputs;
  }

  lemma LeadsThroughBody(s: State, inputs: seq<Input>, data: seq<byte>, buflen: nat, got: seq<byte>, left: nat)
    requires got != [] && 0 < left && |data| <= left
    requires Leads(s, inputs, buflen, Progress(InBody(got, left), []))
    ensures Leads(s, inputs + Bytes(data), buflen,
                  if |data| < left then Progress(InBody(got + data, left - |data|), [])
                  else Progress(Idle, [Packet(Type(got[0]), got + data)]))
  {
    hide FeedAll, Type;
    FeedConcat(s, inputs, Bytes(data), buflen);
    FeedBody(got, left, data, buflen);
    if |data| == left {
      var most := data[..left - 1];
      FeedConcat(s, inputs, Bytes(most), buflen);
      FeedBody(got, left, most, buflen);
      assert (inputs + Bytes(data))[..|inputs + Bytes(data)| - 1] == inputs + Bytes(most);
    }
  }

  lemma LeadsNowhere(s: State, buflen: nat)
    ensures Leads(s, [], buflen, Progress(s, []))
  {
  }

  // ---------------------------------------------------------------- the transport

  /** The byte stream and the schedule on which its bytes become available. */
  class Link {
    var incoming: seq<byte>
    var script: seq<int>
    ghost var consumed: seq<Input>

    constructor (incoming: seq<byte>, script: seq<int>)
      ensures this.incoming == incoming && this.script == script && consumed == []
    {
      this.incoming, this.script, this.consumed := incoming, script, [];
    }

    /**
     One call of the read function: at most `n` bytes, at most as many as the schedule grants now;
     a negative grant is a failed read, and nothing is available once the schedule is used up.
     */
    method Get(n: nat) returns (frc: int, data: seq<byte>)
      modifies this
      ensures frc == -1 ==> data == [] && incoming == old(incoming) && consumed == old(consumed) + [Fault]
      ensures frc != -1 ==>
                frc == |data| <= n && old(incoming) == data + incoming && consumed == old(consumed) + Bytes(data)
    {
      frc, data := 0, [];
      if script != [] {
        var grant := script[0];
        script := script[1..];
        if grant < 0 {
          consumed := consumed + [Fault];
          return -1, [];
        }
        var m := if grant <= n then grant else n;
        m := if m <= |incoming| then m else |incoming|;
        data, incoming := incoming[..m], incoming[m..];
        frc := m;
      }
      consumed := consumed + Bytes(data);
    }
  }

  function Power128(k: nat): nat {
    if k == 0 then 1 else 128 * Power128(k - 1)
  }

  predicate InRange(len: nat, remLen: nat, multiplier: nat) {
    multiplier == Power128(len) && remLen < multiplier
  }

  lemma RangeAtStart()
    ensures InRange(0, 0, 1)
  {
  }

  lemma StaysInRange(len: nat, remLen: nat, multiplier: nat, d: nat)
    requires InRange(len, remLen, multiplier) && d < 128
    ensures InRange(len + 1, remLen + d * multiplier, multiplier * 128)
  {
  }

  lemma FourBytesAtMost(len: nat, remLen: nat, multiplier: nat)
    requires InRange(len, remLen, multiplier) && len <= 4
    ensures remLen <= MAX_REMAINING_LENGTH && |EncodeLength(remLen)| <= 4
  {
    assert Power128(1) == 128 && Power128(2) == 16384 && Power128(3) == 2097152 && Power128(4) == 268435456;
    EncodedSize(remLen);
  }

  class Transport {
    const link: Link
    var multiplier: nat
    var remLen: nat
    var len: nat
    var state: int

    constructor (link: Link)
      ensures this.link == link && state == 0
    {
      this.link := link;
      multiplier, remLen, len, state := 0, 0, 0, 0;
    }

    ghost predicate Valid(buf: array<byte>)
      reads this, buf
    {
      && buf.Length >= 5
      && (state == 1 ==> len < MAX_NO_OF_REMAINING_LENGTH_BYTES && (len > 0 ==> InRange(len, remLen, multiplier)))
      && (state == 2 ==> 0 < len <= buf.Length && 0 < remLen && len + remLen <= buf.Length)
    }

    /** The automaton state that the fields stand for. */
    ghost function Abstract(buf: array<byte>): State
      requires Valid(buf)
      reads this, buf
    {
      if state == 1 then
        if len == 0 then InLength(buf[0], 0, 0, 1) else InLength(buf[0], len, remLen, multiplier)
      else if state == 2 then InBody(buf[..len], remLen)
      else Idle
    }

    /** Reads length bytes while there are any. */
    method DecodeNb(buf: array<byte>, ghost buflen: nat, ghost start: State, ghost before: seq<Input>)
      returns (rc: int, ghost inputs: seq<Input>)
      requires Valid(buf) && state == 1 && buflen <= buf.Length
      requires Leads(start, before, buflen, Progress(Abstract(buf), []))
      modifies this`len, this`remLen, this`multiplier, link
      ensures before <= inputs && link.consumed == old(link.consumed) + inputs[|before|..]
      ensures rc == 0 ==> Valid(buf) && Leads(start, inputs, buflen, Progress(Abstract(buf), []))
      ensures rc < 0 ==> rc == MQTTPACKET_READ_ERROR && Leads(start, inputs, buflen, Progress(Idle, [Failed]))
      ensures rc > 0 ==> Leads(start, inputs, buflen, AfterLength(buf[0], remLen, buflen))
      ensures rc > 0 ==> remLen <= MAX_REMAINING_LENGTH && |EncodeLength(remLen)| <= 4
    {
      hide AfterLength, Leads, InRange;
      RangeAtStart();
      if len == 0 {
        multiplier, remLen := 1, 0;
      }
      inputs := before;
      while true
        invariant len < MAX_NO_OF_REMAINING_LENGTH_BYTES && before <= inputs
        invariant link.consumed == old(link.consumed) + inputs[|before|..]
        invariant Leads(start, inputs, buflen, Progress(InLength(buf[0], len, remLen, multiplier), []))
        invariant len == 0 ==> multiplier == 1 && remLen == 0
        invariant InRange(len, remLen, multiplier)
        decreases MAX_NO_OF_REMAINING_LENGTH_BYTES - len
      {
        ghost var now := InLength(buf[0], len, remLen, multiplier);
        var frc, data := link.Get(1);
        if frc == -1 {
          LeadsOn(start, inputs, Fault, buflen, now);
          inputs := inputs + [Fault];
          return MQTTPACKET_READ_ERROR, inputs;
        }
        if frc == 0 {
          assert Bytes(data) == [];
          return 0, inputs;
        }
        var c := data[0];
        assert Bytes(data) == [Byte(c)];
        LeadsOn(start, inputs, Byte(c), buflen, now);
        inputs := inputs + [Byte(c)];
        StaysInRange(len, remLen, multiplier, c % 128);
        FourBytesAtMost(len + 1, remLen + c % 128 * multiplier, multiplier * 128);
        len := len + 1;
        remLen := remLen + c % 128 * multiplier;
        multiplier := multiplier * 128;
        if c < 128 {
          return len, inputs;
        }
        if len >= MAX_NO_OF_REMAINING_LENGTH_BYTES {
          return MQTTPACKET_READ_ERROR, inputs;
        }
      }
    }

    /** Case 0 of the reader: the header byte. Goes on with `rc > 0`. */
    method ReadHeader(buf: array<byte>, ghost buflen: nat) returns (rc: int, ghost inputs: seq<Input>)
      requires buf.Length >= 5 && state != 1 && state != 2
      modifies this`len, this`state, link, buf
      ensures Valid(buf) && link.consumed == old(link.consumed) + inputs
      ensures rc > 0 ==> state == 1 && Leads(Idle, inputs, buflen, Progress(Abstract(buf), []))
      ensures rc == 0 ==> Abstract(buf) == Idle && Leads(Idle, inputs, buflen, Progress(Idle, []))
      ensures rc < 0 ==> rc == -1 && Abstract(buf) == Idle && Leads(Idle, inputs, buflen, Progress(Idle, [Failed]))
    {
      hide Leads, InRange;
      LeadsNowhere(Idle, buflen);
      state := 0;
      var frc, data := link.Get(1);
      if frc == -1 {
        LeadsOn(Idle, [], Fault, buflen, Idle);
        assert [] + [Fault] == [Fault];
        return -1, [Fault];
      }
      if frc == 0 {
        assert Bytes(data) == [];
        return 0, [];
      }
      assert Bytes(data) == [Byte(data[0])];
      LeadsOn(Idle, [], Byte(data[0]), buflen, Idle);
      assert [] + [Byte(data[0])] == [Byte(data[0])];
      buf[0] := data[0];
      len := 0;
      state := 1;
      return 1, [Byte(data[0])];
    }

    /** Case 1 of the reader: the remaining length. Goes on with `rc > 0` to a body that may be empty. */
    method ReadLength(buf: array<byte>, buflen: nat, ghost start: State, ghost before: seq<Input>)
      returns (rc: int, ghost inputs: seq<Input>)
      requires Valid(buf) && state == 1 && buflen <= buf.Length
      requires Leads(start, before, buflen, Progress(Abstract(buf), []))
      modifies this`len, this`remLen, this`multiplier, this`state, link, buf
      ensures before <= inputs && link.consumed == old(link.consumed) + inputs[|before|..]
      ensures rc == 0 ==> Valid(buf) && state == 1 && Leads(start, inputs, buflen, Progress(Abstract(buf), []))
      ensures rc < 0 ==> rc == -1 && Leads(start, inputs, buflen, Progress(Idle, [Failed]))
      ensures rc > 0 ==> 0 < len && len + remLen <= buflen && state == 2
      ensures rc > 0 ==> Leads(start, inputs, buflen,
                               if remLen == 0 then Progress(Idle, [Packet(Type(buf[0]), buf[..len])])
                               else Progress(InBody(buf[..len], remLen), []))
    {
      hide Leads, InRange, EncodeLength, AfterLength, Type;
      rc, inputs := DecodeNb(buf, buflen, start, before);
      if rc <= 0 {
        return;
      }
      ghost var header := buf[0];
      var n := Encode(buf, 1, remLen);
      len := 1 + n;
      assert buf[..1] == [header];
      assert buf[0] == header && buf[..len] == [header] + EncodeLength(remLen);
      LengthOutcome(header, remLen, buflen);
      if remLen + len > buflen {
        return -1, inputs;
      }
      state := 2;
      rc := 1;
    }

    /** Case 2 of the reader: as much of the body as there is. Goes on with `rc > 0` when it is complete. */
    method ReadBody(buf: array<byte>, ghost buflen: nat, ghost start: State, ghost before: seq<Input>)
      returns (rc: int, ghost inputs: seq<Input>)
      requires 0 < len && 0 < remLen && len + remLen <= buflen <= buf.Length && state == 2
      requires Leads(start, before, buflen, Progress(InBody(buf[..len], remLen), []))
      modifies this`len, this`remLen, link, buf
      ensures before <= inputs && link.consumed == old(link.consumed) + inputs[|before|..]
      ensures rc == 0 ==> 0 < len && 0 < remLen && len + remLen <= buflen
                          && Leads(start, inputs, buflen, Progress(InBody(buf[..len], remLen), []))
      ensures rc < 0 ==> rc == -1 && Leads(start, inputs, buflen, Progress(Idle, [Failed]))
      ensures rc > 0 ==>
                0 < len <= buflen && Leads(start, inputs, buflen, Progress(Idle, [Packet(Type(buf[0]), buf[..len])]))
    {
      hide Leads, Type;
      ghost var got := buf[..len];
      var frc, data := link.Get(remLen);
      if frc == -1 {
        LeadsOn(start, before, Fault, buflen, InBody(got, remLen));
        return -1, before + [Fault];
      }
      LeadsThroughBody(start, before, data, buflen, got, remLen);
      inputs := before + Bytes(data);
      var next := WriteBytes(buf, len, data);
      assert buf[0] == buf[..next][0] == got[0];
      if frc == 0 {
        assert got + data == got;
        return 0, inputs;
      }
      remLen := remLen - frc;
      len := len + frc;
      rc := if remLen > 0 then 0 else 1;
    }

    /**
     One call of the resumable reader: what it consumed leads the automaton from the old state to
     the new one, and it returns -1 for a failure, the packet type for a packet, 0 otherwise. It
     stops at the input that completes a packet, whose bytes are then in the buffer.
     */
    method ReadNb(buf: array<byte>, buflen: nat) returns (rc: int, ghost inputs: seq<Input>, ghost events: seq<Event>)
      requires Valid(buf) && buflen <= buf.Length
      requires state == 2 ==> len + remLen <= buflen
      modifies this`multiplier, this`remLen, this`len, this`state, link, buf
      ensures Valid(buf) && link.consumed == old(link.consumed) + inputs
      ensures state == 2 ==> len + remLen <= buflen
      ensures Leads(old(Abstract(buf)), inputs, buflen, Progress(Abstract(buf), events))
      ensures Returned(rc, events, buf[..], buflen)
      ensures (events == [] ==> rc == 0) && (events == [Failed] ==> rc == -1)
      ensures events == [] || events == [Failed] || exists p :: events == [Packet(rc, p)] && p <= buf[..]
    {
      hide Leads, InRange, Feed, FeedAll, Type;
      ghost var start := Abstract(buf);
      inputs, events := [], [];
      LeadsNowhere(start, buflen);
      var more := 1;
      if state != 1 && state != 2 {
        more, inputs := ReadHeader(buf, buflen);
        if more <= 0 {
          events := if more == 0 then [] else [Failed];
          return more, inputs, events;
        }
      }
      if state == 1 {
        more, inputs := ReadLength(buf, buflen, start, inputs);
        if more < 0 {
          state := 0;
          return -1, inputs, [Failed];
        }
        if more == 0 {
          return 0, inputs, [];
        }
      }
      if remLen > 0 {
        more, inputs := ReadBody(buf, buflen, start, inputs);
        if more < 0 {
          state := 0;
          return -1, inputs, [Failed];
        }
        if more == 0 {
          return 0, inputs, [];
        }
      }
      rc := Type(buf[0]);
      events := [Packet(rc, buf[..len])];
      state := 0;
    }
  }

  /** What the caller sees of the events of one call. */
  ghost predicate Returned(rc: int, events: seq<Event>, buf: seq<byte>, buflen: nat) {
    if events == [] then rc == 0
    else if events == [Failed] then rc == -1
    else
      && |events| == 1 && events[0].Packet? && rc == events[0].packetType
      && |events[0].bytes| <= buflen <= |buf| && buf[..|events[0].bytes|] == events[0].bytes
  }

  lemma LengthOutcome(header: byte, remLen: nat, buflen: nat)
    ensures var frame := [header] + EncodeLength(remLen);
            AfterLength(header, remLen, buflen) ==
              if |frame| + remLen > buflen then Progress(Idle, [Failed])
              else if remLen == 0 then Progress(Idle, [Packet(Type(header), frame)])
              else Progress(InBody(frame, remLen), [])
  {
  }

  // ---------------------------------------------------------------- whole runs of calls

  /** One call of the reader: automaton states before and after, inputs consumed, events returned. */
  datatype Call = Call(before: State, inputs: seq<Input>, events: seq<Event>, after: State)

  function After(calls: seq<Call>, start: State): State {
    if calls == [] then start else calls[|calls| - 1].after
  }

  /** Every call begins where the one before it ended. */
  ghost predicate IsTrace(calls: seq<Call>, start: State, buflen: nat) {
    calls != [] ==>
      var most, last := calls[..|calls| - 1], calls[|calls| - 1];
      && IsTrace(most, start, buflen)
      && last.before == After(most, start)
      && Leads(last.before, last.inputs, buflen, Progress(last.after, last.events))
  }

  function Consumed(calls: seq<Call>): seq<Input> {
    if calls == [] then [] else Consumed(calls[..|calls| - 1]) + calls[|calls| - 1].inputs
  }

  function Reported(calls: seq<Call>): seq<Event> {
    if calls == [] then [] else Reported(calls[..|calls| - 1]) + calls[|calls| - 1].events
  }

  lemma {:induction false} CallsCompose(calls: seq<Call>, start: State, buflen: nat)
    requires IsTrace(calls, start, buflen)
    ensures FeedAll(start, Consumed(calls), buflen) == Progress(After(calls, start), Reported(calls))
    decreases |calls|
  {
    hide Feed, FeedAll;
    if calls == [] {
      LeadsNowhere(start, buflen);
    } else {
      var most, last := calls[..|calls| - 1], calls[|calls| - 1];
      CallsCompose(most, start, buflen);
      FeedConcat(start, Consumed(most), last.inputs, buflen);
    }
  }

  /**
   Two runs that consumed the same bytes reported the same packets and stand at the same place, however
   the bytes were cut up.
   */
  lemma ChunkingIndependence(a: seq<Call>, b: seq<Call>, buflen: nat)
    requires IsTrace(a, Idle, buflen) && IsTrace(b, Idle, buflen) && Consumed(a) == Consumed(b)
    ensures Reported(a) == Reported(b) && After(a, Idle) == After(b, Idle)
  {
    hide *;
    CallsCompose(a, Idle, buflen);
    CallsCompose(b, Idle, buflen);
  }

  lemma BytesConcat(a: seq<byte>, b: seq<byte>)
    ensures Bytes(a + b) == Bytes(a) + Bytes(b)
  {
  }

  lemma FeedNothing(s: State, buflen: nat)
    ensures FeedAll(s, Bytes([]), buflen) == Progress(s, [])
  {
  }

  lemma {:induction false} LengthIsQuiet(h: byte, len: nat, remLen: nat, m: nat, n: nat, buflen: nat)
    requires len < 4 && n <= Capacity(4 - len)
    ensures var s := EncodeLength(n);
            FeedAll(InLength(h, len, remLen, m), Bytes(s[..|s| - 1]), buflen).events == []
    decreases n
  {
    hide FeedAll, AfterLength;
    var s := EncodeLength(n);
    assert Capacity(1) == 127;
    if n < 128 {
      assert s[..|s| - 1] == [];
      FeedNothing(InLength(h, len, remLen, m), buflen);
    } else {
      var rest := EncodeLength(n / 128);
      var most := rest[..|rest| - 1];
      assert s[..|s| - 1] == [s[0]] + most;
      assert Bytes(s[..|s| - 1]) == [Byte(s[0])] + Bytes(most);
      FeedOne(InLength(h, len, remLen, m), Byte(s[0]), buflen);
      FeedConcat(InLength(h, len, remLen, m), [Byte(s[0])], Bytes(most), buflen);
      assert Capacity(4 - len) == 128 * Capacity(3 - len) + 127;
      LengthIsQuiet(h, len + 1, remLen + n % 128 * m, m * 128, n / 128, buflen);
    }
  }

  /** Nothing is reported before the last byte of a packet. */
  lemma PacketIsQuiet(p: seq<byte>, body: seq<byte>, buflen: nat)
    requires IsFrame(p, body) && |p| <= buflen
    ensures FeedAll(Idle, Bytes(p[..|p| - 1]), buflen).events == []
  {
    var h, n := p[0], |body|;
    var len := EncodeLength(n);
    assert Capacity(1) == 127 && Capacity(2) == 16383 && Capacity(3) == 2097151 && Capacity(4) == 268435455;
    FeedOne(Idle, Byte(h), buflen);
    var start := InLength(h, 0, 0, 1);
    if n == 0 {
      var most := len[..|len| - 1];
      assert p[..|p| - 1] == [h] + most;
      assert Bytes(p[..|p| - 1]) == [Byte(h)] + Bytes(most);
      FeedConcat(Idle, [Byte(h)], Bytes(most), buflen);
      LengthIsQuiet(h, 0, 0, 1, n, buflen);
    } else {
      var most := body[..n - 1];
      assert p[..|p| - 1] == [h] + len + most;
      assert Bytes(p[..|p| - 1]) == [Byte(h)] + (Bytes(len) + Bytes(most));
      FeedConcat(Idle, [Byte(h)], Bytes(len) + Bytes(most), buflen);
      FeedConcat(start, Bytes(len), Bytes(most), buflen);
      FeedLength(h, 0, 0, 1, n, buflen);
      FeedBody([h] + len, n, most, buflen);
    }
  }

  lemma PrefixIsQuiet(p: seq<byte>, body: seq<byte>, k: nat, buflen: nat)
    requires IsFrame(p, body) && |p| <= buflen && k < |p|
    ensures FeedAll(Idle, Bytes(p[..k]), buflen).events == []
  {
    hide Feed, FeedAll, IsFrame;
    PacketIsQuiet(p, body, buflen);
    FeedConcat(Idle, Bytes(p[..k]), Bytes(p[k..|p| - 1]), buflen);
    assert Bytes(p[..|p| - 1]) == Bytes(p[..k]) + Bytes(p[k..|p| - 1]);
  }

  /** How many of the packets lie within the first `k` bytes of their stream. */
  function Within(packets: seq<seq<byte>>, k: nat): (m: nat)
    ensures m <= |packets|
  {
    if packets == [] || k < |packets[0]| then 0 else 1 + Within(packets[1..], k - |packets[0]|)
  }

  /** After any part of a stream of well-formed packets, exactly the complete ones have been reported. */
  lemma {:induction false} PartOfStream(packets: seq<seq<byte>>, k: nat, buflen: nat)
    requires AllWellFormed(packets, buflen) && k <= |Stream(packets)|
    ensures FeedAll(Idle, Bytes(Stream(packets)[..k]), buflen).events == Reports(packets[..Within(packets, k)])
    decreases |packets|
  {
    hide IsFrame, FeedAll, Bytes;
    if packets == [] {
      FeedNothing(Idle, buflen);
    } else {
      var p, more := packets[0], packets[1..];
      var body :| IsFrame(p, body);
      if k < |p| {
        PrefixIsQuiet(p, body, k, buflen);
        assert Stream(packets)[..k] == p[..k];
      } else {
        FeedPacket(p, body, buflen);
        PartOfStream(more, k - |p|, buflen);
        var part := Stream(more)[..k - |p|];
        assert Stream(packets)[..k] == p + part;
        BytesConcat(p, part);
        FeedConcat(Idle, Bytes(p), Bytes(part), buflen);
        assert packets[..Within(packets, k)] == [p] + more[..Within(more, k - |p|)];
      }
    }
  }

  /**
   Any run of calls of the resumable reader on a stream of well-formed packets, under any schedule
   of partial and empty reads, has returned exactly the packets whose bytes it has consumed, in
   order; a packet is returned by the call that consumes its last byte, which consumes no more.
   */
  lemma ReaderReturnsPackets(calls: seq<Call>, packets: seq<seq<byte>>, k: nat, buflen: nat)
    requires IsTrace(calls, Idle, buflen) && AllWellFormed(packets, buflen) && k <= |Stream(packets)|
    requires Consumed(calls) == Bytes(Stream(packets)[..k])
    ensures Reported(calls) == Reports(packets[..Within(packets, k)])
  {
    hide *;
    CallsCompose(calls, Idle, buflen);
    PartOfStream(packets, k, buflen);
  }

  // ---------------------------------------------------------------- the blocking reader

  /**
   A stream whose reads wait for all the bytes asked for. They come back short at the end of the
   stream or when the schedule says so, and `shorts` counts the latter.
   */
  class BlockingLink {
    var incoming: seq<byte>
    var script: seq<Option<int>>
    ghost var shorts: nat

    constructor (incoming: seq<byte>, script: seq<Option<int>>)
      ensures this.incoming == incoming && this.script == script && shorts == 0
    {
      this.incoming, this.script, this.shorts := incoming, script, 0;
    }

    method Get(n: nat) returns (rc: int, data: seq<byte>)
      modifies this
      ensures rc <= n && |data| == (if rc < 0 then 0 else rc) && old(incoming) == data + incoming
      ensures shorts >= old(shorts)
      ensures shorts == old(shorts) ==> |data| == Min(n, |old(incoming)|) == rc
      ensures old(script) == [] ==> script == [] && shorts == old(shorts)
    {
      var all := Min(n, |incoming|);
      rc := all;
      if script != [] {
        if script[0].Some? && script[0].value < all {
          rc := script[0].value;
          shorts := shorts + 1;
        }
        script := script[1..];
      }
      var m := Max(rc, 0);
      data, incoming := incoming[..m], incoming[m..];
    }
  }

  /** The value of the length bytes read so far, whether or not they are all. */
  function Partial(field: seq<byte>): nat {
    if field == [] then 0 else field[0] % 128 + 128 * Partial(field[1..])
  }

  predicate Complete(field: seq<byte>) {
    field != [] && field[|field| - 1] < 128
  }

  /** What a decoder can have read of a length field: at most four bytes, and none after the last. */
  predicate FieldSoFar(field: seq<byte>) {
    |field| <= MAX_NO_OF_REMAINING_LENGTH_BYTES && forall i :: 0 <= i < |field| - 1 ==> field[i] >= 128
  }

  /** It stopped there for a reason: the field is complete or too long, the stream ended, or a read was short. */
  predicate FieldRead(all: seq<byte>, field: seq<byte>, more: seq<byte>, short: bool) {
    && all == field + more && FieldSoFar(field)
    && (Complete(field) || |field| == MAX_NO_OF_REMAINING_LENGTH_BYTES || more == [] || short)
  }

  lemma {:induction false} PartialOfPush(field: seq<byte>, c: byte)
    ensures Partial(field + [c]) == Partial(field) + c % 128 * Power128(|field|)
    decreases |field|
  {
    if field != [] {
      PartialOfPush(field[1..], c);
      assert (field + [c])[1..] == field[1..] + [c];
      PowerStep(c % 128, |field| - 1);
    } else {
      assert [c][1..] == [];
    }
  }

  lemma PowerStep(d: nat, k: nat)
    ensures 128 * (d * Power128(k)) == d * Power128(k + 1)
  {
  }

  lemma {:induction false} PartialInRange(field: seq<byte>)
    ensures Partial(field) < Power128(|field|)
    decreases |field|
  {
    if field != [] {
      PartialInRange(field[1..]);
    }
  }

  lemma FourBytesInRange(field: seq<byte>)
    requires |field| <= 4
    ensures Partial(field) <= MAX_REMAINING_LENGTH && 1 <= |EncodeLength(Partial(field))| <= 4
  {
    assert Power128(0) == 1 && Power128(1) == 128 && Power128(2) == 16384 && Power128(3) == 2097152
           && Power128(4) == 268435456;
    PartialInRange(field);
    EncodedSize(Partial(field));
  }

  /** Of an encoded length, without a short read, exactly its bytes are read. */
  lemma {:induction false} EncodedFieldRead(n: nat, k: nat, rest: seq<byte>, field: seq<byte>, more: seq<byte>)
    requires 1 <= k <= 4 && n <= Capacity(k) && |field| <= k && FieldSoFar(field)
    requires EncodeLength(n) + rest == field + more && (Complete(field) || |field| == k || more == [])
    ensures field == EncodeLength(n) && Partial(field) == n && more == rest
    decreases n
  {
    var all := EncodeLength(n) + rest;
    assert Capacity(1) == 127;
    assert field != [] && field[0] == all[0];
    if n < 128 {
      assert |field| == 1;
      assert field[1..] == [];
      assert more == all[1..] == rest;
    } else {
      assert Capacity(k) == 128 * Capacity(k - 1) + 127;
      assert EncodeLength(n)[1..] + rest == all[1..] == field[1..] + more;
      assert |EncodeLength(n)| >= 2 && |field| >= 2;
      EncodedFieldRead(n / 128, k - 1, rest, field[1..], more);
      assert field == [field[0]] + field[1..];
    }
  }

  /** `len` counts the read that failed, or the byte that was too much. */
  method Decode(link: BlockingLink) returns (value: nat, len: nat, ghost field: seq<byte>)
    modifies link
    ensures FieldRead(old(link.incoming), field, link.incoming, link.shorts > old(link.shorts))
            && link.shorts >= old(link.shorts)
    ensures value == Partial(field) && len == |field| + if Complete(field) then 0 else 1
    ensures old(link.script) == [] ==> link.script == [] && link.shorts == old(link.shorts)
  {
    ghost var all := link.incoming;
    value, len, field := 0, 0, [];
    var multiplier: nat := 1;
    while true
      invariant all == field + link.incoming && len == |field| <= MAX_NO_OF_REMAINING_LENGTH_BYTES
      invariant forall i :: 0 <= i < |field| ==> field[i] >= 128
      invariant value == Partial(field) && multiplier == Power128(|field|)
      invariant link.shorts >= old(link.shorts)
      invariant old(link.script) == [] ==> link.script == [] && link.shorts == old(link.shorts)
      decreases MAX_NO_OF_REMAINING_LENGTH_BYTES - len
    {
      len := len + 1;
      if len > MAX_NO_OF_REMAINING_LENGTH_BYTES {
        return;
      }
      var rc, data := link.Get(1);
      if rc != 1 {
        return;
      }
      var c := data[0];
      PartialOfPush(field, c);
      field := field + [c];
      value := value + c % 128 * multiplier;
      multiplier := multiplier * 128;
      if c < 128 {
        return;
      }
    }
  }

  /** What a stream that begins with a packet holds. */
  ghost predicate Begins(all: seq<byte>, p: seq<byte>, body: seq<byte>, buflen: nat) {
    IsFrame(p, body) && |p| <= buflen && p <= all
  }

  /** Header byte and length field. */
  function FrameHead(header: byte, remLen: nat): (s: seq<byte>)
    ensures |s| >= 2 && s[0] == header
  {
    [header] + EncodeLength(remLen)
  }

  /** How far the reading of one packet got: not even a header, or so much of length field and rest. */
  datatype Reading = NoHeader | Header(header: byte, field: seq<byte>, data: seq<byte>) {
    /** The bytes taken off the stream. */
    function Taken(): seq<byte> {
      if NoHeader? then [] else [header] + field + data
    }

    function RemLen(): nat
      requires Header?
    {
      Partial(field)
    }

    predicate Fits(buflen: nat)
      requires Header?
    {
      |FrameHead(header, RemLen())| + RemLen() <= buflen
    }

    predicate Whole(buflen: nat) {
      Header? && Fits(buflen) && |data| == RemLen()
    }

    /** The packet as the buffer holds it: the length field is written anew. */
    function Packet(): (p: seq<byte>)
      requires Header?
      ensures p != [] && p[0] == header
    {
      FrameHead(header, RemLen()) + data
    }
  }

  /** The stream went from `all` to `more` by this reading, which stopped early only for a reason. */
  predicate Happened(all: seq<byte>, more: seq<byte>, r: Reading, buflen: nat, short: bool) {
    && all == r.Taken() + more
    && match r
       case NoHeader => all == [] || short
       case Header(_, field, data) =>
         && FieldRead(field + data + more, field, data + more, short)
         && (if r.Fits(buflen) then |data| <= r.RemLen() && (|data| == r.RemLen() || more == [] || short)
             else data == [])
  }

  /** From a stream that begins with a packet, without a short read, that packet is read and nothing else. */
  lemma PacketIsRead(all: seq<byte>, more: seq<byte>, r: Reading, buflen: nat, p: seq<byte>, body: seq<byte>)
    requires Happened(all, more, r, buflen, false) && Begins(all, p, body, buflen)
    ensures r == Header(p[0], EncodeLength(|body|), body) && r.Whole(buflen) && r.Packet() == p && all == p + more
  {
    var tail := all[|p|..];
    BeginsInOrder(all, p, body, buflen);
    ReadInOrder(all, more, r, buflen);
    hide EncodeLength, Begins, FrameHead, Partial, FieldRead, Happened, Reading.Taken;
    FieldIsRead(all[1..], r.field, r.data + more, |body|, body + tail);
    SameStart(r.data, more, body, tail);
  }

  /** What a stream that begins with a packet holds. */
  lemma BeginsInOrder(all: seq<byte>, p: seq<byte>, body: seq<byte>, buflen: nat)
    requires Begins(all, p, body, buflen)
    ensures p == FrameHead(p[0], |body|) + body && |body| <= MAX_REMAINING_LENGTH && |p| <= buflen
    ensures all != [] && all[0] == p[0] && all == p + all[|p|..]
            && all[1..] == EncodeLength(|body|) + (body + all[|p|..])
  {
    var tail := all[|p|..];
    assert all == p + tail;
    AfterHeader(all, p[0], EncodeLength(|body|), body, tail);
  }

  lemma AfterHeader(all: seq<byte>, header: byte, len: seq<byte>, body: seq<byte>, tail: seq<byte>)
    requires all == ([header] + len + body) + tail
    ensures all != [] && all[0] == header && all[1..] == len + (body + tail) == len + body + tail
  {
    assert all == [header] + (len + (body + tail));
  }

  lemma ReadInOrder(all: seq<byte>, more: seq<byte>, r: Reading, buflen: nat)
    requires Happened(all, more, r, buflen, false) && all != []
    ensures r.Header? && all[0] == r.header && FieldRead(all[1..], r.field, r.data + more, false)
    ensures r.Fits(buflen) ==> |r.data| <= r.RemLen() && (|r.data| == r.RemLen() || more == [])
  {
    hide FieldRead, Reading.Fits, Reading.RemLen;
    AfterHeader(all, r.header, r.field, r.data, more);
  }

  lemma FieldIsRead(all: seq<byte>, field: seq<byte>, more: seq<byte>, n: nat, rest: seq<byte>)
    requires FieldRead(all, field, more, false) && all == EncodeLength(n) + rest && n <= MAX_REMAINING_LENGTH
    ensures field == EncodeLength(n) && Partial(field) == n && more == rest
  {
    FourDigits();
    EncodedFieldRead(n, 4, rest, field, more);
  }

  datatype Frame = Frame(packet: seq<byte>, body: seq<byte>)

  /** The packet that a stream begins with, if it is all there and fits. */
  ghost function Front(all: seq<byte>, buflen: nat): (r: Option<Frame>)
    ensures r.Some? ==> Begins(all, r.value.packet, r.value.body, buflen)
  {
    if exists p, body :: Begins(all, p, body, buflen) then
      var p, body :| Begins(all, p, body, buflen);
      Some(Frame(p, body))
    else None
  }

  /** Without a short read, the packet at the front is the one that is read. */
  lemma FrontIsRead(all: seq<byte>, more: seq<byte>, r: Reading, buflen: nat)
    requires Happened(all, more, r, buflen, false) && Front(all, buflen).Some?
    ensures r.Whole(buflen) && r.Packet() == Front(all, buflen).value.packet && r.data == Front(all, buflen).value.body
    ensures r.header == r.Packet()[0] && all == r.Packet() + more
  {
    hide Front, Begins, Happened, Reading.Whole, Reading.Packet;
    PacketIsRead(all, more, r, buflen, Front(all, buflen).value.packet, Front(all, buflen).value.body);
  }

  lemma {:induction false} EncodingIsField(n: nat, k: nat)
    requires 1 <= k && n <= Capacity(k)
    ensures var s := EncodeLength(n);
            |s| <= k && Complete(s) && forall i :: 0 <= i < |s| - 1 ==> s[i] >= 128
    decreases n
  {
    assert Capacity(1) == 127;
    if n >= 128 {
      assert Capacity(k) == 128 * Capacity(k - 1) + 127;
      EncodingIsField(n / 128, k - 1);
      var s := EncodeLength(n);
      assert s == [s[0]] + EncodeLength(n / 128);
    }
  }

  /** A stream begins with one packet only. */
  lemma FrontIs(all: seq<byte>, p: seq<byte>, body: seq<byte>, buflen: nat)
    requires Begins(all, p, body, buflen)
    ensures Front(all, buflen) == Some(Frame(p, body))
  {
    var q, other := Front(all, buflen).value.packet, Front(all, buflen).value.body;
    BeginsInOrder(all, p, body, buflen);
    BeginsInOrder(all, q, other, buflen);
    FourDigits();
    EncodingIsField(|other|, 4);
    hide EncodeLength, Begins, FrameHead, Partial, Complete, Front;
    var field, more := EncodeLength(|other|), other + all[|q|..];
    FieldIsRead(all[1..], field, more, |body|, body + all[|p|..]);
    FieldIsRead(all[1..], field, more, |other|, more);
    SameStart(body, all[|p|..], other, all[|q|..]);
  }

  lemma FourDigits()
    ensures Capacity(4) == 268435455
  {
    assert Capacity(1) == 127 && Capacity(2) == 16383 && Capacity(3) == 2097151;
  }

  lemma SameStart<T>(a: seq<T>, b: seq<T>, c: seq<T>, d: seq<T>)
    requires a + b == c + d && |a| <= |c| && (|a| == |c| || b == [])
    ensures a == c && b == d
  {
    assert |a| == |c|;
    assert a == (a + b)[..|a|] && b == (a + b)[|a|..];
  }

  /** The length field that follows the header byte, as the readers put it back into the buffer. */
  method ReadRemainingLength(buf: array<byte>, link: BlockingLink)
    returns (remLen: nat, len: nat, ghost field: seq<byte>)
    requires 5 <= buf.Length
    modifies buf, link
    ensures FieldRead(old(link.incoming), field, link.incoming, link.shorts > old(link.shorts))
            && link.shorts >= old(link.shorts)
    ensures remLen == Partial(field) <= MAX_REMAINING_LENGTH && len == |FrameHead(old(buf[0]), remLen)| <= 5
    ensures buf[..len] == FrameHead(old(buf[0]), remLen)
    ensures forall j :: len <= j < buf.Length ==> buf[j] == old(buf[j])
    ensures old(link.script) == [] ==> link.script == [] && link.shorts == old(link.shorts)
  {
    hide EncodeLength, FieldRead, Partial;
    var n;
    remLen, n, field := Decode(link);
    assert |field| <= 4 by { FieldIsShort(old(link.incoming), field, link.incoming, link.shorts > old(link.shorts)); }
    FourBytesInRange(field);
    len := Encode(buf, 1, remLen);
    len := len + 1;
    assert old(buf[..1]) == [old(buf[0])];
  }

  lemma FieldIsShort(all: seq<byte>, field: seq<byte>, more: seq<byte>, short: bool)
    requires FieldRead(all, field, more, short)
    ensures |field| <= 4
  {
  }

  /** The rest of a packet, behind what the buffer holds already. */
  method ReadRest(buf: array<byte>, start: nat, n: nat, link: BlockingLink) returns (got: int, ghost data: seq<byte>)
    requires n > 0 && start + n <= buf.Length
    modifies buf, link
    ensures got <= n && link.shorts >= old(link.shorts) && old(link.incoming) == data + link.incoming
    ensures (got == n <==> |data| == n) && |data| <= n
    ensures |data| == n || link.incoming == [] || link.shorts > old(link.shorts)
    ensures buf[..start + |data|] == old(buf[..start]) + data
    ensures forall j :: start + |data| <= j < buf.Length ==> buf[j] == old(buf[j])
    ensures old(link.script) == [] ==> link.script == [] && link.shorts == old(link.shorts)
  {
    var bytes;
    got, bytes := link.Get(n);
    data := bytes;
    var _ := WriteBytes(buf, start, bytes);
  }

  /**
   The blocking reader: a packet type with the packet in the buffer exactly when all of it was read
   and it fits; in any case exactly the bytes of the reading are gone from the stream.
   */
  method Read(buf: array<byte>, buflen: nat, link: BlockingLink) returns (rc: int, ghost r: Reading)
    requires 5 <= buf.Length && buflen <= buf.Length
    modifies buf, link
    ensures link.shorts >= old(link.shorts)
    ensures Happened(old(link.incoming), link.incoming, r, buflen, link.shorts > old(link.shorts))
    ensures rc == if r.Whole(buflen) then Type(r.header) else -1
    ensures r.Whole(buflen) ==> |r.Packet()| <= buflen && buf[..|r.Packet()|] == r.Packet()
  {
    hide Type, FieldRead, FrameHead, Partial;
    r := NoHeader;
    ghost var all := link.incoming;
    var got, first := link.Get(1);
    if got != 1 {
      return -1, r;
    }
    buf[0] := first[0];
    ghost var rest := link.incoming;
    var remLen, len, field := ReadRemainingLength(buf, link);
    r := Header(first[0], field, []);
    ghost var head, more := buf[..len], link.incoming;
    ReadSoFar(all, first, rest, field, more, [], more, link.shorts > old(link.shorts));
    if remLen + len > buflen {
      return -1, r;
    }
    if remLen > 0 {
      ghost var data;
      got, data := ReadRest(buf, len, remLen, link);
      r := Header(first[0], field, data);
      ReadSoFar(all, first, rest, field, more, data, link.incoming, link.shorts > old(link.shorts));
      if got != remLen {
        return -1, r;
      }
    }
    assert buf[..len + remLen] == head + r.data;
    assert buf[0] == (head + r.data)[0] == first[0];
    rc := Type(buf[0]);
  }

  /** What was read adds up, with the reasons to stop that came up so far. */
  lemma ReadSoFar(all: seq<byte>, first: seq<byte>, rest: seq<byte>, field: seq<byte>, more: seq<byte>, data: seq<byte>,
                  end: seq<byte>, short: bool)
    requires |first| == 1 && all == first + rest && more == data + end
    requires FieldRead(rest, field, more, false) || (short && FieldRead(rest, field, more, true))
    ensures all == Header(first[0], field, data).Taken() + end
    ensures FieldRead(field + data + end, field, data + end, short)
  {
    hide Complete, FieldSoFar;
    assert field + data + end == field + (data + end) == rest;
    assert all == [first[0]] + rest;
  }

  // ---------------------------------------------------------------- the two readers agree

  /** Readings one after the other, none of them short. */
  ghost predicate ReadInTurn(all: seq<byte>, more: seq<byte>, readings: seq<Reading>, buflen: nat)
    decreases |readings|
  {
    if readings == [] then all == more
    else
      var n := |readings[0].Taken()|;
      n <= |all| && Happened(all, all[n..], readings[0], buflen, false)
        && ReadInTurn(all[n..], more, readings[1..], buflen)
  }

  /** What the blocking reader returned, in the terms of the resumable one. */
  function Results(readings: seq<Reading>, buflen: nat): seq<Event> {
    if readings == [] then []
    else
      var r := readings[0];
      [if r.Whole(buflen) then Packet(Type(r.header), r.Packet()) else Failed] + Results(readings[1..], buflen)
  }

  /** Called on a stream of packets, the blocking reader returns them in order and stops right behind the last one. */
  lemma {:induction false} BlockingReaderReturnsPackets(packets: seq<seq<byte>>, more: seq<byte>,
                                                        readings: seq<Reading>,
                                                        buflen: nat)
    requires AllWellFormed(packets, buflen) && |readings| <= |packets|
    requires ReadInTurn(Stream(packets), more, readings, buflen)
    ensures Results(readings, buflen) == Reports(packets[..|readings|]) && more == Stream(packets[|readings|..])
    decreases |packets|
  {
    hide IsFrame, Happened, Reading.Whole, Reading.Packet;
    if readings != [] {
      var p, rest, r := packets[0], packets[1..], readings[0];
      var body :| IsFrame(p, body);
      var all := Stream(packets);
      assert all == p + Stream(rest);
      PacketIsRead(all, all[|r.Taken()|..], r, buflen, p, body);
      assert all[|r.Taken()|..] == Stream(rest);
      BlockingReaderReturnsPackets(rest, more, readings[1..], buflen);
      assert packets[..|readings|] == [p] + rest[..|readings| - 1] && packets[|readings|..] == rest[|readings| - 1..];
    }
  }

  /** On every stream of packets, and however its bytes come in, both readers return the same packets. */
  lemma ReadersAgree(packets: seq<seq<byte>>, calls: seq<Call>, readings: seq<Reading>, more: seq<byte>, buflen: nat)
    requires AllWellFormed(packets, buflen) && |readings| == |packets|
    requires IsTrace(calls, Idle, buflen) && Consumed(calls) == Bytes(Stream(packets))
    requires ReadInTurn(Stream(packets), more, readings, buflen)
    ensures Reported(calls) == Results(readings, buflen) && more == []
  {
    hide ReadInTurn, Results, Reported, IsTrace, FeedAll, Reports, Stream;
    BlockingReaderReturnsPackets(packets, more, readings, buflen);
    CallsCompose(calls, Idle, buflen);
    FeedStream(packets, buflen);
    assert packets[..|readings|] == packets && packets[|readings|..] == [];
    assert Stream([]) == [] by { NoPackets(); }
  }

  lemma NoPackets()
    ensures Stream([]) == []
  {
  }
}
