/**
 The receive buffer of the TCP stack: a ring of 2048 bytes filled by the network callback and
 emptied by `read`, against a bounded queue. Arriving data is a byte sequence (`None` for a closed
 connection); the passing of time during `read` is the finite list of arrivals its polling sees.
 */
module RingBuffer {
  import opened Basics

  const BUF_SIZE := 2048
  const UINT16_LIMIT := 0x1_0000
  const UINT32_LIMIT := 0x1_0000_0000

  // ---------------------------------------------------------------- the queue

  datatype Fifo = Fifo(content: seq<byte>, dropped: nat)

  /** The bytes of `p` that still fit. */
  function Accepted(f: Fifo, p: seq<byte>): seq<byte>
    requires |f.content| <= BUF_SIZE
  {
    var room := BUF_SIZE - |f.content|;
    if |p| <= room then p else p[..room]
  }

  function Arrived(f: Fifo, p: Option<seq<byte>>): Fifo
    requires |f.content| <= BUF_SIZE
  {
    if p.None? then f
    else
      var a := Accepted(f, p.value);
      Fifo(f.content + a, (f.dropped + (|p.value| - |a|)) % UINT32_LIMIT)
  }

  function Taken(f: Fifo, len: nat): seq<byte> {
    f.content[..Min(|f.content|, len)]
  }

  function Rest(f: Fifo, len: nat): Fifo {
    f.(content := f.content[Min(|f.content|, len)..])
  }

  // ---------------------------------------------------------------- the ring as a value

  function Wrap(i: nat): (w: nat)
    ensures w < BUF_SIZE
    ensures i < BUF_SIZE ==> w == i
    ensures BUF_SIZE <= i < 2 * BUF_SIZE ==> w == i - BUF_SIZE
  {
    i % BUF_SIZE
  }

  /** Where the `k`-th unread byte stands. */
  function Index(rd: nat, k: nat): nat {
    if rd + k < BUF_SIZE then rd + k else rd + k - BUF_SIZE
  }

  /** The `count` bytes from `rd` on, around the end of the buffer. */
  function Ring(b: seq<byte>, rd: nat, count: nat): (s: seq<byte>)
    requires |b| == BUF_SIZE && rd < BUF_SIZE && count <= BUF_SIZE
    ensures |s| == count
  {
    seq(count, k requires 0 <= k < count => b[Index(rd, k)])
  }

  function Put(b: seq<byte>, at: nat, data: seq<byte>): (b': seq<byte>)
    requires at + |data| <= |b|
    ensures |b'| == |b|
  {
    b[..at] + data + b[at + |data|..]
  }

  /** One contiguous copy at the write index appends to the ring. */
  lemma PutAppends(b: seq<byte>, rd: nat, count: nat, wr: nat, data: seq<byte>)
    requires |b| == BUF_SIZE && rd < BUF_SIZE && count + |data| <= BUF_SIZE
    requires wr == Wrap(rd + count) && wr + |data| <= BUF_SIZE
    ensures Ring(Put(b, wr, data), rd, count + |data|) == Ring(b, rd, count) + data
  {
  }

  /** The write index after `n` more bytes. */
  lemma IndexAdvances(rd: nat, count: nat, wr: nat, n: nat)
    requires wr == Wrap(rd + count)
    ensures Wrap(wr + n) == Wrap(rd + count + n)
  {
  }

  /** Two copies, up to the end of the buffer and on from its start, append too. */
  lemma TwoPutsAppend(b: seq<byte>, rd: nat, count: nat, wr: nat, data: seq<byte>)
    requires |b| == BUF_SIZE && rd < BUF_SIZE && count + |data| <= BUF_SIZE
    requires wr == Wrap(rd + count) && wr + |data| > BUF_SIZE
    ensures var n := BUF_SIZE - wr;
            Ring(Put(Put(b, wr, data[..n]), 0, data[n..]), rd, count + |data|) == Ring(b, rd, count) + data
  {
  }

  /** One contiguous stretch from the read index on is the front of the ring. */
  lemma FrontOfRing(b: seq<byte>, rd: nat, count: nat, n: nat)
    requires |b| == BUF_SIZE && rd < BUF_SIZE && count <= BUF_SIZE && n <= count && rd + n <= BUF_SIZE
    ensures b[rd..rd + n] == Ring(b, rd, count)[..n]
    ensures Ring(b, Wrap(rd + n), count - n) == Ring(b, rd, count)[n..]
  {
  }

  lemma IndexInRange(rd: nat)
    requires rd < BUF_SIZE
    ensures Wrap(rd) == rd
  {
  }

  lemma IndexRecedes(rd: nat, count: nat, wr: nat, n: nat)
    requires wr == Wrap(rd + count) && n <= count
    ensures wr == Wrap(Wrap(rd + n) + (count - n))
  {
  }

  /** A front that reaches around the end of the buffer lies in two stretches. */
  lemma TwoStretches(b: seq<byte>, rd: nat, count: nat, n: nat)
    requires |b| == BUF_SIZE && rd < BUF_SIZE && n <= count <= BUF_SIZE && rd + n > BUF_SIZE
    ensures var first := BUF_SIZE - rd;
            && b[rd..rd + first] + b[0..n - first] == Ring(b, rd, count)[..n]
            && n - first < BUF_SIZE && n - first == Wrap(rd + n)
            && Ring(b, n - first, count - n) == Ring(b, rd, count)[n..]
  {
  }

  // ---------------------------------------------------------------- the ring in place

  class IPStack {
    const buffer: array<byte>
    var count: nat
    var wr: nat
    var rd: nat
    var dropped: nat

    ghost predicate Valid()
      reads this
    {
      && buffer.Length == BUF_SIZE && count <= BUF_SIZE && rd < BUF_SIZE && dropped < UINT32_LIMIT
      && wr == Wrap(rd + count)
    }

    /** The unread bytes, oldest first, and the drop counter. */
    ghost function Queue(): (f: Fifo)
      requires Valid()
      reads this, buffer
      ensures |f.content| == count
    {
      Fifo(Ring(buffer[..], rd, count), dropped)
    }

    /** The drop counter is not initialized by the source: it starts anywhere. */
    constructor (initialDropped: nat)
      requires initialDropped < UINT32_LIMIT
      ensures Valid() && fresh(buffer) && Queue() == Fifo([], initialDropped)
    {
      buffer := new byte[BUF_SIZE];
      count, wr, rd := 0, 0, 0;
      dropped := initialDropped;
    }

    /** `pbuf_copy_partial` into the ring at `at`. */
    method CopyIn(p: seq<byte>, at: nat, len: nat, offset: nat)
      requires offset + len <= |p| && at + len <= buffer.Length
      modifies buffer
      ensures buffer[..] == Put(old(buffer[..]), at, p[offset..offset + len])
    {
      for i := 0 to len
        invariant buffer[..] == Put(old(buffer[..]), at, p[offset..offset + i])
      {
        buffer[at + i] := p[offset + i];
      }
    }

    method TcpClientRecv(p: Option<seq<byte>>)
      requires Valid() && (p.Some? ==> |p.value| < UINT16_LIMIT)
      modifies this`count, this`wr, this`dropped, buffer
      ensures Valid() && Queue() == Arrived(old(Queue()), p)
    {
      if p.None? {
        return;
      }
      var totLen := |p.value|;
      if totLen > 0 {
        var available := BUF_SIZE - count;
        var bytesToCopy := if available > totLen then totLen else available;
        Receive(p.value, bytesToCopy);
        if bytesToCopy < totLen {
          dropped := (dropped + (totLen - bytesToCopy)) % UINT32_LIMIT;
        }
        assert p.value[..bytesToCopy] == Accepted(old(Queue()), p.value);
      } else {
        assert Accepted(old(Queue()), p.value) == [];
        assert old(Queue()).content + [] == old(Queue()).content;
      }
    }

    /** The copying part of the callback. */
    method Receive(p: seq<byte>, total: nat)
      requires Valid() && count + total <= BUF_SIZE && total <= |p|
      modifies this`count, this`wr, buffer
      ensures Valid() && Queue() == old(Queue()).(content := old(Queue()).content + p[..total])
    {
      hide Ring, Put, Wrap;
      ghost var b, data := buffer[..], p[..total];
      var bytesToCopy := total;
      var wrEnd := wr + bytesToCopy;
      var firstCopy := 0;
      IndexAdvances(rd, count, wr, total);
      if wrEnd > BUF_SIZE {
        firstCopy := BUF_SIZE - wr;
        TwoPutsAppend(b, rd, count, wr, data);
        assert p[..firstCopy] == data[..firstCopy] && p[firstCopy..total] == data[firstCopy..];
        if firstCopy > 0 {
          CopyIn(p, wr, firstCopy, 0);
          bytesToCopy := bytesToCopy - firstCopy;
          wr := 0;
        }
        count := count + firstCopy;
      } else {
        PutAppends(b, rd, count, wr, data);
      }
      CopyIn(p, wr, bytesToCopy, firstCopy);
      wr := wr + bytesToCopy;
      wr := Wrap(wr);
      count := count + bytesToCopy;
    }

    /** Arrivals seen by one pass of the network poll. */
    method Poll(arrivals: seq<Option<seq<byte>>>)
      requires Valid() && forall i :: 0 <= i < |arrivals| && arrivals[i].Some? ==> |arrivals[i].value| < UINT16_LIMIT
      modifies this`count, this`wr, this`dropped, buffer
      ensures Valid() && Queue() == AllArrived(old(Queue()), arrivals)
    {
      hide Arrived, Ring;
      for i := 0 to |arrivals|
        invariant Valid() && AllArrived(Queue(), arrivals[i..]) == AllArrived(old(Queue()), arrivals)
      {
        TcpClientRecv(arrivals[i]);
        assert arrivals[i..][1..] == arrivals[i + 1..];
      }
    }

    /**
     Polls until enough bytes are there or the time is up (`polls` is used up), then takes at most
     `len` bytes off the ring, in one or two copies.
     */
    method Read(out: array<byte>, len: nat, polls: seq<seq<Option<seq<byte>>>>) returns (n: nat, used: nat)
      requires Valid() && len <= out.Length && out != buffer && polls != []
      requires forall i, j :: 0 <= i < |polls| && 0 <= j < |polls[i]| && polls[i][j].Some? ==>
                 |polls[i][j].value| < UINT16_LIMIT
      modifies this`count, this`wr, this`rd, this`dropped, buffer, out
      ensures Valid() && 0 < used <= |polls|
      ensures var f := Polled(old(Queue()), polls[..used]);
              && Queue() == Rest(f, len) && n == |Taken(f, len)| && out[..n] == Taken(f, len)
              && (used < |polls| ==> |f.content| >= len)
      ensures forall k :: 0 < k < used ==> |Polled(old(Queue()), polls[..k]).content| < len
      ensures forall j :: n <= j < out.Length ==> out[j] == old(out[j])
      ensures var was, seen := old(Queue()), Arrivals(polls[..used]);
              && out[..n] + Queue().content == was.content + AllAccepted(was, seen)
              && n == Min(len, |was.content + AllAccepted(was, seen)|)
              && |AllAccepted(was, seen)| <= Offered(seen)
              && Queue().dropped == (was.dropped + (Offered(seen) - |AllAccepted(was, seen)|)) % 4294967296
    {
      hide Ring, AllArrived, Polled, AllAccepted, Arrivals;
      used := 0;
      ghost var start := Queue();
      NothingPolled(start);
      while used == 0 || (count < len && used < |polls|)
        invariant Valid() && used <= |polls| && Queue() == Polled(start, polls[..used])
        invariant forall k :: 0 < k < used ==> |Polled(start, polls[..k]).content| < len
        invariant forall j :: 0 <= j < out.Length ==> out[j] == old(out[j])
        decreases |polls| - used
      {
        Poll(polls[used]);
        PolledMore(start, polls, used);
        used := used + 1;
      }
      n := Dequeue(out, len);
      PolledConserves(start, polls[..used]);
    }

    method Dequeue(out: array<byte>, len: nat) returns (n: nat)
      requires Valid() && len <= out.Length && out != buffer
      modifies this`count, this`rd, out
      ensures Valid() && Queue() == Rest(old(Queue()), len)
      ensures n == |Taken(old(Queue()), len)| && out[..n] == Taken(old(Queue()), len)
      ensures forall j :: n <= j < out.Length ==> out[j] == old(out[j])
    {
      hide Ring, Wrap;
      ghost var was := Queue().content;
      var bytesToCopy := if count < len then count else len;
      IndexRecedes(rd, count, wr, bytesToCopy);
      if bytesToCopy > 0 {
        CopyFront(out, bytesToCopy);
      } else {
        IndexInRange(rd);
        assert was[0..] == was;
      }
      n := bytesToCopy;
    }

    /** The copying part of the read, in one or two pieces. */
    method CopyFront(out: array<byte>, total: nat)
      requires buffer.Length == BUF_SIZE && rd < BUF_SIZE && total <= count <= BUF_SIZE && 0 < total <= out.Length
               && out != buffer
      modifies this`count, this`rd, out
      ensures rd == Wrap(old(rd) + total) && count == old(count) - total
      ensures out[..total] == Ring(buffer[..], old(rd), old(count))[..total]
      ensures Ring(buffer[..], rd, count) == Ring(buffer[..], old(rd), old(count))[total..]
      ensures forall j :: total <= j < out.Length ==> out[j] == old(out[j])
    {
      hide Ring, Wrap;
      var bytesToCopy := total;
      var rdEnd := rd + bytesToCopy;
      if rdEnd > BUF_SIZE {
        TwoStretches(buffer[..], rd, count, total);
        var firstCopy := BUF_SIZE - rd;
        CopyOut(out, 0, rd, firstCopy);
        bytesToCopy := bytesToCopy - firstCopy;
        count := count - firstCopy;
        CopyOut(out, firstCopy, 0, bytesToCopy);
        rd := bytesToCopy;
      } else {
        FrontOfRing(buffer[..], rd, count, total);
        CopyOut(out, 0, rd, bytesToCopy);
        rd := Wrap(rd + bytesToCopy);
      }
      count := count - bytesToCopy;
    }

    method CopyOut(out: array<byte>, to: nat, from: nat, len: nat)
      requires from + len <= buffer.Length && to + len <= out.Length && out != buffer
      modifies out
      ensures out[..to + len] == old(out[..to]) + buffer[..][from..from + len]
      ensures forall j :: to + len <= j < out.Length ==> out[j] == old(out[j])
    {
      for i := 0 to len
        invariant out[..to + i] == old(out[..to]) + buffer[..][from..from + i]
        invariant forall j :: to + i <= j < out.Length ==> out[j] == old(out[j])
      {
        out[to + i] := buffer[from + i];
      }
    }
  }

  // ---------------------------------------------------------------- runs of the queue

  function AllArrived(f: Fifo, arrivals: seq<Option<seq<byte>>>): (f': Fifo)
    requires |f.content| <= BUF_SIZE
    ensures |f'.content| <= BUF_SIZE
    decreases |arrivals|
  {
    if arrivals == [] then f else AllArrived(Arrived(f, arrivals[0]), arrivals[1..])
  }

  function Polled(f: Fifo, polls: seq<seq<Option<seq<byte>>>>): (f': Fifo)
    requires |f.content| <= BUF_SIZE
    ensures |f'.content| <= BUF_SIZE
  {
    if polls == [] then f else AllArrived(Polled(f, polls[..|polls| - 1]), polls[|polls| - 1])
  }

  lemma NothingPolled(f: Fifo)
    requires |f.content| <= BUF_SIZE
    ensures forall polls: seq<seq<Option<seq<byte>>>> :: Polled(f, polls[..0]) == f
  {
  }

  lemma PolledMore(f: Fifo, polls: seq<seq<Option<seq<byte>>>>, k: nat)
    requires |f.content| <= BUF_SIZE && k < |polls|
    ensures Polled(f, polls[..k + 1]) == AllArrived(Polled(f, polls[..k]), polls[k])
  {
    assert polls[..k + 1][..k] == polls[..k];
  }

  datatype Event = Arrive(data: Option<seq<byte>>) | Take(len: nat)

  function Step(f: Fifo, e: Event): (f': Fifo)
    requires |f.content| <= BUF_SIZE
    ensures |f'.content| <= BUF_SIZE
  {
    match e
    case Arrive(data) => Arrived(f, data)
    case Take(len) => Rest(f, len)
  }

  function Run(f: Fifo, events: seq<Event>): (f': Fifo)
    requires |f.content| <= BUF_SIZE
    ensures |f'.content| <= BUF_SIZE
    decreases |events|
  {
    if events == [] then f else Run(Step(f, events[0]), events[1..])
  }

  function AcceptedBy(f: Fifo, e: Event): seq<byte>
    requires |f.content| <= BUF_SIZE
  {
    if e.Arrive? && e.data.Some? then Accepted(f, e.data.value) else []
  }

  function TakenBy(f: Fifo, e: Event): seq<byte> {
    if e.Take? then Taken(f, e.len) else []
  }

  function OfferedBy(e: Event): nat {
    if e.Arrive? && e.data.Some? then |e.data.value| else 0
  }

  /** All bytes taken in along a run, in order of arrival. */
  function AllAccepted(f: Fifo, events: seq<Event>): seq<byte>
    requires |f.content| <= BUF_SIZE
    decreases |events|
  {
    if events == [] then []
    else AcceptedBy(f, events[0]) + AllAccepted(Step(f, events[0]), events[1..])
  }

  /** All bytes handed out along a run, in order. */
  function AllTaken(f: Fifo, events: seq<Event>): seq<byte>
    requires |f.content| <= BUF_SIZE
    decreases |events|
  {
    if events == [] then []
    else TakenBy(f, events[0]) + AllTaken(Step(f, events[0]), events[1..])
  }

  function Offered(events: seq<Event>): nat {
    if events == [] then 0
    else OfferedBy(events[0]) + Offered(events[1..])
  }

  /**
   For every interleaving of arrivals and reads: what was read, followed by what is still in the
   ring, is what was there at first followed by all accepted bytes, each once and in order; and the
   drop counter has grown by exactly the bytes that were offered and not accepted.
   */
  lemma {:induction false} NothingLostOrReordered(f: Fifo, events: seq<Event>)
    requires |f.content| <= BUF_SIZE
    ensures AllTaken(f, events) + Run(f, events).content == f.content + AllAccepted(f, events)
    ensures |AllAccepted(f, events)| <= Offered(events)
    ensures f.dropped < UINT32_LIMIT ==>
              Run(f, events).dropped == (f.dropped + (Offered(events) - |AllAccepted(f, events)|)) % 4294967296
    decreases |events|
  {
    if events != [] {
      var e, more := events[0], events[1..];
      var g := Step(f, e);
      StepConserves(f, e);
      hide Step, AcceptedBy, TakenBy, OfferedBy;
      NothingLostOrReordered(g, more);
      Chain(f.content, AcceptedBy(f, e), TakenBy(f, e), g.content, AllTaken(g, more), AllAccepted(g, more),
            Run(g, more).content);
      if f.dropped < UINT32_LIMIT {
        DropsAddUp(f.dropped, OfferedBy(e) - |AcceptedBy(f, e)|, Offered(more) - |AllAccepted(g, more)|);
      }
    }
  }

  /** The arrivals of some polls, one after the other. */
  function Arrivals(polls: seq<seq<Option<seq<byte>>>>): seq<Event> {
    if polls == [] then [] else Arrivals(polls[..|polls| - 1]) + Each(polls[|polls| - 1])
  }

  function Each(arrivals: seq<Option<seq<byte>>>): seq<Event>
    decreases |arrivals|
  {
    if arrivals == [] then [] else [Arrive(arrivals[0])] + Each(arrivals[1..])
  }

  /** What arrives in one poll arrives like anything else: none of it is passed over. */
  lemma {:induction false} AllArrivedIsRun(f: Fifo, arrivals: seq<Option<seq<byte>>>)
    requires |f.content| <= BUF_SIZE
    ensures AllArrived(f, arrivals) == Run(f, Each(arrivals))
    decreases |arrivals|
  {
    if arrivals != [] {
      AllArrivedIsRun(Arrived(f, arrivals[0]), arrivals[1..]);
      assert Each(arrivals)[1..] == Each(arrivals[1..]);
    }
  }

  lemma {:induction false} RunsJoin(f: Fifo, a: seq<Event>, b: seq<Event>)
    requires |f.content| <= BUF_SIZE
    ensures Run(f, a + b) == Run(Run(f, a), b)
    decreases |a|
  {
    hide Step;
    if a == [] {
      assert a + b == b;
    } else {
      RunsJoin(Step(f, a[0]), a[1..], b);
      assert (a + b)[1..] == a[1..] + b;
    }
  }

  /** Polling is a run of its arrivals. */
  lemma {:induction false} PolledIsRun(f: Fifo, polls: seq<seq<Option<seq<byte>>>>)
    requires |f.content| <= BUF_SIZE
    ensures Polled(f, polls) == Run(f, Arrivals(polls)) && AllTaken(f, Arrivals(polls)) == []
    decreases |polls|
  {
    hide AllArrived, Each;
    if polls != [] {
      var n := |polls| - 1;
      PolledIsRun(f, polls[..n]);
      AllArrivedIsRun(Polled(f, polls[..n]), polls[n]);
      RunsJoin(f, Arrivals(polls[..n]), Each(polls[n]));
    }
    ArrivalsTakeNothing(polls);
    NoneTaken(f, Arrivals(polls));
  }

  lemma {:induction false} ArrivalsTakeNothing(polls: seq<seq<Option<seq<byte>>>>)
    ensures forall e :: e in Arrivals(polls) ==> e.Arrive?
    decreases |polls|
  {
    if polls != [] {
      ArrivalsTakeNothing(polls[..|polls| - 1]);
      EachArrives(polls[|polls| - 1]);
    }
  }

  lemma {:induction false} EachArrives(arrivals: seq<Option<seq<byte>>>)
    ensures forall e :: e in Each(arrivals) ==> e.Arrive?
    decreases |arrivals|
  {
    if arrivals != [] {
      EachArrives(arrivals[1..]);
    }
  }

  lemma {:induction false} NoneTaken(f: Fifo, events: seq<Event>)
    requires |f.content| <= BUF_SIZE && forall e :: e in events ==> e.Arrive?
    ensures AllTaken(f, events) == []
    decreases |events|
  {
    hide Step;
    if events != [] {
      assert events[0] in events;
      NoneTaken(Step(f, events[0]), events[1..]);
    }
  }

  /** Polling and one read lose nothing: what is read and what stays is what was there and was accepted. */
  lemma PolledConserves(f: Fifo, polls: seq<seq<Option<seq<byte>>>>)
    requires |f.content| <= BUF_SIZE && f.dropped < UINT32_LIMIT
    ensures var g, seen := Polled(f, polls), Arrivals(polls);
            && g.content == f.content + AllAccepted(f, seen) && |AllAccepted(f, seen)| <= Offered(seen)
            && g.dropped == (f.dropped + (Offered(seen) - |AllAccepted(f, seen)|)) % 4294967296
  {
    hide Polled, Run, Arrivals, AllAccepted, AllTaken, Offered;
    PolledIsRun(f, polls);
    NothingLostOrReordered(f, Arrivals(polls));
  }

  lemma TwoAccepted(a: byte, b: byte)
    ensures var polls: seq<seq<Option<seq<byte>>>> := [[Some([a]), Some([b])]];
            forall d :: AllAccepted(Fifo([], d), Arrivals(polls)) == [a, b]
  {
    var polls: seq<seq<Option<seq<byte>>>> := [[Some([a]), Some([b])]];
    var none: seq<Option<seq<byte>>>, second: seq<Option<seq<byte>>> := [], [Some([b])];
    var both: seq<Option<seq<byte>>> := [Some([a]), Some([b])];
    assert second[1..] == none && both[1..] == second;
    assert Each(second) == [Arrive(Some([b]))] && Each(both) == [Arrive(Some([a]))] + Each(second);
    assert polls[..0] == [] && Arrivals(polls) == Arrivals([]) + Each(both);
    var seen := [Arrive(Some([a])), Arrive(Some([b]))];
    assert Arrivals(polls) == seen && seen[1..] == [Arrive(Some([b]))] && seen[1..][1..] == [];
    forall d
      ensures AllAccepted(Fifo([], d), seen) == [a, b]
    {
      assert AllAccepted(Step(Fifo([], d), seen[0]), seen[1..]) == [b];
    }
  }

  /** Two buffers that come in during one poll are both read. */
  method TwoArrivalsAreRead() returns (out: array<byte>, n: nat)
    ensures n == 2 && out.Length == 2 && out[..] == [1, 2]
  {
    var stack := new IPStack(0);
    out := new byte[2];
    var used;
    var polls: seq<seq<Option<seq<byte>>>> := [[Some([1]), Some([2])]];
    TwoAccepted(1, 2);
    hide Arrivals, AllAccepted, Polled, Offered, IPStack.Valid, Taken, Rest;
    n, used := stack.Read(out, 2, polls);
    assert polls[..used] == polls;
    assert [] + [1, 2] == [1, 2];
    assert |out[..n] + stack.Queue().content| == 2;
  }

  lemma Chain(f: seq<byte>, accepted: seq<byte>, taken: seq<byte>, g: seq<byte>, later: seq<byte>, more: seq<byte>,
              end: seq<byte>)
    requires taken + g == f + accepted && later + end == g + more
    ensures (taken + later) + end == f + (accepted + more)
  {
    assert (taken + later) + end == taken + (later + end);
    assert taken + (g + more) == (taken + g) + more;
  }

  /** One event neither loses nor reorders a byte. */
  lemma StepConserves(f: Fifo, e: Event)
    requires |f.content| <= BUF_SIZE
    ensures TakenBy(f, e) + Step(f, e).content == f.content + AcceptedBy(f, e)
    ensures |AcceptedBy(f, e)| <= OfferedBy(e) && |Step(f, e).content| <= BUF_SIZE
    ensures f.dropped < UINT32_LIMIT ==>
              Step(f, e).dropped == (f.dropped + (OfferedBy(e) - |AcceptedBy(f, e)|)) % UINT32_LIMIT
  {
  }

  lemma DropsAddUp(d: nat, a: nat, b: nat)
    ensures ((d + a) % UINT32_LIMIT + b) % UINT32_LIMIT == (d + (a + b)) % UINT32_LIMIT
  {
  }

  /** Nothing is refused while there is room for it. */
  lemma AcceptedWhileItFits(f: Fifo, p: seq<byte>)
    requires |f.content| <= BUF_SIZE
    ensures Accepted(f, p) <= p
    ensures Accepted(f, p) != p <==> |f.content| + |p| > 2048
    ensures Accepted(f, p) != p ==> |Arrived(f, Some(p)).content| == 2048
  {
  }
}
