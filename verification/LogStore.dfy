/**
 The two EEPROM log regions and their cursors. The EEPROM is an array of bytes with atomic page
 writes; the clock reading taken by a push is a parameter.
 */
module LogStore {
  import opened Basics
  import Crc = LogCrc

  const LOG_LEN := 6
  const LOG_SIZE := 8
  const LOG_ARR_LEN := 8
  const MAX_LOGS := 256
  const LOG_START_ADDR := 0
  const LOG_END_ADDR := LOG_START_ADDR + MAX_LOGS * LOG_SIZE
  const REBOOT_STATUS_START_ADDR := LOG_END_ADDR + LOG_SIZE
  const REBOOT_STATUS_END_ADDR := REBOOT_STATUS_START_ADDR + MAX_LOGS * LOG_SIZE

  datatype Region = MsgLog | RebootStatus

  function Start(region: Region): nat {
    match region
    case MsgLog => LOG_START_ADDR
    case RebootStatus => REBOOT_STATUS_START_ADDR
  }

  function End(region: Region): nat {
    match region
    case MsgLog => LOG_END_ADDR
    case RebootStatus => REBOOT_STATUS_END_ADDR
  }

  function Other(region: Region): Region {
    if region.MsgLog? then RebootStatus else MsgLog
  }

  datatype Record = Record(code: bv8, timestamp: bv32)

  type Memory = m: seq<bv8> | |m| >= REBOOT_STATUS_END_ADDR witness seq(REBOOT_STATUS_END_ADDR, i => 0)

  // ---------------------------------------------------------------- records as bytes

  function Msb(t: bv32): bv8 {
    (t >> 24) as bv8
  }

  function Msb1(t: bv32): bv8 {
    ((t >> 16) & 0xFF) as bv8
  }

  function Msb2(t: bv32): bv8 {
    ((t >> 8) & 0xFF) as bv8
  }

  function Lsb(t: bv32): bv8 {
    (t & 0xFF) as bv8
  }

  function Encode(r: Record): seq<bv8> {
    [1, r.code, Msb(r.timestamp), Msb1(r.timestamp), Msb2(r.timestamp), Lsb(r.timestamp)]
  }

  /** The eight bytes that go into one slot. */
  function Page(r: Record): (p: seq<bv8>)
    ensures |p| == LOG_SIZE
  {
    Crc.Sealed(Encode(r))
  }

  function Decode(p: seq<bv8>): Record
    requires |p| == LOG_SIZE
  {
    Record(p[1], (p[2] as bv32 << 24) | (p[3] as bv32 << 16) | (p[4] as bv32 << 8) | p[5] as bv32)
  }

  /** The test that the log printer applies to a slot. */
  predicate Readable(p: seq<bv8>)
    requires |p| == LOG_SIZE
  {
    p[0] == 1 && Crc.Crc(p) == 0
  }

  lemma TimestampBytes(t: bv32)
    ensures (Msb(t) as bv32 << 24) | (Msb1(t) as bv32 << 16) | (Msb2(t) as bv32 << 8) | Lsb(t) as bv32 == t
  {
  }

  lemma PageReadsBack(r: Record)
    ensures Readable(Page(r)) && Decode(Page(r)) == r
  {
    hide Crc.Crc, High, Low, Msb, Msb1, Msb2, Lsb;
    var data := Encode(r);
    var c := Crc.Crc(data);
    Crc.VerifiesExactlyWhenSealed(data, High(c), Low(c));
    TimestampBytes(r.timestamp);
  }

  /** Byte by byte: in use, code, time stamp with its highest byte first, checksum high byte first. */
  lemma PageInBytes(r: Record)
    ensures var p := Page(r);
            && |p| == 8 && p[0] == 1 && p[1] == r.code
            && (p[2] as bv32) == r.timestamp >> 24 && (p[3] as bv32) == (r.timestamp >> 16) & 0xFF
            && (p[4] as bv32) == (r.timestamp >> 8) & 0xFF && (p[5] as bv32) == r.timestamp & 0xFF
            && ((p[6] as bv16) << 8) | (p[7] as bv16) == Crc.Crc(p[..6])
  {
    var data, p := Encode(r), Page(r);
    assert p[..6] == data;
    BytesOf(r.timestamp);
    hide Crc.Crc, Msb, Msb1, Msb2, Lsb;
    WordInBytes(Crc.Crc(data));
  }

  lemma BytesOf(t: bv32)
    ensures (Msb(t) as bv32) == t >> 24 && (Msb1(t) as bv32) == (t >> 16) & 0xFF
    ensures (Msb2(t) as bv32) == (t >> 8) & 0xFF && (Lsb(t) as bv32) == t & 0xFF
  {
  }

  /** A slot is printed exactly when it is in use and its last two bytes are the checksum of the others. */
  lemma ReadableMeansIntact(p: seq<bv8>)
    requires |p| == 8
    ensures Readable(p) <==> p[0] == 1 && p[6] == High(Crc.Crc(p[..6])) && p[7] == Low(Crc.Crc(p[..6]))
  {
    hide Crc.Crc, High, Low;
    var data := p[..6];
    var c := Crc.Crc(data);
    assert p == data + [p[6], p[7]];
    Crc.VerifiesExactlyWhenSealed(data, p[6], p[7]);
    assert Crc.Sealed(data)[6] == High(c) && Crc.Sealed(data)[7] == Low(c);
    if p[6] == High(c) && p[7] == Low(c) {
      assert p == data + [High(c), Low(c)] == Crc.Sealed(data);
    }
  }

  // ---------------------------------------------------------------- memory images

  function Slot(m: Memory, region: Region, i: nat): (p: seq<bv8>)
    requires i < MAX_LOGS
    ensures |p| == LOG_SIZE
  {
    m[Start(region) + LOG_SIZE * i..Start(region) + LOG_SIZE * i + LOG_SIZE]
  }

  predicate Used(m: Memory, region: Region, i: nat)
    requires i < MAX_LOGS
  {
    m[Start(region) + LOG_SIZE * i] != 0
  }

  /** The slots below `|records|` hold exactly `records`; all others are free. */
  ghost predicate Holds(m: Memory, region: Region, records: seq<Record>) {
    && |records| <= MAX_LOGS
    && (forall i :: 0 <= i < |records| ==> Slot(m, region, i) == Page(records[i]))
    && (forall i :: |records| <= i < MAX_LOGS ==> !Used(m, region, i))
  }

  function Written(m: Memory, addr: nat, data: seq<bv8>): (m': Memory)
    requires addr + |data| <= |m|
    ensures |m'| == |m|
  {
    m[..addr] + data + m[addr + |data|..]
  }

  /** The use byte of the first `n` slots is zeroed. */
  function Cleared(m: Memory, region: Region, n: nat): (m': Memory)
    requires n <= MAX_LOGS
    ensures |m'| == |m|
  {
    seq(|m|, j requires 0 <= j < |m| =>
      if Start(region) <= j < Start(region) + LOG_SIZE * n && (j - Start(region)) % LOG_SIZE == 0 then 0 else m[j])
  }

  /** 256 slots of eight bytes each: the messages from address 0, the reboots from 2056 on. */
  lemma SlotsInBytes(m: Memory, i: nat)
    requires i < 256
    ensures i < MAX_LOGS && |m| >= 4104
    ensures Slot(m, MsgLog, i) == m[8 * i..8 * i + 8] && Slot(m, RebootStatus, i) == m[2056 + 8 * i..2064 + 8 * i]
    ensures (Used(m, MsgLog, i) <==> m[8 * i] != 0) && (Used(m, RebootStatus, i) <==> m[2056 + 8 * i] != 0)
  {
  }

  /** Clearing zeroes the first byte of every slot and leaves every other byte of the memory as it is. */
  lemma ClearedInBytes(m: Memory, region: Region)
    ensures var m', start := Cleared(m, region, 256), if region.MsgLog? then 0 else 2056;
            && (forall i :: 0 <= i < 256 ==> m'[start + 8 * i] == 0)
            && forall j :: 0 <= j < |m| && (j < start || j >= start + 2048 || (j - start) % 8 != 0) ==> m'[j] == m[j]
  {
    var start := Start(region);
    var m' := Cleared(m, region, 256);
    forall i | 0 <= i < 256
      ensures m'[start + 8 * i] == 0
    {
      assert start <= start + 8 * i < start + 2048 <= |m| && (start + 8 * i - start) % 8 == 0;
    }
  }

  /** The first free slot at or after `i`, `MAX_LOGS` when there is none. */
  function FirstFree(m: Memory, region: Region, i: nat): (k: nat)
    requires i <= MAX_LOGS
    ensures i <= k <= MAX_LOGS
    ensures forall j :: i <= j < k ==> Used(m, region, j)
    ensures k < MAX_LOGS ==> !Used(m, region, k)
    decreases |m|, MAX_LOGS - i
  {
    if i == MAX_LOGS || !Used(m, region, i) then i else FirstFree(m, region, i + 1)
  }

  lemma PageIsUsed(r: Record)
    ensures Page(r)[0] == 1
  {
  }

  lemma UsedIsSlotHead(m: Memory, region: Region, i: nat)
    requires i < MAX_LOGS
    ensures Used(m, region, i) <==> Slot(m, region, i)[0] != 0
  {
  }

  /** The scan finds the cursor. */
  lemma ScanFindsCursor(m: Memory, region: Region, records: seq<Record>)
    requires Holds(m, region, records)
    ensures FirstFree(m, region, 0) == |records|
  {
    hide Slot, Used, Page;
    var k, n := FirstFree(m, region, 0), |records|;
    assert n < MAX_LOGS ==> !Used(m, region, n);
    if k < n {
      PageIsUsed(records[k]);
      UsedIsSlotHead(m, region, k);
    }
  }

  lemma WriteFillsSlot(m: Memory, region: Region, i: nat, page: seq<bv8>)
    requires i < MAX_LOGS && |page| == LOG_SIZE
    ensures var m' := Written(m, Start(region) + LOG_SIZE * i, page);
            && Slot(m', region, i) == page
            && (forall j :: 0 <= j < MAX_LOGS && j != i ==> Slot(m', region, j) == Slot(m, region, j))
            && (forall j :: 0 <= j < MAX_LOGS ==> Slot(m', Other(region), j) == Slot(m, Other(region), j))
  {
  }

  /** A page written into the first free slot appends its record, and does not touch the other region. */
  lemma WriteAppends(m: Memory, region: Region, records: seq<Record>, others: seq<Record>, r: Record)
    requires Holds(m, region, records) && |records| < MAX_LOGS && Holds(m, Other(region), others)
    ensures var m' := Written(m, Start(region) + LOG_SIZE * |records|, Page(r));
            Holds(m', region, records + [r]) && Holds(m', Other(region), others)
  {
    hide Slot, Used, Page;
    var m' := Written(m, Start(region) + LOG_SIZE * |records|, Page(r));
    WriteFillsSlot(m, region, |records|, Page(r));
    forall i | 0 <= i < MAX_LOGS
      ensures i != |records| ==> (Used(m', region, i) <==> Used(m, region, i))
      ensures Used(m', Other(region), i) <==> Used(m, Other(region), i)
    {
      UsedIsSlotHead(m, region, i);
      UsedIsSlotHead(m', region, i);
      UsedIsSlotHead(m, Other(region), i);
      UsedIsSlotHead(m', Other(region), i);
    }
  }

  lemma ClearKeepsOther(m: Memory, region: Region, i: nat)
    requires i < MAX_LOGS
    ensures var m' := Cleared(m, region, MAX_LOGS);
            !Used(m', region, i) && Slot(m', Other(region), i) == Slot(m, Other(region), i)
            && (Used(m', Other(region), i) <==> Used(m, Other(region), i))
  {
  }

  lemma ClearEmpties(m: Memory, region: Region, others: seq<Record>)
    requires Holds(m, Other(region), others)
    ensures Holds(Cleared(m, region, MAX_LOGS), region, [])
            && Holds(Cleared(m, region, MAX_LOGS), Other(region), others)
  {
    hide Slot, Used, Page, Cleared;
    forall i | 0 <= i < MAX_LOGS
      ensures !Used(Cleared(m, region, MAX_LOGS), region, i)
      ensures Slot(Cleared(m, region, MAX_LOGS), Other(region), i) == Slot(m, Other(region), i)
      ensures Used(Cleared(m, region, MAX_LOGS), Other(region), i) <==> Used(m, Other(region), i)
    {
      ClearKeepsOther(m, region, i);
    }
  }

  // ---------------------------------------------------------------- the log as a state machine

  /** EEPROM contents and the two cursors held in RAM. */
  datatype Image = Image(mem: Memory, msgAddr: nat, rebootAddr: nat) {
    function Addr(region: Region): nat {
      if region.MsgLog? then msgAddr else rebootAddr
    }

    function At(region: Region, addr: nat): Image {
      if region.MsgLog? then this.(msgAddr := addr) else this.(rebootAddr := addr)
    }
  }

  function Incremented(img: Image, region: Region): Image {
    var addr := img.Addr(region) + LOG_SIZE;
    if addr >= End(region) then img.(mem := Cleared(img.mem, region, MAX_LOGS)).At(region, Start(region))
    else img.At(region, addr)
  }

  function Entered(img: Image, region: Region, r: Record): Image
    requires img.Addr(region) + LOG_SIZE <= |img.mem|
  {
    img.(mem := Written(img.mem, img.Addr(region), Page(r)))
  }

  function Pushed(img: Image, region: Region, r: Record): Image
    requires img.Addr(region) + LOG_SIZE <= |img.mem|
  {
    Incremented(Entered(img, region, r), region)
  }

  /** The boot scan of one region. */
  function Found(img: Image, region: Region): Image {
    var k := FirstFree(img.mem, region, 0);
    if k < MAX_LOGS then img.At(region, Start(region) + LOG_SIZE * k)
    else img.(mem := Cleared(img.mem, region, MAX_LOGS)).At(region, Start(region))
  }

  function Booted(m: Memory): Image {
    Found(Found(Image(m, 0, 0), MsgLog), RebootStatus)
  }

  /** `CutPush` loses power after the page write and before the cursor moves. */
  datatype Event = Push(region: Region, record: Record) | CutPush(region: Region, record: Record) | Reboot

  ghost predicate Represents(img: Image, region: Region, records: seq<Record>) {
    && |records| < MAX_LOGS
    && Holds(img.mem, region, records)
    && img.Addr(region) == Start(region) + LOG_SIZE * |records|
  }

  ghost predicate Tracks(img: Image, msgs: seq<Record>, reboots: seq<Record>) {
    Represents(img, MsgLog, msgs) && Represents(img, RebootStatus, reboots)
  }

  /** The slot after the last one is never used: filling the region empties it. */
  function Appended(records: seq<Record>, r: Record): seq<Record> {
    if |records| + 1 == MAX_LOGS then [] else records + [r]
  }

  function Step(img: Image, e: Event): Image
    requires e.Push? || e.CutPush? ==> img.Addr(e.region) + LOG_SIZE <= |img.mem|
  {
    match e
    case Push(region, r) => Pushed(img, region, r)
    case CutPush(region, r) => Booted(Entered(img, region, r).mem)
    case Reboot => Booted(img.mem)
  }

  function Logged(records: seq<Record>, region: Region, e: Event): seq<Record> {
    if (e.Push? || e.CutPush?) && e.region == region then Appended(records, e.record) else records
  }

  lemma PushAppends(img: Image, region: Region, records: seq<Record>, others: seq<Record>, r: Record)
    requires Represents(img, region, records) && Represents(img, Other(region), others)
    ensures Represents(Pushed(img, region, r), region, Appended(records, r))
    ensures Represents(Pushed(img, region, r), Other(region), others)
  {
    hide Holds, Cleared, Page;
    WriteAppends(img.mem, region, records, others, r);
    ClearEmpties(Entered(img, region, r).mem, region, others);
  }

  /** What the boot scan makes of a region that holds `records`. */
  function Recovered(records: seq<Record>): seq<Record> {
    if |records| == MAX_LOGS then [] else records
  }

  lemma ScanRecovers(img: Image, region: Region, records: seq<Record>, others: seq<Record>)
    requires Holds(img.mem, region, records) && Holds(img.mem, Other(region), others)
    ensures Represents(Found(img, region), region, Recovered(records))
    ensures Holds(Found(img, region).mem, Other(region), others)
    ensures Found(img, region).Addr(Other(region)) == img.Addr(Other(region))
  {
    hide Holds, Cleared, FirstFree;
    ScanFindsCursor(img.mem, region, records);
    assert |records| <= MAX_LOGS by { HoldsBounded(img.mem, region, records); }
    ClearEmpties(img.mem, region, others);
  }

  lemma HoldsBounded(m: Memory, region: Region, records: seq<Record>)
    requires Holds(m, region, records)
    ensures |records| <= MAX_LOGS
  {
  }

  lemma BootRecovers(m: Memory, msgs: seq<Record>, reboots: seq<Record>)
    requires Holds(m, MsgLog, msgs) && Holds(m, RebootStatus, reboots)
    ensures Tracks(Booted(m), Recovered(msgs), Recovered(reboots))
  {
    hide Holds, Found;
    var img := Image(m, 0, 0);
    ScanRecovers(img, MsgLog, msgs, reboots);
    ScanRecovers(Found(img, MsgLog), RebootStatus, reboots, Recovered(msgs));
  }

  /** Every event keeps cursor and contents in step; a cut push ends where a complete one does. */
  lemma StepTracks(img: Image, e: Event, msgs: seq<Record>, reboots: seq<Record>)
    requires Tracks(img, msgs, reboots)
    ensures e.Push? || e.CutPush? ==> img.Addr(e.region) + LOG_SIZE <= |img.mem|
    ensures Tracks(Step(img, e), Logged(msgs, MsgLog, e), Logged(reboots, RebootStatus, e))
  {
    hide Holds, Booted, Pushed, Page;
    match e
    case Push(region, r) =>
      if region.MsgLog? {
        PushAppends(img, MsgLog, msgs, reboots, r);
      } else {
        PushAppends(img, RebootStatus, reboots, msgs, r);
      }
    case CutPush(region, r) =>
      var m := Entered(img, region, r).mem;
      if region.MsgLog? {
        WriteAppends(img.mem, MsgLog, msgs, reboots, r);
        BootRecovers(m, msgs + [r], reboots);
      } else {
        WriteAppends(img.mem, RebootStatus, reboots, msgs, r);
        BootRecovers(m, msgs, reboots + [r]);
      }
    case Reboot =>
      BootRecovers(img.mem, msgs, reboots);
  }

  // ---------------------------------------------------------------- whole runs

  /** `run[i]` is the state before event `i`. */
  ghost predicate IsRun(run: seq<Image>, events: seq<Event>) {
    && |run| == |events| + 1
    && forall i :: 0 <= i < |events| ==>
         && (events[i].Push? || events[i].CutPush? ==> run[i].Addr(events[i].region) + LOG_SIZE <= |run[i].mem|)
         && run[i + 1] == Step(run[i], events[i])
  }

  /** The records pushed to `region`, oldest first. */
  function Pushes(events: seq<Event>, region: Region): seq<Record> {
    if events == [] then []
    else
      var e := events[|events| - 1];
      Pushes(events[..|events| - 1], region) + if (e.Push? || e.CutPush?) && e.region == region then [e.record] else []
  }

  /** What is left of `pushes` after the region was emptied for the last time. */
  function SinceWrap(pushes: seq<Record>): seq<Record> {
    pushes[MAX_LOGS * (|pushes| / MAX_LOGS)..]
  }

  /** The 256th push empties the region, and so on every 256 pushes. */
  lemma WrapsAt256(pushes: seq<Record>)
    ensures |SinceWrap(pushes)| == |pushes| % 256
    ensures forall i :: 0 <= i < |pushes| % 256 ==> SinceWrap(pushes)[i] == pushes[|pushes| - |pushes| % 256 + i]
  {
  }

  lemma SinceWrapExtends(pushes: seq<Record>, r: Record)
    ensures SinceWrap(pushes + [r]) == Appended(SinceWrap(pushes), r)
  {
    var n := |pushes|;
    assert (n + 1) / MAX_LOGS == n / MAX_LOGS || ((n + 1) / MAX_LOGS == n / MAX_LOGS + 1 && (n + 1) % MAX_LOGS == 0);
  }

  lemma LoggedExtends(events: seq<Event>, region: Region, e: Event)
    ensures SinceWrap(Pushes(events + [e], region)) == Logged(SinceWrap(Pushes(events, region)), region, e)
  {
    hide SinceWrap, Appended;
    assert (events + [e])[..|events|] == events;
    if (e.Push? || e.CutPush?) && e.region == region {
      SinceWrapExtends(Pushes(events, region), e.record);
    } else {
      assert Pushes(events, region) + [] == Pushes(events, region);
    }
  }

  /**
   From two empty regions, after any run of pushes, power cuts inside a push and reboots: each
   cursor stands right after the used slots, and those hold exactly the records pushed since the
   region was last emptied, in order.
   */
  lemma {:induction false} RunTracks(run: seq<Image>, events: seq<Event>)
    requires IsRun(run, events) && Tracks(run[0], [], [])
    ensures Tracks(run[|events|], SinceWrap(Pushes(events, MsgLog)), SinceWrap(Pushes(events, RebootStatus)))
    decreases |events|
  {
    hide Tracks, Step, Pushes, SinceWrap, Logged;
    if events == [] {
      EmptyPushes();
    } else {
      var n := |events| - 1;
      var before, e := events[..n], events[n];
      assert before + [e] == events;
      RunTracks(run[..n + 1], before);
      StepTracks(run[n], e, SinceWrap(Pushes(before, MsgLog)), SinceWrap(Pushes(before, RebootStatus)));
      LoggedExtends(before, MsgLog, e);
      LoggedExtends(before, RebootStatus, e);
    }
  }

  lemma EmptyPushes()
    ensures SinceWrap(Pushes([], MsgLog)) == [] && SinceWrap(Pushes([], RebootStatus)) == []
  {
  }

  /** A reboot at any point of any run finds the cursors and the contents unchanged. */
  lemma RebootIsInvisible(run: seq<Image>, events: seq<Event>)
    requires IsRun(run, events) && Tracks(run[0], [], [])
    ensures Booted(run[|events|].mem) == run[|events|]
  {
    hide Holds, FirstFree, Pushes, SinceWrap;
    RunTracks(run, events);
    var img := run[|events|];
    ScanFindsCursor(img.mem, MsgLog, SinceWrap(Pushes(events, MsgLog)));
    ScanFindsCursor(img.mem, RebootStatus, SinceWrap(Pushes(events, RebootStatus)));
  }

  // ---------------------------------------------------------------- reading the log back

  /** Address and contents of every slot from `i` on that passes the printer's test. */
  function Printed(m: Memory, region: Region, i: nat): seq<(nat, Record)>
    requires i <= MAX_LOGS
    decreases |m|, MAX_LOGS - i
  {
    if i == MAX_LOGS then []
    else
      (if Readable(Slot(m, region, i)) then [(Start(region) + LOG_SIZE * i, Decode(Slot(m, region, i)))] else [])
      + Printed(m, region, i + 1)
  }

  /** The records at their addresses. */
  function Listing(region: Region, records: seq<Record>, i: nat): seq<(nat, Record)>
    requires i <= |records|
    decreases |records| - i
  {
    if i == |records| then [] else [(Start(region) + LOG_SIZE * i, records[i])] + Listing(region, records, i + 1)
  }

  /** The lines of a listing: eight bytes from one address to the next. */
  lemma {:induction false} ListingInOrder(region: Region, records: seq<Record>, i: nat)
    requires i <= |records|
    ensures |Listing(region, records, i)| == |records| - i
    ensures forall k :: 0 <= k < |records| - i ==>
              Listing(region, records, i)[k] == ((if region.MsgLog? then 0 else 2056) + 8 * (i + k), records[i + k])
    decreases |records| - i
  {
    if i < |records| {
      ListingInOrder(region, records, i + 1);
      var all, more := Listing(region, records, i), Listing(region, records, i + 1);
      forall k | 0 <= k < |records| - i
        ensures all[k] == ((if region.MsgLog? then 0 else 2056) + 8 * (i + k), records[i + k])
      {
        if k > 0 {
          assert all[k] == more[k - 1];
        }
      }
    }
  }

  /** The printer lists exactly the records of the region, in order. */
  lemma {:induction false} PrintsTheRecords(m: Memory, region: Region, records: seq<Record>, i: nat)
    requires Holds(m, region, records) && i <= MAX_LOGS
    ensures Printed(m, region, i) == if i <= |records| then Listing(region, records, i) else []
    decreases MAX_LOGS - i
  {
    hide Slot, Used, Page, Readable, Decode, Printed;
    if i < MAX_LOGS {
      PrintedStep(m, region, i);
      PrintsTheRecords(m, region, records, i + 1);
      if i < |records| {
        PageReadsBack(records[i]);
      } else {
        FreeIsUnreadable(m, region, i);
      }
    } else {
      PrintedEnd(m, region);
    }
  }

  lemma FreeIsUnreadable(m: Memory, region: Region, i: nat)
    requires i < MAX_LOGS && !Used(m, region, i)
    ensures !Readable(Slot(m, region, i))
  {
  }

  /** After any run the printer shows what was pushed since the last wrap, in order, and nothing else. */
  lemma RunPrints(run: seq<Image>, events: seq<Event>, region: Region)
    requires IsRun(run, events) && Tracks(run[0], [], [])
    ensures Printed(run[|events|].mem, region, 0) == Listing(region, SinceWrap(Pushes(events, region)), 0)
  {
    hide Holds, Printed, Listing, SinceWrap, Pushes;
    RunTracks(run, events);
    PrintsTheRecords(run[|events|].mem, region, SinceWrap(Pushes(events, region)), 0);
  }

  // ---------------------------------------------------------------- the log handler

  class LogHandler {
    const eeprom: array<bv8>
    var unusedLogAddr: nat
    var unusedRebootStatusAddr: nat

    ghost predicate Valid()
      reads this, eeprom
    {
      && eeprom.Length >= REBOOT_STATUS_END_ADDR
      && unusedLogAddr < LOG_END_ADDR && unusedRebootStatusAddr < REBOOT_STATUS_END_ADDR
      && LOG_START_ADDR <= unusedLogAddr && REBOOT_STATUS_START_ADDR <= unusedRebootStatusAddr
      && unusedLogAddr % LOG_SIZE == 0 && unusedRebootStatusAddr % LOG_SIZE == 0
    }

    ghost function State(): Image
      reads this, eeprom
      requires eeprom.Length >= REBOOT_STATUS_END_ADDR
    {
      Image(eeprom[..], unusedLogAddr, unusedRebootStatusAddr)
    }

    /** Boot. */
    constructor (memory: array<bv8>)
      requires memory.Length >= REBOOT_STATUS_END_ADDR
      modifies memory
      ensures Valid() && eeprom == memory
      ensures State() == Booted(old(memory[..]))
    {
      eeprom := memory;
      unusedLogAddr, unusedRebootStatusAddr := 0, 0;
      new;
      hide Found, Cleared, FirstFree;
      FindFirstAvailableLog(MsgLog);
      FindFirstAvailableLog(RebootStatus);
    }

    method FindFirstAvailableLog(region: Region)
      requires eeprom.Length >= REBOOT_STATUS_END_ADDR
      modifies this, eeprom
      ensures State() == Found(old(State()), region)
    {
      hide Cleared;
      ghost var before := State();
      var logAddr := Start(region);
      var i := 0;
      while i < MAX_LOGS
        invariant i <= MAX_LOGS && logAddr == Start(region) + LOG_SIZE * i
        invariant FirstFree(before.mem, region, 0) == FirstFree(before.mem, region, i)
        invariant State() == before
      {
        assert before.mem[logAddr] == eeprom[logAddr];
        if eeprom[logAddr] == 0 {
          SetCursor(region, logAddr);
          return;
        }
        logAddr := logAddr + LOG_SIZE;
        i := i + 1;
      }
      ClearAllLogs(region);
    }

    method SetCursor(region: Region, addr: nat)
      requires eeprom.Length >= REBOOT_STATUS_END_ADDR
      modifies this
      ensures State() == old(State()).At(region, addr)
    {
      if region.MsgLog? {
        unusedLogAddr := addr;
      } else {
        unusedRebootStatusAddr := addr;
      }
    }

    method ClearAllLogs(region: Region)
      requires eeprom.Length >= REBOOT_STATUS_END_ADDR
      modifies this, eeprom
      ensures State() == old(State()).(mem := Cleared(old(eeprom[..]), region, MAX_LOGS)).At(region, Start(region))
    {
      var logAddr := Start(region);
      var i := 0;
      while i < MAX_LOGS
        invariant i <= MAX_LOGS && logAddr == Start(region) + LOG_SIZE * i
        invariant eeprom[..] == Cleared(old(eeprom[..]), region, i)
        invariant unusedLogAddr == old(unusedLogAddr) && unusedRebootStatusAddr == old(unusedRebootStatusAddr)
      {
        eeprom[logAddr] := 0;
        logAddr := logAddr + LOG_SIZE;
        i := i + 1;
      }
      SetCursor(region, Start(region));
    }

    method IncrementUnusedLogIndex(region: Region)
      requires eeprom.Length >= REBOOT_STATUS_END_ADDR
      modifies this, eeprom
      ensures State() == Incremented(old(State()), region)
    {
      var addr := (if region.MsgLog? then unusedLogAddr else unusedRebootStatusAddr) + LOG_SIZE;
      SetCursor(region, addr);
      if addr >= End(region) {
        ClearAllLogs(region);
      }
    }

    method EepromWritePage(address: nat, src: array<bv8>, size: nat)
      requires eeprom.Length >= REBOOT_STATUS_END_ADDR && address + size <= eeprom.Length
      requires size <= src.Length && src != eeprom
      modifies eeprom
      ensures eeprom[..] == Written(old(eeprom[..]), address, src[..size])
    {
      for i := 0 to size
        invariant eeprom[..] == Written(old(eeprom[..]), address, src[..i])
      {
        eeprom[address + i] := src[i];
      }
    }

    method CreateLogArray(log: array<bv8>, r: Record)
      requires log.Length >= LOG_LEN
      modifies log
      ensures log[..LOG_LEN] == Encode(r)
    {
      hide Msb, Msb1, Msb2, Lsb;
      log[0] := 1;
      log[1] := r.code;
      log[5] := Lsb(r.timestamp);
      log[4] := Msb2(r.timestamp);
      log[3] := Msb1(r.timestamp);
      log[2] := Msb(r.timestamp);
    }

    method EnterLogToEeprom(log: array<bv8>, logAddr: nat, ghost r: Record)
      requires eeprom.Length >= REBOOT_STATUS_END_ADDR && logAddr + LOG_SIZE <= eeprom.Length
      requires log.Length >= LOG_LEN && log != eeprom && log[..LOG_LEN] == Encode(r)
      modifies eeprom
      ensures eeprom[..] == Written(old(eeprom[..]), logAddr, Page(r))
    {
      hide Crc.Crc, High, Low, Encode, Written;
      var sealed := new bv8[LOG_LEN + 2];
      for i := 0 to LOG_LEN
        invariant sealed[..i] == log[..i] && eeprom[..] == old(eeprom[..])
      {
        sealed[i] := log[i];
      }
      assert sealed[..LOG_LEN] == Encode(r);
      var crc := Crc.Crc16(sealed, LOG_LEN);
      assert crc == Crc.Crc(Encode(r));
      sealed[LOG_LEN] := High(crc);
      sealed[LOG_LEN + 1] := Low(crc);
      assert sealed[..LOG_SIZE] == Encode(r) + [High(crc), Low(crc)];
      assert sealed[..LOG_SIZE] == Page(r);
      EepromWritePage(logAddr, sealed, LOG_SIZE);
    }

    method Push(region: Region, r: Record)
      requires Valid()
      modifies this, eeprom
      ensures Valid()
      ensures old(State()).Addr(region) + LOG_SIZE <= eeprom.Length
              && State() == Step(old(State()), Event.Push(region, r))
    {
      hide Written, Page, Cleared, Encode;
      var log := new bv8[LOG_LEN];
      CreateLogArray(log, r);
      EnterLogToEeprom(log, if region.MsgLog? then unusedLogAddr else unusedRebootStatusAddr, r);
      IncrementUnusedLogIndex(region);
    }

    method EepromReadPage(address: nat, dst: array<bv8>, size: nat)
      requires address + size <= eeprom.Length && dst.Length == size && dst != eeprom
      modifies dst
      ensures dst[..] == eeprom[address..address + size]
    {
      for i := 0 to size
        invariant dst[..i] == eeprom[address..address + i]
      {
        dst[i] := eeprom[address + i];
      }
    }

    method PrintValidLogs(region: Region) returns (lines: seq<(nat, Record)>)
      requires Valid()
      ensures lines == Printed(eeprom[..], region, 0)
    {
      hide Crc.Crc, Decode, Printed, Slot;
      ghost var m := eeprom[..];
      var logAddr := Start(region);
      var logData := new bv8[LOG_ARR_LEN];
      lines := [];
      var i := 0;
      while i < MAX_LOGS
        invariant i <= MAX_LOGS && logAddr == Start(region) + LOG_SIZE * i
        invariant eeprom[..] == m
        invariant lines + Printed(m, region, i) == Printed(m, region, 0)
      {
        EepromReadPage(logAddr, logData, LOG_ARR_LEN);
        SlotIsPage(m, region, i);
        assert logData[..LOG_ARR_LEN] == logData[..];
        var crc := Crc.Crc16(logData, LOG_ARR_LEN);
        PrintedStep(m, region, i);
        if logData[0] == 1 && crc == 0 {
          lines := lines + [(logAddr, Decode(logData[..]))];
        }
        logAddr := logAddr + LOG_SIZE;
        i := i + 1;
      }
      PrintedEnd(m, region);
    }
  }

  lemma SlotIsPage(m: Memory, region: Region, i: nat)
    requires i < MAX_LOGS
    ensures Slot(m, region, i) == m[Start(region) + LOG_SIZE * i..Start(region) + LOG_SIZE * i + LOG_ARR_LEN]
  {
  }

  lemma PrintedStep(m: Memory, region: Region, i: nat)
    requires i < MAX_LOGS
    ensures Printed(m, region, i) ==
            (if Readable(Slot(m, region, i)) then [(Start(region) + LOG_SIZE * i, Decode(Slot(m, region, i)))] else [])
            + Printed(m, region, i + 1)
  {
  }

  lemma PrintedEnd(m: Memory, region: Region)
    ensures Printed(m, region, MAX_LOGS) == []
  {
  }
}
