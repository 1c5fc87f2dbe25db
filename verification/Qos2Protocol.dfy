/**
 Incoming QoS 2 messages over whole runs: the client's ten-slot table of packet ids, a broker that
 sends as section 4.3.3 of MQTT Version 3.1.1 says, and a link that delivers in order but may break
 at any time and be set up again, with the session kept (`cleansession` false). What the client's side
 has received before a break may still be read after it: a break cuts off the tail of the stream only.
 */
module Qos2Protocol {
  import opened Basics

  const MAX_INCOMING_QOS2_MESSAGES := 10

  // ---------------------------------------------------------------- the table of packet ids

  /** Slots hold packet ids; zero marks a free slot. */
  type Table = t: seq<nat> | |t| == MAX_INCOMING_QOS2_MESSAGES witness [0, 0, 0, 0, 0, 0, 0, 0, 0, 0]

  /** The first slot at or after `i` that holds `x`, the table size when there is none. */
  function Find(t: Table, x: nat, i: nat): (k: nat)
    requires i <= |t|
    ensures i <= k <= |t| && (forall j :: i <= j < k ==> t[j] != x)
    ensures k < |t| ==> t[k] == x
    decreases |t| - i, t
  {
    if i == |t| || t[i] == x then i else Find(t, x, i + 1)
  }

  /** The first slot that holds `x`, if any, is given `y`. */
  function Replaced(t: Table, x: nat, y: nat): Table {
    var k := Find(t, x, 0);
    if k < |t| then t[k := y] else t
  }

  /** No id is held twice. */
  ghost predicate Distinct(t: Table) {
    forall i, j :: 0 <= i < j < |t| && t[i] != 0 ==> t[i] != t[j]
  }

  /** Taking a slot adds exactly one id; there is a slot exactly when a zero is left. */
  lemma UseAdds(t: Table, id: nat)
    requires Distinct(t) && id != 0 && id !in t && 0 in t
    ensures Distinct(Replaced(t, 0, id))
    ensures forall x :: x != 0 ==> (x in Replaced(t, 0, id) <==> x in t || x == id)
  {
    hide Find;
    var k := Find(t, 0, 0);
    var t' := Replaced(t, 0, id);
    assert t' == t[k := id] && t'[k] == id;
    forall x | x != 0
      ensures x in t' <==> x in t || x == id
    {
      if x in t {
        var j :| 0 <= j < |t| && t[j] == x;
        assert t'[j] == x;
      }
    }
  }

  /** Giving a slot back removes exactly one id. */
  lemma FreeRemoves(t: Table, id: nat)
    requires Distinct(t) && id != 0
    ensures Distinct(Replaced(t, id, 0))
    ensures forall x :: x != 0 ==> (x in Replaced(t, id, 0) <==> x in t && x != id)
  {
    hide Find;
    var k := Find(t, id, 0);
    var t' := Replaced(t, id, 0);
    forall x | x != 0
      ensures x in t' <==> x in t && x != id
    {
      if x in t && x != id {
        var j :| 0 <= j < |t| && t[j] == x;
        assert t'[j] == x;
      }
    }
  }

  // ---------------------------------------------------------------- the system

  /** Where the broker is with a packet id; `m` is the number of the message. */
  datatype Phase = Free | Publishing(m: nat) | Releasing(m: nat)

  datatype Down = Publish(id: nat, m: nat) | Pubrel(id: nat)

  datatype Up = Pubrec(id: nat) | Pubcomp(id: nat)

  datatype System = System(phase: map<nat, Phase>, down: seq<Down>, up: seq<Up>, connected: bool,
                           table: Table, delivered: seq<nat>, completed: set<nat>, next: nat,
                           overflowed: bool, doubtful: bool) {
    function PhaseOf(id: nat): Phase {
      if id in phase then phase[id] else Free
    }

    /** The client's acknowledgements all went out, or certainly did not, and its table never was full. */
    predicate Clean() {
      !overflowed && !doubtful
    }
  }

  function Initial(): System {
    System(map[], [], [], false, [0, 0, 0, 0, 0, 0, 0, 0, 0, 0], [], {}, 0, false, false)
  }

  /** What became of an acknowledgement: sent, not sent, or sent although the client saw a failure. */
  datatype Sending = Sent | NotSent | SentUnnoticed

  datatype Action =
    | Offer(id: nat)              // the broker starts a new message on a free id
    | Resend(id: nat)             // the broker repeats what it last sent for an id
    | BrokerReceives
    | ClientReceives(sending: Sending)
    | Break(kept: nat)            // of the packets on their way, the first `kept` were received already
    | Reconnect(kept: nat)

  predicate Enabled(s: System, a: Action) {
    match a
    case Offer(id) => 0 < id < 65536 && s.PhaseOf(id) == Free
    case Resend(id) => s.connected && s.PhaseOf(id) != Free
    case BrokerReceives => s.up != []
    case ClientReceives(_) => s.down != []
    case Break(kept) => s.connected && kept <= |s.down|
    case Reconnect(kept) => !s.connected && kept <= |s.down|
  }

  function Pushed(s: System, x: Down): System {
    if s.connected then s.(down := s.down + [x]) else s
  }

  /** The acknowledgement goes out or not. */
  function Answered(s: System, x: Up, sending: Sending): System {
    match sending
    case Sent => s.(up := s.up + [x])
    case NotSent => s
    case SentUnnoticed => s.(up := s.up + [x], doubtful := s.doubtful || x.Pubcomp?)
  }

  /** The client's part: deliver a message whose id is not in the table, and enter the id. */
  function Taken(s: System, id: nat, m: nat): System {
    if id in s.table then s
    else if 0 in s.table then s.(table := Replaced(s.table, 0, id), delivered := s.delivered + [m])
    else s.(overflowed := true)
  }

  function ClientStep(s: System, sending: Sending): System
    requires s.down != []
  {
    var x := s.down[0];
    var s' := s.(down := s.down[1..]);
    match x
    case Publish(id, m) => Answered(Taken(s', id, m), Pubrec(id), sending)
    case Pubrel(id) =>
      var s'' := Answered(s', Pubcomp(id), sending);
      if sending.Sent? then s''.(table := Replaced(s.table, id, 0)) else s''
  }

  function BrokerStep(s: System): System
    requires s.up != []
  {
    var x := s.up[0];
    var s' := s.(up := s.up[1..]);
    match x
    case Pubrec(id) =>
      if s.PhaseOf(id).Publishing? then Pushed(s'.(phase := s.phase[id := Releasing(s.PhaseOf(id).m)]), Pubrel(id))
      else s'
    case Pubcomp(id) =>
      if s.PhaseOf(id).Releasing? then s'.(phase := s.phase[id := Free], completed := s.completed + {s.PhaseOf(id).m})
      else s'
  }

  function Next(s: System, a: Action): System
    requires Enabled(s, a)
  {
    match a
    case Offer(id) => Pushed(s.(phase := s.phase[id := Publishing(s.next)], next := s.next + 1), Publish(id, s.next))
    case Resend(id) =>
      if s.PhaseOf(id).Publishing? then Pushed(s, Publish(id, s.PhaseOf(id).m)) else Pushed(s, Pubrel(id))
    case BrokerReceives => BrokerStep(s)
    case ClientReceives(sending) => ClientStep(s, sending)
    case Break(kept) => s.(connected := false, down := s.down[..kept])
    case Reconnect(kept) => s.(connected := true, down := s.down[..kept], up := [])
  }

  // ---------------------------------------------------------------- one id at a time

  function DownOf(q: seq<Down>, id: nat): (d: seq<Down>)
    ensures forall x :: x in d ==> x.id == id
  {
    if q == [] then [] else (if q[0].id == id then [q[0]] else []) + DownOf(q[1..], id)
  }

  function UpOf(q: seq<Up>, id: nat): (u: seq<Up>)
    ensures forall x :: x in u ==> x.id == id
  {
    if q == [] then [] else (if q[0].id == id then [q[0]] else []) + UpOf(q[1..], id)
  }

  lemma {:induction false} DownOfPush(q: seq<Down>, x: Down, id: nat)
    ensures DownOf(q + [x], id) == DownOf(q, id) + if x.id == id then [x] else []
    decreases |q|
  {
    if q == [] {
      assert (q + [x])[1..] == [];
    } else {
      DownOfPush(q[1..], x, id);
      assert (q + [x])[0] == q[0] && (q + [x])[1..] == q[1..] + [x];
      var head, tail := if q[0].id == id then [q[0]] else [], if x.id == id then [x] else [];
      assert head + (DownOf(q[1..], id) + tail) == head + DownOf(q[1..], id) + tail;
    }
  }

  lemma {:induction false} UpOfPush(q: seq<Up>, x: Up, id: nat)
    ensures UpOf(q + [x], id) == UpOf(q, id) + if x.id == id then [x] else []
    decreases |q|
  {
    if q == [] {
      assert (q + [x])[1..] == [];
    } else {
      UpOfPush(q[1..], x, id);
      assert (q + [x])[0] == q[0] && (q + [x])[1..] == q[1..] + [x];
      var head, tail := if q[0].id == id then [q[0]] else [], if x.id == id then [x] else [];
      assert head + (UpOf(q[1..], id) + tail) == head + UpOf(q[1..], id) + tail;
    }
  }

  ghost predicate AllPubrel(d: seq<Down>) {
    forall i :: 0 <= i < |d| ==> d[i].Pubrel?
  }

  ghost predicate AllPublish(d: seq<Down>, m: nat) {
    forall i :: 0 <= i < |d| ==> d[i].Publish? && d[i].m == m
  }

  ghost predicate AllPubrec(u: seq<Up>) {
    forall i :: 0 <= i < |u| ==> u[i].Pubrec?
  }

  ghost predicate AllPubcomp(u: seq<Up>) {
    forall i :: 0 <= i < |u| ==> u[i].Pubcomp?
  }

  /** Releases of an earlier message, then copies of message `m`. */
  ghost predicate ReleasesThenCopies(d: seq<Down>, m: nat) {
    && (forall i :: 0 <= i < |d| && d[i].Publish? ==> d[i].m == m)
    && (forall i, j :: 0 <= i < j < |d| && d[i].Publish? ==> d[j].Publish?)
  }

  ghost predicate CopiesThenReleases(d: seq<Down>, m: nat) {
    && (forall i :: 0 <= i < |d| && d[i].Publish? ==> d[i].m == m)
    && (forall i, j :: 0 <= i < j < |d| && d[i].Pubrel? ==> d[j].Pubrel?)
  }

  ghost predicate CompsThenRecs(u: seq<Up>) {
    forall i, j :: 0 <= i < j < |u| && u[i].Pubrec? ==> u[j].Pubrec?
  }

  ghost predicate RecsThenComps(u: seq<Up>) {
    forall i, j :: 0 <= i < j < |u| && u[i].Pubcomp? ==> u[j].Pubcomp?
  }

  /**
   What the broker's phase says about everything that is under way for one id: the order of the
   packets in both directions, whether the client holds the id, and how often the current message
   was delivered. `clean` adds what holds as long as nothing went unnoticed and no id was turned away.
   */
  ghost predicate Local(p: Phase, d: seq<Down>, u: seq<Up>, held: bool, count: nat, clean: bool) {
    match p
    case Free =>
      AllPubrel(d) && AllPubcomp(u) && (clean ==> !held)
    case Publishing(m) =>
      && ReleasesThenCopies(d, m) && CompsThenRecs(u)
      && (!AllPublish(d, m) ==> AllPubcomp(u))
      && (count > 0 ==> held && AllPublish(d, m))
      && (clean && count == 0 ==> !held && AllPubcomp(u))
    case Releasing(m) =>
      && CopiesThenReleases(d, m) && RecsThenComps(u)
      && (!AllPubrel(d) ==> AllPubrec(u))
      && (!AllPubrel(d) && count > 0 ==> held)
      && (clean ==> count == 1)
      && (clean && !AllPubrec(u) ==> !held)
  }

  lemma DownFront(d: seq<Down>, m: nat)
    requires d != []
    ensures AllPubrel(d) ==> AllPubrel(d[1..])
    ensures AllPublish(d, m) ==> AllPublish(d[1..], m)
    ensures ReleasesThenCopies(d, m) ==> ReleasesThenCopies(d[1..], m) && (d[0].Publish? ==> AllPublish(d, m))
    ensures CopiesThenReleases(d, m) ==> CopiesThenReleases(d[1..], m) && (d[0].Pubrel? ==> AllPubrel(d))
  {
  }

  lemma UpBack(u: seq<Up>, id: nat)
    ensures AllPubrec(u) ==> AllPubrec(u + [Pubrec(id)]) && RecsThenComps(u) && RecsThenComps(u + [Pubcomp(id)])
    ensures AllPubcomp(u) ==> AllPubcomp(u + [Pubcomp(id)]) && CompsThenRecs(u)
    ensures CompsThenRecs(u) ==> CompsThenRecs(u + [Pubrec(id)])
    ensures RecsThenComps(u) ==> RecsThenComps(u + [Pubcomp(id)])
  {
  }

  // what one event does to one id

  lemma BrokerOffers(d: seq<Down>, u: seq<Up>, held: bool, clean: bool, id: nat, m: nat, connected: bool)
    requires Local(Free, d, u, held, 0, clean)
    ensures Local(Publishing(m), if connected then d + [Publish(id, m)] else d, u, held, 0, clean)
  {
  }

  lemma BrokerResends(p: Phase, d: seq<Down>, u: seq<Up>, held: bool, count: nat, clean: bool, id: nat)
    requires p != Free && Local(p, d, u, held, count, clean)
    ensures Local(p, d + [if p.Publishing? then Publish(id, p.m) else Pubrel(id)], u, held, count, clean)
  {
  }

  lemma BrokerSeesPubrec(p: Phase, d: seq<Down>, u: seq<Up>, held: bool, count: nat, clean: bool, id: nat,
                         connected: bool)
    requires Local(p, d, u, held, count, clean) && u != [] && u[0].Pubrec? && count <= 1
    ensures p != Free
    ensures p.Releasing? ==> Local(p, d, u[1..], held, count, clean)
    ensures p.Publishing? ==>
              Local(Releasing(p.m), if connected then d + [Pubrel(id)] else d, u[1..], held, count, clean)
  {
  }

  lemma BrokerSeesPubcomp(p: Phase, d: seq<Down>, u: seq<Up>, held: bool, count: nat, clean: bool)
    requires Local(p, d, u, held, count, clean) && u != [] && u[0].Pubcomp?
    ensures !p.Releasing? ==> Local(p, d, u[1..], held, count, clean)
    ensures p.Releasing? ==> Local(Free, d, u[1..], held, 0, clean) && (clean ==> count == 1)
  {
  }

  lemma LinkCuts(p: Phase, d: seq<Down>, u: seq<Up>, held: bool, count: nat, clean: bool, j: nat)
    requires Local(p, d, u, held, count, clean) && j <= |d|
    ensures Local(p, d[..j], u, held, count, clean) && Local(p, d[..j], [], held, count, clean)
  {
  }

  /** What is left of the stream after a cut is a beginning of it, for every id. */
  lemma {:induction false} DownOfCut(q: seq<Down>, k: nat, id: nat) returns (j: nat)
    requires k <= |q|
    ensures j <= |DownOf(q, id)| && DownOf(q[..k], id) == DownOf(q, id)[..j]
    decreases |q|
  {
    j := 0;
    if k > 0 {
      j := DownOfCut(q[1..], k - 1, id);
      assert q[..k][1..] == q[1..][..k - 1];
      if q[0].id == id {
        j := j + 1;
      }
    }
  }

  lemma CleanIsLost(p: Phase, d: seq<Down>, u: seq<Up>, held: bool, count: nat, clean: bool)
    requires Local(p, d, u, held, count, clean)
    ensures Local(p, d, u, held, count, false)
  {
  }

  /** The client takes a copy: it delivers only what was not delivered before. */
  lemma ClientTakesCopy(p: Phase, d: seq<Down>, u: seq<Up>, held: bool, count: nat, clean: bool, id: nat)
    requires Local(p, d, u, held, count, clean) && d != [] && d[0].Publish?
    ensures p != Free && p.m == d[0].m
    ensures held ==> Local(p, d[1..], u + [Pubrec(id)], held, count, clean) && Local(p, d[1..], u, held, count, clean)
    ensures !held ==> count == 0
                      && Local(p, d[1..], u + [Pubrec(id)], true, 1, clean) && Local(p, d[1..], u, true, 1, clean)
    ensures !held ==> Local(p, d[1..], u + [Pubrec(id)], false, 0, false) && Local(p, d[1..], u, false, 0, false)
  {
    DownFront(d, if p.Free? then 0 else p.m);
    UpBack(u, id);
  }

  lemma ClientReleases(p: Phase, d: seq<Down>, u: seq<Up>, held: bool, count: nat, clean: bool, id: nat)
    requires Local(p, d, u, held, count, clean) && d != [] && d[0].Pubrel?
    ensures Local(p, d[1..], u + [Pubcomp(id)], false, count, clean)
    ensures Local(p, d[1..], u + [Pubcomp(id)], held, count, false)
    ensures Local(p, d[1..], u, held, count, clean)
  {
  }

  // ---------------------------------------------------------------- the invariant

  /** How often message `m` was delivered. */
  ghost function Times(delivered: seq<nat>, m: nat): nat {
    multiset(delivered)[m]
  }

  lemma TimesOfPush(delivered: seq<nat>, m: nat, x: nat)
    ensures Times(delivered + [m], x) == Times(delivered, x) + if x == m then 1 else 0
  {
  }

  /** How often the message the broker is sending under `id` was delivered. */
  ghost function Current(s: System, id: nat): nat {
    if s.PhaseOf(id) == Free then 0 else Times(s.delivered, s.PhaseOf(id).m)
  }

  ghost predicate LocalAt(s: System, id: nat) {
    Local(s.PhaseOf(id), DownOf(s.down, id), UpOf(s.up, id), id in s.table, Current(s, id), s.Clean())
  }

  /** Messages in progress are known and different from each other and from the completed ones. */
  ghost predicate Separate(phase: map<nat, Phase>, completed: set<nat>, next: nat) {
    && (forall id :: id in phase && phase[id] != Free ==> id != 0 && phase[id].m < next && phase[id].m !in completed)
    && (forall a, b :: a in phase && b in phase && a != b && phase[a] != Free && phase[b] != Free ==>
          phase[a].m != phase[b].m)
    && (forall m :: m in completed ==> m < next)
  }

  ghost predicate Counted(delivered: seq<nat>, completed: set<nat>, next: nat, clean: bool) {
    && (forall m :: Times(delivered, m) <= 1)
    && (forall m :: m >= next ==> Times(delivered, m) == 0)
    && (clean ==> forall m :: m in completed ==> Times(delivered, m) == 1)
  }

  ghost predicate IdsNonzero(s: System) {
    && (forall i :: 0 <= i < |s.down| ==> s.down[i].id != 0)
    && (forall i :: 0 <= i < |s.up| ==> s.up[i].id != 0)
  }

  ghost predicate Inv(s: System) {
    && Distinct(s.table) && IdsNonzero(s) && Separate(s.phase, s.completed, s.next)
    && Counted(s.delivered, s.completed, s.next, s.Clean())
    && forall id :: id != 0 ==> LocalAt(s, id)
  }

  lemma InitialInv()
    ensures Inv(Initial())
  {
  }

  lemma OfferKeeps(s: System, id: nat)
    requires Inv(s) && Enabled(s, Offer(id))
    ensures Inv(Next(s, Offer(id)))
  {
    hide Local, DownOf, UpOf, Times;
    var s' := Next(s, Offer(id));
    forall x | x != 0
      ensures LocalAt(s', x)
    {
      assert LocalAt(s, x);
      DownOfPush(s.down, Publish(id, s.next), x);
      if x == id {
        BrokerOffers(DownOf(s.down, id), UpOf(s.up, id), id in s.table, s.Clean(), id, s.next, s.connected);
      } else {
        assert DownOf(s.down, x) + [] == DownOf(s.down, x);
      }
    }
  }

  lemma ResendKeeps(s: System, id: nat)
    requires Inv(s) && Enabled(s, Resend(id))
    ensures Inv(Next(s, Resend(id)))
  {
    hide Local, DownOf, UpOf, Times;
    var p := s.PhaseOf(id);
    var again := if p.Publishing? then Publish(id, p.m) else Pubrel(id);
    var s' := Next(s, Resend(id));
    assert s' == s.(down := s.down + [again]) && id != 0;
    forall x | x != 0
      ensures LocalAt(s', x)
    {
      assert LocalAt(s, x);
      DownOfPush(s.down, again, x);
      if x == id {
        BrokerResends(p, DownOf(s.down, id), UpOf(s.up, id), id in s.table, Current(s, id), s.Clean(), id);
      } else {
        assert DownOf(s.down, x) + [] == DownOf(s.down, x);
      }
    }
  }

  lemma LinkKeeps(s: System, connected: bool, kept: nat, up: seq<Up>)
    requires Inv(s) && kept <= |s.down| && (up == s.up || up == [])
    ensures Inv(s.(connected := connected, down := s.down[..kept], up := up))
  {
    hide Local, Times, DownOf;
    var s' := s.(connected := connected, down := s.down[..kept], up := up);
    forall x | x != 0
      ensures LocalAt(s', x)
    {
      assert LocalAt(s, x);
      var j := DownOfCut(s.down, kept, x);
      LinkCuts(s.PhaseOf(x), DownOf(s.down, x), UpOf(s.up, x), x in s.table, Current(s, x), s.Clean(), j);
    }
  }

  lemma BrokerKeeps(s: System)
    requires Inv(s) && s.up != []
    ensures Inv(BrokerStep(s))
  {
    hide LocalAt, BrokerStep, Separate, Counted, Times;
    BrokerSeparates(s);
    forall y | y != 0
      ensures LocalAt(BrokerStep(s), y)
    {
      if y == s.up[0].id {
        BrokerKeepsOwn(s);
      } else {
        BrokerKeepsOther(s, y);
      }
    }
    BrokerKeepsTable(s);
  }

  /** What a step of the broker leaves alone. */
  lemma BrokerKeepsTable(s: System)
    requires s.up != []
    ensures var t := BrokerStep(s);
            && t.table == s.table && t.delivered == s.delivered && t.Clean() == s.Clean() && t.up == s.up[1..]
            && (t.down == s.down || t.down == s.down + [Pubrel(s.up[0].id)])
            && forall y :: y != s.up[0].id ==> t.PhaseOf(y) == s.PhaseOf(y)
  {
  }

  lemma BrokerKeepsOwn(s: System)
    requires Inv(s) && s.up != []
    ensures LocalAt(BrokerStep(s), s.up[0].id)
  {
    hide Local, DownOf, Separate, Counted, Times;
    var x := s.up[0];
    var id := x.id;
    var d, u, p := DownOf(s.down, id), UpOf(s.up, id), s.PhaseOf(id);
    assert LocalAt(s, id);
    assert u[0] == x && u[1..] == UpOf(s.up[1..], id);
    BrokerSeparates(s);
    DownOfPush(s.down, Pubrel(id), id);
    if x.Pubrec? {
      BrokerSeesPubrec(p, d, u, id in s.table, Current(s, id), s.Clean(), id, s.connected);
    } else {
      BrokerSeesPubcomp(p, d, u, id in s.table, Current(s, id), s.Clean());
    }
  }

  lemma BrokerKeepsOther(s: System, y: nat)
    requires Inv(s) && s.up != [] && y != 0 && y != s.up[0].id
    ensures LocalAt(BrokerStep(s), y)
  {
    hide Local, DownOf, UpOf, Separate, Counted, Times, BrokerStep;
    assert LocalAt(s, y);
    BrokerKeepsTable(s);
    DownOfPush(s.down, Pubrel(s.up[0].id), y);
    assert DownOf(s.down, y) + [] == DownOf(s.down, y);
    UpOfPop(s.up, y);
  }

  lemma UpOfPop(q: seq<Up>, id: nat)
    requires q != [] && q[0].id != id
    ensures UpOf(q, id) == UpOf(q[1..], id)
  {
  }

  lemma SeparateReleased(phase: map<nat, Phase>, completed: set<nat>, next: nat, id: nat)
    requires Separate(phase, completed, next) && id in phase && phase[id].Publishing?
    ensures Separate(phase[id := Releasing(phase[id].m)], completed, next)
  {
  }

  lemma SeparateCompleted(phase: map<nat, Phase>, completed: set<nat>, next: nat, id: nat)
    requires Separate(phase, completed, next) && id in phase && phase[id].Releasing?
    ensures Separate(phase[id := Free], completed + {phase[id].m}, next)
  {
  }

  lemma CountedCompleted(delivered: seq<nat>, completed: set<nat>, next: nat, clean: bool, m: nat)
    requires Counted(delivered, completed, next, clean) && (clean ==> Times(delivered, m) == 1)
    ensures Counted(delivered, completed + {m}, next, clean)
  {
  }

  lemma BrokerSeparates(s: System)
    requires Inv(s) && s.up != []
    ensures var s' := BrokerStep(s);
            && Separate(s'.phase, s'.completed, s'.next) && Counted(s'.delivered, s'.completed, s'.next, s'.Clean())
            && IdsNonzero(s') && Current(s, s.up[0].id) <= 1
  {
    hide Local, DownOf, UpOf, Times, Separate, Counted;
    var x := s.up[0];
    var id := x.id;
    assert Current(s, id) <= 1 by { CountIsBounded(s, id); }
    if x.Pubrec? && s.PhaseOf(id).Publishing? {
      SeparateReleased(s.phase, s.completed, s.next, id);
    } else if x.Pubcomp? && s.PhaseOf(id).Releasing? {
      SeparateCompleted(s.phase, s.completed, s.next, id);
      CompletedOnce(s);
      CountedCompleted(s.delivered, s.completed, s.next, s.Clean(), s.PhaseOf(id).m);
    }
  }

  lemma CountIsBounded(s: System, id: nat)
    requires Inv(s)
    ensures Current(s, id) <= 1
  {
  }

  lemma CompletedOnce(s: System)
    requires Inv(s) && s.up != [] && s.up[0].Pubcomp? && s.PhaseOf(s.up[0].id).Releasing?
    ensures s.Clean() ==> Times(s.delivered, s.PhaseOf(s.up[0].id).m) == 1
  {
    hide Local, DownOf, Times;
    var x := s.up[0];
    assert LocalAt(s, x.id);
    assert UpOf(s.up, x.id)[0] == x;
    BrokerSeesPubcomp(s.PhaseOf(x.id), DownOf(s.down, x.id), UpOf(s.up, x.id), x.id in s.table, Current(s, x.id),
                      s.Clean());
  }

  // ---------------------------------------------------------------- the client keeps it

  /** The invariant, with the copies and releases for `id` standing one packet behind. */
  lemma TakenKeeps(s: System, id: nat, m: nat)
    requires Inv(s) && s.down != [] && s.down[0] == Publish(id, m)
    ensures var t := Taken(s.(down := s.down[1..]), id, m);
            Inv(t) && Inv(t.(up := t.up + [Pubrec(id)]))
  {
    hide Local, DownOf, UpOf, Times, Separate, Counted, Replaced;
    var s' := s.(down := s.down[1..]);
    var t := Taken(s', id, m);
    assert id != 0 && LocalAt(s, id);
    assert DownOf(s.down, id)[0] == s.down[0]
           && DownOf(s.down, id)[1..] == DownOf(s.down[1..], id) by { DownOfPop(s.down, id); }
    var d, u, p := DownOf(s.down, id), UpOf(s.up, id), s.PhaseOf(id);
    ClientTakesCopy(p, d, u, id in s.table, Current(s, id), s.Clean(), id);
    TakenCounts(s, id, m);
    forall y | y != 0
      ensures LocalAt(t, y) && LocalAt(t.(up := t.up + [Pubrec(id)]), y)
    {
      assert LocalAt(s, y);
      UpOfPush(s.up, Pubrec(id), y);
      assert UpOf(s.up, y) + [] == UpOf(s.up, y);
      if y != id {
        DownOfPop(s.down, y);
        CleanIsLost(s.PhaseOf(y), DownOf(s.down, y), UpOf(s.up, y), y in s.table, Current(s, y), s.Clean());
      }
    }
  }

  lemma DownOfPop(q: seq<Down>, id: nat)
    requires q != []
    ensures q[0].id == id ==> DownOf(q, id) == [q[0]] + DownOf(q[1..], id)
    ensures q[0].id != id ==> DownOf(q, id) == DownOf(q[1..], id)
  {
  }

  /** What taking a message does to the table, the counts and the other ids. */
  lemma TakenCounts(s: System, id: nat, m: nat)
    requires Inv(s) && s.down != [] && id != 0 && s.PhaseOf(id) != Free && s.PhaseOf(id).m == m
    requires id !in s.table ==> Current(s, id) == 0
    ensures var t := Taken(s.(down := s.down[1..]), id, m);
            && Distinct(t.table) && IdsNonzero(t) && Counted(t.delivered, t.completed, t.next, t.Clean())
            && (forall y :: y != 0 && y != id ==> (y in t.table <==> y in s.table) && Current(t, y) == Current(s, y))
            && (if id in s.table then t.table == s.table && Current(t, id) == Current(s, id) && t.Clean() == s.Clean()
                else if 0 in s.table then id in t.table && Current(t, id) == 1 && t.Clean() == s.Clean()
                else t.table == s.table && Current(t, id) == Current(s, id) && !t.Clean())
  {
    hide LocalAt, Replaced;
    if id !in s.table && 0 in s.table {
      UseAdds(s.table, id);
      forall x
        ensures Times(s.delivered + [m], x) == Times(s.delivered, x) + if x == m then 1 else 0
      {
        TimesOfPush(s.delivered, m, x);
      }
    }
  }

  lemma ClientKeepsPublish(s: System, sending: Sending)
    requires Inv(s) && s.down != [] && s.down[0].Publish?
    ensures Inv(ClientStep(s, sending))
  {
    hide Inv, Taken;
    TakenKeeps(s, s.down[0].id, s.down[0].m);
  }

  lemma ReleaseKeeps(s: System, sending: Sending)
    requires Inv(s) && s.down != [] && s.down[0].Pubrel?
    ensures Inv(ClientStep(s, sending))
  {
    hide Local, DownOf, UpOf, Times, Separate, Counted, Replaced;
    var id := s.down[0].id;
    var t := ClientStep(s, sending);
    assert id != 0 && LocalAt(s, id);
    DownOfPop(s.down, id);
    var d, u, p := DownOf(s.down, id), UpOf(s.up, id), s.PhaseOf(id);
    ClientReleases(p, d, u, id in s.table, Current(s, id), s.Clean(), id);
    FreeRemoves(s.table, id);
    CountedUnclean(s.delivered, s.completed, s.next, s.Clean());
    forall y | y != 0
      ensures LocalAt(t, y)
    {
      assert LocalAt(s, y);
      UpOfPush(s.up, Pubcomp(id), y);
      assert UpOf(s.up, y) + [] == UpOf(s.up, y);
      DownOfPop(s.down, y);
      CleanIsLost(s.PhaseOf(y), DownOf(s.down, y), UpOf(s.up, y), y in s.table, Current(s, y), s.Clean());
    }
  }

  lemma CountedUnclean(delivered: seq<nat>, completed: set<nat>, next: nat, clean: bool)
    requires Counted(delivered, completed, next, clean)
    ensures Counted(delivered, completed, next, false)
  {
  }

  lemma NextKeeps(s: System, a: Action)
    requires Inv(s) && Enabled(s, a)
    ensures Inv(Next(s, a))
  {
    hide Inv, ClientStep, BrokerStep;
    match a
    case Offer(id) => OfferKeeps(s, id);
    case Resend(id) => ResendKeeps(s, id);
    case BrokerReceives => BrokerKeeps(s);
    case ClientReceives(sending) =>
      if s.down[0].Publish? {
        ClientKeepsPublish(s, sending);
      } else {
        ReleaseKeeps(s, sending);
      }
    case Break(kept) => LinkKeeps(s, false, kept, s.up);
    case Reconnect(kept) => LinkKeeps(s, true, kept, []);
  }

  // ---------------------------------------------------------------- whole runs

  ghost predicate IsRun(run: seq<System>, actions: seq<Action>) {
    && |run| == |actions| + 1 && run[0] == Initial()
    && forall i :: 0 <= i < |actions| ==> Enabled(run[i], actions[i]) && run[i + 1] == Next(run[i], actions[i])
  }

  lemma {:induction false} RunKeepsInv(run: seq<System>, actions: seq<Action>, i: nat)
    requires IsRun(run, actions) && i < |run|
    ensures Inv(run[i])
    decreases i
  {
    hide Inv, Next, Enabled;
    if i == 0 {
      InitialInv();
    } else {
      RunKeepsInv(run, actions, i - 1);
      NextKeeps(run[i - 1], actions[i - 1]);
    }
  }

  /** Whatever is lost, repeated or cut off: no message is ever delivered twice. */
  lemma AtMostOnce(run: seq<System>, actions: seq<Action>, i: nat, m: nat)
    requires IsRun(run, actions) && i < |run|
    ensures Times(run[i].delivered, m) <= 1
  {
    hide IsRun, Times, LocalAt;
    RunKeepsInv(run, actions, i);
  }

  lemma DeliveredDiffer(s: System)
    requires Inv(s)
    ensures forall k, l :: 0 <= k < l < |s.delivered| ==> s.delivered[k] != s.delivered[l]
  {
    hide LocalAt, Times, Separate;
    forall k, l | 0 <= k < l < |s.delivered|
      ensures s.delivered[k] != s.delivered[l]
    {
      assert Times(s.delivered, s.delivered[k]) <= 1;
      TwiceCounts(s.delivered, k, l);
    }
  }

  lemma TwiceCounts(q: seq<nat>, k: nat, l: nat)
    requires k < l < |q| && Times(q, q[k]) <= 1
    ensures q[k] != q[l]
  {
    assert q == q[..l] + [q[l]] + q[l + 1..];
    assert q[k] in q[..l];
    assert multiset(q) == multiset(q[..l]) + multiset{q[l]} + multiset(q[l + 1..]);
  }

  /**
   A message whose PUBCOMP the broker has received was delivered exactly once, unless the table was
   full for some message or a PUBCOMP went out that the client took for lost.
   */
  lemma ExactlyOnce(run: seq<System>, actions: seq<Action>, i: nat, m: nat)
    requires IsRun(run, actions) && i < |run| && run[i].Clean() && m in run[i].completed
    ensures Times(run[i].delivered, m) == 1
  {
    hide IsRun, Times, LocalAt;
    RunKeepsInv(run, actions, i);
  }

  /** A copy of `m` reaches the client. */
  predicate Copy(s: System, a: Action, m: nat) {
    a.ClientReceives? && s.down != [] && s.down[0].Publish? && s.down[0].m == m
  }

  /** ... while its id is not held and a slot is free. */
  predicate Takes(s: System, a: Action, m: nat) {
    Copy(s, a, m) && s.down[0].id !in s.table && 0 in s.table
  }

  lemma TakingDelivers(s: System, a: Action, m: nat)
    requires Enabled(s, a)
    ensures Times(Next(s, a).delivered, m) == Times(s.delivered, m) + if Takes(s, a, m) then 1 else 0
  {
    hide Times, Replaced;
    if a.ClientReceives? && s.down[0].Publish? {
      TimesOfPush(s.delivered, s.down[0].m, m);
    }
  }

  /**
   In every run: a message is delivered, and then once, exactly when one of its copies reached the
   client while its id was not held and a slot was free.
   */
  lemma {:induction false} DeliveredExactlyWhenTaken(run: seq<System>, actions: seq<Action>, i: nat, m: nat)
    requires IsRun(run, actions) && i < |run|
    ensures Times(run[i].delivered, m) == 1 <==> exists j :: 0 <= j < i && Takes(run[j], actions[j], m)
    decreases i
  {
    hide Next, Enabled, Times, Takes;
    AtMostOnce(run, actions, i, m);
    if i == 0 {
      NothingDelivered(m);
    } else {
      var n := i - 1;
      DeliveredExactlyWhenTaken(run, actions, n, m);
      AtMostOnce(run, actions, n, m);
      TakingDelivers(run[n], actions[n], m);
    }
  }

  lemma NothingDelivered(m: nat)
    ensures Times(Initial().delivered, m) == 0
  {
  }

  /**
   Completed messages are delivered exactly once, or lost: the latter exactly when every copy that
   reached the client met a held id or a full table.
   */
  lemma CompletedOrLost(run: seq<System>, actions: seq<Action>, i: nat, m: nat)
    requires IsRun(run, actions) && i < |run| && m in run[i].completed
    ensures Times(run[i].delivered, m) in {0, 1}
    ensures Times(run[i].delivered, m) == 0 <==>
            forall j :: 0 <= j < i && Copy(run[j], actions[j], m) ==>
                run[j].down[0].id in run[j].table || 0 !in run[j].table
  {
    hide IsRun, Times;
    AtMostOnce(run, actions, i, m);
    DeliveredExactlyWhenTaken(run, actions, i, m);
  }

  /** The client holds an id, once it took the message, until it has sent the PUBCOMP for it. */
  lemma HeldUntilPubcomp(s: System, a: Action, id: nat)
    requires Inv(s) && Enabled(s, a) && id != 0 && id in s.table
    ensures id !in Next(s, a).table ==>
              a == ClientReceives(Sent) && s.down[0] == Pubrel(id) && Next(s, a).up == s.up + [Pubcomp(id)]
  {
    hide LocalAt, Counted, Separate, Replaced;
    if a.ClientReceives? {
      match s.down[0]
      case Publish(x, m) =>
        if x !in s.table && 0 in s.table {
          UseAdds(s.table, x);
        }
      case Pubrel(x) =>
        FreeRemoves(s.table, x);
    }
  }

  // ---------------------------------------------------------------- when a message is lost

  /** The state after some actions, if each is enabled in its turn. */
  ghost function After(s: System, actions: seq<Action>): Option<System>
    decreases |actions|
  {
    if actions == [] then Some(s)
    else if Enabled(s, actions[0]) then After(Next(s, actions[0]), actions[1..])
    else None
  }

  lemma AfterFirst(s: System, a: Action, rest: seq<Action>)
    requires Enabled(s, a)
    ensures After(s, [a] + rest) == After(Next(s, a), rest)
  {
  }

  /** A PUBREL is answered, and with its PUBCOMP the message is complete. */
  lemma ReleaseExchange(s: System, id: nat, m: nat)
    requires Distinct(s.table) && s.connected && s.down == [Pubrel(id)] && s.up == [] && id != 0
    requires s.PhaseOf(id) == Releasing(m)
    ensures var s1 := Next(s, ClientReceives(Sent));
            && s1.up != []
            && var t := Next(s1, BrokerReceives);
            && t.completed == s.completed + {m} && t.PhaseOf(id) == Free && id !in t.table
            && t.down == [] && t.up == [] && t.delivered == s.delivered
  {
    hide Replaced;
    assert s.down[1..] == [] && [Pubcomp(id)][1..] == [];
    FreeRemoves(s.table, id);
  }

  /** A PUBLISH is answered, and with its PUBREC the broker releases it. */
  lemma PublishExchange(s: System, id: nat, m: nat)
    requires Distinct(s.table) && s.connected && s.down == [Publish(id, m)] && s.up == [] && id != 0
    requires s.PhaseOf(id) == Publishing(m)
    ensures var s1 := Next(s, ClientReceives(Sent));
            && s1.up != []
            && var t := Next(s1, BrokerReceives);
            && t.connected && t.down == [Pubrel(id)] && t.up == [] && t.PhaseOf(id) == Releasing(m) && Distinct(t.table)
            && t.completed == s.completed
            && Times(t.delivered, m) == Times(s.delivered, m) + if id !in s.table && 0 in s.table then 1 else 0
  {
    hide Replaced, Times;
    assert s.down[1..] == [] && [Pubrec(id)][1..] == [];
    TimesOfPush(s.delivered, m, m);
    if id !in s.table && 0 in s.table {
      UseAdds(s.table, id);
    }
  }

  /** An exchange that nothing disturbs completes the message and frees its id, on both sides. */
  lemma Exchange(s: System, id: nat, m: nat)
    requires Distinct(s.table) && s.connected && s.down == [Publish(id, m)] && s.up == [] && id != 0
    requires s.PhaseOf(id) == Publishing(m)
    ensures var t := After(s, [ClientReceives(Sent), BrokerReceives, ClientReceives(Sent), BrokerReceives]);
            && t.Some? && t.value.completed == s.completed + {m} && t.value.PhaseOf(id) == Free && id !in t.value.table
            && t.value.down == [] && t.value.up == []
            && Times(t.value.delivered, m) == Times(s.delivered, m) + if id !in s.table && 0 in s.table then 1 else 0
  {
    PublishExchange(s, id, m);
    var half := Next(Next(s, ClientReceives(Sent)), BrokerReceives);
    ReleaseExchange(half, id, m);
    hide Times, After, Next, Distinct;
    FourSteps(s, ClientReceives(Sent), BrokerReceives, ClientReceives(Sent), BrokerReceives);
  }

  /** It delivers the message exactly when its id was not held and a slot was free. */
  lemma UndisturbedExchange(s: System, id: nat, m: nat)
    requires Distinct(s.table) && s.connected && s.down == [Publish(id, m)] && s.up == [] && id != 0
    requires s.PhaseOf(id) == Publishing(m) && Times(s.delivered, m) == 0
    ensures var t := After(s, [ClientReceives(Sent), BrokerReceives, ClientReceives(Sent), BrokerReceives]);
            && t.Some? && m in t.value.completed && t.value.PhaseOf(id) == Free && id !in t.value.table
            && (Times(t.value.delivered, m) == 1 <==> id !in s.table && 0 in s.table)
  {
    hide Times, After;
    Exchange(s, id, m);
  }

  /** What was lost on a link is repeated: a message whose PUBLISH or PUBREC was lost is completed all the same. */
  lemma LostPublishIsRepeated(s: System, id: nat, m: nat)
    requires Distinct(s.table) && s.connected && s.down == [] && s.up == [] && id != 0 && s.PhaseOf(id) == Publishing(m)
    ensures var t := After(s, [Resend(id), ClientReceives(Sent), BrokerReceives, ClientReceives(Sent), BrokerReceives]);
            && t.Some? && t.value.completed == s.completed + {m} && t.value.PhaseOf(id) == Free && id !in t.value.table
            && Times(t.value.delivered, m) == Times(s.delivered, m) + if id !in s.table && 0 in s.table then 1 else 0
  {
    hide Times, After;
    var more := [ClientReceives(Sent), BrokerReceives, ClientReceives(Sent), BrokerReceives];
    assert s.down + [Publish(id, m)] == [Publish(id, m)];
    AfterFirst(s, Resend(id), more);
    assert [Resend(id)] + more ==
             [Resend(id), ClientReceives(Sent), BrokerReceives, ClientReceives(Sent), BrokerReceives];
    Exchange(Next(s, Resend(id)), id, m);
  }

  /** So is one whose PUBREL or PUBCOMP was lost, and it is not delivered again. */
  lemma LostReleaseIsRepeated(s: System, id: nat, m: nat)
    requires Distinct(s.table) && s.connected && s.down == [] && s.up == [] && id != 0 && s.PhaseOf(id) == Releasing(m)
    ensures var t := After(s, [Resend(id), ClientReceives(Sent), BrokerReceives]);
            && t.Some? && t.value.completed == s.completed + {m} && t.value.PhaseOf(id) == Free && id !in t.value.table
            && t.value.delivered == s.delivered
  {
    var s1 := Next(s, Resend(id));
    assert s1.down == [Pubrel(id)];
    ReleaseExchange(s1, id, m);
    var s2 := Next(s1, ClientReceives(Sent));
    assert Enabled(s, Resend(id)) && s1.completed == s.completed && s1.delivered == s.delivered;
    hide After, Next;
    AfterFirst(s, Resend(id), [ClientReceives(Sent)] + ([BrokerReceives] + []));
    AfterFirst(s1, ClientReceives(Sent), [BrokerReceives] + []);
    AfterFirst(s2, BrokerReceives, []);
    AfterNothing(Next(s2, BrokerReceives));
    assert [Resend(id)] + ([ClientReceives(Sent)] + ([BrokerReceives] + [])) ==
           [Resend(id), ClientReceives(Sent), BrokerReceives];
  }

  lemma AfterNothing(s: System)
    ensures After(s, []) == Some(s)
  {
  }

  /** Ten ids can be held at a time. */
  lemma TenIds()
    ensures |Initial().table| == 10 && MAX_INCOMING_QOS2_MESSAGES == 10
    ensures forall i :: 0 <= i < 10 ==> Initial().table[i] == 0
  {
  }

  lemma FourSteps(s: System, a: Action, b: Action, c: Action, d: Action)
    requires Enabled(s, a) && Enabled(Next(s, a), b) && Enabled(Next(Next(s, a), b), c)
             && Enabled(Next(Next(Next(s, a), b), c), d)
    ensures After(s, [a, b, c, d]) == Some(Next(Next(Next(Next(s, a), b), c), d))
  {
    hide Next, Enabled;
    assert [a, b, c, d] == [a] + ([b] + ([c] + ([d] + [])));
    var s1 := Next(s, a);
    var s2 := Next(s1, b);
    AfterFirst(s, a, [b] + ([c] + ([d] + [])));
    AfterFirst(s1, b, [c] + ([d] + []));
    AfterFirst(s2, c, [d] + []);
    AfterFirst(Next(s2, c), d, []);
  }

  const HELD: Table := [1, 0, 0, 0, 0, 0, 0, 0, 0, 0]

  const FIRST := [Reconnect(0), Offer(1), ClientReceives(Sent), BrokerReceives]
  const SECOND := [ClientReceives(SentUnnoticed), BrokerReceives, Break(0), Reconnect(0), Offer(1)]

  /** Message 0 has been delivered, and its PUBREL is on the way. */
  function Releasing0(): System {
    System(map[1 := Releasing(0)], [Pubrel(1)], [], true, HELD, [0], {}, 1, false, false)
  }

  /** The broker has moved on to message 1, but the client, unsure about its PUBCOMP, still holds the id. */
  function Offering1(): System {
    System(map[1 := Publishing(1)], [Publish(1, 1)], [], true, HELD, [0], {0}, 2, false, true)
  }

  lemma ReceivesFirst(s: System, id: nat, m: nat)
    requires s.down == [Publish(id, m)] && id !in s.table && 0 in s.table
    ensures ClientStep(s, Sent) ==
            s.(down := [], table := Replaced(s.table, 0, id), delivered := s.delivered + [m], up := s.up + [Pubrec(id)])
  {
  }

  lemma FirstDelivery(s: System)
    requires s == System(map[1 := Publishing(0)], [Publish(1, 0)], [], true, Initial().table, [], {}, 1, false, false)
    ensures ClientStep(s, Sent) == s.(table := HELD, delivered := [0], down := [], up := [Pubrec(1)])
  {
    FirstSlot();
    assert s.table[0] == 0;
    ReceivesFirst(s, 1, 0);
  }

  lemma FirstExchange()
    ensures After(Initial(), FIRST) == Some(Releasing0())
  {
    hide After, ClientStep, HELD;
    var s0 := Initial();
    var s1 := s0.(connected := true);
    var s2 := s1.(phase := map[1 := Publishing(0)], down := [Publish(1, 0)], next := 1);
    var s3 := s2.(table := HELD, delivered := [0], down := [], up := [Pubrec(1)]);
    assert Next(s0, Reconnect(0)) == s1 && Next(s1, Offer(1)) == s2;
    FirstDelivery(s2);
    assert Next(s2, ClientReceives(Sent)) == s3;
    assert s3.up[1..] == [] && Next(s3, BrokerReceives) == Releasing0();
    FourSteps(s0, Reconnect(0), Offer(1), ClientReceives(Sent), BrokerReceives);
  }

  lemma SecondExchange()
    ensures After(Releasing0(), SECOND) == Some(Offering1())
  {
    hide After, Replaced;
    var s4 := Releasing0();
    var s5 := s4.(up := [Pubcomp(1)], down := [], doubtful := true);
    var s6 := s5.(phase := map[1 := Free], completed := {0}, up := []);
    var s7 := s6.(connected := false);
    assert s4.down[1..] == [] && Next(s4, ClientReceives(SentUnnoticed)) == s5;
    assert s5.up[1..] == [] && Next(s5, BrokerReceives) == s6;
    assert Next(s6, Break(0)) == s7 && Next(s7, Reconnect(0)) == s6 && Next(s6, Offer(1)) == Offering1();
    FourSteps(s5, BrokerReceives, Break(0), Reconnect(0), Offer(1));
    var rest := [BrokerReceives, Break(0), Reconnect(0), Offer(1)];
    AfterFirst(s4, ClientReceives(SentUnnoticed), rest);
    assert SECOND == [ClientReceives(SentUnnoticed)] + rest;
  }

  lemma NotDelivered()
    ensures Times([0], 1) == 0
  {
  }

  lemma FirstSlot()
    ensures Replaced(Initial().table, 0, 1) == HELD
  {
  }

  /**
   Without the proviso about PUBCOMPs taken for lost, exactly once fails: message 1 is completed here
   and never delivered, although the table never was full.
   */
  lemma UnnoticedPubcompLoses()
    ensures var exchange := [ClientReceives(Sent), BrokerReceives, ClientReceives(Sent), BrokerReceives];
            var s, t := After(Initial(), FIRST + SECOND), After(Initial(), FIRST + SECOND + exchange);
            && s.Some? && !s.value.overflowed && s.value.doubtful
            && t.Some? && 1 in t.value.completed && Times(t.value.delivered, 1) != 1
  {
    hide After, Times, Initial;
    var exchange := [ClientReceives(Sent), BrokerReceives, ClientReceives(Sent), BrokerReceives];
    FirstExchange();
    SecondExchange();
    AfterBoth(Initial(), FIRST, SECOND);
    AfterBoth(Initial(), FIRST + SECOND, exchange);
    NotDelivered();
    assert 1 in Offering1().table by { assert HELD[0] == 1; }
    UndisturbedExchange(Offering1(), 1, 1);
  }

  lemma {:induction false} AfterBoth(s: System, a: seq<Action>, b: seq<Action>)
    requires After(s, a).Some?
    ensures After(s, a + b) == After(After(s, a).value, b)
    decreases |a|
  {
    hide Next, Enabled;
    if a == [] {
      assert a + b == b;
    } else {
      assert (a + b)[0] == a[0] && (a + b)[1..] == a[1..] + b;
      AfterBoth(Next(s, a[0]), a[1..], b);
    }
  }
}
