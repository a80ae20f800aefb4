/** An exit node's custody of fragments: publish queue, pending slot, custody-ACK queue, cloud
    NACK queue and recent-publish ring, with the three bitmaps that shadow them. */
module ExitCustody {
  import opened Bytes
  import opened Outside
  import Bitmap

  const MAX_TRACKED := 60000
  const NACK_QUEUE_DEPTH := 16
  const RECENT_RING_SIZE := 64
  const RECENT_REPLAY_MS := 15000

  datatype Item = Item(session: nat, s: nat)
  datatype Request = Request(session: nat, s: nat, src: nat, data: seq<byte>)
  datatype Recent = Recent(session: nat, s: nat, ms: nat)
  datatype Slot = Empty | Held(req: Request)

  /** The client's queues. */
  datatype State = State(publishQueue: seq<Request>, pending: Slot, ackQueue: seq<Item>, nackQueue: seq<Item>,
                         ring: seq<Recent>, ringWrite: nat)

  /** What the three bitmaps hold. */
  datatype Books = Books(queued: set<nat>, accepted: set<nat>, ackPending: set<nat>)

  /** What was handed in, accepted by the local MQTT client, and acknowledged on the mesh. */
  datatype Log = Log(offered: set<Request>, published: set<Request>, acked: set<Item>)

  /** The fragments waiting to be published, the deferred one first. */
  function Requests(st: State): seq<Request> {
    (if st.pending.Held? then [st.pending.req] else []) + st.publishQueue
  }

  function RequestSeqs(q: seq<Request>): (r: seq<nat>)
    ensures |r| == |q| && forall i :: 0 <= i < |q| ==> r[i] == q[i].s
  {
    seq(|q|, i requires 0 <= i < |q| => q[i].s)
  }

  function ItemSeqs(q: seq<Item>): (r: seq<nat>)
    ensures |r| == |q| && forall i :: 0 <= i < |q| ==> r[i] == q[i].s
  {
    seq(|q|, i requires 0 <= i < |q| => q[i].s)
  }

  function Tracked(s: nat): set<nat> {
    if s < MAX_TRACKED then {s} else {}
  }

  /** Every number in bits is waiting exactly once, and no other trackable number waits. */
  ghost predicate Once(w: seq<nat>, bits: set<nat>) {
    && (forall k: nat :: k < MAX_TRACKED ==> (k in bits <==> k in w))
    && (forall i, j :: 0 <= i < j < |w| && w[i] == w[j] ==> w[i] >= MAX_TRACKED)
  }

  lemma OnceAppend(w: seq<nat>, bits: set<nat>, k: nat)
    requires Once(w, bits) && k !in bits
    ensures Once(w + [k], bits + Tracked(k)) && Once([k] + w, bits + Tracked(k))
  {
    assert k < MAX_TRACKED ==> k !in w;
  }

  /** Where element i of a sequence goes when element m is taken out and those before it go
      round to the back. */
  function Turned(i: nat, m: nat, n: nat): int {
    if i < m then n - m - 1 + i else i - m - 1
  }

  lemma OnceWithout(w: seq<nat>, bits: set<nat>, m: nat)
    requires Once(w, bits) && m < |w|
    ensures Once(w[m + 1..] + w[..m], bits - {w[m]})
  {
    var r, k := w[m + 1..] + w[..m], w[m];
    forall i: nat | i < |w| && i != m
      ensures 0 <= Turned(i, m, |w|) < |r| && r[Turned(i, m, |w|)] == w[i]
    {
    }
    forall x | x in r
      ensures x in w
    {
    }
    assert forall j :: 0 <= j < |r| ==> r[j] == w[if j < |w| - m - 1 then m + 1 + j else j - (|w| - m - 1)];
    forall x: nat | x < MAX_TRACKED && x in w && x != k
      ensures x in r
    {
      var i :| 0 <= i < |w| && w[i] == x;
      assert r[Turned(i, m, |w|)] == x;
    }
  }

  /** The local MQTT client accepted fragment s of that session. */
  ghost predicate HasCustody(published: set<Request>, session: nat, s: nat) {
    exists r :: r in published && r.session == session && r.s == s
  }

  /** Agreement of bitmaps, queues and history. */
  ghost predicate Consistent(depth: nat, active: nat, st: State, b: Books, l: Log) {
    && Fits(depth, st)
    && Once(RequestSeqs(Requests(st)), b.queued)
    && Once(ItemSeqs(st.ackQueue), b.ackPending)
    && b.queued !! b.accepted
    && SessionMatches(active, st, b, l)
    && Backed(st, l)
  }

  ghost predicate Fits(depth: nat, st: State) {
    && |st.publishQueue| <= depth && |st.ackQueue| <= depth && |st.nackQueue| <= NACK_QUEUE_DEPTH
    && |st.ring| == RECENT_RING_SIZE && st.ringWrite < RECENT_RING_SIZE
  }

  /** Inside a session everything waiting belongs to it and the accepted bits are about it. */
  ghost predicate SessionMatches(active: nat, st: State, b: Books, l: Log) {
    && (active == 0 ==> b.accepted == {})
    && (active != 0 ==> forall r :: r in Requests(st) ==> r.session == active)
    && (forall k :: k in b.accepted ==> HasCustody(l.published, active, k))
  }

  /** Custody: nothing is acknowledged, or about to be, that was not accepted locally, and
      nothing is published that was not handed in. */
  ghost predicate Backed(st: State, l: Log) {
    && (forall r :: r in Requests(st) ==> r in l.offered)
    && l.published <= l.offered
    && (forall a :: a in st.ackQueue ==> HasCustody(l.published, a.session, a.s))
    && (forall a :: a in l.acked ==> HasCustody(l.published, a.session, a.s))
    && (forall e :: e in st.ring && e.ms != 0 ==> HasCustody(l.published, e.session, e.s))
  }

  /** One custody ACK asked for: once per number, none when the queue is full. */
  function QueueAck(q: seq<Item>, depth: nat, a: Item): seq<Item> {
    if (a.s < MAX_TRACKED && a.s in ItemSeqs(q)) || |q| >= depth then q else q + [a]
  }

  function QueueAcks(q: seq<Item>, depth: nat, node: nat, accepted: seq<Request>): seq<Item> {
    if accepted == [] then q
    else
      var r := accepted[|accepted| - 1];
      var before := QueueAcks(q, depth, node, accepted[..|accepted| - 1]);
      if r.src != node then QueueAck(before, depth, Item(r.session, r.s)) else before
  }

  // ---- Draining by session ----

  /** The items of one session, in order. */
  function Of(q: seq<Item>, session: nat): seq<Item> {
    if q == [] then []
    else Of(q[..|q| - 1], session) + if q[|q| - 1].session == session then [q[|q| - 1]] else []
  }

  lemma {:induction false} OfConcat(a: seq<Item>, b: seq<Item>, session: nat)
    ensures Of(a + b, session) == Of(a, session) + Of(b, session)
  {
    if b == [] {
      assert a + b == a;
    } else {
      assert (a + b)[..|a + b| - 1] == a + b[..|b| - 1];
      OfConcat(a, b[..|b| - 1], session);
    }
  }

  lemma {:induction false} OfNone(q: seq<Item>, session: nat)
    requires forall i :: 0 <= i < |q| ==> q[i].session != session
    ensures Of(q, session) == []
  {
    if q != [] {
      OfNone(q[..|q| - 1], session);
    }
  }

  lemma OfSingle(a: Item, session: nat)
    ensures Of([a], session) == if a.session == session then [a] else []
  {
    assert [a][..0] == [];
  }

  lemma RotationConserves(q: seq<Item>, m: nat)
    requires m < |q|
    ensures multiset(q) == multiset(q[m + 1..] + q[..m]) + multiset{q[m]}
  {
    assert q == q[..m] + [q[m]] + q[m + 1..];
  }

  /** Taking the first item of a session out, while the ones before it go round to the back,
      serves that session first come first served and loses nothing. */
  lemma RotationServes(q: seq<Item>, m: nat, session: nat)
    requires m < |q| && q[m].session == session
    requires forall i :: 0 <= i < m ==> q[i].session != session
    ensures var r := q[m + 1..] + q[..m];
            Of(q, session) == [q[m]] + Of(r, session) && multiset(q) == multiset(r) + multiset{q[m]}
  {
    hide Of;
    var tail := [q[m]] + q[m + 1..];
    assert q == q[..m] + tail;
    OfConcat(q[..m], tail, session);
    OfConcat([q[m]], q[m + 1..], session);
    OfSingle(q[m], session);
    OfConcat(q[m + 1..], q[..m], session);
    OfNone(q[..m], session);
    RotationConserves(q, m);
  }

  /** The position of the first item of the session, or the end. */
  function FirstItem(q: seq<Item>, session: nat): (m: nat)
    ensures m <= |q| && (m < |q| ==> q[m].session == session)
  {
    if q == [] || q[0].session == session then 0 else 1 + FirstItem(q[1..], session)
  }

  lemma {:induction false} FirstItemIs(q: seq<Item>, session: nat, m: nat)
    requires m <= |q| && (forall i :: 0 <= i < m ==> q[i].session != session) && (m < |q| ==> q[m].session == session)
    ensures FirstItem(q, session) == m
  {
    if m > 0 {
      FirstItemIs(q[1..], session, m - 1);
    }
  }

  /** The queue after the first item of the session was drained. */
  function Remaining(q: seq<Item>, session: nat): (r: seq<Item>)
    ensures |r| == if FirstItem(q, session) < |q| then |q| - 1 else |q|
  {
    var m := FirstItem(q, session);
    if m < |q| then q[m + 1..] + q[..m] else q
  }

  /** At most one turn of the queue, looking for an item of the session. */
  method DrainSession(q: seq<Item>, session: nat) returns (found: bool, s: nat, rest: seq<Item>, ghost m: nat)
    ensures found ==>
              && m == FirstItem(q, session) < |q| && q[m] == Item(session, s) && rest == q[m + 1..] + q[..m]
              && (forall i :: 0 <= i < m ==> q[i].session != session)
              && Of(q, session) == [q[m]] + Of(rest, session)
              && multiset(q) == multiset(rest) + multiset{q[m]}
    ensures !found ==> rest == q && Of(q, session) == []
    ensures (found <==> FirstItem(q, session) < |q|) && rest == Remaining(q, session)
  {
    hide FirstItem;
    var depth := |q|;
    rest, found, s, m := q, false, 0, 0;
    for i := 0 to depth
      invariant rest == q[i..] + q[..i]
      invariant forall k :: 0 <= k < i ==> q[k].session != session
    {
      var item := rest[0];
      assert rest[1..] == q[i + 1..] + q[..i];
      rest := rest[1..];
      if item.session == session {
        RotationServes(q, i, session);
        FirstItemIs(q, session, i);
        return true, item.s, rest, i;
      }
      rest := rest + [item];
    }
    OfNone(q, session);
    FirstItemIs(q, session, |q|);
  }

  /** The first n custody ACKs of the session left, in order; the others still wait, in order,
      and no item of another session is lost. */
  ghost predicate AcksSent(st0: State, b0: Books, l0: Log, st: State, b: Books, l: Log, session: nat, n: nat) {
    var due := Of(st0.ackQueue, session);
    && n <= |due|
    && st == st0.(ackQueue := st.ackQueue) && b == b0.(ackPending := b.ackPending)
    && Of(st.ackQueue, session) == due[n..]
    && l == l0.(acked := l0.acked + ItemSet(due[..n]))
    && multiset(st0.ackQueue) == multiset(st.ackQueue) + multiset(due[..n])
  }

  lemma AcksSentNone(st: State, b: Books, l: Log, session: nat)
    ensures AcksSent(st, b, l, st, b, l, session, 0)
  {
    hide Of;
    var due := Of(st.ackQueue, session);
    assert due[..0] == [] && due[0..] == due;
    assert ItemSet(due[..0]) == {};
  }

  lemma AcksSentAll(st0: State, b0: Books, l0: Log, st: State, b: Books, l: Log, session: nat, n: nat)
    requires AcksSent(st0, b0, l0, st, b, l, session, n) && Of(st.ackQueue, session) == []
    ensures n == |Of(st0.ackQueue, session)|
  {
    hide Of;
  }

  /** The next ACK is drained and sent. */
  lemma AcksSentNext(st0: State, b0: Books, l0: Log, st: State, b: Books, st': State, b': Books, l: Log, session: nat, n: nat, s: nat)
    requires AcksSent(st0, b0, l0, st, b, l, session, n)
    requires st' == st.(ackQueue := st'.ackQueue) && b' == b.(ackPending := b'.ackPending)
    requires Of(st.ackQueue, session) == [Item(session, s)] + Of(st'.ackQueue, session)
    requires multiset(st.ackQueue) == multiset(st'.ackQueue) + multiset{Item(session, s)}
    ensures n < |Of(st0.ackQueue, session)|
    ensures AcksSent(st0, b0, l0, st', b', l.(acked := l.acked + {Item(session, s)}), session, n + 1)
  {
    hide Of;
    var due := Of(st0.ackQueue, session);
    OneMoreItem(due, n);
    assert due[n] == Item(session, s);
    hide ItemSet;
  }

  /** The next ACK is drained and put back in front. */
  lemma AckReturned(st0: State, b0: Books, l0: Log, st: State, b: Books, drained: State, st': State, b': Books, l: Log, session: nat, n: nat, s: nat)
    requires AcksSent(st0, b0, l0, st, b, l, session, n)
    requires drained == st.(ackQueue := drained.ackQueue) && b' == b.(ackPending := b'.ackPending)
    requires Of(st.ackQueue, session) == [Item(session, s)] + Of(drained.ackQueue, session)
    requires multiset(st.ackQueue) == multiset(drained.ackQueue) + multiset{Item(session, s)}
    requires st' == drained.(ackQueue := [Item(session, s)] + drained.ackQueue)
    ensures AcksSent(st0, b0, l0, st', b', l, session, n)
  {
    OfConcat([Item(session, s)], drained.ackQueue, session);
    OfSingle(Item(session, s), session);
    hide Of, ItemSet;
    assert multiset(st'.ackQueue) == multiset{Item(session, s)} + multiset(drained.ackQueue);
  }

  // ---- The ring of recent publishes ----

  /** The recent publishes of the session that the cloud cannot have asked for yet. */
  function Young(ring: seq<Recent>, active: nat, now: nat): seq<Item> {
    if ring == [] then []
    else
      var e := ring[|ring| - 1];
      Young(ring[..|ring| - 1], active, now) + if IsYoung(e, active, now) then [Item(e.session, e.s)] else []
  }

  predicate IsYoung(e: Recent, active: nat, now: nat) {
    e.ms != 0 && e.session == active && now - e.ms <= RECENT_REPLAY_MS
  }

  function FirstOf(q: seq<Item>, n: int): seq<Item> {
    if n <= 0 then [] else if n < |q| then q[..n] else q
  }

  /** Slot i of the ring is forgotten: too old, or replayed while there was room. */
  predicate Forgotten(ring: seq<Recent>, active: nat, now: nat, room: int, i: nat)
    requires i < |ring|
  {
    && ring[i].ms != 0 && ring[i].session == active
    && (now - ring[i].ms > RECENT_REPLAY_MS || |Young(ring[..i], active, now)| < room)
  }

  /** After looking at the first n ring slots. */
  ghost predicate Replayed(st0: State, b0: Books, st: State, b: Books, active: nat, now: nat, n: nat) {
    && n <= |st0.ring| == |st.ring|
    && var room := NACK_QUEUE_DEPTH - |st0.nackQueue|;
    var sent := FirstOf(Young(st0.ring[..n], active, now), room);
    && st == st0.(nackQueue := st0.nackQueue + sent, ring := st.ring)
    && b == b0.(accepted := b0.accepted - SeqSet(sent))
    && forall i :: 0 <= i < |st.ring| ==>
         st.ring[i] == if i < n && Forgotten(st0.ring, active, now, room, i) then st0.ring[i].(ms := 0) else st0.ring[i]
  }

  lemma ReplayedNext(st0: State, b0: Books, st: State, b: Books, st': State, b': Books, active: nat, now: nat, n: nat)
    requires n < |st0.ring| && |st.nackQueue| <= NACK_QUEUE_DEPTH
    requires Replayed(st0, b0, st, b, active, now, n)
    requires var e := st.ring[n];
             if e.ms == 0 || e.session != active then st' == st && b' == b
             else if now - e.ms > RECENT_REPLAY_MS then st' == st.(ring := st.ring[n := e.(ms := 0)]) && b' == b
             else if |st.nackQueue| < NACK_QUEUE_DEPTH then
               && st' == st.(nackQueue := st.nackQueue + [Item(e.session, e.s)], ring := st.ring[n := e.(ms := 0)])
               && b' == b.(accepted := b.accepted - {e.s})
             else st' == st && b' == b
    ensures Replayed(st0, b0, st', b', active, now, n + 1)
  {
    var e := st.ring[n];
    assert st0.ring[..n + 1][..n] == st0.ring[..n] && st0.ring[..n + 1][n] == e;
    var young, room := Young(st0.ring[..n], active, now), NACK_QUEUE_DEPTH - |st0.nackQueue|;
    var sent, sent' := FirstOf(young, room), FirstOf(Young(st0.ring[..n + 1], active, now), room);
    if IsYoung(e, active, now) && |young| < room {
      assert sent' == sent + [Item(e.session, e.s)];
      assert SeqSet(sent') == SeqSet(sent) + {e.s};
    } else {
      assert sent' == sent;
    }
  }

  function ItemSet(q: seq<Item>): set<Item> {
    set a | a in q
  }

  lemma OneMoreItem(q: seq<Item>, n: nat)
    requires n < |q|
    ensures q[..n + 1] == q[..n] + [q[n]] && q[n + 1..] == q[n..][1..] && q[n] == q[n..][0]
    ensures ItemSet(q[..n + 1]) == ItemSet(q[..n]) + {q[n]}
    ensures multiset(q[..n + 1]) == multiset(q[..n]) + multiset{q[n]}
  {
    assert q[..n + 1] == q[..n] + [q[n]];
  }

  /** Numbers of the replayed items. */
  function SeqSet(q: seq<Item>): set<nat> {
    set a | a in q :: a.s
  }

  // ---- Steps on the values ----

  lemma Reset(depth: nat, active: nat, st: State, b: Books, l: Log)
    requires Consistent(depth, active, st, b, l)
    ensures forall next: nat :: Consistent(depth, next, Fresh(), Books({}, {}, {}), l)
  {
    hide HasCustody;
    assert RequestSeqs(Requests(Fresh())) == [] && ItemSeqs(Fresh().ackQueue) == [];
  }

  function Fresh(): State {
    State([], Empty, [], [], seq(RECENT_RING_SIZE, _ => Recent(0, 0, 0)), 0)
  }

  lemma Offered(depth: nat, active: nat, st: State, b: Books, l: Log, r: Request)
    requires Consistent(depth, active, st, b, l) && |st.publishQueue| < depth
    requires r.s !in b.queued && r.s !in b.accepted && (active == 0 || r.session == active)
    ensures var st' := st.(publishQueue := st.publishQueue + [r]);
            && Requests(st') == Requests(st) + [r]
            && Consistent(depth, active, st', b.(queued := b.queued + Tracked(r.s)), l.(offered := l.offered + {r}))
  {
    hide HasCustody, Once;
    var st' := st.(publishQueue := st.publishQueue + [r]);
    assert Requests(st') == Requests(st) + [r];
    assert RequestSeqs(Requests(st')) == RequestSeqs(Requests(st)) + [r.s];
    OnceAppend(RequestSeqs(Requests(st)), b.queued, r.s);
  }

  lemma AckQueued(depth: nat, active: nat, st: State, b: Books, l: Log, a: Item)
    requires Consistent(depth, active, st, b, l) && HasCustody(l.published, a.session, a.s)
    requires a.s !in b.ackPending && |st.ackQueue| < depth
    ensures Consistent(depth, active, st.(ackQueue := st.ackQueue + [a]), b.(ackPending := b.ackPending + Tracked(a.s)), l)
    ensures Consistent(depth, active, st.(ackQueue := [a] + st.ackQueue), b.(ackPending := b.ackPending + Tracked(a.s)), l)
  {
    hide HasCustody, Once;
    assert ItemSeqs(st.ackQueue + [a]) == ItemSeqs(st.ackQueue) + [a.s];
    assert ItemSeqs([a] + st.ackQueue) == [a.s] + ItemSeqs(st.ackQueue);
    OnceAppend(ItemSeqs(st.ackQueue), b.ackPending, a.s);
  }

  lemma AckTaken(depth: nat, active: nat, st: State, b: Books, l: Log, m: nat)
    requires Consistent(depth, active, st, b, l) && m < |st.ackQueue|
    ensures var q := st.ackQueue;
            && HasCustody(l.published, q[m].session, q[m].s)
            && Consistent(depth, active, st.(ackQueue := q[m + 1..] + q[..m]), b.(ackPending := b.ackPending - {q[m].s}), l)
  {
    hide HasCustody, Once;
    var q := st.ackQueue;
    OnceWithout(ItemSeqs(q), b.ackPending, m);
    assert ItemSeqs(q[m + 1..] + q[..m]) == ItemSeqs(q)[m + 1..] + ItemSeqs(q)[..m];
  }

  /** The front request leaves; whether published or dropped, its queued bit goes with it. */
  lemma FrontLeaves(depth: nat, active: nat, st: State, st': State, b: Books, l: Log)
    requires Consistent(depth, active, st, b, l) && Requests(st) != []
    requires st' == st.(publishQueue := st'.publishQueue, pending := st'.pending)
    requires Requests(st') == Requests(st)[1..] && |st'.publishQueue| <= depth
    ensures Consistent(depth, active, st', b.(queued := b.queued - {Requests(st)[0].s}), l)
    ensures Requests(st)[0] in l.offered && (active != 0 ==> Requests(st)[0].session == active)
  {
    hide HasCustody, Once;
    var w := RequestSeqs(Requests(st));
    OnceWithout(w, b.queued, 0);
    assert RequestSeqs(Requests(st')) == w[1..] + w[..0];
    assert forall r :: r in Requests(st') ==> r in Requests(st);
    assert Requests(st)[0] in Requests(st);
  }

  lemma Accepted(depth: nat, active: nat, st: State, b: Books, l: Log, r: Request, now: nat)
    requires Consistent(depth, active, st, b, l) && r in l.offered && r.s !in b.queued
    requires active != 0 && r.session == active
    ensures Consistent(depth, active,
                       st.(ring := st.ring[st.ringWrite := Recent(r.session, r.s, now)], ringWrite := (st.ringWrite + 1) % RECENT_RING_SIZE),
                       b.(accepted := b.accepted + Tracked(r.s)), l.(published := l.published + {r}))
    ensures HasCustody(l.published + {r}, r.session, r.s)
  {
    hide Once;
    CustodyGrows(l.published, r);
    hide HasCustody;
    var ring := st.ring[st.ringWrite := Recent(r.session, r.s, now)];
    forall e | e in ring && e.ms != 0
      ensures HasCustody(l.published + {r}, e.session, e.s)
    {
      assert e in st.ring || e == Recent(r.session, r.s, now);
    }
  }

  lemma CustodyGrows(published: set<Request>, r: Request)
    ensures forall x, k :: HasCustody(published, x, k) ==> HasCustody(published + {r}, x, k)
    ensures HasCustody(published + {r}, r.session, r.s)
  {
    assert r in published + {r};
  }

  /** A bit of accepted is withdrawn, a NACK queued or a ring entry forgotten. */
  lemma Withdrawn(depth: nat, active: nat, st: State, b: Books, l: Log, k: nat, nackQueue: seq<Item>, ring: seq<Recent>)
    requires Consistent(depth, active, st, b, l) && |nackQueue| <= NACK_QUEUE_DEPTH
    requires |ring| == |st.ring| && forall i :: 0 <= i < |ring| ==> ring[i] == st.ring[i] || ring[i].ms == 0
    ensures Consistent(depth, active, st.(nackQueue := nackQueue, ring := ring), b.(accepted := b.accepted - {k}), l)
    ensures Consistent(depth, active, st.(nackQueue := nackQueue, ring := ring), b, l)
  {
    hide HasCustody, Once;
  }

  /** Deferring the front request only moves it to the pending slot. */
  lemma FrontDeferred(depth: nat, active: nat, st: State, st': State, b: Books, l: Log)
    requires Consistent(depth, active, st, b, l) && Requests(st') == Requests(st)
    requires st' == st.(publishQueue := st'.publishQueue, pending := st'.pending) && |st'.publishQueue| <= depth
    ensures Consistent(depth, active, st', b, l)
  {
    hide HasCustody, Once, Requests;
  }

  lemma SizesFit(depth: nat, active: nat, st: State, b: Books, l: Log)
    requires Consistent(depth, active, st, b, l)
    ensures Fits(depth, st)
  {
  }

  lemma AckEmitted(depth: nat, active: nat, st: State, b: Books, l: Log, a: Item)
    requires Consistent(depth, active, st, b, l) && HasCustody(l.published, a.session, a.s)
    ensures Consistent(depth, active, st, b, l.(acked := l.acked + {a}))
  {
    hide HasCustody, Once;
  }

  lemma AcceptedHasCustody(depth: nat, active: nat, st: State, b: Books, l: Log, s: nat)
    requires Consistent(depth, active, st, b, l) && s in b.accepted
    ensures active != 0 && HasCustody(l.published, active, s)
  {
    hide HasCustody;
  }

  /** The bits mean what they say for every number they cover. */
  lemma WaitingIffPending(depth: nat, active: nat, st: State, b: Books, l: Log, s: nat)
    requires Consistent(depth, active, st, b, l)
    ensures s < MAX_TRACKED ==> (s in b.ackPending <==> s in ItemSeqs(st.ackQueue))
    ensures s < MAX_TRACKED ==> (s in b.queued <==> s in RequestSeqs(Requests(st)))
  {
  }

  function NumbersOf(reqs: seq<Request>): set<nat> {
    set r | r in reqs && r.s < MAX_TRACKED :: r.s
  }

  function AsSet(reqs: seq<Request>): set<Request> {
    set r | r in reqs
  }

  lemma OneMorePublished(w: seq<Request>, n: nat)
    requires n < |w|
    ensures AsSet(w[..n + 1]) == AsSet(w[..n]) + {w[n]}
    ensures NumbersOf(w[..n + 1]) == NumbersOf(w[..n]) + Tracked(w[n].s)
  {
    assert w[..n + 1] == w[..n] + [w[n]];
  }

  ghost predicate ShownAt(ring: seq<Recent>, slot: nat, r: Request, now: nat)
    requires |ring| == RECENT_RING_SIZE
  {
    ring[slot % 64] == Recent(r.session, r.s, now)
  }

  /** The ring remembers the last 64 publishes, the first n of w having started at slot from. */
  ghost predicate RingShows(ring: seq<Recent>, from: nat, w: seq<Request>, n: nat, now: nat)
    requires |ring| == RECENT_RING_SIZE && n <= |w|
  {
    forall i :: 0 <= i < n && n - i <= RECENT_RING_SIZE ==> ShownAt(ring, from + i, w[i], now)
  }

  lemma RingShowsStep(ring: seq<Recent>, from: nat, w: seq<Request>, n: nat, now: nat)
    requires |ring| == RECENT_RING_SIZE && n < |w| && RingShows(ring, from, w, n, now)
    ensures RingShows(ring[(from + n) % 64 := Recent(w[n].session, w[n].s, now)], from, w, n + 1, now)
  {
    var ring' := ring[(from + n) % 64 := Recent(w[n].session, w[n].s, now)];
    forall i | 0 <= i < n + 1 && n + 1 - i <= RECENT_RING_SIZE
      ensures ShownAt(ring', from + i, w[i], now)
    {
      if i < n {
        assert ShownAt(ring, from + i, w[i], now);
        assert (from + i) % 64 != (from + n) % 64;
      }
    }
  }

  /** From (st0, b0, l0) the first n waiting requests were served: all dropped when no session
      is active, otherwise all published and booked. */
  ghost predicate Served(depth: nat, node: nat, active: nat, st0: State, b0: Books, l0: Log, st: State, b: Books, l: Log, n: nat, now: nat) {
    var w := Requests(st0);
    && n <= |w| && Requests(st) == w[n..]
    && st.nackQueue == st0.nackQueue
    && (active == 0 ==> l == l0 && st.ackQueue == st0.ackQueue)
    && (active != 0 ==>
          && l == l0.(published := l0.published + AsSet(w[..n]))
          && b.accepted == b0.accepted + NumbersOf(w[..n])
          && st.ackQueue == QueueAcks(st0.ackQueue, depth, node, w[..n])
          && |st.ring| == RECENT_RING_SIZE
          && st.ringWrite == (st0.ringWrite + n) % 64
          && RingShows(st.ring, st0.ringWrite, w, n, now))
  }

  /** One turn of the publish loop, as PublishOne reports it. */
  ghost predicate ServedOne(depth: nat, node: nat, active: nat, st: State, b: Books, l: Log, st': State, b': Books, l': Log, now: nat)
    requires Requests(st) != []
  {
    var r := Requests(st)[0];
    && Requests(st') == Requests(st)[1..] && st'.pending == Empty && st'.nackQueue == st.nackQueue
    && (active == 0 ==> l' == l && st'.ackQueue == st.ackQueue && st'.ring == st.ring && st'.ringWrite == st.ringWrite)
    && (active != 0 ==>
          && l' == l.(published := l.published + {r})
          && b'.accepted == b.accepted + Tracked(r.s)
          && st'.ackQueue == (if r.src != node then QueueAck(st.ackQueue, depth, Item(r.session, r.s)) else st.ackQueue)
          && |st.ring| == RECENT_RING_SIZE && st.ringWrite < RECENT_RING_SIZE
          && st'.ring == st.ring[st.ringWrite := Recent(r.session, r.s, now)]
          && st'.ringWrite == (st.ringWrite + 1) % 64)
  }

  lemma ServedNone(depth: nat, node: nat, active: nat, st: State, b: Books, l: Log, now: nat)
    requires Fits(depth, st)
    ensures Served(depth, node, active, st, b, l, st, b, l, 0, now)
  {
    var w := Requests(st);
    assert w[..0] == [] && w[0..] == w;
  }

  lemma QueueAcksNext(q: seq<Item>, depth: nat, node: nat, w: seq<Request>, n: nat)
    requires n < |w|
    ensures QueueAcks(q, depth, node, w[..n + 1]) ==
            if w[n].src != node then QueueAck(QueueAcks(q, depth, node, w[..n]), depth, Item(w[n].session, w[n].s))
            else QueueAcks(q, depth, node, w[..n])
  {
    hide QueueAck;
    assert w[..n + 1][..n] == w[..n];
  }

  lemma OneLess(w: seq<Request>, n: nat)
    requires n < |w|
    ensures w[n..][0] == w[n] && w[n..][1..] == w[n + 1..]
  {
  }

  lemma NextSlot(from: nat, n: nat)
    ensures ((from + n) % 64 + 1) % 64 == (from + n + 1) % 64
  {
  }

  lemma ServedNext(depth: nat, node: nat, active: nat, st0: State, b0: Books, l0: Log, st: State, b: Books, l: Log,
                   st': State, b': Books, l': Log, n: nat, now: nat)
    requires Served(depth, node, active, st0, b0, l0, st, b, l, n, now) && Requests(st) != []
    requires ServedOne(depth, node, active, st, b, l, st', b', l', now)
    ensures Served(depth, node, active, st0, b0, l0, st', b', l', n + 1, now)
  {
    hide QueueAck, QueueAcks, Requests, AsSet, NumbersOf, RingShows;
    var w := Requests(st0);
    OneMorePublished(w, n);
    QueueAcksNext(st0.ackQueue, depth, node, w, n);
    OneLess(w, n);
    NextSlot(st0.ringWrite, n);
    if active != 0 {
      RingShowsStep(st.ring, st0.ringWrite, w, n, now);
    }
  }

  lemma ServedShrinks(depth: nat, node: nat, active: nat, st: State, b: Books, l: Log, st': State, b': Books, l': Log, now: nat)
    requires Requests(st) != [] && ServedOne(depth, node, active, st, b, l, st', b', l', now)
    ensures |Requests(st')| < |Requests(st)|
  {
  }

  lemma ServedDeferred(depth: nat, node: nat, active: nat, st0: State, b0: Books, l0: Log, st: State, b: Books, l: Log,
                       st': State, n: nat, now: nat)
    requires Served(depth, node, active, st0, b0, l0, st, b, l, n, now)
    requires Requests(st') == Requests(st) && st' == st.(publishQueue := st'.publishQueue, pending := st'.pending)
    ensures Served(depth, node, active, st0, b0, l0, st', b, l, n, now)
  {
    hide Requests, QueueAcks, RingShows;
  }

  /** The requests that the publish loop hands to the MQTT library. */
  function PublishedBy(st: State, active: nat, connected: bool, msgIds: nat -> int): seq<Request> {
    if !connected || active == 0 then [] else Requests(st)[..FirstRefusal(msgIds, |Requests(st)|)]
  }

  /** An ACK for s waits, as the bitmap tells. */
  predicate Waits(q: seq<Item>, s: nat) {
    s < MAX_TRACKED && s in ItemSeqs(q)
  }

  lemma SameRequests(st: State, st': State)
    requires st' == st.(ackQueue := st'.ackQueue)
    ensures Requests(st') == Requests(st)
  {
  }

  lemma AcksAfterPublish(depth: nat, node: nat, active: nat, st0: State, b0: Books, l0: Log, st: State, b: Books, l: Log, n: nat, now: nat,
                         connected: bool, msgIds: nat -> int)
    requires Served(depth, node, active, st0, b0, l0, st, b, l, n, now)
    requires if !connected then st == st0
             else (Requests(st) == [] || (active != 0 && msgIds(n) < 0)) && (active != 0 ==> Taken(msgIds, n))
    ensures st.ackQueue == QueueAcks(st0.ackQueue, depth, node, PublishedBy(st0, active, connected, msgIds))
  {
    var w := Requests(st0);
    if connected && active != 0 {
      hide Requests, QueueAcks, RingShows;
      assert Requests(st) == [] ==> n == |w|;
      FirstRefusalIs(msgIds, |w|, n);
    }
  }

  lemma {:induction false} QueueAcksAtMost(q: seq<Item>, depth: nat, node: nat, w: seq<Request>)
    ensures |QueueAcks(q, depth, node, w)| <= |q| + |w|
  {
    if w != [] {
      hide ItemSeqs;
      QueueAcksAtMost(q, depth, node, w[..|w| - 1]);
    }
  }

  lemma CustodyStays(depth: nat, node: nat, active: nat, st0: State, b0: Books, l0: Log, st: State, b: Books, l: Log, n: nat, now: nat,
                     session: nat, s: nat)
    requires Served(depth, node, active, st0, b0, l0, st, b, l, n, now) && HasCustody(l0.published, session, s)
    ensures HasCustody(l.published, session, s)
  {
    assert l0.published <= l.published;
  }

  class MqttClient {
    const depth: nat
    const nodeAddr: nat
    const queuedBits: array<byte>
    const acceptedBits: array<byte>
    const ackBits: array<byte>
    var active: nat
    var st: State
    ghost var books: Books
    ghost var log: Log

    ghost predicate BitsAgree()
      reads this, queuedBits, acceptedBits, ackBits
    {
      && queuedBits != acceptedBits && acceptedBits != ackBits && queuedBits != ackBits
      && Bitmap.Tracks(queuedBits[..], MAX_TRACKED, books.queued)
      && Bitmap.Tracks(acceptedBits[..], MAX_TRACKED, books.accepted)
      && Bitmap.Tracks(ackBits[..], MAX_TRACKED, books.ackPending)
    }

    ghost predicate Valid()
      reads this, queuedBits, acceptedBits, ackBits
    {
      BitsAgree() && Consistent(depth, active, st, books, log)
    }

    constructor (depth: nat, nodeAddr: nat)
      ensures Valid() && active == 0 && log == Log({}, {}, {})
      ensures this.depth == depth && this.nodeAddr == nodeAddr
      ensures fresh(queuedBits) && fresh(acceptedBits) && fresh(ackBits)
    {
      this.depth, this.nodeAddr := depth, nodeAddr;
      queuedBits := new byte[(MAX_TRACKED + 7) / 8](_ => 0);
      acceptedBits := new byte[(MAX_TRACKED + 7) / 8](_ => 0);
      ackBits := new byte[(MAX_TRACKED + 7) / 8](_ => 0);
      active, st := 0, Fresh();
      books, log := Books({}, {}, {}), Log({}, {}, {});
      new;
      Bitmap.ZeroTracks(queuedBits[..], MAX_TRACKED);
      Bitmap.ZeroTracks(acceptedBits[..], MAX_TRACKED);
      Bitmap.ZeroTracks(ackBits[..], MAX_TRACKED);
      assert RequestSeqs(Requests(st)) == [] && ItemSeqs(st.ackQueue) == [];
    }

    method BitmapTest(b: array<byte>, s: nat, ghost bits: set<nat>) returns (r: bool)
      requires Bitmap.Tracks(b[..], MAX_TRACKED, bits)
      ensures r <==> s in bits
      ensures r ==> s < MAX_TRACKED
    {
      if s >= MAX_TRACKED {
        return false;
      }
      r := Bitmap.Test(b, s, MAX_TRACKED, bits);
    }

    method BitmapSet(b: array<byte>, s: nat, ghost bits: set<nat>)
      requires Bitmap.Tracks(b[..], MAX_TRACKED, bits)
      modifies b
      ensures Bitmap.Tracks(b[..], MAX_TRACKED, bits + Tracked(s))
    {
      if s < MAX_TRACKED {
        Bitmap.Set(b, s, MAX_TRACKED, bits);
      } else {
        assert bits + Tracked(s) == bits;
      }
    }

    method BitmapClear(b: array<byte>, s: nat, ghost bits: set<nat>)
      requires Bitmap.Tracks(b[..], MAX_TRACKED, bits)
      modifies b
      ensures Bitmap.Tracks(b[..], MAX_TRACKED, bits - {s})
    {
      if s < MAX_TRACKED {
        Bitmap.Clear(b, s, MAX_TRACKED, bits);
      } else {
        assert bits - {s} == bits;
      }
    }

    method BitmapZero(b: array<byte>, ghost bits: set<nat>)
      requires Bitmap.Tracks(b[..], MAX_TRACKED, bits)
      modifies b
      ensures Bitmap.Tracks(b[..], MAX_TRACKED, {})
    {
      for i := 0 to b.Length
        invariant forall k :: 0 <= k < i ==> b[k] == 0
      {
        b[i] := 0;
      }
      Bitmap.ZeroTracks(b[..], MAX_TRACKED);
    }

    /** Asks for one custody ACK; the queued ones are told by their bit. */
    method QueueFragmentAck(session: nat, s: nat) returns (ok: bool)
      requires Valid() && HasCustody(log.published, session, s)
      modifies this`st, this`books, ackBits
      ensures Valid()
      ensures st == old(st).(ackQueue := QueueAck(old(st.ackQueue), depth, Item(session, s)))
      ensures books == old(books).(ackPending := books.ackPending)
      ensures ok <==> s in old(books.ackPending) || |old(st.ackQueue)| < depth
      ensures ok ==> s in ItemSeqs(st.ackQueue)
    {
      hide Bitmap.Tracks, Consistent, HasCustody;
      var pending := BitmapTest(ackBits, s, books.ackPending);
      WaitingIffPending(depth, active, st, books, log, s);
      if pending {
        return true;
      }
      if |st.ackQueue| >= depth {
        return false;
      }
      AckQueued(depth, active, st, books, log, Item(session, s));
      BitmapSet(ackBits, s, books.ackPending);
      books := books.(ackPending := books.ackPending + Tracked(s));
      st := st.(ackQueue := st.ackQueue + [Item(session, s)]);
      assert ItemSeqs(st.ackQueue)[|st.ackQueue| - 1] == s;
      ok := true;
    }

    /** A fragment from the mesh. It is taken at most once; a duplicate of an accepted one is
        answered by another custody ACK; a refusal changes nothing. */
    method PublishFragment(session: nat, s: nat, src: nat, data: seq<byte>) returns (ok: bool)
      requires Valid()
      modifies this`st, this`books, this`log, queuedBits, ackBits
      ensures Valid() && log == old(log).(offered := log.offered) && books.accepted == old(books.accepted)
      ensures data == [] || (active != 0 && session != active) ==> !ok
      ensures !ok ==> st == old(st) && books == old(books) && log == old(log)
      ensures ok && (s in old(books.queued) || s in old(books.accepted)) ==>
                && log == old(log)
                && st == old(st).(ackQueue := if s in books.accepted && src != nodeAddr
                                              then QueueAck(old(st.ackQueue), depth, Item(session, s)) else old(st.ackQueue))
      ensures ok && s !in old(books.queued) && s !in old(books.accepted) ==>
                var r := Request(session, s, src, if |data| > MAX_MTU then data[..MAX_MTU] else data);
                && st == old(st).(publishQueue := old(st.publishQueue) + [r]) && r in log.offered
                && books.queued == old(books.queued) + Tracked(s)
      ensures data != [] && (active == 0 || session == active) ==>
                (ok <==> s in old(books.queued) || s in old(books.accepted) || |old(st.publishQueue)| < depth)
    {
      hide Bitmap.Tracks, Consistent, HasCustody;
      if |data| == 0 {
        return false;
      }
      var r := Request(session, s, src, if |data| > MAX_MTU then data[..MAX_MTU] else data);
      if active != 0 && session != active {
        return false;
      }
      var alreadyAccepted := BitmapTest(acceptedBits, s, books.accepted);
      var alreadyQueued := BitmapTest(queuedBits, s, books.queued);
      if alreadyAccepted || alreadyQueued {
        if alreadyAccepted && src != nodeAddr {
          AcceptedHasCustody(depth, active, st, books, log, s);
          var _ := QueueFragmentAck(session, s);
        }
        return true;
      }
      if |st.publishQueue| >= depth {
        return false;
      }
      Offered(depth, active, st, books, log, r);
      BitmapSet(queuedBits, s, books.queued);
      books := books.(queued := books.queued + Tracked(s));
      st := st.(publishQueue := st.publishQueue + [r]);
      log := log.(offered := log.offered + {r});
      ok := true;
    }

    /** One turn of the publish loop, with something waiting. msgId is what the MQTT library
        answers if it is asked to publish; negative on failure. */
    method PublishOne(now: nat, msgId: int) returns (more: bool)
      requires Valid() && Requests(st) != []
      modifies this`st, this`books, this`log, queuedBits, acceptedBits, ackBits
      ensures Valid()
      ensures more <==> active == 0 || msgId >= 0
      ensures if !more then
                Requests(st) == old(Requests(st)) && log == old(log) && books == old(books)
                && st == old(st).(pending := Held(old(Requests(st))[0]), publishQueue := old(Requests(st))[1..])
              else ServedOne(depth, nodeAddr, active, old(st), old(books), old(log), st, books, log, now)
    {
      hide Bitmap.Tracks, Consistent, HasCustody, QueueAck;
      SizesFit(depth, active, st, books, log);
      var r, rest := TakeFront(st);
      FrontLeaves(depth, active, st, rest, books, log);
      if active == 0 || r.session != active {
        BitmapClear(queuedBits, r.s, books.queued);
        books := books.(queued := books.queued - {r.s});
        st := rest;
        return true;
      }
      if msgId < 0 {
        FrontDeferred(depth, active, st, rest.(pending := Held(r)), books, log);
        st := rest.(pending := Held(r));
        return false;
      }
      ghost var books1 := books.(queued := books.queued - {r.s});
      Accepted(depth, active, rest, books1, log, r, now);
      BitmapClear(queuedBits, r.s, books.queued);
      BitmapSet(acceptedBits, r.s, books.accepted);
      books := books1.(accepted := books1.accepted + Tracked(r.s));
      st := rest.(ring := rest.ring[rest.ringWrite := Recent(r.session, r.s, now)], ringWrite := (rest.ringWrite + 1) % RECENT_RING_SIZE);
      log := log.(published := log.published + {r});
      if r.src != nodeAddr {
        var _ := QueueFragmentAck(r.session, r.s);
      }
      more := true;
    }

    /** The publish loop. Requests are served in order until one fails, which stays first in
        line; none is lost, and each one served leaves its bit, its ACK and its ring entry. */
    method ProcessFragmentPublish(connected: bool, now: nat, msgIds: nat -> int) returns (n: nat)
      requires Valid()
      modifies this`st, this`books, this`log, queuedBits, acceptedBits, ackBits
      ensures Valid() && Served(depth, nodeAddr, active, old(st), old(books), old(log), st, books, log, n, now)
      ensures if !connected then st == old(st) && books == old(books) && log == old(log)
              else
                && (Requests(st) == [] || (active != 0 && msgIds(n) < 0 && st.pending == Held(Requests(st)[0])))
                && (active != 0 ==> Taken(msgIds, n))
    {
      hide Consistent, Requests, BitsAgree, Served, ServedOne, Taken;
      n := 0;
      TakenNext(msgIds, 0);
      SizesFit(depth, active, st, books, log);
      ServedNone(depth, nodeAddr, active, st, books, log, now);
      if !connected {
        return;
      }
      var more := true;
      while more
        invariant Valid() && Served(depth, nodeAddr, active, old(st), old(books), old(log), st, books, log, n, now)
        invariant active != 0 ==> Taken(msgIds, n)
        invariant !more ==> active != 0 && msgIds(n) < 0 && Requests(st) != [] && st.pending == Held(Requests(st)[0])
        decreases more, |Requests(st)|
      {
        var idle := NothingWaits(st);
        if idle {
          return;
        }
        ghost var st1, b1, l1 := st, books, log;
        TakenNext(msgIds, n);
        more := PublishOne(now, msgIds(n));
        if more {
          ServedNext(depth, nodeAddr, active, old(st), old(books), old(log), st1, b1, l1, st, books, log, n, now);
          ServedShrinks(depth, nodeAddr, active, st1, b1, l1, st, books, log, now);
          n := n + 1;
        } else {
          ServedDeferred(depth, nodeAddr, active, old(st), old(books), old(log), st1, books, log, st, n, now);
        }
      }
    }

    /** Forgets everything about the session but what was published and acknowledged. */
    method ResetTransferRuntimeState()
      requires BitsAgree() && exists was: nat, b: Books :: Consistent(depth, was, st, b, log)
      modifies this`st, this`books, queuedBits, acceptedBits, ackBits
      ensures Valid() && st == Fresh() && books == Books({}, {}, {})
    {
      hide Bitmap.Tracks, Consistent, HasCustody;
      ghost var was: nat, b: Books :| Consistent(depth, was, st, b, log);
      Reset(depth, was, st, b, log);
      BitmapZero(queuedBits, books.queued);
      BitmapZero(acceptedBits, books.accepted);
      BitmapZero(ackBits, books.ackPending);
      st := Fresh();
      books := Books({}, {}, {});
    }

    method ActivateTransferSession(session: nat)
      requires Valid()
      modifies this`active, this`st, this`books, queuedBits, acceptedBits, ackBits
      ensures Valid() && active == session
      ensures if session == old(active) then st == old(st) && books == old(books)
              else st == Fresh() && books == Books({}, {}, {})
    {
      hide Bitmap.Tracks, Consistent, HasCustody;
      var prev := active;
      assert Consistent(depth, prev, st, books, log);
      active := session;
      if prev != session {
        assert Consistent(depth, prev, st, books, log);
        ResetTransferRuntimeState();
      }
    }

    method ClearTransferSession(session: nat)
      requires Valid()
      modifies this`active, this`st, this`books, queuedBits, acceptedBits, ackBits
      ensures Valid()
      ensures if session == old(active) then active == 0 && st == Fresh() && books == Books({}, {}, {})
              else active == old(active) && st == old(st) && books == old(books)
    {
      hide Bitmap.Tracks, Consistent, HasCustody;
      var expected := active;
      assert Consistent(depth, expected, st, books, log);
      if expected == session {
        active := 0;
        assert Consistent(depth, expected, st, books, log);
        ResetTransferRuntimeState();
      }
    }

    /** The cloud wants a fragment again: its next copy is not a duplicate. */
    method MarkFragmentForRepublish(session: nat, s: nat)
      requires Valid()
      modifies this`books, acceptedBits
      ensures Valid()
      ensures books == if active == 0 || session != active then old(books)
                       else old(books).(accepted := old(books.accepted) - {s})
    {
      hide Bitmap.Tracks, Consistent, HasCustody;
      if active == 0 || session != active {
        return;
      }
      SizesFit(depth, active, st, books, log);
      Withdrawn(depth, active, st, books, log, s, st.nackQueue, st.ring);
      assert st.(nackQueue := st.nackQueue, ring := st.ring) == st;
      BitmapClear(acceptedBits, s, books.accepted);
      books := books.(accepted := books.accepted - {s});
    }

    /** The next custody ACK of the session, first come first served. */
    method DrainFragmentAck(session: nat) returns (found: bool, s: nat)
      requires Valid()
      modifies this`st, this`books, ackBits
      ensures Valid() && st == old(st).(ackQueue := st.ackQueue) && books == old(books).(ackPending := books.ackPending)
      ensures !found ==> st == old(st) && books == old(books) && Of(st.ackQueue, session) == []
      ensures st.ackQueue == Remaining(old(st.ackQueue), session)
      ensures found <==> FirstItem(old(st.ackQueue), session) < |old(st.ackQueue)|
      ensures found ==>
                && Item(session, s) == old(st.ackQueue)[FirstItem(old(st.ackQueue), session)]
                && HasCustody(log.published, session, s)
                && s !in books.ackPending && |st.ackQueue| < depth
                && Of(old(st.ackQueue), session) == [Item(session, s)] + Of(st.ackQueue, session)
                && multiset(old(st.ackQueue)) == multiset(st.ackQueue) + multiset{Item(session, s)}
    {
      hide Bitmap.Tracks, Consistent, HasCustody, Of, FirstItem, Remaining;
      ghost var m;
      var rest;
      SizesFit(depth, active, st, books, log);
      found, s, rest, m := DrainSession(st.ackQueue, session);
      if found {
        AckTaken(depth, active, st, books, log, m);
        BitmapClear(ackBits, s, books.ackPending);
        books := books.(ackPending := books.ackPending - {s});
      }
      st := st.(ackQueue := rest);
    }

    /** Puts an ACK that could not be sent back in front. */
    method RequeueFragmentAck(session: nat, s: nat) returns (ok: bool)
      requires Valid() && HasCustody(log.published, session, s)
      modifies this`st, this`books, ackBits
      ensures Valid() && st == old(st).(ackQueue := st.ackQueue) && books == old(books).(ackPending := books.ackPending)
      ensures st.ackQueue == (if s in old(books.ackPending) || |old(st.ackQueue)| >= depth then old(st.ackQueue)
                              else [Item(session, s)] + old(st.ackQueue))
      ensures ok <==> s in old(books.ackPending) || |old(st.ackQueue)| < depth
    {
      hide Bitmap.Tracks, Consistent, HasCustody;
      var pending := BitmapTest(ackBits, s, books.ackPending);
      if pending {
        return true;
      }
      if |st.ackQueue| >= depth {
        return false;
      }
      AckQueued(depth, active, st, books, log, Item(session, s));
      BitmapSet(ackBits, s, books.ackPending);
      books := books.(ackPending := books.ackPending + Tracked(s));
      st := st.(ackQueue := [Item(session, s)] + st.ackQueue);
      ok := true;
    }

    /** The exit node's tick: sends the session's custody ACKs in order until the mesh refuses
        one, which goes back in front. Every ACK sent is backed by a local acceptance. answers
        says what the mesh transport answers; negative when its slots are taken. */
    method SendCustodyAcks(session: nat, answers: nat -> int) returns (n: nat)
      requires Valid()
      modifies this`st, this`books, this`log, ackBits
      ensures Valid() && AcksSent(old(st), old(books), old(log), st, books, log, session, n)
      ensures Taken(answers, n) && (n == |old(Of(st.ackQueue, session))| || answers(n) < 0)
    {
      hide Bitmap.Tracks, Consistent, HasCustody, Of, AcksSent, Taken;
      n := 0;
      TakenNext(answers, 0);
      AcksSentNone(st, books, log, session);
      while true
        invariant Valid() && n <= |old(Of(st.ackQueue, session))| && Taken(answers, n)
        invariant AcksSent(old(st), old(books), old(log), st, books, log, session, n)
        decreases |old(Of(st.ackQueue, session))| - n
      {
        ghost var st1, b1 := st, books;
        var found, s := DrainFragmentAck(session);
        if !found {
          AcksSentAll(old(st), old(books), old(log), st, books, log, session, n);
          return;
        }
        TakenNext(answers, n);
        if answers(n) < 0 {
          ghost var st2 := st;
          var _ := RequeueFragmentAck(session, s);
          AckReturned(old(st), old(books), old(log), st1, b1, st2, st, books, log, session, n, s);
          return;
        }
        AckEmitted(depth, active, st, books, log, Item(session, s));
        AcksSentNext(old(st), old(books), old(log), st1, b1, st, books, log, session, n, s);
        log := log.(acked := log.acked + {Item(session, s)});
        n := n + 1;
      }
    }

    /** One custody ACK when the MQTT task runs its publish loop between drain and requeue. A
        refused ACK is lost exactly when the ACKs which that loop asks for fill the queue and
        none of them is for the same number. Nothing is lost if there was room for an ACK for
        every waiting request. */
    method SendOneAckInterrupted(session: nat, answer: int, connected: bool, now: nat, msgIds: nat -> int)
      returns (found: bool, s: nat, lost: bool)
      requires Valid()
      modifies this`st, this`books, this`log, queuedBits, acceptedBits, ackBits
      ensures Valid()
      ensures found <==> FirstItem(old(st.ackQueue), session) < |old(st.ackQueue)|
      ensures found ==> Item(session, s) == old(st.ackQueue)[FirstItem(old(st.ackQueue), session)]
      ensures var q := QueueAcks(Remaining(old(st.ackQueue), session), depth, nodeAddr, PublishedBy(old(st), active, connected, msgIds));
              && (lost <==> found && answer < 0 && |q| >= depth && !Waits(q, s))
              && st.ackQueue == if found && answer < 0 && !lost && !Waits(q, s) then [Item(session, s)] + q else q
      ensures |old(st.ackQueue)| + |old(Requests(st))| <= depth ==> !lost
      ensures found && answer >= 0 ==> Item(session, s) in log.acked
    {
      hide Bitmap.Tracks, Consistent, HasCustody, Of, FirstItem, Remaining, QueueAcks, Requests;
      lost := false;
      found, s := DrainFragmentAck(session);
      ghost var st1, b1, l1 := st, books, log;
      assert Requests(st1) == old(Requests(st)) by {
        SameRequests(old(st), st1);
      }
      var n := ProcessFragmentPublish(connected, now, msgIds);
      AcksAfterPublish(depth, nodeAddr, active, st1, b1, l1, st, books, log, n, now, connected, msgIds);
      QueueAcksAtMost(st1.ackQueue, depth, nodeAddr, PublishedBy(st1, active, connected, msgIds));
      if found {
        CustodyStays(depth, nodeAddr, active, st1, b1, l1, st, books, log, n, now, session, s);
        if answer < 0 {
          PendingIsWaiting(s);
          var ok := RequeueFragmentAck(session, s);
          lost := !ok;
        } else {
          AckEmitted(depth, active, st, books, log, Item(session, s));
          log := log.(acked := log.acked + {Item(session, s)});
        }
      }
    }

    lemma QueuedIsWaiting(s: nat)
      requires Valid() && s < MAX_TRACKED
      ensures s in books.queued <==> s in RequestSeqs(Requests(st))
    {
      hide Consistent;
      WaitingIffPending(depth, active, st, books, log, s);
    }

    lemma PendingIsWaiting(s: nat)
      requires Valid()
      ensures s in books.ackPending <==> Waits(st.ackQueue, s)
    {
      hide Consistent;
      WaitingIffPending(depth, active, st, books, log, s);
    }

    /** The next cloud NACK of the session. */
    method DrainCloudNack(session: nat) returns (found: bool, s: nat)
      requires Valid()
      modifies this`st
      ensures Valid() && st == old(st).(nackQueue := st.nackQueue)
      ensures !found ==> st == old(st) && Of(st.nackQueue, session) == []
      ensures found ==>
                && Of(old(st.nackQueue), session) == [Item(session, s)] + Of(st.nackQueue, session)
                && multiset(old(st.nackQueue)) == multiset(st.nackQueue) + multiset{Item(session, s)}
    {
      hide Bitmap.Tracks, Consistent, HasCustody, Of;
      ghost var m;
      var rest;
      SizesFit(depth, active, st, books, log);
      found, s, rest, m := DrainSession(st.nackQueue, session);
      Withdrawn(depth, active, st, books, log, 0, rest, st.ring);
      assert st.(nackQueue := rest, ring := st.ring) == st.(nackQueue := rest);
      st := st.(nackQueue := rest);
    }

    /** The broker connection is lost: fragments published lately are asked for again, oldest
        ring slot first, as long as the NACK queue has room; exactly those lose their accepted
        bit, so exactly those are published again. */
    method OnDisconnected(now: nat)
      requires Valid()
      modifies this`st, this`books, acceptedBits
      ensures Valid()
      ensures active == 0 ==> st == old(st) && books == old(books)
      ensures active != 0 ==> Replayed(old(st), old(books), st, books, active, now, RECENT_RING_SIZE)
    {
      hide Bitmap.Tracks, Consistent, HasCustody;
      if active == 0 {
        return;
      }
      SizesFit(depth, active, st, books, log);
      ghost var st0, b0 := st, books;
      assert st0.ring[..0] == [];
      for i := 0 to RECENT_RING_SIZE
        invariant Valid() && |st.ring| == RECENT_RING_SIZE && |st.nackQueue| <= NACK_QUEUE_DEPTH
        invariant Replayed(st0, b0, st, books, active, now, i)
      {
        var e := st.ring[i];
        ghost var st1, b1 := st, books;
        if e.ms != 0 && e.session == active {
          if now - e.ms > RECENT_REPLAY_MS {
            Forget(e.s, i, st.nackQueue);
            st := st.(ring := st.ring[i := e.(ms := 0)]);
          } else if |st.nackQueue| < NACK_QUEUE_DEPTH {
            Forget(e.s, i, st.nackQueue + [Item(e.session, e.s)]);
            BitmapClear(acceptedBits, e.s, books.accepted);
            books := books.(accepted := books.accepted - {e.s});
            st := st.(nackQueue := st.nackQueue + [Item(e.session, e.s)], ring := st.ring[i := e.(ms := 0)]);
          }
        }
        ReplayedNext(st0, b0, st1, b1, st, books, active, now, i);
      }
    }

    lemma Forget(s: nat, i: nat, nackQueue: seq<Item>)
      requires Valid() && i < |st.ring| && |nackQueue| <= NACK_QUEUE_DEPTH
      ensures var st' := st.(nackQueue := nackQueue, ring := st.ring[i := st.ring[i].(ms := 0)]);
              && Consistent(depth, active, st', books, log)
              && Consistent(depth, active, st', books.(accepted := books.accepted - {s}), log)
    {
      hide Consistent;
      Withdrawn(depth, active, st, books, log, s, nackQueue, st.ring[i := st.ring[i].(ms := 0)]);
    }
  }

  /** A client with room for one custody ACK has published one fragment and owes that ACK. */
  method OneAckWaits() returns (c: MqttClient)
    ensures fresh(c) && fresh(c.queuedBits) && fresh(c.acceptedBits) && fresh(c.ackBits)
    ensures c.Valid() && c.depth == 1 && c.nodeAddr == 9 && c.active == 5
    ensures Requests(c.st) == [] && c.st.ackQueue == [Item(5, 0)] && 1 !in c.books.accepted && 1 !in c.books.queued
  {
    hide MqttClient.Valid, Served;
    c := new MqttClient(1, 9);
    ThreeBitmaps(c);
    c.ActivateTransferSession(5);
    var _ := c.PublishFragment(5, 0, 1, [0]);
    ghost var st0, b0, l0 := c.st, c.books, c.log;
    assert Requests(st0) == [Request(5, 0, 1, [0])];
    var n := c.ProcessFragmentPublish(true, 1, _ => 0);
    OneServed(1, 9, 5, st0, b0, l0, c.st, c.books, c.log, n, 1, Request(5, 0, 1, [0]));
    c.QueuedIsWaiting(1);
  }

  lemma ThreeBitmaps(c: MqttClient)
    requires c.Valid()
    ensures c.queuedBits != c.acceptedBits && c.acceptedBits != c.ackBits && c.queuedBits != c.ackBits
  {
  }

  /** A run that loses an ACK: the queue holds one; it is drained and refused, and meanwhile the
      next fragment is published, whose ACK takes the place. */
  method AckLost() returns (lost: bool)
    ensures lost
  {
    hide MqttClient.Valid, FirstItem, Remaining, QueueAcks, QueueAck, Waits;
    var c := OneAckWaits();
    ThreeBitmaps(c);
    var _ := c.PublishFragment(5, 1, 1, [0]);
    ghost var r := Request(5, 1, 1, [0]);
    assert Requests(c.st) == [r];
    assert PublishedBy(c.st, 5, true, _ => 0) == [r][..1] == [r];
    SecondAckTakesThePlace(r);
    var found, s;
    found, s, lost := c.SendOneAckInterrupted(5, -1, true, 2, _ => 0);
  }

  /** Serving the only request leaves its ACK in the empty queue. */
  lemma OneServed(depth: nat, node: nat, active: nat, st0: State, b0: Books, l0: Log, st: State, b: Books, l: Log, n: nat, now: nat, r: Request)
    requires Served(depth, node, active, st0, b0, l0, st, b, l, n, now) && Requests(st0) == [r] && Requests(st) == []
    requires active != 0 && r.src != node && r.s < MAX_TRACKED && depth > 0 && st0.ackQueue == []
    ensures st.ackQueue == [Item(r.session, r.s)] && b.accepted == b0.accepted + {r.s}
  {
    hide RingShows;
    assert n == 1 && [r][..1] == [r] && [r][..0] == [];
    assert QueueAcks([], depth, node, []) == [];
    assert QueueAcks([], depth, node, [r]) == QueueAck([], depth, Item(r.session, r.s));
    assert NumbersOf([r]) == {r.s};
  }

  lemma SecondAckTakesThePlace(r: Request)
    requires r.session == 5 && r.s == 1 && r.src == 1
    ensures FirstItem([Item(5, 0)], 5) == 0 && QueueAcks(Remaining([Item(5, 0)], 5), 1, 9, [r]) == [Item(5, 1)]
    ensures !Waits([Item(5, 1)], 0)
  {
    assert Remaining([Item(5, 0)], 5) == [];
    assert [r][..0] == [];
    assert QueueAcks([], 1, 9, []) == [];
    assert QueueAck([], 1, Item(5, 1)) == [Item(5, 1)];
    assert ItemSeqs([Item(5, 1)]) == [1];
  }

  method NothingWaits(st: State) returns (idle: bool)
    ensures idle <==> Requests(st) == []
  {
    idle := st.pending.Empty? && |st.publishQueue| == 0;
  }

  /** The deferred fragment if there is one, else the head of the queue. */
  method TakeFront(st: State) returns (r: Request, rest: State)
    requires Requests(st) != []
    ensures r == Requests(st)[0] && Requests(rest) == Requests(st)[1..]
    ensures rest == st.(publishQueue := Requests(st)[1..], pending := Empty) && |rest.publishQueue| <= |st.publishQueue|
  {
    if st.pending.Held? {
      r, rest := st.pending.req, st.(pending := Empty);
    } else {
      r, rest := st.publishQueue[0], st.(publishQueue := st.publishQueue[1..]);
    }
  }
}
