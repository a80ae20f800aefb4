/** Sequence-numbered routes towards the internet, kept per neighbor. */
module Routing {

  const SERIALS := 0x1_0000
  const HALF := 0x8000
  const HOPS_UNKNOWN := 0xFF
  const MAX_NEIGHBORS := 16
  const EXIT_ANY_ADDR := 0xFFFE
  const BROADCAST_ADDR := 0xFFFF
  const LORA_ONLY_PENALTY := 500
  const MIN_COST_IMPROVEMENT := 50
  const HYSTERESIS_CYCLES := 3
  const NO_COST := 0xFFFF_FFFF

  // ---- Serial numbers (section 3.2 of RFC 1982, 16 bits) ----

  /** The difference as a signed 16-bit number is positive. */
  predicate SeqNewer(a: nat, b: nat) {
    var d := (a - b) % 0x1_0000;
    (if d >= 0x8000 then d - 0x1_0000 else d) > 0
  }

  /** Serial i of a span that starts at base. */
  function Serial(base: nat, i: nat): nat {
    (base + i) % 0x1_0000
  }

  /** On a span shorter than 2^15 serials the test is the order of the positions, wherever the
      span lies and even if it wraps. */
  lemma NewerIsLater(base: nat, i: nat, j: nat)
    requires i < HALF && j < HALF
    ensures SeqNewer(Serial(base, i), Serial(base, j)) <==> i > j
    ensures Serial(base, i) == Serial(base, j) <==> i == j
  {
    assert (Serial(base, i) - Serial(base, j)) % 0x1_0000 == (i - j) % 0x1_0000;
  }

  /** The span may not be longer: serials 2^15 apart are unordered both ways. */
  lemma HalfApartIsUnordered(base: nat)
    ensures !SeqNewer(Serial(base, 0), Serial(base, 0x8000)) && !SeqNewer(Serial(base, 0x8000), Serial(base, 0))
    ensures Serial(base, 0) != Serial(base, 0x8000)
  {
    assert (Serial(base, 0x8000) - Serial(base, 0)) % 0x1_0000 == 0x8000;
    assert (Serial(base, 0) - Serial(base, 0x8000)) % 0x1_0000 == 0x8000;
  }

  // ---- One neighbor's route ----

  datatype Route = Route(hops: nat, s: nat, origin: nat)

  const NoRoute := Route(HOPS_UNKNOWN, 0, 0)

  /** The advertisement adv replaces the stored route. */
  predicate Accepts(r: Route, adv: Route) {
    if adv.origin == r.origin then SeqNewer(adv.s, r.s) || (adv.s == r.s && adv.hops < r.hops)
    else SeqNewer(adv.s, r.s) || adv.hops < r.hops
  }

  function Updated(r: Route, adv: Route): Route {
    if Accepts(r, adv) then adv else r
  }

  function UpdatedAll(r: Route, advs: seq<Route>): Route {
    if advs == [] then r else Updated(UpdatedAll(r, advs[..|advs| - 1]), advs[|advs| - 1])
  }

  /** adv comes from origin and lies in the span at base. */
  ghost predicate InSpan(base: nat, origin: nat, adv: Route) {
    adv.origin == origin && adv.hops < HOPS_UNKNOWN && exists i: nat :: i < HALF && adv.s == Serial(base, i)
  }

  ghost function Position(base: nat, adv: Route): (i: nat)
    requires exists i: nat :: i < HALF && adv.s == Serial(base, i)
    ensures i < HALF && adv.s == Serial(base, i)
  {
    var i: nat :| i < HALF && adv.s == Serial(base, i);
    i
  }

  /** Newest serial, then fewest hops. */
  ghost predicate AtLeastAsGood(base: nat, a: Route, b: Route)
    requires exists i: nat :: i < HALF && a.s == Serial(base, i)
    requires exists i: nat :: i < HALF && b.s == Serial(base, i)
  {
    Position(base, a) > Position(base, b) || (Position(base, a) == Position(base, b) && a.hops <= b.hops)
  }

  /** r is the best of advs: one of them, and at least as good as each. */
  ghost predicate IsBest(base: nat, origin: nat, r: Route, advs: set<Route>)
    requires forall a :: a in advs ==> InSpan(base, origin, a)
  {
    r in advs && InSpan(base, origin, r) && forall a :: a in advs ==> InSpan(base, origin, a) && AtLeastAsGood(base, r, a)
  }

  ghost predicate AllInSpan(base: nat, origin: nat, advs: seq<Route>) {
    forall a :: a in advs ==> InSpan(base, origin, a)
  }

  function SetOf(advs: seq<Route>): set<Route> {
    set a | a in advs
  }

  lemma AcceptsIsBetter(base: nat, origin: nat, r: Route, adv: Route)
    requires InSpan(base, origin, r) && InSpan(base, origin, adv)
    ensures Accepts(r, adv) <==> !AtLeastAsGood(base, r, adv)
  {
    NewerIsLater(base, Position(base, adv), Position(base, r));
  }

  /** An entry without a route takes whatever it hears first. */
  lemma FirstIsTaken(base: nat, origin: nat, adv: Route)
    requires InSpan(base, origin, adv) && origin != 0
    ensures Updated(NoRoute, adv) == adv
  {
  }

  /** After any sequence of advertisements from one origin within a span, the stored route is
      the newest one with its fewest hops. */
  lemma {:induction false} StoresTheBest(base: nat, origin: nat, advs: seq<Route>)
    requires AllInSpan(base, origin, advs) && advs != [] && origin != 0
    ensures forall a :: a in SetOf(advs) ==> InSpan(base, origin, a)
    ensures IsBest(base, origin, UpdatedAll(NoRoute, advs), SetOf(advs))
  {
    var n := |advs| - 1;
    var last, before := advs[n], advs[..n];
    assert advs == before + [last];
    if before == [] {
      FirstIsTaken(base, origin, last);
      assert SetOf(advs) == {last};
    } else {
      StoresTheBest(base, origin, before);
      var r := UpdatedAll(NoRoute, before);
      assert r in before;
      AcceptsIsBetter(base, origin, r, last);
      assert SetOf(advs) == SetOf(before) + {last};
    }
  }

  /** Two best routes of the same set are the same route. */
  lemma BestIsUnique(base: nat, origin: nat, r: Route, r': Route, advs: set<Route>)
    requires forall a :: a in advs ==> InSpan(base, origin, a)
    requires IsBest(base, origin, r, advs) && IsBest(base, origin, r', advs)
    ensures r == r'
  {
    assert AtLeastAsGood(base, r, r') && AtLeastAsGood(base, r', r);
  }

  /** Confluence: the same advertisements in any order, with any repetitions, leave the same
      route. */
  lemma Confluence(base: nat, origin: nat, advs: seq<Route>, advs': seq<Route>)
    requires AllInSpan(base, origin, advs) && advs != [] && origin != 0
    requires SetOf(advs) == SetOf(advs')
    ensures UpdatedAll(NoRoute, advs) == UpdatedAll(NoRoute, advs')
  {
    assert advs[0] in SetOf(advs);
    assert advs' != [];
    assert AllInSpan(base, origin, advs') by {
      forall a | a in advs'
        ensures InSpan(base, origin, a)
      {
        assert a in SetOf(advs');
      }
    }
    StoresTheBest(base, origin, advs);
    StoresTheBest(base, origin, advs');
    BestIsUnique(base, origin, UpdatedAll(NoRoute, advs), UpdatedAll(NoRoute, advs'), SetOf(advs));
  }

  // ---- Several origins ----

  /** Two advertisements commute on a stored route iff: when it takes both, exactly one of them
      replaces the other; when it takes only one, the other does not replace that one. */
  lemma TwoCommuteIff(r: Route, a: Route, b: Route)
    requires a.origin != b.origin
    ensures Updated(Updated(r, a), b) == Updated(Updated(r, b), a) <==>
              && (Accepts(r, a) && Accepts(r, b) ==> (Accepts(a, b) <==> !Accepts(b, a)))
              && (Accepts(r, a) && !Accepts(r, b) ==> !Accepts(a, b))
              && (Accepts(r, b) && !Accepts(r, a) ==> !Accepts(b, a))
  {
    hide Accepts;
  }

  lemma AfterTwo(r: Route, a: Route, b: Route)
    ensures UpdatedAll(r, [a]) == Updated(r, a) && UpdatedAll(r, [a, b]) == Updated(Updated(r, a), b)
  {
    assert [a, b][..1] == [a] && [a][..0] == [];
    assert UpdatedAll(r, []) == r;
  }

  /** Both first advertisements of an empty entry are taken, so they commute iff exactly one of
      the two replaces the other. */
  lemma FirstTwoCommuteIff(a: Route, b: Route)
    requires a.origin != b.origin && IsHeard(a) && IsHeard(b)
    ensures UpdatedAll(NoRoute, [a, b]) == UpdatedAll(NoRoute, [b, a]) <==>
            ((SeqNewer(a.s, b.s) || a.hops < b.hops) <==> !(SeqNewer(b.s, a.s) || b.hops < a.hops))
  {
    TwoCommuteIff(NoRoute, a, b);
    AfterTwo(NoRoute, a, b);
    AfterTwo(NoRoute, b, a);
  }

  /** A newer serial with more hops against an older one with fewer: each replaces the other. */
  lemma OriginsDoNotCommute()
    ensures UpdatedAll(NoRoute, [Route(3, 10, 1), Route(2, 5, 2)]) != UpdatedAll(NoRoute, [Route(2, 5, 2), Route(3, 10, 1)])
  {
    FirstTwoCommuteIff(Route(3, 10, 1), Route(2, 5, 2));
  }

  /** An advertisement with a route: it names its origin and a known number of hops. */
  predicate IsHeard(a: Route) {
    a.origin != 0 && a.hops < HOPS_UNKNOWN
  }

  /** f replaces every other advertisement and is replaced by none. */
  ghost predicate Wins(f: Route, advs: set<Route>) {
    f in advs && forall a :: a in advs && a != f ==> Accepts(a, f) && !Accepts(f, a)
  }

  /** Every arrival order of the advertisements, with any repetitions, leaves the same route. */
  ghost predicate OrderFree(advs: set<Route>) {
    forall q, q' :: SetOf(q) == advs && SetOf(q') == advs ==> UpdatedAll(NoRoute, q) == UpdatedAll(NoRoute, q')
  }

  lemma NotOverItself(a: Route)
    ensures !Accepts(a, a)
  {
  }

  lemma {:induction false} UpdatedConcat(r: Route, p: seq<Route>, q: seq<Route>)
    ensures UpdatedAll(r, p + q) == UpdatedAll(UpdatedAll(r, p), q)
  {
    if q == [] {
      assert p + q == p;
    } else {
      var n := |q| - 1;
      assert (p + q)[..|p + q| - 1] == p + q[..n];
      UpdatedConcat(r, p, q[..n]);
    }
  }

  /** What is stored is what was stored before or one of those heard. */
  lemma {:induction false} StoredIsHeard(r: Route, q: seq<Route>)
    ensures UpdatedAll(r, q) == r || UpdatedAll(r, q) in q
  {
    if q != [] {
      StoredIsHeard(r, q[..|q| - 1]);
    }
  }

  /** An empty entry keeps one of those it heard. */
  lemma {:induction false} FirstHeardIsKept(q: seq<Route>)
    requires q != [] && forall a :: a in q ==> IsHeard(a)
    ensures UpdatedAll(NoRoute, q) in q
  {
    var n := |q| - 1;
    if n > 0 {
      FirstHeardIsKept(q[..n]);
    } else {
      AfterTwo(NoRoute, q[0], q[0]);
      assert q == [q[0]] && q[0] in q;
    }
  }

  lemma {:induction false} WinnerIsStored(q: seq<Route>, f: Route, advs: set<Route>)
    requires Wins(f, advs) && f in q && (forall a :: a in q ==> a in advs) && forall a :: a in advs ==> IsHeard(a)
    ensures UpdatedAll(NoRoute, q) == f
  {
    hide Accepts;
    NotOverItself(f);
    var n := |q| - 1;
    var before, last := q[..n], q[n];
    assert q == before + [last];
    if f in before {
      WinnerIsStored(before, f, advs);
    } else if before == [] {
      FirstHeardIsKept(q);
    } else {
      FirstHeardIsKept(before);
    }
  }

  lemma {:induction false} Listing(advs: set<Route>) returns (q: seq<Route>)
    ensures SetOf(q) == advs
    decreases |advs|
  {
    if advs == {} {
      q := [];
    } else {
      var a :| a in advs;
      q := Listing(advs - {a});
      assert SetOf(q + [a]) == SetOf(q) + {a};
      q := q + [a];
    }
  }

  lemma SetOfConcat(p: seq<Route>, q: seq<Route>)
    ensures SetOf(p + q) == SetOf(p) + SetOf(q)
  {
  }

  /** Confluence for any origins and any serials: all arrival orders leave the same route iff
      some advertisement replaces every other one and is replaced by none. */
  lemma OrderFreeIff(advs: set<Route>)
    requires advs != {} && forall a :: a in advs ==> IsHeard(a)
    ensures OrderFree(advs) <==> exists f :: Wins(f, advs)
  {
    hide Accepts, UpdatedAll;
    if f :| Wins(f, advs) {
      forall q, q' | SetOf(q) == advs && SetOf(q') == advs
        ensures UpdatedAll(NoRoute, q) == UpdatedAll(NoRoute, q')
      {
        assert f in SetOf(q) && f in SetOf(q');
        assert (forall a :: a in q ==> a in SetOf(q)) && forall a :: a in q' ==> a in SetOf(q');
        WinnerIsStored(q, f, advs);
        WinnerIsStored(q', f, advs);
      }
    }
    if OrderFree(advs) {
      var q := Listing(advs);
      assert forall a :: a in q ==> a in SetOf(q);
      assert q != [];
      FirstHeardIsKept(q);
      var f := UpdatedAll(NoRoute, q);
      forall b | b in advs && b != f
        ensures Accepts(b, f) && !Accepts(f, b)
      {
        LastWord(advs, q, b);
        FirstWord(advs, q, b);
      }
      assert Wins(f, advs);
    }
  }

  /** What every order ends with is not replaced by one more b. */
  lemma LastWord(advs: set<Route>, q: seq<Route>, b: Route)
    requires OrderFree(advs) && SetOf(q) == advs && b in advs && b != UpdatedAll(NoRoute, q)
    ensures !Accepts(UpdatedAll(NoRoute, q), b)
  {
    hide Accepts;
    SetOfConcat(q, [b]);
    assert SetOf(q + [b]) == advs;
    assert (q + [b])[..|q|] == q;
  }

  /** What every order ends with replaces b: otherwise it would be lost when it comes right
      after b, at the very beginning, and then no more. */
  lemma FirstWord(advs: set<Route>, q: seq<Route>, b: Route)
    requires OrderFree(advs) && SetOf(q) == advs && b in advs && (forall a :: a in advs ==> IsHeard(a))
    requires UpdatedAll(NoRoute, q) in advs && b != UpdatedAll(NoRoute, q)
    ensures Accepts(b, UpdatedAll(NoRoute, q))
  {
    var f := UpdatedAll(NoRoute, q);
    if !Accepts(b, f) {
      hide Accepts;
      var rest := Listing(advs - {f});
      assert f !in SetOf(rest);
      SetOfConcat([b, f], rest);
      assert SetOf([b, f] + rest) == advs;
      UpdatedConcat(NoRoute, [b, f], rest);
      FirstThenRejected(b, f);
      StoredIsHeard(b, rest);
    }
  }

  lemma FirstThenRejected(b: Route, f: Route)
    requires IsHeard(b) && !Accepts(b, f)
    ensures UpdatedAll(NoRoute, [b, f]) == b
  {
    AfterTwo(NoRoute, b, f);
  }

  // ---- Hysteresis ----

  /** Length of the unbroken run of the latest alternative, zero if there is none now. */
  function Trailing(history: seq<nat>): nat {
    if history == [] || history[|history| - 1] == 0 then 0
    else if |history| > 1 && history[|history| - 2] == history[|history| - 1] then 1 + Trailing(history[..|history| - 1])
    else 1
  }

  datatype BetterRoute = BetterRoute(candidate: nat, cycles: nat)

  /** The tracker counts, modulo three, how often in a row the last alternative was seen. */
  ghost predicate Follows(b: BetterRoute, history: seq<nat>) {
    && b.cycles == Trailing(history) % 3
    && b.candidate == if b.cycles == 0 then 0 else history[|history| - 1]
  }

  lemma {:induction false} TrailingIsRepeated(history: seq<nat>, k: nat)
    requires k < Trailing(history)
    ensures Trailing(history) <= |history|
    ensures history[|history| - 1 - k] == history[|history| - 1] != 0
  {
    if k > 0 {
      TrailingIsRepeated(history[..|history| - 1], k - 1);
    } else if Trailing(history) > 1 {
      TrailingIsRepeated(history[..|history| - 1], 0);
    }
  }

  lemma TrailingNext(history: seq<nat>, alt: nat)
    ensures Trailing(history + [alt]) ==
            if alt == 0 then 0
            else if history != [] && history[|history| - 1] == alt then 1 + Trailing(history) else 1
  {
    assert (history + [alt])[..|history|] == history;
  }

  /** One cycle of the tracker, before the reset that a switch brings. */
  lemma FollowsNext(b: BetterRoute, history: seq<nat>, alt: nat, b': BetterRoute)
    requires Follows(b, history)
    requires b' == if alt == 0 then BetterRoute(0, 0)
                   else if b.candidate == alt then b.(cycles := b.cycles + 1) else BetterRoute(alt, 1)
    ensures b'.cycles <= 3 && (alt != 0 ==> b'.candidate == alt)
    ensures b'.cycles == 3 <==> Trailing(history + [alt]) > 0 && Trailing(history + [alt]) % 3 == 0
    ensures Follows(if b'.cycles == 3 then BetterRoute(0, 0) else b', history + [alt])
  {
    var n := Trailing(history);
    TrailingNext(history, alt);
    assert n > 0 ==> history != [] && history[|history| - 1] != 0;
    hide Trailing;
    if alt != 0 && b.candidate != alt {
      assert n % 3 != 0 ==> history[|history| - 1] != alt;
      assert Trailing(history + [alt]) % 3 == 1;
    }
  }

  // ---- The table ----

  datatype Entry = Entry(addr: nat, rssi: int, hops: nat, hopsInet: nat, lastSeen: nat, espnow: bool, lora: bool,
                         inet: bool, s: nat, origin: nat, etx: nat, load: nat)

  ghost predicate EntryOk(e: Entry) {
    && 0 < e.addr < BROADCAST_ADDR && -128 <= e.rssi < 128 && e.hops <= 0xFF && e.hopsInet <= 0xFF
    && e.s < SERIALS && e.origin < SERIALS && e.etx < SERIALS && e.load <= 0xFF
  }

  function RouteOf(e: Entry): Route {
    Route(e.hopsInet, e.s, e.origin)
  }

  function WithRoute(e: Entry, r: Route): Entry {
    e.(hopsInet := r.hops, s := r.s, origin := r.origin)
  }

  function Cost(e: Entry): nat {
    e.hopsInet * 100 + e.etx + e.load + if e.lora && !e.espnow then LORA_ONLY_PENALTY else 0
  }

  /** What the cost weighs: a hop counts as much as an expected transmission or a whole queue of
      100, a neighbor that only LoRa reaches as much as five hops, and nothing else counts. */
  lemma CostWeighs(e: Entry, f: Entry)
    ensures Cost(e.(hopsInet := e.hopsInet + 1)) == Cost(e) + 100
    ensures Cost(e.(etx := e.etx + 1)) == Cost(e.(load := e.load + 1)) == Cost(e) + 1
    ensures e.lora ==> Cost(e.(espnow := false)) == Cost(e.(espnow := true)) + 500
    ensures !e.lora ==> Cost(e.(espnow := false)) == Cost(e.(espnow := true))
    ensures Cost(f.(hopsInet := 0, etx := 0, load := 0, espnow := true)) == 0
  {
  }

  /** With equal radios and less than a hop's worth between links and queues, fewer hops win. */
  lemma FewerHopsWin(e: Entry, f: Entry)
    requires e.hopsInet < f.hopsInet && e.lora == f.lora && e.espnow == f.espnow
    requires e.etx + e.load < f.etx + f.load + 100
    ensures Cost(e) < Cost(f)
  {
    assert e.hopsInet * 100 + 100 <= f.hopsInet * 100;
  }

  lemma CostBound(e: Entry)
    requires EntryOk(e)
    ensures Cost(e) + MIN_COST_IMPROVEMENT <= NO_COST
  {
  }

  ghost predicate DistinctAddrs(es: seq<Entry>) {
    forall i, j :: 0 <= i < j < |es| ==> es[i].addr != es[j].addr
  }

  /** addr is that of the first of the cheapest entries satisfying f, or none if there are none. */
  ghost predicate IsCheapest(es: seq<Entry>, f: Entry -> bool, addr: nat, none: nat) {
    if exists i :: 0 <= i < |es| && f(es[i]) then
      exists i :: 0 <= i < |es| && f(es[i]) && es[i].addr == addr
                  && forall j :: 0 <= j < |es| && f(es[j]) ==> Cost(es[i]) <= Cost(es[j]) && (j < i ==> Cost(es[i]) < Cost(es[j]))
    else addr == none
  }

  lemma CheapestFound(es: seq<Entry>, f: Entry -> bool, addr: nat, cost: nat, k: nat, none: nat)
    requires cost == NO_COST ==> addr == none && forall j :: 0 <= j < |es| ==> !f(es[j])
    requires cost != NO_COST ==> k < |es| && f(es[k]) && es[k].addr == addr && Cost(es[k]) == cost
    requires cost != NO_COST ==> forall j :: 0 <= j < |es| && f(es[j]) ==> cost <= Cost(es[j]) && (j < k ==> cost < Cost(es[j]))
    ensures IsCheapest(es, f, addr, none)
    ensures cost != NO_COST <==> exists i :: 0 <= i < |es| && f(es[i])
  {
  }

  /** Entries that may carry traffic towards dst; a route that leads back here is none. */
  function Candidate(dst: nat, myAddr: nat): Entry -> bool {
    (e: Entry) =>
      e.hopsInet < HOPS_UNKNOWN
      && (dst != EXIT_ANY_ADDR ==> e.hopsInet != 0)
      && !(dst == EXIT_ANY_ADDR && myAddr != 0 && e.origin == myAddr)
  }

  function Reachable(): Entry -> bool {
    (e: Entry) => e.hopsInet < HOPS_UNKNOWN
  }

  function Fresh(es: seq<Entry>, now: nat, maxAge: nat): seq<Entry> {
    if es == [] then []
    else Fresh(es[..|es| - 1], now, maxAge) + if now - es[|es| - 1].lastSeen <= maxAge then [es[|es| - 1]] else []
  }

  /** A neighbor heard again: transports add up, unknown hops do not overwrite known ones. */
  function Touched(e: Entry, rssi: int, hops: nat, espnow: bool, lora: bool, hopsInet: nat, now: nat): Entry {
    e.(rssi := rssi, hops := hops, lastSeen := now, espnow := e.espnow || espnow, lora := e.lora || lora,
       hopsInet := if hopsInet != HOPS_UNKNOWN then hopsInet else e.hopsInet)
  }

  /** What makes a hop good: a neighbor that is the destination itself; else one that knows a way
      out, on the way to the internet not one back through this node, on the way to a node an exit
      only if all who know a way are exits; and there is none only if nobody qualifies. */
  ghost predicate GoodHop(es: seq<Entry>, dst: nat, myAddr: nat, addr: nat) {
    || (addr == dst && exists i :: 0 <= i < |es| && es[i].addr == dst)
    || (exists i :: 0 <= i < |es| && es[i].addr == addr && es[i].hopsInet < 255
                    && (dst == EXIT_ANY_ADDR ==> myAddr == 0 || es[i].origin != myAddr)
                    && (dst != EXIT_ANY_ADDR && es[i].hopsInet == 0 ==> forall j :: 0 <= j < |es| ==> es[j].hopsInet == 0 || es[j].hopsInet >= 255))
    || (addr == BROADCAST_ADDR && forall i :: 0 <= i < |es| ==>
          es[i].hopsInet >= 255 || (dst == EXIT_ANY_ADDR && myAddr != 0 && es[i].origin == myAddr))
  }

  class RouteTable {
    const neighbors: array<Entry>
    var count: nat
    var better: BetterRoute
    /** The sufficiently better alternative seen at each discovery cycle, zero for none. */
    ghost var history: seq<nat>

    ghost predicate Valid()
      reads this, neighbors
    {
      && neighbors.Length == MAX_NEIGHBORS && count <= MAX_NEIGHBORS
      && DistinctAddrs(neighbors[..count]) && (forall i :: 0 <= i < count ==> EntryOk(neighbors[i]))
      && Follows(better, history)
    }

    constructor ()
      ensures Valid() && count == 0 && history == [] && fresh(neighbors)
    {
      neighbors := new Entry[MAX_NEIGHBORS](_ => Entry(0, 0, 0, 0, 0, false, false, false, 0, 0, 0, 0));
      count, better, history := 0, BetterRoute(0, 0), [];
    }

    method Find(addr: nat) returns (i: nat)
      requires Valid()
      ensures i <= count && (forall k :: 0 <= k < i ==> neighbors[k].addr != addr)
      ensures i < count ==> neighbors[i].addr == addr
    {
      i := 0;
      while i < count && neighbors[i].addr != addr
        invariant i <= count && forall k :: 0 <= k < i ==> neighbors[k].addr != addr
      {
        i := i + 1;
      }
    }

    /** The first of the entries not heard from for the longest time. */
    method Oldest(now: nat) returns (oldest: nat)
      requires 0 < count <= neighbors.Length && forall i :: 0 <= i < count ==> neighbors[i].lastSeen <= now
      ensures oldest < count
      ensures forall j :: 0 <= j < count ==>
                neighbors[oldest].lastSeen <= neighbors[j].lastSeen && (j < oldest ==> neighbors[oldest].lastSeen < neighbors[j].lastSeen)
    {
      oldest := 0;
      var oldestDelta := 0;
      for j := 0 to count
        invariant oldest < count && now - neighbors[oldest].lastSeen >= oldestDelta
        invariant oldestDelta == now - neighbors[oldest].lastSeen || (oldestDelta == 0 && oldest == 0)
        invariant forall m :: 0 <= m < j ==> now - neighbors[m].lastSeen <= oldestDelta
        invariant forall m :: 0 <= m < oldest ==> now - neighbors[m].lastSeen < oldestDelta
      {
        var delta := now - neighbors[j].lastSeen;
        if delta > oldestDelta {
          oldest, oldestDelta := j, delta;
        }
      }
    }

    /** A packet from a neighbor. A known one is refreshed in place; a new one is appended or,
        in a full table, replaces the one not heard from for the longest time, the first if there are several. k is the
        place. */
    method UpdateNeighbor(addr: nat, rssi: int, hops: nat, espnow: bool, lora: bool, hopsInet: nat, now: nat) returns (ghost k: nat)
      requires Valid() && 0 < addr < BROADCAST_ADDR && -128 <= rssi < 128 && hops <= 0xFF && hopsInet <= 0xFF
      requires forall i :: 0 <= i < count ==> neighbors[i].lastSeen <= now
      modifies this`count, neighbors
      ensures Valid()
      ensures var was := old(neighbors[..count]);
              var e := Entry(addr, rssi, hops, hopsInet, now, espnow, lora, false, 0, 0, 100, 0);
              if exists i :: 0 <= i < |was| && was[i].addr == addr then
                k < |was| && was[k].addr == addr && neighbors[..count] == was[k := Touched(was[k], rssi, hops, espnow, lora, hopsInet, now)]
              else if |was| < MAX_NEIGHBORS then neighbors[..count] == was + [e]
              else
                && k < |was| && neighbors[..count] == was[k := e]
                && forall j :: 0 <= j < |was| ==> was[k].lastSeen <= was[j].lastSeen && (j < k ==> was[k].lastSeen < was[j].lastSeen)
    {
      ghost var was := neighbors[..count];
      var i := Find(addr);
      k := i;
      if i < count {
        var e := neighbors[i].(rssi := rssi, hops := hops, lastSeen := now);
        e := e.(espnow := e.espnow || espnow, lora := e.lora || lora);
        if hopsInet != HOPS_UNKNOWN {
          e := e.(hopsInet := hopsInet);
        }
        neighbors[i] := e;
        assert neighbors[..count] == was[k := Touched(was[k], rssi, hops, espnow, lora, hopsInet, now)];
        return;
      }
      var e := Entry(addr, rssi, hops, hopsInet, now, espnow, lora, false, 0, 0, 100, 0);
      if count < MAX_NEIGHBORS {
        neighbors[count] := e;
        count := count + 1;
        assert neighbors[..count] == was + [e];
      } else {
        var oldest := Oldest(now);
        neighbors[oldest] := e;
        k := oldest;
        assert neighbors[..count] == was[k := e];
      }
    }

    /** An advertisement heard from a neighbor: only that neighbor's route may change, by the
        acceptance rule. */
    method UpdateInetRoute(addr: nat, hops: nat, s: nat, origin: nat) returns (changed: bool)
      requires Valid() && hops <= 0xFF && s < SERIALS && origin < SERIALS
      modifies neighbors
      ensures Valid()
      ensures var was := old(neighbors[..count]);
              && |neighbors[..count]| == |was|
              && forall i :: 0 <= i < |was| ==>
                   neighbors[i] == if was[i].addr == addr then WithRoute(was[i], Updated(RouteOf(was[i]), Route(hops, s, origin))) else was[i]
      ensures changed <==> exists i :: 0 <= i < count && old(neighbors[i].addr) == addr && Accepts(RouteOf(old(neighbors[i])), Route(hops, s, origin))
    {
      var i := Find(addr);
      if i >= count {
        return false;
      }
      var e := neighbors[i];
      if origin == e.origin && SeqNewer(s, e.s) {
        neighbors[i] := e.(hopsInet := hops, s := s, origin := origin);
        return true;
      }
      if origin == e.origin && s == e.s {
        if hops < e.hopsInet {
          neighbors[i] := e.(hopsInet := hops);
          return true;
        }
        return false;
      }
      if origin != e.origin {
        if SeqNewer(s, e.s) || hops < e.hopsInet {
          neighbors[i] := e.(hopsInet := hops, s := s, origin := origin);
          return true;
        }
        return false;
      }
      changed := false;
    }

    /** The cheapest entry satisfying f, at index k, if there is any. */
    method Cheapest(f: Entry -> bool, none: nat) returns (addr: nat, cost: nat, ghost k: nat)
      requires Valid()
      ensures cost == NO_COST ==> addr == none && forall j :: 0 <= j < count ==> !f(neighbors[j])
      ensures cost != NO_COST ==> k < count && f(neighbors[k]) && neighbors[k].addr == addr && Cost(neighbors[k]) == cost
      ensures cost != NO_COST ==>
                forall j :: 0 <= j < count && f(neighbors[j]) ==> cost <= Cost(neighbors[j]) && (j < k ==> cost < Cost(neighbors[j]))
    {
      addr, cost, k := none, NO_COST, 0;
      for i := 0 to count
        invariant cost == NO_COST ==> addr == none && forall j :: 0 <= j < i ==> !f(neighbors[j])
        invariant cost != NO_COST ==> k < i && f(neighbors[k]) && neighbors[k].addr == addr && Cost(neighbors[k]) == cost
        invariant cost != NO_COST ==>
                    forall j :: 0 <= j < i && f(neighbors[j]) ==> cost <= Cost(neighbors[j]) && (j < k ==> cost < Cost(neighbors[j]))
      {
        if f(neighbors[i]) {
          CostBound(neighbors[i]);
          var c := Cost(neighbors[i]);
          if c < cost {
            addr, cost, k := neighbors[i].addr, c, i;
          }
        }
      }
    }

    /** A direct neighbor, else the cheapest candidate, else for unicast the cheapest exit. */
    method NextHop(dst: nat, myAddr: nat) returns (addr: nat)
      requires Valid()
      ensures var es := neighbors[..count];
              if exists i :: 0 <= i < count && neighbors[i].addr == dst then addr == dst
              else if (exists i :: 0 <= i < |es| && Candidate(dst, myAddr)(es[i])) || dst == EXIT_ANY_ADDR then
                IsCheapest(es, Candidate(dst, myAddr), addr, BROADCAST_ADDR)
              else IsCheapest(es, Reachable(), addr, BROADCAST_ADDR)
      ensures GoodHop(neighbors[..count], dst, myAddr, addr)
    {
      var i := Find(dst);
      if i < count {
        return dst;
      }
      hide Cost, IsCheapest, Follows;
      ghost var es, k := neighbors[..count], 0;
      assert forall j :: 0 <= j < count ==> es[j] == neighbors[j];
      var cost;
      addr, cost, k := Cheapest(Candidate(dst, myAddr), BROADCAST_ADDR);
      CheapestFound(es, Candidate(dst, myAddr), addr, cost, k, BROADCAST_ADDR);
      assert cost != NO_COST ==> EntryOk(es[k]);
      if addr == BROADCAST_ADDR && dst != EXIT_ANY_ADDR {
        addr, cost, k := Cheapest(Reachable(), BROADCAST_ADDR);
        CheapestFound(es, Reachable(), addr, cost, k, BROADCAST_ADDR);
      }
    }

    /** Drops the entries older than maxAge, keeping the order of the others. */
    method PruneStale(now: nat, maxAge: nat)
      requires Valid() && forall i :: 0 <= i < count ==> neighbors[i].lastSeen <= now
      modifies this`count, neighbors
      ensures Valid() && neighbors[..count] == Fresh(old(neighbors[..count]), now, maxAge)
      ensures forall e :: e in neighbors[..count] <==> e in old(neighbors[..count]) && now - e.lastSeen <= maxAge
      ensures PartOf(neighbors[..count], old(neighbors[..count]))
    {
      hide Follows, PartOf, DistinctAddrs, Fresh;
      ghost var was := neighbors[..count];
      FreshNone(was, now, maxAge);
      var write := 0;
      for read := 0 to count
        invariant write <= read <= count == |was|
        invariant neighbors[..write] == Fresh(was[..read], now, maxAge)
        invariant forall k :: read <= k < count ==> neighbors[k] == was[k]
      {
        FreshNext(was, read, now, maxAge);
        if now - neighbors[read].lastSeen <= maxAge {
          if write != read {
            neighbors[write] := neighbors[read];
          }
          assert neighbors[..write + 1] == neighbors[..write] + [was[read]];
          write := write + 1;
        }
      }
      assert was[..count] == was;
      FreshIsPart(was, now, maxAge);
      FreshInOrder(was, now, maxAge);
      count := write;
      assert forall i :: 0 <= i < count ==> neighbors[i] in neighbors[..count];
    }

    /** The cheapest alternative to the current next hop, zero unless it is better by at least
        the margin. */
    method BetterAlternative(currentBest: nat, myAddr: nat) returns (alt: nat)
      requires Valid()
      ensures alt != 0 ==> IsBetter(neighbors[..count], currentBest, myAddr, alt)
      ensures alt == 0 ==> forall a :: !IsBetter(neighbors[..count], currentBest, myAddr, a)
    {
      hide Follows, Trailing, Cost;
      var currentCost, altAddr, altCost;
      ghost var c, k;
      currentCost, c := CostOf(currentBest);
      altAddr, altCost, k := Cheapest(Alternative(currentBest, myAddr), 0);
      if altCost != NO_COST {
        CostBound(neighbors[k]);
      }
      ghost var es := neighbors[..count];
      if altAddr != 0 && currentCost > altCost && currentCost - altCost >= MIN_COST_IMPROVEMENT {
        assert Improves(es, currentBest, es[k]);
        return altAddr;
      }
      alt := 0;
      if altCost != NO_COST {
        assert currentCost != NO_COST && es[c].addr == currentBest;
        assert forall i :: 0 <= i < |es| && Improves(es, currentBest, es[i]) ==> Cost(es[i]) + MIN_COST_IMPROVEMENT <= Cost(es[c]);
      }
    }

    /** Cost of the current next hop, the maximum if it has no route. */
    method CostOf(addr: nat) returns (cost: nat, ghost k: nat)
      requires Valid()
      ensures cost == NO_COST ==> forall j :: 0 <= j < count ==> !(neighbors[j].addr == addr && neighbors[j].hopsInet < HOPS_UNKNOWN)
      ensures cost != NO_COST ==>
                && k < count && neighbors[k].addr == addr && neighbors[k].hopsInet < HOPS_UNKNOWN && Cost(neighbors[k]) == cost
                && forall j :: 0 <= j < count && neighbors[j].addr == addr ==> j == k
    {
      var i := Find(addr);
      k := i;
      cost := NO_COST;
      if i < count && neighbors[i].hopsInet < HOPS_UNKNOWN {
        CostBound(neighbors[i]);
        cost := Cost(neighbors[i]);
      }
      assert forall j :: 0 <= j < count ==> neighbors[j] == neighbors[..count][j];
    }

    /** One discovery cycle: advises a switch at every third cycle in a row that shows the same
        better alternative. */
    method CheckBetterRoute(currentBest: nat, myAddr: nat) returns (switch: bool, addr: nat)
      requires Valid()
      modifies this`better, this`history
      ensures Valid() && |history| == |old(history)| + 1 && history[..|old(history)|] == old(history)
      ensures var alt := history[|history| - 1];
              if alt != 0 then IsBetter(neighbors[..count], currentBest, myAddr, alt)
              else forall a :: !IsBetter(neighbors[..count], currentBest, myAddr, a)
      ensures switch <==> Trailing(history) > 0 && Trailing(history) % 3 == 0
      ensures switch ==> addr == history[|history| - 1]
    {
      hide IsBetter, Trailing, Follows;
      var alt := BetterAlternative(currentBest, myAddr);
      FollowsNext(better, history, alt, if alt == 0 then BetterRoute(0, 0)
                                        else if better.candidate == alt then better.(cycles := better.cycles + 1) else BetterRoute(alt, 1));
      history := history + [alt];
      if alt != 0 {
        better := if better.candidate == alt then better.(cycles := better.cycles + 1) else BetterRoute(alt, 1);
        if better.cycles >= HYSTERESIS_CYCLES {
          addr := better.candidate;
          better := BetterRoute(0, 0);
          return true, addr;
        }
      } else {
        better := BetterRoute(0, 0);
      }
      switch, addr := false, 0;
    }
  }

  /** Another neighbor than the current next hop that knows a way out, not one through this node. */
  ghost predicate MayReplace(e: Entry, currentBest: nat, myAddr: nat) {
    e.addr != currentBest && e.hopsInet < 255 && (myAddr == 0 || e.origin != myAddr)
  }

  /** e is cheaper than the current next hop by at least the margin, or there is no current. */
  ghost predicate Improves(es: seq<Entry>, currentBest: nat, e: Entry) {
    forall k :: 0 <= k < |es| && es[k].addr == currentBest && es[k].hopsInet < HOPS_UNKNOWN ==>
      Cost(e) + 50 <= Cost(es[k])
  }

  /** alt is the address of the first of the cheapest alternatives, and it improves on the current next hop. */
  ghost predicate IsBetter(es: seq<Entry>, currentBest: nat, myAddr: nat, alt: nat) {
    exists i :: 0 <= i < |es| && MayReplace(es[i], currentBest, myAddr) && es[i].addr == alt && Improves(es, currentBest, es[i])
                && forall j :: 0 <= j < |es| && MayReplace(es[j], currentBest, myAddr) ==>
                     Cost(es[i]) <= Cost(es[j]) && (j < i ==> Cost(es[i]) < Cost(es[j]))
  }

  function Alternative(currentBest: nat, myAddr: nat): Entry -> bool {
    (e: Entry) => e.addr != currentBest && e.hopsInet < HOPS_UNKNOWN && !(myAddr != 0 && e.origin == myAddr)
  }

  ghost predicate At(f: seq<nat>, a: seq<Entry>, b: seq<Entry>) {
    && |f| == |a|
    && (forall i, j :: 0 <= i < j < |f| ==> f[i] < f[j])
    && forall i :: 0 <= i < |f| ==> f[i] < |b| && b[f[i]] == a[i]
  }

  /** a is b with some entries taken out, the order kept. */
  ghost predicate PartOf(a: seq<Entry>, b: seq<Entry>) {
    exists f: seq<nat> :: At(f, a, b)
  }

  lemma FreshNone(es: seq<Entry>, now: nat, maxAge: nat)
    ensures Fresh(es[..0], now, maxAge) == []
  {
  }

  lemma FreshNext(es: seq<Entry>, n: nat, now: nat, maxAge: nat)
    requires n < |es|
    ensures Fresh(es[..n + 1], now, maxAge) ==
            if now - es[n].lastSeen <= maxAge then Fresh(es[..n], now, maxAge) + [es[n]] else Fresh(es[..n], now, maxAge)
  {
    assert es[..n + 1][..n] == es[..n];
  }

  lemma PartGrows(a: seq<Entry>, b: seq<Entry>, e: Entry)
    requires PartOf(a, b)
    ensures PartOf(a, b + [e]) && PartOf(a + [e], b + [e])
  {
    var f: seq<nat> :| At(f, a, b);
    assert At(f, a, b + [e]);
    assert At(f + [|b|], a + [e], b + [e]);
  }

  lemma {:induction false} FreshInOrder(es: seq<Entry>, now: nat, maxAge: nat)
    ensures PartOf(Fresh(es, now, maxAge), es)
  {
    hide PartOf;
    if es == [] {
      NoPart();
    } else {
      var n := |es| - 1;
      assert es == es[..n] + [es[n]];
      FreshInOrder(es[..n], now, maxAge);
      PartGrows(Fresh(es[..n], now, maxAge), es[..n], es[n]);
      assert Fresh(es[..n], now, maxAge) + [] == Fresh(es[..n], now, maxAge);
    }
  }

  lemma NoPart()
    ensures PartOf([], [])
  {
    assert At([], [], []);
  }

  /** The fresh entries, all of them and no other. */
  lemma {:induction false} FreshIsPart(es: seq<Entry>, now: nat, maxAge: nat)
    requires DistinctAddrs(es)
    ensures DistinctAddrs(Fresh(es, now, maxAge))
    ensures forall e :: e in Fresh(es, now, maxAge) <==> e in es && now - e.lastSeen <= maxAge
  {
    if es != [] {
      var n := |es| - 1;
      assert es == es[..n] + [es[n]];
      FreshIsPart(es[..n], now, maxAge);
      forall e | e in Fresh(es[..n], now, maxAge)
        ensures e.addr != es[n].addr
      {
        assert e in es[..n];
      }
    }
  }
}
