/** The cloud's receiver window: acknowledgements and bounded requests for what is missing. */
module CloudReceiver {
  import opened Bytes
  import opened Layout
  import opened Assembly
  import opened Reassembly
  import Bitmap

  const MAX_PROBE_AHEAD := 64
  const NACK_COOLDOWN := 4.0
  const DEFAULT_MAX_PER_TICK := 8
  const DEFAULT_STALL_COOLDOWN := 8.0

  /** base is the least number not received, or the end. */
  ghost predicate IsBase(base: nat, received: set<nat>, total: nat) {
    base <= total && (forall s: nat :: s < base ==> s in received) && (base < total ==> base !in received)
  }

  /** The least number not received, or the end. */
  function LeastMissing(received: set<nat>, total: nat, from: nat): (base: nat)
    requires from <= total
    ensures from <= base <= total && (forall s :: from <= s < base ==> s in received) && (base < total ==> base !in received)
    decreases total - from
  {
    if from < total && from in received then LeastMissing(received, total, from + 1) else from
  }

  lemma BaseIsLeast(base: nat, received: set<nat>, total: nat)
    requires IsBase(base, received, total)
    ensures base == LeastMissing(received, total, 0)
  {
    var least := LeastMissing(received, total, 0);
    assert least < base ==> least in received;
  }

  /** Number s may be asked for again at time now. */
  predicate Eligible(asked: map<nat, real>, s: nat, now: real, cooldown: real) {
    s !in asked || now - asked[s] >= cooldown
  }

  /** The eligible missing numbers below n, from base on, at most limit of them. */
  function Wanted(received: set<nat>, asked: map<nat, real>, now: real, cooldown: real, base: nat, n: nat, limit: nat): (w: seq<nat>)
    requires base <= n
    ensures |w| <= limit
    decreases n
  {
    if n == base then []
    else
      var before := Wanted(received, asked, now, cooldown, base, n - 1, limit);
      if |before| < limit && Due(received, asked, now, cooldown, n - 1) then before + [n - 1] else before
  }

  /** Number s is missing and may be asked for. */
  predicate Due(received: set<nat>, asked: map<nat, real>, now: real, cooldown: real, s: nat) {
    s !in received && Eligible(asked, s, now, cooldown)
  }

  ghost predicate Ascending(w: seq<nat>) {
    forall i, j :: 0 <= i < j < |w| ==> w[i] < w[j]
  }

  /** The requests are ascending, hence without repetition, and each is missing, within the
      horizon and rested. */
  lemma {:induction false} WantedSound(received: set<nat>, asked: map<nat, real>, now: real, cooldown: real, base: nat, n: nat, limit: nat)
    requires base <= n
    ensures var w := Wanted(received, asked, now, cooldown, base, n, limit);
            Ascending(w) && forall s :: s in w ==> base <= s < n && Due(received, asked, now, cooldown, s)
    decreases n
  {
    if n > base {
      WantedSound(received, asked, now, cooldown, base, n - 1, limit);
      var before := Wanted(received, asked, now, cooldown, base, n - 1, limit);
      assert forall i :: 0 <= i < |before| ==> before[i] in before;
    }
  }

  /** Nothing is passed over: below the last request, and everywhere if there was room left,
      every missing and rested number is asked for. */
  lemma {:induction false} WantedComplete(received: set<nat>, asked: map<nat, real>, now: real, cooldown: real, base: nat, n: nat, limit: nat, s: nat)
    requires base <= s < n && Due(received, asked, now, cooldown, s)
    ensures var w := Wanted(received, asked, now, cooldown, base, n, limit);
            s in w || (|w| == limit && forall x :: x in w ==> x < s)
    decreases n
  {
    if s < n - 1 {
      WantedComplete(received, asked, now, cooldown, base, n - 1, limit, s);
    } else {
      WantedSound(received, asked, now, cooldown, base, n - 1, limit);
    }
  }

  /** asked after the numbers of w were asked for. */
  function Stamped(asked: map<nat, real>, w: seq<nat>, now: real): map<nat, real> {
    if w == [] then asked else Stamped(asked, w[..|w| - 1], now)[w[|w| - 1] := now]
  }

  lemma {:induction false} StampedKeys(asked: map<nat, real>, w: seq<nat>, now: real)
    ensures forall s :: s in Stamped(asked, w, now) <==> s in asked || s in w
    ensures forall s :: s in Stamped(asked, w, now) ==> Stamped(asked, w, now)[s] == if s in w then now else asked[s]
  {
    if w != [] {
      var n := |w| - 1;
      assert w == w[..n] + [w[n]];
      StampedKeys(asked, w[..n], now);
    }
  }

  /** The end of the stretch that is asked for. */
  function Horizon(base: nat, total: nat, ahead: nat): (h: nat)
    requires base <= total
    ensures base <= h <= total
  {
    if base + ahead > total then total else base + ahead
  }

  /** What a timeout check asks for: missing numbers at the start of the window. */
  function TimeoutNacks(window: nat, total: nat, received: set<nat>, asked: map<nat, real>, maxPerTick: int, now: real): seq<nat> {
    var base := LeastMissing(received, total, 0);
    Wanted(received, asked, now, NACK_COOLDOWN, base, Horizon(base, total, if window < MAX_PROBE_AHEAD then window else MAX_PROBE_AHEAD),
           if maxPerTick <= 0 then DEFAULT_MAX_PER_TICK else maxPerTick)
  }

  function StallCooldown(cooldown: real): (c: real)
    ensures c > 0.0
  {
    if cooldown <= 0.0 then DEFAULT_STALL_COOLDOWN else cooldown
  }

  /** What the stall scan asks for when nothing has arrived for a while. */
  function StallNacks(total: nat, received: set<nat>, asked: map<nat, real>, maxGaps: int, maxProbeAhead: int, cooldown: real, now: real): seq<nat> {
    var base := LeastMissing(received, total, 0);
    Wanted(received, asked, now, StallCooldown(cooldown), base,
           Horizon(base, total, if maxProbeAhead <= 0 then MAX_PROBE_AHEAD else maxProbeAhead),
           if maxGaps <= 0 then DEFAULT_MAX_PER_TICK else maxGaps)
  }

  /** w asks for the missing numbers of the given stretch that were not asked for during the
      cooldown: from the front, each once, all of them or as many as the limit allows. */
  ghost predicate Asks(w: seq<nat>, received: set<nat>, asked: map<nat, real>, now: real, cooldown: real, base: nat, end: nat, limit: nat) {
    && Ascending(w) && |w| <= limit
    && (forall s :: s in w ==> base <= s < end && s !in received && (s in asked ==> now - asked[s] >= cooldown))
    && forall s: nat :: base <= s < end && s !in received && (s in asked ==> now - asked[s] >= cooldown) ==>
         s in w || (|w| == limit && forall x :: x in w ==> x < s)
  }

  lemma WantedAsks(received: set<nat>, asked: map<nat, real>, now: real, cooldown: real, base: nat, end: nat, limit: nat)
    requires base <= end
    ensures Asks(Wanted(received, asked, now, cooldown, base, end, limit), received, asked, now, cooldown, base, end, limit)
  {
    WantedSound(received, asked, now, cooldown, base, end, limit);
    forall s: nat | base <= s < end && Due(received, asked, now, cooldown, s)
      ensures var w := Wanted(received, asked, now, cooldown, base, end, limit);
              s in w || (|w| == limit && forall x :: x in w ==> x < s)
    {
      WantedComplete(received, asked, now, cooldown, base, end, limit, s);
    }
  }

  function Least(a: nat, b: nat): nat {
    if a < b then a else b
  }

  /** A timeout check looks at the window, 64 numbers of it at most, and asks again after 4 s. */
  lemma TimeoutNacksAre(window: nat, total: nat, received: set<nat>, asked: map<nat, real>, maxPerTick: int, now: real)
    ensures var base := LeastMissing(received, total, 0);
            Asks(TimeoutNacks(window, total, received, asked, maxPerTick, now), received, asked, now, 4.0,
                 base, Least(total, base + Least(window, 64)), if maxPerTick <= 0 then 8 else maxPerTick)
  {
    hide Asks;
    var base := LeastMissing(received, total, 0);
    WantedAsks(received, asked, now, NACK_COOLDOWN, base, Least(total, base + Least(window, 64)), if maxPerTick <= 0 then 8 else maxPerTick);
  }

  /** A stall scan looks as far as it is told, whatever the window, and rests as long as it is told. */
  lemma StallNacksAre(total: nat, received: set<nat>, asked: map<nat, real>, maxGaps: int, maxProbeAhead: int, cooldown: real, now: real)
    ensures var base := LeastMissing(received, total, 0);
            Asks(StallNacks(total, received, asked, maxGaps, maxProbeAhead, cooldown, now), received, asked, now,
                 if cooldown <= 0.0 then 8.0 else cooldown,
                 base, Least(total, base + if maxProbeAhead <= 0 then 64 else maxProbeAhead), if maxGaps <= 0 then 8 else maxGaps)
  {
    hide Asks;
    var base := LeastMissing(received, total, 0);
    WantedAsks(received, asked, now, StallCooldown(cooldown), base, Least(total, base + if maxProbeAhead <= 0 then 64 else maxProbeAhead),
               if maxGaps <= 0 then 8 else maxGaps);
  }

  lemma BaseInRange(base: nat, received: set<nat>, total: nat)
    requires IsBase(base, received, total)
    ensures base <= total
  {
  }

  lemma AskNothing(received: set<nat>, asked: map<nat, real>, now: real, cooldown: real, base: nat, limit: nat)
    ensures Wanted(received, asked, now, cooldown, base, base, limit) == [] && Stamped(asked, [], now) == asked
  {
  }

  /** One step of the scan; stamping what was chosen does not disturb the test on the next. */
  lemma AskStep(received: set<nat>, asked: map<nat, real>, now: real, cooldown: real, base: nat, s: nat, limit: nat)
    requires base <= s && |Wanted(received, asked, now, cooldown, base, s, limit)| < limit
    ensures var w := Wanted(received, asked, now, cooldown, base, s, limit);
            var stamped := Stamped(asked, w, now);
            var ask := s !in received && !(s in stamped && now - stamped[s] < cooldown);
            && Wanted(received, asked, now, cooldown, base, s + 1, limit) == (if ask then w + [s] else w)
            && Stamped(asked, w + [s], now) == stamped[s := now]
  {
    var w := Wanted(received, asked, now, cooldown, base, s, limit);
    StampedKeys(asked, w, now);
    WantedSound(received, asked, now, cooldown, base, s, limit);
    assert (w + [s])[..|w|] == w;
  }

  class SelectiveRepeatReceiver {
    const windowSize: nat
    const totalChunks: nat
    const bitmap: array<byte>
    var expectedBase: nat
    var lastNack: map<nat, real>
    var nackCount: nat
    ghost var received: set<nat>

    ghost predicate Valid()
      reads this, bitmap
    {
      && bitmap.Length == (totalChunks + 7) / 8
      && Bitmap.Tracks(bitmap[..], totalChunks, received)
      && IsBase(expectedBase, received, totalChunks)
    }

    constructor (windowSize: nat, totalChunks: nat)
      ensures Valid() && this.windowSize == windowSize && this.totalChunks == totalChunks
      ensures received == {} && lastNack == map[] && nackCount == 0 && fresh(bitmap)
    {
      this.windowSize, this.totalChunks := windowSize, totalChunks;
      bitmap := new byte[(totalChunks + 7) / 8](_ => 0);
      expectedBase, lastNack, nackCount, received := 0, map[], 0, {};
      new;
      Bitmap.ZeroTracks(bitmap[..], totalChunks);
    }

    method IsReceived(s: int) returns (r: bool)
      requires Valid()
      ensures r <==> s in received
    {
      if s < 0 || s >= totalChunks {
        return false;
      }
      r := Bitmap.Test(bitmap, s, totalChunks, received);
    }

    /** A chunk arrived: in-range ones are recorded and acknowledged, others ignored. */
    method OnChunkReceived(s: int) returns (acked: bool)
      requires Valid()
      modifies this`expectedBase, this`received, bitmap
      ensures Valid() && old(expectedBase) <= expectedBase
      ensures acked <==> 0 <= s < totalChunks
      ensures received == if 0 <= s < totalChunks then old(received) + {s} else old(received)
    {
      if s < 0 || s >= totalChunks {
        return false;
      }
      Bitmap.Set(bitmap, s, totalChunks, received);
      received := received + {s};
      while expectedBase < totalChunks
        invariant old(expectedBase) <= expectedBase <= totalChunks && received == old(received) + {s}
        invariant forall x: nat :: x < expectedBase ==> x in received
        invariant Bitmap.Tracks(bitmap[..], totalChunks, received)
      {
        var there := Bitmap.Test(bitmap, expectedBase, totalChunks, received);
        if !there {
          break;
        }
        expectedBase := expectedBase + 1;
      }
      acked := true;
    }

    /** Everything was received. */
    method IsComplete() returns (complete: bool)
      requires Valid()
      ensures complete <==> forall s: nat :: s < totalChunks ==> s in received
    {
      complete := expectedBase >= totalChunks;
    }

    /** Asks for missing chunks at the start of the window, a bounded number per tick. */
    method CheckTimeouts(maxPerTick: int, now: real) returns (nacks: seq<nat>)
      requires Valid()
      modifies this`lastNack, this`nackCount
      ensures Valid() && nackCount == old(nackCount) + |nacks|
      ensures nacks == TimeoutNacks(windowSize, totalChunks, received, old(lastNack), maxPerTick, now)
      ensures lastNack == Stamped(old(lastNack), nacks, now)
    {
      hide Wanted, Stamped, IsBase, Bitmap.Tracks;
      BaseInRange(expectedBase, received, totalChunks);
      BaseIsLeast(expectedBase, received, totalChunks);
      var limit: nat := if maxPerTick <= 0 then DEFAULT_MAX_PER_TICK else maxPerTick;
      var end := expectedBase + windowSize;
      if end > totalChunks {
        end := totalChunks;
      }
      var horizon := expectedBase + MAX_PROBE_AHEAD;
      if end > horizon {
        end := horizon;
      }
      nacks := Ask(end, limit, now, NACK_COOLDOWN);
      nackCount := nackCount + |nacks|;
    }

    /** Asks for missing chunks when nothing has arrived for a while. */
    method BuildFilteredStallNacks(maxGaps: int, maxProbeAhead: int, cooldown: real, now: real) returns (missing: seq<nat>)
      requires Valid()
      modifies this`lastNack
      ensures Valid()
      ensures missing == StallNacks(totalChunks, received, old(lastNack), maxGaps, maxProbeAhead, cooldown, now)
      ensures lastNack == Stamped(old(lastNack), missing, now)
    {
      hide Wanted, Stamped, IsBase, Bitmap.Tracks;
      BaseInRange(expectedBase, received, totalChunks);
      BaseIsLeast(expectedBase, received, totalChunks);
      if totalChunks == 0 {
        AskNothing(received, lastNack, now, StallCooldown(cooldown), 0, if maxGaps <= 0 then DEFAULT_MAX_PER_TICK else maxGaps);
        return [];
      }
      var gaps: nat := if maxGaps <= 0 then DEFAULT_MAX_PER_TICK else maxGaps;
      var ahead: nat := if maxProbeAhead <= 0 then MAX_PROBE_AHEAD else maxProbeAhead;
      var rest := if cooldown <= 0.0 then DEFAULT_STALL_COOLDOWN else cooldown;
      var end := expectedBase + ahead;
      if end > totalChunks {
        end := totalChunks;
      }
      missing := Ask(end, gaps, now, rest);
    }

    /** The scan both kinds of request share. */
    method Ask(end: nat, limit: nat, now: real, cooldown: real) returns (w: seq<nat>)
      requires Valid() && expectedBase <= end <= totalChunks && limit > 0
      modifies this`lastNack
      ensures Valid() && w == Wanted(received, old(lastNack), now, cooldown, expectedBase, end, limit)
      ensures lastNack == Stamped(old(lastNack), w, now)
    {
      hide Wanted, Stamped, Bitmap.Tracks, Eligible;
      AskNothing(received, lastNack, now, cooldown, expectedBase, limit);
      w := [];
      var s := expectedBase;
      while s < end && |w| < limit
        invariant Valid() && expectedBase <= s <= end
        invariant w == Wanted(received, old(lastNack), now, cooldown, expectedBase, s, limit)
        invariant lastNack == Stamped(old(lastNack), w, now)
      {
        AskStep(received, old(lastNack), now, cooldown, expectedBase, s, limit);
        var there := IsReceived(s);
        if !there && !(s in lastNack && now - lastNack[s] < cooldown) {
          lastNack := lastNack[s := now];
          w := w + [s];
        }
        s := s + 1;
      }
      FullStaysFull(received, old(lastNack), now, cooldown, expectedBase, s, end, limit);
    }
  }

  lemma {:induction false} FullStaysFull(received: set<nat>, asked: map<nat, real>, now: real, cooldown: real, base: nat, n: nat, m: nat, limit: nat)
    requires base <= n <= m && (n == m || |Wanted(received, asked, now, cooldown, base, n, limit)| == limit)
    ensures Wanted(received, asked, now, cooldown, base, m, limit) == Wanted(received, asked, now, cooldown, base, n, limit)
    decreases m
  {
    if n < m {
      FullStaysFull(received, asked, now, cooldown, base, n, m - 1, limit);
    }
  }

  // ---- Sessions ----

  datatype Config = Config(window: nat, total: nat, fec: bool)

  /** What happens in a session: a chunk arrives, or one of the two kinds of request is made. */
  datatype Event =
    | Chunk(s: nat)
    | Timeouts(maxPerTick: int, at: real)
    | Stall(maxGaps: int, maxProbeAhead: int, cooldown: real, at: real)

  /** What the reassembler holds, what the receiver has heard of, and when it asked for what. */
  datatype Session = Session(held: set<nat>, heard: set<nat>, asked: map<nat, real>)

  /** One request for number s, and the rest it had to keep. */
  datatype Request = Request(s: nat, at: real, rest: real)

  function Nacks(c: Config, se: Session, e: Event): seq<nat> {
    match e
    case Chunk(_) => []
    case Timeouts(m, now) => TimeoutNacks(c.window, c.total, se.heard, se.asked, m, now)
    case Stall(g, a, cd, now) => StallNacks(c.total, se.heard, se.asked, g, a, cd, now)
  }

  /** The receiver hears of a chunk iff it is new to the reassembler. */
  function Next(c: Config, se: Session, e: Event): Session {
    match e
    case Chunk(s) =>
      if s < c.total && s !in se.held then se.(held := Deliver(c.total, c.fec, se.held, s), heard := se.heard + {s}) else se
    case Timeouts(_, now) => se.(asked := Stamped(se.asked, Nacks(c, se, e), now))
    case Stall(_, _, _, now) => se.(asked := Stamped(se.asked, Nacks(c, se, e), now))
  }

  function After(c: Config, events: seq<Event>): Session {
    if events == [] then Session({}, {}, map[])
    else Next(c, After(c, events[..|events| - 1]), events[|events| - 1])
  }

  function Rest(e: Event): real {
    match e
    case Chunk(_) => 1.0
    case Timeouts(_, _) => NACK_COOLDOWN
    case Stall(_, _, cd, _) => StallCooldown(cd)
  }

  function RequestsFor(nacks: seq<nat>, e: Event): (r: seq<Request>)
    requires nacks == [] || !e.Chunk?
    ensures |r| == |nacks| && forall k :: 0 <= k < |r| ==> r[k] == Request(nacks[k], e.at, Rest(e))
  {
    seq(|nacks|, k requires 0 <= k < |nacks| => Request(nacks[k], e.at, Rest(e)))
  }

  /** All requests of a session, in order. */
  function Requests(c: Config, events: seq<Event>): seq<Request> {
    if events == [] then []
    else
      var before, e := events[..|events| - 1], events[|events| - 1];
      Requests(c, before) + RequestsFor(Nacks(c, After(c, before), e), e)
  }

  /** The stamp of a number is the time of its last request. */
  ghost predicate Booked(asked: map<nat, real>, r: seq<Request>) {
    && (forall k :: 0 <= k < |r| ==> r[k].s in asked && r[k].at <= asked[r[k].s])
    && forall s :: s in asked ==> exists k :: 0 <= k < |r| && r[k].s == s && r[k].at == asked[s]
  }

  /** Any two requests for one number are at least the rest of the later one apart. */
  ghost predicate Apart(r: seq<Request>) {
    forall i, j :: 0 <= i < j < |r| && r[i].s == r[j].s ==> r[j].at - r[i].at >= r[j].rest
  }

  lemma NacksAreDue(c: Config, se: Session, e: Event)
    ensures var w := Nacks(c, se, e);
            && Ascending(w) && Rest(e) > 0.0
            && forall k :: 0 <= k < |w| ==> Due(se.heard, se.asked, e.at, Rest(e), w[k])
  {
    hide Wanted, Due;
    if !e.Chunk? {
      var base := LeastMissing(se.heard, c.total, 0);
      match e {
        case Timeouts(m, now) =>
          var ahead := if c.window < MAX_PROBE_AHEAD then c.window else MAX_PROBE_AHEAD;
          WantedSound(se.heard, se.asked, now, NACK_COOLDOWN, base, Horizon(base, c.total, ahead), if m <= 0 then DEFAULT_MAX_PER_TICK else m);
        case Stall(g, a, cd, now) =>
          var ahead := if a <= 0 then MAX_PROBE_AHEAD else a;
          WantedSound(se.heard, se.asked, now, StallCooldown(cd), base, Horizon(base, c.total, ahead), if g <= 0 then DEFAULT_MAX_PER_TICK else g);
      }
      var w := Nacks(c, se, e);
      assert forall k :: 0 <= k < |w| ==> w[k] in w;
    }
  }

  /** Requests w at one time, each of them due, keep the books. */
  lemma BookedNext(asked: map<nat, real>, r: seq<Request>, w: seq<nat>, e: Event, heard: set<nat>)
    requires Booked(asked, r) && !e.Chunk? && Rest(e) > 0.0
    requires forall k :: 0 <= k < |w| ==> Due(heard, asked, e.at, Rest(e), w[k])
    ensures Booked(Stamped(asked, w, e.at), r + RequestsFor(w, e))
  {
    hide Stamped, Rest;
    StampedKeys(asked, w, e.at);
    var stamped, more := Stamped(asked, w, e.at), RequestsFor(w, e);
    var all := r + more;
    forall k | 0 <= k < |all|
      ensures all[k].s in stamped && all[k].at <= stamped[all[k].s]
    {
      if k >= |r| {
        assert all[k].s == w[k - |r|];
      }
    }
    forall s | s in stamped
      ensures exists k :: 0 <= k < |all| && all[k].s == s && all[k].at == stamped[s]
    {
      if s in w {
        var k :| 0 <= k < |w| && w[k] == s;
        assert all[|r| + k] == more[k];
      } else {
        var k :| 0 <= k < |r| && r[k].s == s && r[k].at == asked[s];
        assert all[k] == r[k];
      }
    }
  }

  lemma ApartNext(asked: map<nat, real>, r: seq<Request>, w: seq<nat>, e: Event, heard: set<nat>)
    requires Booked(asked, r) && Apart(r) && !e.Chunk? && Ascending(w)
    requires forall k :: 0 <= k < |w| ==> Due(heard, asked, e.at, Rest(e), w[k])
    ensures Apart(r + RequestsFor(w, e))
  {
    hide Rest;
    var all := r + RequestsFor(w, e);
    assert forall k :: |r| <= k < |all| ==> all[k] == Request(w[k - |r|], e.at, Rest(e));
  }

  /** Flood control over whole sessions: any two requests for one number, of whichever kind and
      whatever happens in between, are at least the cooldown of the later one apart. */
  lemma {:induction false} RequestsAreRested(c: Config, events: seq<Event>)
    ensures Booked(After(c, events).asked, Requests(c, events)) && Apart(Requests(c, events))
  {
    if events != [] {
      var before, e := events[..|events| - 1], events[|events| - 1];
      RequestsAreRested(c, before);
      var se := After(c, before);
      NacksAreDue(c, se, e);
      if e.Chunk? {
        assert Requests(c, events) == Requests(c, before);
      } else {
        hide Booked, Apart, Due, Ascending, Nacks, Rest;
        BookedNext(se.asked, Requests(c, before), Nacks(c, se, e), e, se.heard);
        ApartNext(se.asked, Requests(c, before), Nacks(c, se, e), e, se.heard);
      }
    }
  }

  // ---- What the receiver never hears of ----

  /** Chunk s arrives at step k while the reassembler does not hold it. */
  ghost predicate ArrivesNew(c: Config, events: seq<Event>, k: nat, s: nat) {
    k < |events| && events[k] == Chunk(s) && s < c.total && s !in After(c, events[..k]).held
  }

  /** Chunk s is recovered from others at step k, before it arrived. */
  ghost predicate RecoveredAt(c: Config, events: seq<Event>, k: nat, s: nat) {
    && k < |events| && events[k] != Chunk(s)
    && s !in After(c, events[..k]).held && s in After(c, events[..k + 1]).held
  }

  ghost predicate ArrivedNew(c: Config, events: seq<Event>, s: nat) {
    exists k :: ArrivesNew(c, events, k, s)
  }

  ghost predicate RecoveredFirst(c: Config, events: seq<Event>, s: nat) {
    exists k :: RecoveredAt(c, events, k, s)
  }

  /** The last step adds what happens in it. */
  lemma OneMoreEvent(c: Config, events: seq<Event>, s: nat)
    requires events != []
    ensures var n := |events| - 1;
            && (ArrivedNew(c, events, s) <==> ArrivedNew(c, events[..n], s) || ArrivesNew(c, events, n, s))
            && (RecoveredFirst(c, events, s) <==> RecoveredFirst(c, events[..n], s) || RecoveredAt(c, events, n, s))
  {
    hide After;
    var n := |events| - 1;
    var before := events[..n];
    forall k: nat
      ensures ArrivesNew(c, before, k, s) <==> k < n && ArrivesNew(c, events, k, s)
      ensures RecoveredAt(c, before, k, s) <==> k < n && RecoveredAt(c, events, k, s)
    {
      if k < n {
        assert before[..k] == events[..k] && before[..k + 1] == events[..k + 1];
      }
    }
  }

  lemma DeliverGrows(c: Config, se: Session, e: Event)
    ensures se.held <= Next(c, se, e).held && se.heard <= Next(c, se, e).heard
    ensures e.Chunk? && e.s < c.total ==> e.s in Next(c, se, e).held
    ensures forall s: nat :: s in Next(c, se, e).heard <==> s in se.heard || (e == Chunk(s) && s < c.total && s !in se.held)
    ensures !e.Chunk? ==> Next(c, se, e).held == se.held
  {
    hide Repaired, Stamped;
  }

  /** Over every run: the receiver has heard of exactly the numbers that arrived while new, and
      what the reassembler holds beyond that is exactly what was recovered before it arrived. */
  lemma {:induction false} HeardIffArrivedNew(c: Config, events: seq<Event>, s: nat)
    ensures After(c, events).heard <= After(c, events).held
    ensures s in After(c, events).heard <==> ArrivedNew(c, events, s)
    ensures s in After(c, events).held - After(c, events).heard <==> RecoveredFirst(c, events, s)
  {
    if events == [] {
      hide After;
      assert forall k :: !ArrivesNew(c, events, k, s) && !RecoveredAt(c, events, k, s);
      Beginning(c);
    } else {
      hide After, ArrivedNew, RecoveredFirst, ArrivesNew, RecoveredAt;
      HeardIffArrivedNew(c, events[..|events| - 1], s);
      OneMoreEvent(c, events, s);
      LastStep(c, events, s);
    }
  }

  lemma Beginning(c: Config)
    ensures After(c, []) == Session({}, {}, map[])
  {
  }

  lemma LastStep(c: Config, events: seq<Event>, s: nat)
    requires events != [] && After(c, events[..|events| - 1]).heard <= After(c, events[..|events| - 1]).held
    ensures var n := |events| - 1; var se, next := After(c, events[..n]), After(c, events);
            && next.heard <= next.held && se.heard <= next.heard && se.held <= next.held
            && (ArrivesNew(c, events, n, s) <==> s in next.heard && s !in se.heard)
            && (RecoveredAt(c, events, n, s) <==> s in next.held && s !in se.held && s !in next.heard)
            && (s in se.held ==> (s in next.heard <==> s in se.heard))
  {
    var n := |events| - 1;
    DeliverGrows(c, After(c, events[..n]), events[n]);
    assert events[..n + 1] == events;
    hide Deliver, Stamped;
  }

  /** The receiver is complete iff every number arrived while it was new; so a single recovery
      keeps it incomplete, though the transfer is over. */
  lemma CompleteIffAllArrivedNew(c: Config, events: seq<Event>)
    ensures LeastMissing(After(c, events).heard, c.total, 0) == c.total <==> forall s: nat :: s < c.total ==> ArrivedNew(c, events, s)
  {
    hide After, ArrivedNew, RecoveredFirst;
    forall s: nat
      ensures s in After(c, events).heard <==> ArrivedNew(c, events, s)
    {
      HeardIffArrivedNew(c, events, s);
    }
  }

  /** A file of one full group: chunks 0 to 5 and the parity arrive, chunk 6 is recovered, and the
      receiver never hears of it though the transfer is complete. */
  lemma RecoveredIsNeverHeard(more: seq<Event>)
    ensures var c := Config(64, 8, true);
            var events := [Chunk(0), Chunk(1), Chunk(2), Chunk(3), Chunk(4), Chunk(5), Chunk(7)];
            && After(c, events).held == {0, 1, 2, 3, 4, 5, 6, 7}
            && 6 !in After(c, events + more).heard && LeastMissing(After(c, events + more).heard, 8, 0) <= 6
  {
    var c := Config(64, 8, true);
    var events := [Chunk(0), Chunk(1), Chunk(2), Chunk(3), Chunk(4), Chunk(5), Chunk(7)];
    assert events[..6] == [Chunk(0), Chunk(1), Chunk(2), Chunk(3), Chunk(4), Chunk(5)];
    FirstSix(c);
    var six := {0, 1, 2, 3, 4, 5};
    assert GroupSeqs(0) == {0, 1, 2, 3, 4, 5, 6, 7};
    assert {0, 1, 2, 3, 4, 5, 6, 7} - {0, 1, 2, 3, 4, 5, 7} == {6};
    assert Repaired({0, 1, 2, 3, 4, 5, 7}, 0) == {6};
    assert six + {7} == {0, 1, 2, 3, 4, 5, 7};
    assert After(c, events) == Next(c, After(c, events[..6]), Chunk(7));
    BaseWaitsForRecovered(c, events, more, 6);
  }

  lemma FirstSix(c: Config)
    requires c.total == 8 && c.fec
    ensures After(c, [Chunk(0), Chunk(1), Chunk(2), Chunk(3), Chunk(4), Chunk(5)]) ==
            Session({0, 1, 2, 3, 4, 5}, {0, 1, 2, 3, 4, 5}, map[])
  {
    Beginning(c);
    hide After;
    OneNew(c, [], {}, 0, [Chunk(0)], {0});
    OneNew(c, [Chunk(0)], {0}, 1, [Chunk(0), Chunk(1)], {0, 1});
    OneNew(c, [Chunk(0), Chunk(1)], {0, 1}, 2, [Chunk(0), Chunk(1), Chunk(2)], {0, 1, 2});
    OneNew(c, [Chunk(0), Chunk(1), Chunk(2)], {0, 1, 2}, 3, [Chunk(0), Chunk(1), Chunk(2), Chunk(3)], {0, 1, 2, 3});
    OneNew(c, [Chunk(0), Chunk(1), Chunk(2), Chunk(3)], {0, 1, 2, 3}, 4,
           [Chunk(0), Chunk(1), Chunk(2), Chunk(3), Chunk(4)], {0, 1, 2, 3, 4});
    OneNew(c, [Chunk(0), Chunk(1), Chunk(2), Chunk(3), Chunk(4)], {0, 1, 2, 3, 4}, 5,
           [Chunk(0), Chunk(1), Chunk(2), Chunk(3), Chunk(4), Chunk(5)], {0, 1, 2, 3, 4, 5});
  }

  /** As long as neither chunk 6 nor the parity is in, nothing is recovered. */
  lemma OneNew(c: Config, events: seq<Event>, r: set<nat>, s: nat, events': seq<Event>, r': set<nat>)
    requires c.total == 8 && c.fec && After(c, events) == Session(r, r, map[])
    requires s < 6 && s !in r && (forall x :: x in r' ==> x < 6) && events' == events + [Chunk(s)] && r' == r + {s}
    ensures After(c, events') == Session(r', r', map[])
  {
    NothingRecovered(r, s);
    hide Deliver;
    assert events'[..|events|] == events;
  }

  lemma NothingRecovered(r: set<nat>, s: nat)
    requires s < 6 && s !in r && 6 !in r && 7 !in r
    ensures Deliver(8, true, r, s) == r + {s}
  {
    var r' := r + {s};
    assert 6 in GroupSeqs(0) - r' && 7 in GroupSeqs(0) - r';
    assert s / 8 == 0 && Repaired(r', 0) == {};
  }

  /** A number once recovered is never heard of afterwards, and the base never passes it. */
  lemma {:induction false} BaseWaitsForRecovered(c: Config, events: seq<Event>, more: seq<Event>, s: nat)
    requires s in After(c, events).held && s !in After(c, events).heard && s < c.total
    ensures s in After(c, events + more).held && s !in After(c, events + more).heard
    ensures LeastMissing(After(c, events + more).heard, c.total, 0) <= s
  {
    if more == [] {
      assert events + more == events;
    } else {
      var n := |more| - 1;
      BaseWaitsForRecovered(c, events, more[..n], s);
      assert (events + more)[..|events + more| - 1] == events + more[..n];
      assert (events + more)[|events + more| - 1] == more[n];
      DeliverGrows(c, After(c, events + more[..n]), more[n]);
      hide Next;
    }
  }

  /** And once everything below it was heard of, every check of either kind that comes after the
      cooldown asks for it again. */
  lemma BaseIsAskedFor(c: Config, se: Session, e: Event)
    requires !e.Chunk? && (e.Timeouts? ==> c.window > 0)
    requires var base := LeastMissing(se.heard, c.total, 0);
             base < c.total && Eligible(se.asked, base, e.at, Rest(e))
    ensures LeastMissing(se.heard, c.total, 0) in Nacks(c, se, e)
  {
    var base := LeastMissing(se.heard, c.total, 0);
    match e {
      case Timeouts(m, now) =>
        var end := Horizon(base, c.total, if c.window < MAX_PROBE_AHEAD then c.window else MAX_PROBE_AHEAD);
        var limit: nat := if m <= 0 then DEFAULT_MAX_PER_TICK else m;
        WantedComplete(se.heard, se.asked, now, NACK_COOLDOWN, base, end, limit, base);
        FirstIsBase(se.heard, se.asked, now, NACK_COOLDOWN, base, end, limit);
      case Stall(g, a, cd, now) =>
        var end := Horizon(base, c.total, if a <= 0 then MAX_PROBE_AHEAD else a);
        var limit: nat := if g <= 0 then DEFAULT_MAX_PER_TICK else g;
        WantedComplete(se.heard, se.asked, now, StallCooldown(cd), base, end, limit, base);
        FirstIsBase(se.heard, se.asked, now, StallCooldown(cd), base, end, limit);
    }
  }

  lemma FirstIsBase(received: set<nat>, asked: map<nat, real>, now: real, cooldown: real, base: nat, n: nat, limit: nat)
    requires base <= n && limit > 0
    ensures var w := Wanted(received, asked, now, cooldown, base, n, limit);
            |w| == limit ==> w[0] in w && w[0] >= base
  {
    WantedSound(received, asked, now, cooldown, base, n, limit);
    var w := Wanted(received, asked, now, cooldown, base, n, limit);
    assert |w| == limit ==> w[0] in w;
  }

  /** One chunk of the active session, as in the session's step: the receiver hears only of
      chunks that are new to the reassembler. */
  method ProcessChunk(r: FileReassembler, sr: SelectiveRepeatReceiver, s: nat, data: seq<byte>) returns (isNew: bool)
    requires r.Valid() && sr.Valid() && sr.totalChunks == r.chunkCount && sr !in r.repr && sr.bitmap !in r.repr
    requires 0 <= s < r.chunkCount ==> data == Payload(r.file, r.chunkSize, r.FecActive(), s)
    modifies r.repr, sr`expectedBase, sr`received, sr.bitmap
    ensures r.Valid() && sr.Valid()
    ensures isNew <==> s < r.chunkCount && s !in old(r.received)
    ensures Session(r.received, sr.received, sr.lastNack) ==
            Next(Config(sr.windowSize, sr.totalChunks, r.FecActive()), Session(old(r.received), old(sr.received), sr.lastNack), Chunk(s))
  {
    hide FileReassembler.Valid, Bitmap.Tracks, Repaired, Payload, IsBase;
    isNew := r.WriteChunk(s, data);
    if isNew {
      var _ := sr.OnChunkReceived(s);
    }
  }
}
