/** The mesh path of the firmware's transfer engine: feeding fragments to the windows of
    the elected exits, retiring them on acknowledgement and re-homing them when an exit dies. */
module MeshSender {
  import opened Bytes
  import opened Layout
  import opened Counting
  import opened Custody
  import opened Queues
  import opened ExitWindowArray
  import SenderWindow
  import opened Sorting
  import Rto
  import opened FecEncoding
  import opened Outside

  const REDIST_CAPACITY := 256
  const MIN_PER_EXIT_WINDOW_CAP := 8
  const PACING_BASE_MS := 15
  const TICK_BUDGET := 4
  const PACING_PER_HOP_MS := 5

  ghost predicate GenuinePackets(file: seq<byte>, wire: seq<(nat, seq<byte>)>) {
    forall p :: p in wire ==> Assigned(file, p.0, p.1)
  }

  ghost predicate GenuineMap(file: seq<byte>, m: map<nat, seq<byte>>) {
    forall s :: s in m ==> Assigned(file, s, m[s])
  }

  ghost predicate GenuinePendings(file: seq<byte>, pendings: Pendings) {
    forall i :: 0 <= i < |pendings| ==> GenuineMap(file, pendings[i])
  }

  /** The data fragments of the current FEC group that have been sent. */
  function GroupSoFar(file: seq<byte>, next: nat): seq<seq<byte>> {
    Group(file, TRANSFER_FRAGMENT_SIZE, next / 8)[..next % 8]
  }

  function DataOnly(s: seq<nat>): seq<nat> {
    if s == [] then []
    else if IsParity(s[0]) then DataOnly(s[1..])
    else [s[0]] + DataOnly(s[1..])
  }

  lemma {:induction false} DataOnlyMembers(s: seq<nat>)
    requires NoDup(s)
    ensures NoDup(DataOnly(s)) && forall x :: x in DataOnly(s) <==> x in s && !IsParity(x)
  {
    if s != [] {
      assert s == [s[0]] + s[1..];
      DataOnlyMembers(s[1..]);
    }
  }

  lemma {:induction false} DataOnlyAscends(s: seq<nat>)
    requires StrictlyAscending(s)
    ensures StrictlyAscending(DataOnly(s)) && forall x :: x in DataOnly(s) ==> x in s
  {
    if s != [] {
      assert s == [s[0]] + s[1..] && StrictlyAscending(s[1..]);
      DataOnlyAscends(s[1..]);
      forall x | x in DataOnly(s[1..])
        ensures s[0] < x
      {
        var i :| 0 <= i < |s[1..]| && s[1..][i] == x;
        assert s[i + 1] == x;
      }
      var rest := DataOnly(s[1..]);
      assert forall i :: 0 <= i < |rest| ==> rest[i] in rest;
    }
  }

  function Inflight(pendings: Pendings, n: nat): nat
    requires n <= |pendings|
  {
    if n == 0 then 0 else Inflight(pendings, n - 1) + |pendings[n - 1]|
  }

  /** Each exit's share of the cap, but at least 8 and at most a whole window. */
  function PerExitCap(cap: nat, exits: nat): (share: nat)
    ensures share == Rto.Min(64, Rto.Max(8, cap / Rto.Max(1, exits)))
  {
    var share := cap / if exits > 0 then exits else 1;
    if share < MIN_PER_EXIT_WINDOW_CAP then MIN_PER_EXIT_WINDOW_CAP
    else if share > SenderWindow.ARQ_WINDOW then SenderWindow.ARQ_WINDOW
    else share
  }

  /** Exit i would take number s: it is alive, its slot for s is free and it is under its share. */
  ghost predicate Takes(p: Pendings, alive: seq<bool>, cap: nat, i: nat, s: nat)
    requires i < |alive| <= |p|
  {
    alive[i] && SenderWindow.SlotFree(p[i], SenderWindow.ARQ_WINDOW, s) && |p[i]| < PerExitCap(cap, |alive|)
  }

  /** The transfer is at its cap, or no exit would take s. */
  ghost predicate NoTaker(p: Pendings, alive: seq<bool>, cap: nat, s: nat)
    requires |alive| <= |p|
  {
    Inflight(p, |alive|) >= cap || forall i: nat :: i < |alive| ==> !Takes(p, alive, cap, i, s)
  }

  /** An exit that would take s shows that somebody does. */
  lemma EligibleTakes(p: Pendings, alive: seq<bool>, cap: nat, i: nat, s: nat)
    requires i < |alive| <= |p| && Takes(p, alive, cap, i, s)
    ensures alive[i] && SenderWindow.SlotFree(p[i], SenderWindow.ARQ_WINDOW, s)
  {
  }

  /** The windows hold at least what they held. */
  ghost predicate Grown(p: Pendings, p': Pendings) {
    |p| == |p'| && forall i :: 0 <= i < |p| ==> p[i].Keys <= p'[i].Keys
  }

  lemma {:induction false} InflightGrows(p: Pendings, p': Pendings, n: nat)
    requires Grown(p, p') && n <= |p|
    ensures Inflight(p, n) <= Inflight(p', n)
  {
    if n > 0 {
      InflightGrows(p, p', n - 1);
      NoMoreKeys(p[n - 1], p'[n - 1]);
    }
  }

  lemma NoMoreKeys(m: map<nat, seq<byte>>, m': map<nat, seq<byte>>)
    requires m.Keys <= m'.Keys
    ensures |m| <= |m'|
  {
    SubsetSize(m.Keys, m'.Keys);
  }

  /** A number that nobody would take is not taken later either while the windows only grow. */
  lemma NoTakerStays(p: Pendings, p': Pendings, alive: seq<bool>, cap: nat, s: nat)
    requires Grown(p, p') && |alive| <= |p| && NoTaker(p, alive, cap, s)
    ensures NoTaker(p', alive, cap, s)
  {
    InflightGrows(p, p', |alive|);
    forall i: nat | i < |alive| && Takes(p', alive, cap, i, s)
      ensures Takes(p, alive, cap, i, s)
    {
      NoMoreKeys(p[i], p'[i]);
    }
  }

  lemma GrownByStore(p: Pendings, i: nat, s: nat, data: seq<byte>)
    requires i < |p|
    ensures Grown(p, Stored(p, i, s, data)) && Grown(p, p)
  {
  }

  /** No waiting number could be taken by any exit now. */
  ghost predicate AllStuck(p: Pendings, alive: seq<bool>, cap: nat, q: seq<nat>)
    requires |alive| <= |p|
  {
    forall k :: 0 <= k < |q| ==> NoTaker(p, alive, cap, q[k])
  }

  /** The same from position n of the queue on. */
  ghost predicate StuckFrom(p: Pendings, alive: seq<bool>, cap: nat, q: seq<nat>, n: nat)
    requires |alive| <= |p|
  {
    forall k :: n <= k < |q| ==> NoTaker(p, alive, cap, q[k])
  }

  lemma NothingStuck(p: Pendings, alive: seq<bool>, cap: nat, q: seq<nat>)
    requires |alive| <= |p|
    ensures StuckFrom(p, alive, cap, q, |q|)
  {
  }

  /** A number is settled, or joins the queue because nobody takes it. */
  lemma StuckFromNext(p: Pendings, p': Pendings, alive: seq<bool>, cap: nat, q: seq<nat>, n: nat, s: nat, settled: bool)
    requires |alive| <= |p| && Grown(p, p') && StuckFrom(p, alive, cap, q, n) && (settled || NoTaker(p', alive, cap, s))
    ensures StuckFrom(p', alive, cap, q + if settled then [] else [s], n)
  {
    hide NoTaker;
    forall k | n <= k < |q|
      ensures NoTaker(p', alive, cap, q[k])
    {
      NoTakerStays(p, p', alive, cap, q[k]);
    }
  }

  lemma AllStuckStays(p: Pendings, p': Pendings, alive: seq<bool>, cap: nat, q: seq<nat>)
    requires Grown(p, p') && |alive| <= |p| && AllStuck(p, alive, cap, q)
    ensures AllStuck(p', alive, cap, q)
  {
    forall k | 0 <= k < |q|
      ensures NoTaker(p', alive, cap, q[k])
    {
      NoTakerStays(p, p', alive, cap, q[k]);
    }
  }

  lemma AssignedFits(file: seq<byte>, s: nat, data: seq<byte>)
    requires Assigned(file, s, data)
    ensures 0 < |data| <= SenderWindow.ESPNOW_MAX_PAYLOAD
  {
    CountCoversExactly(DataFragments(|file|, TRANSFER_FRAGMENT_SIZE), s);
    if IsParity(s) {
      ParityShape(file, TRANSFER_FRAGMENT_SIZE, s / 8);
    } else {
      ChunkShape(file, TRANSFER_FRAGMENT_SIZE, DataIndex(s));
    }
  }

  /** Only exit d changed hands: it is dead and empty, the others kept what they had and took
      over nothing but its data numbers, and the queue was only extended, in ascending order. */
  ghost predicate HandedOver(v: View, v': View, d: nat)
    requires d < |v.win| == |v'.win| && d < |v.alive|
  {
    && v'.next == v.next && v'.retired == v.retired && v'.alive == v.alive[d := false]
    && v'.win[d] == {}
    && (forall j :: 0 <= j < |v.win| && j != d ==> v.win[j] <= v'.win[j])
    && (forall j, s :: 0 <= j < |v.win| && j != d && s in v'.win[j] ==> s in v.win[j] || (s in v.win[d] && !IsParity(s)))
    && v.queue <= v'.queue && StrictlyAscending(v'.queue[|v.queue|..])
  }

  /** The sender's test for the end of the upload. */
  ghost predicate LooksDone(v: View, count: nat)
    requires |v.win| == |v.alive|
  {
    v.next >= count && forall i :: 0 <= i < |v.win| && v.alive[i] ==> v.win[i] == {}
  }

  /** Some waiting numbers moved into windows, the rest kept its order; nothing else changed. */
  ghost predicate Drained(v: View, v': View)
    requires |v.win| == |v'.win|
  {
    && v'.next == v.next && v'.retired == v.retired && v'.alive == v.alive
    && (forall j :: 0 <= j < |v.win| ==> v.win[j] <= v'.win[j])
    && (forall j, s :: 0 <= j < |v.win| && s in v'.win[j] ==> s in v.win[j] || s in v.queue)
    && (forall s :: s in v'.queue ==> s in v.queue) && Subsequence(v'.queue, v.queue)
  }

  /** A file of this size has count fragments, data and parity. */
  ghost predicate IsCount(count: nat, size: nat) {
    forall n: nat :: n == size ==> Total(n, TRANSFER_FRAGMENT_SIZE, true) == count
  }

  /** Layout and payloads: the counters fit the file, unused windows are empty, and whatever
      is pending or was ever sent is what the layout assigns to its number. */
  ghost predicate SessionFacts(file: seq<byte>, count: nat, next: nat, pendings: Pendings, wire: seq<(nat, seq<byte>)>, exits: nat) {
    && |file| <= SD_MAX_FILE_SIZE
    && IsCount(count, |file|) && count < CONGESTION_FLAG
    && next <= count
    && GenuinePendings(file, pendings)
    && GenuinePackets(file, wire)
    && forall i :: exits <= i < |pendings| ==> pendings[i] == map[]
  }

  lemma FactsBound(file: seq<byte>, count: nat, next: nat, pendings: Pendings, wire: seq<(nat, seq<byte>)>, exits: nat)
    requires SessionFacts(file, count, next, pendings, wire, exits)
    ensures |file| <= SD_MAX_FILE_SIZE && next <= count == Total(|file|, TRANSFER_FRAGMENT_SIZE, true) < CONGESTION_FLAG
  {
  }

  lemma NothingYet(file: seq<byte>, pendings: Pendings, wire: seq<(nat, seq<byte>)>)
    requires forall i :: 0 <= i < |pendings| ==> pendings[i] == map[]
    requires wire == [] && |file| <= SD_MAX_FILE_SIZE
    ensures SessionFacts(file, Total(|file|, TRANSFER_FRAGMENT_SIZE, true), 0, pendings, wire, 0)
    ensures GroupSoFar(file, 0) == [] && Total(0, TRANSFER_FRAGMENT_SIZE, true) == 0
    ensures Wins(pendings, 0) == []
    ensures Inv(View(0, [], [], [], {}))
  {
    hide Inv, Assigned, Chunk, DataFragments;
    NothingYetShape(file, pendings, wire, 0);
    ElectedOk(0);
    assert Elected(0) == View(0, [], [], [], {});
    NoFragments();
  }

  lemma NoFragments()
    ensures DataFragments(0, TRANSFER_FRAGMENT_SIZE) == 0
  {
  }

  lemma NothingYetShape(file: seq<byte>, pendings: Pendings, wire: seq<(nat, seq<byte>)>, exits: nat)
    requires forall i :: 0 <= i < |pendings| ==> pendings[i] == map[]
    requires wire == [] && |file| <= SD_MAX_FILE_SIZE
    ensures SessionFacts(file, Total(|file|, TRANSFER_FRAGMENT_SIZE, true), 0, pendings, wire, exits)
    ensures exits <= |pendings| ==> Wins(pendings, exits) == seq(exits, _ => {})
  {
    hide Assigned, Total;
    CountsFitSixteenBits(|file|);
    if exits <= |pendings| {
      forall i | 0 <= i < exits
        ensures Wins(pendings, exits)[i] == {}
      {
      }
    }
  }

  /** A number not sent yet is in no window. */
  lemma NotYetHeld(v: View, i: nat)
    requires Inv(v) && i < |v.win|
    ensures v.next !in v.win[i] && |v.win| == |v.alive|
  {
  }

  lemma PayloadOf(file: seq<byte>, s: nat)
    requires s < Total(|file|, TRANSFER_FRAGMENT_SIZE, true)
    ensures Assigned(file, s, Payload(file, TRANSFER_FRAGMENT_SIZE, true, s))
    ensures !IsParity(s) ==>
              && DataIndex(s) * TRANSFER_FRAGMENT_SIZE < |file|
              && Payload(file, TRANSFER_FRAGMENT_SIZE, true, s) == Chunk(file, TRANSFER_FRAGMENT_SIZE, DataIndex(s))
              && |Chunk(file, TRANSFER_FRAGMENT_SIZE, DataIndex(s))| <= TRANSFER_FRAGMENT_SIZE
  {
    if !IsParity(s) {
      CountCoversExactly(DataFragments(|file|, TRANSFER_FRAGMENT_SIZE), s);
      ChunkShape(file, TRANSFER_FRAGMENT_SIZE, DataIndex(s));
    }
  }

  lemma AssignedBound(file: seq<byte>, s: nat, data: seq<byte>)
    requires Assigned(file, s, data)
    ensures s < Total(|file|, TRANSFER_FRAGMENT_SIZE, true)
  {
  }

  lemma DataOnlyStep(s: seq<nat>, p: nat)
    requires p < |s|
    ensures DataOnly(s[p..]) == (if IsParity(s[p]) then [] else [s[p]]) + DataOnly(s[p + 1..])
    ensures !IsParity(s[p]) ==> s[p] in DataOnly(s)
  {
    assert s[p..][1..] == s[p + 1..];
    DataOnlyKeeps(s, p);
  }

  lemma {:induction false} DataOnlyKeeps(s: seq<nat>, p: nat)
    requires p < |s|
    ensures !IsParity(s[p]) ==> s[p] in DataOnly(s)
  {
    if p > 0 {
      DataOnlyKeeps(s[1..], p - 1);
    }
  }

  /** With a survivor at most three exits are dead, so at most 192 numbers wait. */
  lemma QueueHasRoom(v: View)
    requires Inv(v) && SomeAlive(v) && |v.alive| <= MAX_EXIT_NODES
    ensures |v.queue| <= 192 < REDIST_CAPACITY
  {
    DeadCountMax(v.alive);
  }

  lemma HandedOverDie(v: View, d: nat, orphans: seq<nat>)
    requires d < |v.win| == |v.alive| && StrictlyAscending(orphans)
    ensures HandedOver(v, Die(v, d, orphans), d)
  {
    assert (v.queue + orphans)[|v.queue|..] == orphans;
  }

  lemma HandedOverLast(v: View, d: nat)
    requires d < |v.win| == |v.alive|
    ensures HandedOver(v, Die(v, d, []), d)
  {
    assert (v.queue + [])[|v.queue|..] == [];
  }

  lemma HandedOverRehome(before: View, v: View, d: nat, k: nat, i: nat, orphans: seq<nat>)
    requires d < |before.win| == |v.win| == |before.alive| && HandedOver(before, v, d) && OrphansOf(before, d, orphans)
    requires |before.queue| <= k < |v.queue| && i < |v.win| && i != d && v.queue[k] in orphans
    ensures HandedOver(before, Rehome(v, k, i), d)
  {
    var n := |before.queue|;
    assert RemoveAt(v.queue, k)[..n] == v.queue[..n];
    assert RemoveAt(v.queue, k)[n..] == RemoveAt(v.queue[n..], k - n);
  }

  /** Every exit that died in between had been silent beyond the timeout. */
  ghost predicate OnlySilentDie(start: ActiveTransfer, alive: seq<bool>, now: nat, timeout: nat) {
    && |alive| == |start.alive| && |start.lastAckMs| == |alive|
    && forall i :: 0 <= i < |alive| ==>
         alive[i] == start.alive[i] || (start.alive[i] && now - start.lastAckMs[i] > timeout)
  }

  /** Exit i is to be given up: alive, holding something, and silent beyond the timeout. */
  ghost predicate Overdue(start: ActiveTransfer, v: View, i: nat, now: nat, timeout: nat)
    requires i < |start.lastAckMs| && i < |v.win| && i < |v.alive|
  {
    v.alive[i] && v.win[i] != {} && now - start.lastAckMs[i] > timeout
  }

  /** The first n exits were checked: the overdue ones are dead; the others still hold at least
      what they held. */
  ghost predicate Checked(start: ActiveTransfer, v0: View, v: View, now: nat, timeout: nat, n: nat) {
    && |v0.win| == |v.win| == |v0.alive| == |v.alive| == |start.lastAckMs|
    && (forall i: nat :: i < n && i < |v.win| && Overdue(start, v0, i, now, timeout) ==> !v.alive[i])
    && (forall i: nat :: n <= i < |v.win| ==> v.alive[i] == v0.alive[i] && v0.win[i] <= v.win[i])
  }

  lemma CheckedNone(start: ActiveTransfer, v: View, now: nat, timeout: nat)
    requires |v.win| == |v.alive| == |start.lastAckMs|
    ensures Checked(start, v, v, now, timeout, 0)
  {
  }

  /** Checking exit n: it is buried iff it is overdue now. */
  lemma CheckedNext(start: ActiveTransfer, v0: View, v: View, v': View, now: nat, timeout: nat, n: nat)
    requires Checked(start, v0, v, now, timeout, n) && n < |v.win|
    requires if Overdue(start, v, n, now, timeout) then |v'.win| == |v.win| && HandedOver(v, v', n) else v' == v
    ensures Checked(start, v0, v', now, timeout, n + 1)
  {
  }

  lemma NobodyDies(start: ActiveTransfer, now: nat, timeout: nat)
    requires |start.lastAckMs| == |start.alive|
    ensures OnlySilentDie(start, start.alive, now, timeout)
  {
  }

  /** What waits is a data number that was sent before and is in no window. */
  lemma WaitingIsData(v: View, k: nat, i: nat)
    requires Inv(v) && k < |v.queue| && i < |v.win|
    ensures v.queue[k] < v.next && !IsParity(v.queue[k]) && v.queue[k] !in v.win[i]
  {
    assert !InSomeWindow(v, v.queue[k]);
  }

  lemma DrainedRefl(v: View)
    ensures Drained(v, v)
  {
    SubsequenceRefl(v.queue);
  }

  lemma DrainedTrans(a: View, b: View, c: View)
    requires |a.win| == |b.win| == |c.win| && Drained(a, b) && Drained(b, c)
    ensures Drained(a, c)
  {
    SubsequenceTrans(c.queue, b.queue, a.queue);
    forall j, s | 0 <= j < |a.win| && s in c.win[j]
      ensures s in a.win[j] || s in a.queue
    {
      assert s in b.win[j] || s in b.queue;
    }
  }

  lemma DrainedStep(start: View, v: View, k: nat, i: nat)
    requires |start.win| == |v.win| && Drained(start, v) && Inv(v) && k < |v.queue| && i < |v.win|
    ensures Drained(start, Rehome(v, k, i))
  {
    RemoveAtMembers(v.queue, k);
    assert v.queue[k] in v.queue;
    DropFromSubsequence(v.queue, start.queue, k);
  }

  lemma FactsNext(file: seq<byte>, count: nat, next: nat, pendings: Pendings, wire: seq<(nat, seq<byte>)>, exits: nat)
    requires SessionFacts(file, count, next, pendings, wire, exits) && next < count
    ensures SessionFacts(file, count, next + 1, pendings, wire, exits)
  {
  }

  lemma FactsAfterSend(file: seq<byte>, count: nat, next: nat, pendings: Pendings, wire: seq<(nat, seq<byte>)>, exits: nat,
                       i: nat, s: nat, data: seq<byte>)
    requires SessionFacts(file, count, next, pendings, wire, exits) && i < exits && i < |pendings|
    requires Assigned(file, s, data)
    ensures SessionFacts(file, count, next, Stored(pendings, i, s, data), wire + [(s, data)], exits)
  {
    hide Assigned, Total;
  }

  lemma FactsAfterRemoval(file: seq<byte>, count: nat, next: nat, pendings: Pendings, wire: seq<(nat, seq<byte>)>, exits: nat,
                          i: nat, m: map<nat, seq<byte>>)
    requires SessionFacts(file, count, next, pendings, wire, exits) && i < |pendings|
    requires m.Keys <= pendings[i].Keys && forall s :: s in m ==> m[s] == pendings[i][s]
    ensures SessionFacts(file, count, next, pendings[i := m], wire, exits)
  {
    hide Assigned, Total;
    assert i >= exits ==> m == pendings[i];
  }

  lemma PendingIsPayload(file: seq<byte>, count: nat, next: nat, pendings: Pendings, wire: seq<(nat, seq<byte>)>, exits: nat,
                         i: nat, s: nat)
    requires SessionFacts(file, count, next, pendings, wire, exits) && i < |pendings| && s in pendings[i]
    ensures pendings[i][s] == Payload(file, TRANSFER_FRAGMENT_SIZE, true, s)
  {
    hide Total, Payload;
  }

  lemma FactsAfterResend(file: seq<byte>, count: nat, next: nat, pendings: Pendings, wire: seq<(nat, seq<byte>)>, exits: nat,
                         i: nat, more: seq<(nat, seq<byte>)>)
    requires SessionFacts(file, count, next, pendings, wire, exits) && i < |pendings|
    requires SenderWindow.AllPending(more, pendings[i])
    ensures SessionFacts(file, count, next, pendings, wire + more, exits)
  {
    hide Assigned, Total;
  }

  /** Sending a data fragment extends the current group by it. */
  lemma GroupGrows(file: seq<byte>, next: nat)
    requires !IsParity(next)
    ensures GroupSoFar(file, next + 1) ==
            GroupSoFar(file, next) + [Chunk(file, TRANSFER_FRAGMENT_SIZE, DataIndex(next))]
  {
    assert (next + 1) / 8 == next / 8 && (next + 1) % 8 == next % 8 + 1;
  }

  /** At a parity slot the running parity is the one the layout assigns to it. */
  lemma GroupCloses(file: seq<byte>, next: nat)
    requires IsParity(next)
    ensures Parity(GroupSoFar(file, next)) == Payload(file, TRANSFER_FRAGMENT_SIZE, true, next)
    ensures GroupSoFar(file, next + 1) == []
  {
    assert GroupSoFar(file, next) == Group(file, TRANSFER_FRAGMENT_SIZE, next / 8);
  }

  function Least(a: nat, b: nat): nat {
    if a < b then a else b
  }

  /** The total over the alive ones among the first n exits. */
  function SumAlive(counts: seq<nat>, alive: seq<bool>, n: nat): nat
    requires n <= |counts| && n <= |alive|
  {
    if n == 0 then 0 else SumAlive(counts, alive, n - 1) + if alive[n - 1] then counts[n - 1] else 0
  }

  lemma {:induction false} SumAliveGrows(counts: seq<nat>, alive: seq<bool>, m: nat, n: nat)
    requires m <= n <= |counts| && n <= |alive|
    ensures SumAlive(counts, alive, m) <= SumAlive(counts, alive, n)
  {
    if m < n {
      SumAliveGrows(counts, alive, m, n - 1);
    }
  }

  /** The transfer in progress. file is what read_chunk reads; the last three lists run over
      the elected exits. */
  datatype ActiveTransfer = ActiveTransfer(
    active: bool, sessionId: nat, file: seq<byte>, fragmentCount: nat, nextFragment: nat,
    exitNodes: seq<nat>, alive: seq<bool>, lastAckMs: seq<nat>)

  const Idle := ActiveTransfer(false, 0, [], 0, 0, [], [], [])

  // ---- Weights of the exits ----

  ghost predicate WeightsOk(w: seq<real>) {
    |w| == MAX_EXIT_NODES && w[0] >= 0.0 && w[1] >= 0.0 && w[2] >= 0.0 && w[3] >= 0.0
  }

  /** How good a path is: the better, the shorter its round trips and the smaller its loss. */
  function PathScore(rtt: real, loss: real): (score: real)
    requires loss >= 0.0
    ensures score > 0.0
  {
    var guarded := if rtt > 10.0 then rtt else 10.0;
    var cost := guarded * (1.0 + loss * 5.0);
    CostsSomething(guarded, loss);
    1.0 / cost
  }

  lemma CostsSomething(rtt: real, loss: real)
    requires rtt >= 10.0 && loss >= 0.0
    ensures rtt * (1.0 + loss * 5.0) >= 10.0
  {
    assert rtt * (1.0 + loss * 5.0) == rtt + rtt * (loss * 5.0);
    ScoreCounts(rtt, loss * 5.0);
  }

  lemma BetterPath(rtt: real, loss: real, rtt': real, loss': real)
    requires rtt <= rtt' && 0.0 <= loss <= loss'
    ensures PathScore(rtt, loss) >= PathScore(rtt', loss')
  {
    var g, g' := if rtt > 10.0 then rtt else 10.0, if rtt' > 10.0 then rtt' else 10.0;
    var l, l' := 1.0 + loss * 5.0, 1.0 + loss' * 5.0;
    ScoreCounts(g, l' - l);
    ScoreCounts(g' - g, l');
    assert g' * l' - g * l == g * (l' - l) + (g' - g) * l';
    CostsSomething(g, loss);
    CostsSomething(g', loss');
    Inverse(g * l, g' * l');
  }

  lemma Inverse(a: real, b: real)
    requires 0.0 < a <= b
    ensures 1.0 / a >= 1.0 / b
  {
  }

  function SumTo(s: seq<real>, n: nat): real
    requires n <= |s|
  {
    if n == 0 then 0.0 else SumTo(s, n - 1) + s[n - 1]
  }

  lemma {:induction false} SumSame(s: seq<real>, s': seq<real>, n: nat)
    requires n <= |s| == |s'| && forall i :: 0 <= i < n ==> s[i] == s'[i]
    ensures SumTo(s, n) == SumTo(s', n)
  {
    if n > 0 {
      SumSame(s, s', n - 1);
    }
  }

  ghost predicate LossesOk(rtt: seq<real>, loss: seq<real>) {
    |rtt| == |loss| == MAX_EXIT_NODES && forall i :: 0 <= i < MAX_EXIT_NODES ==> loss[i] >= 0.0
  }

  /** The scores of the alive ones among the first n paths; the others have none. */
  ghost predicate Scored(scores: seq<real>, n: nat, alive: seq<bool>, rtt: seq<real>, loss: seq<real>)
    requires n <= |alive| <= MAX_EXIT_NODES && LossesOk(rtt, loss)
  {
    && |scores| == MAX_EXIT_NODES
    && forall i :: 0 <= i < MAX_EXIT_NODES ==> scores[i] == if i < n && alive[i] then PathScore(rtt[i], loss[i]) else 0.0
  }

  /** What the weights of the exits are to each other. */
  ghost predicate Shares(w: seq<real>, alive: seq<bool>, rtt: seq<real>, loss: seq<real>) {
    && |alive| <= |w| && |alive| <= |rtt| && |alive| <= |loss|
    && SumTo(w, |alive|) == 1.0
    && (forall i :: 0 <= i < |alive| ==> if alive[i] then w[i] > 0.0 else w[i] == 0.0)
    && forall i, j :: 0 <= i < |alive| && 0 <= j < |alive| && alive[i] && alive[j] && rtt[i] <= rtt[j] && loss[i] <= loss[j] ==>
         w[i] >= w[j]
  }

  /** Scores every alive path and adds the scores up. */
  method ScorePaths(alive: seq<bool>, rtt: seq<real>, loss: seq<real>) returns (scores: seq<real>, total: real)
    requires |alive| <= MAX_EXIT_NODES && LossesOk(rtt, loss)
    ensures Scored(scores, |alive|, alive, rtt, loss) && |scores| == MAX_EXIT_NODES && total == SumTo(scores, |alive|) >= 0.0
    ensures forall i :: 0 <= i < MAX_EXIT_NODES ==> scores[i] >= 0.0
    ensures forall i :: 0 <= i < |alive| && !alive[i] ==> scores[i] == 0.0
    ensures total == 0.0 <==> forall k :: 0 <= k < |alive| ==> !alive[k]
  {
    hide PathScore;
    scores, total := [0.0, 0.0, 0.0, 0.0], 0.0;
    for i := 0 to |alive|
      invariant |scores| == MAX_EXIT_NODES && total == SumTo(scores, i) >= 0.0
      invariant Scored(scores, i, alive, rtt, loss)
      invariant total == 0.0 <==> forall k :: 0 <= k < i ==> !alive[k]
    {
      if !alive[i] {
        continue;
      }
      ghost var before := scores;
      scores := scores[i := PathScore(rtt[i], loss[i])];
      SumSame(before, scores, i);
      total := total + scores[i];
    }
  }

  lemma ScoresToShares(w: seq<real>, scores: seq<real>, total: real, alive: seq<bool>, rtt: seq<real>, loss: seq<real>)
    requires |alive| <= MAX_EXIT_NODES && LossesOk(rtt, loss) && Scored(scores, |alive|, alive, rtt, loss)
    requires AllDivided(w, scores, |alive|, total) && total == SumTo(scores, |alive|)
    ensures Shares(w, alive, rtt, loss)
  {
    hide PathScore;
    SumDivided(w, scores, |alive|, total);
    DividedKeeps(total, total, total);
    forall i | 0 <= i < |alive|
      ensures if alive[i] then w[i] > 0.0 else w[i] == 0.0
    {
      DividedKeeps(scores[i], scores[i], total);
    }
    forall i, j | 0 <= i < |alive| && 0 <= j < |alive| && alive[i] && alive[j] && rtt[i] <= rtt[j] && loss[i] <= loss[j]
      ensures w[i] >= w[j]
    {
      BetterPath(rtt[i], loss[i], rtt[j], loss[j]);
      DividedKeeps(scores[i], scores[j], total);
    }
  }

  ghost predicate AllDivided(w: seq<real>, s: seq<real>, n: nat, total: real) {
    |w| == |s| && n <= |s| && total > 0.0 && forall i :: 0 <= i < n ==> w[i] == s[i] / total
  }

  lemma {:induction false} SumDivided(w: seq<real>, s: seq<real>, n: nat, total: real)
    requires AllDivided(w, s, n, total)
    ensures SumTo(w, n) == SumTo(s, n) / total
  {
    if n > 0 {
      SumDivided(w, s, n - 1, total);
    }
  }

  lemma DividedKeeps(a: real, b: real, total: real)
    requires a >= b >= 0.0 && total > 0.0
    ensures a / total >= b / total >= 0.0 && (b > 0.0 ==> b / total > 0.0) && total / total == 1.0
  {
  }

  lemma ScoreCounts(weight: real, free: real)
    requires weight >= 0.0 && free >= 0.0
    ensures weight * free >= 0.0
  {
  }

  // ---- What is configured for the distance to the exits ----

  const BASE_EXIT_NODE_TIMEOUT_MS := 30000
  const PER_HOP_EXIT_NODE_TIMEOUT_MS := 5000
  const MAX_EXIT_NODE_TIMEOUT_MS := 60000
  const TWO_HOP_MESH_WINDOW_CAP := 24
  const MULTIHOP_MESH_WINDOW_CAP := 16

  function SanitizeHops(hops: nat): nat {
    if hops == 0 then 1 else if hops == 0xFF then 2 else hops
  }

  function ExitTimeout(hops: nat): (ms: nat)
    ensures ms == Rto.Min(60000, 30000 + 5000 * hops)
  {
    var timeout := BASE_EXIT_NODE_TIMEOUT_MS + hops * PER_HOP_EXIT_NODE_TIMEOUT_MS;
    if timeout > MAX_EXIT_NODE_TIMEOUT_MS then MAX_EXIT_NODE_TIMEOUT_MS else timeout
  }

  function MeshWindowCap(hops: nat): nat {
    if hops <= 1 then SenderWindow.ARQ_WINDOW
    else if hops == 2 then TWO_HOP_MESH_WINDOW_CAP
    else MULTIHOP_MESH_WINDOW_CAP
  }

  datatype Timers = Timers(windowCap: nat, exitTimeoutMs: nat, hopsToExit: nat, lastFragSendMs: nat)

  /** Each of the given times is at least the pacing interval after the one before. */
  ghost predicate Spaced(times: seq<nat>, hops: nat) {
    |times| < 2 ||
    (times[|times| - 1] - times[|times| - 2] >= 15 + 5 * hops && Spaced(times[..|times| - 1], hops))
  }

  /** So far the first sends kept the pacing interval, and last is the time of the latest. */
  ghost predicate Paced(times: seq<nat>, hops: nat, last: nat) {
    (times != [] ==> last == times[|times| - 1]) && Spaced(times, hops)
  }

  lemma PacedNone(hops: nat, last: nat)
    ensures Paced([], hops, last)
  {
  }

  lemma PacedNext(times: seq<nat>, hops: nat, last: nat, now: nat)
    requires Paced(times, hops, last) && now - last >= 15 + 5 * hops
    ensures Paced(times + [now], hops, now)
  {
    assert (times + [now])[..|times|] == times;
  }

  /** n fragments take at least n pacing intervals from the first to the last of them. */
  lemma {:induction false} FirstSendsApart(times: seq<nat>, hops: nat, j: nat, k: nat)
    requires Spaced(times, hops) && j <= k < |times|
    ensures times[k] - times[j] >= (k - j) * (15 + 5 * hops)
  {
    if k < |times| - 1 {
      FirstSendsApart(times[..|times| - 1], hops, j, k);
    } else if j < k {
      FirstSendsApart(times[..k], hops, j, k - 1);
      assert (k - j) * (15 + 5 * hops) == (k - 1 - j) * (15 + 5 * hops) + (15 + 5 * hops);
    }
  }

  class TransferEngine {
    const windows: ExitWindows
    const redistPending: array<nat>
    const encoder: FecEncoder
    ghost const repr: set<object>
    var transfer: ActiveTransfer
    var timers: Timers
    var redistCount: nat
    var meshUploadDone: bool
    /** The scheduling weight of each exit. */
    var weights: seq<real>
    /** Numbers acknowledged in this session. */
    ghost var retired: set<nat>
    /** When each number of this session was sent for the first time. */
    ghost var firstSends: seq<nat>

    ghost predicate Structure()
      reads this, repr
    {
      && windows in repr && windows.repr <= repr && windows.Valid() && |windows.pendings| == |windows.times| == MAX_EXIT_NODES
      && encoder in repr && encoder.parity in repr && encoder.Valid()
      && redistPending in repr && redistPending.Length == REDIST_CAPACITY
      && this in repr
      && this !in windows.repr && encoder !in windows.repr && encoder.parity !in windows.repr
      && redistPending !in windows.repr && redistPending as object != encoder.parity
      && |transfer.alive| == |transfer.exitNodes| == |transfer.lastAckMs| <= MAX_EXIT_NODES
      && redistCount <= REDIST_CAPACITY && WeightsOk(weights)
    }

    /** The custody state, with q waiting for new exits. */
    ghost function ViewWith(q: seq<nat>): View
      requires Structure()
      reads this, repr
    {
      View(transfer.nextFragment, transfer.alive, Wins(windows.pendings, |transfer.alive|), q, retired)
    }

    ghost function Now(): View
      requires Structure()
      reads this, repr
    {
      ViewWith(redistPending[..redistCount])
    }

    ghost predicate SessionOk()
      requires Structure()
      reads this, repr
    {
      SessionFacts(transfer.file, transfer.fragmentCount, transfer.nextFragment, windows.pendings, windows.wire, |transfer.alive|)
      && NoDup(transfer.exitNodes)
    }

    /** Every number below the next was sent once, with the pacing interval in between; the
        encoder runs in step with the next number; an idle engine holds nothing. */
    ghost predicate StatusOk()
      requires Structure()
      reads this, repr
    {
      && |firstSends| == transfer.nextFragment
      && Paced(firstSends, timers.hopsToExit, timers.lastFragSendMs)
      && if transfer.active then encoder.group == GroupSoFar(transfer.file, transfer.nextFragment)
         else transfer == Idle && retired == {} && redistCount == 0
    }

    ghost predicate Valid()
      reads this, repr
    {
      Structure() && StatusOk() && SessionOk() && Inv(Now())
    }

    constructor ()
      ensures Valid() && transfer == Idle && retired == {} && !meshUploadDone && fresh(repr)
    {
      hide Paced, ExitWindows.Valid, FecEncoder.Valid, Inv, SessionFacts, GroupSoFar, Total, Wins;
      var w := new ExitWindows(Rto.BASE_ARQ_TIMEOUT_MS);
      var q := new nat[REDIST_CAPACITY](_ => 0);
      var e := new FecEncoder();
      windows, redistPending, encoder := w, q, e;
      repr := {this, w, q, e, e.parity} + w.repr;
      transfer, meshUploadDone, redistCount, retired, firstSends := Idle, false, 0, {}, [];
      weights := [1.0, 1.0, 1.0, 1.0];
      timers := Timers(SenderWindow.ARQ_WINDOW, 30000, 1, 0);
      new;
      NothingYet([], windows.pendings, windows.wire);
      PacedNone(timers.hopsToExit, 0);
      assert Now() == View(0, [], [], [], {});
    }

    // ---- Sessions ----

    /** Back to idle: every window, queue and counter of the sender is cleared. */
    method ResetSenderTransferState()
      requires Structure()
      modifies repr
      ensures Valid() && transfer == Idle && !meshUploadDone && retired == {} && redistCount == 0
      ensures windows.wire == [] && windows.pendings == [map[], map[], map[], map[]]
      ensures timers == Timers(old(timers.windowCap), 30000, 1, 0) && weights == [1.0, 1.0, 1.0, 1.0]
    {
      hide Paced, ExitWindows.Valid, FecEncoder.Valid, Inv, SessionFacts, GroupSoFar, Total, Wins;
      windows.ResetAll();
      transfer, timers := Idle, Timers(timers.windowCap, 30000, 1, 0);
      meshUploadDone, redistCount, retired, firstSends, weights := false, 0, {}, [], [1.0, 1.0, 1.0, 1.0];
      NothingYet([], windows.pendings, windows.wire);
      PacedNone(timers.hopsToExit, 0);
      assert Now() == View(0, [], [], [], {});
    }

    /** Accepts a file for the mesh path, unless a transfer is under way or the node serves as an
        exit; exits are elected later. Everything that depends on the distance to the exits is
        configured: unknown and zero distances count as two hops and one. */
    method StartMeshTransfer(data: seq<byte>, random: nat, hopsToInternet: nat, isExitNode: bool) returns (ok: bool)
      requires Valid() && 0 < |data| <= SD_MAX_FILE_SIZE
      modifies repr
      ensures Valid()
      ensures ok <==> !old(transfer.active) && !isExitNode
      ensures !ok ==> transfer == old(transfer) && Now() == old(Now()) && timers == old(timers) && firstSends == old(firstSends)
      ensures ok ==>
                && transfer == ActiveTransfer(true, transfer.sessionId, data, transfer.fragmentCount, 0, [], [], [])
                && transfer.sessionId != 0 && (random != 0 ==> transfer.sessionId == random)
                && retired == {} && redistCount == 0 && !meshUploadDone && firstSends == []
      ensures ok ==>
                && (var hops := timers.hopsToExit;
                    && hops == (if hopsToInternet == 0 then 1 else if hopsToInternet == 255 then 2 else hopsToInternet)
                    && timers.exitTimeoutMs == Rto.Min(60000, 30000 + 5000 * hops)
                    && timers.windowCap == (if hops == 1 then 64 else if hops == 2 then 24 else 16)
                    && windows.Configured(Rto.Min(8000, 3000 + 1000 * hops), if hops == 1 then 200 else Rto.Min(4000, 1600 + 400 * hops)))
    {
      hide Paced, ExitWindows.Valid, FecEncoder.Valid, Inv, SessionFacts, GroupSoFar, Wins;
      hide Total, SenderCount, ExitWindows.Configured, Rto.ArqTimeout, Rto.MinRtoFloor, Rto.Min;
      if transfer.active {
        return false;
      }
      if isExitNode {
        return false;
      }
      encoder.Reset();
      windows.ResetAll();
      var hops := SanitizeHops(hopsToInternet);
      Rto.TimersFit(hops);
      windows.SetTimers(Rto.ArqTimeout(hops), Rto.MinRtoFloor(hops));
      SenderCountExact(|data|);
      var count := SenderCount(|data|);
      transfer := ActiveTransfer(true, if random != 0 then random else 1, data, count, 0, [], [], []);
      timers := Timers(MeshWindowCap(hops), ExitTimeout(hops), hops, 0);
      meshUploadDone, redistCount, firstSends := false, 0, [];
      NothingYet(data, windows.pendings, windows.wire);
      PacedNone(hops, 0);
      assert Now() == View(0, [], [], [], {});
      ok := true;
    }

    /** The outcome of an election becomes the set of exits of the transfer. */
    method AcceptExits(addrs: seq<nat>, now: nat)
      requires Valid() && transfer.active && transfer.alive == [] && transfer.nextFragment == 0
      requires redistCount == 0 && retired == {}
      requires NoDup(addrs) && 0 < |addrs| <= MAX_EXIT_NODES
      modifies windows.repr, this`transfer
      ensures Valid()
      ensures transfer == old(transfer).(
                exitNodes := addrs, alive := seq(|addrs|, _ => true), lastAckMs := seq(|addrs|, _ => now))
      ensures Now() == Elected(|addrs|) && SomeAlive(Now())
    {
      hide Paced, ExitWindows.Valid, FecEncoder.Valid, Inv, SessionFacts, GroupSoFar, Total, Wins;
      windows.ResetAll();
      FactsBound(transfer.file, transfer.fragmentCount, 0, old(windows.pendings), old(windows.wire), 0);
      NothingYetShape(transfer.file, windows.pendings, windows.wire, |addrs|);
      transfer := transfer.(exitNodes := addrs, nextFragment := 0,
        alive := seq(|addrs|, _ => true), lastAckMs := seq(|addrs|, _ => now));
      ElectedOk(|addrs|);
      assert Now() == Elected(|addrs|);
      assert transfer.alive[0];
    }

    // ---- Choosing a window ----

    function Exits(): nat
      reads this
    {
      |transfer.alive|
    }

    ghost predicate Eligible(i: nat, s: nat)
      requires Structure() && i < Exits()
      reads this, repr
    {
      Takes(windows.pendings, transfer.alive, timers.windowCap, i, s)
    }

    /** Nobody would take number s now. */
    ghost predicate Stuck(s: nat)
      requires Structure()
      reads this, repr
    {
      NoTaker(windows.pendings, transfer.alive, timers.windowCap, s)
    }

    /** New weights from the measured round trips and losses of the paths: shares of one whole,
        none for the dead, and never less for a path that is better in both. */
    method RecomputeWeights(rtt: seq<real>, loss: seq<real>)
      requires Structure() && LossesOk(rtt, loss)
      modifies this`weights
      ensures Structure()
      ensures (forall i :: 0 <= i < Exits() ==> !transfer.alive[i]) ==> weights == old(weights)
      ensures (exists i :: 0 <= i < Exits() && transfer.alive[i]) ==> Shares(weights, transfer.alive, rtt, loss)
    {
      hide ExitWindows.Valid, FecEncoder.Valid, SumTo, Scored, LossesOk;
      var scores, total := ScorePaths(transfer.alive, rtt, loss);
      if total > 0.0 {
        var w := weights;
        for i := 0 to |transfer.alive|
          invariant WeightsOk(w) && AllDivided(w, scores, i, total)
        {
          DividedKeeps(scores[i], scores[i], total);
          w := w[i := if transfer.alive[i] then scores[i] / total else 0.0];
        }
        ScoresToShares(w, scores, total, transfer.alive, rtt, loss);
        weights := w;
      }
    }

    /** Exit i's weight times what it has left of its share. */
    ghost function Score(i: nat): real
      requires i < |weights| && i < |windows.pendings|
      reads this, windows
    {
      weights[i] * ((PerExitCap(timers.windowCap, |transfer.alive|) - |windows.pendings[i]|) as real)
    }

    /** Among the exits that would take s, exit i has the highest score and is the first of those. */
    ghost predicate BestOf(n: nat, i: nat, s: nat)
      requires Structure() && i < n <= Exits() <= |weights|
      reads this, repr
    {
      forall k: nat :: k < n && Eligible(k, s) ==> Score(k) <= Score(i) && (k < i ==> Score(k) < Score(i))
    }

    lemma ScoreIs(i: nat)
      requires Structure() && i < Exits()
      ensures Score(i) == weights[i] * ((PerExitCap(timers.windowCap, Exits()) - |windows.pendings[i]|) as real)
      ensures |windows.pendings[i]| <= PerExitCap(timers.windowCap, Exits()) ==> Score(i) >= 0.0
    {
      hide ExitWindows.Valid, FecEncoder.Valid, PerExitCap;
      if |windows.pendings[i]| <= PerExitCap(timers.windowCap, Exits()) {
        ScoreCounts(weights[i], (PerExitCap(timers.windowCap, Exits()) - |windows.pendings[i]|) as real);
      }
    }

    /** What the search for the best exit knows after the first n. */
    ghost predicate Leads(n: nat, target: int, best: real, s: nat)
      requires Structure() && n <= Exits() <= |weights|
      reads this, repr
    {
      if target < 0 then best == -1.0 && forall k: nat :: k < n ==> !Eligible(k, s)
      else target < n && Eligible(target, s) && BestOf(n, target, s) && best == Score(target)
    }

    lemma LeadsNone(s: nat)
      requires Structure() && Exits() <= |weights|
      ensures Leads(0, -1, -1.0, s)
    {
    }

    lemma LeadsNext(n: nat, target: int, best: real, s: nat)
      requires Structure() && n < Exits() <= |weights| && Leads(n, target, best, s)
      ensures !Eligible(n, s) || Score(n) <= best ==> Leads(n + 1, target, best, s)
      ensures Eligible(n, s) && Score(n) > best ==> Leads(n + 1, n, Score(n), s)
    {
      ScoreIs(n);
      assert Eligible(n, s) ==> |windows.pendings[n]| <= PerExitCap(timers.windowCap, Exits());
      hide ExitWindows.Valid, FecEncoder.Valid, TransferEngine.Score, Takes;
    }

    method TotalMeshInflight() returns (total: nat)
      requires Structure()
      ensures total == Inflight(windows.pendings, Exits())
    {
      hide ExitWindows.Valid, FecEncoder.Valid;
      total := 0;
      for i := 0 to |transfer.alive|
        invariant total == Inflight(windows.pendings, i)
      {
        var used := windows.Used(i);
        total := total + used;
      }
    }

    /** The eligible exit with the highest score, or -1 exactly when the transfer is at its cap or
        no exit is eligible. */
    method SelectMeshTarget(s: nat) returns (target: int)
      requires Structure()
      ensures -1 <= target < Exits()
      ensures target >= 0 ==> Eligible(target, s) && BestOf(Exits(), target, s)
      ensures target == -1 <==> Stuck(s)
    {
      hide ExitWindows.Valid, FecEncoder.Valid, Inflight, TransferEngine.BestOf;
      var total := TotalMeshInflight();
      if total >= timers.windowCap {
        return -1;
      }
      var cap := PerExitCap(timers.windowCap, |transfer.alive|);
      target := BestTarget(s, cap);
      if target >= 0 {
        return target;
      }
      for i := 0 to |transfer.alive|
        invariant forall k: nat :: k < i ==> !Takes(windows.pendings, transfer.alive, timers.windowCap, k, s)
      {
        var can := windows.CanSend(i, s);
        var used := windows.Used(i);
        if transfer.alive[i] && can && used < cap {
          return i;
        }
      }
      return -1;
    }

    /** The first of the eligible exits with the highest score, or -1 if none is eligible. */
    method BestTarget(s: nat, cap: nat) returns (target: int)
      requires Structure() && cap == PerExitCap(timers.windowCap, Exits())
      ensures -1 <= target < Exits()
      ensures exists best :: Leads(Exits(), target, best, s)
    {
      hide ExitWindows.Valid, FecEncoder.Valid, PerExitCap, TransferEngine.Leads, TransferEngine.Score, SenderWindow.SlotFree;
      target := -1;
      var bestScore := -1.0;
      LeadsNone(s);
      for i := 0 to |transfer.alive|
        invariant -1 <= target < i && Leads(i, target, bestScore, s)
      {
        LeadsNext(i, target, bestScore, s);
        ScoreIs(i);
        if !transfer.alive[i] {
          continue;
        }
        var can := windows.CanSend(i, s);
        if !can {
          continue;
        }
        var used := windows.Used(i);
        if used >= cap {
          continue;
        }
        var score := weights[i] * ((cap - used) as real);
        assert Eligible(i, s);
        assert score == Score(i);
        if score > bestScore {
          bestScore, target := score, i;
        }
      }
    }

    method IndexForPeer(addr: nat) returns (idx: int)
      requires Structure()
      ensures -1 <= idx < Exits()
      ensures idx >= 0 ==> transfer.exitNodes[idx] == addr
      ensures idx == -1 <==> addr !in transfer.exitNodes
    {
      hide ExitWindows.Valid, FecEncoder.Valid;
      for i := 0 to |transfer.exitNodes|
        invariant addr !in transfer.exitNodes[..i]
      {
        if transfer.exitNodes[i] == addr {
          return i;
        }
      }
      return -1;
    }

    method IndexForSequence(s: nat) returns (idx: int)
      requires Structure()
      ensures -1 <= idx < Exits()
      ensures idx >= 0 ==> s in windows.pendings[idx]
      ensures idx == -1 <==> !InSomeWindow(Now(), s)
    {
      hide ExitWindows.Valid, FecEncoder.Valid;
      for i := 0 to |transfer.alive|
        invariant forall k :: 0 <= k < i ==> s !in windows.pendings[k]
      {
        var contains := windows.Contains(i, s);
        if contains {
          assert s in Now().win[i];
          return i;
        }
      }
      return -1;
    }

    // ---- Acknowledgements ----

    /** An acknowledgement from an exit retires s if its window holds it, and nothing else, and is a
        sign of life of that exit. */
    method HandleAck(s: nat, from: nat, now: nat)
      requires Valid()
      modifies windows.repr, this`transfer, this`retired
      ensures Valid() && transfer == old(transfer).(lastAckMs := transfer.lastAckMs) && windows.wire == old(windows.wire)
      ensures forall i: nat :: i < Exits() && transfer.exitNodes[i] == from ==>
                windows.times == old(windows.times)[i := Acknowledged(old(windows.times[i]), s,
                  s in old(windows.pendings[i]) && old(windows.FirstAttempt(i, s)), now, windows.Floor(i))]
      ensures forall i: nat :: i < Exits() ==>
                transfer.lastAckMs[i] == if transfer.exitNodes[i] == from && s in old(Now()).win[i] then now else old(transfer).lastAckMs[i]
      ensures from !in transfer.exitNodes ==> Now() == old(Now())
      ensures forall i: nat :: i < Exits() && transfer.exitNodes[i] == from ==> Now() == Custody.Ack(old(Now()), i, s)
    {
      hide Acknowledged, Paced, ExitWindows.Valid, FecEncoder.Valid, Inv, SessionFacts, GroupSoFar, Total, Wins;
      var idx := IndexForPeer(from);
      if idx < 0 {
        return;
      }
      ghost var before, was, wire := Now(), windows.pendings, windows.wire;
      var tracked := windows.Contains(idx, s);
      windows.Ack(idx, s, now);
      AckKeeps(before, idx, s);
      WinsRemoved(was, Exits(), idx, s);
      WinsMembers(was, Exits(), idx);
      FactsAfterRemoval(transfer.file, transfer.fragmentCount, transfer.nextFragment, was, wire, Exits(), idx, was[idx] - {s});
      if tracked {
        transfer := transfer.(lastAckMs := transfer.lastAckMs[idx := now]);
        retired := retired + {s};
      } else {
        assert was[idx] - {s} == was[idx];
      }
      assert Now() == Custody.Ack(before, idx, s);
    }

    /** The window of exit from holds s; for a stranger, the window of any exit. */
    ghost predicate HeldFor(from: nat, s: nat)
      requires Structure()
      reads this, repr
    {
      exists i: nat :: i < Exits() && s in windows.pendings[i] && (transfer.exitNodes[i] == from || from !in transfer.exitNodes)
    }

    /** A negative acknowledgement re-sends what the window in charge holds or, when no window
        holds the number any more, reports that it must be re-sent from the file; custody does
        not move. */
    method HandleNack(s: nat, from: nat, now: nat, answer: int) returns (outOfWindow: bool)
      requires Valid()
      modifies windows.repr
      ensures Valid() && Now() == old(Now())
      ensures outOfWindow <==> from in transfer.exitNodes && transfer.active && s < transfer.fragmentCount &&
                               !InSomeWindow(Now(), s)
      ensures windows.wire == old(windows.wire) + if old(HeldFor(from, s)) && answer >= 0 then [Packet(s)] else []
      ensures StartedAt(old(windows.times), windows.times, now)
    {
      hide StartedAt, Paced, ExitWindows.Valid, FecEncoder.Valid, Inv, SessionFacts, GroupSoFar, Total, Payload;
      StartedNone(windows.times, now);
      var idx := IndexForPeer(from);
      var owner := IndexForSequence(s);
      if i: nat :| i < Exits() && s in windows.pendings[i] {
        assert s in Now().win[i];
      }
      if idx < 0 {
        if owner >= 0 {
          assert HeldFor(from, s);
          NackWindow(owner, s, now, answer);
        }
        return false;
      }
      assert HeldFor(from, s) ==> s in windows.pendings[idx];
      var contains := windows.Contains(idx, s);
      if contains {
        assert s in Now().win[idx];
        assert HeldFor(from, s);
        NackWindow(idx, s, now, answer);
        return false;
      }
      if owner >= 0 {
        return false;
      }
      outOfWindow := transfer.active && s < transfer.fragmentCount;
    }

    method NackWindow(i: nat, s: nat, now: nat, answer: int)
      requires Valid() && i < Exits() && s in windows.pendings[i]
      modifies windows.repr
      ensures Valid() && Now() == old(Now())
      ensures windows.wire == old(windows.wire) + if answer >= 0 then [Packet(s)] else []
      ensures StartedAt(old(windows.times), windows.times, now)
    {
      hide StartedAt, Restarts, Paced, ExitWindows.Valid, FecEncoder.Valid, Inv, SessionFacts, GroupSoFar, Total, Wins, Payload;
      ghost var wire, times := windows.wire, windows.times;
      windows.Nack(i, s, now, answer);
      StartedAgain(times, windows.times, i, now);
      PendingIsPayload(transfer.file, transfer.fragmentCount, transfer.nextFragment, windows.pendings, wire, Exits(), i, s);
      FactsAfterResend(transfer.file, transfer.fragmentCount, transfer.nextFragment, windows.pendings, wire, Exits(), i, windows.wire[|wire|..]);
      assert windows.wire == wire + windows.wire[|wire|..];
      assert Now() == old(Now());
    }

    // ---- Sending ----

    /** The fragment goes to window i; if the transport takes it, custody moves there. */
    method SendTo(i: nat, s: nat, data: seq<byte>, now: nat, answer: int) returns (ret: int)
      requires Structure() && SessionOk() && i < Exits() && s !in windows.pendings[i]
      requires s < transfer.fragmentCount && (data == [] || Assigned(transfer.file, s, data))
      modifies windows.repr
      ensures Structure() && SessionOk()
      ensures ret == 0 || ret == -1
      ensures ret == -1 ==> windows.pendings == old(windows.pendings) && windows.wire == old(windows.wire)
      ensures ret == 0 ==>
                && windows.pendings == Stored(old(windows.pendings), i, s, data) && |old(windows.pendings[i])| < WINDOW
                && windows.wire == old(windows.wire) + [(s, data)]
      ensures ret == 0 <==>
                data != [] && answer >= 0 && SenderWindow.SlotFree(old(windows.pendings[i]), SenderWindow.ARQ_WINDOW, s)
      ensures StartedAt(old(windows.times), windows.times, now)
    {
      hide StartedAt, ExitWindows.Valid, FecEncoder.Valid, SessionFacts, Total, Assigned, SenderWindow.SlotFree;
      StartedOne(windows.times, i, s, now);
      StartedNone(windows.times, now);
      if data != [] {
        AssignedFits(transfer.file, s, data);
      }
      ghost var was, wire := windows.pendings, windows.wire;
      FactsBound(transfer.file, transfer.fragmentCount, transfer.nextFragment, was, wire, Exits());
      ret := windows.Send(i, s, data, now, answer);
      if ret == 0 {
        FactsAfterSend(transfer.file, transfer.fragmentCount, transfer.nextFragment, was, wire, Exits(), i, s, data);
      }
    }

    ghost function Packet(s: nat): (nat, seq<byte>)
      reads this
    {
      (s, Payload(transfer.file, TRANSFER_FRAGMENT_SIZE, true, s))
    }

    /** The next fragment goes out now: there is one, some exit takes it, its read succeeds
        if it is data, and the transport accepts it. */
    ghost predicate CanFeed(out: Outcome)
      requires Structure()
      reads this, repr
    {
      && transfer.nextFragment < transfer.fragmentCount && !Stuck(transfer.nextFragment)
      && (IsParity(transfer.nextFragment) || out.readOk) && out.answer >= 0
    }

    /** Sends the next fragment, data or parity, exactly when that is possible. The tick gets here
        only after the pacing interval. */
    method SendNew(now: nat, out: Outcome)
      requires Valid() && transfer.active && PacingElapsed(now)
      modifies windows.repr, this`transfer, this`timers, this`firstSends, encoder, encoder.parity
      ensures Valid()
      ensures transfer == old(transfer).(nextFragment := old(transfer).nextFragment + if old(CanFeed(out)) then 1 else 0)
      ensures timers == old(timers).(lastFragSendMs := if old(CanFeed(out)) then now else old(timers).lastFragSendMs)
      ensures firstSends == old(firstSends) + if old(CanFeed(out)) then [now] else []
      ensures if old(CanFeed(out)) then
                && windows.wire == old(windows.wire) + [Packet(old(transfer).nextFragment)]
                && exists i: nat ::
                     && i < Exits() && old(Eligible(i, transfer.nextFragment) && BestOf(Exits(), i, transfer.nextFragment))
                     && Now() == FirstSend(old(Now()), i)
              else Now() == old(Now()) && windows.wire == old(windows.wire) && windows.pendings == old(windows.pendings)
      ensures Grown(old(windows.pendings), windows.pendings) && StartedAt(old(windows.times), windows.times, now)
    {
      hide StartedAt, Paced, ExitWindows.Valid, FecEncoder.Valid, Inv, SessionFacts, GroupSoFar;
      hide Total, Wins, Grown, NoTaker, TransferEngine.BestOf, SenderWindow.SlotFree, Payload;
      GrownByStore(windows.pendings, 0, 0, []);
      StartedNone(windows.times, now);
      FactsBound(transfer.file, transfer.fragmentCount, transfer.nextFragment, windows.pendings, windows.wire, Exits());
      if transfer.nextFragment >= transfer.fragmentCount {
        return;
      }
      var s := transfer.nextFragment;
      var target := SelectMeshTarget(s);
      if target < 0 {
        return;
      }
      EligibleTakes(windows.pendings, transfer.alive, timers.windowCap, target, s);
      NotYetHeld(Now(), target);
      WinsMembers(windows.pendings, Exits(), target);
      FactsBound(transfer.file, transfer.fragmentCount, s, windows.pendings, windows.wire, Exits());
      var data := NextPayload(out.readOk);
      ghost var before, was := Now(), windows.pendings;
      var ret := SendTo(target, s, data, now, out.answer);
      if ret < 0 {
        assert Now() == before;
        return;
      }
      GrownByStore(was, target, s, data);
      Advance(target, data, now, was);
    }

    /** Bookkeeping after the transport took the next fragment through exit i. */
    method Advance(i: nat, data: seq<byte>, now: nat, ghost was: Pendings)
      requires Structure() && SessionOk() && transfer.active && i < Exits() && transfer.alive[i]
      requires encoder.group == GroupSoFar(transfer.file, transfer.nextFragment)
      requires Assigned(transfer.file, transfer.nextFragment, data) && |was| == MAX_EXIT_NODES && |was[i]| < WINDOW
      requires windows.pendings == Stored(was, i, transfer.nextFragment, data)
      requires Inv(Now().(win := Wins(was, Exits())))
      requires |firstSends| == transfer.nextFragment && PacingElapsed(now)
      requires Paced(firstSends, timers.hopsToExit, timers.lastFragSendMs)
      modifies this`transfer, this`timers, this`firstSends, encoder, encoder.parity
      ensures Valid() && transfer == old(transfer).(nextFragment := old(transfer).nextFragment + 1)
      ensures Now() == FirstSend(old(Now()).(win := Wins(was, Exits())), i)
      ensures timers == old(timers).(lastFragSendMs := now) && firstSends == old(firstSends) + [now]
    {
      hide Paced, ExitWindows.Valid, FecEncoder.Valid, Inv, SessionFacts, GroupSoFar, Total, Wins, Assigned;
      ghost var before := Now().(win := Wins(was, Exits()));
      FactsBound(transfer.file, transfer.fragmentCount, transfer.nextFragment, windows.pendings, windows.wire, Exits());
      AssignedBound(transfer.file, transfer.nextFragment, data);
      AdvanceEncoder(data);
      WinsStored(was, Exits(), i, transfer.nextFragment, data);
      WinsMembers(was, Exits(), i);
      FirstSendKeeps(before, i);
      FactsNext(transfer.file, transfer.fragmentCount, transfer.nextFragment, windows.pendings, windows.wire, Exits());
      transfer := transfer.(nextFragment := transfer.nextFragment + 1);
      PacedNext(firstSends, timers.hopsToExit, timers.lastFragSendMs, now);
      timers, firstSends := timers.(lastFragSendMs := now), firstSends + [now];
      assert Now() == FirstSend(before, i);
    }

    /** The payload of the next number: the running parity at a parity slot, else file bytes. */
    method NextPayload(readOk: bool) returns (data: seq<byte>)
      requires Structure() && transfer.nextFragment < Total(|transfer.file|, TRANSFER_FRAGMENT_SIZE, true)
      requires encoder.group == GroupSoFar(transfer.file, transfer.nextFragment)
      ensures if IsParity(transfer.nextFragment) || readOk then Assigned(transfer.file, transfer.nextFragment, data) && data != []
              else data == []
    {
      hide ExitWindows.Valid, Inv, SessionFacts, GroupSoFar, Total;
      var s := transfer.nextFragment;
      PayloadOf(transfer.file, s);
      if IsParity(s) {
        GroupCloses(transfer.file, s);
        data := encoder.Data();
        AssignedFits(transfer.file, s, data);
      } else {
        if DataIndex(s) * TRANSFER_FRAGMENT_SIZE >= |transfer.file| {
          assert false;
        }
        AssignedFits(transfer.file, s, Chunk(transfer.file, TRANSFER_FRAGMENT_SIZE, DataIndex(s)));
        data := ReadFragment(transfer.file, DataIndex(s), readOk);
      }
    }

    /** The accepted fragment enters the running parity; an accepted parity closes its group. */
    method AdvanceEncoder(data: seq<byte>)
      requires encoder.Valid() && transfer.nextFragment < Total(|transfer.file|, TRANSFER_FRAGMENT_SIZE, true)
      requires encoder.group == GroupSoFar(transfer.file, transfer.nextFragment)
      requires Assigned(transfer.file, transfer.nextFragment, data)
      modifies encoder, encoder.parity
      ensures encoder.Valid() && encoder.group == GroupSoFar(transfer.file, transfer.nextFragment + 1)
    {
      hide FecEncoder.Valid, GroupSoFar, Total;
      var s := transfer.nextFragment;
      PayloadOf(transfer.file, s);
      if IsParity(s) {
        GroupCloses(transfer.file, s);
        encoder.Reset();
      } else {
        GroupGrows(transfer.file, s);
        encoder.Ingest(data);
      }
    }

    /** The upload is declared done when everything was sent once and no alive exit has
        anything pending; numbers waiting for a new exit are not looked at. */
    method CheckUploadDone()
      requires Valid()
      modifies this`meshUploadDone
      ensures Valid() && Now() == old(Now())
      ensures meshUploadDone <==> old(meshUploadDone) || LooksDone(Now(), transfer.fragmentCount)
    {
      hide Paced, ExitWindows.Valid, FecEncoder.Valid, Inv, SessionFacts, GroupSoFar, Total;
      if transfer.nextFragment >= transfer.fragmentCount {
        for i := 0 to |transfer.alive|
          invariant meshUploadDone == old(meshUploadDone)
          invariant forall k :: 0 <= k < i && transfer.alive[k] ==> windows.pendings[k] == map[]
        {
          if !transfer.alive[i] {
            continue;
          }
          var used := windows.Used(i);
          if used > 0 {
            assert Now().win[i] == windows.pendings[i].Keys != {};
            return;
          }
        }
        meshUploadDone := true;
      }
    }

    // ---- Re-homing ----

    /** Tries to move number s, at position k of the waiting queue q, to exit target. */
    method TryRehome(s: nat, target: nat, now: nat, out: Outcome, ghost q: seq<nat>, ghost k: nat) returns (moved: bool)
      requires Structure() && SessionOk() && target < Exits() && transfer.alive[target]
      requires Inv(ViewWith(q)) && k < |q| && q[k] == s
      modifies windows.repr
      ensures Structure() && SessionOk() && Exits() == old(Exits())
      ensures moved <==> SenderWindow.SlotFree(old(windows.pendings)[target], SenderWindow.ARQ_WINDOW, s) && out.Ok()
      ensures !moved ==> ViewWith(q) == old(ViewWith(q)) && windows.wire == old(windows.wire) && windows.pendings == old(windows.pendings)
      ensures moved ==> ViewWith(RemoveAt(q, k)) == Rehome(old(ViewWith(q)), k, target) && windows.wire == old(windows.wire) + [Packet(s)]
      ensures moved ==> Inv(ViewWith(RemoveAt(q, k)))
      ensures Grown(old(windows.pendings), windows.pendings) && StartedAt(old(windows.times), windows.times, now)
    {
      hide StartedAt, Paced, ExitWindows.Valid, FecEncoder.Valid, Inv, SessionFacts;
      hide Total, Wins, Assigned, Grown, SenderWindow.SlotFree, Payload;
      StartedNone(windows.times, now);
      ghost var before, was := ViewWith(q), windows.pendings;
      GrownByStore(was, target, s, []);
      var can := windows.CanSend(target, s);
      if !can {
        return false;
      }
      WaitingIsData(before, k, target);
      WinsMembers(was, Exits(), target);
      FactsBound(transfer.file, transfer.fragmentCount, transfer.nextFragment, was, windows.wire, Exits());
      PayloadOf(transfer.file, s);
      AssignedFits(transfer.file, s, Chunk(transfer.file, TRANSFER_FRAGMENT_SIZE, DataIndex(s)));
      var got := ReadFragment(transfer.file, DataIndex(s), out.readOk);
      var ret := SendTo(target, s, got, now, out.answer);
      if ret < 0 {
        assert ViewWith(q) == before;
        return false;
      }
      GrownByStore(was, target, s, got);
      RehomeKeeps(before, k, target);
      WinsStored(was, Exits(), target, s, got);
      assert ViewWith(RemoveAt(q, k)) == Rehome(before, k, target);
      moved := true;
    }

    /** What waits while the queue is being compacted: the kept prefix and the unread rest. */
    ghost function Waiting(kept: nat, r: nat): seq<nat>
      requires kept <= r <= redistCount <= redistPending.Length
      reads this, redistPending
    {
      KeptAndRest(redistPending[..], kept, r, redistCount)
    }

    /** One round of the drain: entry r moves to an exit, exactly when one takes it and nothing
        outside fails, or slides down to position kept. */
    method OfferWaiting(r: nat, kept: nat, now: nat, out: Outcome) returns (kept': nat)
      requires Structure() && SessionOk() && kept <= r < redistCount
      requires Inv(ViewWith(Waiting(kept, r)))
      modifies windows.repr, redistPending
      ensures Structure() && SessionOk()
      ensures kept' <= r + 1 && Inv(ViewWith(Waiting(kept', r + 1)))
      ensures Drained(old(ViewWith(Waiting(kept, r))), ViewWith(Waiting(kept', r + 1)))
      ensures Grown(old(windows.pendings), windows.pendings)
      ensures if !old(Stuck(redistPending[r])) && out.Ok() then
                kept' == kept && windows.wire == old(windows.wire) + [Packet(old(redistPending[r]))]
              else
                && kept' == kept + 1 && redistPending[kept] == old(redistPending[r])
                && windows.wire == old(windows.wire) && windows.pendings == old(windows.pendings)
      ensures redistPending[..kept] == old(redistPending[..kept]) && StartedAt(old(windows.times), windows.times, now)
    {
      hide StartedAt, Paced, ExitWindows.Valid, FecEncoder.Valid, Inv, SessionFacts, Total;
      hide Wins, Drained, KeptAndRest, Grown, NoTaker, SenderWindow.SlotFree, Payload;
      StartedNone(windows.times, now);
      GrownByStore(windows.pendings, 0, 0, []);
      var s := redistPending[r];
      ghost var q, before := Waiting(kept, r), ViewWith(Waiting(kept, r));
      WaitingSteps(redistPending[..], kept, r, redistCount);
      var target := SelectMeshTarget(s);
      var moved := false;
      if target >= 0 {
        EligibleTakes(windows.pendings, transfer.alive, timers.windowCap, target, s);
        moved := TryRehome(s, target, now, out, q, kept);
      }
      DrainedRefl(before);
      if moved {
        DrainedStep(before, before, kept, target);
        kept' := kept;
      } else {
        ghost var entries := redistPending[..];
        redistPending[kept] := s;
        kept' := kept + 1;
        assert redistPending[..] == entries[kept := s];
        assert ViewWith(q) == before;
      }
    }

    /** Offers every waiting number to the surviving exits, keeping the rest in order. Unless
        the outside fails, no exit could take any of the rest afterwards. */
    method DrainRedist(now: nat, outs: nat -> Outcome)
      requires Valid() && transfer.active
      modifies windows.repr, redistPending, this`redistCount
      ensures Valid() && Drained(old(Now()), Now())
      ensures Calm(outs) ==> AllStuck(windows.pendings, transfer.alive, timers.windowCap, redistPending[..redistCount])
      ensures StartedAt(old(windows.times), windows.times, now)
    {
      hide StartedAt, Paced, ExitWindows.Valid, FecEncoder.Valid, Inv, SessionFacts, Total;
      hide Wins, GroupSoFar, Drained, NoTaker, Grown, Payload;
      StartedNone(windows.times, now);
      ghost var start, times := Now(), windows.times;
      var kept: nat, count := 0, redistCount;
      DrainedRefl(start);
      assert redistPending[..][..0] + redistPending[..][0..redistCount] == redistPending[..redistCount];
      for r := 0 to count
        invariant Structure() && SessionOk() && redistCount == count
        invariant kept <= r && Inv(ViewWith(Waiting(kept, r)))
        invariant Drained(start, ViewWith(Waiting(kept, r))) && StartedAt(times, windows.times, now)
        invariant Calm(outs) ==> AllStuck(windows.pendings, transfer.alive, timers.windowCap, redistPending[..kept])
      {
        ghost var before, was, started := ViewWith(Waiting(kept, r)), windows.pendings, windows.times;
        ghost var done := redistPending[..kept];
        kept := OfferWaiting(r, kept, now, outs(r));
        StartedBoth(times, started, windows.times, now);
        if Calm(outs) {
          AllStuckStays(was, windows.pendings, transfer.alive, timers.windowCap, done);
        }
        DrainedTrans(start, before, ViewWith(Waiting(kept, r + 1)));
      }
      assert redistPending[..][..kept] + redistPending[..][count..count] == redistPending[..kept];
      redistCount := kept;
    }

    // ---- Exit death ----

    /** The first exit still alive, or -1. */
    method FirstAlive() returns (idx: int)
      requires Structure()
      ensures -1 <= idx < Exits()
      ensures idx >= 0 ==> transfer.alive[idx]
      ensures idx == -1 <==> forall i :: 0 <= i < Exits() ==> !transfer.alive[i]
    {
      hide ExitWindows.Valid, FecEncoder.Valid;
      for i := 0 to |transfer.alive|
        invariant forall k :: 0 <= k < i ==> !transfer.alive[k]
      {
        if transfer.alive[i] {
          return i;
        }
      }
      return -1;
    }

    /** Marks exit d dead and empties its window; what it held is listed in ascending order. */
    method Bury(d: nat) returns (pending: seq<nat>)
      requires Valid() && transfer.active && d < Exits() && transfer.alive[d]
      modifies windows.repr, this`transfer
      ensures Structure() && SessionOk() && transfer == old(transfer).(alive := old(transfer).alive[d := false])
      ensures windows.times == old(windows.times)[d := NoTimes]
      ensures NoDup(pending) && OrphansOf(old(Now()), d, DataOnly(pending)) && StrictlyAscending(DataOnly(pending))
      ensures forall q :: ViewWith(old(Now()).queue + q) == Die(old(Now()), d, q)
    {
      hide Paced, ExitWindows.Valid, FecEncoder.Valid, Inv, SessionFacts, Total, Wins, GroupSoFar;
      ghost var before, was := Now(), windows.pendings;
      pending := windows.Snapshot(d);
      DataOnlyMembers(pending);
      DataOnlyAscends(pending);
      WinsMembers(was, Exits(), d);
      windows.Reset(d);
      var none: map<nat, seq<byte>> := map[];
      FactsAfterRemoval(transfer.file, transfer.fragmentCount, transfer.nextFragment, was, windows.wire, Exits(), d, none);
      WinsReset(was, Exits(), d);
      transfer := transfer.(alive := transfer.alive[d := false]);
    }

    /** A number that no survivor can take now joins the waiting queue, which has room. */
    method Enqueue(s: nat, ghost rest: seq<nat>)
      requires Structure() && SessionOk() && SomeAlive(Now())
      requires Inv(ViewWith(redistPending[..redistCount] + [s] + rest))
      modifies redistPending, this`redistCount
      ensures Structure() && SessionOk() && redistCount == old(redistCount) + 1
      ensures redistPending[..redistCount] == old(redistPending[..redistCount]) + [s]
      ensures windows.pendings == old(windows.pendings) && windows.times == old(windows.times)
      ensures ViewWith(redistPending[..redistCount] + rest) == old(ViewWith(redistPending[..redistCount] + [s] + rest))
    {
      hide Paced, ExitWindows.Valid, FecEncoder.Valid, Inv, SessionFacts, Total, Wins;
      QueueHasRoom(ViewWith(redistPending[..redistCount] + [s] + rest));
      if redistCount < REDIST_CAPACITY {
        redistPending[redistCount] := s;
        redistCount := redistCount + 1;
      } else {
        assert false;
      }
    }

    /** An exit died: its data numbers move to the survivors or wait for one, in ascending
        order, and none is lost while an exit survives. Its parity numbers are given up. Unless
        the outside fails, only what no survivor can take has to wait. */
    method RedistributeDeadExit(d: nat, now: nat, outs: nat -> Outcome)
      requires Valid() && transfer.active && d < Exits() && transfer.alive[d]
      modifies windows.repr, redistPending, this`transfer, this`redistCount
      ensures Valid() && transfer == old(transfer).(alive := old(transfer).alive[d := false])
      ensures HandedOver(old(Now()), Now(), d)
      ensures Calm(outs) ==> StuckFrom(windows.pendings, transfer.alive, timers.windowCap, Now().queue, |old(Now()).queue|)
      ensures StartedAt(old(windows.times), windows.times, now)
    {
      hide StartedAt, Paced, ExitWindows.Valid, FecEncoder.Valid, Inv, SessionFacts, Total;
      hide Wins, GroupSoFar, HandedOver, OrphansOf, NoTaker, Grown, StuckFrom;
      StartedOne(windows.times, d, 0, now);
      ghost var before, queue, times := Now(), redistPending[..redistCount], windows.times;
      var pending := Bury(d);
      ghost var buried := windows.times;
      var firstAlive := FirstAlive();
      if firstAlive < 0 {
        assert queue + [] == queue;
        LastDieKeeps(before, d);
        HandedOverLast(before, d);
        NothingStuck(windows.pendings, transfer.alive, timers.windowCap, queue);
        return;
      }
      ghost var orphans := DataOnly(pending);
      DieKeeps(before, d, orphans);
      HandedOverDie(before, d, orphans);
      SettleOrphans(pending, firstAlive, now, outs, before, d);
      StartedBoth(times, buried, windows.times, now);
    }

    /** The data numbers that a dead exit held, one after the other. */
    method SettleOrphans(pending: seq<nat>, firstAlive: nat, now: nat, outs: nat -> Outcome, ghost before: View, ghost d: nat)
      requires Structure() && SessionOk() && firstAlive < Exits() && transfer.alive[firstAlive]
      requires d < |before.win| == Exits() == |before.alive| && OrphansOf(before, d, DataOnly(pending)) && !transfer.alive[d]
      requires Inv(ViewWith(redistPending[..redistCount] + DataOnly(pending)))
      requires HandedOver(before, ViewWith(redistPending[..redistCount] + DataOnly(pending)), d)
      requires before.queue == redistPending[..redistCount]
      modifies windows.repr, redistPending, this`redistCount
      ensures Structure() && SessionOk() && Inv(Now()) && HandedOver(before, Now(), d)
      ensures Calm(outs) ==> StuckFrom(windows.pendings, transfer.alive, timers.windowCap, Now().queue, |before.queue|)
      ensures StartedAt(old(windows.times), windows.times, now)
    {
      hide ExitWindows.Valid, FecEncoder.Valid, Inv, SessionFacts, Total, Wins;
      hide HandedOver, OrphansOf, NoTaker, Grown, StuckFrom, StartedAt;
      ghost var queue, orphans, times := redistPending[..redistCount], DataOnly(pending), windows.times;
      StartedNone(times, now);
      assert pending[0..] == pending;
      NothingStuck(windows.pendings, transfer.alive, timers.windowCap, queue);
      for p := 0 to |pending|
        modifies windows.repr, redistPending, this`redistCount
        invariant Structure() && SessionOk() && StartedAt(times, windows.times, now)
        invariant queue <= redistPending[..redistCount]
        invariant Calm(outs) ==> StuckFrom(windows.pendings, transfer.alive, timers.windowCap, redistPending[..redistCount], |queue|)
        invariant Inv(ViewWith(redistPending[..redistCount] + DataOnly(pending[p..])))
        invariant HandedOver(before, ViewWith(redistPending[..redistCount] + DataOnly(pending[p..])), d)
      {
        DataOnlyStep(pending, p);
        ghost var rest := DataOnly(pending[p + 1..]);
        if IsParity(pending[p]) {
          assert DataOnly(pending[p..]) == rest;
          continue;
        }
        assert redistPending[..redistCount] + DataOnly(pending[p..]) == redistPending[..redistCount] + [pending[p]] + rest;
        ghost var was, waiting := windows.pendings, redistPending[..redistCount];
        ghost var v, started := ViewWith(waiting + [pending[p]] + rest), windows.times;
        ghost var settled, to := SettleOrphan(pending[p], firstAlive, now, outs(p), rest);
        StartedBoth(times, started, windows.times, now);
        if settled {
          HandedOverRehome(before, v, d, |waiting|, to, orphans);
        }
        if Calm(outs) {
          StuckFromNext(was, windows.pendings, transfer.alive, timers.windowCap, waiting, |queue|, pending[p], settled);
        }
      }
      assert redistPending[..redistCount] + DataOnly([]) == redistPending[..redistCount];
    }

    /** One orphan: the selected survivor, else the first one, else the queue. */
    method SettleOrphan(s: nat, firstAlive: nat, now: nat, out: Outcome, ghost rest: seq<nat>) returns (ghost settled: bool, ghost to: nat)
      requires Structure() && SessionOk() && firstAlive < Exits() && transfer.alive[firstAlive]
      requires Inv(ViewWith(redistPending[..redistCount] + [s] + rest))
      modifies windows.repr, redistPending, this`redistCount
      ensures Structure() && SessionOk()
      ensures Inv(ViewWith(redistPending[..redistCount] + rest))
      ensures redistPending[..redistCount] == old(redistPending[..redistCount]) + if settled then [] else [s]
      ensures !settled ==> ViewWith(redistPending[..redistCount] + rest) == old(ViewWith(redistPending[..redistCount] + [s] + rest))
      ensures settled ==> to < Exits() && transfer.alive[to] &&
                          ViewWith(redistPending[..redistCount] + rest) ==
                          Rehome(old(ViewWith(redistPending[..redistCount] + [s] + rest)), old(redistCount), to)
      ensures Grown(old(windows.pendings), windows.pendings) && (out.Ok() ==> settled || Stuck(s))
      ensures StartedAt(old(windows.times), windows.times, now)
    {
      hide StartedAt, Paced, ExitWindows.Valid, FecEncoder.Valid, Inv, SessionFacts;
      hide Total, Wins, Grown, NoTaker, SenderWindow.SlotFree;
      ghost var queue := redistPending[..redistCount];
      var moved;
      moved, to := PlaceOrphan(s, firstAlive, now, out, queue + [s] + rest, redistCount);
      settled := moved;
      if moved {
        assert RemoveAt(queue + [s] + rest, |queue|) == queue + rest;
      } else {
        assert Now().alive[firstAlive];
        Enqueue(s, rest);
      }
    }

    /** Offers number s, at position k of the queue q, to the selected survivor or the first. */
    method PlaceOrphan(s: nat, firstAlive: nat, now: nat, out: Outcome, ghost q: seq<nat>, ghost k: nat) returns (moved: bool, ghost to: nat)
      requires Structure() && SessionOk() && firstAlive < Exits() && transfer.alive[firstAlive]
      requires Inv(ViewWith(q)) && k < |q| && q[k] == s
      modifies windows.repr
      ensures Structure() && SessionOk()
      ensures !moved ==> ViewWith(q) == old(ViewWith(q)) && (out.Ok() ==> Stuck(s))
      ensures moved ==> to < Exits() && transfer.alive[to] && ViewWith(RemoveAt(q, k)) == Rehome(old(ViewWith(q)), k, to)
      ensures moved ==> Inv(ViewWith(RemoveAt(q, k)))
      ensures Grown(old(windows.pendings), windows.pendings) && StartedAt(old(windows.times), windows.times, now)
    {
      hide StartedAt, Paced, ExitWindows.Valid, FecEncoder.Valid, Inv, SessionFacts;
      hide Total, Wins, Grown, NoTaker, SenderWindow.SlotFree;
      ghost var was := windows.pendings;
      var target := SelectMeshTarget(s);
      ghost var stuck := target < 0;
      if target < 0 {
        target := firstAlive;
      }
      to := target;
      if !stuck {
        EligibleTakes(was, transfer.alive, timers.windowCap, target, s);
      }
      moved := TryRehome(s, target, now, out, q, k);
      if stuck {
        NoTakerStays(was, windows.pendings, transfer.alive, timers.windowCap, s);
      }
    }

    /** Exits that hold something but have been silent for too long are given up. */
    method ExitNodeHealthTick(now: nat, outs: (nat, nat) -> Outcome)
      requires Valid()
      modifies windows.repr, redistPending, this`transfer, this`redistCount
      ensures Valid() && transfer == old(transfer).(alive := transfer.alive)
      ensures OnlySilentDie(old(transfer), transfer.alive, now, old(timers.exitTimeoutMs))
      ensures old(transfer).active ==>
                Checked(old(transfer), old(Now()), Now(), now, old(timers.exitTimeoutMs), |transfer.alive|)
      ensures StartedAt(old(windows.times), windows.times, now)
    {
      hide StartedAt, Paced, ExitWindows.Valid, FecEncoder.Valid, Inv, SessionFacts, Total;
      hide Wins, GroupSoFar, HandedOver, OnlySilentDie, Checked, Overdue;
      NobodyDies(transfer, now, timers.exitTimeoutMs);
      StartedNone(windows.times, now);
      CheckedNone(transfer, Now(), now, timers.exitTimeoutMs);
      if !transfer.active {
        return;
      }
      var timeout := timers.exitTimeoutMs;
      var n := |transfer.alive|;
      ghost var times := windows.times;
      for i := 0 to n
        invariant StartedAt(times, windows.times, now)
        invariant Valid() && transfer == old(transfer).(alive := transfer.alive) && |transfer.alive| == n
        invariant OnlySilentDie(old(transfer), transfer.alive, now, timeout)
        invariant Checked(old(transfer), old(Now()), Now(), now, timeout, i)
      {
        ghost var before, started := Now(), windows.times;
        CheckExit(i, now, timeout, (k: nat) => outs(i, k), old(transfer));
        StartedBoth(times, started, windows.times, now);
        CheckedNext(old(transfer), old(Now()), before, Now(), now, timeout, i);
      }
    }

    /** An exit that acknowledged a number it held survives a check of its health until the timeout
        has passed since then. The check does its work on what was heard by then. */
    method AcknowledgedExitSurvives(s: nat, from: nat, acked: nat, now: nat, outs: (nat, nat) -> Outcome)
      returns (ghost heard: ActiveTransfer, ghost v: View)
      requires Valid()
      modifies windows.repr, redistPending, this`transfer, this`redistCount, this`retired
      ensures Valid() && |transfer.alive| == |old(transfer).alive|
      ensures now - acked <= timers.exitTimeoutMs ==>
                forall i: nat :: i < Exits() && old(transfer).exitNodes[i] == from && s in old(Now()).win[i] && old(transfer).alive[i] ==>
                  transfer.alive[i]
      ensures old(transfer).active ==>
                heard == old(transfer).(lastAckMs := heard.lastAckMs) && Checked(heard, v, Now(), now, timers.exitTimeoutMs, |transfer.alive|)
    {
      hide StartedAt, Paced, ExitWindows.Valid, FecEncoder.Valid, Inv, SessionFacts, Total, Wins, GroupSoFar, Checked;
      HandleAck(s, from, acked);
      heard, v := transfer, Now();
      ExitNodeHealthTick(now, outs);
    }

    method CheckExit(i: nat, now: nat, timeout: nat, outs: nat -> Outcome, ghost start: ActiveTransfer)
      requires Valid() && transfer.active && i < Exits() && transfer == start.(alive := transfer.alive)
      requires OnlySilentDie(start, transfer.alive, now, timeout)
      modifies windows.repr, redistPending, this`transfer, this`redistCount
      ensures Valid() && transfer == start.(alive := transfer.alive) && |transfer.alive| == |old(transfer.alive)|
      ensures OnlySilentDie(start, transfer.alive, now, timeout)
      ensures if Overdue(start, old(Now()), i, now, timeout) then HandedOver(old(Now()), Now(), i) else Now() == old(Now())
      ensures StartedAt(old(windows.times), windows.times, now)
    {
      hide StartedAt, Paced, ExitWindows.Valid, FecEncoder.Valid, Inv, SessionFacts, Total, Wins, GroupSoFar, HandedOver;
      WinsMembers(windows.pendings, Exits(), i);
      StartedNone(windows.times, now);
      if !transfer.alive[i] {
        return;
      }
      var used := windows.Used(i);
      if used == 0 {
        assert windows.pendings[i] == map[] && Now().win[i] == {};
        return;
      }
      assert windows.pendings[i] != map[] && Now().win[i] != {};
      if now - transfer.lastAckMs[i] > timeout {
        RedistributeDeadExit(i, now, outs);
      }
    }

    /** The index of the alive exit with this address, or -1. */
    method AliveIndexForPeer(addr: nat) returns (idx: int)
      requires Structure()
      ensures -1 <= idx < Exits()
      ensures idx >= 0 ==> transfer.exitNodes[idx] == addr && transfer.alive[idx]
      ensures idx == -1 ==> forall k :: 0 <= k < Exits() ==> !(transfer.exitNodes[k] == addr && transfer.alive[k])
    {
      hide ExitWindows.Valid, FecEncoder.Valid;
      for i := 0 to |transfer.alive|
        invariant forall k :: 0 <= k < i ==> !(transfer.exitNodes[k] == addr && transfer.alive[k])
      {
        if transfer.exitNodes[i] == addr && transfer.alive[i] {
          return i;
        }
      }
      return -1;
    }

    /** An exit announced that it goes offline: it is buried if it is one of ours and alive. */
    method HandleExitOffline(addr: nat, session: nat, now: nat, outs: nat -> Outcome) returns (ghost d: int)
      requires Valid()
      modifies windows.repr, redistPending, this`transfer, this`redistCount
      ensures Valid()
      ensures d == -1 ==> transfer == old(transfer) && Now() == old(Now())
      ensures d != -1 ==>
                && old(transfer).active && (session == 0 || session == old(transfer).sessionId)
                && 0 <= d < |old(transfer).alive| && old(transfer).exitNodes[d] == addr && old(transfer).alive[d]
                && transfer == old(transfer).(alive := transfer.alive) && |transfer.alive| == |old(transfer).alive|
                && HandedOver(old(Now()), Now(), d)
                && (Calm(outs) ==> StuckFrom(windows.pendings, transfer.alive, timers.windowCap, Now().queue, |old(Now()).queue|))
      ensures d == -1 && old(transfer).active && (session == 0 || session == old(transfer).sessionId) ==>
                forall k :: 0 <= k < |old(transfer).alive| ==> !(old(transfer).exitNodes[k] == addr && old(transfer).alive[k])
      ensures StartedAt(old(windows.times), windows.times, now)
    {
      hide StartedAt, Paced, ExitWindows.Valid, FecEncoder.Valid, Inv, SessionFacts;
      hide Total, Wins, GroupSoFar, HandedOver, StuckFrom, Calm;
      d := -1;
      StartedNone(windows.times, now);
      if !transfer.active {
        return;
      }
      if session != 0 && session != transfer.sessionId {
        return;
      }
      var idx := AliveIndexForPeer(addr);
      if idx >= 0 {
        d := idx;
        RedistributeDeadExit(idx, now, outs);
      }
    }

    // ---- The periodic tick ----

    /** Some elected window has run out of retries. */
    ghost predicate SomeFailed()
      requires Structure()
      reads this, repr
    {
      exists k :: 0 <= k < Exits() && windows.arq[k].senderFailed
    }

    /** How many retransmissions each window has to make at now. */
    ghost function DueCounts(now: nat): (due: seq<nat>)
      requires Structure()
      reads this, repr
      ensures |due| == MAX_EXIT_NODES
    {
      [windows.DueCount(0, now), windows.DueCount(1, now), windows.DueCount(2, now), windows.DueCount(3, now)]
    }

    /** Timeout retransmissions of all alive exits under one budget of four; a window that ran
        out of retries aborts the transfer. Unless the transport refuses, as many fragments as
        are due at the alive exits leave, four at the most. */
    method TickWindows(now: nat, answers: (nat, nat) -> int)
      requires Valid() && transfer.active
      modifies repr
      ensures Valid()
      ensures if old(SomeFailed()) then transfer == Idle
              else
                && transfer == old(transfer) && Now() == old(Now()) && meshUploadDone == old(meshUploadDone)
                && timers == old(timers) && firstSends == old(firstSends)
                && StartedAt(old(windows.times), windows.times, now)
                && old(windows.wire) <= windows.wire
                && |windows.wire| <= |old(windows.wire)| + Least(TICK_BUDGET, SumAlive(old(DueCounts(now)), transfer.alive, Exits()))
                && ((forall i, k :: answers(i, k) >= 0) ==>
                      |windows.wire| == |old(windows.wire)| + Least(TICK_BUDGET, SumAlive(old(DueCounts(now)), transfer.alive, Exits())))
    {
      hide StartedAt, Paced, ExitWindows.Valid, FecEncoder.Valid, Inv;
      hide SessionFacts, Total, Wins, GroupSoFar, ExitWindows.DueCount;
      windows.FourWindows();
      ghost var due, start, times := DueCounts(now), windows.wire, windows.times;
      StartedNone(times, now);
      var budget := TICK_BUDGET;
      for i := 0 to |transfer.alive|
        invariant Valid() && transfer == old(transfer) && Now() == old(Now()) && meshUploadDone == old(meshUploadDone)
        invariant timers == old(timers) && firstSends == old(firstSends) && StartedAt(times, windows.times, now)
        invariant 0 <= budget <= TICK_BUDGET && start <= windows.wire && |windows.wire| == |start| + TICK_BUDGET - budget
        invariant TICK_BUDGET - budget <= SumAlive(due, transfer.alive, i)
        invariant (forall j, k :: answers(j, k) >= 0) ==> TICK_BUDGET - budget == Least(TICK_BUDGET, SumAlive(due, transfer.alive, i))
        invariant forall k: nat :: i <= k < MAX_EXIT_NODES ==> windows.DueCount(k, now) == due[k]
        invariant forall k :: 0 <= k < MAX_EXIT_NODES ==> windows.arq[k].senderFailed == old(windows.arq[k].senderFailed)
      {
        if budget == 0 {
          SumAliveGrows(due, transfer.alive, i, |transfer.alive|);
          break;
        }
        if !transfer.alive[i] {
          continue;
        }
        ghost var started := windows.times;
        var sent := TickWindow(i, budget, now, (k: nat) => answers(i, k));
        StartedBoth(times, started, windows.times, now);
        budget := if sent >= budget then 0 else budget - sent;
      }
      var failed := AnyFailed();
      if failed {
        ResetSenderTransferState();
      }
    }

    method AnyFailed() returns (failed: bool)
      requires Structure()
      ensures failed <==> SomeFailed()
    {
      hide Paced, ExitWindows.Valid, FecEncoder.Valid, Inv, SessionFacts, Total, Wins, GroupSoFar;
      windows.FourWindows();
      for i := 0 to |transfer.alive|
        invariant forall k :: 0 <= k < i ==> !windows.arq[k].senderFailed
      {
        failed := windows.Failed(i);
        if failed {
          return;
        }
      }
      failed := false;
    }

    method TickWindow(i: nat, budget: nat, now: nat, answers: nat -> int) returns (sent: nat)
      requires Valid() && i < Exits()
      modifies windows.repr
      ensures Valid() && Now() == old(Now()) && sent <= budget
      ensures forall k :: 0 <= k < MAX_EXIT_NODES ==> windows.arq[k].senderFailed == old(windows.arq[k].senderFailed)
      ensures forall k: nat :: k < MAX_EXIT_NODES && k != i ==> windows.DueCount(k, now) == old(windows.DueCount(k, now))
      ensures old(windows.wire) <= windows.wire && |windows.wire| == |old(windows.wire)| + sent
      ensures sent <= old(windows.DueCount(i, now)) && (sent == budget || sent == old(windows.DueCount(i, now)) || answers(sent) < 0)
      ensures StartedAt(old(windows.times), windows.times, now)
    {
      hide StartedAt, Restarts, Paced, ExitWindows.Valid, FecEncoder.Valid, Inv;
      hide SessionFacts, Total, Wins, GroupSoFar, ExitWindows.DueCount;
      windows.FourWindows();
      ghost var wire, times := windows.wire, windows.times;
      sent := windows.Tick(i, budget, now, answers);
      StartedAgain(times, windows.times, i, now);
      FactsAfterResend(transfer.file, transfer.fragmentCount, transfer.nextFragment, windows.pendings, wire, Exits(), i, windows.wire[|wire|..]);
      assert windows.wire == wire + windows.wire[|wire|..];
      assert Now() == old(Now());
    }

    /** One tick of the mesh path: abort without survivors, else drain the waiting queue, send
        at most one new fragment and test for the end of the upload. Once the upload counts as
        done, or while 32 or more numbers wait for their out-of-window retransmission, nothing
        happens; within the pacing interval no new fragment goes out. A tick that is not held back by a backlog, the
        pacing or the outside makes all the progress there is: what waits cannot be taken by
        anyone, and a fragment was sent unless all were or nobody can. */
    method TickMeshArq(now: nat, outOfWindowBacklog: nat, outs: nat -> Outcome, next: Outcome)
      requires Valid() && transfer.active
      modifies repr
      ensures Valid()
      ensures old(Exits()) > 0 && !SomeAlive(old(Now())) ==> transfer == Idle
      ensures old(Exits()) == 0 || SomeAlive(old(Now())) ==>
                && transfer == old(transfer).(nextFragment := transfer.nextFragment) && retired == old(retired)
                && old(transfer).nextFragment <= transfer.nextFragment <= old(transfer).nextFragment + 1
                && timers == old(timers).(lastFragSendMs := timers.lastFragSendMs)
                && firstSends == (if transfer.nextFragment > old(transfer).nextFragment then old(firstSends) + [now] else old(firstSends))
                && StartedAt(old(windows.times), windows.times, now)
      ensures SomeAlive(old(Now())) && now - old(timers).lastFragSendMs < 15 + 5 * old(timers).hopsToExit ==>
                transfer == old(transfer) && timers == old(timers) && meshUploadDone == old(meshUploadDone)
      ensures SomeAlive(old(Now())) && (old(meshUploadDone) || outOfWindowBacklog >= 32) ==>
                && transfer == old(transfer) && timers == old(timers) && meshUploadDone == old(meshUploadDone)
                && Now() == old(Now()) && windows.wire == old(windows.wire)
      ensures meshUploadDone ==> old(meshUploadDone) || LooksDone(Now(), transfer.fragmentCount)
      ensures SomeAlive(old(Now())) && !old(meshUploadDone) && outOfWindowBacklog < 32 && Calm(outs) && next.Ok() ==>
                && AllStuck(windows.pendings, transfer.alive, timers.windowCap, redistPending[..redistCount])
                && (now - old(timers).lastFragSendMs >= 15 + 5 * old(timers).hopsToExit ==>
                      transfer.nextFragment > old(transfer).nextFragment || transfer.nextFragment == transfer.fragmentCount ||
                      Stuck(transfer.nextFragment))
      ensures SomeAlive(old(Now())) && outOfWindowBacklog < 32 && now - old(timers).lastFragSendMs >= 15 + 5 * old(timers).hopsToExit ==>
                (meshUploadDone <==> old(meshUploadDone) || LooksDone(Now(), transfer.fragmentCount))
    {
      hide StartedAt, Paced, ExitWindows.Valid, FecEncoder.Valid, Inv, SessionFacts, Total, Wins, GroupSoFar, NoTaker, Calm;
      StartedNone(windows.times, now);
      if |transfer.alive| == 0 {
        return;
      }
      var firstAlive := FirstAlive();
      if firstAlive < 0 {
        ResetSenderTransferState();
        return;
      }
      assert Now().alive[firstAlive];
      if outOfWindowBacklog >= 32 {
        return;
      }
      if meshUploadDone {
        return;
      }
      FeedWindows(now, outs, next);
    }

    /** The waiting queue, then at most one new fragment, then the test for the end. */
    method FeedWindows(now: nat, outs: nat -> Outcome, next: Outcome)
      requires Valid() && transfer.active
      modifies windows.repr, redistPending, this`redistCount, this`transfer, this`timers, this`firstSends, this`meshUploadDone
      modifies encoder, encoder.parity
      ensures Valid()
      ensures transfer == old(transfer).(nextFragment := transfer.nextFragment)
      ensures old(transfer).nextFragment <= transfer.nextFragment <= old(transfer).nextFragment + 1
      ensures timers == old(timers).(lastFragSendMs := timers.lastFragSendMs)
      ensures firstSends == old(firstSends) + if transfer.nextFragment > old(transfer).nextFragment then [now] else []
      ensures !old(PacingElapsed(now)) ==> transfer == old(transfer) && timers == old(timers) && meshUploadDone == old(meshUploadDone)
      ensures meshUploadDone ==> old(meshUploadDone) || LooksDone(Now(), transfer.fragmentCount)
      ensures Calm(outs) ==> AllStuck(windows.pendings, transfer.alive, timers.windowCap, redistPending[..redistCount])
      ensures old(PacingElapsed(now)) ==>
                && (next.Ok() ==>
                      transfer.nextFragment > old(transfer).nextFragment || transfer.nextFragment == transfer.fragmentCount ||
                      Stuck(transfer.nextFragment))
                && (meshUploadDone <==> old(meshUploadDone) || LooksDone(Now(), transfer.fragmentCount))
      ensures StartedAt(old(windows.times), windows.times, now)
    {
      hide StartedAt, Paced, ExitWindows.Valid, FecEncoder.Valid, Inv, SessionFacts;
      hide Total, Wins, GroupSoFar, NoTaker, Grown, Calm;
      StartedNone(windows.times, now);
      ghost var times := windows.times;
      if redistCount > 0 {
        DrainRedist(now, outs);
      }
      if !PacingElapsed(now) {
        return;
      }
      ghost var was, waiting, cap := windows.pendings, redistPending[..redistCount], timers.windowCap;
      FactsBound(transfer.file, transfer.fragmentCount, transfer.nextFragment, windows.pendings, windows.wire, Exits());
      ghost var drained := windows.times;
      SendNew(now, next);
      StartedBoth(times, drained, windows.times, now);
      if Calm(outs) {
        AllStuckStays(was, windows.pendings, transfer.alive, cap, waiting);
      }
      CheckUploadDone();
    }

    predicate PacingElapsed(now: nat)
      reads this
    {
      now - timers.lastFragSendMs >= PACING_BASE_MS + PACING_PER_HOP_MS * timers.hopsToExit
    }
  }

  /** When the upload counts as done, everything was delivered iff nothing waits any more. */
  lemma DoneMeansDeliveredIffNothingWaits(v: View, count: nat)
    requires Inv(v) && SomeAlive(v) && v.next == count && LooksDone(v, count)
    ensures (forall s: nat :: s < count && !IsParity(s) ==> s in v.retired) <==> v.queue == []
  {
    forall s: nat | s < count && !IsParity(s) && s !in v.retired
      ensures s in v.queue
    {
      assert Held(v, s);
    }
    if v.queue != [] {
      assert v.queue[0] in v.queue;
    }
  }

  lemma FirstSendIsStep(v: View, i: nat)
    requires i < |v.win| == |v.alive| && v.alive[i] && |v.win[i]| < WINDOW
    ensures Step(v, FirstSend(v, i))
  {
  }

  lemma DeathIsStep(v: View, i: nat, orphans: seq<nat>)
    requires i < |v.win| == |v.alive| && v.alive[i] && OrphansOf(v, i, orphans)
    ensures Step(v, Die(v, i, orphans))
  {
  }

  /** The two can come apart: with two exits and a one-fragment file, the first exit dies
      holding the fragment, the transport refuses to re-home it, and the upload counts as done
      while the fragment still waits. */
  lemma DoneWithFragmentWaiting() returns (run: seq<View>)
    ensures Run(run, 2)
    ensures var v := run[|run| - 1];
            Inv(v) && SomeAlive(v) && LooksDone(v, 1) && v.queue == [0] && 0 !in v.retired
  {
    hide Inv, Step;
    var a := Elected(2);
    var b := FirstSend(a, 0);
    var c := Die(b, 0, [0]);
    run := [a, b, c];
    assert a.alive[0] && b.alive[0] && c.alive[1];
    ElectedOk(2);
    FirstSendIsStep(a, 0);
    FirstSendKeeps(a, 0);
    assert OrphansOf(b, 0, [0]);
    DeathIsStep(b, 0, [0]);
    DieKeeps(b, 0, [0]);
  }
}
