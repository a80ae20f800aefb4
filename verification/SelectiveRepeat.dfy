/** The sender half of the firmware's selective-repeat window: 64 slots addressed by
    sequence number modulo the window size, refining a finite map from pending sequence
    numbers to payloads. */
module SenderWindow {
  import opened Bytes
  import opened Outside
  import Rto
  import opened Sorting
  import opened Counting

  const ARQ_WINDOW := 64
  const ESPNOW_MAX_PAYLOAD := 1462
  const NO_TAG := 0xFFFF
  const SEND_OK := 0
  const SEND_FAILED := -1
  const SEND_BACKPRESSURE := -2

  datatype FragmentSlot = FragmentSlot(
    data: seq<byte>, sendTime: nat, tag: nat, acked: bool, sent: bool, retries: nat)

  const ClearSlot := FragmentSlot([], 0, NO_TAG, false, false, 0)

  function SlotIndex(s: nat, size: nat): (i: nat)
    requires size > 0
    ensures i < size
  {
    s % size
  }

  /** The slots hold exactly the pending fragments, each where its number says. */
  ghost predicate Refines(slots: seq<FragmentSlot>, size: nat, pending: map<nat, seq<byte>>) {
    && |slots| == ARQ_WINDOW && 0 < size <= ARQ_WINDOW
    && (forall i :: 0 <= i < ARQ_WINDOW && !slots[i].sent ==> slots[i] == ClearSlot)
    && (forall i :: 0 <= i < ARQ_WINDOW && slots[i].sent ==>
          && i < size && slots[i].tag < NO_TAG && SlotIndex(slots[i].tag, size) == i && !slots[i].acked
          && 0 < |slots[i].data| <= ESPNOW_MAX_PAYLOAD && slots[i].retries < 256
          && slots[i].tag in pending && pending[slots[i].tag] == slots[i].data)
    && (forall s :: s in pending ==> s < NO_TAG && slots[SlotIndex(s, size)].sent && slots[SlotIndex(s, size)].tag == s)
  }

  ghost predicate RetriesBounded(slots: seq<FragmentSlot>) {
    forall i :: 0 <= i < |slots| ==> slots[i].retries <= Rto.MAX_RETRIES
  }

  /** base is the least pending number, or next when nothing is pending. */
  ghost predicate IsBase(base: nat, next: nat, pending: map<nat, seq<byte>>) {
    if pending == map[] then base == next
    else base in pending && forall s :: s in pending ==> base <= s
  }

  function SentCount(slots: seq<FragmentSlot>, n: nat): nat
    requires n <= |slots|
  {
    if n == 0 then 0 else SentCount(slots, n - 1) + if slots[n - 1].sent then 1 else 0
  }

  function PendingBelow(slots: seq<FragmentSlot>, n: nat): set<nat>
    requires n <= |slots|
  {
    if n == 0 then {} else PendingBelow(slots, n - 1) + if slots[n - 1].sent then {slots[n - 1].tag} else {}
  }

  lemma SlotOwner(slots: seq<FragmentSlot>, size: nat, pending: map<nat, seq<byte>>, i: nat)
    requires Refines(slots, size, pending) && i < size
    ensures slots[i].sent ==> slots[i].tag in pending
    ensures forall s :: s in pending ==> (SlotIndex(s, size) == i <==> slots[i].sent && s == slots[i].tag)
  {
    hide SlotIndex;
  }

  /** No other pending number occupies the slot of s. */
  ghost predicate SlotFree(pending: map<nat, seq<byte>>, size: nat, s: nat)
    requires size > 0
  {
    forall p :: p in pending && SlotIndex(p, size) == SlotIndex(s, size) ==> p == s
  }

  /** A free slot is free for its number, an occupied one only for its own. */
  lemma SlotIsFree(slots: seq<FragmentSlot>, size: nat, pending: map<nat, seq<byte>>, s: nat)
    requires Refines(slots, size, pending) && |slots| == ARQ_WINDOW && 0 < size <= ARQ_WINDOW
    ensures SlotFree(pending, size, s) <==> !slots[SlotIndex(s, size)].sent || slots[SlotIndex(s, size)].tag == s
  {
  }

  /** What the slot of number s says about s. */
  lemma SlotTells(slots: seq<FragmentSlot>, size: nat, pending: map<nat, seq<byte>>, s: nat)
    requires Refines(slots, size, pending) && |slots| == ARQ_WINDOW && 0 < size <= ARQ_WINDOW
    ensures var slot := slots[SlotIndex(s, size)];
            && (s in pending <==> slot.sent && slot.tag == s)
            && (s in pending ==> pending[s] == slot.data)
            && (slot.sent ==> slot.tag in pending && SlotIndex(slot.tag, size) == SlotIndex(s, size))
            && (if slot.sent then 0 < |slot.data| && !slot.acked && slot.retries < 256 else slot == ClearSlot)
  {
    hide SlotIndex;
  }

  lemma SlotFilled(slots: seq<FragmentSlot>, size: nat, pending: map<nat, seq<byte>>, i: nat)
    requires Refines(slots, size, pending) && |slots| == ARQ_WINDOW && i < size <= ARQ_WINDOW
    ensures slots[i].sent ==>
              && 0 < |slots[i].data| && slots[i].tag < NO_TAG && !slots[i].acked && slots[i].retries < 256
              && slots[i].tag in pending && pending[slots[i].tag] == slots[i].data
    ensures !slots[i].sent ==> slots[i] == ClearSlot
  {
    hide SlotIndex;
  }

  lemma {:induction false} PendingCounts(slots: seq<FragmentSlot>, size: nat, pending: map<nat, seq<byte>>, n: nat)
    requires Refines(slots, size, pending) && |slots| == ARQ_WINDOW && n <= size <= ARQ_WINDOW
    ensures PendingBelow(slots, n) <= pending.Keys
    ensures forall s :: s in pending ==> (s in PendingBelow(slots, n) <==> SlotIndex(s, size) < n)
    ensures |PendingBelow(slots, n)| == SentCount(slots, n)
    ensures forall i :: 0 <= i < n && !slots[i].sent ==> SentCount(slots, n) < n
    ensures SentCount(slots, n) <= n
  {
    hide SlotIndex, Refines;
    if n > 0 {
      PendingCounts(slots, size, pending, n - 1);
      SlotOwner(slots, size, pending, n - 1);
    }
  }

  lemma CollectStep(slots: seq<FragmentSlot>, size: nat, pending: map<nat, seq<byte>>, i: nat, listed: seq<nat>)
    requires Refines(slots, size, pending) && |slots| == ARQ_WINDOW && i < size <= ARQ_WINDOW
    requires multiset(listed) == multiset(PendingBelow(slots, i))
    ensures slots[i].sent ==>
              && 0 < |slots[i].data| && slots[i].tag < NO_TAG
              && multiset(listed + [slots[i].tag]) == multiset(PendingBelow(slots, i + 1))
    ensures !slots[i].sent ==> PendingBelow(slots, i + 1) == PendingBelow(slots, i)
  {
    hide Refines, SlotIndex;
    PendingCounts(slots, size, pending, i);
    SlotOwner(slots, size, pending, i);
    SlotFilled(slots, size, pending, i);
    if slots[i].sent {
      ListingGrows(listed, PendingBelow(slots, i), slots[i].tag);
    }
  }

  lemma NothingListed(slots: seq<FragmentSlot>, out: seq<nat>)
    ensures multiset(out[..0]) == multiset(PendingBelow(slots, 0))
  {
  }

  lemma PendingListed(slots: seq<FragmentSlot>, size: nat, pending: map<nat, seq<byte>>, n: nat, out: seq<nat>)
    requires Refines(slots, size, pending) && |slots| == ARQ_WINDOW && n <= size <= ARQ_WINDOW
    requires multiset(out) == multiset(PendingBelow(slots, n))
    ensures PendingBelow(slots, n) <= pending.Keys && |out| == |PendingBelow(slots, n)| <= |pending|
    ensures n == size ==> |out| == |pending|
  {
    hide Refines;
    PendingCounts(slots, size, pending, n);
    PendingCounts(slots, size, pending, size);
    assert PendingBelow(slots, size) == pending.Keys;
    assert |out| == |multiset(out)|;
    SubsetSize(PendingBelow(slots, n), pending.Keys);
  }

  lemma AllClear(slots: seq<FragmentSlot>, size: nat)
    requires |slots| == ARQ_WINDOW && 0 < size <= ARQ_WINDOW
    requires forall i :: 0 <= i < ARQ_WINDOW ==> slots[i] == ClearSlot
    ensures Refines(slots, size, map[]) && RetriesBounded(slots)
  {
  }

  lemma StoreRefines(slots: seq<FragmentSlot>, size: nat, pending: map<nat, seq<byte>>, s: nat, slot: FragmentSlot)
    requires Refines(slots, size, pending) && |slots| == ARQ_WINDOW && 0 < size <= ARQ_WINDOW
    requires s < NO_TAG && !slots[SlotIndex(s, size)].sent
    requires 0 < |slot.data| <= ESPNOW_MAX_PAYLOAD && slot.tag == s && slot.sent && !slot.acked && slot.retries == 0
    ensures s !in pending
    ensures Refines(slots[SlotIndex(s, size) := slot], size, pending[s := slot.data])
    ensures RetriesBounded(slots) ==> RetriesBounded(slots[SlotIndex(s, size) := slot])
  {
    hide SlotIndex;
  }

  lemma DropRefines(slots: seq<FragmentSlot>, size: nat, pending: map<nat, seq<byte>>, s: nat)
    requires Refines(slots, size, pending) && |slots| == ARQ_WINDOW && 0 < size <= ARQ_WINDOW && s in pending
    ensures Refines(slots[SlotIndex(s, size) := ClearSlot], size, pending - {s})
    ensures RetriesBounded(slots) ==> RetriesBounded(slots[SlotIndex(s, size) := ClearSlot])
  {
    hide SlotIndex;
    forall p | p in pending && p != s
      ensures SlotIndex(p, size) != SlotIndex(s, size)
    {
    }
  }

  /** Changing timestamps and retry counts leaves the map alone. */
  lemma TouchRefines(slots: seq<FragmentSlot>, size: nat, pending: map<nat, seq<byte>>, i: nat, slot: FragmentSlot)
    requires Refines(slots, size, pending) && |slots| == ARQ_WINDOW && i < ARQ_WINDOW
    requires slots[i].sent && slot == slots[i].(sendTime := slot.sendTime, retries := slot.retries)
    requires slot.retries < 256
    ensures Refines(slots[i := slot], size, pending)
    ensures RetriesBounded(slots) && (slot.retries <= Rto.MAX_RETRIES || slot.retries == slots[i].retries) ==>
              RetriesBounded(slots[i := slot])
  {
    hide SlotIndex;
  }

  /** in_flight_ counts the sent slots, and a free slot means the window is not full. */
  lemma InFlightIsSlotCount(slots: seq<FragmentSlot>, size: nat, pending: map<nat, seq<byte>>)
    requires Refines(slots, size, pending)
    ensures |pending| == SentCount(slots, size) <= size
    ensures forall i :: 0 <= i < size && !slots[i].sent ==> |pending| < size
  {
    PendingCounts(slots, size, pending, size);
    assert PendingBelow(slots, size) == pending.Keys;
  }

  /** What decides when a slot is due. */
  datatype Timer = Timer(rtt: Rto.Estimator, timeoutMs: nat, floor: nat)

  /** The timer has learned from the measured round trips, and is configured within bounds. */
  ghost predicate TimerOk(timer: Timer, history: seq<Rto.Measured>) {
    && timer.rtt == Rto.Run(history) && timer.timeoutMs <= Rto.MAX_ARQ_TIMEOUT_MS && timer.floor <= Rto.RTO_MAX_MS
    && forall i :: 0 <= i < |history| ==> history[i].floor <= Rto.RTO_MAX_MS
  }

  lemma TimerForgets(timer: Timer, history: seq<Rto.Measured>)
    requires TimerOk(timer, history)
    ensures TimerOk(timer.(rtt := Rto.Initial), [])
  {
  }

  lemma TimerLearns(timer: Timer, history: seq<Rto.Measured>, rtt: nat)
    requires TimerOk(timer, history)
    ensures TimerOk(timer.(rtt := Rto.Sample(timer.rtt, rtt, timer.floor)), history + [Rto.Measured(rtt, timer.floor)])
  {
    hide Rto.Run, Rto.Sample;
    Rto.RunNext(history, Rto.Measured(rtt, timer.floor));
  }

  ghost predicate AllShort(history: seq<Rto.Measured>) {
    forall i :: 0 <= i < |history| ==> history[i].rtt < Rto.SAMPLE_LIMIT
  }

  lemma LearnsBySample(timer: Timer, history: seq<Rto.Measured>, rtt: nat)
    requires TimerOk(timer, history) && AllShort(history + [Rto.Measured(rtt, timer.floor)])
    ensures Rto.Moved(timer.rtt, Rto.Sample(timer.rtt, rtt, timer.floor), rtt, timer.floor)
  {
    hide Rto.Sample, Rto.Moved;
    var longer := history + [Rto.Measured(rtt, timer.floor)];
    assert longer[|history|].rtt == rtt && forall i :: 0 <= i < |history| ==> longer[i] == history[i];
    Rto.RunIsCapped(history);
    if history != [] {
      Rto.EstimatorBounds(history, 0, Rto.SAMPLE_LIMIT - 1);
    }
    Rto.SampleMoves(timer.rtt, rtt, timer.floor);
  }

  /** The round trips measured since the last reset and, for each pending number, when its timer
      was started: by the last transmission that starts it (the one that uses up the retries does
      not), then again by each backpressure since. */
  datatype Times = Times(history: seq<Rto.Measured>, starts: map<nat, seq<nat>>)

  function Last(starts: seq<nat>): nat
    requires starts != []
  {
    starts[|starts| - 1]
  }

  /** The send time in each slot is the last start of its timer. */
  ghost predicate StartsOk(slots: seq<FragmentSlot>, pending: map<nat, seq<byte>>, starts: map<nat, seq<nat>>) {
    starts.Keys == pending.Keys && AgreeBelow(slots, |slots|, starts)
  }

  ghost predicate Agrees(slot: FragmentSlot, starts: map<nat, seq<nat>>) {
    slot.sent ==> slot.tag in starts && starts[slot.tag] != [] && Last(starts[slot.tag]) == slot.sendTime
  }

  ghost predicate AgreeBelow(slots: seq<FragmentSlot>, n: nat, starts: map<nat, seq<nat>>)
    requires n <= |slots|
  {
    n == 0 || (AgreeBelow(slots, n - 1, starts) && Agrees(slots[n - 1], starts))
  }

  lemma {:induction false} AllAgree(slots: seq<FragmentSlot>, n: nat, starts: map<nat, seq<nat>>)
    requires n <= |slots|
    ensures AgreeBelow(slots, n, starts) <==> forall i :: 0 <= i < n ==> Agrees(slots[i], starts)
  {
    hide Agrees;
    if n > 0 {
      AllAgree(slots, n - 1, starts);
    }
  }

  lemma StartsNone(slots: seq<FragmentSlot>)
    requires forall i :: 0 <= i < |slots| ==> slots[i] == ClearSlot
    ensures StartsOk(slots, map[], map[])
  {
    AllAgree(slots, |slots|, map[]);
  }

  lemma StartsKnown(slots: seq<FragmentSlot>, size: nat, pending: map<nat, seq<byte>>, starts: map<nat, seq<nat>>, s: nat)
    requires Refines(slots, size, pending) && |slots| == ARQ_WINDOW && 0 < size <= ARQ_WINDOW && StartsOk(slots, pending, starts)
    ensures starts.Keys == pending.Keys
    ensures s in pending ==> starts[s] != [] && Last(starts[s]) == slots[SlotIndex(s, size)].sendTime
  {
    hide SlotIndex;
    AllAgree(slots, |slots|, starts);
    if s in pending {
      assert Agrees(slots[SlotIndex(s, size)], starts);
    }
  }

  lemma NothingToDrop(pending: map<nat, seq<byte>>, starts: map<nat, seq<nat>>, s: nat)
    ensures s !in pending ==> pending - {s} == pending
    ensures s !in starts ==> starts - {s} == starts
  {
  }

  lemma StartsStore(slots: seq<FragmentSlot>, size: nat, pending: map<nat, seq<byte>>, starts: map<nat, seq<nat>>,
                    s: nat, slot: FragmentSlot)
    requires Refines(slots, size, pending) && |slots| == ARQ_WINDOW && 0 < size <= ARQ_WINDOW && StartsOk(slots, pending, starts)
    requires !slots[SlotIndex(s, size)].sent && slot.tag == s
    ensures StartsOk(slots[SlotIndex(s, size) := slot], pending[s := slot.data], starts[s := [slot.sendTime]])
  {
    hide SlotIndex;
    AllAgree(slots, |slots|, starts);
    AllAgree(slots[SlotIndex(s, size) := slot], |slots|, starts[s := [slot.sendTime]]);
  }

  lemma StartsDrop(slots: seq<FragmentSlot>, size: nat, pending: map<nat, seq<byte>>, starts: map<nat, seq<nat>>, s: nat)
    requires Refines(slots, size, pending) && |slots| == ARQ_WINDOW && 0 < size <= ARQ_WINDOW && StartsOk(slots, pending, starts)
    requires s in pending
    ensures StartsOk(slots[SlotIndex(s, size) := ClearSlot], pending - {s}, starts - {s})
  {
    hide SlotIndex;
    AllAgree(slots, |slots|, starts);
    AllAgree(slots[SlotIndex(s, size) := ClearSlot], |slots|, starts - {s});
  }

  /** The slot of s gets a new send time or keeps the one it has, and so does its last start. */
  lemma StartsTouch(slots: seq<FragmentSlot>, size: nat, pending: map<nat, seq<byte>>, starts: map<nat, seq<nat>>,
                    s: nat, slot: FragmentSlot, now: nat)
    requires Refines(slots, size, pending) && |slots| == ARQ_WINDOW && 0 < size <= ARQ_WINDOW && StartsOk(slots, pending, starts)
    requires s in pending && slot.tag == s
    ensures s in starts
    ensures slot.sendTime == now ==> StartsOk(slots[SlotIndex(s, size) := slot], pending, starts[s := [now]])
    ensures slot.sendTime == now ==> StartsOk(slots[SlotIndex(s, size) := slot], pending, starts[s := starts[s] + [now]])
    ensures slot.sendTime == slots[SlotIndex(s, size)].sendTime ==> StartsOk(slots[SlotIndex(s, size) := slot], pending, starts)
  {
    hide SlotIndex;
    StartsKnown(slots, size, pending, starts, s);
    AllAgree(slots, |slots|, starts);
    var touched := slots[SlotIndex(s, size) := slot];
    AllAgree(touched, |slots|, starts);
    AllAgree(touched, |slots|, starts[s := [now]]);
    AllAgree(touched, |slots|, starts[s := starts[s] + [now]]);
  }

  /** later is what a timer's starts can become during one call at time now. */
  ghost predicate Restarted(starts: seq<nat>, later: seq<nat>, now: nat) {
    || (starts <= later && forall k :: |starts| <= k < |later| ==> later[k] == now)
    || (later != [] && forall k :: 0 <= k < |later| ==> later[k] == now)
  }

  ghost predicate AllRestarted(starts: map<nat, seq<nat>>, later: map<nat, seq<nat>>, now: nat) {
    starts.Keys == later.Keys && forall s :: s in starts ==> Restarted(starts[s], later[s], now)
  }

  lemma RestartedOnce(starts: map<nat, seq<nat>>, later: map<nat, seq<nat>>, now: nat, s: nat)
    requires AllRestarted(starts, later, now) && s in later
    ensures AllRestarted(starts, later[s := [now]], now) && AllRestarted(starts, later[s := later[s] + [now]], now)
  {
  }

  lemma NotRestarted(starts: map<nat, seq<nat>>, now: nat)
    ensures AllRestarted(starts, starts, now)
  {
  }

  /** A sample measures from the last start of the timer, so it is too short by the time that
      backpressure moved the timer after the transmission. It is the round trip iff every
      backpressure came in the millisecond of the transmission; in particular if there was none. */
  lemma SampleIsRoundTripIff(starts: seq<nat>, now: nat)
    requires starts != [] && forall j, k :: 0 <= j < k < |starts| ==> starts[j] <= starts[k]
    requires Last(starts) <= now < starts[0] + 0x1_0000_0000
    ensures Rto.U32(now - Last(starts)) == Rto.U32(now - starts[0]) - (Last(starts) - starts[0])
    ensures Rto.U32(now - Last(starts)) == Rto.U32(now - starts[0]) <==> forall k :: 0 <= k < |starts| ==> starts[k] == starts[0]
  {
    if Last(starts) == starts[0] {
      forall k | 0 <= k < |starts|
        ensures starts[k] == starts[0]
      {
        assert starts[k] <= Last(starts);
      }
    }
  }

  /** A sent slot with retries left whose backoff has run out. */
  predicate IsDue(slot: FragmentSlot, timer: Timer, now: nat) {
    && slot.sent && slot.retries < Rto.MAX_RETRIES
    && Rto.U32(now - slot.sendTime) >= Rto.Backoff(timer.rtt, timer.timeoutMs, timer.floor, slot.retries)
  }

  /** The due slots among the first n, in slot order. */
  function DueSlots(slots: seq<FragmentSlot>, n: nat, timer: Timer, now: nat): (due: seq<nat>)
    requires n <= |slots|
    ensures forall k :: 0 <= k < |due| ==> due[k] < n
  {
    if n == 0 then [] else DueSlots(slots, n - 1, timer, now) + if IsDue(slots[n - 1], timer, now) then [n - 1] else []
  }

  lemma {:induction false} DueMembers(slots: seq<FragmentSlot>, n: nat, timer: Timer, now: nat)
    requires n <= |slots|
    ensures forall i: nat :: i in DueSlots(slots, n, timer, now) <==> i < n && IsDue(slots[i], timer, now)
    ensures StrictlyAscending(DueSlots(slots, n, timer, now))
  {
    hide IsDue;
    if n > 0 {
      DueMembers(slots, n - 1, timer, now);
    }
  }

  lemma {:induction false} DuePrefix(slots: seq<FragmentSlot>, m: nat, n: nat, timer: Timer, now: nat)
    requires m <= n <= |slots|
    ensures DueSlots(slots, m, timer, now) <= DueSlots(slots, n, timer, now)
  {
    hide IsDue;
    if m < n {
      DuePrefix(slots, m, n - 1, timer, now);
    }
  }

  /** Slot i is the next of the due slots exactly when it is due. */
  lemma DueStep(slots: seq<FragmentSlot>, i: nat, size: nat, timer: Timer, now: nat)
    requires i < size <= |slots|
    ensures var sofar, due := DueSlots(slots, i, timer, now), DueSlots(slots, size, timer, now);
            && i !in sofar && sofar <= due
            && DueSlots(slots, i + 1, timer, now) == (if IsDue(slots[i], timer, now) then sofar + [i] else sofar)
            && (IsDue(slots[i], timer, now) ==> |sofar| < |due| && due[|sofar|] == i)
  {
    hide IsDue;
    DuePrefix(slots, i, size, timer, now);
    DuePrefix(slots, i + 1, size, timer, now);
  }

  /** The packets in the given slots. */
  function Packets(slots: seq<FragmentSlot>, at: seq<nat>): (p: seq<(nat, seq<byte>)>)
    requires forall k :: 0 <= k < |at| ==> at[k] < |slots|
    ensures |p| == |at| && forall k :: 0 <= k < |at| ==> p[k] == (slots[at[k]].tag, slots[at[k]].data)
  {
    seq(|at|, k requires 0 <= k < |at| => (slots[at[k]].tag, slots[at[k]].data))
  }

  lemma OneMorePacket(slots: seq<FragmentSlot>, at: seq<nat>, i: nat)
    requires i < |slots| && forall k :: 0 <= k < |at| ==> at[k] < |slots|
    ensures Packets(slots, at + [i]) == Packets(slots, at) + [(slots[i].tag, slots[i].data)]
  {
  }

  /** The due slot at which a tick met backpressure after n retransmissions, or -1. */
  function Postponed(due: seq<nat>, n: nat, maxSends: nat, answers: nat -> int): int {
    if n < |due| && n < maxSends && answers(n) == SEND_BACKPRESSURE then due[n] else -1
  }

  /** Slot i after a tick that retransmitted the given slots and met backpressure at another
      one, if any: retransmitted, postponed or untouched. */
  function AfterTick(slot: FragmentSlot, i: nat, resent: seq<nat>, postponed: int, now: nat): FragmentSlot {
    if i in resent then slot.(sendTime := now, retries := slot.retries + 1)
    else if i == postponed then slot.(sendTime := now)
    else slot
  }

  /** The slots after a tick that retransmitted the given ones. */
  ghost predicate Ticked(before: seq<FragmentSlot>, after: seq<FragmentSlot>, resent: seq<nat>, postponed: int, now: nat) {
    |after| == |before| && forall i :: 0 <= i < |before| ==> after[i] == AfterTick(before[i], i, resent, postponed, now)
  }

  /** A tick has gone through the first i slots without a refusal and sent n packets. */
  ghost predicate Through(before: seq<FragmentSlot>, slots: seq<FragmentSlot>, sent: seq<(nat, seq<byte>)>, n: nat, i: nat,
                          timer: Timer, answers: nat -> int, now: nat)
    requires i <= |before|
  {
    var due := DueSlots(before, i, timer, now);
    Ticked(before, slots, due, -1, now) && sent == Packets(before, due) && n == |due| && Taken(answers, n)
  }

  lemma ThroughNone(slots: seq<FragmentSlot>, timer: Timer, answers: nat -> int, now: nat)
    ensures Through(slots, slots, [], 0, 0, timer, answers, now)
  {
  }

  lemma ThroughNext(before: seq<FragmentSlot>, slots: seq<FragmentSlot>, sent: seq<(nat, seq<byte>)>, n: nat, i: nat,
                    timer: Timer, answers: nat -> int, now: nat)
    requires i < |before| && Through(before, slots, sent, n, i, timer, answers, now)
    ensures |slots| == |before| && slots[i] == before[i]
    ensures !IsDue(before[i], timer, now) ==> Through(before, slots, sent, n, i + 1, timer, answers, now)
    ensures IsDue(before[i], timer, now) && answers(n) >= 0 ==>
              Through(before, slots[i := before[i].(sendTime := now, retries := before[i].retries + 1)],
                      sent + [(before[i].tag, before[i].data)], n + 1, i + 1, timer, answers, now)
  {
    hide IsDue, Packets;
    DueStep(before, i, i + 1, timer, now);
    OneMorePacket(before, DueSlots(before, i, timer, now), i);
  }

  ghost predicate AllPending(sent: seq<(nat, seq<byte>)>, pending: map<nat, seq<byte>>) {
    forall p :: p in sent ==> p.0 in pending && pending[p.0] == p.1
  }

  lemma AllPendingNext(sent: seq<(nat, seq<byte>)>, pending: map<nat, seq<byte>>, s: nat, data: seq<byte>)
    ensures AllPending([], pending)
    ensures AllPending(sent, pending) && s in pending && pending[s] == data ==> AllPending(sent + [(s, data)], pending)
  {
  }

  /** What a tick leaves behind. */
  ghost predicate TickDone(before: seq<FragmentSlot>, slots: seq<FragmentSlot>, sent: seq<(nat, seq<byte>)>, n: nat, due: seq<nat>,
                           maxSends: nat, answers: nat -> int, now: nat)
    requires forall k :: 0 <= k < |due| ==> due[k] < |before|
  {
    && n <= maxSends && n <= |due| && Taken(answers, n) && (n == maxSends || n == |due| || answers(n) < 0)
    && sent == Packets(before, due[..n])
    && Ticked(before, slots, due[..n], Postponed(due, n, maxSends, answers), now)
  }

  lemma DoneAtEnd(before: seq<FragmentSlot>, slots: seq<FragmentSlot>, sent: seq<(nat, seq<byte>)>, n: nat, size: nat,
                  timer: Timer, maxSends: nat, answers: nat -> int, now: nat)
    requires size <= |before| && n <= maxSends && Through(before, slots, sent, n, size, timer, answers, now)
    ensures TickDone(before, slots, sent, n, DueSlots(before, size, timer, now), maxSends, answers, now)
  {
    var due := DueSlots(before, size, timer, now);
    assert due[..n] == due;
  }

  lemma DoneAtSlot(before: seq<FragmentSlot>, slots: seq<FragmentSlot>, sent: seq<(nat, seq<byte>)>, n: nat, i: nat, size: nat,
                   timer: Timer, maxSends: nat, answers: nat -> int, now: nat)
    requires i < size <= |before| && n <= maxSends && Through(before, slots, sent, n, i, timer, answers, now)
    requires IsDue(before[i], timer, now) && (n == maxSends || answers(n) < 0)
    ensures var left := if n < maxSends && answers(n) == SEND_BACKPRESSURE then slots[i := before[i].(sendTime := now)] else slots;
            |slots| == |before| && TickDone(before, left, sent, n, DueSlots(before, size, timer, now), maxSends, answers, now)
  {
    hide IsDue, Packets;
    DueStep(before, i, size, timer, now);
    var due := DueSlots(before, size, timer, now);
    assert due[..n] == DueSlots(before, i, timer, now);
  }

  class SelectiveRepeat {
    const window: array<FragmentSlot>
    const windowSize: nat
    var timer: Timer
    var baseSeq: nat
    var nextSeq: nat
    var senderFailed: bool
    var inFlight: nat
    /** Sequence number and payload of every fragment sent and not yet acknowledged. */
    ghost var pending: map<nat, seq<byte>>
    /** Everything the transport accepted since the last reset, in order. */
    ghost var wire: seq<(nat, seq<byte>)>
    ghost var times: Times

    ghost predicate Valid()
      reads this, window
    {
      && TimerOk(timer, times.history) && StartsOk(window[..], pending, times.starts)
      && window.Length == ARQ_WINDOW && 0 < windowSize <= ARQ_WINDOW
      && Refines(window[..], windowSize, pending)
      && inFlight == |pending|
      && (forall s :: s in pending ==> s < nextSeq)
      && IsBase(baseSeq, nextSeq, pending)
      && (!senderFailed ==> RetriesBounded(window[..]))
    }

    lemma PendingFits()
      requires Valid()
      ensures |pending| == inFlight <= windowSize
    {
      InFlightIsSlotCount(window[..], windowSize, pending);
    }

    /** While the sender has not failed, the shifted timeout of every slot fits 32 bits and lies
        between the floor and the cap, and each further retry doubles it up to the cap. */
    lemma BackoffFits(i: nat)
      requires Valid() && !senderFailed && i < window.Length
      ensures var retries := window[i].retries;
              && retries <= Rto.MAX_RETRIES
              && Rto.BaseRto(timer.rtt, timer.timeoutMs, timer.floor) * Rto.Pow2(retries) < 0x1_0000_0000
              && timer.floor <= Rto.Backoff(timer.rtt, timer.timeoutMs, timer.floor, retries) <= Rto.RTO_MAX_MS
              && (retries < Rto.MAX_RETRIES ==>
                    var now := Rto.Backoff(timer.rtt, timer.timeoutMs, timer.floor, retries);
                    var next := Rto.Backoff(timer.rtt, timer.timeoutMs, timer.floor, retries + 1);
                    next == if 2 * now > Rto.RTO_MAX_MS then Rto.RTO_MAX_MS else 2 * now)
    {
      hide Refines, Rto.Run, Rto.Backoff;
      assert window[..][i].retries <= Rto.MAX_RETRIES;
      Rto.RunIsCapped(times.history);
      Rto.BackoffBounds(timer.rtt, timer.timeoutMs, timer.floor, window[i].retries);
    }

    /** The estimate stays between the shortest and the longest round trip of the session. */
    lemma EstimateWithinSamples(lo: nat, hi: nat)
      requires Valid() && times.history != [] && hi < Rto.SAMPLE_LIMIT
      requires forall i :: 0 <= i < |times.history| ==> lo <= times.history[i].rtt <= hi
      ensures var e := timer.rtt;
              e.initialized && lo <= e.srtt <= hi && e.rttvar <= hi && Rto.RTO_MIN_MS <= e.rto <= Rto.RTO_MAX_MS
    {
      hide Refines, RetriesBounded, Rto.Run;
      Rto.EstimatorBounds(times.history, lo, hi);
    }

    lemma Sizes()
      requires Valid()
      ensures window.Length == ARQ_WINDOW && 0 < windowSize <= ARQ_WINDOW && Refines(window[..], windowSize, pending)
    {
    }

    lemma FirstEstimate()
      requires Valid() && |times.history| == 1
      ensures timer.rtt.srtt == times.history[0].rtt
    {
      hide Refines, RetriesBounded, StartsOk, Rto.Run, Rto.U32, Rto.Clamp;
      Rto.RunNext([], times.history[0]);
      assert [] + [times.history[0]] == times.history;
    }

    lemma SlotHolds(i: nat)
      requires Valid() && i < windowSize
      ensures i < window.Length
      ensures window[i].sent ==> window[i].tag in pending && pending[window[i].tag] == window[i].data && window[i].tag in times.starts
    {
      SlotFilled(window[..], windowSize, pending, i);
    }

    constructor (size: nat, timeoutMs: nat)
      requires 0 < size && timeoutMs <= Rto.MAX_ARQ_TIMEOUT_MS
      ensures Valid() && fresh(window) && pending == map[] && wire == []
      ensures windowSize == if size > ARQ_WINDOW then ARQ_WINDOW else size
      ensures times == Times([], map[]) && timer == Timer(Rto.Initial, timeoutMs, Rto.RTO_MIN_MS)
    {
      windowSize := if size > ARQ_WINDOW then ARQ_WINDOW else size;
      window := new FragmentSlot[ARQ_WINDOW](_ => ClearSlot);
      baseSeq, nextSeq, senderFailed, inFlight := 0, 0, false, 0;
      timer := Timer(Rto.Initial, timeoutMs, Rto.RTO_MIN_MS);
      pending, wire, times := map[], [], Times([], map[]);
      new;
      StartsNone(window[..]);
    }

    method SetTimeout(ms: nat)
      requires Valid() && ms <= Rto.MAX_ARQ_TIMEOUT_MS
      modifies this`timer
      ensures Valid() && timer == old(timer).(timeoutMs := ms)
    {
      timer := timer.(timeoutMs := ms);
    }

    method SetMinRtoFloor(ms: nat)
      requires Valid() && ms <= Rto.RTO_MAX_MS
      modifies this`timer
      ensures Valid() && timer == old(timer).(floor := ms)
    {
      timer := timer.(floor := ms);
    }

    method ResetSender()
      requires Valid()
      modifies this, window
      ensures Valid() && times == Times([], map[]) && pending == map[] && wire == [] && !senderFailed && nextSeq == 0
      ensures timer == old(timer).(rtt := Rto.Initial)
    {
      hide Refines, RetriesBounded, SlotIndex, TimerOk, StartsOk;
      TimerForgets(timer, times.history);
      baseSeq, nextSeq, senderFailed, inFlight, timer := 0, 0, false, 0, timer.(rtt := Rto.Initial);
      pending, wire, times := map[], [], Times([], map[]);
      for i := 0 to ARQ_WINDOW
        invariant forall k :: 0 <= k < i ==> window[k] == ClearSlot
        modifies window
      {
        window[i] := ClearSlot;
      }
      AllClear(window[..], windowSize);
      StartsNone(window[..]);
    }

    method RecomputeSenderBounds()
      requires Refines(window[..], windowSize, pending)
      modifies this`baseSeq
      ensures IsBase(baseSeq, nextSeq, pending)
    {
      var anyPending, lowest := false, NO_TAG;
      for i := 0 to windowSize
        invariant !anyPending ==> forall k :: 0 <= k < i ==> !window[k].sent
        invariant anyPending ==> lowest in pending
        invariant anyPending ==> forall k :: 0 <= k < i && window[k].sent ==> lowest <= window[k].tag
      {
        var slot := window[i];
        if !slot.sent || |slot.data| == 0 || slot.tag == NO_TAG {
          continue;
        }
        if !anyPending || slot.tag < lowest {
          lowest, anyPending := slot.tag, true;
        }
      }
      baseSeq := if anyPending then lowest else nextSeq;
      if s :| s in pending {
        assert window[..][SlotIndex(s, windowSize)].sent;
      }
    }

    /** A number can be sent iff no other pending number occupies its slot. */
    method CanSendSequence(s: nat) returns (can: bool)
      requires Valid()
      ensures can <==> SlotFree(pending, windowSize, s)
    {
      InFlightIsSlotCount(window[..], windowSize, pending);
      var i := SlotIndex(s, windowSize);
      var slot := window[i];
      assert slot == window[..][i];
      if slot.sent {
        return slot.tag == s;
      }
      return inFlight < windowSize;
    }

    method ContainsSequence(s: nat) returns (contains: bool)
      requires Valid()
      ensures contains <==> s in pending
    {
      var slot := window[SlotIndex(s, windowSize)];
      contains := slot.sent && slot.tag == s && |slot.data| > 0;
      assert slot == window[..][SlotIndex(s, windowSize)];
    }

    /** The transport takes the fragment unless its answer is a refusal. */
    method SendCallback(s: nat, data: seq<byte>, answer: int) returns (rc: int)
      modifies this`wire
      ensures rc == answer && wire == if answer < 0 then old(wire) else old(wire) + [(s, data)]
    {
      if answer >= 0 {
        wire := wire + [(s, data)];
      }
      rc := answer;
    }

    /** Adds one fragment to the window. A refused fragment leaves no trace; a number that
        can be sent is refused by nobody but the transport. */
    method SendFragment(s: nat, data: seq<byte>, now: nat, answer: int) returns (ret: int)
      requires Valid() && s < NO_TAG
      modifies this, window
      ensures Valid()
      ensures ret == 0 || ret == -1
      ensures ret == 0 <==>
                0 < |data| <= ESPNOW_MAX_PAYLOAD && (s in old(pending) || (SlotFree(old(pending), windowSize, s) && answer >= 0))
      ensures ret == -1 ==>
                && pending == old(pending) && wire == old(wire) && window[..] == old(window[..])
                && baseSeq == old(baseSeq) && nextSeq == old(nextSeq) && inFlight == old(inFlight)
      ensures ret == 0 && s in old(pending) ==>
                && pending == old(pending) && wire == old(wire) && window[..] == old(window[..])
                && baseSeq == old(baseSeq) && nextSeq == old(nextSeq) && inFlight == old(inFlight)
      ensures ret == 0 && s !in old(pending) ==> nextSeq == if s < old(nextSeq) then old(nextSeq) else s + 1
      ensures ret == 0 && s !in old(pending) ==> pending == old(pending)[s := data] && wire == old(wire) + [(s, data)]
      ensures times.starts == if ret == 0 && s !in old(pending) then old(times.starts)[s := [now]] else old(times.starts)
      ensures ret == 0 && s !in old(pending) ==>
                window[..] == old(window[..])[SlotIndex(s, windowSize) := FragmentSlot(data, now, s, false, true, 0)]
      ensures timer == old(timer) && senderFailed == old(senderFailed) && times.history == old(times.history)
    {
      hide Refines, RetriesBounded, TimerOk, StartsOk;
      if |data| == 0 {
        return -1;
      }
      if |data| > ESPNOW_MAX_PAYLOAD {
        return -1;
      }
      var i := SlotIndex(s, windowSize);
      var slot := window[i];
      ghost var before := window[..];
      SlotTells(before, windowSize, pending, s);
      SlotIsFree(before, windowSize, pending, s);
      if slot.sent && slot.tag == s {
        return 0;
      }
      if slot.sent && slot.tag != s {
        return -1;
      }
      InFlightIsSlotCount(window[..], windowSize, pending);
      if inFlight >= windowSize {
        return -1;
      }
      ret := Transmit(s, data, now, answer);
    }

    /** Fills the free slot, calls the transport and takes everything back if it refuses. */
    method Transmit(s: nat, data: seq<byte>, now: nat, answer: int) returns (ret: int)
      requires Valid() && s < NO_TAG && s !in pending
      requires 0 < |data| <= ESPNOW_MAX_PAYLOAD && !window[SlotIndex(s, windowSize)].sent
      modifies this, window
      ensures Valid()
      ensures ret == if answer < 0 then -1 else 0
      ensures ret == -1 ==>
                && pending == old(pending) && wire == old(wire) && window[..] == old(window[..])
                && baseSeq == old(baseSeq) && nextSeq == old(nextSeq) && inFlight == old(inFlight)
      ensures ret == 0 ==> pending == old(pending)[s := data] && wire == old(wire) + [(s, data)]
      ensures ret == 0 ==> nextSeq == if s < old(nextSeq) then old(nextSeq) else s + 1
      ensures times.starts == if ret == 0 then old(times.starts)[s := [now]] else old(times.starts)
      ensures ret == 0 ==> window[..] == old(window[..])[SlotIndex(s, windowSize) := FragmentSlot(data, now, s, false, true, 0)]
      ensures timer == old(timer) && senderFailed == old(senderFailed) && times.history == old(times.history)
    {
      hide Refines, RetriesBounded, SlotIndex, TimerOk, StartsOk;
      var i := SlotIndex(s, windowSize);
      var prevNextSeq := nextSeq;
      var slot := FragmentSlot(data, now, s, false, true, 0);
      ghost var before := window[..];
      StoreRefines(before, windowSize, pending, s, slot);
      StartsStore(before, windowSize, pending, times.starts, s, slot);
      SlotTells(before, windowSize, pending, s);
      window[i] := slot;
      inFlight := inFlight + 1;
      if s >= nextSeq {
        nextSeq := s + 1;
      }
      var rc := SendCallback(s, data, answer);
      if rc < 0 {
        window[i] := ClearSlot;
        nextSeq := prevNextSeq;
        if inFlight > 0 {
          inFlight := inFlight - 1;
        }
        assert window[..] == before;
        RecomputeSenderBounds();
        return -1;
      }
      assert window[..] == before[i := slot];
      pending, times := pending[s := data], times.(starts := times.starts[s := [now]]);
      RecomputeSenderBounds();
      ret := 0;
    }

    /** Number s was sent once only. */
    ghost predicate FirstAttempt(s: nat)
      requires Valid()
      reads this, window
    {
      window[SlotIndex(s, windowSize)].retries == 0
    }

    /** An acknowledgement retires exactly its number; the timer learns only from fragments
        that were never retransmitted, and measures from the last start of their timer. */
    method HandleAck(s: nat, now: nat)
      requires Valid()
      modifies this, window
      ensures Valid()
      ensures pending == old(pending) - {s}
      ensures wire == old(wire) && timer == old(timer).(rtt := timer.rtt) && senderFailed == old(senderFailed) && nextSeq == old(nextSeq)
      ensures times.starts == old(times.starts) - {s}
      ensures window[..] == if s in old(pending) then old(window[..])[SlotIndex(s, windowSize) := ClearSlot] else old(window[..])
      ensures s in old(pending) ==> s in old(times.starts) && old(times.starts)[s] != []
      ensures times.history ==
              if s in old(pending) && old(window[SlotIndex(s, windowSize)]).retries == 0
              then old(times.history) + [Rto.Measured(Rto.U32(now - Last(old(times.starts)[s])), timer.floor)] else old(times.history)
      ensures if s in old(pending) && old(window[SlotIndex(s, windowSize)]).retries == 0
              then AllShort(times.history) ==>
                     Rto.Moved(old(timer.rtt), timer.rtt, Rto.U32(now - Last(old(times.starts)[s])), timer.floor)
              else timer == old(timer)
    {
      hide Refines, RetriesBounded, SlotIndex, TimerOk, StartsOk, AllShort, Rto.Moved;
      var i := SlotIndex(s, windowSize);
      var slot := window[i];
      SlotTells(window[..], windowSize, pending, s);
      NothingToDrop(pending, times.starts, s);
      StartsKnown(window[..], windowSize, pending, times.starts, s);
      if !slot.sent || slot.tag != s || |slot.data| == 0 {
        return;
      }
      if slot.sent && !slot.acked && slot.retries == 0 {
        Learn(Rto.U32(now - slot.sendTime));
      }
      Retire(s);
    }

    /** One measured round trip enters the estimate. */
    method Learn(rtt: nat)
      requires Valid()
      modifies this`timer, this`times
      ensures Valid() && timer == old(timer).(rtt := timer.rtt)
      ensures times == old(times).(history := old(times.history) + [Rto.Measured(rtt, timer.floor)])
      ensures AllShort(times.history) ==> Rto.Moved(old(timer.rtt), timer.rtt, rtt, timer.floor)
    {
      hide Refines, RetriesBounded, Rto.Sample, TimerOk, StartsOk, AllShort, Rto.Moved;
      if AllShort(times.history + [Rto.Measured(rtt, timer.floor)]) {
        LearnsBySample(timer, times.history, rtt);
      }
      TimerLearns(timer, times.history, rtt);
      timer := timer.(rtt := Rto.Sample(timer.rtt, rtt, timer.floor));
      times := times.(history := times.history + [Rto.Measured(rtt, timer.floor)]);
    }

    /** Clears the slot of a pending number. */
    method Retire(s: nat)
      requires Valid() && s in pending
      modifies window, this`inFlight, this`pending, this`times, this`baseSeq
      ensures Valid() && pending == old(pending) - {s}
      ensures window[..] == old(window[..])[SlotIndex(s, windowSize) := ClearSlot]
      ensures times == old(times).(starts := old(times.starts) - {s})
    {
      hide Refines, RetriesBounded, SlotIndex, TimerOk, StartsOk;
      var i := SlotIndex(s, windowSize);
      ghost var before := window[..];
      SlotTells(before, windowSize, pending, s);
      DropRefines(before, windowSize, pending, s);
      StartsDrop(before, windowSize, pending, times.starts, s);
      if inFlight > 0 {
        inFlight := inFlight - 1;
      }
      window[i] := ClearSlot;
      assert window[..] == before[i := ClearSlot];
      pending, times := pending - {s}, times.(starts := times.starts - {s});
      RecomputeSenderBounds();
    }

    /** A negative acknowledgement re-sends a pending fragment and never changes the map. A
        refusal burns no retry; backpressure restarts the timer; the last retry fails the sender. */
    method HandleNack(s: nat, now: nat, answer: int)
      requires Valid()
      modifies this, window
      ensures Valid()
      ensures pending == old(pending) && nextSeq == old(nextSeq) && baseSeq == old(baseSeq) && inFlight == old(inFlight)
      ensures timer == old(timer) && times.history == old(times.history)
      ensures s in pending ==>
                && s in old(times.starts)
                && times.starts == if answer == SEND_BACKPRESSURE then old(times.starts)[s := old(times.starts)[s] + [now]]
                                   else if answer < 0 || (old(window[SlotIndex(s, windowSize)]).retries + 1) % 256 >= Rto.MAX_RETRIES
                                   then old(times.starts)
                                   else old(times.starts)[s := [now]]
      ensures s !in pending ==> times == old(times)
      ensures wire == if s in pending && answer >= 0 then old(wire) + [(s, pending[s])] else old(wire)
      ensures AllRestarted(old(times.starts), times.starts, now)
      ensures var i := SlotIndex(s, windowSize);
              var was, after := old(window[..]), window[..];
              var retries := (was[i].retries + 1) % 256;
              if s !in pending || (answer < 0 && answer != SEND_BACKPRESSURE) then
                after == was && senderFailed == old(senderFailed)
              else if answer < 0 then
                after == was[i := was[i].(sendTime := now)] && senderFailed == old(senderFailed)
              else
                && senderFailed == (old(senderFailed) || retries >= Rto.MAX_RETRIES)
                && after == was[i := was[i].(retries := retries, sendTime := if retries >= Rto.MAX_RETRIES then was[i].sendTime else now)]
    {
      hide Refines, RetriesBounded, TimerOk, StartsOk, AllRestarted;
      var i := SlotIndex(s, windowSize);
      var slot := window[i];
      ghost var before := window[..];
      SlotTells(before, windowSize, pending, s);
      NotRestarted(times.starts, now);
      if !slot.sent || slot.tag != s || |slot.data| == 0 {
        return;
      }
      StartsTouch(before, windowSize, pending, times.starts, s, slot, slot.sendTime);
      RestartedOnce(times.starts, times.starts, now, s);
      var rc := SendCallback(s, slot.data, answer);
      if rc == SEND_BACKPRESSURE {
        StartsTouch(before, windowSize, pending, times.starts, s, slot.(sendTime := now), now);
        times := times.(starts := times.starts[s := times.starts[s] + [now]]);
        TouchRefines(before, windowSize, pending, i, slot.(sendTime := now));
        window[i] := slot.(sendTime := now);
        assert window[..] == before[i := slot.(sendTime := now)];
        return;
      }
      if rc < 0 {
        return;
      }
      var retries := (slot.retries + 1) % 256;
      if retries >= Rto.MAX_RETRIES {
        StartsTouch(before, windowSize, pending, times.starts, s, slot.(retries := retries), now);
        TouchRefines(before, windowSize, pending, i, slot.(retries := retries));
        window[i] := slot.(retries := retries);
        assert window[..] == before[i := slot.(retries := retries)];
        senderFailed := true;
        return;
      }
      TouchRefines(before, windowSize, pending, i, slot.(sendTime := now, retries := retries));
      StartsTouch(before, windowSize, pending, times.starts, s, slot.(sendTime := now, retries := retries), now);
      times := times.(starts := times.starts[s := [now]]);
      window[i] := slot.(sendTime := now, retries := retries);
      assert window[..] == before[i := slot.(sendTime := now, retries := retries)];
    }

    /** Lists pending numbers in ascending order, each once: all of them if there is room, else
        as many as there is room for. */
    method SnapshotPendingSequences(out: array<nat>) returns (count: nat)
      requires Valid()
      modifies out
      ensures count == if |pending| <= out.Length then |pending| else out.Length
      ensures StrictlyAscending(out[..count]) && forall s :: s in out[..count] ==> s in pending
      ensures |pending| <= out.Length ==> forall s :: s in pending ==> s in out[..count]
    {
      ghost var listed;
      count, listed := CollectPending(out);
      SortPrefix(out, count);
      ListingAscends(out[..count], listed);
      if |pending| <= out.Length {
        SubsetOfSameSize(listed, pending.Keys);
      }
    }

    /** Copies the tags of the sent slots in slot order, as long as there is room. */
    method CollectPending(out: array<nat>) returns (count: nat, ghost listed: set<nat>)
      requires Valid()
      modifies out
      ensures listed <= pending.Keys && count == |listed| <= out.Length && multiset(out[..count]) == multiset(listed)
      ensures count == if |pending| <= out.Length then |pending| else out.Length
    {
      hide SelectiveRepeat.Valid, Refines, SlotIndex, PendingBelow;
      Sizes();
      var slots := window[..];
      NothingListed(slots, out[..]);
      count := 0;
      var i := 0;
      while i < windowSize && count < out.Length
        invariant i <= windowSize && count <= out.Length && window[..] == slots
        invariant multiset(out[..count]) == multiset(PendingBelow(slots, i))
      {
        CollectStep(slots, windowSize, pending, i, out[..count]);
        var slot := slots[i];
        i := i + 1;
        if !slot.sent || |slot.data| == 0 || slot.tag == NO_TAG {
          continue;
        }
        ghost var before := out[..count];
        out[count] := slot.tag;
        count := count + 1;
        assert out[..count] == before + [slot.tag];
      }
      listed := PendingBelow(slots, i);
      PendingListed(slots, windowSize, pending, i, out[..count]);
    }

    /** The slots that a tick at now has to retransmit. */
    ghost function Due(now: nat): seq<nat>
      requires Valid()
      reads this, window
    {
      DueSlots(window[..], windowSize, timer, now)
    }

    /** In plain terms: slot i was sent, has retries left, and since its timer was last started
        the first timeout has passed, doubled by every retry so far, 5000 ms at most. */
    ghost predicate Overdue(i: nat, now: nat)
      requires Valid()
      reads this, window
    {
      && i < windowSize && i < window.Length && window[i].sent && window[i].retries < 12
      && window[i].tag in times.starts && times.starts[window[i].tag] != []
      && Rto.U32(now - Last(times.starts[window[i].tag])) >=
           Rto.Min(5000, Rto.FirstTimeout(timer.rtt, timer.timeoutMs, timer.floor) * Rto.Pow2(window[i].retries))
    }

    lemma DueIffOverdue(i: nat, now: nat)
      requires Valid()
      ensures i in Due(now) <==> Overdue(i, now)
    {
      hide Refines, StartsOk, Rto.Run, Rto.Backoff, Rto.FirstTimeout;
      DueMembers(window[..], windowSize, timer, now);
      if i < windowSize && window[i].sent && window[i].retries < 12 {
        SlotFilled(window[..], windowSize, pending, i);
        SlotTells(window[..], windowSize, pending, window[i].tag);
        SlotOwner(window[..], windowSize, pending, i);
        StartsKnown(window[..], windowSize, pending, times.starts, window[i].tag);
        Rto.RunIsCapped(times.history);
        Rto.BackoffIs(timer.rtt, timer.timeoutMs, timer.floor, window[i].retries);
      }
    }

    /** Timeout retransmission under a send budget: the first n due slots in slot order, where
        only the budget or a refusal by the transport keeps n below the number due. The map
        never changes; backpressure postpones the slot it met. */
    method Tick(maxSends: nat, now: nat, answers: nat -> int) returns (n: nat)
      requires Valid()
      modifies window, this`wire, this`times
      ensures Valid() && times.history == old(times.history) && AllRestarted(old(times.starts), times.starts, now)
      ensures old(wire) <= wire
      ensures AllPending(wire[|old(wire)|..], pending)
      ensures forall i: nat :: i in old(Due(now)) <==> old(Overdue(i, now))
      ensures TickDone(old(window[..]), window[..], wire[|old(wire)|..], n, old(Due(now)), maxSends, answers, now)
    {
      hide SelectiveRepeat.Valid, SelectiveRepeat.Overdue, SlotIndex, IsDue, DueSlots, TickDone, Through, AllPending, AllRestarted;
      n := 0;
      Sizes();
      forall i: nat
        ensures i in Due(now) <==> Overdue(i, now)
      {
        DueIffOverdue(i, now);
      }
      ghost var before, sent := window[..], [];
      ThroughNone(before, timer, answers, now);
      AllPendingNext(sent, pending, 0, []);
      NotRestarted(times.starts, now);
      for i := 0 to windowSize
        invariant Valid() && n <= maxSends && |before| == ARQ_WINDOW
        invariant times.history == old(times.history) && AllRestarted(old(times.starts), times.starts, now)
        invariant wire == old(wire) + sent && AllPending(sent, pending) && Through(before, window[..], sent, n, i, timer, answers, now)
      {
        ThroughNext(before, window[..], sent, n, i, timer, answers, now);
        assert window[i] == before[i];
        var mustSend := NeedsRetransmission(i, now);
        if mustSend {
          if n >= maxSends {
            DoneAtSlot(before, window[..], sent, n, i, windowSize, timer, maxSends, answers, now);
            return;
          }
          SlotHolds(i);
          AllPendingNext(sent, pending, before[i].tag, before[i].data);
          if answers(n) < 0 {
            DoneAtSlot(before, window[..], sent, n, i, windowSize, timer, maxSends, answers, now);
          }
          RestartedOnce(old(times.starts), times.starts, now, before[i].tag);
          var rc := Retransmit(i, now, answers(n));
          if rc < 0 {
            return;
          }
          sent := sent + [(before[i].tag, before[i].data)];
          n := n + 1;
        }
      }
      DoneAtEnd(before, window[..], sent, n, windowSize, timer, maxSends, answers, now);
    }

    /** Is slot i to be retransmitted now? */
    method NeedsRetransmission(i: nat, now: nat) returns (needed: bool)
      requires Valid() && i < windowSize
      ensures needed <==> IsDue(window[i], timer, now)
      ensures needed ==> window[i].sent && window[i].retries < Rto.MAX_RETRIES
    {
      hide SlotIndex, Rto.Backoff, Rto.U32;
      var slot := window[i];
      SlotFilled(window[..], windowSize, pending, i);
      if !slot.sent || slot.acked || |slot.data| == 0 || slot.tag == NO_TAG {
        return false;
      }
      var backoff := Rto.Backoff(timer.rtt, timer.timeoutMs, timer.floor, slot.retries);
      needed := Rto.U32(now - slot.sendTime) >= backoff && slot.retries < Rto.MAX_RETRIES;
    }

    /** Hands slot i to the transport again: a refusal burns no retry, backpressure restarts
        the timer. */
    method Retransmit(i: nat, now: nat, answer: int) returns (rc: int)
      requires Valid() && i < windowSize && window[i].sent && window[i].retries < Rto.MAX_RETRIES
      modifies window, this`wire, this`times
      ensures Valid() && rc == answer && times.history == old(times.history)
      ensures var s := old(window[i]).tag;
              && s in old(times.starts)
              && times.starts == if answer == SEND_BACKPRESSURE then old(times.starts)[s := old(times.starts)[s] + [now]]
                                 else if answer < 0 then old(times.starts)
                                 else old(times.starts)[s := [now]]
      ensures wire == if answer < 0 then old(wire) else old(wire) + [(window[i].tag, window[i].data)]
      ensures window[..] ==
                if answer == SEND_BACKPRESSURE then old(window[..])[i := old(window[i]).(sendTime := now)]
                else if answer < 0 then old(window[..])
                else old(window[..])[i := old(window[i]).(sendTime := now, retries := old(window[i]).retries + 1)]
    {
      hide Refines, RetriesBounded, SlotIndex, TimerOk, StartsOk;
      var slot := window[i];
      ghost var slots := window[..];
      SlotFilled(slots, windowSize, pending, i);
      SlotOwner(slots, windowSize, pending, i);
      StartsTouch(slots, windowSize, pending, times.starts, slot.tag, slot.(sendTime := now), now);
      rc := SendCallback(slot.tag, slot.data, answer);
      if rc == SEND_BACKPRESSURE {
        TouchRefines(slots, windowSize, pending, i, slot.(sendTime := now));
        window[i] := slot.(sendTime := now);
        times := times.(starts := times.starts[slot.tag := times.starts[slot.tag] + [now]]);
        assert window[..] == slots[i := slot.(sendTime := now)];
        return;
      }
      if rc < 0 {
        return;
      }
      var touched := slot.(sendTime := now, retries := slot.retries + 1);
      TouchRefines(slots, windowSize, pending, i, touched);
      StartsTouch(slots, windowSize, pending, times.starts, slot.tag, touched, now);
      window[i] := touched;
      times := times.(starts := times.starts[slot.tag := [now]]);
      assert window[..] == slots[i := touched];
    }
  }

  /** A fragment sent at 0 and acknowledged at 150, with a NACK at 100 that met backpressure: the
      round trip enters the estimate as 50 instead of 150. */
  method PostponedSample() returns (w: SelectiveRepeat)
    ensures w.Valid() && w.times.history == [Rto.Measured(50, Rto.RTO_MIN_MS)] && w.timer.rtt.srtt == 50
  {
    hide SelectiveRepeat.Valid, Refines, RetriesBounded, AllShort, Rto.Moved, Rto.Run, Rto.Sample;
    w := new SelectiveRepeat(ARQ_WINDOW, Rto.BASE_ARQ_TIMEOUT_MS);
    w.Sizes();
    var sent := w.SendFragment(0, [1], 0, SEND_OK);
    w.HandleNack(0, 100, SEND_BACKPRESSURE);
    w.HandleAck(0, 150);
    w.FirstEstimate();
  }
}
