/** The engine's four sender windows, one per elected exit. */
module ExitWindowArray {
  import opened Bytes
  import opened SenderWindow
  import opened Sorting
  import Rto

  const MAX_EXIT_NODES := 4

  type Pendings = seq<map<nat, seq<byte>>>

  /** The numbers held by each of the first n windows. */
  function Wins(p: Pendings, n: nat): (w: seq<set<nat>>)
    requires n <= |p|
    ensures |w| == n
  {
    seq(n, i requires 0 <= i < n => p[i].Keys)
  }

  lemma WinsMembers(p: Pendings, n: nat, i: nat)
    requires i < n <= |p|
    ensures Wins(p, n)[i] == p[i].Keys
  {
  }

  lemma WinsStored(p: Pendings, n: nat, i: nat, s: nat, data: seq<byte>)
    requires i < n <= |p|
    ensures Wins(Stored(p, i, s, data), n) == Wins(p, n)[i := Wins(p, n)[i] + {s}]
  {
    assert p[i][s := data].Keys == p[i].Keys + {s};
  }

  lemma WinsRemoved(p: Pendings, n: nat, i: nat, s: nat)
    requires i < n <= |p|
    ensures Wins(Removed(p, i, s), n) == Wins(p, n)[i := Wins(p, n)[i] - {s}]
  {
    assert (p[i] - {s}).Keys == p[i].Keys - {s};
  }

  lemma WinsReset(p: Pendings, n: nat, i: nat)
    requires i < n <= |p|
    ensures Wins(p[i := map[]], n) == Wins(p, n)[i := {}]
  {
    var empty: map<nat, seq<byte>> := map[];
    assert empty.Keys == {};
    assert forall j :: 0 <= j < n ==> p[i := map[]][j] == if j == i then empty else p[j];
  }

  function Stored(p: Pendings, i: nat, s: nat, data: seq<byte>): Pendings
    requires i < |p|
  {
    var m: map<nat, seq<byte>> := p[i][s := data];
    p[i := m]
  }

  function Removed(p: Pendings, i: nat, s: nat): Pendings
    requires i < |p|
  {
    var m: map<nat, seq<byte>> := p[i] - {s};
    p[i := m]
  }

  const NoTimes := Times([], map[])

  /** The timer of number s in window i is started anew. */
  function Restart(t: seq<Times>, i: nat, s: nat, starts: seq<nat>): seq<Times>
    requires i < |t|
  {
    t[i := t[i].(starts := t[i].starts[s := starts])]
  }

  /** Window i measured nothing, and whatever timers it restarted started at now; the other
      windows did nothing. */
  ghost predicate Restarts(t: seq<Times>, t': seq<Times>, i: nat, now: nat)
    requires i < |t|
  {
    |t'| == |t| && t' == t[i := t'[i]] && t'[i].history == t[i].history && AllRestarted(t[i].starts, t'[i].starts, now)
  }

  /** Every timer that was started in between was started at now. */
  ghost predicate StartedAt(t: seq<Times>, t': seq<Times>, now: nat) {
    |t| == |t'| && forall i :: 0 <= i < |t| ==> NewStartsAt(t[i].starts, t'[i].starts, now)
  }

  ghost predicate NewStartsAt(a: map<nat, seq<nat>>, b: map<nat, seq<nat>>, now: nat) {
    forall s :: s in b ==> (s in a && b[s] == a[s]) || (b[s] != [] && Last(b[s]) == now)
  }

  /** Window i after an acknowledgement of s: measured if s was sent once only. */
  function Acknowledged(t: Times, s: nat, measured: bool, now: nat, floor: nat): Times {
    Times(if measured && s in t.starts && t.starts[s] != []
          then t.history + [Rto.Measured(Rto.U32(now - Last(t.starts[s])), floor)] else t.history,
          t.starts - {s})
  }

  lemma StartedNone(t: seq<Times>, now: nat)
    ensures StartedAt(t, t, now)
  {
  }

  lemma StartedBoth(t: seq<Times>, u: seq<Times>, v: seq<Times>, now: nat)
    requires StartedAt(t, u, now) && StartedAt(u, v, now)
    ensures StartedAt(t, v, now)
  {
    forall i | 0 <= i < |t|
      ensures NewStartsAt(t[i].starts, v[i].starts, now)
    {
      assert NewStartsAt(t[i].starts, u[i].starts, now) && NewStartsAt(u[i].starts, v[i].starts, now);
    }
  }

  lemma StartedOne(t: seq<Times>, i: nat, s: nat, now: nat)
    requires i < |t|
    ensures StartedAt(t, Restart(t, i, s, [now]), now) && StartedAt(t, t[i := NoTimes], now)
  {
  }

  lemma StartedAgain(t: seq<Times>, t': seq<Times>, i: nat, now: nat)
    requires i < |t| && Restarts(t, t', i, now)
    ensures StartedAt(t, t', now)
  {
  }

  class ExitWindows {
    const arq: seq<SelectiveRepeat>
    ghost const repr: set<object>
    /** What each window holds. */
    ghost var pendings: Pendings
    /** What each window measured, and when its timers were started. */
    ghost var times: seq<Times>
    /** Everything the transport accepted from any window since the session began, in order. */
    ghost var wire: seq<(nat, seq<byte>)>

    ghost predicate Distinct() {
      && |arq| == MAX_EXIT_NODES
      && (forall i :: 0 <= i < MAX_EXIT_NODES ==> arq[i].windowSize == ARQ_WINDOW)
      && (forall i :: 0 <= i < MAX_EXIT_NODES ==> arq[i] in repr && arq[i].window in repr)
      && (forall i, j :: 0 <= i < j < MAX_EXIT_NODES ==> arq[i] != arq[j])
      && (forall i, j :: 0 <= i < j < MAX_EXIT_NODES ==> arq[i].window != arq[j].window)
      && repr == {this, arq[0], arq[1], arq[2], arq[3], arq[0].window, arq[1].window, arq[2].window, arq[3].window}
    }

    ghost predicate Valid()
      reads this, repr
    {
      && Distinct()
      && |pendings| == MAX_EXIT_NODES
      && (forall i {:trigger arq[i].Valid()} :: 0 <= i < MAX_EXIT_NODES ==> arq[i].Valid())
      && (forall i :: 0 <= i < MAX_EXIT_NODES ==> arq[i].pending == pendings[i])
      && |times| == MAX_EXIT_NODES
      && (forall i :: 0 <= i < MAX_EXIT_NODES ==> arq[i].times == times[i])
    }

    /** Valid but for what the record says of window i. */
    ghost predicate Unrecorded(i: nat)
      reads this, repr
    {
      && Distinct() && i < MAX_EXIT_NODES
      && |pendings| == |times| == MAX_EXIT_NODES
      && (forall k {:trigger arq[k].Valid()} :: 0 <= k < MAX_EXIT_NODES ==> arq[k].Valid())
      && (forall k :: 0 <= k < MAX_EXIT_NODES && k != i ==> arq[k].pending == pendings[k] && arq[k].times == times[k])
    }

    /** Window i has changed, its transport log from position n on. */
    ghost method Record(i: nat, n: nat)
      requires Unrecorded(i) && n <= |arq[i].wire|
      modifies this`pendings, this`times, this`wire
      ensures Valid() && wire == old(wire) + arq[i].wire[n..]
      ensures pendings == old(pendings)[i := arq[i].pending] && times == old(times)[i := arq[i].times]
    {
      hide SelectiveRepeat.Valid;
      wire := wire + arq[i].wire[n..];
      pendings, times := pendings[i := arq[i].pending], times[i := arq[i].times];
    }

    constructor (timeoutMs: nat)
      requires timeoutMs <= Rto.MAX_ARQ_TIMEOUT_MS
      ensures Valid() && fresh(repr) && wire == []
      ensures pendings == [map[], map[], map[], map[]] && times == [NoTimes, NoTimes, NoTimes, NoTimes]
    {
      hide SelectiveRepeat.Valid;
      var a := new SelectiveRepeat(ARQ_WINDOW, timeoutMs);
      var b := new SelectiveRepeat(ARQ_WINDOW, timeoutMs);
      var c := new SelectiveRepeat(ARQ_WINDOW, timeoutMs);
      var d := new SelectiveRepeat(ARQ_WINDOW, timeoutMs);
      arq := [a, b, c, d];
      pendings, wire, times := [map[], map[], map[], map[]], [], [NoTimes, NoTimes, NoTimes, NoTimes];
      repr := {this, a, b, c, d, a.window, b.window, c.window, d.window};
    }

    lemma FourWindows()
      requires Valid()
      ensures |arq| == MAX_EXIT_NODES && forall i :: 0 <= i < MAX_EXIT_NODES ==> arq[i] in repr
    {
    }

    method CanSend(i: nat, s: nat) returns (can: bool)
      requires Valid() && i < MAX_EXIT_NODES
      ensures can <==> SlotFree(pendings[i], ARQ_WINDOW, s)
    {
      can := arq[i].CanSendSequence(s);
    }

    method Contains(i: nat, s: nat) returns (contains: bool)
      requires Valid() && i < MAX_EXIT_NODES
      ensures contains <==> s in pendings[i]
    {
      contains := arq[i].ContainsSequence(s);
    }

    method Used(i: nat) returns (used: nat)
      requires Valid() && i < MAX_EXIT_NODES
      ensures used == |pendings[i]| <= ARQ_WINDOW
    {
      arq[i].PendingFits();
      used := arq[i].inFlight;
    }

    method Failed(i: nat) returns (failed: bool)
      requires Valid() && i < MAX_EXIT_NODES
      ensures failed == arq[i].senderFailed
    {
      failed := arq[i].senderFailed;
    }

    method Send(i: nat, s: nat, data: seq<byte>, now: nat, answer: int) returns (ret: int)
      requires Valid() && i < MAX_EXIT_NODES && s < NO_TAG
      modifies repr
      ensures Valid()
      ensures ret == 0 || ret == -1
      ensures ret == -1 || s in old(pendings[i]) ==> pendings == old(pendings) && wire == old(wire)
      ensures ret == 0 && s !in old(pendings[i]) ==>
                && pendings == Stored(old(pendings), i, s, data) && wire == old(wire) + [(s, data)]
                && |old(pendings[i])| < ARQ_WINDOW
      ensures ret == 0 <==>
                0 < |data| <= ESPNOW_MAX_PAYLOAD &&
                (s in old(pendings[i]) || (SlotFree(old(pendings[i]), ARQ_WINDOW, s) && answer >= 0))
      ensures times == if ret == 0 && s !in old(pendings[i]) then Restart(old(times), i, s, [now]) else old(times)
    {
      hide SelectiveRepeat.Valid;
      ghost var n := |arq[i].wire|;
      ret := arq[i].SendFragment(s, data, now, answer);
      arq[i].PendingFits();
      Record(i, n);
    }

    ghost function Floor(i: nat): nat
      requires Valid() && i < MAX_EXIT_NODES
      reads this, repr
    {
      arq[i].timer.floor
    }

    /** Number s of window i was sent once only. */
    ghost predicate FirstAttempt(i: nat, s: nat)
      requires Valid() && i < MAX_EXIT_NODES
      reads this, repr
    {
      arq[i].FirstAttempt(s)
    }

    method Ack(i: nat, s: nat, now: nat)
      requires Valid() && i < MAX_EXIT_NODES
      modifies repr
      ensures Valid() && wire == old(wire)
      ensures pendings == Removed(old(pendings), i, s)
      ensures s in old(pendings[i]) ==> s in old(times[i]).starts && old(times[i]).starts[s] != []
      ensures times == old(times)[i := Acknowledged(old(times[i]), s, s in old(pendings[i]) && old(FirstAttempt(i, s)), now, Floor(i))]
    {
      hide SelectiveRepeat.Valid;
      arq[i].HandleAck(s, now);
      Record(i, |arq[i].wire|);
    }

    method Nack(i: nat, s: nat, now: nat, answer: int)
      requires Valid() && i < MAX_EXIT_NODES
      modifies repr
      ensures Valid() && pendings == old(pendings)
      ensures wire == if s in pendings[i] && answer >= 0 then old(wire) + [(s, pendings[i][s])] else old(wire)
      ensures Restarts(old(times), times, i, now)
    {
      hide SelectiveRepeat.Valid;
      ghost var n := |arq[i].wire|;
      arq[i].HandleNack(s, now, answer);
      Record(i, n);
    }

    /** How many retransmissions window i has to make at now. */
    ghost function DueCount(i: nat, now: nat): nat
      requires Valid() && i < MAX_EXIT_NODES
      reads this, repr
    {
      |arq[i].Due(now)|
    }

    method Tick(i: nat, maxSends: nat, now: nat, answers: nat -> int) returns (n: nat)
      requires Valid() && i < MAX_EXIT_NODES
      modifies repr
      ensures Valid() && pendings == old(pendings) && n <= maxSends
      ensures forall k :: 0 <= k < MAX_EXIT_NODES ==> arq[k].senderFailed == old(arq[k].senderFailed)
      ensures forall k: nat :: k < MAX_EXIT_NODES && k != i ==> DueCount(k, now) == old(DueCount(k, now))
      ensures old(wire) <= wire && |wire| == |old(wire)| + n && AllPending(wire[|old(wire)|..], pendings[i])
      ensures n == maxSends || n == old(DueCount(i, now)) || answers(n) < 0
      ensures n <= old(DueCount(i, now))
      ensures Restarts(old(times), times, i, now)
    {
      hide SelectiveRepeat.Valid;
      ghost var m := |arq[i].wire|;
      n := arq[i].Tick(maxSends, now, answers);
      Record(i, m);
    }

    method Reset(i: nat)
      requires Valid() && i < MAX_EXIT_NODES
      modifies repr
      ensures Valid() && wire == old(wire)
      ensures pendings == old(pendings)[i := map[]] && times == old(times)[i := NoTimes]
    {
      hide SelectiveRepeat.Valid;
      arq[i].ResetSender();
      Record(i, 0);
    }

    method Snapshot(i: nat) returns (out: seq<nat>)
      requires Valid() && i < MAX_EXIT_NODES
      ensures StrictlyAscending(out) && forall s :: s in out <==> s in pendings[i]
    {
      hide SelectiveRepeat.Valid;
      arq[i].PendingFits();
      var buf := new nat[ARQ_WINDOW](_ => 0);
      var count := arq[i].SnapshotPendingSequences(buf);
      out := buf[..count];
    }

    ghost predicate Configured(timeoutMs: nat, floorMs: nat)
      requires Valid()
      reads this, repr
    {
      forall i :: 0 <= i < MAX_EXIT_NODES ==> arq[i].timer.timeoutMs == timeoutMs && arq[i].timer.floor == floorMs
    }

    /** Configures the timers of all windows. */
    method SetTimers(timeoutMs: nat, floorMs: nat)
      requires Valid() && timeoutMs <= Rto.MAX_ARQ_TIMEOUT_MS && floorMs <= Rto.RTO_MAX_MS
      modifies repr
      ensures Valid() && pendings == old(pendings) && wire == old(wire) && times == old(times)
      ensures Configured(timeoutMs, floorMs)
    {
      hide SelectiveRepeat.Valid;
      FourWindows();
      for i := 0 to MAX_EXIT_NODES
        invariant Valid() && pendings == old(pendings) && wire == old(wire) && times == old(times)
        invariant forall k :: 0 <= k < i ==> arq[k].timer.timeoutMs == timeoutMs && arq[k].timer.floor == floorMs
      {
        arq[i].SetTimeout(timeoutMs);
        arq[i].SetMinRtoFloor(floorMs);
      }
    }

    /** Clears all windows; a new session starts with nothing sent. */
    method ResetAll()
      requires Valid()
      modifies repr
      ensures Valid() && wire == [] && pendings == [map[], map[], map[], map[]] && times == [NoTimes, NoTimes, NoTimes, NoTimes]
    {
      hide SelectiveRepeat.Valid;
      for i := 0 to MAX_EXIT_NODES
        invariant Valid()
        invariant forall k :: 0 <= k < i ==> pendings[k] == map[] && times[k] == NoTimes
      {
        Reset(i);
      }
      wire := [];
    }
  }
}
