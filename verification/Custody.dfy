/** Who is responsible for each fragment of a mesh transfer, as a state machine over the
    steps of the sender: first sends, acknowledgements, exit deaths and re-homing. */
module Custody {
  import opened Layout
  import opened Counting
  import opened Queues

  const WINDOW := 64

  /** next: the next sequence number to send for the first time. alive and win: per elected
      exit, whether it is alive and which numbers its window holds. queue: numbers waiting
      for a new exit. retired: numbers acknowledged. */
  datatype View = View(next: nat, alive: seq<bool>, win: seq<set<nat>>, queue: seq<nat>, retired: set<nat>)

  ghost predicate SomeAlive(v: View) {
    exists i :: 0 <= i < |v.alive| && v.alive[i]
  }

  ghost predicate InSomeWindow(v: View, s: nat) {
    exists i :: 0 <= i < |v.win| && s in v.win[i]
  }

  function DeadCount(alive: seq<bool>): nat {
    if alive == [] then 0 else DeadCount(alive[1..]) + if alive[0] then 0 else 1
  }

  /** Windows are disjoint, no larger than 64, and hold only numbers sent and not retired. */
  ghost predicate WindowsOk(win: seq<set<nat>>, next: nat, retired: set<nat>) {
    && (forall i, s :: 0 <= i < |win| && s in win[i] ==> s < next)
    && (forall i, s :: 0 <= i < |win| && s in win[i] ==> s !in retired)
    && (forall i, j, s :: 0 <= i < |win| && 0 <= j < |win| && s in win[i] && s in win[j] ==> i == j)
    && (forall i :: 0 <= i < |win| ==> |win[i]| <= WINDOW)
  }

  /** No number has two holders, dead exits hold nothing, only data waits in the queue and the
      queue is bounded by what the dead exits can have held. */
  ghost predicate Exclusive(v: View) {
    && |v.alive| == |v.win|
    && NoDup(v.queue)
    && (forall s :: s in v.queue ==> s < v.next && !IsParity(s) && s !in v.retired && !InSomeWindow(v, s))
    && WindowsOk(v.win, v.next, v.retired)
    && (forall i :: 0 <= i < |v.win| && !v.alive[i] ==> v.win[i] == {})
    && (forall s :: s in v.retired ==> s < v.next)
    && |v.queue| <= WINDOW * DeadCount(v.alive)
  }

  ghost predicate Held(v: View, s: nat) {
    s in v.retired || s in v.queue || InSomeWindow(v, s)
  }

  /** While an exit is alive, every data number sent so far has a holder. */
  ghost predicate Covered(v: View) {
    SomeAlive(v) ==> forall s: nat :: s < v.next && !IsParity(s) ==> Held(v, s)
  }

  ghost predicate Inv(v: View) {
    Exclusive(v) && Covered(v)
  }

  // ---- The property, in terms of counting holders ----

  function WindowHolders(win: seq<set<nat>>, s: nat): nat {
    if win == [] then 0 else (if s in win[0] then 1 else 0) + WindowHolders(win[1..], s)
  }

  function Holders(v: View, s: nat): nat {
    (if s in v.retired then 1 else 0) + WindowHolders(v.win, s) + multiset(v.queue)[s]
  }

  lemma {:induction false} NoWindowHolder(win: seq<set<nat>>, s: nat)
    requires forall i :: 0 <= i < |win| ==> s !in win[i]
    ensures WindowHolders(win, s) == 0
  {
    if win != [] {
      NoWindowHolder(win[1..], s);
    }
  }

  lemma {:induction false} OneWindowHolder(win: seq<set<nat>>, s: nat, i: nat)
    requires i < |win| && s in win[i] && forall j :: 0 <= j < |win| && j != i ==> s !in win[j]
    ensures WindowHolders(win, s) == 1
  {
    if i == 0 {
      NoWindowHolder(win[1..], s);
    } else {
      OneWindowHolder(win[1..], s, i - 1);
    }
  }

  lemma {:induction false} QueuedOnce(q: seq<nat>, s: nat)
    requires NoDup(q)
    ensures multiset(q)[s] == if s in q then 1 else 0
  {
    if q != [] {
      assert q == [q[0]] + q[1..];
      QueuedOnce(q[1..], s);
    }
  }

  /** Single custody: with a survivor, every data number sent is in exactly one place, and
      when that place is a window its exit is alive. */
  lemma SingleCustody(v: View, s: nat)
    requires Inv(v) && SomeAlive(v) && s < v.next && !IsParity(s)
    ensures Holders(v, s) == 1
    ensures forall i :: 0 <= i < |v.win| && s in v.win[i] ==> v.alive[i]
  {
    QueuedOnce(v.queue, s);
    if InSomeWindow(v, s) {
      var i :| 0 <= i < |v.win| && s in v.win[i];
      OneWindowHolder(v.win, s, i);
    } else {
      NoWindowHolder(v.win, s);
    }
    assert Held(v, s);
  }

  // ---- The steps ----

  /** A fragment is sent for the first time through exit i. */
  function FirstSend(v: View, i: nat): View
    requires i < |v.win|
  {
    v.(next := v.next + 1, win := v.win[i := v.win[i] + {v.next}])
  }

  /** Exit i acknowledges s; an acknowledgement for anything else changes nothing. */
  function Ack(v: View, i: nat, s: nat): View
    requires i < |v.win|
  {
    if s in v.win[i] then v.(win := v.win[i := v.win[i] - {s}], retired := v.retired + {s}) else v
  }

  /** Exit i dies; with a survivor its data numbers, listed in orphans, start to wait. */
  function Die(v: View, i: nat, orphans: seq<nat>): View
    requires i < |v.win| && i < |v.alive|
  {
    v.(alive := v.alive[i := false], win := v.win[i := {}], queue := v.queue + orphans)
  }

  /** The k-th waiting number moves into the window of exit i. */
  function Rehome(v: View, k: nat, i: nat): View
    requires k < |v.queue| && i < |v.win|
  {
    v.(win := v.win[i := v.win[i] + {v.queue[k]}], queue := RemoveAt(v.queue, k))
  }

  /** The orphans of exit i are its data numbers, each once. */
  ghost predicate OrphansOf(v: View, i: nat, orphans: seq<nat>)
    requires i < |v.win|
  {
    && NoDup(orphans)
    && forall s :: s in orphans <==> s in v.win[i] && !IsParity(s)
  }

  // ---- Every step keeps the invariant ----

  lemma WindowGains(win: seq<set<nat>>, next: nat, retired: set<nat>, i: nat, s: nat, next': nat)
    requires WindowsOk(win, next, retired) && i < |win| && |win[i]| < WINDOW
    requires s < next' && next <= next' && s !in retired && forall j :: 0 <= j < |win| ==> s !in win[j]
    ensures WindowsOk(win[i := win[i] + {s}], next', retired)
  {
    var win' := win[i := win[i] + {s}];
    forall j, x | 0 <= j < |win| && x in win'[j]
      ensures x < next' && x !in retired && (x == s || x in win[j]) && (x == s ==> j == i)
    {
      assert x in win[j] || (x == s && j == i);
    }
  }

  lemma WindowLoses(win: seq<set<nat>>, next: nat, retired: set<nat>, i: nat, kept: set<nat>, retired': set<nat>)
    requires WindowsOk(win, next, retired) && i < |win| && kept <= win[i]
    requires forall s :: s in retired' ==> s in retired || (s in win[i] && s !in kept)
    ensures WindowsOk(win[i := kept], next, retired')
  {
    var win' := win[i := kept];
    forall j, x | 0 <= j < |win| && x in win'[j]
      ensures x < next && x !in retired' && x in win[j]
    {
      assert x in win[j];
    }
    assert win[i] == kept + (win[i] - kept);
  }

  lemma FirstSendKeeps(v: View, i: nat)
    requires Inv(v) && i < |v.win| && v.alive[i] && |v.win[i]| < WINDOW
    ensures Inv(FirstSend(v, i))
  {
    var v' := FirstSend(v, i);
    WindowGains(v.win, v.next, v.retired, i, v.next, v.next + 1);
    WindowsAfter(v, v', i);
    forall s: nat | s < v'.next && !IsParity(s) && SomeAlive(v')
      ensures Held(v', s)
    {
      if s < v.next {
        assert Held(v, s);
        StillInWindow(v, v', i, s);
      } else {
        assert s in v'.win[i];
      }
    }
  }

  lemma StillInWindow(v: View, v': View, i: nat, s: nat)
    requires i < |v.win| == |v'.win| && v'.win == v.win[i := v'.win[i]]
    requires s in v.win[i] ==> s in v'.win[i]
    ensures InSomeWindow(v, s) ==> InSomeWindow(v', s)
  {
    if j :| 0 <= j < |v.win| && s in v.win[j] {
      assert s in v'.win[j];
    }
  }

  /** Changing window i only moves numbers in or out of window i. */
  lemma WindowsAfter(v: View, v': View, i: nat)
    requires i < |v.win| == |v'.win| && v'.win == v.win[i := v'.win[i]]
    ensures forall s :: s !in v'.win[i] && InSomeWindow(v', s) ==> InSomeWindow(v, s)
  {
    forall s | s !in v'.win[i] && InSomeWindow(v', s)
      ensures InSomeWindow(v, s)
    {
      var j :| 0 <= j < |v'.win| && s in v'.win[j];
      assert s in v.win[j];
    }
  }

  lemma AckKeeps(v: View, i: nat, s: nat)
    requires Inv(v) && i < |v.win|
    ensures Inv(Ack(v, i, s))
  {
    var v' := Ack(v, i, s);
    if s in v.win[i] {
      WindowLoses(v.win, v.next, v.retired, i, v.win[i] - {s}, v.retired + {s});
      forall x | InSomeWindow(v', x)
        ensures InSomeWindow(v, x) && x != s
      {
        var j :| 0 <= j < |v'.win| && x in v'.win[j];
        assert x in v.win[j];
      }
      assert InSomeWindow(v, s);
      forall x: nat | x < v'.next && !IsParity(x) && SomeAlive(v')
        ensures Held(v', x)
      {
        assert Held(v, x);
        if x != s {
          StillInWindow(v, v', i, x);
        }
      }
    }
  }

  lemma {:induction false} DeadCountAfter(alive: seq<bool>, i: nat)
    requires i < |alive| && alive[i]
    ensures DeadCount(alive[i := false]) == DeadCount(alive) + 1
  {
    if i > 0 {
      assert alive[i := false][1..] == alive[1..][i - 1 := false];
      DeadCountAfter(alive[1..], i - 1);
    }
  }

  lemma {:induction false} DeadCountMax(alive: seq<bool>)
    ensures DeadCount(alive) <= |alive|
    ensures forall i :: 0 <= i < |alive| && alive[i] ==> DeadCount(alive) < |alive|
  {
    if alive != [] {
      DeadCountMax(alive[1..]);
      forall i | 0 <= i < |alive| && alive[i]
        ensures DeadCount(alive) < |alive|
      {
        if i > 0 {
          assert alive[1..][i - 1];
        }
      }
    }
  }

  lemma DieKeeps(v: View, i: nat, orphans: seq<nat>)
    requires Inv(v) && i < |v.win| && v.alive[i] && OrphansOf(v, i, orphans)
    ensures Inv(Die(v, i, orphans))
  {
    var v' := Die(v, i, orphans);
    DeadCountAfter(v.alive, i);
    WindowLoses(v.win, v.next, v.retired, i, {}, v.retired);
    NoDupSize(orphans, v.win[i]);
    forall x | InSomeWindow(v', x)
      ensures InSomeWindow(v, x) && x !in v.win[i]
    {
      var j :| 0 <= j < |v'.win| && x in v'.win[j];
      assert x in v.win[j] && j != i;
    }
    forall x | x in orphans
      ensures InSomeWindow(v, x)
    {
      assert x in v.win[i];
    }
    NoDupAppend(v.queue, orphans);
    assert SomeAlive(v);
    forall x: nat | x < v'.next && !IsParity(x) && SomeAlive(v')
      ensures Held(v', x)
    {
      assert Held(v, x);
      if InSomeWindow(v, x) {
        var j :| 0 <= j < |v.win| && x in v.win[j];
        if j == i {
          assert x in orphans;
        } else {
          assert x in v'.win[j];
        }
      }
    }
  }

  /** The last exit dies: its numbers are given up, which is allowed as nobody is left. */
  lemma LastDieKeeps(v: View, i: nat)
    requires Inv(v) && i < |v.win| && v.alive[i] && !SomeAlive(Die(v, i, []))
    ensures Inv(Die(v, i, []))
  {
    var v' := Die(v, i, []);
    DeadCountAfter(v.alive, i);
    WindowLoses(v.win, v.next, v.retired, i, {}, v.retired);
    forall x | InSomeWindow(v', x)
      ensures InSomeWindow(v, x)
    {
      var j :| 0 <= j < |v'.win| && x in v'.win[j];
      assert x in v.win[j];
    }
  }

  lemma RehomeKeeps(v: View, k: nat, i: nat)
    requires Inv(v) && k < |v.queue| && i < |v.win| && v.alive[i] && |v.win[i]| < WINDOW
    ensures Inv(Rehome(v, k, i))
  {
    var v', s := Rehome(v, k, i), v.queue[k];
    RemoveAtMembers(v.queue, k);
    assert forall j :: 0 <= j < |v.win| ==> s !in v.win[j] by {
      assert !InSomeWindow(v, s);
    }
    WindowGains(v.win, v.next, v.retired, i, s, v.next);
    WindowsAfter(v, v', i);
    forall x: nat | x < v'.next && !IsParity(x) && SomeAlive(v')
      ensures Held(v', x)
    {
      assert Held(v, x);
      if x == s {
        assert x in v'.win[i];
      } else {
        StillInWindow(v, v', i, x);
      }
    }
  }

  // ---- Whole runs ----

  ghost predicate Step(v: View, v': View) {
    || (exists i: nat :: i < |v.win| == |v.alive| && v.alive[i] && |v.win[i]| < WINDOW && v' == FirstSend(v, i))
    || (exists i: nat, s: nat :: i < |v.win| && v' == Ack(v, i, s))
    || (exists i: nat, orphans :: i < |v.win| == |v.alive| && v.alive[i] && OrphansOf(v, i, orphans) && v' == Die(v, i, orphans))
    || (exists i: nat :: i < |v.win| == |v.alive| && v.alive[i] && v' == Die(v, i, []) && !SomeAlive(v'))
    || (exists k: nat, i: nat :: k < |v.queue| && i < |v.win| == |v.alive| && v.alive[i] && |v.win[i]| < WINDOW && v' == Rehome(v, k, i))
  }

  function Elected(n: nat): View {
    View(0, seq(n, _ => true), seq(n, _ => {}), [], {})
  }

  ghost predicate Run(run: seq<View>, n: nat) {
    && run != [] && run[0] == Elected(n)
    && forall k :: 0 <= k < |run| - 1 ==> Step(run[k], run[k + 1])
  }

  lemma ElectedOk(n: nat)
    ensures Inv(Elected(n))
  {
  }

  lemma StepKeeps(v: View, v': View)
    requires Inv(v) && Step(v, v')
    ensures Inv(v') && |v'.alive| == |v.alive|
  {
    if i: nat :| i < |v.win| && v.alive[i] && |v.win[i]| < WINDOW && v' == FirstSend(v, i) {
      FirstSendKeeps(v, i);
    } else if i: nat, s: nat :| i < |v.win| && v' == Ack(v, i, s) {
      AckKeeps(v, i, s);
    } else if i: nat, orphans :| i < |v.win| && v.alive[i] && OrphansOf(v, i, orphans) && v' == Die(v, i, orphans) {
      DieKeeps(v, i, orphans);
    } else if i: nat :| i < |v.win| && v.alive[i] && v' == Die(v, i, []) && !SomeAlive(v') {
      LastDieKeeps(v, i);
    } else {
      var k: nat, i: nat :| k < |v.queue| && i < |v.win| && v.alive[i] && |v.win[i]| < WINDOW && v' == Rehome(v, k, i);
      RehomeKeeps(v, k, i);
    }
  }

  /** Over every run: single custody at every state that has a survivor, and a queue that
      never outgrows 64 numbers per dead exit, hence never the 256 slots reserved for it. */
  lemma {:induction false} EveryRun(run: seq<View>, n: nat)
    requires Run(run, n) && n <= 4
    ensures var v := run[|run| - 1];
            && Inv(v) && |v.alive| == n
            && |v.queue| <= WINDOW * DeadCount(v.alive) <= 256
            && (SomeAlive(v) ==> |v.queue| <= 192)
            && (SomeAlive(v) ==> forall s: nat :: s < v.next && !IsParity(s) ==> Holders(v, s) == 1)
  {
    if |run| == 1 {
      ElectedOk(n);
    } else {
      EveryRun(run[..|run| - 1], n);
      StepKeeps(run[|run| - 2], run[|run| - 1]);
    }
    var v := run[|run| - 1];
    DeadCountMax(v.alive);
    if SomeAlive(v) {
      forall s: nat | s < v.next && !IsParity(s)
        ensures Holders(v, s) == 1
      {
        SingleCustody(v, s);
      }
    }
  }
}
