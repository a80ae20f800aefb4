/** The radio driver's transmit tokens: two pools, and a ring that tells each completion which
    pool to credit, stepped one access at a time by the sending task and the completion callback. */
module TransmitTokens {

  const CTRL_DEPTH := 8
  const DATA_DEPTH := 20
  const SLOT_DEPTH := 28

  /** Where the sending task stands; the flag is the class of the frame, true for control. */
  datatype Sender = Ready | Took(ctrl: bool) | Wrote(ctrl: bool) | Advanced(ctrl: bool) | Rewound(ctrl: bool)

  /** Where the completion callback stands: the class of the completed frame and the class it
      read from the ring. */
  datatype Callback = Waiting | Reading(frame: bool, class_: bool) | Crediting(frame: bool, class_: bool)

  /** frames are the submitted frames whose completion has not been reported, oldest first. */
  datatype Tx = Tx(ctrl: nat, data: nat, ring: seq<bool>, write: nat, read: nat,
                   frames: seq<bool>, sender: Sender, callback: Callback)

  datatype Action =
    | Take(ctrl: bool) | WriteClass | Advance | Submit(ok: bool) | GiveBack
    | Complete(k: nat) | AdvanceRead | Credit

  function Tokens(t: Tx, ctrl: bool): nat {
    if ctrl then t.ctrl else t.data
  }

  function Give(t: Tx, ctrl: bool): Tx {
    if ctrl then t.(ctrl := t.ctrl + 1) else t.(data := t.data + 1)
  }

  predicate Enabled(t: Tx, a: Action) {
    && |t.ring| == SLOT_DEPTH && t.write < SLOT_DEPTH && t.read < SLOT_DEPTH
    && match a
       case Take(c) => t.sender.Ready?
       case WriteClass => t.sender.Took?
       case Advance => t.sender.Wrote?
       case Submit(ok) => t.sender.Advanced?
       case GiveBack => t.sender.Rewound?
       case Complete(k) => t.callback.Waiting? && k < |t.frames|
       case AdvanceRead => t.callback.Reading?
       case Credit => t.callback.Crediting?
  }

  function Act(t: Tx, a: Action): Tx
    requires Enabled(t, a)
  {
    match a
    case Take(c) =>
      if Tokens(t, c) == 0 then t   // backpressure
      else if c then t.(ctrl := t.ctrl - 1, sender := Took(c))
      else t.(data := t.data - 1, sender := Took(c))
    case WriteClass => t.(ring := t.ring[t.write := t.sender.ctrl], sender := Wrote(t.sender.ctrl))
    case Advance => t.(write := (t.write + 1) % 28, sender := Advanced(t.sender.ctrl))
    case Submit(ok) =>
      if ok then t.(frames := t.frames + [t.sender.ctrl], sender := Ready)
      else t.(write := (t.write + 28 - 1) % 28, sender := Rewound(t.sender.ctrl))
    case GiveBack => Give(t, t.sender.ctrl).(sender := Ready)
    case Complete(k) =>
      t.(frames := t.frames[..k] + t.frames[k + 1..], callback := Reading(t.frames[k], t.ring[t.read]))
    case AdvanceRead =>
      t.(read := (t.read + 1) % 28, callback := Crediting(t.callback.frame, t.callback.class_))
    case Credit => Give(t, t.callback.class_).(callback := Waiting)
  }

  // ---- The invariant ----

  function Count(s: seq<bool>, ctrl: bool): nat {
    if s == [] then 0 else Count(s[..|s| - 1], ctrl) + if s[|s| - 1] == ctrl then 1 else 0
  }

  /** Tokens held by a task outside the ring. */
  function Held(t: Tx, ctrl: bool): nat {
    (if (t.sender.Took? || t.sender.Wrote? || t.sender.Rewound?) && t.sender.ctrl == ctrl then 1 else 0)
    + (if t.callback.Crediting? && t.callback.class_ == ctrl then 1 else 0)
  }

  /** live are the ring entries between the read and the write position. */
  ghost predicate RingShows(ring: seq<bool>, read: nat, write: nat, live: seq<bool>) {
    && |ring| == SLOT_DEPTH && read < SLOT_DEPTH && |live| <= SLOT_DEPTH
    && write == Wrap(read + |live|)
    && forall k :: 0 <= k < |live| ==> ring[Wrap(read + k)] == live[k]
  }

  function Wrap(n: nat): (w: nat)
    ensures w < SLOT_DEPTH
  {
    n % 28
  }

  ghost predicate Conserved(t: Tx, live: seq<bool>) {
    && t.ctrl + Count(live, true) + Held(t, true) == CTRL_DEPTH
    && t.data + Count(live, false) + Held(t, false) == DATA_DEPTH
  }

  ghost predicate Good(t: Tx, live: seq<bool>) {
    && RingShows(t.ring, t.read, t.write, live)
    && Conserved(t, live)
    && |live| == |t.frames| + (if t.sender.Advanced? then 1 else 0) + (if t.callback.Reading? then 1 else 0)
    && (t.sender.Advanced? ==> live[|live| - 1] == t.sender.ctrl)
    && (t.callback.Reading? ==> live[0] == t.callback.class_)
    && (t.sender.Wrote? ==> t.write < SLOT_DEPTH && t.ring[t.write] == t.sender.ctrl)
  }

  /** The frames between the ring and the air, oldest first. */
  function UnderWay(t: Tx): seq<bool> {
    (if t.callback.Reading? then [t.callback.frame] else []) + t.frames + (if t.sender.Advanced? then [t.sender.ctrl] else [])
  }

  /** The frames under way are those of the ring entries, which holds as long as completions
      are reported in the order of submission. */
  ghost predicate InOrder(t: Tx, live: seq<bool>) {
    && live == UnderWay(t)
    && (t.callback.Crediting? ==> t.callback.class_ == t.callback.frame)
  }

  lemma {:induction false} CountBoth(s: seq<bool>)
    ensures Count(s, true) + Count(s, false) == |s|
  {
    if s != [] {
      CountBoth(s[..|s| - 1]);
    }
  }

  lemma {:induction false} CountDrop(s: seq<bool>, ctrl: bool)
    requires s != []
    ensures Count(s, ctrl) == Count(s[1..], ctrl) + if s[0] == ctrl then 1 else 0
  {
    if |s| > 1 {
      CountDrop(s[..|s| - 1], ctrl);
      assert s[1..][..|s| - 2] == s[..|s| - 1][1..];
    } else {
      assert s[..0] == [] && s[1..] == [];
    }
  }

  lemma CountAppend(s: seq<bool>, c: bool, ctrl: bool)
    ensures Count(s + [c], ctrl) == Count(s, ctrl) + if c == ctrl then 1 else 0
  {
    assert (s + [c])[..|s|] == s;
  }

  /** While the sender holds a token outside the ring, the ring has a free slot. */
  lemma RoomInRing(t: Tx, live: seq<bool>)
    requires Good(t, live)
    ensures |live| <= SLOT_DEPTH
    ensures t.sender.Took? || t.sender.Wrote? ==> |live| < SLOT_DEPTH
  {
    CountBoth(live);
  }

  /** The slot about to be written is none of the live ones: no pending completion loses its
      class. */
  lemma NoLiveEntryOverwritten(t: Tx, live: seq<bool>, k: nat)
    requires Good(t, live) && t.sender.Took? && k < |live|
    ensures Wrap(t.read + k) != t.write
    ensures Act(t, WriteClass).ring[Wrap(t.read + k)] == live[k]
  {
    RoomInRing(t, live);
    WrapFacts(t.read, k, |live|);
  }

  lemma WrapFacts(read: nat, k: nat, n: nat)
    requires k < n < 28
    ensures Wrap(read + k) != Wrap(read + n)
  {
  }

  lemma WrapSteps(n: nat)
    ensures Wrap(n + 1) == (Wrap(n) + 1) % 28
    ensures Wrap(n) == (Wrap(n + 1) + 28 - 1) % 28
  {
  }

  lemma RingPush(ring: seq<bool>, read: nat, write: nat, live: seq<bool>, c: bool)
    requires RingShows(ring, read, write, live) && |live| < SLOT_DEPTH && ring[write] == c
    ensures RingShows(ring, read, (write + 1) % 28, live + [c])
  {
    WrapSteps(read + |live|);
    hide Wrap;
    var live' := live + [c];
    forall k | 0 <= k < |live'|
      ensures ring[Wrap(read + k)] == live'[k]
    {
    }
  }

  lemma RingUnpush(ring: seq<bool>, read: nat, write: nat, live: seq<bool>)
    requires RingShows(ring, read, write, live) && live != []
    ensures RingShows(ring, read, (write + 28 - 1) % 28, live[..|live| - 1])
  {
    WrapSteps(read + |live| - 1);
    hide Wrap;
  }

  lemma RingPop(ring: seq<bool>, read: nat, write: nat, live: seq<bool>)
    requires RingShows(ring, read, write, live) && live != []
    ensures ring[read] == live[0]
    ensures RingShows(ring, (read + 1) % 28, write, live[1..])
  {
    var read', rest := (read + 1) % 28, live[1..];
    assert ring[Wrap(read + 0)] == live[0];
    assert Wrap(read' + |rest|) == Wrap(read + |live|);
    forall k | 0 <= k < |rest|
      ensures ring[Wrap(read' + k)] == rest[k]
    {
      assert Wrap(read' + k) == Wrap(read + (k + 1));
    }
  }

  lemma WriteKeeps(t: Tx, live: seq<bool>)
    requires Good(t, live) && t.sender.Took?
    ensures Good(Act(t, WriteClass), live)
  {
    forall k | 0 <= k < |live|
      ensures Act(t, WriteClass).ring[Wrap(t.read + k)] == live[k]
    {
      NoLiveEntryOverwritten(t, live, k);
    }
  }

  lemma AdvanceKeeps(t: Tx, live: seq<bool>)
    requires Good(t, live) && t.sender.Wrote?
    ensures Good(Act(t, Advance), live + [t.sender.ctrl])
  {
    RoomInRing(t, live);
    CountAppend(live, t.sender.ctrl, true);
    CountAppend(live, t.sender.ctrl, false);
    RingPush(t.ring, t.read, t.write, live, t.sender.ctrl);
    hide RingShows, Count;
  }

  lemma RewindKeeps(t: Tx, live: seq<bool>)
    requires Good(t, live) && t.sender.Advanced?
    ensures Good(Act(t, Submit(false)), live[..|live| - 1])
  {
    RingUnpush(t.ring, t.read, t.write, live);
    assert Count(live, true) == Count(live[..|live| - 1], true) + if t.sender.ctrl then 1 else 0;
    assert Count(live, false) == Count(live[..|live| - 1], false) + if t.sender.ctrl then 0 else 1;
    hide RingShows, Count;
  }

  lemma ReadKeeps(t: Tx, live: seq<bool>)
    requires Good(t, live) && t.callback.Reading?
    ensures Good(Act(t, AdvanceRead), live[1..])
  {
    CountDrop(live, true);
    CountDrop(live, false);
    RingPop(t.ring, t.read, t.write, live);
    hide RingShows, Count;
  }

  /** The live entries after a step. */
  function After(t: Tx, live: seq<bool>, a: Action): seq<bool>
    requires Enabled(t, a) && Good(t, live)
  {
    match a
    case Advance => live + [t.sender.ctrl]
    case Submit(ok) => if ok then live else live[..|live| - 1]
    case AdvanceRead => live[1..]
    case _ => live
  }

  /** Every step, completions in whatever order, conserves the tokens of both classes. */
  lemma StepKeeps(t: Tx, live: seq<bool>, a: Action)
    requires Good(t, live) && Enabled(t, a)
    ensures Good(Act(t, a), After(t, live, a))
  {
    hide RingShows, Count;
    match a {
      case WriteClass => WriteKeeps(t, live);
      case Advance => AdvanceKeeps(t, live);
      case Submit(ok) => if !ok { RewindKeeps(t, live); }
      case AdvanceRead => ReadKeeps(t, live);
      case Complete(k) => RingPop(t.ring, t.read, t.write, live);
      case _ =>
    }
  }

  lemma UnderWayAfter(t: Tx, a: Action)
    requires Enabled(t, a) && (a.Complete? ==> a.k == 0)
    ensures UnderWay(Act(t, a)) ==
            match a
            case Advance => UnderWay(t) + [t.sender.ctrl]
            case Submit(ok) => if ok then UnderWay(t) else UnderWay(t)[..|UnderWay(t)| - 1]
            case AdvanceRead => UnderWay(t)[1..]
            case _ => UnderWay(t)
  {
    var before, head := UnderWay(t), if t.callback.Reading? then [t.callback.frame] else [];
    var tail := if t.sender.Advanced? then [t.sender.ctrl] else [];
    assert before == head + t.frames + tail;
    hide UnderWay;
    var u := Act(t, a);
    match a {
      case Take(c) => UnderWayIs(u, head, t.frames, []);
      case WriteClass => UnderWayIs(u, head, t.frames, []);
      case Advance =>
        UnderWayIs(u, head, t.frames, [t.sender.ctrl]);
        assert before == head + t.frames;
      case Submit(ok) =>
        if ok {
          UnderWayIs(u, head, t.frames + tail, []);
        } else {
          UnderWayIs(u, head, t.frames, []);
          assert before[..|before| - 1] == head + t.frames;
        }
      case GiveBack => UnderWayIs(u, head, t.frames, []);
      case Complete(k) =>
        OldestOut(t.frames);
        UnderWayIs(u, [t.frames[0]], t.frames[1..], tail);
      case AdvanceRead =>
        UnderWayIs(u, [], t.frames, tail);
        assert before[1..] == t.frames + tail;
      case Credit => UnderWayIs(u, [], t.frames, tail);
    }
  }

  lemma OldestOut(s: seq<bool>)
    requires s != []
    ensures s[..0] + s[1..] == s[1..] && [s[0]] + s[1..] == s
  {
  }

  lemma UnderWayIs(t: Tx, head: seq<bool>, frames: seq<bool>, tail: seq<bool>)
    requires head == if t.callback.Reading? then [t.callback.frame] else []
    requires frames == t.frames && tail == if t.sender.Advanced? then [t.sender.ctrl] else []
    ensures UnderWay(t) == head + frames + tail && (tail == [] ==> UnderWay(t) == head + frames)
    ensures head == [] ==> UnderWay(t) == frames + tail
  {
  }

  /** A completion that is the oldest keeps frames and ring in step. */
  lemma StepKeepsOrder(t: Tx, live: seq<bool>, a: Action)
    requires Good(t, live) && InOrder(t, live) && Enabled(t, a) && (a.Complete? ==> a.k == 0)
    ensures InOrder(Act(t, a), After(t, live, a))
  {
    UnderWayAfter(t, a);
    if a.Complete? {
      RingPop(t.ring, t.read, t.write, live);
      assert live[0] == t.frames[0];
    }
    hide RingShows, Count, UnderWay;
  }

  // ---- Whole runs ----

  function Start(): Tx {
    Tx(CTRL_DEPTH, DATA_DEPTH, seq(SLOT_DEPTH, _ => false), 0, 0, [], Ready, Waiting)
  }

  lemma StartsGood()
    ensures Good(Start(), []) && InOrder(Start(), [])
  {
    var t := Start();
    assert RingShows(t.ring, t.read, t.write, []);
    assert UnderWay(t) == [];
    hide RingShows, UnderWay;
  }

  ghost predicate Runs(t: Tx, actions: seq<Action>, u: Tx)
    decreases |actions|
  {
    if actions == [] then u == t
    else Enabled(t, actions[0]) && Runs(Act(t, actions[0]), actions[1..], u)
  }

  ghost predicate CompletesInOrder(actions: seq<Action>) {
    forall i :: 0 <= i < |actions| && actions[i].Complete? ==> actions[i].k == 0
  }

  lemma {:induction false} RunKeeps(t: Tx, live: seq<bool>, actions: seq<Action>, u: Tx) returns (live': seq<bool>)
    requires Good(t, live) && Runs(t, actions, u)
    ensures Good(u, live')
    ensures InOrder(t, live) && CompletesInOrder(actions) ==> InOrder(u, live')
    decreases |actions|
  {
    if actions == [] {
      live' := live;
    } else {
      StepKeeps(t, live, actions[0]);
      if InOrder(t, live) && CompletesInOrder(actions) {
        StepKeepsOrder(t, live, actions[0]);
      }
      live' := RunKeeps(Act(t, actions[0]), After(t, live, actions[0]), actions[1..], u);
    }
  }

  lemma OrderedCredits(t: Tx, live: seq<bool>)
    requires Good(t, live) && InOrder(t, live)
    ensures !t.callback.Waiting? ==> t.callback.class_ == t.callback.frame
  {
  }

  lemma AtRest(t: Tx, live: seq<bool>)
    requires Good(t, live) && t.sender.Ready? && t.callback.Waiting? && t.frames == []
    ensures t.ctrl == CTRL_DEPTH && t.data == DATA_DEPTH && t.read == t.write
  {
  }

  /** Over every run from the start: free tokens, ring entries and tokens held mid-step add up
      to 8 and 20, and with in-order completions the callback is about to credit the pool that
      its frame was taken from. */
  lemma EveryRun(actions: seq<Action>, u: Tx) returns (live: seq<bool>)
    requires Runs(Start(), actions, u)
    ensures Good(u, live)
    ensures CompletesInOrder(actions) && !u.callback.Waiting? ==> u.callback.class_ == u.callback.frame
    ensures u.sender.Ready? && u.callback.Waiting? && u.frames == [] ==>
              u.ctrl == CTRL_DEPTH && u.data == DATA_DEPTH && u.read == u.write
  {
    StartsGood();
    hide Runs, Good, InOrder, Start;
    live := RunKeeps(Start(), [], actions, u);
    if CompletesInOrder(actions) {
      OrderedCredits(u, live);
    }
    if u.sender.Ready? && u.callback.Waiting? && u.frames == [] {
      AtRest(u, live);
    }
  }

  /** Backpressure is never spurious: a control frame is refused only when eight control tokens
      are in the ring or with the callback; likewise twenty for data. */
  lemma RefusedOnlyWhenOut(t: Tx, live: seq<bool>, c: bool)
    requires Good(t, live) && t.sender.Ready?
    ensures Act(t, Take(c)) == t <==>
              Count(live, c) + (if t.callback.Crediting? && t.callback.class_ == c then 1 else 0) == (if c then CTRL_DEPTH else DATA_DEPTH)
  {
  }

  // ---- Which pool is credited ----

  /** A completion credits its own pool iff the completed frame has the class of the oldest
      ring entry. */
  lemma CreditsOwnPoolIff(t: Tx, live: seq<bool>, k: nat)
    requires Good(t, live) && Enabled(t, Complete(k))
    ensures live != []
    ensures Act(t, Complete(k)).callback.class_ == Act(t, Complete(k)).callback.frame <==> t.frames[k] == live[0]
  {
    RingPop(t.ring, t.read, t.write, live);
  }

  /** What a step adds to the classes of the frames submitted, of the frames completed, and of
      the pools credited for them. */
  function SubmittedBy(t: Tx, a: Action): seq<bool>
    requires Enabled(t, a)
  {
    if a == Submit(true) then [t.sender.ctrl] else []
  }

  function CompletedBy(t: Tx, a: Action): seq<bool>
    requires Enabled(t, a)
  {
    if a.Complete? then [Act(t, a).callback.frame] else []
  }

  function CreditedBy(t: Tx, a: Action): seq<bool>
    requires Enabled(t, a)
  {
    if a.Complete? then [Act(t, a).callback.class_] else []
  }

  /** The same over a run, oldest first. */
  ghost function Submitted(t: Tx, actions: seq<Action>): seq<bool>
    decreases |actions|
  {
    if actions == [] || !Enabled(t, actions[0]) then []
    else SubmittedBy(t, actions[0]) + Submitted(Act(t, actions[0]), actions[1..])
  }

  ghost function Completed(t: Tx, actions: seq<Action>): seq<bool>
    decreases |actions|
  {
    if actions == [] || !Enabled(t, actions[0]) then []
    else CompletedBy(t, actions[0]) + Completed(Act(t, actions[0]), actions[1..])
  }

  ghost function Credited(t: Tx, actions: seq<Action>): (c: seq<bool>)
    ensures |c| == |Completed(t, actions)|
    decreases |actions|
  {
    if actions == [] || !Enabled(t, actions[0]) then []
    else CreditedBy(t, actions[0]) + Credited(Act(t, actions[0]), actions[1..])
  }

  /** live without the entry whose completion is being handled and the one not submitted yet. */
  function Between(live: seq<bool>, reading: bool, advanced: bool): seq<bool> {
    var from, to := if reading then 1 else 0, |live| - if advanced then 1 else 0;
    if from <= to then live[from..to] else []
  }

  /** The ring entries of the submitted frames whose completion has not been reported. */
  function Outstanding(t: Tx, live: seq<bool>): seq<bool> {
    Between(live, t.callback.Reading?, t.sender.Advanced?)
  }

  lemma BetweenAtEnd(live: seq<bool>, c: bool, reading: bool)
    requires reading ==> live != []
    ensures Between(live + [c], reading, true) == Between(live, reading, false)
    ensures Between(live + [c], reading, false) == Between(live, reading, false) + [c]
  {
  }

  lemma BetweenAtStart(live: seq<bool>, advanced: bool)
    requires |live| > if advanced then 1 else 0
    ensures Between(live, false, advanced) == [live[0]] + Between(live, true, advanced)
    ensures Between(live[1..], false, advanced) == Between(live, true, advanced)
  {
  }

  lemma LiveFacts(t: Tx, live: seq<bool>)
    requires Good(t, live)
    ensures |live| == |t.frames| + (if t.sender.Advanced? then 1 else 0) + (if t.callback.Reading? then 1 else 0)
    ensures t.sender.Advanced? ==> live[|live| - 1] == t.sender.ctrl
    ensures t.callback.Waiting? && t.frames != [] ==> t.read < |t.ring| && live[0] == t.ring[t.read]
  {
    if t.callback.Waiting? && t.frames != [] {
      RingPop(t.ring, t.read, t.write, live);
    }
  }

  lemma OutstandingAdvance(t: Tx, live: seq<bool>)
    requires Good(t, live) && Enabled(t, Advance)
    ensures Outstanding(Act(t, Advance), After(t, live, Advance)) == Outstanding(t, live)
  {
    LiveFacts(t, live);
    hide Good, Between;
    BetweenAtEnd(live, t.sender.ctrl, t.callback.Reading?);
  }

  lemma OutstandingSubmit(t: Tx, live: seq<bool>, ok: bool)
    requires Good(t, live) && Enabled(t, Submit(ok))
    ensures Outstanding(Act(t, Submit(ok)), After(t, live, Submit(ok))) == Outstanding(t, live) + if ok then [t.sender.ctrl] else []
  {
    LiveFacts(t, live);
    hide Good, Between;
    var before, c := live[..|live| - 1], t.sender.ctrl;
    assert live == before + [c];
    BetweenAtEnd(before, c, t.callback.Reading?);
  }

  lemma OutstandingAtStart(t: Tx, live: seq<bool>, a: Action)
    requires Good(t, live) && Enabled(t, a) && (a.Complete? || a.AdvanceRead?)
    ensures CreditedBy(t, a) + Outstanding(Act(t, a), After(t, live, a)) == Outstanding(t, live) + SubmittedBy(t, a)
  {
    LiveFacts(t, live);
    hide Good, Between;
    BetweenAtStart(live, t.sender.Advanced?);
  }

  lemma OutstandingStep(t: Tx, live: seq<bool>, a: Action)
    requires Good(t, live) && Enabled(t, a)
    ensures CreditedBy(t, a) + Outstanding(Act(t, a), After(t, live, a)) == Outstanding(t, live) + SubmittedBy(t, a)
  {
    if a.Advance? {
      OutstandingAdvance(t, live);
    } else if a.Submit? {
      OutstandingSubmit(t, live, a.ok);
    } else if a.Complete? || a.AdvanceRead? {
      OutstandingAtStart(t, live, a);
    } else {
      hide Good, Between;
    }
  }

  lemma FirstThenRest(t: Tx, actions: seq<Action>)
    requires actions != [] && Enabled(t, actions[0])
    ensures Credited(t, actions) == CreditedBy(t, actions[0]) + Credited(Act(t, actions[0]), actions[1..])
    ensures Submitted(t, actions) == SubmittedBy(t, actions[0]) + Submitted(Act(t, actions[0]), actions[1..])
  {
  }

  lemma Regroup(c: seq<bool>, cs: seq<bool>, end: seq<bool>, next: seq<bool>, ss: seq<bool>, first: seq<bool>, s: seq<bool>)
    requires cs + end == next + ss && c + next == first + s
    ensures (c + cs) + end == first + (s + ss)
  {
    assert (c + cs) + end == c + (cs + end) == (c + next) + ss == first + (s + ss);
  }

  /** Whatever the order of completions, the pools are credited in the order of submission. */
  lemma {:induction false} CreditsFollowSubmissions(t: Tx, live: seq<bool>, actions: seq<Action>, u: Tx) returns (live': seq<bool>)
    requires Good(t, live) && Runs(t, actions, u)
    ensures Good(u, live')
    ensures Credited(t, actions) + Outstanding(u, live') == Outstanding(t, live) + Submitted(t, actions)
    decreases |actions|
  {
    if actions == [] {
      live' := live;
    } else {
      var a := actions[0];
      StepKeeps(t, live, a);
      OutstandingStep(t, live, a);
      live' := CreditsFollowSubmissions(Act(t, a), After(t, live, a), actions[1..], u);
      hide *;
      var c, s := Credited(Act(t, a), actions[1..]), Submitted(Act(t, a), actions[1..]);
      FirstThenRest(t, actions);
      Regroup(CreditedBy(t, a), c, Outstanding(u, live'), Outstanding(Act(t, a), After(t, live, a)), s, Outstanding(t, live), SubmittedBy(t, a));
    }
  }

  /** Over every run from the start: each completion credits the pool of its frame iff the
      classes are completed in the order in which they were submitted. */
  lemma OwnPoolsIff(actions: seq<Action>, u: Tx)
    requires Runs(Start(), actions, u)
    ensures Credited(Start(), actions) == Completed(Start(), actions) <==> Completed(Start(), actions) <= Submitted(Start(), actions)
  {
    StartsGood();
    hide Runs, Start, Good;
    var live := CreditsFollowSubmissions(Start(), [], actions, u);
    var c, s := Credited(Start(), actions), Submitted(Start(), actions);
    assert Outstanding(Start(), []) == [];
    assert c + Outstanding(u, live) == s;
  }

  /** After one frame went through all four steps of send. */
  function Sent(t: Tx, c: bool): Tx
    requires Enabled(t, Take(c)) && Tokens(t, c) > 0
  {
    t.(ctrl := if c then t.ctrl - 1 else t.ctrl, data := if c then t.data else t.data - 1,
       ring := t.ring[t.write := c], write := (t.write + 1) % 28, frames := t.frames + [c])
  }

  /** After frame k went through all three steps of the callback. */
  function Done(t: Tx, k: nat): Tx
    requires Enabled(t, Complete(k))
  {
    Give(t, t.ring[t.read]).(frames := t.frames[..k] + t.frames[k + 1..], read := (t.read + 1) % 28)
  }

  lemma OneStep(t: Tx, actions: seq<Action>, v: Tx)
    requires actions != [] && Enabled(t, actions[0])
    ensures Runs(t, actions, v) <==> Runs(Act(t, actions[0]), actions[1..], v)
    ensures Submitted(t, actions) == SubmittedBy(t, actions[0]) + Submitted(Act(t, actions[0]), actions[1..])
    ensures Completed(t, actions) == CompletedBy(t, actions[0]) + Completed(Act(t, actions[0]), actions[1..])
  {
  }

  lemma SentOne(t: Tx, c: bool, rest: seq<Action>, v: Tx)
    requires Enabled(t, Take(c)) && Tokens(t, c) > 0 && Runs(Sent(t, c), rest, v)
    ensures var actions := [Take(c), WriteClass, Advance, Submit(true)] + rest;
            && Runs(t, actions, v)
            && Submitted(t, actions) == [c] + Submitted(Sent(t, c), rest) && Completed(t, actions) == Completed(Sent(t, c), rest)
  {
    hide Runs, Submitted, Completed;
    var actions := [Take(c), WriteClass, Advance, Submit(true)] + rest;
    var a, b, d := Act(t, Take(c)), Act(Act(t, Take(c)), WriteClass), Act(Act(Act(t, Take(c)), WriteClass), Advance);
    assert Act(d, Submit(true)) == Sent(t, c);
    assert actions[1..] == [WriteClass, Advance, Submit(true)] + rest;
    assert actions[1..][1..] == [Advance, Submit(true)] + rest;
    assert actions[1..][1..][1..] == [Submit(true)] + rest;
    assert actions[1..][1..][1..][1..] == rest;
    OneStep(t, actions, v);
    OneStep(a, actions[1..], v);
    OneStep(b, actions[1..][1..], v);
    OneStep(d, actions[1..][1..][1..], v);
  }

  lemma CompletedOne(t: Tx, k: nat)
    requires Enabled(t, Complete(k))
    ensures var actions := [Complete(k), AdvanceRead, Credit];
            Runs(t, actions, Done(t, k)) && Submitted(t, actions) == [] && Completed(t, actions) == [t.frames[k]]
  {
    var actions := [Complete(k), AdvanceRead, Credit];
    var a := Act(t, Complete(k));
    var b := Act(a, AdvanceRead);
    assert actions[1..] == [AdvanceRead, Credit] && actions[1..][1..] == [Credit] && actions[1..][1..][1..] == [];
    assert Act(b, Credit) == Done(t, k);
    OneStep(t, actions, Done(t, k));
    OneStep(a, actions[1..], Done(t, k));
    OneStep(b, actions[1..][1..], Done(t, k));
  }

  /** A control frame and then a data frame are sent, and the data frame completes first: the
      control pool is full again although its frame is still on the air. */
  lemma ReversedCompletion() returns (actions: seq<Action>, u: Tx)
    ensures Runs(Start(), actions, u)
    ensures Submitted(Start(), actions) == [true, false] && Completed(Start(), actions) == [false]
    ensures u.frames == [true] && u.ctrl == CTRL_DEPTH && u.data == DATA_DEPTH - 1
  {
    hide Runs, Submitted, Completed, Act;
    var rest := [Complete(1), AdvanceRead, Credit];
    var second := [Take(false), WriteClass, Advance, Submit(true)] + rest;
    actions := [Take(true), WriteClass, Advance, Submit(true)] + second;
    var t1 := Sent(Start(), true);
    var t2 := Sent(t1, false);
    u := Done(t2, 1);
    CompletedOne(t2, 1);
    SentOne(t1, false, rest, u);
    SentOne(Start(), true, second, u);
  }
}
